/** The clean-up that scrape_webpage applies to the text of a fetched page:
    split into lines, strip each line, split each line on double spaces, strip
    each phrase, drop the empty ones and join the rest with single spaces. */
module TextCleanup {

  /** str.isspace for one character, the set that str.strip() removes. */
  predicate IsSpace(c: char) {
    || c == ' ' || ('\t' <= c <= '\r') || ('\U{1c}' <= c <= '\U{1f}')
    || c == '\U{85}' || c == '\U{a0}' || c == '\U{1680}' || ('\U{2000}' <= c <= '\U{200a}')
    || c == '\U{2028}' || c == '\U{2029}' || c == '\U{202f}' || c == '\U{205f}' || c == '\U{3000}'
  }

  /** The line boundaries of str.splitlines ("\r\n" counts as one). */
  predicate IsLineBreak(c: char) {
    || c == '\n' || c == '\r' || c == '\U{0b}' || c == '\U{0c}' || ('\U{1c}' <= c <= '\U{1e}')
    || c == '\U{85}' || c == '\U{2028}' || c == '\U{2029}'
  }

  predicate NoLineBreak(s: string) {
    forall i :: 0 <= i < |s| ==> !IsLineBreak(s[i])
  }

  /** The last character of s is a space. */
  predicate EndsInSpace(s: string) {
    s != [] && s[|s| - 1] == ' '
  }

  /** s is made of line terminators only. */
  predicate AllLineBreaks(s: string) {
    forall i :: 0 <= i < |s| ==> IsLineBreak(s[i])
  }

  /** s has no two adjacent U+0020 spaces. */
  predicate NoDoubleSpace(s: string) {
    forall i :: 0 <= i < |s| - 1 ==> !(s[i] == ' ' && s[i + 1] == ' ')
  }

  /** s neither starts nor ends with whitespace. */
  predicate Trimmed(s: string) {
    s == [] || (!IsSpace(s[0]) && !IsSpace(s[|s| - 1]))
  }

  /** What the clean-up produces: trimmed, on one line, without double spaces. */
  predicate Clean(s: string) {
    Trimmed(s) && NoLineBreak(s) && NoDoubleSpace(s)
  }

  /** The characters of s that are not whitespace, in order. */
  function NonSpace(s: string): string {
    if s == [] then [] else (if IsSpace(s[0]) then [] else [s[0]]) + NonSpace(s[1..])
  }

  /** The characters of s that are not line breaks, in order. */
  function NoBreaks(s: string): string {
    if s == [] then [] else (if IsLineBreak(s[0]) then [] else [s[0]]) + NoBreaks(s[1..])
  }

  /** The parts, one after the other. */
  function Concat(parts: seq<string>): string {
    if parts == [] then [] else parts[0] + Concat(parts[1..])
  }

  /** sep.join(parts) */
  function Join(sep: string, parts: seq<string>): string {
    if parts == [] then []
    else if |parts| == 1 then parts[0]
    else parts[0] + sep + Join(sep, parts[1..])
  }

  lemma {:induction false} NonSpaceAppend(a: string, b: string)
    ensures NonSpace(a + b) == NonSpace(a) + NonSpace(b)
  {
    if a == [] {
      assert a + b == b;
    } else {
      assert (a + b)[0] == a[0] && (a + b)[1..] == a[1..] + b;
      NonSpaceAppend(a[1..], b);
      var h := if IsSpace(a[0]) then [] else [a[0]];
      assert NonSpace(a + b) == h + NonSpace(a[1..] + b);
    }
  }

  lemma {:induction false} NoBreaksAppend(a: string, b: string)
    ensures NoBreaks(a + b) == NoBreaks(a) + NoBreaks(b)
  {
    if a == [] {
      assert a + b == b;
    } else {
      assert (a + b)[0] == a[0] && (a + b)[1..] == a[1..] + b;
      NoBreaksAppend(a[1..], b);
      var h := if IsLineBreak(a[0]) then [] else [a[0]];
      assert NoBreaks(a + b) == h + NoBreaks(a[1..] + b);
    }
  }

  lemma {:induction false} AllSpace(s: string)
    requires forall k :: 0 <= k < |s| ==> IsSpace(s[k])
    ensures NonSpace(s) == []
  {
    if s != [] {
      AllSpace(s[1..]);
    }
  }

  lemma {:induction false} NoBreaksOfLine(s: string)
    requires NoLineBreak(s)
    ensures NoBreaks(s) == s
  {
    if s != [] {
      NoBreaksOfLine(s[1..]);
    }
  }

  lemma {:induction false} AllBreaks(s: string)
    requires AllLineBreaks(s)
    ensures NoBreaks(s) == []
  {
    if s != [] {
      AllBreaks(s[1..]);
    }
  }

  /** Every line break is whitespace, so dropping the breaks keeps the words. */
  lemma {:induction false} NonSpaceNoBreaks(s: string)
    ensures NonSpace(NoBreaks(s)) == NonSpace(s)
  {
    if s != [] {
      NonSpaceNoBreaks(s[1..]);
      NonSpaceAppend(if IsLineBreak(s[0]) then [] else [s[0]], NoBreaks(s[1..]));
    }
  }

  lemma {:induction false} ConcatAppend(a: seq<string>, b: seq<string>)
    ensures Concat(a + b) == Concat(a) + Concat(b)
  {
    if a == [] {
      assert a + b == b;
    } else {
      assert (a + b)[0] == a[0] && (a + b)[1..] == a[1..] + b;
      ConcatAppend(a[1..], b);
      assert Concat(a + b) == a[0] + (Concat(a[1..]) + Concat(b));
    }
  }

  /** Joining with a separator of whitespace keeps exactly the parts' words. */
  lemma {:induction false} NonSpaceJoin(sep: string, parts: seq<string>)
    requires NonSpace(sep) == []
    ensures NonSpace(Join(sep, parts)) == NonSpace(Concat(parts))
  {
    if |parts| == 1 {
      assert parts[1..] == [];
      assert Concat(parts) == parts[0] + [] == parts[0];
    } else if |parts| > 1 {
      NonSpaceJoin(sep, parts[1..]);
      NonSpaceAppend(parts[0], sep);
      NonSpaceAppend(parts[0] + sep, Join(sep, parts[1..]));
      NonSpaceAppend(parts[0], Concat(parts[1..]));
    }
  }

  // ---------------------------------------------------------------------------
  // str.strip()

  /** The index of the first non-whitespace character of s at or after n, or |s|. */
  function SkipSpace(s: string, n: nat): (i: nat)
    requires n <= |s|
    ensures n <= i <= |s|
    ensures forall k :: n <= k < i ==> IsSpace(s[k])
    ensures i < |s| ==> !IsSpace(s[i])
    decreases |s| - n
  {
    if n < |s| && IsSpace(s[n]) then SkipSpace(s, n + 1) else n
  }

  /** The end of s[lo..m] once the whitespace at its back is removed. */
  function SkipSpaceBack(s: string, lo: nat, m: nat): (j: nat)
    requires lo <= m <= |s|
    ensures lo <= j <= m
    ensures forall k :: j <= k < m ==> IsSpace(s[k])
    ensures j > lo ==> !IsSpace(s[j - 1])
    decreases m
  {
    if m > lo && IsSpace(s[m - 1]) then SkipSpaceBack(s, lo, m - 1) else m
  }

  /** r is s[i..i+|r|] and everything of s around it is whitespace. */
  predicate WhitespaceAround(s: string, r: string, i: int) {
    && 0 <= i <= |s| - |r| && r == s[i..i + |r|]
    && (forall k :: 0 <= k < i ==> IsSpace(s[k]))
    && (forall k :: i + |r| <= k < |s| ==> IsSpace(s[k]))
  }

  /** s.strip(): a slice of s that starts and ends with non-whitespace, only
      whitespace having been removed around it. */
  function Strip(s: string): (r: string)
    ensures Trimmed(r)
    ensures exists i :: WhitespaceAround(s, r, i)
    ensures Trimmed(s) ==> r == s
  {
    var i := SkipSpace(s, 0);
    var j := SkipSpaceBack(s, i, |s|);
    assert WhitespaceAround(s, s[i..j], i);
    assert Trimmed(s) && s != [] ==> i == 0 && j == |s|;
    s[i..j]
  }

  /** Only whitespace is removed by strip. */
  lemma NonSpaceStrip(s: string)
    ensures NonSpace(Strip(s)) == NonSpace(s)
  {
    var r := Strip(s);
    var i :| WhitespaceAround(s, r, i);
    var a, b := s[..i], s[i + |r|..];
    assert s == a + r + b;
    AllSpace(a);
    AllSpace(b);
    NonSpaceAppend(a + r, b);
    NonSpaceAppend(a, r);
  }

  lemma SliceKeepsNoLineBreak(s: string, i: nat, j: nat)
    requires i <= j <= |s|
    ensures NoLineBreak(s) ==> NoLineBreak(s[i..j])
  {
    assert forall k :: 0 <= k < j - i ==> s[i..j][k] == s[i + k];
  }

  lemma SliceKeepsNoDoubleSpace(s: string, i: nat, j: nat)
    requires i <= j <= |s|
    ensures NoDoubleSpace(s) ==> NoDoubleSpace(s[i..j])
  {
    assert forall k :: 0 <= k < j - i ==> s[i..j][k] == s[i + k];
  }

  lemma StripKeeps(s: string)
    ensures NoLineBreak(s) ==> NoLineBreak(Strip(s))
    ensures NoDoubleSpace(s) ==> NoDoubleSpace(Strip(s))
  {
    var r := Strip(s);
    var i :| WhitespaceAround(s, r, i);
    SliceKeepsNoLineBreak(s, i, i + |r|);
    SliceKeepsNoDoubleSpace(s, i, i + |r|);
  }

  // ---------------------------------------------------------------------------
  // str.splitlines() and str.split("  ")

  /** The index of the first line break in s, or |s|. */
  function LineEnd(s: string): (i: nat)
    ensures i <= |s|
    ensures i < |s| ==> IsLineBreak(s[i])
    ensures forall k :: 0 <= k < i ==> !IsLineBreak(s[k])
  {
    if s == [] || IsLineBreak(s[0]) then 0 else 1 + LineEnd(s[1..])
  }

  /** s.splitlines(): the lines without their terminators; no trailing empty
      line for a terminated last line. */
  function SplitLines(s: string): (lines: seq<string>)
    ensures forall k :: 0 <= k < |lines| ==> NoLineBreak(lines[k])
    ensures Concat(lines) == NoBreaks(s)
    decreases |s|
  {
    if s == [] then []
    else
      var i := LineEnd(s);
      if i == |s| then
        NoBreaksOfLine(s);
        assert Concat([s]) == s + Concat([]);
        [s]
      else
        var width := if s[i] == '\r' && i + 1 < |s| && s[i + 1] == '\n' then 2 else 1;
        assert forall k :: i <= k < i + width ==> IsLineBreak(s[k]);
        LineAt(s, i, width);
        var rest := SplitLines(s[i + width..]);
        assert ([s[..i]] + rest)[1..] == rest;
        [s[..i]] + rest
  }

  /** s cut at i and at i + width: the line, its terminator and the rest. */
  lemma LinePieces(s: string, i: nat, width: nat)
    requires i + width <= |s| && 1 <= width <= 2
    requires forall k :: 0 <= k < i ==> !IsLineBreak(s[k])
    requires forall k :: i <= k < i + width ==> IsLineBreak(s[k])
    ensures NoLineBreak(s[..i])
    ensures AllLineBreaks(s[i..i + width])
    ensures s == s[..i] + s[i..i + width] + s[i + width..]
  {
    var line, brk := s[..i], s[i..i + width];
    assert forall k :: 0 <= k < |line| ==> line[k] == s[k];
    assert forall k :: 0 <= k < |brk| ==> brk[k] == s[i + k];
  }

  /** s is a line, a terminator from i to i + width, and the rest. */
  lemma LineAt(s: string, i: nat, width: nat)
    requires i + width <= |s| && 1 <= width <= 2
    requires forall k :: 0 <= k < i ==> !IsLineBreak(s[k])
    requires forall k :: i <= k < i + width ==> IsLineBreak(s[k])
    ensures NoLineBreak(s[..i])
    ensures NoBreaks(s) == s[..i] + NoBreaks(s[i + width..])
  {
    LinePieces(s, i, width);
    NoBreaksAtLineEnd(s[..i], s[i..i + width], s[i + width..]);
  }

  /** A line ended by a single-character break is the first line, and the
      lines of the rest follow. */
  lemma SplitLinesStep(a: string, c: char, b: string)
    requires NoLineBreak(a) && IsLineBreak(c) && !(c == '\r' && b != [] && b[0] == '\n')
    ensures SplitLines(a + [c] + b) == [a] + SplitLines(b)
  {
    var s := a + [c] + b;
    assert s[|a|] == c && forall k :: 0 <= k < |a| ==> s[k] == a[k];
    assert LineEnd(s) == |a|;
    assert s[..|a|] == a && s[|a| + 1..] == b;
  }

  /** "\r\n" ends a line as one terminator. */
  lemma SplitLinesCrLf(a: string, b: string)
    requires NoLineBreak(a)
    ensures SplitLines(a + "\r\n" + b) == [a] + SplitLines(b)
  {
    var s := a + "\r\n" + b;
    assert s[|a|] == '\r' && s[|a| + 1] == '\n' && forall k :: 0 <= k < |a| ==> s[k] == a[k];
    assert LineEnd(s) == |a|;
    assert s[..|a|] == a && s[|a| + 2..] == b;
  }

  /** Dropping the breaks of a line, its terminator and the rest leaves the
      line followed by the rest with its breaks dropped. */
  lemma NoBreaksAtLineEnd(line: string, brk: string, rest: string)
    requires NoLineBreak(line) && AllLineBreaks(brk)
    ensures NoBreaks(line + brk + rest) == line + NoBreaks(rest)
  {
    NoBreaksOfLine(line);
    AllBreaks(brk);
    NoBreaksAppend(line, brk);
    assert NoBreaks(line + brk) == line;
    NoBreaksAppend(line + brk, rest);
  }

  /** The index of the first "  " in s, or |s|. */
  function DoubleSpaceAt(s: string): (i: nat)
    ensures i <= |s|
    ensures i < |s| ==> i + 1 < |s| && s[i] == ' ' && s[i + 1] == ' '
    ensures forall k :: 0 <= k < i && k + 1 < |s| ==> !(s[k] == ' ' && s[k + 1] == ' ')
  {
    if |s| < 2 then |s|
    else if s[0] == ' ' && s[1] == ' ' then 0
    else 1 + DoubleSpaceAt(s[1..])
  }

  /** Splitting at a double space: the text before it followed by the pieces after it. */
  lemma JoinAtDoubleSpace(s: string, i: nat, rest: seq<string>)
    requires i + 2 <= |s| && s[i] == ' ' && s[i + 1] == ' '
    requires rest != [] && Join("  ", rest) == s[i + 2..]
    ensures Join("  ", [s[..i]] + rest) == s
  {
    var pieces := [s[..i]] + rest;
    assert pieces[1..] == rest;
    assert s == s[..i] + "  " + s[i + 2..];
  }

  /** A first piece that does not end in a space, before pieces that keep
      that property, keeps it. */
  lemma LeftmostSplit(first: string, rest: seq<string>)
    requires !EndsInSpace(first)
    requires forall k :: 0 <= k < |rest| - 1 ==> !EndsInSpace(rest[k])
    ensures var pieces := [first] + rest;
            forall k :: 0 <= k < |pieces| - 1 ==> !EndsInSpace(pieces[k])
  {
    var pieces := [first] + rest;
    assert forall k :: 1 <= k < |pieces| ==> pieces[k] == rest[k - 1];
  }

  /** The text before the leftmost double space, followed by the pieces of
      the text after it, are the pieces of s. */
  lemma SplitStep(s: string, i: nat, rest: seq<string>)
    requires i + 2 <= |s| && s[i] == ' ' && s[i + 1] == ' '
    requires forall k :: 0 <= k < i && k + 1 < |s| ==> !(s[k] == ' ' && s[k + 1] == ' ')
    requires rest != [] && forall k :: 0 <= k < |rest| ==> NoDoubleSpace(rest[k])
    requires NoLineBreak(s[i + 2..]) ==> forall k :: 0 <= k < |rest| ==> NoLineBreak(rest[k])
    requires Join("  ", rest) == s[i + 2..]
    requires forall k :: 0 <= k < |rest| - 1 ==> !EndsInSpace(rest[k])
    ensures forall k :: 0 <= k < |[s[..i]] + rest| ==> NoDoubleSpace(([s[..i]] + rest)[k])
    ensures NoLineBreak(s) ==> forall k :: 0 <= k < |[s[..i]] + rest| ==> NoLineBreak(([s[..i]] + rest)[k])
    ensures Join("  ", [s[..i]] + rest) == s
    ensures forall k :: 0 <= k < |[s[..i]] + rest| - 1 ==> !EndsInSpace(([s[..i]] + rest)[k])
  {
    var first := s[..i];
    var pieces := [first] + rest;
    assert forall k :: 0 <= k < |first| ==> first[k] == s[k];
    assert NoDoubleSpace(first);
    SliceKeepsNoLineBreak(s, 0, i);
    SliceKeepsNoLineBreak(s, i + 2, |s|);
    assert forall k :: 1 <= k < |pieces| ==> pieces[k] == rest[k - 1];
    JoinAtDoubleSpace(s, i, rest);
    if i > 0 {
      assert s[i - 1] != ' ';
    }
    LeftmostSplit(first, rest);
  }

  /** s.split("  "): the pieces between non-overlapping double spaces, left to right. */
  function SplitOnDoubleSpace(s: string): (pieces: seq<string>)
    ensures |pieces| >= 1
    ensures forall k :: 0 <= k < |pieces| ==> NoDoubleSpace(pieces[k])
    ensures NoLineBreak(s) ==> forall k :: 0 <= k < |pieces| ==> NoLineBreak(pieces[k])
    ensures NoDoubleSpace(s) ==> pieces == [s]
    ensures Join("  ", pieces) == s
    // the split is at the leftmost double spaces: no piece but the last ends in a space
    ensures forall k :: 0 <= k < |pieces| - 1 ==> !EndsInSpace(pieces[k])
    decreases |s|
  {
    var i := DoubleSpaceAt(s);
    if i == |s| then [s]
    else
      var rest := SplitOnDoubleSpace(s[i + 2..]);
      SplitStep(s, i, rest);
      [s[..i]] + rest
  }

  // ---------------------------------------------------------------------------
  // The clean-up

  lemma StripEachClean(pieces: seq<string>)
    requires forall k :: 0 <= k < |pieces| ==> NoDoubleSpace(pieces[k])
    ensures (forall k :: 0 <= k < |pieces| ==> NoLineBreak(pieces[k])) ==>
              forall k :: 0 <= k < |pieces| ==> Clean(Strip(pieces[k]))
  {
    forall k | 0 <= k < |pieces| {
      StripKeeps(pieces[k]);
    }
  }

  /** Each piece stripped. */
  function StripAll(pieces: seq<string>): (r: seq<string>)
    ensures |r| == |pieces| && forall k :: 0 <= k < |r| ==> r[k] == Strip(pieces[k])
  {
    if pieces == [] then [] else [Strip(pieces[0])] + StripAll(pieces[1..])
  }

  lemma {:induction false} NonSpaceStripAll(pieces: seq<string>)
    ensures NonSpace(Concat(StripAll(pieces))) == NonSpace(Concat(pieces))
  {
    if pieces != [] {
      var r := StripAll(pieces);
      assert r[1..] == StripAll(pieces[1..]);
      NonSpaceStripAll(pieces[1..]);
      NonSpaceAppend(r[0], Concat(r[1..]));
      NonSpaceAppend(pieces[0], Concat(pieces[1..]));
      NonSpaceStrip(pieces[0]);
    }
  }

  /** The stripped phrases of one stripped line. */
  function LineChunks(line: string): (chunks: seq<string>)
    ensures NoLineBreak(line) ==> forall k :: 0 <= k < |chunks| ==> Clean(chunks[k])
  {
    StripKeeps(line);
    var pieces := SplitOnDoubleSpace(Strip(line));
    StripEachClean(pieces);
    StripAll(pieces)
  }

  /** The phrases of a line hold exactly the line's words. */
  lemma LineChunksKeepWords(line: string)
    ensures NonSpace(Concat(LineChunks(line))) == NonSpace(line)
  {
    var pieces := SplitOnDoubleSpace(Strip(line));
    NonSpaceStripAll(pieces);
    AllSpace("  ");
    NonSpaceJoin("  ", pieces);
    NonSpaceStrip(line);
  }

  /** The generator of phrases over all lines, in order. */
  function Chunks(lines: seq<string>): (chunks: seq<string>)
    ensures (forall k :: 0 <= k < |lines| ==> NoLineBreak(lines[k])) ==>
              forall k :: 0 <= k < |chunks| ==> Clean(chunks[k])
  {
    if lines == [] then [] else LineChunks(lines[0]) + Chunks(lines[1..])
  }

  lemma {:induction false} ChunksKeepWords(lines: seq<string>)
    ensures NonSpace(Concat(Chunks(lines))) == NonSpace(Concat(lines))
  {
    if lines != [] {
      var head := LineChunks(lines[0]);
      ChunksKeepWords(lines[1..]);
      ConcatAppend(head, Chunks(lines[1..]));
      NonSpaceAppend(Concat(head), Concat(Chunks(lines[1..])));
      LineChunksKeepWords(lines[0]);
      NonSpaceAppend(lines[0], Concat(lines[1..]));
    }
  }

  /** The chunks that are not empty, in order. */
  function NonEmpty(chunks: seq<string>): (kept: seq<string>)
    ensures forall k :: 0 <= k < |kept| ==> kept[k] != []
    ensures forall c :: c in kept <==> c in chunks && c != []
    ensures Concat(kept) == Concat(chunks)
  {
    if chunks == [] then []
    else if chunks[0] == [] then NonEmpty(chunks[1..])
    else
      var kept := [chunks[0]] + NonEmpty(chunks[1..]);
      assert kept[1..] == NonEmpty(chunks[1..]);
      kept
  }

  /** Dropping the empty chunks works run by run, keeping the order. */
  lemma {:induction false} NonEmptyAppend(a: seq<string>, b: seq<string>)
    ensures NonEmpty(a + b) == NonEmpty(a) + NonEmpty(b)
  {
    if a == [] {
      assert a + b == b;
    } else {
      assert (a + b)[0] == a[0] && (a + b)[1..] == a[1..] + b;
      NonEmptyAppend(a[1..], b);
    }
  }

  /** The text clean-up of scrape_webpage (app.py:69-72). */
  function CleanText(raw: string): string {
    Join(" ", NonEmpty(Chunks(SplitLines(raw))))
  }

  lemma ConcatNoDoubleSpace(a: string, b: string)
    requires NoDoubleSpace(a) && NoDoubleSpace(b)
    requires a == [] || b == [] || !(a[|a| - 1] == ' ' && b[0] == ' ')
    ensures NoDoubleSpace(a + b)
  {
    var s := a + b;
    forall i | 0 <= i < |s| - 1 ensures !(s[i] == ' ' && s[i + 1] == ' ') {
      if i + 1 < |a| {
        assert s[i] == a[i] && s[i + 1] == a[i + 1];
      } else if i >= |a| {
        assert s[i] == b[i - |a|] && s[i + 1] == b[i + 1 - |a|];
      }
    }
  }

  /** Joining non-empty clean chunks with single spaces gives clean text, empty
      only when there are no chunks. */
  lemma {:induction false} JoinClean(chunks: seq<string>)
    requires forall k :: 0 <= k < |chunks| ==> chunks[k] != [] && Clean(chunks[k])
    ensures Clean(Join(" ", chunks))
    ensures Join(" ", chunks) == [] <==> chunks == []
    ensures chunks != [] ==> Join(" ", chunks)[0] == chunks[0][0]
  {
    if |chunks| > 1 {
      var head, rest := chunks[0], Join(" ", chunks[1..]);
      JoinClean(chunks[1..]);
      var s := head + " " + rest;
      assert s == Join(" ", chunks);
      ConcatNoDoubleSpace(head, " ");
      ConcatNoDoubleSpace(head + " ", rest);
      assert s[0] == head[0];
      assert s[|s| - 1] == rest[|rest| - 1];
      assert forall i :: 0 <= i < |s| ==> s[i] == (if i < |head| then head[i] else if i == |head| then ' ' else rest[i - |head| - 1]);
    }
  }

  /** The cleaned text of a page is trimmed, on one line and free of double spaces. */
  lemma CleanTextIsClean(raw: string)
    ensures Clean(CleanText(raw))
  {
    var chunks := Chunks(SplitLines(raw));
    var kept := NonEmpty(chunks);
    forall k | 0 <= k < |kept| ensures Clean(kept[k]) {
      assert kept[k] in chunks;
    }
    JoinClean(kept);
  }

  /** The clean-up drops whitespace only: the page keeps every other character, in order. */
  lemma CleanTextKeepsWords(raw: string)
    ensures NonSpace(CleanText(raw)) == NonSpace(raw)
  {
    var lines := SplitLines(raw);
    var kept := NonEmpty(Chunks(lines));
    AllSpace(" ");
    NonSpaceJoin(" ", kept);
    ChunksKeepWords(lines);
    NonSpaceNoBreaks(raw);
  }

  lemma {:induction false} NoLineBreakIsOneLine(s: string)
    requires s != [] && NoLineBreak(s)
    ensures SplitLines(s) == [s]
  {
    assert LineEnd(s) == |s|;
  }

  lemma CleanLineIsOneChunk(s: string)
    requires s != [] && Clean(s)
    ensures LineChunks(s) == [s]
  {
    assert Strip(s) == s;
    assert SplitOnDoubleSpace(s) == [s];
  }

  /** Text that is already clean comes out of the clean-up unchanged. */
  lemma CleanTextKeepsClean(s: string)
    requires Clean(s)
    ensures CleanText(s) == s
  {
    if s != [] {
      NoLineBreakIsOneLine(s);
      CleanLineIsOneChunk(s);
      assert Chunks([s]) == [s] + Chunks([]);
      assert NonEmpty([s]) == [s] + NonEmpty([]);
    }
  }

  /** Two clean lines come out joined by one space: a line break separates
      words, it does not glue them. */
  lemma CleanTextJoinsLines(a: string, c: char, b: string)
    requires a != [] && Clean(a) && b != [] && Clean(b) && IsLineBreak(c)
    ensures CleanText(a + [c] + b) == a + " " + b
  {
    SplitLinesStep(a, c, b);
    NoLineBreakIsOneLine(b);
    CleanLineIsOneChunk(a);
    CleanLineIsOneChunk(b);
    var lines := [a] + [b];
    assert lines[1..] == [b];
    assert Chunks([b]) == LineChunks(b) + Chunks([]);
    assert Chunks(lines) == [a] + [b];
    assert NonEmpty([a] + [b]) == [a] + NonEmpty([b]);
    assert NonEmpty([b]) == [b] + NonEmpty([]);
    assert ([a] + [b])[1..] == [b];
    assert Join(" ", [a] + [b]) == a + " " + Join(" ", [b]);
  }

  /** Cleaning twice is cleaning once. */
  lemma CleanTextIdempotent(raw: string)
    ensures CleanText(CleanText(raw)) == CleanText(raw)
  {
    CleanTextIsClean(raw);
    CleanTextKeepsClean(CleanText(raw));
  }
}
