/** Python's insertion-ordered dict from strings to strings, in the form that
    scrape_multiple_pages builds and extract_events_with_gemini iterates. */
module PyDict {
  import opened PyValues

  datatype Entry = Entry(key: string, value: string)

  /** The entries in insertion order. */
  type Dict = seq<Entry>

  /** list(d.keys()) */
  function Keys(d: Dict): (ks: seq<string>)
    ensures |ks| == |d|
  {
    if d == [] then [] else [d[0].key] + Keys(d[1..])
  }

  /** d.get(k) */
  function Lookup(d: Dict, k: string): Option<string> {
    if d == [] then None
    else if d[0].key == k then Some(d[0].value)
    else Lookup(d[1..], k)
  }

  /** d[k] = v: an existing key keeps its position and takes the new value;
      a new key goes to the end. */
  function Put(d: Dict, k: string, v: string): Dict {
    if d == [] then [Entry(k, v)]
    else if d[0].key == k then [Entry(k, v)] + d[1..]
    else [d[0]] + Put(d[1..], k, v)
  }

  /** The i-th key is the key of the i-th entry. */
  lemma {:induction false} KeyAt(d: Dict, i: nat)
    requires i < |d|
    ensures Keys(d)[i] == d[i].key
  {
    if i > 0 {
      KeyAt(d[1..], i - 1);
    }
  }

  /** A lookup succeeds exactly for the keys of the dictionary, and then
      yields the value stored with that key. */
  lemma {:induction false} LookupFound(d: Dict, k: string)
    ensures Lookup(d, k).Some? <==> k in Keys(d)
    ensures Lookup(d, k).Some? ==> exists i :: 0 <= i < |d| && d[i] == Entry(k, Lookup(d, k).value)
  {
    if d != [] {
      assert Keys(d) == [d[0].key] + Keys(d[1..]);
      if d[0].key != k {
        LookupFound(d[1..], k);
        if Lookup(d, k).Some? {
          var i :| 0 <= i < |d[1..]| && d[1..][i] == Entry(k, Lookup(d, k).value);
          assert d[i + 1] == d[1..][i];
        }
      }
    }
  }

  /** Assigning a key leaves the order of the keys alone, appending the key
      when it is new. */
  lemma {:induction false} PutKeys(d: Dict, k: string, v: string)
    ensures Keys(Put(d, k, v)) == if k in Keys(d) then Keys(d) else Keys(d) + [k]
  {
    if d != [] {
      assert Keys(d) == [d[0].key] + Keys(d[1..]);
      if d[0].key == k {
        assert Put(d, k, v)[1..] == d[1..];
      } else {
        PutKeys(d[1..], k, v);
        assert Put(d, k, v)[1..] == Put(d[1..], k, v);
      }
    }
  }

  /** After d[k] = v, d[k] is v and every other key keeps its value. */
  lemma {:induction false} PutLookup(d: Dict, k: string, v: string, k': string)
    ensures Lookup(Put(d, k, v), k') == if k' == k then Some(v) else Lookup(d, k')
  {
    if d != [] && d[0].key != k {
      PutLookup(d[1..], k, v, k');
      assert Put(d, k, v)[1..] == Put(d[1..], k, v);
    }
  }
}
