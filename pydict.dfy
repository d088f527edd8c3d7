/**
 * A Python dict from strings to strings, seen as the list its items()
 * yields: insertion order, one entry per key. Assigning to a key that is
 * already present replaces its value in place; a new key goes to the end.
 */
module PyDict {
  import opened Wrappers

  type Dict = seq<(string, string)>

  function Keys(d: Dict): seq<string> {
    seq(|d|, i requires 0 <= i < |d| => d[i].0)
  }

  predicate DistinctKeys(d: Dict) {
    forall i, j :: 0 <= i < j < |d| ==> d[i].0 != d[j].0
  }

  /** `d.get(k)`: the value of the entry for k, if any. */
  function Get(d: Dict, k: string): Option<string> {
    if d == [] then None
    else if d[0].0 == k then Some(d[0].1)
    else Get(d[1..], k)
  }

  /** `d[k] = v`: an existing key keeps its position and takes the new value; a new key is appended. */
  function Put(d: Dict, k: string, v: string): Dict {
    if d == [] then [(k, v)]
    else if d[0].0 == k then [(k, v)] + d[1..]
    else [d[0]] + Put(d[1..], k, v)
  }

  /** A new key is appended at the end. */
  lemma {:induction false} PutAppends(d: Dict, k: string, v: string)
    requires k !in Keys(d)
    ensures Put(d, k, v) == d + [(k, v)]
  {
    if d != [] {
      assert Keys(d) == [d[0].0] + Keys(d[1..]);
      PutAppends(d[1..], k, v);
    }
  }

  /** In a dict without repeated keys, assigning to a present key replaces its one entry in place. */
  lemma {:induction false} PutReplaces(d: Dict, k: string, v: string)
    requires DistinctKeys(d) && k in Keys(d)
    ensures |Put(d, k, v)| == |d|
    ensures forall i :: 0 <= i < |d| ==> Put(d, k, v)[i] == (if d[i].0 == k then (k, v) else d[i])
  {
    assert Keys(d) == [d[0].0] + Keys(d[1..]);
    if d[0].0 == k {
      forall i | 0 < i < |d| ensures d[i].0 != k {
        assert d[0].0 != d[i].0;
      }
    } else {
      PutReplaces(d[1..], k, v);
    }
  }

  /** Assignment never repeats a key. */
  lemma PutDistinct(d: Dict, k: string, v: string)
    requires DistinctKeys(d)
    ensures DistinctKeys(Put(d, k, v))
  {
    var r := Put(d, k, v);
    if k in Keys(d) {
      PutReplaces(d, k, v);
      forall i, j | 0 <= i < j < |r| ensures r[i].0 != r[j].0 {
        assert d[i].0 != d[j].0;
      }
    } else {
      PutAppends(d, k, v);
      forall i | 0 <= i < |d| ensures d[i].0 != k {
        assert Keys(d)[i] == d[i].0;
      }
    }
  }

  /** The usual laws of assignment: the assigned key reads back its value, every other key reads as before. */
  lemma {:induction false} GetPut(d: Dict, k: string, v: string, k': string)
    ensures Get(Put(d, k, v), k') == if k' == k then Some(v) else Get(d, k')
  {
    if d != [] && d[0].0 != k {
      GetPut(d[1..], k, v, k');
      assert Put(d, k, v)[1..] == Put(d[1..], k, v);
    }
  }

  /** The key order after `d[k] = v`: unchanged for a present key, k appended for a new one. */
  lemma {:induction false} KeysPut(d: Dict, k: string, v: string)
    ensures Keys(Put(d, k, v)) == if k in Keys(d) then Keys(d) else Keys(d) + [k]
  {
    if d != [] {
      assert Keys(d) == [d[0].0] + Keys(d[1..]);
      if d[0].0 == k {
        assert Keys(Put(d, k, v)) == [k] + Keys(d[1..]);
      } else {
        KeysPut(d[1..], k, v);
        assert Keys(Put(d, k, v)) == [d[0].0] + Keys(Put(d[1..], k, v));
      }
    }
  }

  /** The dict built by assigning the pairs of ps in order, as a loop of `d[k] = v` does. */
  function FromPairs(ps: seq<(string, string)>): Dict {
    if ps == [] then [] else Put(FromPairs(ps[..|ps| - 1]), ps[|ps| - 1].0, ps[|ps| - 1].1)
  }

  /** However often a key is assigned, it has one entry. */
  lemma {:induction false} FromPairsDistinct(ps: seq<(string, string)>)
    ensures DistinctKeys(FromPairs(ps))
  {
    if ps != [] {
      FromPairsDistinct(ps[..|ps| - 1]);
      PutDistinct(FromPairs(ps[..|ps| - 1]), ps[|ps| - 1].0, ps[|ps| - 1].1);
    }
  }

  /** Assigning one more pair is one more Put. */
  lemma FromPairsSnoc(ps: seq<(string, string)>, k: string, v: string)
    ensures FromPairs(ps + [(k, v)]) == Put(FromPairs(ps), k, v)
  {
    assert (ps + [(k, v)])[..|ps|] == ps;
  }

  /** The value of the last pair in ps whose key is k. */
  function LastValue(ps: seq<(string, string)>, k: string): Option<string> {
    if ps == [] then None
    else if ps[|ps| - 1].0 == k then Some(ps[|ps| - 1].1)
    else LastValue(ps[..|ps| - 1], k)
  }

  /** The keys of xs in order of first occurrence, each once. */
  function FirstOccurrences(xs: seq<string>): seq<string> {
    if xs == [] then []
    else
      var before := FirstOccurrences(xs[..|xs| - 1]);
      if xs[|xs| - 1] in before then before else before + [xs[|xs| - 1]]
  }

  /** A later pair for the same key wins: each key reads as the value of its last pair. */
  lemma {:induction false} FromPairsGet(ps: seq<(string, string)>, k: string)
    ensures Get(FromPairs(ps), k) == LastValue(ps, k)
  {
    if ps != [] {
      var last := ps[|ps| - 1];
      FromPairsGet(ps[..|ps| - 1], k);
      GetPut(FromPairs(ps[..|ps| - 1]), last.0, last.1, k);
    }
  }

  /** A repeated key keeps the position of its first pair: the keys come in order of first occurrence. */
  lemma {:induction false} FromPairsKeys(ps: seq<(string, string)>)
    ensures Keys(FromPairs(ps)) == FirstOccurrences(Keys(ps))
  {
    if ps != [] {
      var init := ps[..|ps| - 1];
      FromPairsKeys(init);
      KeysPut(FromPairs(init), ps[|ps| - 1].0, ps[|ps| - 1].1);
      assert Keys(ps)[..|ps| - 1] == Keys(init);
    }
  }
}
