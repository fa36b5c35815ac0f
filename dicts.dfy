/**
 * PHP's ordered arrays with string keys, as the parsers below build them:
 * entries in insertion order, and storing under a key that is already
 * present replaces its value where it stands.
 */
module Dicts {
  import opened Wrappers

  type Dict<V> = seq<(string, V)>

  /** PHP array keys are unique. */
  predicate UniqueKeys<V>(d: Dict<V>) {
    forall i, j :: 0 <= i < j < |d| ==> d[i].0 != d[j].0
  }

  /** `$d[$k] ?? null`. */
  function Get<V>(d: Dict<V>, k: string): (r: Option<V>)
    ensures r.None? <==> forall i :: 0 <= i < |d| ==> d[i].0 != k
    ensures r.Some? ==> exists i :: 0 <= i < |d| && d[i] == (k, r.value)
  {
    if |d| == 0 then None
    else if d[0].0 == k then Some(d[0].1)
    else
      var r := Get(d[1..], k);
      assert forall i :: 1 <= i < |d| ==> d[i] == d[1..][i - 1];
      r
  }

  /** `$d[$k] = $v`: a new key goes last, an existing key keeps its place. */
  function Put<V>(d: Dict<V>, k: string, v: V): (r: Dict<V>)
    ensures |r| == |d| + (if Get(d, k).None? then 1 else 0)
    ensures forall i :: 0 <= i < |d| ==> r[i].0 == d[i].0
    ensures Get(d, k).None? ==> r[|d|] == (k, v)
  {
    if |d| == 0 then [(k, v)]
    else if d[0].0 == k then [(k, v)] + d[1..]
    else [d[0]] + Put(d[1..], k, v)
  }

  /** After storing, the key reads back the new value and every other key its old one. */
  lemma {:induction false} GetPut<V>(d: Dict<V>, k: string, v: V, k': string)
    ensures Get(Put(d, k, v), k') == if k' == k then Some(v) else Get(d, k')
    decreases |d|
  {
    if |d| > 0 && d[0].0 != k {
      GetPut(d[1..], k, v, k');
      assert Put(d, k, v)[1..] == Put(d[1..], k, v);
    } else if |d| > 0 {
      assert Put(d, k, v)[1..] == d[1..];
    }
  }

  /** Reading a dictionary with one more entry at the end. */
  lemma {:induction false} GetSnoc<V>(d: Dict<V>, e: (string, V), k: string)
    ensures Get(d + [e], k) == if Get(d, k).Some? then Get(d, k) else if e.0 == k then Some(e.1) else None
    decreases |d|
  {
    if |d| > 0 {
      assert (d + [e])[1..] == d[1..] + [e];
      GetSnoc(d[1..], e, k);
    }
  }

  /** Entry by entry: the entry under the key takes the new value, the others stay. */
  lemma {:induction false} PutEntries<V>(d: Dict<V>, k: string, v: V)
    requires UniqueKeys(d)
    ensures forall i :: 0 <= i < |d| ==> Put(d, k, v)[i] == if d[i].0 == k then (k, v) else d[i]
    decreases |d|
  {
    if |d| > 0 {
      var r := Put(d, k, v);
      if d[0].0 != k {
        assert UniqueKeys(d[1..]);
        PutEntries(d[1..], k, v);
        forall i | 1 <= i < |d|
          ensures r[i] == if d[i].0 == k then (k, v) else d[i]
        {
          assert d[i] == d[1..][i - 1] && r[i] == Put(d[1..], k, v)[i - 1];
        }
      } else {
        forall i | 1 <= i < |d|
          ensures r[i] == d[i] && d[i].0 != k
        {
          assert d[0].0 != d[i].0;
        }
      }
    }
  }

  /** Storing keeps the keys unique. */
  lemma PutUnique<V>(d: Dict<V>, k: string, v: V)
    requires UniqueKeys(d)
    ensures UniqueKeys(Put(d, k, v))
  {
    var r := Put(d, k, v);
    if |r| > |d| {
      assert Get(d, k).None?;
    }
  }

  /** The values in insertion order, as `foreach` visits them. */
  function Values<V>(d: Dict<V>): (r: seq<V>)
    ensures |r| == |d|
    ensures forall i :: 0 <= i < |d| ==> r[i] == d[i].1
  {
    seq(|d|, i requires 0 <= i < |d| => d[i].1)
  }
}
