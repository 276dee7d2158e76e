/**
 * A Python `dict[str, str]` as an association list in insertion order: a new key is
 * appended at the end, an existing key keeps its place and takes the new value.
 */
module RefTable {
  import opened Wrappers

  type Table = seq<(string, string)>

  function Keys(t: Table): (ks: seq<string>)
    ensures |ks| == |t| && forall i :: 0 <= i < |t| ==> ks[i] == t[i].0
  {
    if t == [] then [] else [t[0].0] + Keys(t[1..])
  }

  /** The keys `ks` with every repetition after the first removed: the key order of a dict they are stored into. */
  function FirstOccurrences(ks: seq<string>): (r: seq<string>)
    ensures forall k :: k in r <==> k in ks
  {
    if ks == [] then []
    else
      var front := FirstOccurrences(ks[..|ks| - 1]);
      var k := ks[|ks| - 1];
      if k in front then front else front + [k]
  }

  /** Every key occurs once, as in a dict. */
  predicate DistinctKeys(t: Table) {
    forall i, j :: 0 <= i < j < |t| ==> t[i].0 != t[j].0
  }

  /** The position of key `k`, if it is present. */
  function IndexOf(t: Table, k: string): (r: Option<nat>)
    ensures r.Some? ==> r.value < |t| && t[r.value].0 == k && forall i :: 0 <= i < r.value ==> t[i].0 != k
    ensures r.None? ==> forall i :: 0 <= i < |t| ==> t[i].0 != k
  {
    if t == [] then None
    else if t[0].0 == k then Some(0)
    else match IndexOf(t[1..], k)
      case None => None
      case Some(i) => Some(i + 1)
  }

  /** Python's `t.get(k)`. */
  function Get(t: Table, k: string): Option<string> {
    match IndexOf(t, k)
    case None => None
    case Some(i) => Some(t[i].1)
  }

  /** Python's `t[k] = v`. */
  function Put(t: Table, k: string, v: string): (r: Table)
    ensures DistinctKeys(t) ==> DistinctKeys(r)
    ensures Get(r, k) == Some(v)
    ensures forall k' :: k' != k ==> Get(r, k') == Get(t, k')
    ensures k in Keys(t) ==> Keys(r) == Keys(t)
    ensures k !in Keys(t) ==> Keys(r) == Keys(t) + [k]
    ensures |t| <= |r| && forall i :: 0 <= i < |r| ==> r[i] == (k, v) || (i < |t| && r[i] == t[i])
  {
    match IndexOf(t, k)
    case None =>
      AppendFacts(t, k, v);
      t + [(k, v)]
    case Some(i) =>
      ReplaceFacts(t, i, k, v);
      t[i := (k, v)]
  }

  /** Storing a new key: appended at the end, found under `k`, nothing else changes. */
  lemma AppendFacts(t: Table, k: string, v: string)
    requires IndexOf(t, k).None?
    ensures var r := t + [(k, v)];
      (DistinctKeys(t) ==> DistinctKeys(r)) && Get(r, k) == Some(v) &&
      (forall k' :: k' != k ==> Get(r, k') == Get(t, k')) &&
      k !in Keys(t) && Keys(r) == Keys(t) + [k]
  {
    var r := t + [(k, v)];
    forall k' | k' != k ensures IndexOf(r, k') == IndexOf(t, k') {
      PutAppendIndex(t, k, v, k');
    }
    PutAppendIndexNew(t, k, v);
    assert Keys(r) == Keys(t) + [k];
  }

  /** Storing an existing key at position `i`: same keys in the same order, `k` now maps to `v`. */
  lemma ReplaceFacts(t: Table, i: nat, k: string, v: string)
    requires IndexOf(t, k) == Some(i)
    ensures var r := t[i := (k, v)];
      (DistinctKeys(t) ==> DistinctKeys(r)) && Get(r, k) == Some(v) &&
      (forall k' :: k' != k ==> Get(r, k') == Get(t, k')) &&
      k in Keys(t) && Keys(r) == Keys(t)
  {
    var r := t[i := (k, v)];
    forall k' ensures IndexOf(r, k') == IndexOf(t, k') {
      PutReplaceIndex(t, i, v, k');
    }
    assert Keys(t)[i] == k;
    assert Keys(r) == Keys(t);
  }

  lemma {:induction false} PutAppendIndex(t: Table, k: string, v: string, k': string)
    requires k' != k
    ensures IndexOf(t + [(k, v)], k') == IndexOf(t, k')
  {
    if t != [] {
      assert (t + [(k, v)])[1..] == t[1..] + [(k, v)];
      PutAppendIndex(t[1..], k, v, k');
    }
  }

  lemma {:induction false} PutAppendIndexNew(t: Table, k: string, v: string)
    requires forall i :: 0 <= i < |t| ==> t[i].0 != k
    ensures IndexOf(t + [(k, v)], k) == Some(|t|)
  {
    if t != [] {
      assert (t + [(k, v)])[1..] == t[1..] + [(k, v)];
      PutAppendIndexNew(t[1..], k, v);
    }
  }

  lemma {:induction false} PutReplaceIndex(t: Table, i: nat, v: string, k': string)
    requires i < |t|
    ensures IndexOf(t[i := (t[i].0, v)], k') == IndexOf(t, k')
  {
    if i > 0 {
      assert t[i := (t[i].0, v)][1..] == t[1..][i - 1 := (t[i].0, v)];
      PutReplaceIndex(t[1..], i - 1, v, k');
    }
  }

  /** Storing a key the table does not hold appends the pair. */
  lemma PutNew(t: Table, k: string, v: string)
    requires forall i :: 0 <= i < |t| ==> t[i].0 != k
    ensures Put(t, k, v) == t + [(k, v)]
  {
  }
}
