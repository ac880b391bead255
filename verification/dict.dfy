/**
 A plain JavaScript object used as a dictionary: its own string keys in insertion
 order, each with its value. Assignment `o[k] = v` keeps an existing key where it
 is and puts a new key last; the spread `{...o, ...p}` assigns the pairs of `p`
 to a copy of `o` one after the other.
 */
module Dict {
  import opened Wrappers

  type Dict<V> = seq<(string, V)>

  /** `Object.keys(o)`. */
  function Keys<V>(o: Dict<V>): seq<string> {
    seq(|o|, i requires 0 <= i < |o| => o[i].0)
  }

  /** No key appears twice, as in every JavaScript object. */
  predicate UniqueKeys<V>(o: Dict<V>) {
    forall i, j :: 0 <= i < j < |o| ==> o[i].0 != o[j].0
  }

  lemma KeysDiffer<V>(o: Dict<V>, i: nat, j: nat)
    requires UniqueKeys(o)
    requires i < |o| && j < |o| && i != j
    ensures o[i].0 != o[j].0
  {
    if j < i {
      assert o[j].0 != o[i].0;
    }
  }

  /** The position of key `k` in `o`, if `k` is a key of `o`. */
  function Find<V>(o: Dict<V>, k: string): (r: Option<nat>)
    ensures r.Some? ==> r.value < |o| && o[r.value].0 == k
    ensures forall j :: 0 <= j < |o| && (r.None? || j < r.value) ==> o[j].0 != k
  {
    if o == [] then None
    else if o[0].0 == k then Some(0)
    else match Find(o[1..], k)
      case None => None
      case Some(i) => Some(i + 1)
  }

  /** `Find` reports the first position holding `k`, and None only when no position does. */
  lemma FindIs<V>(o: Dict<V>, k: string, r: Option<nat>)
    requires r.Some? ==> r.value < |o| && o[r.value].0 == k
    requires forall j :: 0 <= j < |o| && (r.None? || j < r.value) ==> o[j].0 != k
    ensures Find(o, k) == r
  {
    var f := Find(o, k);
    if f.Some? && r.Some? {
      assert !(f.value < r.value) && !(r.value < f.value);
    }
  }

  /** `o[k]`, or None when `k` is not a key of `o`. */
  function Get<V>(o: Dict<V>, k: string): (r: Option<V>)
    ensures r.Some? <==> k in Keys(o)
    ensures r.Some? ==> (k, r.value) in o
  {
    match Find(o, k)
    case None => None
    case Some(i) => assert Keys(o)[i] == k; Some(o[i].1)
  }

  /** `o[k] = v`: an existing key keeps its place and takes the new value; a new key goes last. */
  function Put<V>(o: Dict<V>, k: string, v: V): Dict<V> {
    match Find(o, k)
    case None => o + [(k, v)]
    case Some(i) => o[i := (k, v)]
  }

  /**
   After `o[k] = v`, `k` holds `v`, every other key holds what it held, the key list
   grows by `k` only when `k` is new, and no key is repeated that was not before.
   */
  lemma PutSpec<V>(o: Dict<V>, k: string, v: V)
    ensures Get(Put(o, k, v), k) == Some(v)
    ensures forall k' :: k' != k ==> Get(Put(o, k, v), k') == Get(o, k')
    ensures Keys(Put(o, k, v)) == if k in Keys(o) then Keys(o) else Keys(o) + [k]
    ensures UniqueKeys(o) ==> UniqueKeys(Put(o, k, v))
  {
    var r := Put(o, k, v);
    match Find(o, k)
    case None =>
      assert Keys(r) == Keys(o) + [k];
      FindIs(r, k, Some(|o|));
      forall k' | k' != k ensures Find(r, k') == Find(o, k') {
        FindIs(r, k', Find(o, k'));
      }
    case Some(i) =>
      assert Keys(r) == Keys(o);
      forall k' ensures Find(r, k') == Find(o, k') {
        FindIs(r, k', Find(o, k'));
      }
  }

  /** Assigning a key the object does not have appends it. */
  lemma PutNew<V>(o: Dict<V>, k: string, v: V)
    requires k !in Keys(o)
    ensures Put(o, k, v) == o + [(k, v)]
  {
    forall j | 0 <= j < |o| ensures o[j].0 != k {
      assert Keys(o)[j] == o[j].0;
    }
  }

  /** The value of the last pair in `pairs` whose key is `k`. */
  function LastValue<V>(pairs: seq<(string, V)>, k: string): (r: Option<V>)
    ensures r.Some? ==> (k, r.value) in pairs
    ensures r.None? <==> forall i :: 0 <= i < |pairs| ==> pairs[i].0 != k
  {
    if pairs == [] then None
    else if pairs[|pairs| - 1].0 == k then Some(pairs[|pairs| - 1].1)
    else LastValue(pairs[..|pairs| - 1], k)
  }

  /** `{...o, ...pairs}`: the pairs assigned to a copy of `o` in order. */
  function Spread<V>(o: Dict<V>, pairs: seq<(string, V)>): Dict<V> {
    if pairs == [] then o
    else
      var last := pairs[|pairs| - 1];
      Put(Spread(o, pairs[..|pairs| - 1]), last.0, last.1)
  }

  /** After a spread the last write to a key wins, and keys that were unique stay unique. */
  lemma {:induction false} SpreadSpec<V>(o: Dict<V>, pairs: seq<(string, V)>)
    ensures forall k :: Get(Spread(o, pairs), k) == if LastValue(pairs, k).Some? then LastValue(pairs, k) else Get(o, k)
    ensures UniqueKeys(o) ==> UniqueKeys(Spread(o, pairs))
  {
    if pairs != [] {
      var n := |pairs| - 1;
      SpreadSpec(o, pairs[..n]);
      PutSpec(Spread(o, pairs[..n]), pairs[n].0, pairs[n].1);
    }
  }

  /** In an object without repeated keys the only pair with key `k` is the last one. */
  lemma {:induction false} LastValueOfUnique<V>(o: Dict<V>, k: string)
    requires UniqueKeys(o)
    ensures LastValue(o, k) == Get(o, k)
  {
    if o != [] {
      var n := |o| - 1;
      LastValueOfUnique(o[..n], k);
      if o[n].0 != k {
        assert Get(o, k) == Get(o[..n], k) by {
          GetSnoc(o[..n], o[n], k);
          assert o[..n] + [o[n]] == o;
        }
      } else {
        GetSnoc(o[..n], o[n], k);
        assert o[..n] + [o[n]] == o;
        assert Get(o[..n], k).None? by {
          assert forall i :: 0 <= i < n ==> o[..n][i].0 != k;
        }
      }
    }
  }

  lemma {:induction false} GetSnoc<V>(o: Dict<V>, p: (string, V), k: string)
    ensures Get(o + [p], k) == if Get(o, k).Some? then Get(o, k) else if p.0 == k then Some(p.1) else None
  {
    if o != [] {
      assert (o + [p])[1..] == o[1..] + [p];
      GetSnoc(o[1..], p, k);
    }
  }

  /** The pair at position `i` of an object without repeated keys is what a lookup of its key finds. */
  lemma GetAt<V>(o: Dict<V>, i: nat)
    requires UniqueKeys(o)
    requires i < |o|
    ensures Get(o, o[i].0) == Some(o[i].1)
  {
    var k := o[i].0;
    assert Keys(o)[i] == k;
    var v := Get(o, k).value;
    var j :| 0 <= j < |o| && o[j] == (k, v);
  }

  /** The last write in `a + b` is the last write in `b`, or in `a` when `b` does not write `k`. */
  lemma {:induction false} LastValueConcat<V>(a: seq<(string, V)>, b: seq<(string, V)>, k: string)
    ensures LastValue(a + b, k) == if LastValue(b, k).Some? then LastValue(b, k) else LastValue(a, k)
    decreases |b|
  {
    if b == [] {
      assert a + b == a;
    } else {
      var n := |b| - 1;
      assert (a + b)[..|a + b| - 1] == a + b[..n];
      LastValueConcat(a, b[..n], k);
    }
  }
}
