/**
 `unflattenObject`: a flat parameter map back to nested objects. Each key is split on
 the delimiter; the walk goes down the result one name at a time, creating an empty
 object for a name it has not met, and stores the value under the last name.
 */
module Unflattening {
  import opened Wrappers
  import opened Strings
  import opened Dict

  /** A value of the result: a nested object the walk created, or a stored parameter value. */
  datatype Tree<V> = Branch(children: map<string, Tree<V>>) | Val(value: V)

  /** An object of the result: its own keys, each with a nested object or a stored value. */
  type Object<V> = map<string, Tree<V>>

  /** What the object `m` holds under the names `p`, read one name at a time. */
  function Lookup<V>(m: Object<V>, p: seq<string>): Option<Tree<V>>
    decreases |p|
  {
    if p == [] then Some(Branch(m))
    else if p[0] !in m then None
    else match m[p[0]]
      case Branch(c) => Lookup(c, p[1..])
      case Val(x) => if |p| == 1 then Some(Val(x)) else None
  }

  /** The two paths part at some name: neither is a prefix of the other (see `IncomparableNoPrefix`). */
  predicate Incomparable(p: seq<string>, q: seq<string>)
    decreases |p|
  {
    p != [] && q != [] && (p[0] != q[0] || Incomparable(p[1..], q[1..]))
  }

  lemma {:induction false} IncomparableSymmetric(p: seq<string>, q: seq<string>)
    ensures Incomparable(p, q) <==> Incomparable(q, p)
    decreases |p|
  {
    if p != [] && q != [] {
      IncomparableSymmetric(p[1..], q[1..]);
    }
  }

  lemma {:induction false} IncomparableDistinct(p: seq<string>, q: seq<string>)
    requires Incomparable(p, q)
    ensures p != q
    decreases |p|
  {
    if p[0] == q[0] {
      IncomparableDistinct(p[1..], q[1..]);
    }
  }

  lemma {:induction false} IncomparableNoPrefix(p: seq<string>, q: seq<string>)
    ensures Incomparable(p, q) <==> !(p <= q) && !(q <= p)
    decreases |p|
  {
    if p != [] && q != [] {
      IncomparableNoPrefix(p[1..], q[1..]);
      if p[0] == q[0] {
        assert p <= q <==> p[1..] <= q[1..];
        assert q <= p <==> q[1..] <= p[1..];
      }
    }
  }

  /** A stored value sits at a proper, non-empty prefix of `path`: the walk would have to go through it. */
  predicate Blocked<V>(m: Object<V>, path: seq<string>) {
    exists j :: 1 <= j < |path| && IsVal(Lookup(m, path[..j]))
  }

  predicate IsVal<V>(t: Option<Tree<V>>) {
    t.Some? && t.value.Val?
  }

  /**
   Storing `v` under `path`: go down through `path` but its last name, using an
   existing object or a new empty one, and assign `v` to the last name. None when the
   walk reaches a stored value (the source would then write into that value).
   */
  function Insert<V>(m: Object<V>, path: seq<string>, v: V): Option<Object<V>>
    requires |path| >= 1
    decreases |path|
  {
    if |path| == 1 then Some(m[path[0] := Val(v)])
    else
      var child := if path[0] in m then m[path[0]] else Branch(map[]);
      match child
      case Val(_) => None
      case Branch(c) =>
        match Insert(c, path[1..], v)
        case None => None
        case Some(c') => Some(m[path[0] := Branch(c')])
  }

  /** The paths `key.split(d)` of the keys of `params`, in order. */
  function SplitKeys<V>(params: Dict<V>, d: string): (r: seq<seq<string>>)
    requires |d| > 0
    ensures |r| == |params| && NonEmptyPaths(r)
  {
    seq(|params|, i requires 0 <= i < |params| => Split(params[i].0, d))
  }

  predicate NonEmptyPaths(paths: seq<seq<string>>) {
    forall i :: 0 <= i < |paths| ==> |paths[i]| >= 1
  }

  /** Storing the values of `params` in order, each under the matching path of `paths`. */
  function StoreAll<V>(params: Dict<V>, paths: seq<seq<string>>): Option<Object<V>>
    requires |paths| == |params| && NonEmptyPaths(paths)
  {
    if params == [] then Some(map[])
    else
      var n := |params| - 1;
      match StoreAll(params[..n], paths[..n])
      case None => None
      case Some(m) => Insert(m, paths[n], params[n].1)
  }

  /** The result after the loop of `unflattenObject` has stored the pairs of `params`, in order. */
  function Unflatten<V>(params: Dict<V>, d: string): Option<Object<V>>
    requires |d| > 0
  {
    if params == [] then Some(map[])
    else
      var n := |params| - 1;
      match Unflatten(params[..n], d)
      case None => None
      case Some(m) => Insert(m, Split(params[n].0, d), params[n].1)
  }

  /** Unflattening stores each value under the split of its key. */
  lemma {:induction false} UnflattenStoresSplits<V>(params: Dict<V>, d: string)
    requires |d| > 0
    ensures Unflatten(params, d) == StoreAll(params, SplitKeys(params, d))
  {
    if params != [] {
      var n := |params| - 1;
      assert SplitKeys(params[..n], d) == SplitKeys(params, d)[..n];
      UnflattenStoresSplits(params[..n], d);
    }
  }

  /** Once a pair has failed to be stored, the rest of the loop cannot recover. */
  lemma {:induction false} NoneIsFinal<V>(params: Dict<V>, n: nat, d: string)
    requires |d| > 0
    requires n <= |params|
    requires Unflatten(params[..n], d).None?
    ensures Unflatten(params, d).None?
    decreases |params| - n
  {
    if n < |params| {
      assert params[..n + 1][..n] == params[..n];
      NoneIsFinal(params, n + 1, d);
    } else {
      assert params[..n] == params;
    }
  }

  /** An object rebuilt around `m` from the objects passed on the way down, innermost last. */
  function Plug<V>(frames: seq<(Object<V>, string)>, m: Object<V>): Object<V> {
    if frames == [] then m
    else
      var f := frames[|frames| - 1];
      Plug(frames[..|frames| - 1], f.0[f.1 := Branch(m)])
  }

  function Lift<V>(frames: seq<(Object<V>, string)>, r: Option<Object<V>>): Option<Object<V>> {
    match r
    case None => None
    case Some(m) => Some(Plug(frames, m))
  }

  /**
   `unflattenObject`: for each pair, the inner loop walks `current` down the result
   through the names of the key, and the last name is assigned the value. The walk
   keeps the objects it passed (`frames`) so that the assignment is seen from `result`.
   */
  method UnflattenObject<V>(params: Dict<V>, d: string) returns (r: Option<Object<V>>)
    requires |d| > 0
    ensures r == Unflatten(params, d)
  {
    var result: Object<V> := map[];
    var n := 0;
    while n < |params|
      invariant 0 <= n <= |params|
      invariant Unflatten(params[..n], d) == Some(result)
    {
      var key := params[n].0;
      var value := params[n].1;
      var path := Split(key, d);
      assert params[..n + 1][..n] == params[..n];
      var frames: seq<(Object<V>, string)> := [];
      var current := result;
      var i := 0;
      while i < |path| - 1
        invariant 0 <= i <= |path| - 1
        invariant Insert(result, path, value) == Lift(frames, Insert(current, path[i..], value))
      {
        var name := path[i];
        var child := if name in current then current[name] else Branch(map[]);
        if child.Val? {
          assert Insert(current, path[i..], value).None?;
          NoneIsFinal(params, n + 1, d);
          return None;
        }
        assert path[i..][1..] == path[i + 1..];
        frames := frames + [(current, name)];
        current := child.children;
        i := i + 1;
      }
      result := Plug(frames, current[path[i] := Val(value)]);
      n := n + 1;
    }
    assert params[..n] == params;
    return Some(result);
  }

  /** Storing `v` under `path` succeeds exactly when no stored value lies on the way. */
  lemma {:induction false} InsertDefined<V>(m: Object<V>, path: seq<string>, v: V)
    requires |path| >= 1
    ensures Insert(m, path, v).Some? <==> !Blocked(m, path)
    decreases |path|
  {
    if |path| > 1 {
      var k := path[0];
      var rest := path[1..];
      if k in m && m[k].Val? {
        assert path[..1] == [k];
        assert IsVal(Lookup(m, path[..1]));
      } else {
        var c := if k in m then m[k].children else map[];
        InsertDefined(c, rest, v);
        forall j | 1 <= j < |path|
          ensures IsVal(Lookup(m, path[..j])) <==> j >= 2 && IsVal(Lookup(c, rest[..j - 1]))
        {
          assert path[..j][1..] == rest[..j - 1];
          if j >= 2 && k !in m {
            LookupEmpty<V>(rest[..j - 1]);
          }
        }
        if Blocked(c, rest) {
          var j :| 1 <= j < |rest| && IsVal(Lookup(c, rest[..j]));
          assert IsVal(Lookup(m, path[..j + 1]));
        }
      }
    }
  }

  lemma LookupEmpty<V>(p: seq<string>)
    requires p != []
    ensures Lookup<V>(map[], p).None?
  {
  }

  /**
   What a successful store changes, for every path `q`: `path` now holds `v`; a path
   through it finds nothing; a path on the way to it finds an object; every path that
   is neither finds what it found before.
   */
  lemma {:induction false} InsertLookup<V>(m: Object<V>, path: seq<string>, v: V, q: seq<string>)
    requires |path| >= 1
    requires Insert(m, path, v).Some?
    ensures var m' := Insert(m, path, v).value;
      && Lookup(m', path) == Some(Val(v))
      && (path < q ==> Lookup(m', q).None?)
      && (q < path ==> Lookup(m', q).Some? && Lookup(m', q).value.Branch?)
      && (Incomparable(path, q) ==> Lookup(m', q) == Lookup(m, q))
    decreases |path|
  {
    var m' := Insert(m, path, v).value;
    var k := path[0];
    IncomparableNoPrefix(path, q);
    if q != [] && q[0] == k {
      assert path <= q <==> path[1..] <= q[1..];
      assert q <= path <==> q[1..] <= path[1..];
      if |path| > 1 {
        var c := if k in m then m[k].children else map[];
        InsertLookup(c, path[1..], v, q[1..]);
        if k !in m && |q| > 1 {
          LookupEmpty<V>(q[1..]);
        }
      }
    } else if |path| > 1 {
      var c := if k in m then m[k].children else map[];
      InsertLookup(c, path[1..], v, path[1..]);
    }
  }

  /**
   When no split key is a prefix of another, unflattening succeeds, every value is
   found under the names its key splits into, and every stored value in the result
   is one of those.
   */
  lemma UnflattenFindsEvery<V>(params: Dict<V>, d: string)
    requires |d| > 0
    requires forall i, j :: 0 <= i < |params| && 0 <= j < |params| && i != j ==>
      Incomparable(Split(params[i].0, d), Split(params[j].0, d))
    ensures Unflatten(params, d).Some?
    ensures forall i :: 0 <= i < |params| ==>
      Lookup(Unflatten(params, d).value, Split(params[i].0, d)) == Some(Val(params[i].1))
    ensures forall q :: IsVal(Lookup(Unflatten(params, d).value, q)) ==>
      exists i :: 0 <= i < |params| && q == Split(params[i].0, d)
  {
    var paths := SplitKeys(params, d);
    UnflattenStoresSplits(params, d);
    StoreAllFindsEvery(params, paths);
    assert FindsAll(Unflatten(params, d).value, params, paths);
    forall q | IsVal(Lookup(Unflatten(params, d).value, q))
      ensures exists i :: 0 <= i < |params| && q == Split(params[i].0, d)
    {
      var i :| 0 <= i < |paths| && paths[i] == q;
    }
  }

  /** No path of `paths` is a prefix of another. */
  predicate Apart(paths: seq<seq<string>>) {
    forall i, j :: 0 <= i < |paths| && 0 <= j < |paths| && i != j ==> Incomparable(paths[i], paths[j])
  }

  /** `m` holds the value of each pair of `params` under the matching path of `paths`. */
  ghost predicate FindsAll<V>(m: Object<V>, params: Dict<V>, paths: seq<seq<string>>) {
    |paths| == |params| && forall i :: 0 <= i < |paths| ==> Lookup(m, paths[i]) == Some(Val(params[i].1))
  }

  /** Every stored value of `m` sits at one of `paths`. */
  ghost predicate HoldsOnly<V>(m: Object<V>, paths: seq<seq<string>>) {
    forall q :: IsVal(Lookup(m, q)) ==> q in paths
  }

  lemma ApartPrefix(paths: seq<seq<string>>, n: nat)
    requires Apart(paths) && n <= |paths|
    ensures Apart(paths[..n])
  {
    assert forall i :: 0 <= i < n ==> paths[..n][i] == paths[i];
  }

  /** The same for values stored under pairwise apart paths. */
  lemma {:induction false} StoreAllFindsEvery<V>(params: Dict<V>, paths: seq<seq<string>>)
    requires |paths| == |params| && NonEmptyPaths(paths) && Apart(paths)
    ensures StoreAll(params, paths).Some?
    ensures FindsAll(StoreAll(params, paths).value, params, paths)
    ensures HoldsOnly(StoreAll(params, paths).value, paths)
  {
    if params != [] {
      var n := |params| - 1;
      ApartPrefix(paths, n);
      StoreAllFindsEvery(params[..n], paths[..n]);
      var m := StoreAll(params[..n], paths[..n]).value;
      StoreLast(params, paths, m);
      assert StoreAll(params, paths) == Insert(m, paths[n], params[n].1);
    }
  }

  /** The step of that induction: storing the last value next to the earlier ones. */
  lemma StoreLast<V>(params: Dict<V>, paths: seq<seq<string>>, m: Object<V>)
    requires |paths| == |params| > 0 && NonEmptyPaths(paths) && Apart(paths)
    requires FindsAll(m, params[..|paths| - 1], paths[..|paths| - 1])
    requires HoldsOnly(m, paths[..|paths| - 1])
    ensures Insert(m, paths[|paths| - 1], params[|paths| - 1].1).Some?
    ensures FindsAll(Insert(m, paths[|paths| - 1], params[|paths| - 1].1).value, params, paths)
    ensures HoldsOnly(Insert(m, paths[|paths| - 1], params[|paths| - 1].1).value, paths)
  {
    var n := |paths| - 1;
    var before := paths[..n];
    var values := seq(n, i requires 0 <= i < n => params[i].1);
    assert forall i :: 0 <= i < n ==> before[i] == paths[i] && params[..n][i].1 == values[i];
    PathNotBlocked(m, paths[n], before);
    InsertDefined(m, paths[n], params[n].1);
    InsertKeeps(m, paths[n], params[n].1, before, values);
  }

  /** A path apart from every path that holds a stored value cannot run through one. */
  lemma PathNotBlocked<V>(m: Object<V>, path: seq<string>, stored: seq<seq<string>>)
    requires forall q :: IsVal(Lookup(m, q)) ==> q in stored
    requires forall i :: 0 <= i < |stored| ==> Incomparable(path, stored[i])
    ensures !Blocked(m, path)
  {
    forall j | 1 <= j < |path| ensures !IsVal(Lookup(m, path[..j])) {
      assert path[..j] <= path;
      forall i | 0 <= i < |stored| ensures path[..j] != stored[i] {
        IncomparableNoPrefix(path, stored[i]);
      }
    }
  }

  /**
   Storing `v` under `path` apart from the `stored` paths keeps their values where they
   were found, finds `v` under `path`, and adds no other stored value.
   */
  lemma InsertKeeps<V>(m: Object<V>, path: seq<string>, v: V, stored: seq<seq<string>>, values: seq<V>)
    requires |path| >= 1 && |values| == |stored|
    requires Insert(m, path, v).Some?
    requires forall i :: 0 <= i < |stored| ==> Incomparable(path, stored[i])
    requires forall i :: 0 <= i < |stored| ==> Lookup(m, stored[i]) == Some(Val(values[i]))
    requires forall q :: IsVal(Lookup(m, q)) ==> q in stored
    ensures Lookup(Insert(m, path, v).value, path) == Some(Val(v))
    ensures forall i :: 0 <= i < |stored| ==> Lookup(Insert(m, path, v).value, stored[i]) == Some(Val(values[i]))
    ensures forall q :: IsVal(Lookup(Insert(m, path, v).value, q)) ==> q == path || q in stored
  {
    var m' := Insert(m, path, v).value;
    InsertLookup(m, path, v, path);
    forall i | 0 <= i < |stored| ensures Lookup(m', stored[i]) == Some(Val(values[i])) {
      InsertLookup(m, path, v, stored[i]);
    }
    forall q | IsVal(Lookup(m', q)) ensures q == path || q in stored {
      InsertLookup(m, path, v, q);
      IncomparableNoPrefix(path, q);
    }
  }
}
