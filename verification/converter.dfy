/**
 `convert` and `unconvert`: the two exported conversions between a JSON Schema object
 and the flat parameter map of a tool, with the delimiter "__", and what the two do
 when composed.
 */
module Converter {
  import opened Wrappers
  import opened Strings
  import opened Dict
  import opened Flattening
  import opened Unflattening

  /** `nestDelimiter`: joins the names of nested properties into one parameter key. */
  const NestDelimiter: string := "__"

  /** `convert(schema)`: the flat parameter map of a schema, walked from the empty prefix. */
  method Convert(schema: Node) returns (r: Result<Dict<Entry>, Error>)
    ensures r == Flatten(schema, "", NestDelimiter)
    ensures r.Success? <==> WellFormed(schema)
    ensures r.Success? ==> UniqueKeys(r.value)
  {
    r := FlattenObject(schema, "", NestDelimiter);
    FlattenSucceedsIffWellFormed(schema, "", NestDelimiter);
    FlattenHasUniqueKeys(schema, "", NestDelimiter);
  }

  /** `unconvert(params)`: the nested object a flat parameter map stands for. */
  method Unconvert<V>(params: Dict<V>) returns (r: Option<Object<V>>)
    ensures r == Unflatten(params, NestDelimiter)
  {
    r := UnflattenObject(params, NestDelimiter);
  }

  /**
   A name that survives a round trip as the last name of a key: not empty, and free of
   the delimiter. The name of an object must also be `Separable`, since more names follow it.
   */
  predicate PlainName(name: string, d: string)
    requires |d| > 0
  {
    name != "" && IndexOf(name, d).None?
  }

  /**
   Sibling names are distinct and plain, and the names of objects are separable, all
   the way down through the objects the walk enters.
   */
  predicate PlainNames(schema: Node, d: string)
    requires |d| > 0
    decreases schema, 1, 0
  {
    schema.properties.Present? ==>
      DistinctNames(schema) && PlainFirst(schema, |schema.properties.entries|, d)
  }

  predicate DistinctNames(schema: Node)
    requires schema.properties.Present?
  {
    forall i, j :: 0 <= i < j < |schema.properties.entries| ==>
      schema.properties.entries[i].name != schema.properties.entries[j].name
  }

  predicate PlainFirst(schema: Node, k: nat, d: string)
    requires |d| > 0
    requires schema.properties.Present? && k <= |schema.properties.entries|
    decreases schema, 0, k
  {
    k == 0 ||
    (var p := schema.properties.entries[k - 1];
     PlainFirst(schema, k - 1, d) && PlainName(p.name, d) &&
     (p.schema.ty == Some("object") ==> Separable(p.name, d) && PlainNames(p.schema, d)))
  }

  /**
   The path of a leaf extends `ancestors`, its names below them are plain, and all of
   those but its own name are separable.
   */
  predicate PlainBelow(leaf: Leaf, ancestors: seq<string>, d: string)
    requires |d| > 0
  {
    |ancestors| < |Path(leaf)| && Path(leaf)[..|ancestors|] == ancestors &&
    (forall j :: |ancestors| <= j < |Path(leaf)| ==> PlainName(Path(leaf)[j], d)) &&
    (forall j :: |ancestors| <= j < |Path(leaf)| - 1 ==> Separable(Path(leaf)[j], d))
  }

  /** No leaf path is a prefix of another. */
  predicate PrefixFree(leaves: seq<Leaf>) {
    forall a, b :: 0 <= a < b < |leaves| ==> Incomparable(Path(leaves[a]), Path(leaves[b]))
  }

  /** Paths that differ at some position part there. */
  lemma {:induction false} DifferAt(p: seq<string>, q: seq<string>, j: nat)
    requires j < |p| && j < |q| && p[j] != q[j]
    ensures Incomparable(p, q)
    decreases j
  {
    if p[0] == q[0] {
      DifferAt(p[1..], q[1..], j - 1);
    }
  }

  /**
   The leaves of a schema with plain names lie below their ancestors with plain names
   only, and no leaf's path is a prefix of another's: each names a distinct property.
   */
  lemma {:induction false} LeafPaths(schema: Node, ancestors: seq<string>, d: string)
    requires |d| > 0
    requires PlainNames(schema, d)
    ensures forall leaf :: leaf in Leaves(schema, ancestors) ==> PlainBelow(leaf, ancestors, d)
    ensures PrefixFree(Leaves(schema, ancestors))
    decreases schema, 1, 0
  {
    if schema.properties.Present? {
      LeafPathsFirst(schema, |schema.properties.entries|, ancestors, d);
    }
  }

  lemma {:induction false} LeafPathsFirst(schema: Node, k: nat, ancestors: seq<string>, d: string)
    requires |d| > 0
    requires schema.properties.Present? && k <= |schema.properties.entries|
    requires DistinctNames(schema) && PlainFirst(schema, k, d)
    ensures forall leaf :: leaf in LeavesFirst(schema, k, ancestors) ==>
      PlainBelow(leaf, ancestors, d) &&
      exists i :: 0 <= i < k && Path(leaf)[|ancestors|] == schema.properties.entries[i].name
    ensures PrefixFree(LeavesFirst(schema, k, ancestors))
    decreases schema, 0, k
  {
    if k > 0 {
      var props := schema.properties.entries;
      var before := LeavesFirst(schema, k - 1, ancestors);
      var added := LeavesAt(schema, k - 1, ancestors);
      LeafPathsFirst(schema, k - 1, ancestors, d);
      LeafPathsAt(schema, k - 1, ancestors, d);
      var all := before + added;
      forall x, y | x in before && y in added
        ensures |ancestors| < |Path(x)| && |ancestors| < |Path(y)| && Path(x)[|ancestors|] != Path(y)[|ancestors|]
      {
        var i :| 0 <= i < k - 1 && Path(x)[|ancestors|] == props[i].name;
      }
      PrefixFreeConcat(before, added, |ancestors|);
      assert LeavesFirst(schema, k, ancestors) == all;
      forall leaf | leaf in all
        ensures PlainBelow(leaf, ancestors, d)
        ensures exists i :: 0 <= i < k && Path(leaf)[|ancestors|] == props[i].name
      {
        if leaf in added {
          assert Path(leaf)[|ancestors|] == props[k - 1].name;
        } else {
          assert leaf in before;
          var i :| 0 <= i < k - 1 && Path(leaf)[|ancestors|] == props[i].name;
          assert 0 <= i < k && Path(leaf)[|ancestors|] == props[i].name;
        }
      }
    }
  }

  /** Two prefix-free runs of leaves stay prefix free together when they part at position `j`. */
  lemma PrefixFreeConcat(before: seq<Leaf>, added: seq<Leaf>, j: nat)
    requires PrefixFree(before) && PrefixFree(added)
    requires forall x, y :: x in before && y in added ==>
      j < |Path(x)| && j < |Path(y)| && Path(x)[j] != Path(y)[j]
    ensures PrefixFree(before + added)
  {
    var all := before + added;
    forall a, b | 0 <= a < b < |all| ensures Incomparable(Path(all[a]), Path(all[b])) {
      if b < |before| {
        assert all[a] == before[a] && all[b] == before[b];
      } else if a >= |before| {
        assert all[a] == added[a - |before|] && all[b] == added[b - |before|];
      } else {
        assert all[a] == before[a] && all[b] == added[b - |before|];
        DifferAt(Path(all[a]), Path(all[b]), j);
      }
    }
  }

  /** The leaves one property contributes lie below it, named by it, and are prefix free. */
  lemma {:induction false} LeafPathsAt(schema: Node, i: nat, ancestors: seq<string>, d: string)
    requires |d| > 0
    requires schema.properties.Present? && i < |schema.properties.entries|
    requires DistinctNames(schema) && PlainFirst(schema, i + 1, d)
    ensures forall leaf :: leaf in LeavesAt(schema, i, ancestors) ==>
      PlainBelow(leaf, ancestors, d) && Path(leaf)[|ancestors|] == schema.properties.entries[i].name
    ensures PrefixFree(LeavesAt(schema, i, ancestors))
    decreases schema, 0, i
  {
    var p := schema.properties.entries[i];
    if p.schema.ty == Some("object") {
      var below := ancestors + [p.name];
      LeafPaths(p.schema, below, d);
      forall leaf | leaf in Leaves(p.schema, below)
        ensures PlainBelow(leaf, ancestors, d) && Path(leaf)[|ancestors|] == p.name
      {
        assert Path(leaf)[..|below|] == below;
        assert Path(leaf)[..|ancestors|] == below[..|ancestors|];
        assert Path(leaf)[|ancestors|] == below[|ancestors|];
      }
    }
  }

  /** The key of a leaf with plain names splits back into the leaf's path. */
  lemma LeafKeySplits(leaf: Leaf, d: string)
    requires |d| > 0
    requires PlainBelow(leaf, [], d)
    ensures Split(EntryOf(leaf, d).0, d) == Path(leaf)
  {
    var path := Path(leaf);
    assert forall j :: 0 <= j < |path| ==> PlainName(path[j], d);
    assert forall j :: 0 <= j < |path| ==> path[j] != "";
    assert DropEmpty(path) == path;
    assert EntryOf(leaf, d).0 == Join(path, d);
    SplitJoin(path, d);
  }

  /**
   Unconverting what a schema converts to puts every leaf's entry under the path of its
   property names, and nothing else, when the schema is well formed and its names are
   plain: distinct among siblings, non-empty and free of the delimiter, and separable
   for objects, whose names more names follow in a key.
   */
  lemma RoundTrip(schema: Node)
    requires WellFormed(schema) && PlainNames(schema, NestDelimiter)
    ensures Flatten(schema, "", NestDelimiter).Success?
    ensures Unflatten(Flatten(schema, "", NestDelimiter).value, NestDelimiter).Some?
    ensures forall leaf :: leaf in Leaves(schema, []) ==>
      Lookup(Unflatten(Flatten(schema, "", NestDelimiter).value, NestDelimiter).value, Path(leaf)) ==
        Some(Val(EntryOf(leaf, NestDelimiter).1))
    ensures forall q :: IsVal(Lookup(Unflatten(Flatten(schema, "", NestDelimiter).value, NestDelimiter).value, q)) ==>
      exists leaf :: leaf in Leaves(schema, []) && q == Path(leaf)
  {
    var d := NestDelimiter;
    LeafKeys(schema, d);
    assert JoinNames([], d) == "";
    FlattenIsLastWrite(schema, [], d);
    FlattenHasUniqueKeys(schema, "", d);
    UnflattenLeaves(Leaves(schema, []), Flatten(schema, "", d).value, d);
    UnflattenOnlyLeaves(Leaves(schema, []), Flatten(schema, "", d).value, d);
  }

  /**
   Why names must be plain: a top-level property named "a__b" and a property "b"
   nested in "a" get the same key, and unconverting that key always nests.
   */
  lemma DelimiterInNameCollides()
    ensures JoinPath("", "a__b", NestDelimiter) == JoinPath("a", "b", NestDelimiter) == "a__b"
    ensures Split("a__b", NestDelimiter) == ["a", "b"]
  {
    var s := "a__b";
    OccursDoubleUnderscore(s, 0);
    OccursDoubleUnderscore(s, 1);
    IndexOfLeast(s, "__", 1);
    SplitAtFirst(s, "__");
    assert s[..1] == "a" && s[3..] == "b";
    OccursDoubleUnderscore("b", 0);
    assert IndexOf("b", "__").None?;
  }

  /**
   Why object names must be separable: the leaf "x" nested in an object named "a_"
   gets the key "a___x", and the leftmost "__" splits that key into "a" and "_x", a
   path the schema does not have.
   */
  lemma TrailingUnderscoreMisSplits()
    ensures JoinPath("a_", "x", NestDelimiter) == "a___x"
    ensures Split("a___x", NestDelimiter) == ["a", "_x"]
  {
    assert "a_" + NestDelimiter + "x" == "a___x";
    var s := "a___x";
    FirstSeparatorAfterA(s);
    assert s[..1] == "a" && s[3..] == "_x";
    NoSeparatorIn("_x");
    assert Split(s, "__") == [s[..1]] + Split(s[3..], "__");
  }

  lemma FirstSeparatorAfterA(s: string)
    requires s == "a___x"
    ensures IndexOf(s, "__") == Some(1)
  {
    OccursDoubleUnderscore(s, 0);
    OccursDoubleUnderscore(s, 1);
    IndexOfLeast(s, "__", 1);
  }

  lemma NoSeparatorIn(s: string)
    requires s == "_x"
    ensures Split(s, "__") == [s]
  {
    OccursDoubleUnderscore(s, 0);
  }

  /**
   A leaf name may end in "_", as in `{from_: string}`: "from_" is not separable, yet the
   schema meets the condition of `RoundTrip`, because only the names of objects are
   followed by more names.
   */
  lemma LeafNameMayEndInUnderscore()
    ensures !Separable("from_", NestDelimiter)
    ensures var schema := Node(Some("object"), None,
      Present([Property("from_", Node(Some("string"), None, Absent, None))]), None);
      WellFormed(schema) && PlainNames(schema, NestDelimiter)
  {
    var s := "from_";
    if IndexOf(s, "__").Some? {
      OccursDoubleUnderscore(s, IndexOf(s, "__").value);
      assert false;
    }
    SeparableDoubleUnderscore(s);
  }

  /**
   Keys whose splits are prefixes of each other: a later shorter key overwrites the
   object an earlier longer key built, as the final assignment does; a later longer key
   runs into the value an earlier shorter key stored, and the model returns None.
   */
  lemma PrefixKeysByOrder()
    ensures Unflatten([("a__b", 1), ("a", 2)], NestDelimiter) == Some(map["a" := Val(2)])
    ensures Unflatten([("a", 2), ("a__b", 1)], NestDelimiter) == None
  {
    DelimiterInNameCollides();
    assert Split("a", NestDelimiter) == ["a"];
    var longFirst: Dict<int> := [("a__b", 1), ("a", 2)];
    assert longFirst[..1] == [("a__b", 1)] && longFirst[..1][..0] == [];
    var built: Object<int> := map["a" := Branch(map["b" := Val(1)])];
    assert Insert(map[], ["a", "b"], 1) == Some(built);
    assert Unflatten(longFirst[..1], NestDelimiter) == Some(built);
    assert built["a" := Val(2)] == map["a" := Val(2)];
    var shortFirst: Dict<int> := [("a", 2), ("a__b", 1)];
    assert shortFirst[..1] == [("a", 2)] && shortFirst[..1][..0] == [];
    assert Unflatten(shortFirst[..1], NestDelimiter) == Some(map["a" := Val(2)]);
    assert Insert(map["a" := Val(2)], ["a", "b"], 1) == None;
  }

  /** The leaves of a schema with plain names are prefix free and their keys split back into their paths. */
  lemma LeafKeys(schema: Node, d: string)
    requires |d| > 0
    requires PlainNames(schema, d)
    ensures PrefixFree(Leaves(schema, []))
    ensures forall a :: 0 <= a < |Leaves(schema, [])| ==>
      Split(EntryOf(Leaves(schema, [])[a], d).0, d) == Path(Leaves(schema, [])[a])
  {
    var leaves := Leaves(schema, []);
    LeafPaths(schema, [], d);
    forall a | 0 <= a < |leaves| ensures Split(EntryOf(leaves[a], d).0, d) == Path(leaves[a]) {
      LeafKeySplits(leaves[a], d);
    }
  }

  /**
   A map holding, for each key, the last write among the entries of prefix-free leaves
   whose keys split back into their paths: unflattening it puts each leaf's entry
   under its path.
   */
  lemma UnflattenLeaves(leaves: seq<Leaf>, flat: Dict<Entry>, d: string)
    requires |d| > 0
    requires UniqueKeys(flat)
    requires forall key :: Get(flat, key) == LastValue(EntriesOf(leaves, d), key)
    requires PrefixFree(leaves)
    requires forall a :: 0 <= a < |leaves| ==> Split(EntryOf(leaves[a], d).0, d) == Path(leaves[a])
    ensures Unflatten(flat, d).Some?
    ensures forall leaf :: leaf in leaves ==> Lookup(Unflatten(flat, d).value, Path(leaf)) == Some(Val(EntryOf(leaf, d).1))
  {
    FlatKeysFromLeaves(leaves, flat, d);
    FlatSplitsApart(leaves, flat, d);
    UnflattenFindsEvery(flat, d);
    forall leaf | leaf in leaves
      ensures Lookup(Unflatten(flat, d).value, Path(leaf)) == Some(Val(EntryOf(leaf, d).1))
    {
      var a :| 0 <= a < |leaves| && leaves[a] == leaf;
      LeafValueStored(leaves, flat, d, a);
    }
  }

  /** ... and nothing else: every stored value of the result sits at the path of a leaf. */
  lemma UnflattenOnlyLeaves(leaves: seq<Leaf>, flat: Dict<Entry>, d: string)
    requires |d| > 0
    requires UniqueKeys(flat)
    requires forall key :: Get(flat, key) == LastValue(EntriesOf(leaves, d), key)
    requires PrefixFree(leaves)
    requires forall a :: 0 <= a < |leaves| ==> Split(EntryOf(leaves[a], d).0, d) == Path(leaves[a])
    ensures Unflatten(flat, d).Some?
    ensures forall q :: IsVal(Lookup(Unflatten(flat, d).value, q)) ==> exists leaf :: leaf in leaves && q == Path(leaf)
  {
    FlatKeysFromLeaves(leaves, flat, d);
    FlatSplitsApart(leaves, flat, d);
    UnflattenFindsEvery(flat, d);
    forall q | IsVal(Lookup(Unflatten(flat, d).value, q))
      ensures exists leaf :: leaf in leaves && q == Path(leaf)
    {
      var i :| 0 <= i < |flat| && q == Split(flat[i].0, d);
      var a := FlatKeyAtLeaf(leaves, flat, d, i);
      assert leaves[a] in leaves;
    }
  }

  /** The key of pair `i` of such a map splits into the path of some leaf `a`. */
  lemma FlatKeyAtLeaf(leaves: seq<Leaf>, flat: Dict<Entry>, d: string, i: nat) returns (a: nat)
    requires |d| > 0
    requires i < |flat|
    requires forall i :: 0 <= i < |flat| ==> flat[i].0 in Keys(EntriesOf(leaves, d))
    requires forall a :: 0 <= a < |leaves| ==> Split(EntryOf(leaves[a], d).0, d) == Path(leaves[a])
    ensures a < |leaves| && Split(flat[i].0, d) == Path(leaves[a])
  {
    var keys := Keys(EntriesOf(leaves, d));
    assert flat[i].0 in keys;
    a :| 0 <= a < |keys| && keys[a] == flat[i].0;
    assert EntriesOf(leaves, d)[a] == EntryOf(leaves[a], d);
  }

  /** Different keys of such a map split into paths neither of which is a prefix of the other. */
  lemma FlatSplitsApart(leaves: seq<Leaf>, flat: Dict<Entry>, d: string)
    requires |d| > 0
    requires UniqueKeys(flat)
    requires forall i :: 0 <= i < |flat| ==> flat[i].0 in Keys(EntriesOf(leaves, d))
    requires PrefixFree(leaves)
    requires forall a :: 0 <= a < |leaves| ==> Split(EntryOf(leaves[a], d).0, d) == Path(leaves[a])
    ensures forall i, j :: 0 <= i < |flat| && 0 <= j < |flat| && i != j ==>
      Incomparable(Split(flat[i].0, d), Split(flat[j].0, d))
  {
    KeysSplitToPaths(leaves, d);
    PathsPrefixFree(leaves);
    FlatSplitsIncomparable(leaves, flat, d);
  }

  /** The same, with the keys' paths and their partings read off `PathsOf(leaves)`. */
  lemma FlatSplitsIncomparable(leaves: seq<Leaf>, flat: Dict<Entry>, d: string)
    requires |d| > 0
    requires UniqueKeys(flat)
    requires forall i :: 0 <= i < |flat| ==> flat[i].0 in Keys(EntriesOf(leaves, d))
    requires forall a :: 0 <= a < |leaves| ==> Split(Keys(EntriesOf(leaves, d))[a], d) == PathsOf(leaves)[a]
    requires forall a, b :: 0 <= a < b < |leaves| ==> Incomparable(PathsOf(leaves)[a], PathsOf(leaves)[b])
    ensures forall i, j :: 0 <= i < |flat| && 0 <= j < |flat| && i != j ==>
      Incomparable(Split(flat[i].0, d), Split(flat[j].0, d))
  {
    var split := (s: string) => Split(s, d);
    FlatKeysIncomparable(flat, Keys(EntriesOf(leaves, d)), PathsOf(leaves), split);
  }

  /** The paths of `leaves`, in order. */
  function PathsOf(leaves: seq<Leaf>): (r: seq<seq<string>>)
    ensures |r| == |leaves|
  {
    seq(|leaves|, a requires 0 <= a < |leaves| => Path(leaves[a]))
  }

  lemma KeysSplitToPaths(leaves: seq<Leaf>, d: string)
    requires |d| > 0
    requires forall a :: 0 <= a < |leaves| ==> Split(EntryOf(leaves[a], d).0, d) == Path(leaves[a])
    ensures forall a :: 0 <= a < |leaves| ==> Split(Keys(EntriesOf(leaves, d))[a], d) == PathsOf(leaves)[a]
  {
    forall a | 0 <= a < |leaves| ensures Split(Keys(EntriesOf(leaves, d))[a], d) == PathsOf(leaves)[a] {
      assert Keys(EntriesOf(leaves, d))[a] == EntryOf(leaves[a], d).0;
    }
  }

  lemma PathsPrefixFree(leaves: seq<Leaf>)
    requires PrefixFree(leaves)
    ensures forall a, b :: 0 <= a < b < |leaves| ==> Incomparable(PathsOf(leaves)[a], PathsOf(leaves)[b])
  {
    forall a, b | 0 <= a < b < |leaves| ensures Incomparable(PathsOf(leaves)[a], PathsOf(leaves)[b]) {
      assert PathsOf(leaves)[a] == Path(leaves[a]) && PathsOf(leaves)[b] == Path(leaves[b]);
    }
  }

  /** The entry of leaf `a` is a pair of the map, so unflattening finds it under the leaf's path. */
  lemma LeafValueStored(leaves: seq<Leaf>, flat: Dict<Entry>, d: string, a: nat)
    requires |d| > 0
    requires a < |leaves|
    requires forall key :: Get(flat, key) == LastValue(EntriesOf(leaves, d), key)
    requires PrefixFree(leaves)
    requires forall a :: 0 <= a < |leaves| ==> Split(EntryOf(leaves[a], d).0, d) == Path(leaves[a])
    requires Unflatten(flat, d).Some?
    requires forall i :: 0 <= i < |flat| ==>
      Lookup(Unflatten(flat, d).value, Split(flat[i].0, d)) == Some(Val(flat[i].1))
    ensures Lookup(Unflatten(flat, d).value, Path(leaves[a])) == Some(Val(EntryOf(leaves[a], d).1))
  {
    var entries := EntriesOf(leaves, d);
    EntryKeysUnique(leaves, d);
    assert entries[a] == EntryOf(leaves[a], d);
    LastValueOfUnique(entries, entries[a].0);
    GetAt(entries, a);
    assert (entries[a].0, entries[a].1) in flat;
    var i :| 0 <= i < |flat| && flat[i] == entries[a];
  }

  /** Leaves whose keys split back into prefix-free paths have distinct keys. */
  lemma EntryKeysUnique(leaves: seq<Leaf>, d: string)
    requires |d| > 0
    requires PrefixFree(leaves)
    requires forall a :: 0 <= a < |leaves| ==> Split(EntryOf(leaves[a], d).0, d) == Path(leaves[a])
    ensures UniqueKeys(EntriesOf(leaves, d))
  {
    var entries := EntriesOf(leaves, d);
    forall a, b | 0 <= a < b < |leaves| ensures entries[a].0 != entries[b].0 {
      assert entries[a] == EntryOf(leaves[a], d) && entries[b] == EntryOf(leaves[b], d);
      IncomparableDistinct(Path(leaves[a]), Path(leaves[b]));
    }
  }

  /** Every key of a map whose lookups are last writes of the leaves' entries is a leaf's key. */
  lemma FlatKeysFromLeaves(leaves: seq<Leaf>, flat: Dict<Entry>, d: string)
    requires UniqueKeys(flat)
    requires forall key :: Get(flat, key) == LastValue(EntriesOf(leaves, d), key)
    ensures forall i :: 0 <= i < |flat| ==> flat[i].0 in Keys(EntriesOf(leaves, d))
  {
    var entries := EntriesOf(leaves, d);
    forall i | 0 <= i < |flat| ensures flat[i].0 in Keys(entries) {
      GetAt(flat, i);
      assert (flat[i].0, flat[i].1) in entries;
      var a :| 0 <= a < |entries| && entries[a] == (flat[i].0, flat[i].1);
      assert Keys(entries)[a] == flat[i].0;
    }
  }

  /**
   Different keys of a map have incomparable images under `split` when every key is one
   of `keys`, whose images are the matching prefix-free `paths`.
   */
  lemma FlatKeysIncomparable(flat: Dict<Entry>, keys: seq<string>, paths: seq<seq<string>>,
                             split: string -> seq<string>)
    requires |keys| == |paths|
    requires UniqueKeys(flat)
    requires forall i :: 0 <= i < |flat| ==> flat[i].0 in keys
    requires forall a :: 0 <= a < |keys| ==> split(keys[a]) == paths[a]
    requires forall a, b :: 0 <= a < b < |paths| ==> Incomparable(paths[a], paths[b])
    ensures forall i, j :: 0 <= i < |flat| && 0 <= j < |flat| && i != j ==>
      Incomparable(split(flat[i].0), split(flat[j].0))
  {
    forall i, j | 0 <= i < |flat| && 0 <= j < |flat| && i != j
      ensures Incomparable(split(flat[i].0), split(flat[j].0))
    {
      KeysDiffer(flat, i, j);
      var a :| 0 <= a < |keys| && flat[i].0 == keys[a];
      var b :| 0 <= b < |keys| && flat[j].0 == keys[b];
      if b < a {
        IncomparableSymmetric(paths[b], paths[a]);
      }
    }
  }
}
