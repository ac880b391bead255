/**
 `flattenObject`: a JSON Schema object tree becomes a flat parameter map. The walk
 visits `properties` depth first in insertion order, carrying the key prefix; an
 object-typed property is walked into, every other property becomes one entry keyed
 by its ancestors' names and its own joined with the delimiter.
 */
module Flattening {
  import opened Wrappers
  import opened Strings
  import opened Dict
  import opened PythonTypes

  /**
   A schema node as the walk reads it: `type`, `description`, `properties` (an object
   whose own entries keep their order) and `required`. Every field may be absent.
   */
  datatype Node = Node(
    ty: Option<string>,
    description: Option<string>,
    properties: Properties,
    required: Option<seq<string>>)

  /** The `properties` field: absent, or the object's own entries in insertion order. */
  datatype Properties = Absent | Present(entries: seq<Property>)

  datatype Property = Property(name: string, schema: Node)

  /** One parameter of the flat map. */
  datatype Entry = Entry(description: Option<string>, ty: string, required: bool)

  /** Why a conversion throws; nothing is returned then. */
  datatype Error =
    | MissingType        // a property without `type`: "Type is missing from schema"
    | MissingProperties  // `Object.entries` of an absent `properties` throws a TypeError

  /** `required?.includes(name) ?? false`. */
  predicate IsRequired(required: Option<seq<string>>, name: string) {
    required.Some? && name in required.value
  }

  /** The entry a non-object property `name` with schema `child` under `parent` becomes. */
  function LeafEntry(parent: Node, name: string, child: Node): Entry
    requires child.ty.Some?
  {
    Entry(child.description, ConvertToPythonType(child.ty.value), IsRequired(parent.required, name))
  }

  /** `flattenObject(schema, prefix)`: the map, or the error the walk throws. */
  function Flatten(schema: Node, prefix: string, d: string): (r: Result<Dict<Entry>, Error>)
    decreases schema, 1, 0
  {
    match schema.properties
    case Absent => Failure(MissingProperties)
    case Present(props) => FlattenFirst(schema, |props|, prefix, d)
  }

  /** The map after the loop of `flattenObject` has visited the first `k` properties. */
  function FlattenFirst(schema: Node, k: nat, prefix: string, d: string): (r: Result<Dict<Entry>, Error>)
    requires schema.properties.Present? && k <= |schema.properties.entries|
    decreases schema, 0, k
  {
    if k == 0 then Success([])
    else
      match FlattenFirst(schema, k - 1, prefix, d)
      case Failure(e) => Failure(e)
      case Success(acc) => Visit(schema, k - 1, prefix, d, acc)
  }

  /**
   One turn of that loop, for property `i` on the map `acc` built so far: a property
   without a type throws, an object is walked under its path and spread into `acc`,
   any other property is assigned its entry under its path.
   */
  function Visit(schema: Node, i: nat, prefix: string, d: string, acc: Dict<Entry>): (r: Result<Dict<Entry>, Error>)
    requires schema.properties.Present? && i < |schema.properties.entries|
    decreases schema, 0, i
  {
    var name := schema.properties.entries[i].name;
    var child := schema.properties.entries[i].schema;
    var path := JoinPath(prefix, name, d);
    if child.ty.None? then Failure(MissingType)
    else if child.ty.value == "object" then
      match Flatten(child, path, d)
      case Failure(e) => Failure(e)
      case Success(sub) => Success(Spread(acc, sub))
    else Success(Put(acc, path, LeafEntry(schema, name, child)))
  }

  /** The flat map never holds a key twice: every write goes through assignment or spread. */
  lemma {:induction false} FlattenHasUniqueKeys(schema: Node, prefix: string, d: string)
    ensures Flatten(schema, prefix, d).Success? ==> UniqueKeys(Flatten(schema, prefix, d).value)
    decreases schema, 1, 0
  {
    if schema.properties.Present? {
      FlattenFirstHasUniqueKeys(schema, |schema.properties.entries|, prefix, d);
    }
  }

  lemma {:induction false} FlattenFirstHasUniqueKeys(schema: Node, k: nat, prefix: string, d: string)
    requires schema.properties.Present? && k <= |schema.properties.entries|
    ensures FlattenFirst(schema, k, prefix, d).Success? ==> UniqueKeys(FlattenFirst(schema, k, prefix, d).value)
    decreases schema, 0, k
  {
    if k > 0 {
      FlattenFirstHasUniqueKeys(schema, k - 1, prefix, d);
      var r := FlattenFirst(schema, k - 1, prefix, d);
      if r.Success? {
        var child := schema.properties.entries[k - 1].schema;
        var path := JoinPath(prefix, schema.properties.entries[k - 1].name, d);
        if child.ty.Some? && child.ty.value == "object" {
          FlattenHasUniqueKeys(child, path, d);
          if Flatten(child, path, d).Success? {
            SpreadSpec(r.value, Flatten(child, path, d).value);
          }
        } else if child.ty.Some? {
          PutSpec(r.value, path, LeafEntry(schema, schema.properties.entries[k - 1].name, child));
        }
      }
    }
  }

  /** A typed property that is not an object is assigned its entry under its path. */
  lemma VisitLeaf(schema: Node, i: nat, prefix: string, d: string, acc: Dict<Entry>)
    requires schema.properties.Present? && i < |schema.properties.entries|
    requires schema.properties.entries[i].schema.ty.Some?
    requires schema.properties.entries[i].schema.ty.value != "object"
    ensures var p := schema.properties.entries[i];
      Visit(schema, i, prefix, d, acc) == Success(Put(acc, JoinPath(prefix, p.name, d), LeafEntry(schema, p.name, p.schema)))
  {
  }

  /** Once a property has thrown, the rest of the loop is never reached. */
  lemma {:induction false} FailureIsFinal(schema: Node, i: nat, k: nat, prefix: string, d: string)
    requires schema.properties.Present? && i <= k <= |schema.properties.entries|
    requires FlattenFirst(schema, i, prefix, d).Failure?
    ensures FlattenFirst(schema, k, prefix, d) == FlattenFirst(schema, i, prefix, d)
    decreases k
  {
    if i < k {
      FailureIsFinal(schema, i, k - 1, prefix, d);
      var r := FlattenFirst(schema, k - 1, prefix, d);
      assert FlattenFirst(schema, k, prefix, d) == Failure(r.error);
    }
  }

  /** `flattenObject`: the loop over `Object.entries(schema.properties)`. */
  method FlattenObject(schema: Node, prefix: string, d: string) returns (r: Result<Dict<Entry>, Error>)
    ensures r == Flatten(schema, prefix, d)
    decreases schema, 1
  {
    if schema.properties.Absent? {
      return Failure(MissingProperties);
    }
    var props := schema.properties.entries;
    var result: Dict<Entry> := [];
    var i := 0;
    while i < |props|
      invariant 0 <= i <= |props|
      invariant FlattenFirst(schema, i, prefix, d) == Success(result)
    {
      var next := VisitProperty(schema, i, prefix, d, result);
      if next.Failure? {
        FailureIsFinal(schema, i + 1, |props|, prefix, d);
        return next;
      }
      result := next.value;
      i := i + 1;
    }
    return Success(result);
  }

  /**
   The body of that loop for property `i`: throw on a missing type, merge the walk of
   an object by spread, assign the entry of any other property.
   */
  method VisitProperty(schema: Node, i: nat, prefix: string, d: string, result: Dict<Entry>)
    returns (next: Result<Dict<Entry>, Error>)
    requires schema.properties.Present? && i < |schema.properties.entries|
    ensures next == Visit(schema, i, prefix, d, result)
    decreases schema, 0
  {
    var name := schema.properties.entries[i].name;
    var child := schema.properties.entries[i].schema;
    var path := JoinPath(prefix, name, d);
    if child.ty.None? {
      return Failure(MissingType);
    }
    if child.ty.value == "object" {
      var sub := FlattenObject(child, path, d);
      if sub.Failure? {
        return Failure(sub.error);
      }
      next := Success(Spread(result, sub.value));
    } else {
      next := Success(Put(result, path, LeafEntry(schema, name, child)));
    }
  }

  /** Every property the walk reaches has a type, and every object it walks into has properties. */
  predicate WellFormed(schema: Node)
    decreases schema, 1, 0
  {
    schema.properties.Present? && ChildrenWellFormed(schema, |schema.properties.entries|)
  }

  /** The first `k` properties of `schema` are well formed. */
  predicate ChildrenWellFormed(schema: Node, k: nat)
    requires schema.properties.Present? && k <= |schema.properties.entries|
    decreases schema, 0, k
  {
    k == 0 ||
    (ChildrenWellFormed(schema, k - 1) && ChildWellFormed(schema.properties.entries[k - 1].schema))
  }

  predicate ChildWellFormed(child: Node)
    decreases child, 2, 0
  {
    child.ty.Some? && (child.ty.value == "object" ==> WellFormed(child))
  }

  /** Each property of a well-formed schema is itself well formed. */
  lemma {:induction false} ChildrenWellFormedAt(schema: Node, k: nat, i: nat)
    requires schema.properties.Present? && i < k <= |schema.properties.entries|
    requires ChildrenWellFormed(schema, k)
    ensures ChildWellFormed(schema.properties.entries[i].schema)
    decreases k
  {
    if i < k - 1 {
      ChildrenWellFormedAt(schema, k - 1, i);
    }
  }

  /** Flattening succeeds exactly on well-formed schemas: any missing `type` aborts the whole walk. */
  lemma {:induction false} FlattenSucceedsIffWellFormed(schema: Node, prefix: string, d: string)
    ensures Flatten(schema, prefix, d).Success? <==> WellFormed(schema)
    decreases schema, 1, 0
  {
    if schema.properties.Present? {
      FlattenFirstSucceeds(schema, |schema.properties.entries|, prefix, d);
    }
  }

  lemma {:induction false} FlattenFirstSucceeds(schema: Node, k: nat, prefix: string, d: string)
    requires schema.properties.Present? && k <= |schema.properties.entries|
    ensures FlattenFirst(schema, k, prefix, d).Success? <==> ChildrenWellFormed(schema, k)
    decreases schema, 0, k
  {
    if k > 0 {
      FlattenFirstSucceeds(schema, k - 1, prefix, d);
      var r := FlattenFirst(schema, k - 1, prefix, d);
      if r.Success? {
        VisitSucceeds(schema, k - 1, prefix, d, r.value);
      }
    }
  }

  lemma {:induction false} VisitSucceeds(schema: Node, i: nat, prefix: string, d: string, acc: Dict<Entry>)
    requires schema.properties.Present? && i < |schema.properties.entries|
    ensures Visit(schema, i, prefix, d, acc).Success? <==> ChildWellFormed(schema.properties.entries[i].schema)
    decreases schema, 0, i
  {
    var name := schema.properties.entries[i].name;
    var child := schema.properties.entries[i].schema;
    if child.ty.Some? && child.ty.value == "object" {
      FlattenSucceedsIffWellFormed(child, JoinPath(prefix, name, d), d);
    }
  }

  /** Every object the walk can enter, the schema itself included, has `properties`. */
  predicate HasProperties(schema: Node)
    decreases schema, 1, 0
  {
    schema.properties.Present? && PropertiesFirst(schema, |schema.properties.entries|)
  }

  predicate PropertiesFirst(schema: Node, k: nat)
    requires schema.properties.Present? && k <= |schema.properties.entries|
    decreases schema, 0, k
  {
    k == 0 ||
    (PropertiesFirst(schema, k - 1) && ChildHasProperties(schema.properties.entries[k - 1].schema))
  }

  predicate ChildHasProperties(child: Node)
    decreases child, 2, 0
  {
    child.ty == Some("object") ==> HasProperties(child)
  }

  /**
   When every object the walk can enter has `properties`, the only error it can
   throw is the missing `type`.
   */
  lemma {:induction false} FailureIsMissingType(schema: Node, prefix: string, d: string)
    requires HasProperties(schema)
    ensures Flatten(schema, prefix, d).Failure? ==> Flatten(schema, prefix, d).error == MissingType
    decreases schema, 1, 0
  {
    FirstFailureIsMissingType(schema, |schema.properties.entries|, prefix, d);
  }

  lemma {:induction false} FirstFailureIsMissingType(schema: Node, k: nat, prefix: string, d: string)
    requires schema.properties.Present? && k <= |schema.properties.entries|
    requires PropertiesFirst(schema, k)
    ensures FlattenFirst(schema, k, prefix, d).Failure? ==> FlattenFirst(schema, k, prefix, d).error == MissingType
    decreases schema, 0, k
  {
    if k > 0 {
      FirstFailureIsMissingType(schema, k - 1, prefix, d);
      var r := FlattenFirst(schema, k - 1, prefix, d);
      if r.Success? {
        var p := schema.properties.entries[k - 1];
        if p.schema.ty == Some("object") {
          FailureIsMissingType(p.schema, JoinPath(prefix, p.name, d), d);
        }
        assert FlattenFirst(schema, k, prefix, d) == Visit(schema, k - 1, prefix, d, r.value);
      } else {
        assert FlattenFirst(schema, k, prefix, d) == Failure(r.error);
      }
    }
  }

  /** A non-object property reached by the walk, with what its entry is made of. */
  datatype Leaf = Leaf(
    ancestors: seq<string>,
    name: string,
    ty: string,
    description: Option<string>,
    parentRequired: Option<seq<string>>)

  function Path(leaf: Leaf): seq<string> {
    leaf.ancestors + [leaf.name]
  }

  /** The non-object properties under `schema`, depth first, in property order. */
  function Leaves(schema: Node, ancestors: seq<string>): seq<Leaf>
    decreases schema, 1, 0
  {
    match schema.properties
    case Absent => []
    case Present(props) => LeavesFirst(schema, |props|, ancestors)
  }

  function LeavesFirst(schema: Node, k: nat, ancestors: seq<string>): seq<Leaf>
    requires schema.properties.Present? && k <= |schema.properties.entries|
    decreases schema, 0, k
  {
    if k == 0 then [] else LeavesFirst(schema, k - 1, ancestors) + LeavesAt(schema, k - 1, ancestors)
  }

  /** The leaves property `i` contributes: its own leaf, or the leaves of the object it holds. */
  function LeavesAt(schema: Node, i: nat, ancestors: seq<string>): seq<Leaf>
    requires schema.properties.Present? && i < |schema.properties.entries|
    decreases schema, 0, i
  {
    var name := schema.properties.entries[i].name;
    var child := schema.properties.entries[i].schema;
    if child.ty.None? then []
    else if child.ty.value == "object" then Leaves(child, ancestors + [name])
    else [Leaf(ancestors, name, child.ty.value, child.description, schema.required)]
  }

  /**
   The entry a leaf stands for: keyed by its non-empty path names joined by `d`, typed
   by the table, described as in the schema, required when its own parent lists it.
   */
  function EntryOf(leaf: Leaf, d: string): (string, Entry) {
    (JoinNames(Path(leaf), d),
     Entry(leaf.description, ConvertToPythonType(leaf.ty), IsRequired(leaf.parentRequired, leaf.name)))
  }

  function EntriesOf(leaves: seq<Leaf>, d: string): seq<(string, Entry)> {
    seq(|leaves|, i requires 0 <= i < |leaves| => EntryOf(leaves[i], d))
  }

  lemma EntriesOfConcat(a: seq<Leaf>, b: seq<Leaf>, d: string)
    ensures EntriesOf(a + b, d) == EntriesOf(a, d) + EntriesOf(b, d)
  {
  }

  /**
   What flattening a well-formed schema yields: for every key, the entry of the last
   leaf in walk order whose path joins to that key (spread and assignment both let
   the later write win), and nothing for other keys.
   */
  lemma {:induction false} FlattenIsLastWrite(schema: Node, ancestors: seq<string>, d: string)
    requires WellFormed(schema)
    ensures Flatten(schema, JoinNames(ancestors, d), d).Success?
    ensures forall key :: (Get(Flatten(schema, JoinNames(ancestors, d), d).value, key) ==
      LastValue(EntriesOf(Leaves(schema, ancestors), d), key))
    decreases schema, 1, 0
  {
    FlattenFirstIsLastWrite(schema, |schema.properties.entries|, ancestors, d);
  }

  lemma {:induction false} FlattenFirstIsLastWrite(schema: Node, k: nat, ancestors: seq<string>, d: string)
    requires WellFormed(schema) && k <= |schema.properties.entries|
    ensures FlattenFirst(schema, k, JoinNames(ancestors, d), d).Success?
    ensures forall key :: (Get(FlattenFirst(schema, k, JoinNames(ancestors, d), d).value, key) ==
      LastValue(EntriesOf(LeavesFirst(schema, k, ancestors), d), key))
    decreases schema, 0, k
  {
    if k > 0 {
      FlattenFirstIsLastWrite(schema, k - 1, ancestors, d);
      var acc := FlattenFirst(schema, k - 1, JoinNames(ancestors, d), d).value;
      VisitIsLastWrite(schema, k - 1, ancestors, d, acc, LeavesFirst(schema, k - 1, ancestors));
    }
  }

  /** One turn of the loop adds the entries of the property's leaves as later writes. */
  lemma {:induction false} VisitIsLastWrite(schema: Node, i: nat, ancestors: seq<string>, d: string,
                                            acc: Dict<Entry>, before: seq<Leaf>)
    requires WellFormed(schema) && i < |schema.properties.entries|
    requires forall key :: Get(acc, key) == LastValue(EntriesOf(before, d), key)
    ensures Visit(schema, i, JoinNames(ancestors, d), d, acc).Success?
    ensures forall key :: (Get(Visit(schema, i, JoinNames(ancestors, d), d, acc).value, key) ==
      LastValue(EntriesOf(before + LeavesAt(schema, i, ancestors), d), key))
    decreases schema, 0, i
  {
    var prefix := JoinNames(ancestors, d);
    var name := schema.properties.entries[i].name;
    var child := schema.properties.entries[i].schema;
    ChildrenWellFormedAt(schema, |schema.properties.entries|, i);
    JoinPathExtends(ancestors, name, d);
    var path := JoinPath(prefix, name, d);
    var added := LeavesAt(schema, i, ancestors);
    EntriesOfConcat(before, added, d);
    if child.ty.value == "object" {
      FlattenIsLastWrite(child, ancestors + [name], d);
      var sub := Flatten(child, path, d).value;
      forall key
        ensures Get(Spread(acc, sub), key) == LastValue(EntriesOf(before + added, d), key)
      {
        SpreadSpec(acc, sub);
        FlattenHasUniqueKeys(child, path, d);
        LastValueOfUnique(sub, key);
        LastValueConcat(EntriesOf(before, d), EntriesOf(added, d), key);
      }
    } else {
      var leaf := Leaf(ancestors, name, child.ty.value, child.description, schema.required);
      assert EntryOf(leaf, d) == (path, LeafEntry(schema, name, child));
      forall key
        ensures Get(Put(acc, path, LeafEntry(schema, name, child)), key) ==
          LastValue(EntriesOf(before + [leaf], d), key)
      {
        PutSpec(acc, path, LeafEntry(schema, name, child));
        LastValueConcat(EntriesOf(before, d), EntriesOf([leaf], d), key);
      }
    }
  }

  /** Leaves are never object-typed, and each lies strictly below the ancestors it was collected under. */
  lemma {:induction false} LeavesAreNonObject(schema: Node, ancestors: seq<string>)
    ensures forall leaf :: leaf in Leaves(schema, ancestors) ==>
      leaf.ty != "object" && ancestors <= leaf.ancestors
    decreases schema, 1, 0
  {
    if schema.properties.Present? {
      LeavesFirstAreNonObject(schema, |schema.properties.entries|, ancestors);
    }
  }

  lemma {:induction false} LeavesFirstAreNonObject(schema: Node, k: nat, ancestors: seq<string>)
    requires schema.properties.Present? && k <= |schema.properties.entries|
    ensures forall leaf :: leaf in LeavesFirst(schema, k, ancestors) ==>
      leaf.ty != "object" && ancestors <= leaf.ancestors
    decreases schema, 0, k
  {
    if k > 0 {
      LeavesFirstAreNonObject(schema, k - 1, ancestors);
      var name := schema.properties.entries[k - 1].name;
      var child := schema.properties.entries[k - 1].schema;
      if child.ty.Some? && child.ty.value == "object" {
        LeavesAreNonObject(child, ancestors + [name]);
      }
    }
  }

  /** Every entry of a flattened map comes from a non-object leaf, with the table's type and the schema's description. */
  lemma FlattenEntriesComeFromLeaves(schema: Node, d: string, key: string, e: Entry)
    requires WellFormed(schema)
    requires Flatten(schema, "", d).Success?
    requires Get(Flatten(schema, "", d).value, key) == Some(e)
    ensures exists leaf :: (leaf in Leaves(schema, []) && leaf.ty != "object" &&
      key == JoinNames(Path(leaf), d) && e.ty == ConvertToPythonType(leaf.ty) &&
      e.description == leaf.description && e.required == IsRequired(leaf.parentRequired, leaf.name))
  {
    assert JoinNames([], d) == "";
    FlattenIsLastWrite(schema, [], d);
    LeavesAreNonObject(schema, []);
    var entries := EntriesOf(Leaves(schema, []), d);
    assert (key, e) in entries;
    var i :| 0 <= i < |entries| && entries[i] == (key, e);
    var leaf := Leaves(schema, [])[i];
    assert EntryOf(leaf, d) == (key, e);
  }

  /** The names of `props`, in order. */
  function Names(props: seq<Property>): seq<string> {
    seq(|props|, i requires 0 <= i < |props| => props[i].name)
  }

  /** The entries of the first `k` properties of a schema none of whose properties is an object. */
  function FlatEntries(schema: Node, k: nat): Dict<Entry>
    requires schema.properties.Present? && k <= |schema.properties.entries|
    requires forall i :: 0 <= i < k ==> schema.properties.entries[i].schema.ty.Some?
  {
    var props := schema.properties.entries;
    seq(k, i requires 0 <= i < k => (props[i].name, LeafEntry(schema, props[i].name, props[i].schema)))
  }

  /**
   For a schema whose properties are all typed and none is an object, the map has one
   entry per property, in property order, keyed by the property's own name, when no
   name repeats.
   */
  lemma FlatSchemaKeysAreNames(schema: Node, d: string)
    requires schema.properties.Present?
    requires forall i :: 0 <= i < |schema.properties.entries| ==>
      schema.properties.entries[i].schema.ty.Some? && schema.properties.entries[i].schema.ty.value != "object"
    requires forall i, j :: 0 <= i < j < |schema.properties.entries| ==>
      schema.properties.entries[i].name != schema.properties.entries[j].name
    ensures Flatten(schema, "", d) == Success(FlatEntries(schema, |schema.properties.entries|))
    ensures Keys(Flatten(schema, "", d).value) == Names(schema.properties.entries)
  {
    FlatSchemaFirst(schema, |schema.properties.entries|, d);
  }

  lemma {:induction false} FlatSchemaFirst(schema: Node, k: nat, d: string)
    requires schema.properties.Present? && k <= |schema.properties.entries|
    requires forall i :: 0 <= i < |schema.properties.entries| ==>
      schema.properties.entries[i].schema.ty.Some? && schema.properties.entries[i].schema.ty.value != "object"
    requires forall i, j :: 0 <= i < j < |schema.properties.entries| ==>
      schema.properties.entries[i].name != schema.properties.entries[j].name
    ensures FlattenFirst(schema, k, "", d) == Success(FlatEntries(schema, k))
  {
    if k > 0 {
      FlatSchemaFirst(schema, k - 1, d);
      var props := schema.properties.entries;
      var acc := FlatEntries(schema, k - 1);
      var name := props[k - 1].name;
      assert name !in Keys(acc) by {
        forall j | 0 <= j < k - 1 ensures Keys(acc)[j] != name {
          assert Keys(acc)[j] == props[j].name;
        }
      }
      FlatSchemaStep(schema, k, d, acc);
      FlatEntriesSnoc(schema, k);
    } else {
      assert FlatEntries(schema, 0) == [];
    }
  }

  /** One turn of the loop on such a schema appends the property's entry under its own name. */
  lemma FlatSchemaStep(schema: Node, k: nat, d: string, acc: Dict<Entry>)
    requires schema.properties.Present? && 0 < k <= |schema.properties.entries|
    requires FlattenFirst(schema, k - 1, "", d) == Success(acc)
    requires schema.properties.entries[k - 1].schema.ty.Some?
    requires schema.properties.entries[k - 1].schema.ty.value != "object"
    requires schema.properties.entries[k - 1].name !in Keys(acc)
    ensures var p := schema.properties.entries[k - 1];
      FlattenFirst(schema, k, "", d) == Success(acc + [(p.name, LeafEntry(schema, p.name, p.schema))])
  {
    var p := schema.properties.entries[k - 1];
    VisitLeaf(schema, k - 1, "", d, acc);
    PutNew(acc, p.name, LeafEntry(schema, p.name, p.schema));
  }

  lemma FlatEntriesSnoc(schema: Node, k: nat)
    requires schema.properties.Present? && 0 < k <= |schema.properties.entries|
    requires forall i :: 0 <= i < k ==> schema.properties.entries[i].schema.ty.Some?
    ensures var p := schema.properties.entries[k - 1];
      FlatEntries(schema, k) == FlatEntries(schema, k - 1) + [(p.name, LeafEntry(schema, p.name, p.schema))]
  {
  }
}
