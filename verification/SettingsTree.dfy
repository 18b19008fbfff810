/**
 The value of a settings message (settings/field.go), and what the operations of a typed field
 do to it.

 A message tree is a map from the path of every present sub-message (the root's path is empty) to
 that sub-message's own content, so two messages are equal exactly when their maps are.
 */
module SettingsTree {
  import opened Prelude

  /** A populated field but a singular message. Lists, maps and the scalar kinds no typed field uses are composite. */
  datatype Value =
    | StringValue(s: string)
    | BoolValue(b: bool)
    | EnumValue(number: int)
    | Composite(contents: seq<byte>)

  datatype Kind = StringKind | BoolKind | EnumKind | MessageKind | OtherKind

  datatype Cardinality = Singular | List | Map

  /** `siblings` are the other members of the real oneof the field belongs to; empty outside a oneof. */
  datatype FieldDescriptor = FieldDescriptor(
    containing: string,
    name: string,
    kind: Kind,
    cardinality: Cardinality,
    presence: bool,
    message: Option<string>,
    enumValues: set<int>,
    siblings: set<string>)

  /** Where a message is: the root, or under a field of the message at `parent`. */
  datatype Path = Root | Under(parent: Path, name: string)

  datatype Node = Node(scalars: map<string, Value>, unknown: seq<byte>)

  const EMPTY_NODE := Node(map[], [])

  type Tree = map<Path, Node>

  const EMPTY_TREE: Tree := map[Root := EMPTY_NODE]

  predicate WellFormed(t: Tree) {
    && Root in t
    && forall p {:trigger p.parent} | p in t && p.Under? :: p.parent in t
  }

  /** r lies in a sub-message that p holds under one of `names`. */
  predicate Below(r: Path, p: Path, names: set<string>) {
    r.Under? && ((r.parent == p && r.name in names) || Below(r.parent, p, names))
  }

  predicate HasChild(t: Tree, p: Path) {
    exists r :: r in t && r.Under? && r.parent == p
  }

  predicate EmptyAt(t: Tree, p: Path)
    requires p in t
  {
    t[p] == EMPTY_NODE && !HasChild(t, p)
  }

  /** Removes the named fields of the message at p, scalars and whole sub-messages alike. */
  function ClearFields(t: Tree, p: Path, names: set<string>): Tree {
    map r | r in t && !Below(r, p, names) ::
      if r == p then Node(t[r].scalars - names, t[r].unknown) else t[r]
  }

  function PutScalar(t: Tree, p: Path, name: string, value: Value): Tree
    requires p in t
  {
    t[p := Node(t[p].scalars[name := value], t[p].unknown)]
  }

  /** The value an absent field reads as. */
  predicate IsZero(value: Value) {
    match value
    case StringValue(s) => s == ""
    case BoolValue(b) => !b
    case EnumValue(number) => number == 0
    case Composite(_) => false
  }

  /** Storing the value makes the field present: a field without presence is absent when it holds its zero value. */
  predicate Populates(field: FieldDescriptor, value: Value) {
    field.presence || !IsZero(value)
  }

  /** The message at p after a value was stored in one of its fields. */
  function Stored(t: Tree, p: Path, field: FieldDescriptor, value: Value): Tree
    requires p in t
  {
    if Populates(field, value) then PutScalar(t, p, field.name, value) else ClearFields(t, p, {field.name})
  }

  /** Nothing lies below itself. */
  lemma {:induction false} NotBelow(r: Path, p: Path, names: set<string>)
    ensures Below(r, p, names) ==> p != r
  {
    BelowIsDeeper(r, p, names);
  }

  function Depth(p: Path): nat {
    if p.Root? then 0 else Depth(p.parent) + 1
  }

  lemma {:induction false} BelowIsDeeper(r: Path, p: Path, names: set<string>)
    ensures Below(r, p, names) ==> Depth(p) < Depth(r)
  {
    if r.Under? {
      BelowIsDeeper(r.parent, p, names);
    }
  }

  /** Storing a scalar; storing a oneof member clears its siblings. */
  function PutLeaf(t: Tree, p: Path, leaf: FieldDescriptor, value: Value): Tree
    requires p in t
  {
    NotBelow(p, p, leaf.siblings);
    PutScalar(ClearFields(t, p, leaf.siblings), p, leaf.name, value)
  }

  /** Reads or creates the sub-message `field` of the message at p; creating a oneof member clears its siblings. */
  function Materialize(t: Tree, p: Path, field: FieldDescriptor): Tree {
    if Under(p, field.name) in t then t else ClearFields(t, p, field.siblings)[Under(p, field.name) := EMPTY_NODE]
  }

  /** The path the first k segments lead to. */
  function PathTo(segments: seq<FieldDescriptor>, k: nat): Path
    requires k <= |segments|
  {
    if k == 0 then Root else Under(PathTo(segments, k - 1), segments[k - 1].name)
  }

  /** The tree after the first k segments have been materialized in turn. */
  function MaterializePath(t: Tree, segments: seq<FieldDescriptor>, k: nat): Tree
    requires k <= |segments|
  {
    if k == 0 then t
    else Materialize(MaterializePath(t, segments, k - 1), PathTo(segments, k - 1), segments[k - 1])
  }

  /** How many of the first k segments lead to sub-messages that are present. */
  function PresentDepth(t: Tree, segments: seq<FieldDescriptor>, k: nat): (d: nat)
    requires k <= |segments|
    ensures d <= k
  {
    if k == 0 then 0
    else
      var d := PresentDepth(t, segments, k - 1);
      if d == k - 1 && PathTo(segments, k) in t then k else d
  }

  /** What a rejected assignment leaves behind: nothing it created, but not the oneof siblings it displaced. */
  function Displaced(t: Tree, segments: seq<FieldDescriptor>, k: nat): Tree
    requires k <= |segments|
  {
    var d := PresentDepth(t, segments, k);
    if d == k then t else ClearFields(t, PathTo(segments, d), segments[d].siblings)
  }

  /** Setting the leaf that `segments` ends in, below the parents they name. */
  function SetTree(t: Tree, segments: seq<FieldDescriptor>, value: Value): Tree
    requires WellFormed(t) && |segments| > 0
  {
    var n := |segments| - 1;
    MaterializeShape(t, segments, n);
    PutLeaf(MaterializePath(t, segments, n), PathTo(segments, n), segments[n], value)
  }

  function LookupTree(t: Tree, segments: seq<FieldDescriptor>): Option<Value>
    requires |segments| > 0
  {
    var n := |segments| - 1;
    var p := PathTo(segments, n);
    if p in t && segments[n].name in t[p].scalars then Some(t[p].scalars[segments[n].name]) else None
  }

  function ClearTree(t: Tree, segments: seq<FieldDescriptor>): Tree
    requires WellFormed(t) && |segments| > 0
  {
    var n := |segments| - 1;
    var p := PathTo(segments, n);
    NotBelow(p, p, {segments[n].name});
    ClearWellFormed(t, p, {segments[n].name});
    if p in t then Prune(ClearFields(t, p, {segments[n].name}), p) else t
  }

  function ApplyDefaultTree(t: Tree, segments: seq<FieldDescriptor>, default: Value): Tree
    requires WellFormed(t) && |segments| > 0
  {
    if LookupTree(t, segments).Some? then t else SetTree(t, segments, default)
  }

  lemma {:induction false} ClearWellFormed(t: Tree, p: Path, names: set<string>)
    requires WellFormed(t)
    ensures WellFormed(ClearFields(t, p, names))
  {
    NotBelow(Root, p, names);
  }

  /** Every message on the way to a present message is present. */
  lemma {:induction false} PrefixPresent(t: Tree, segments: seq<FieldDescriptor>, j: nat, k: nat)
    requires WellFormed(t) && j <= k <= |segments| && PathTo(segments, k) in t
    ensures PathTo(segments, j) in t
  {
    if j < k {
      assert PathTo(segments, k).parent == PathTo(segments, k - 1);
      PrefixPresent(t, segments, j, k - 1);
    }
  }

  lemma {:induction false} AbsentParent(t: Tree, segments: seq<FieldDescriptor>, j: nat)
    requires WellFormed(t) && j < |segments| && PathTo(segments, j) !in t
    ensures LookupTree(t, segments).None? && PathTo(segments, |segments| - 1) !in t
  {
    if PathTo(segments, |segments| - 1) in t {
      PrefixPresent(t, segments, j, |segments| - 1);
    }
  }

  /** The present prefix of a path is where materializing it starts to create messages. */
  lemma {:induction false} PresentPrefix(t: Tree, segments: seq<FieldDescriptor>, k: nat)
    requires WellFormed(t) && k <= |segments|
    ensures var d := PresentDepth(t, segments, k);
      && PathTo(segments, d) in t
      && (forall j | d < j <= k :: PathTo(segments, j) !in t)
      && (forall j | d <= j <= k :: PresentDepth(t, segments, j) == d)
      && (forall j | 0 <= j <= d :: PresentDepth(t, segments, j) == j)
  {
    if k > 0 {
      PresentPrefix(t, segments, k - 1);
      if PathTo(segments, k) in t {
        PrefixPresent(t, segments, k - 1, k);
      }
    }
  }

  /** Materializing a path changes nothing while it is present, and then hangs one empty message under another. */
  lemma {:induction false} MaterializeShape(t: Tree, segments: seq<FieldDescriptor>, k: nat)
    requires WellFormed(t) && k <= |segments|
    ensures var m := MaterializePath(t, segments, k);
      && WellFormed(m) && PathTo(segments, k) in m
      && (PresentDepth(t, segments, k) == k ==> m == t)
      && (PresentDepth(t, segments, k) < k ==> EmptyAt(m, PathTo(segments, k)))
  {
    if k > 0 {
      MaterializeShape(t, segments, k - 1);
      var m := MaterializePath(t, segments, k - 1);
      var p := PathTo(segments, k - 1);
      ClearWellFormed(m, p, segments[k - 1].siblings);
      NotBelow(p, p, segments[k - 1].siblings);
      if PresentDepth(t, segments, k) < k && PresentDepth(t, segments, k - 1) < k - 1 {
        assert PathTo(segments, k) !in m;
      }
      assert Under(p, segments[k - 1].name).parent == p;
    }
  }

  lemma {:induction false} PathDepth(segments: seq<FieldDescriptor>, k: nat)
    requires k <= |segments|
    ensures Depth(PathTo(segments, k)) == k
  {
    if k > 0 {
      PathDepth(segments, k - 1);
    }
  }

  lemma {:induction false} CreatedHere(t: Tree, segments: seq<FieldDescriptor>, k: nat)
    requires WellFormed(t) && k < |segments|
    ensures PathTo(segments, k + 1) in MaterializePath(t, segments, k) <==> PathTo(segments, k + 1) in t
  {
    MaterializeShape(t, segments, k);
    if PresentDepth(t, segments, k) < k {
      PresentPrefix(t, segments, k);
      assert PathTo(segments, k + 1).parent == PathTo(segments, k);
    }
  }

  /** No present message holds a scalar under the name of the path's next sub-message. */
  predicate Apart(t: Tree, segments: seq<FieldDescriptor>, k: nat)
    requires k <= |segments|
  {
    forall j {:trigger segments[j]} | 0 <= j < k && PathTo(segments, j) in t ::
      segments[j].name !in t[PathTo(segments, j)].scalars
  }

  /** Undoing the last step of a materialization that created something. */
  lemma {:induction false} UndoStep(t: Tree, segments: seq<FieldDescriptor>, k: nat)
    requires WellFormed(t) && 0 < k <= |segments| && PresentDepth(t, segments, k) < k
    requires Apart(t, segments, k)
    ensures
      ClearFields(MaterializePath(t, segments, k), PathTo(segments, k - 1), {segments[k - 1].name}) ==
      if PresentDepth(t, segments, k) == k - 1 then Displaced(t, segments, k) else MaterializePath(t, segments, k - 1)
  {
    hide ClearFields, PutScalar, Below;
    var p, name := PathTo(segments, k - 1), segments[k - 1].name;
    MaterializeShape(t, segments, k - 1);
    var m := MaterializePath(t, segments, k - 1);
    assert Under(p, name) !in m by {
      assert Under(p, name).parent == p;
    }
    if PresentDepth(t, segments, k) < k - 1 {
      ClearChildless(m, p, segments[k - 1].siblings);
    }
    UndoCreate(m, p, segments[k - 1]);
  }

  lemma {:induction false} UndoCreate(m: Tree, p: Path, field: FieldDescriptor)
    requires WellFormed(m) && p in m && Under(p, field.name) !in m && field.name !in m[p].scalars
    ensures ClearFields(Materialize(m, p, field), p, {field.name}) == ClearFields(m, p, field.siblings)
  {
    ClearWellFormed(m, p, field.siblings);
    NotBelow(p, p, field.siblings);
    ClearFresh(ClearFields(m, p, field.siblings), p, field.name);
  }

  lemma {:induction false} NothingBelow(t: Tree, r: Path, p: Path, names: set<string>)
    requires WellFormed(t) && r in t
    requires forall f | f in names :: Under(p, f) !in t
    ensures !Below(r, p, names)
  {
    if r.Under? && !(r.parent == p && r.name in names) {
      NothingBelow(t, r.parent, p, names);
    }
  }

  lemma {:induction false} ClearChildless(t: Tree, p: Path, names: set<string>)
    requires WellFormed(t) && p in t && EmptyAt(t, p)
    ensures ClearFields(t, p, names) == t
  {
    forall r | r in t
      ensures !Below(r, p, names)
    {
      assert forall f :: Under(p, f).parent == p;
      NothingBelow(t, r, p, names);
    }
  }

  lemma {:induction false} ClearFresh(t: Tree, p: Path, name: string)
    requires WellFormed(t) && p in t && Under(p, name) !in t && name !in t[p].scalars
    ensures ClearFields(t[Under(p, name) := EMPTY_NODE], p, {name}) == t
  {
    forall r | r in t
      ensures !Below(r, p, {name})
    {
      NothingBelow(t, r, p, {name});
    }
    assert t[p].scalars - {name} == t[p].scalars;
  }

  /** What a rejected assignment has restored once only the first k messages of the path may still be undone. */
  function Undone(t: Tree, segments: seq<FieldDescriptor>, n: nat, k: nat): Tree
    requires k <= n <= |segments|
  {
    if PresentDepth(t, segments, n) < k then MaterializePath(t, segments, k) else Displaced(t, segments, n)
  }

  lemma {:induction false} UndoStart(t: Tree, segments: seq<FieldDescriptor>, n: nat)
    requires WellFormed(t) && n <= |segments|
    ensures Undone(t, segments, n, n) == MaterializePath(t, segments, n)
    ensures Undone(t, segments, n, 0) == Displaced(t, segments, n)
  {
    MaterializeShape(t, segments, n);
  }

  lemma {:induction false} UndoOne(t: Tree, segments: seq<FieldDescriptor>, n: nat, k: nat)
    requires WellFormed(t) && 0 < k <= n <= |segments| && Apart(t, segments, n)
    ensures PathTo(segments, k) in t ==> Undone(t, segments, n, k) == Displaced(t, segments, n)
    ensures PathTo(segments, k) !in t ==>
      var u := Undone(t, segments, n, k);
      && PathTo(segments, k - 1) in u
      && PathTo(segments, k) in u && EmptyAt(u, PathTo(segments, k))
      && ClearFields(u, PathTo(segments, k - 1), {segments[k - 1].name}) == Undone(t, segments, n, k - 1)
  {
    PresentPrefix(t, segments, n);
    hide ClearFields, Materialize, Below, PutScalar;
    var d := PresentDepth(t, segments, n);
    if PathTo(segments, k) !in t {
      if k <= d {
        PrefixPresent(t, segments, k, d);
      }
      assert PresentDepth(t, segments, k) == d;
      MaterializeShape(t, segments, k);
      PrefixPresent(MaterializePath(t, segments, k), segments, k - 1, k);
      UndoStep(t, segments, k);
    }
  }

  /** Removes the message at path and then its ancestors, as long as each is empty; never the root. */
  function Prune(t: Tree, path: Path): Tree
    requires path in t && WellFormed(t)
    decreases path
  {
    if path.Root? || !EmptyAt(t, path) then t
    else
      var u := ClearFields(t, path.parent, {path.name});
      NotBelow(path.parent, path.parent, {path.name});
      NotBelow(Root, path.parent, {path.name});
      Prune(u, path.parent)
  }

  lemma {:induction false} PruneWellFormed(t: Tree, path: Path)
    requires WellFormed(t) && path in t
    ensures WellFormed(Prune(t, path))
    decreases path
  {
    if !path.Root? && EmptyAt(t, path) {
      ClearWellFormed(t, path.parent, {path.name});
      NotBelow(path.parent, path.parent, {path.name});
      PruneWellFormed(ClearFields(t, path.parent, {path.name}), path.parent);
    }
  }

  /** One turn of pruning along a path. */
  lemma {:induction false} PruneStep(t: Tree, segments: seq<FieldDescriptor>, k: nat)
    requires WellFormed(t) && k <= |segments| && PathTo(segments, k) in t
    ensures k == 0 || !EmptyAt(t, PathTo(segments, k)) ==> Prune(t, PathTo(segments, k)) == t
    ensures k > 0 && EmptyAt(t, PathTo(segments, k)) ==>
      var u := ClearFields(t, PathTo(segments, k - 1), {segments[k - 1].name});
      && WellFormed(u) && PathTo(segments, k - 1) in u
      && Prune(t, PathTo(segments, k)) == Prune(u, PathTo(segments, k - 1))
  {
    if k > 0 {
      assert PathTo(segments, k).parent == PathTo(segments, k - 1);
      ClearWellFormed(t, PathTo(segments, k - 1), {segments[k - 1].name});
      NotBelow(PathTo(segments, k - 1), PathTo(segments, k - 1), {segments[k - 1].name});
    }
  }
}
