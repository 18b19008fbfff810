/**
 Setting through members of a real oneof (settings/field.go:331-341): what an accepted assignment displaces,
 what clearing after it leaves, and what a rejected one loses.
 */
module SettingsOneofs {
  import opened Prelude
  import opened SettingsTree
  import opened SettingsMessage
  import opened SettingsField
  import opened SettingsLaws

  /** Where an assignment first stores something: the deepest message of its path that is present. */
  function Base(t: Tree, segments: seq<FieldDescriptor>): (d: nat)
    requires |segments| > 0
    ensures d < |segments|
  {
    PresentDepth(t, segments, |segments| - 1)
  }

  /** The tree without the oneof siblings of what an assignment first stores. */
  function Freed(t: Tree, segments: seq<FieldDescriptor>): Tree
    requires |segments| > 0
  {
    ClearFields(t, PathTo(segments, Base(t, segments)), segments[Base(t, segments)].siblings)
  }

  predicate Present(t: Tree, p: Path, f: string) {
    Under(p, f) in t || (p in t && f in t[p].scalars)
  }

  /** Some oneof sibling of what the assignment first stores is present. */
  predicate Crowded(t: Tree, segments: seq<FieldDescriptor>)
    requires |segments| > 0
  {
    var d := Base(t, segments);
    exists f :: f in segments[d].siblings && Present(t, PathTo(segments, d), f)
  }

  lemma {:induction false} FreedIff(t: Tree, segments: seq<FieldDescriptor>)
    requires WellFormed(t) && |segments| > 0
    ensures Freed(t, segments) == t <==> !Crowded(t, segments)
  {
    PresentPrefix(t, segments, |segments| - 1);
    var d := Base(t, segments);
    ClearChangesNothing(t, PathTo(segments, d), segments[d].siblings);
  }

  // ---- Reduction to paths without oneofs ----

  function Plain(segments: seq<FieldDescriptor>): (plain: seq<FieldDescriptor>)
    ensures |plain| == |segments| && NoOneof(plain)
  {
    seq(|segments|, i requires 0 <= i < |segments| => segments[i].(siblings := {}))
  }

  lemma {:induction false} PlainPath(segments: seq<FieldDescriptor>, k: nat)
    requires k <= |segments|
    ensures PathTo(Plain(segments), k) == PathTo(segments, k) && OnPath(Plain(segments), k) == OnPath(segments, k)
  {
    if k > 0 {
      PlainPath(segments, k - 1);
    }
  }

  lemma {:induction false} PlainTail(segments: seq<FieldDescriptor>, d: nat, k: nat)
    requires d <= k <= |segments|
    ensures Tail(Plain(segments), d, k) == Tail(segments, d, k)
  {
    if d < k {
      PlainTail(segments, d, k - 1);
      PlainPath(segments, k);
    }
  }

  lemma {:induction false} PlainDepth(t: Tree, segments: seq<FieldDescriptor>, k: nat)
    requires k <= |segments|
    ensures PresentDepth(t, Plain(segments), k) == PresentDepth(t, segments, k)
  {
    if k > 0 {
      PlainDepth(t, segments, k - 1);
      PlainPath(segments, k);
    }
  }

  lemma {:induction false} PlainApart(t: Tree, segments: seq<FieldDescriptor>, k: nat)
    requires k <= |segments| && Apart(t, segments, k)
    ensures Apart(t, Plain(segments), k)
  {
    forall j | 0 <= j < k && PathTo(Plain(segments), j) in t
      ensures Plain(segments)[j].name !in t[PathTo(Plain(segments), j)].scalars
    {
      PlainPath(segments, j);
      assert segments[j].name !in t[PathTo(segments, j)].scalars;
    }
  }

  lemma {:induction false} PlainClear(t: Tree, segments: seq<FieldDescriptor>)
    requires WellFormed(t) && |segments| > 0
    ensures ClearTree(t, Plain(segments)) == ClearTree(t, segments)
    ensures LookupTree(t, Plain(segments)) == LookupTree(t, segments)
  {
    PlainPath(segments, |segments| - 1);
  }

  lemma {:induction false} PathToDeeper(segments: seq<FieldDescriptor>, j: nat, k: nat)
    requires j <= k <= |segments|
    ensures Depth(PathTo(segments, j)) <= Depth(PathTo(segments, k))
  {
    PathDepth(segments, j);
    PathDepth(segments, k);
  }

  /** Freeing keeps the path down to the base, and removes nothing but siblings and what they hold. */
  lemma {:induction false} FreedShape(t: Tree, segments: seq<FieldDescriptor>)
    requires WellFormed(t) && |segments| > 0
    ensures var u := Freed(t, segments); var n := |segments| - 1; var d := Base(t, segments);
      && WellFormed(u) && u.Keys <= t.Keys && (NoOverlap(t) ==> NoOverlap(u))
      && PathTo(segments, d) in u && PresentDepth(u, segments, n) == d
      && (PathTo(segments, n) in t <==> d == n) && (PathTo(segments, n) in u <==> d == n)
      && (forall q | q in u :: u[q].scalars.Keys <= t[q].scalars.Keys && u[q].unknown == t[q].unknown)
      && (forall q | q in u && q != PathTo(segments, d) :: u[q] == t[q])
  {
    var n, d := |segments| - 1, Base(t, segments);
    var p, names := PathTo(segments, d), segments[d].siblings;
    var u := Freed(t, segments);
    PresentPrefix(t, segments, n);
    ClearWellFormed(t, p, names);
    forall j | 0 <= j <= d
      ensures PathTo(segments, j) in u
    {
      PrefixPresent(t, segments, j, d);
      PathToDeeper(segments, j, d);
      BelowIsDeeper(PathTo(segments, j), p, names);
    }
    DepthFound(u, segments, d, n);
  }

  lemma {:induction false} DepthFound(u: Tree, segments: seq<FieldDescriptor>, d: nat, n: nat)
    requires WellFormed(u) && d <= n <= |segments| && PathTo(segments, d) in u
    requires forall j | d < j <= n :: PathTo(segments, j) !in u
    ensures PresentDepth(u, segments, n) == d
  {
    PresentPrefix(u, segments, n);
    var e := PresentDepth(u, segments, n);
    assert e <= d;
    assert !(e < d);
  }

  /** An assignment is one outside oneofs, made after freeing. */
  lemma {:induction false} SetAsPlain(t: Tree, segments: seq<FieldDescriptor>, value: Value)
    requires WellFormed(t) && |segments| > 0
    ensures WellFormed(Freed(t, segments))
    ensures SetTree(t, segments, value) == SetTree(Freed(t, segments), Plain(segments), value)
  {
    hide ClearFields, WellFormed, EmptyAt, PresentDepth, PathTo, MaterializePath, Tail;
    var n, d := |segments| - 1, Base(t, segments);
    var u, plain := Freed(t, segments), Plain(segments);
    FreedShape(t, segments);
    PlainDepth(u, segments, n);
    PlainPath(segments, n);
    SetAsPut(u, plain, value);
    MaterializeShape(t, segments, n);
    MaterializeShape(u, plain, n);
    if d < n {
      MaterializeExactly(t, segments, n);
      MaterializeExactly(u, plain, n);
      RejectedSetOutsideOneof(u, plain, n);
      PlainTail(segments, d, n);
      assert MaterializePath(t, segments, n) == MaterializePath(u, plain, n);
      ClearChildless(MaterializePath(t, segments, n), PathTo(segments, n), segments[n].siblings);
    }
  }

  // ---- The laws, oneofs or not ----

  /** The leaves but those below the named fields of the message at p. */
  function Without(m: map<Path, Value>, p: Path, names: set<string>): map<Path, Value> {
    map q | q in m && !Below(q, p, names) :: m[q]
  }

  lemma {:induction false} ClearDropsLeaves(t: Tree, p: Path, names: set<string>)
    ensures LeafMap(ClearFields(t, p, names)) == Without(LeafMap(t), p, names)
  {
    var u := ClearFields(t, p, names);
    forall q: Path | q.Under?
      ensures q in Leaves(u) <==> q in Leaves(t) && !Below(q, p, names)
    {
      NotBelow(q.parent, p, names);
    }
    assert LeafMap(u).Keys == Without(LeafMap(t), p, names).Keys;
  }

  /** Set is a map update at the field's path, less the leaves of the oneof siblings it displaces. */
  lemma {:induction false} SetIsMapUpdate(t: Tree, segments: seq<FieldDescriptor>, value: Value)
    requires WellFormed(t) && |segments| > 0
    ensures var d := Base(t, segments);
      LeafMap(SetTree(t, segments, value))
      == Without(LeafMap(t), PathTo(segments, d), segments[d].siblings)[LeafPath(segments) := value]
  {
    hide SetTree, LeafMap, ClearFields, Without;
    var d := Base(t, segments);
    SetAsPlain(t, segments, value);
    PlainSetIsMapUpdate(Freed(t, segments), Plain(segments), value);
    PlainPath(segments, |segments|);
    ClearDropsLeaves(t, PathTo(segments, d), segments[d].siblings);
  }

  /** With every parent present, clearing after setting is clearing alone once the leaf's oneof siblings are gone. */
  lemma {:induction false} ClearAfterSetIsClear(t: Tree, segments: seq<FieldDescriptor>, value: Value)
    requires WellFormed(t) && |segments| > 0 && PathTo(segments, |segments| - 1) in t
    ensures WellFormed(SetTree(t, segments, value)) && WellFormed(Freed(t, segments))
    ensures ClearTree(SetTree(t, segments, value), segments) == ClearTree(Freed(t, segments), segments)
  {
    hide SetTree, ClearTree, WellFormed, PresentDepth;
    var u, plain := Freed(t, segments), Plain(segments);
    FreedShape(t, segments);
    SetAsPlain(t, segments, value);
    PlainPath(segments, |segments| - 1);
    PlainClearAfterSetIsClear(u, plain, value);
    PlainClear(u, segments);
    PlainClear(SetTree(t, segments, value), segments);
  }

  /** With some parent absent, clearing after setting frees the tree and prunes it from the deepest parent present. */
  lemma {:induction false} ClearAfterSetPrunes(t: Tree, segments: seq<FieldDescriptor>, value: Value)
    requires WellFormed(t) && NoOverlap(t) && |segments| > 0
    requires Apart(t, segments, |segments| - 1) && PathTo(segments, |segments| - 1) !in t
    ensures WellFormed(SetTree(t, segments, value)) && WellFormed(Freed(t, segments))
    ensures var d := Base(t, segments);
      && PathTo(segments, d) in Freed(t, segments)
      && ClearTree(SetTree(t, segments, value), segments) == Prune(Freed(t, segments), PathTo(segments, d))
  {
    hide SetTree, ClearTree, WellFormed, PresentDepth, Prune, NoOverlap, Freed, Apart, PathTo, Plain, NoOneof;
    var n, u, plain := |segments| - 1, Freed(t, segments), Plain(segments);
    FreedShape(t, segments);
    SetAsPlain(t, segments, value);
    FreedApart(t, segments);
    PlainApart(u, segments, n);
    PlainPath(segments, n);
    PlainPath(segments, Base(t, segments));
    PlainDepth(u, segments, n);
    PlainClearAfterSetPrunes(u, plain, value);
    PlainClear(SetTree(t, segments, value), segments);
  }

  lemma {:induction false} FreedApart(t: Tree, segments: seq<FieldDescriptor>)
    requires WellFormed(t) && |segments| > 0 && Apart(t, segments, |segments| - 1)
    ensures Apart(Freed(t, segments), segments, |segments| - 1)
  {
    FreedShape(t, segments);
    var u := Freed(t, segments);
    forall j | 0 <= j < |segments| - 1 && PathTo(segments, j) in u
      ensures segments[j].name !in u[PathTo(segments, j)].scalars
    {
      assert segments[j].name !in t[PathTo(segments, j)].scalars;
    }
  }

  /**
   Clearing what was just set restores the document exactly when no oneof sibling was displaced, the field was
   absent, and the deepest message already on its path was the root or held something.
   */
  lemma {:induction false} ClearUndoesSet(t: Tree, segments: seq<FieldDescriptor>, value: Value)
    requires WellFormed(t) && NoOverlap(t) && |segments| > 0
    requires Apart(t, segments, |segments| - 1) && LeafPath(segments) !in t
    ensures WellFormed(SetTree(t, segments, value))
    ensures var d := Base(t, segments);
      ClearTree(SetTree(t, segments, value), segments) == t <==>
      && !Crowded(t, segments) && LookupTree(t, segments).None?
      && PathTo(segments, d) in t && (d == 0 || !EmptyAt(t, PathTo(segments, d)))
  {
    hide SetTree, ClearTree, Prune, ClearFields, Crowded, EmptyAt;
    FreedIff(t, segments);
    FreedShape(t, segments);
    SetAsPlain(t, segments, value);
    if Freed(t, segments) == t {
      UndoesUncrowded(t, segments, value);
    } else {
      ClearShrinks(t, segments, value);
      if ClearTree(SetTree(t, segments, value), segments) == t {
        NoWayBack(t, PathTo(segments, Base(t, segments)), segments[Base(t, segments)].siblings);
      }
    }
  }

  lemma {:induction false} UndoesUncrowded(t: Tree, segments: seq<FieldDescriptor>, value: Value)
    requires WellFormed(t) && NoOverlap(t) && |segments| > 0 && Freed(t, segments) == t
    requires Apart(t, segments, |segments| - 1) && LeafPath(segments) !in t
    ensures WellFormed(SetTree(t, segments, value))
    ensures var d := Base(t, segments);
      ClearTree(SetTree(t, segments, value), segments) == t <==>
      LookupTree(t, segments).None? && PathTo(segments, d) in t && (d == 0 || !EmptyAt(t, PathTo(segments, d)))
  {
    hide SetTree, ClearTree, ClearFields, EmptyAt, LookupTree, PresentDepth, PathTo, WellFormed, Apart;
    var n, plain := |segments| - 1, Plain(segments);
    SetAsPlain(t, segments, value);
    PlainApart(t, segments, n);
    PlainPath(segments, |segments|);
    PlainPath(segments, Base(t, segments));
    PlainDepth(t, segments, n);
    PlainClearUndoesSet(t, plain, value);
    PlainClear(t, segments);
    PlainClear(SetTree(t, segments, value), segments);
  }

  /** Clearing after setting leaves no more than the freed tree. */
  lemma {:induction false} ClearShrinks(t: Tree, segments: seq<FieldDescriptor>, value: Value)
    requires WellFormed(t) && NoOverlap(t) && |segments| > 0
    requires Apart(t, segments, |segments| - 1) && LeafPath(segments) !in t
    ensures WellFormed(SetTree(t, segments, value))
    ensures var c := ClearTree(SetTree(t, segments, value), segments); var u := Freed(t, segments);
      c.Keys <= u.Keys && forall q | q in c :: c[q].scalars.Keys <= u[q].scalars.Keys
  {
    hide SetTree, ClearTree, Prune, ClearFields, PresentDepth, Freed, Apart, NoOverlap, WellFormed, PathTo;
    var n, u := |segments| - 1, Freed(t, segments);
    FreedShape(t, segments);
    if PathTo(segments, n) in t {
      ClearAfterSetIsClear(t, segments, value);
      ClearLocal(u, segments);
    } else {
      ClearAfterSetPrunes(t, segments, value);
      PruneLocal(u, segments, Base(t, segments));
    }
  }

  /** A tree that has everything it had is one from which nothing was cleared. */
  lemma {:induction false} NoWayBack(t: Tree, p: Path, names: set<string>)
    requires var u := ClearFields(t, p, names);
      t.Keys <= u.Keys && forall q | q in t :: t[q].scalars.Keys <= u[q].scalars.Keys
    ensures ClearFields(t, p, names) == t
  {
    if p in t {
      assert t[p].scalars - names == t[p].scalars;
    }
  }

  // ---- Rejection ----

  /** The members of a oneof name each other. */
  predicate OneofsAgree(schema: Schema) {
    forall key, f | key in schema && f in schema[key].siblings ::
      && FieldKey(key.message, f) in schema
      && schema[FieldKey(key.message, f)].siblings == schema[key].siblings - {f} + {key.field}
  }

  /**
   With a oneof the law fails: in a message with the oneof members a and b, of which b is present, rejecting an
   undefined enum number below a drops b.
   */
  lemma {:induction false} RejectedSetLosesOneofSibling() returns (schema: Schema, field: Field, value: Value, t: Tree)
    ensures WellFormedSchema(schema) && OneofsAgree(schema) && field.Legal(schema) && TypedTree(schema, field.root, t)
    ensures SameKind(value, field.default) && !Assignable(field.Leaf(), value)
    ensures Displaced(t, field.segments, field.Parents()) != t
  {
    var a := FieldDescriptor("M", "a", MessageKind, Singular, true, Some("N"), {}, {"b"});
    var b := FieldDescriptor("M", "b", MessageKind, Singular, true, Some("N"), {}, {"a"});
    var x := FieldDescriptor("N", "x", EnumKind, Singular, true, None, {0}, {});
    schema := map[FieldKey("M", "a") := a, FieldKey("M", "b") := b, FieldKey("N", "x") := x];
    field, value := Field("M", "a.x", [a, x], EnumValue(0)), EnumValue(7);
    t := map[Root := EMPTY_NODE, Under(Root, "b") := EMPTY_NODE];
    assert TypeOf(schema, "M", Root) == Some("M");
    assert TypeOf(schema, "M", Under(Root, "b")) == Some("N");
    assert PathTo(field.segments, 0) == Root;
    assert PathTo(field.segments, 1) == Under(Root, "a");
    assert PresentDepth(t, field.segments, 0) == 0;
    assert PresentDepth(t, field.segments, 1) == 0;
    assert Below(Under(Root, "b"), Root, {"b"});
    assert Under(Root, "b") !in Displaced(t, field.segments, 1);
  }

}
