/**
 What typed settings fields promise together: a document is a partial map from leaf paths to values,
 a rejected assignment leaves no trace, and clearing undoes setting.
 */
module SettingsLaws {
  import opened Prelude
  import opened SettingsTree
  import opened SettingsMessage
  import opened SettingsField

  /** None of the path's fields belongs to a real oneof. */
  predicate NoOneof(segments: seq<FieldDescriptor>) {
    forall i | 0 <= i < |segments| :: segments[i].siblings == {}
  }

  function LeafPath(segments: seq<FieldDescriptor>): Path {
    PathTo(segments, |segments|)
  }

  // ---- A rejected assignment ----

  /** Some present field of the message where creation starts shares a oneof with the first absent parent. */
  predicate Displaces(t: Tree, segments: seq<FieldDescriptor>, n: nat)
    requires n <= |segments|
  {
    var d := PresentDepth(t, segments, n);
    && d < n
    && exists f :: f in segments[d].siblings
         && (Under(PathTo(segments, d), f) in t
             || (PathTo(segments, d) in t && f in t[PathTo(segments, d)].scalars))
  }

  /** A rejected assignment restores the tree exactly when creating its first parent displaces no oneof sibling. */
  lemma {:induction false} RejectedSetRestores(t: Tree, segments: seq<FieldDescriptor>, n: nat)
    requires WellFormed(t) && n <= |segments|
    ensures Displaced(t, segments, n) == t <==> !Displaces(t, segments, n)
  {
    PresentPrefix(t, segments, n);
    var d := PresentDepth(t, segments, n);
    if d < n {
      ClearChangesNothing(t, PathTo(segments, d), segments[d].siblings);
    }
  }

  lemma {:induction false} ClearChangesNothing(t: Tree, p: Path, names: set<string>)
    requires WellFormed(t) && p in t
    ensures ClearFields(t, p, names) == t <==> forall f | f in names :: f !in t[p].scalars && Under(p, f) !in t
  {
    if forall f | f in names :: f !in t[p].scalars && Under(p, f) !in t {
      forall r | r in t
        ensures !Below(r, p, names)
      {
        NothingBelow(t, r, p, names);
      }
      assert t[p].scalars - names == t[p].scalars;
    } else {
      var f :| f in names && (f in t[p].scalars || Under(p, f) in t);
      NotBelow(p, p, names);
      if Under(p, f) in t {
        assert Below(Under(p, f), p, names);
      } else {
        assert f !in ClearFields(t, p, names)[p].scalars;
      }
    }
  }

  lemma {:induction false} RejectedSetOutsideOneof(t: Tree, segments: seq<FieldDescriptor>, n: nat)
    requires WellFormed(t) && n <= |segments| && NoOneof(segments)
    ensures Displaced(t, segments, n) == t
  {
    RejectedSetRestores(t, segments, n);
  }

  // ---- Setting and clearing as updates of a partial map ----

  /** The messages on the first k steps of a path. */
  function OnPath(segments: seq<FieldDescriptor>, k: nat): set<Path>
    requires k <= |segments|
  {
    if k == 0 then {Root} else OnPath(segments, k - 1) + {PathTo(segments, k)}
  }

  /** The messages on the path below the first d of them. */
  function Tail(segments: seq<FieldDescriptor>, d: nat, k: nat): set<Path>
    requires d <= k <= |segments|
  {
    if d == k then {} else Tail(segments, d, k - 1) + {PathTo(segments, k)}
  }

  /**
   Materializing clears the oneof siblings of the first absent message on the path, adds that message and
   all after it, empty, and changes nothing else.
   */
  lemma {:induction false} MaterializeExactly(t: Tree, segments: seq<FieldDescriptor>, k: nat)
    requires WellFormed(t) && k <= |segments|
    ensures var m := MaterializePath(t, segments, k); var kept := Displaced(t, segments, k);
      && m.Keys == kept.Keys + Tail(segments, PresentDepth(t, segments, k), k)
      && Tail(segments, PresentDepth(t, segments, k), k) !! t.Keys
      && (forall r | r in m :: m[r] == if r in kept then kept[r] else EMPTY_NODE)
  {
    hide ClearFields, EmptyAt;
    if k == 0 || PresentDepth(t, segments, k) == k {
      MaterializeShape(t, segments, k);
    } else {
      var m, p := MaterializePath(t, segments, k - 1), PathTo(segments, k - 1);
      MaterializeExactly(t, segments, k - 1);
      MaterializeShape(t, segments, k - 1);
      DisplacedKeeps(t, segments, k);
      assert PathTo(segments, k).parent == p;
      if PresentDepth(t, segments, k - 1) < k - 1 {
        MaterializeUnderEmpty(m, p, segments[k - 1]);
      }
    }
  }

  lemma {:induction false} DisplacedKeeps(t: Tree, segments: seq<FieldDescriptor>, k: nat)
    requires k <= |segments|
    ensures Displaced(t, segments, k).Keys <= t.Keys
  {
  }

  lemma {:induction false} MaterializeUnderEmpty(m: Tree, p: Path, field: FieldDescriptor)
    requires WellFormed(m) && p in m && EmptyAt(m, p)
    ensures Under(p, field.name) !in m && Materialize(m, p, field) == m[Under(p, field.name) := EMPTY_NODE]
  {
    assert forall f :: Under(p, f).parent == p;
    ClearChangesNothing(m, p, field.siblings);
  }

  /** Without oneofs, materializing adds the messages on the path and changes nothing else. */
  lemma {:induction false} MaterializeAdds(t: Tree, segments: seq<FieldDescriptor>, k: nat)
    requires WellFormed(t) && k <= |segments| && NoOneof(segments)
    ensures var m := MaterializePath(t, segments, k);
      && m.Keys == t.Keys + OnPath(segments, k)
      && (forall r | r in m :: m[r] == if r in t then t[r] else EMPTY_NODE)
  {
    hide ClearFields, EmptyAt, MaterializePath, Displaced;
    MaterializeExactly(t, segments, k);
    RejectedSetOutsideOneof(t, segments, k);
    PresentPrefix(t, segments, k);
    TailCompletes(t, segments, PresentDepth(t, segments, k), k);
  }

  lemma {:induction false} TailCompletes(t: Tree, segments: seq<FieldDescriptor>, d: nat, k: nat)
    requires WellFormed(t) && d <= k <= |segments| && PathTo(segments, d) in t
    ensures t.Keys + Tail(segments, d, k) == t.Keys + OnPath(segments, k)
  {
    if d < k {
      TailCompletes(t, segments, d, k - 1);
    } else if k > 0 {
      assert PathTo(segments, k).parent == PathTo(segments, k - 1);
      TailCompletes(t, segments, k - 1, k - 1);
    }
  }

  /** Every stored scalar, by the path of its field. */
  ghost function LeafMap(t: Tree): map<Path, Value> {
    map q | q in Leaves(t) :: t[q.parent].scalars[q.name]
  }

  ghost function Leaves(t: Tree): (leaves: set<Path>)
    ensures forall q :: q in leaves <==> q.Under? && q.parent in t && q.name in t[q.parent].scalars
  {
    set p, f | p in t && f in t[p].scalars :: Under(p, f)
  }

  lemma {:induction false} LookupIsMapLookup(t: Tree, segments: seq<FieldDescriptor>)
    requires |segments| > 0
    ensures LookupTree(t, segments) ==
      if LeafPath(segments) in LeafMap(t) then Some(LeafMap(t)[LeafPath(segments)]) else None
  {
  }

  /** A message never holds a scalar and a sub-message under one name. */
  predicate NoOverlap(t: Tree) {
    forall p {:trigger p.parent} | p in t && p.Under? && p.parent in t :: p.name !in t[p.parent].scalars
  }

  lemma {:induction false} PutIsMapUpdate(t: Tree, p: Path, name: string, value: Value)
    requires p in t
    ensures LeafMap(PutScalar(t, p, name, value)) == LeafMap(t)[Under(p, name) := value]
  {
  }

  lemma {:induction false} SetAsPut(t: Tree, segments: seq<FieldDescriptor>, value: Value)
    requires WellFormed(t) && |segments| > 0 && NoOneof(segments)
    ensures var n := |segments| - 1; var m := MaterializePath(t, segments, n);
      && WellFormed(m) && PathTo(segments, n) in m
      && SetTree(t, segments, value) == PutScalar(m, PathTo(segments, n), segments[n].name, value)
  {
    var n := |segments| - 1;
    MaterializeShape(t, segments, n);
    ClearChangesNothing(MaterializePath(t, segments, n), PathTo(segments, n), {});
  }

  lemma {:induction false} EmptyMessagesHoldNoLeaves(t: Tree, m: Tree)
    requires t.Keys <= m.Keys && forall r | r in m :: m[r] == if r in t then t[r] else EMPTY_NODE
    ensures LeafMap(m) == LeafMap(t)
  {
    assert Leaves(m) == Leaves(t);
  }

  /** Without oneofs, set is a map update at the field's path. */
  lemma {:induction false} PlainSetIsMapUpdate(t: Tree, segments: seq<FieldDescriptor>, value: Value)
    requires WellFormed(t) && |segments| > 0 && NoOneof(segments)
    ensures LeafMap(SetTree(t, segments, value)) == LeafMap(t)[LeafPath(segments) := value]
  {
    hide SetTree, PutScalar, LeafMap, MaterializePath;
    var n := |segments| - 1;
    MaterializeAdds(t, segments, n);
    SetAsPut(t, segments, value);
    var m := MaterializePath(t, segments, n);
    PutIsMapUpdate(m, PathTo(segments, n), segments[n].name, value);
    EmptyMessagesHoldNoLeaves(t, m);
  }

  lemma {:induction false} OnlyItself(t: Tree, r: Path, path: Path)
    requires WellFormed(t) && r in t && path.Under? && !HasChild(t, path)
    ensures Below(r, path.parent, {path.name}) ==> r == path
  {
    if r.Under? && Below(r.parent, path.parent, {path.name}) {
      OnlyItself(t, r.parent, path);
    }
  }

  /** Clearing an empty sub-message removes just that message. */
  lemma {:induction false} RemoveEmpty(t: Tree, path: Path)
    requires WellFormed(t) && NoOverlap(t) && path in t && path.Under? && !HasChild(t, path)
    ensures var u := ClearFields(t, path.parent, {path.name});
      WellFormed(u) && NoOverlap(u) && path.parent in u && u == t - {path}
  {
    ClearWellFormed(t, path.parent, {path.name});
    forall r | r in t
      ensures Below(r, path.parent, {path.name}) ==> r == path
    {
      OnlyItself(t, r, path);
    }
    assert t[path.parent].scalars - {path.name} == t[path.parent].scalars;
  }

  lemma {:induction false} PruneKeepsLeaves(t: Tree, path: Path)
    requires WellFormed(t) && NoOverlap(t) && path in t
    ensures LeafMap(Prune(t, path)) == LeafMap(t) && NoOverlap(Prune(t, path))
    decreases path
  {
    if path.Under? && EmptyAt(t, path) {
      RemoveEmpty(t, path);
      PruneKeepsLeaves(t - {path}, path.parent);
      assert LeafMap(t - {path}) == LeafMap(t);
    }
  }

  /** Clear is a map removal at the field's path. */
  lemma {:induction false} ClearIsMapRemoval(t: Tree, segments: seq<FieldDescriptor>)
    requires WellFormed(t) && NoOverlap(t) && |segments| > 0 && LeafPath(segments) !in t
    ensures LeafMap(ClearTree(t, segments)) == LeafMap(t) - {LeafPath(segments)}
  {
    var n := |segments| - 1;
    var p, leaf := PathTo(segments, n), segments[n].name;
    if p in t {
      ClearLeaf(t, p, leaf);
      DropIsMapRemoval(t, p, leaf);
      PruneKeepsLeaves(ClearFields(t, p, {leaf}), p);
    }
  }

  lemma {:induction false} ClearLeaf(t: Tree, p: Path, leaf: string)
    requires WellFormed(t) && NoOverlap(t) && p in t && Under(p, leaf) !in t
    ensures var u := ClearFields(t, p, {leaf});
      && WellFormed(u) && NoOverlap(u) && u.Keys == t.Keys
      && u == t[p := Node(t[p].scalars - {leaf}, t[p].unknown)]
  {
    ClearWellFormed(t, p, {leaf});
    forall r | r in t
      ensures !Below(r, p, {leaf})
    {
      NothingBelow(t, r, p, {leaf});
    }
  }

  lemma {:induction false} DropIsMapRemoval(t: Tree, p: Path, leaf: string)
    requires p in t
    ensures LeafMap(t[p := Node(t[p].scalars - {leaf}, t[p].unknown)]) == LeafMap(t) - {Under(p, leaf)}
  {
  }

  /** Pruning removes only messages on the path, never the root and never one holding unknown bytes. */
  lemma {:induction false} PruneLocal(t: Tree, segments: seq<FieldDescriptor>, k: nat)
    requires WellFormed(t) && NoOverlap(t) && k <= |segments| && PathTo(segments, k) in t
    ensures var u := Prune(t, PathTo(segments, k));
      && u.Keys <= t.Keys
      && (forall q | q in u :: u[q] == t[q])
      && (forall q | q in t && q !in u :: q in OnPath(segments, k) && q != Root && t[q].unknown == [])
  {
    PruneStep(t, segments, k);
    if k > 0 && EmptyAt(t, PathTo(segments, k)) {
      RemoveEmpty(t, PathTo(segments, k));
      PruneLocal(t - {PathTo(segments, k)}, segments, k - 1);
    }
  }

  /** Clear changes one scalar and otherwise only removes empty messages on its own path. */
  lemma {:induction false} ClearLocal(t: Tree, segments: seq<FieldDescriptor>)
    requires WellFormed(t) && NoOverlap(t) && |segments| > 0 && LeafPath(segments) !in t
    ensures var n := |segments| - 1; var c := ClearTree(t, segments);
      && c.Keys <= t.Keys
      && (forall q | q in c ::
            c[q] == if q == PathTo(segments, n) then Node(t[q].scalars - {segments[n].name}, t[q].unknown) else t[q])
      && (forall q | q in t && q !in c :: q in OnPath(segments, n) && q != Root && t[q].unknown == [])
  {
    var n := |segments| - 1;
    var p, leaf := PathTo(segments, n), segments[n].name;
    if p in t {
      ClearLeaf(t, p, leaf);
      PruneLocal(ClearFields(t, p, {leaf}), segments, n);
    }
  }

  lemma {:induction false} SameDepth(t: Tree, segments: seq<FieldDescriptor>, n: nat, k: nat)
    requires WellFormed(t) && k <= n <= |segments| && PresentDepth(t, segments, n) <= k
    ensures PresentDepth(t, segments, k) == PresentDepth(t, segments, n)
    ensures PathTo(segments, PresentDepth(t, segments, n)) in t
  {
    PresentPrefix(t, segments, n);
  }

  /** Pruning a freshly materialized path takes it back to the part that was there before. */
  lemma {:induction false} PruneCreated(t: Tree, segments: seq<FieldDescriptor>, n: nat, k: nat)
    requires WellFormed(t) && n <= |segments| && NoOneof(segments) && Apart(t, segments, n)
    requires PresentDepth(t, segments, n) <= k <= n
    ensures WellFormed(MaterializePath(t, segments, k)) && PathTo(segments, k) in MaterializePath(t, segments, k)
    ensures PathTo(segments, PresentDepth(t, segments, n)) in t
    ensures Prune(MaterializePath(t, segments, k), PathTo(segments, k)) ==
      Prune(t, PathTo(segments, PresentDepth(t, segments, n)))
  {
    hide ClearFields, MaterializePath, EmptyAt, Prune, PresentDepth, Displaced, PathTo, WellFormed;
    SameDepth(t, segments, n, k);
    var d := PresentDepth(t, segments, n);
    MaterializeShape(t, segments, k);
    if d < k {
      SameDepth(t, segments, n, k - 1);
      UndoStep(t, segments, k);
      RejectedSetOutsideOneof(t, segments, k);
      MaterializeShape(t, segments, k - 1);
      PruneStep(MaterializePath(t, segments, k), segments, k);
      PruneCreated(t, segments, n, k - 1);
    }
  }

  predicate AtOrBelow(r: Path, q: Path) {
    r == q || (r.Under? && AtOrBelow(r.parent, q))
  }

  /** The sub-message at q holds nothing but the way down to p: messages without scalars and unknown bytes. */
  ghost predicate Bare(t: Tree, q: Path, p: Path) {
    && q.Under? && AtOrBelow(p, q)
    && forall r | r in t && AtOrBelow(r, q) :: AtOrBelow(p, r) && t[r] == EMPTY_NODE
  }

  lemma {:induction false} BelowMeansNotAbove(r: Path, q: Path)
    ensures AtOrBelow(r, q) ==> Depth(q) <= Depth(r) && (r == q || Depth(q) < Depth(r))
  {
    if r.Under? && r != q {
      BelowMeansNotAbove(r.parent, q);
    }
  }

  lemma {:induction false} NothingUnderChildless(t: Tree, r: Path, p: Path)
    requires WellFormed(t) && r in t && AtOrBelow(r, p) && !HasChild(t, p)
    ensures r == p
  {
    if r != p {
      NothingUnderChildless(t, r.parent, p);
    }
  }

  /** Pruning from p removes exactly the sub-messages that hold nothing but the way down to p. */
  lemma {:induction false} PruneRemovesIff(t: Tree, p: Path, q: Path)
    requires WellFormed(t) && NoOverlap(t) && p in t && q in t
    ensures q !in Prune(t, p) <==> Bare(t, q, p)
    ensures q in Prune(t, p) ==> Prune(t, p)[q] == t[q]
    decreases p
  {
    if p.Root? || !EmptyAt(t, p) {
      if Bare(t, q, p) {
        BareIsEmpty(t, q, p);
      }
    } else {
      RemoveEmpty(t, p);
      var u := t - {p};
      if q == p {
        PruneShrinks(u, p.parent);
        forall r | r in t && AtOrBelow(r, p)
          ensures r == p
        {
          NothingUnderChildless(t, r, p);
        }
      } else {
        PruneRemovesIff(u, p.parent, q);
        BareAbove(t, q, p);
      }
    }
  }

  lemma {:induction false} BareIsEmpty(t: Tree, q: Path, p: Path)
    requires WellFormed(t) && p in t && Bare(t, q, p)
    ensures p.Under? && EmptyAt(t, p)
  {
    forall r | r in t && r.Under? && r.parent == p
      ensures false
    {
      assert AtOrBelow(r, q);
      BelowMeansNotAbove(p, r);
    }
  }

  lemma {:induction false} BareAbove(t: Tree, q: Path, p: Path)
    requires p in t && p.Under? && t[p] == EMPTY_NODE && q != p
    ensures Bare(t, q, p) <==> Bare(t - {p}, q, p.parent)
  {
    var u := t - {p};
    assert forall r | r in u :: r in t && u[r] == t[r];
    if Bare(t, q, p) {
      forall r | r in u && AtOrBelow(r, q)
        ensures AtOrBelow(p.parent, r) && u[r] == EMPTY_NODE
      {
        assert AtOrBelow(p, r);
      }
    }
    if Bare(u, q, p.parent) {
      forall r | r in t && AtOrBelow(r, q)
        ensures AtOrBelow(p, r) && t[r] == EMPTY_NODE
      {
        if r != p {
          assert r in u;
        }
      }
    }
  }

  lemma {:induction false} PruneIsIdle(t: Tree, p: Path)
    requires WellFormed(t) && NoOverlap(t) && p in t
    ensures Prune(t, p) == t <==> p.Root? || !EmptyAt(t, p)
  {
    if p.Under? && EmptyAt(t, p) {
      RemoveEmpty(t, p);
      PruneShrinks(t - {p}, p.parent);
    }
  }

  lemma {:induction false} PruneShrinks(t: Tree, p: Path)
    requires WellFormed(t) && NoOverlap(t) && p in t
    ensures Prune(t, p).Keys <= t.Keys
    decreases p
  {
    if p.Under? && EmptyAt(t, p) {
      RemoveEmpty(t, p);
      PruneShrinks(t - {p}, p.parent);
    }
  }

  lemma {:induction false} ClearForgetsPut(t: Tree, p: Path, leaf: string, value: Value)
    requires p in t
    ensures ClearFields(PutScalar(t, p, leaf, value), p, {leaf}) == ClearFields(t, p, {leaf})
  {
    assert t[p].scalars[leaf := value] - {leaf} == t[p].scalars - {leaf};
  }

  /** Without oneofs and with every parent present, clearing after setting is clearing alone. */
  lemma {:induction false} PlainClearAfterSetIsClear(t: Tree, segments: seq<FieldDescriptor>, value: Value)
    requires WellFormed(t) && |segments| > 0 && NoOneof(segments) && PathTo(segments, |segments| - 1) in t
    ensures WellFormed(SetTree(t, segments, value))
    ensures ClearTree(SetTree(t, segments, value), segments) == ClearTree(t, segments)
  {
    var n := |segments| - 1;
    var p, leaf := PathTo(segments, n), segments[n].name;
    PresentPrefix(t, segments, n);
    PrefixAll(t, segments, n);
    SetAsPut(t, segments, value);
    MaterializeShape(t, segments, n);
    ClearForgetsPut(t, p, leaf, value);
  }

  lemma {:induction false} PrefixAll(t: Tree, segments: seq<FieldDescriptor>, k: nat)
    requires WellFormed(t) && k <= |segments| && PathTo(segments, k) in t
    ensures PresentDepth(t, segments, k) == k
  {
    PresentPrefix(t, segments, k);
  }

  /** Without oneofs and with some parent absent, clearing after setting prunes from the deepest one present. */
  lemma {:induction false} PlainClearAfterSetPrunes(t: Tree, segments: seq<FieldDescriptor>, value: Value)
    requires WellFormed(t) && NoOverlap(t) && |segments| > 0 && NoOneof(segments)
    requires Apart(t, segments, |segments| - 1) && PathTo(segments, |segments| - 1) !in t
    ensures WellFormed(SetTree(t, segments, value))
    ensures var d := PresentDepth(t, segments, |segments| - 1);
      && PathTo(segments, d) in t
      && ClearTree(SetTree(t, segments, value), segments) == Prune(t, PathTo(segments, d))
  {
    hide ClearFields, Materialize, Below, PutLeaf, Prune, SetTree;
    var n := |segments| - 1;
    var p, leaf := PathTo(segments, n), segments[n].name;
    PresentPrefix(t, segments, n);
    SetAsPut(t, segments, value);
    MaterializeShape(t, segments, n);
    PruneCreated(t, segments, n, n);
    var m := MaterializePath(t, segments, n);
    ClearChildless(m, p, {leaf});
    ClearForgetsPut(m, p, leaf, value);
  }

  lemma {:induction false} ClearIsIdle(t: Tree, segments: seq<FieldDescriptor>)
    requires WellFormed(t) && NoOverlap(t) && |segments| > 0 && LeafPath(segments) !in t
    requires PathTo(segments, |segments| - 1) in t
    ensures var p := PathTo(segments, |segments| - 1);
      ClearTree(t, segments) == t <==> LookupTree(t, segments).None? && (p.Root? || !EmptyAt(t, p))
  {
    var p, leaf := PathTo(segments, |segments| - 1), segments[|segments| - 1].name;
    ClearLeaf(t, p, leaf);
    if leaf in t[p].scalars {
      ClearLocal(t, segments);
      assert p !in ClearTree(t, segments) || leaf !in ClearTree(t, segments)[p].scalars;
    } else {
      assert t[p].scalars - {leaf} == t[p].scalars;
      assert ClearFields(t, p, {leaf}) == t;
      PruneIsIdle(t, p);
    }
  }

  /**
   Without oneofs, clearing what was just set restores the document exactly when the field was absent and the
   deepest message already on its path was the root or held something.
   */
  lemma {:induction false} PlainClearUndoesSet(t: Tree, segments: seq<FieldDescriptor>, value: Value)
    requires WellFormed(t) && NoOverlap(t) && |segments| > 0 && NoOneof(segments)
    requires Apart(t, segments, |segments| - 1) && LeafPath(segments) !in t
    ensures WellFormed(SetTree(t, segments, value))
    ensures var d := PresentDepth(t, segments, |segments| - 1);
      ClearTree(SetTree(t, segments, value), segments) == t <==>
      LookupTree(t, segments).None? && PathTo(segments, d) in t && (d == 0 || !EmptyAt(t, PathTo(segments, d)))
  {
    var n := |segments| - 1;
    var p, leaf := PathTo(segments, n), segments[n].name;
    var d := PresentDepth(t, segments, n);
    SameDepth(t, segments, n, n);
    if p in t {
      PlainClearAfterSetIsClear(t, segments, value);
      PrefixAll(t, segments, n);
      ClearIsIdle(t, segments);
    } else {
      PlainClearAfterSetPrunes(t, segments, value);
      PruneIsIdle(t, PathTo(segments, d));
    }
  }

  // ---- Documents as partial maps ----

  /** No message but the root is empty, and none holds unknown bytes: nothing is stored but leaves. */
  predicate Canonical(t: Tree) {
    && WellFormed(t)
    && forall p | p in t :: t[p].unknown == [] && (p.Root? || !EmptyAt(t, p))
  }

  ghost function Ancestors(q: Path): (ancestors: set<Path>)
    ensures Root in ancestors || q.Root?
  {
    if q.Root? then {} else {q.parent} + Ancestors(q.parent)
  }

  ghost function NamesUnder(m: map<Path, Value>, p: Path): set<string> {
    set q | q in m && q.Under? && q.parent == p :: q.name
  }

  /** The document that holds exactly the leaves of m. */
  ghost function FromMap(m: map<Path, Value>): Tree {
    map p | p in {Root} + (set q, a | q in m && a in Ancestors(q) :: a) ::
      Node(map f | f in NamesUnder(m, p) :: m[Under(p, f)], [])
  }

  /** Below every message of a canonical document there is a leaf. */
  lemma {:induction false} LeafBelow(t: Tree, p: Path, within: set<Path>) returns (q: Path)
    requires Canonical(t) && p in t && p.Under?
    requires within == set r | r in t && (r == p || p in Ancestors(r))
    ensures q in LeafMap(t) && p in Ancestors(q)
    decreases |within|
  {
    if t[p].scalars != map[] {
      var f :| f in t[p].scalars;
      q := Under(p, f);
    } else {
      var c :| c in t && c.Under? && c.parent == p;
      var smaller := set r | r in t && (r == c || c in Ancestors(r));
      forall r | r in smaller
        ensures r in within && r != p
      {
        AncestorsTransitive(r, c);
      }
      assert p in within;
      assert smaller <= within - {p};
      SubsetSize(smaller, within - {p});
      q := LeafBelow(t, c, smaller);
      AncestorsTransitive(q, c);
    }
  }

  lemma SubsetSize(a: set<Path>, b: set<Path>)
    requires a <= b
    ensures |a| <= |b|
  {
    if a != {} {
      var x :| x in a;
      SubsetSize(a - {x}, b - {x});
    }
  }

  lemma {:induction false} AncestorsTransitive(r: Path, c: Path)
    requires c.Under? && (r == c || c in Ancestors(r))
    ensures c.parent in Ancestors(r) && r != c.parent
  {
    ParentAlso(r, c);
    AncestorIsShallower(r, c.parent);
  }

  lemma {:induction false} ParentAlso(r: Path, c: Path)
    requires c.Under? && (r == c || c in Ancestors(r))
    ensures c.parent in Ancestors(r)
  {
    if r != c {
      ParentAlso(r.parent, c);
    }
  }

  lemma {:induction false} AncestorIsShallower(r: Path, a: Path)
    requires a in Ancestors(r)
    ensures Depth(a) < Depth(r)
  {
    if a != r.parent {
      AncestorIsShallower(r.parent, a);
    }
  }

  lemma {:induction false} AncestorsPresent(t: Tree, q: Path)
    requires WellFormed(t) && q.Under? && q.parent in t
    ensures Ancestors(q) <= t.Keys
  {
    if q.parent.Under? {
      AncestorsPresent(t, q.parent);
    }
  }

  lemma {:induction false} SameMessages(t: Tree)
    requires Canonical(t)
    ensures t.Keys == FromMap(LeafMap(t)).Keys
  {
    var m := LeafMap(t);
    forall p | p in t && p.Under?
      ensures p in FromMap(m)
    {
      var q := LeafBelow(t, p, set r | r in t && (r == p || p in Ancestors(r)));
    }
    forall q | q in m
      ensures Ancestors(q) <= t.Keys
    {
      AncestorsPresent(t, q);
    }
  }

  lemma {:induction false} SameNode(t: Tree, p: Path)
    requires Canonical(t) && p in t
    ensures NamesUnder(LeafMap(t), p) == t[p].scalars.Keys
    ensures Node(map f | f in NamesUnder(LeafMap(t), p) :: LeafMap(t)[Under(p, f)], []) == t[p]
  {
    var m := LeafMap(t);
    assert forall f | f in t[p].scalars :: Under(p, f) in m;
    assert NamesUnder(m, p) == t[p].scalars.Keys;
    assert (map f | f in NamesUnder(m, p) :: m[Under(p, f)]) == t[p].scalars;
  }

  /** A canonical document is determined by its leaves. */
  lemma {:induction false} CanonicalIsFromMap(t: Tree)
    requires Canonical(t)
    ensures t == FromMap(LeafMap(t))
  {
    hide Canonical, LeafMap, NamesUnder, Ancestors;
    SameMessages(t);
    forall p | p in t
      ensures t[p] == FromMap(LeafMap(t))[p]
    {
      SameNode(t, p);
    }
  }

  /** The message type found at a path below a message of type `root`. */
  function TypeOf(schema: Schema, root: string, p: Path): Option<string> {
    if p.Root? then Some(root)
    else match TypeOf(schema, root, p.parent)
      case None => None
      case Some(descriptor) =>
        var key := FieldKey(descriptor, p.name);
        if key in schema && SingularMessage(schema[key]) then schema[key].message else None
  }

  /** A document of the schema: sub-messages and scalars only where it declares them. */
  predicate TypedTree(schema: Schema, root: string, t: Tree) {
    && WellFormed(t)
    && (forall p | p in t :: TypeOf(schema, root, p).Some?)
    && (forall p, f | p in t && f in t[p].scalars ::
          && FieldKey(TypeOf(schema, root, p).value, f) in schema
          && !SingularMessage(schema[FieldKey(TypeOf(schema, root, p).value, f)]))
  }

  lemma {:induction false} TypedIsApart(schema: Schema, root: string, t: Tree)
    requires TypedTree(schema, root, t)
    ensures NoOverlap(t)
  {
  }

  lemma {:induction false} FieldType(schema: Schema, field: Field, j: nat)
    requires field.Legal(schema) && j <= field.Parents()
    ensures TypeOf(schema, field.root, PathTo(field.segments, j)) == Some(field.segments[j].containing)
  {
    if j > 0 {
      FieldType(schema, field, j - 1);
      assert InSchema(schema, field.segments[j - 1]);
    }
  }

  /** In a typed document a legal field's parents are messages and its leaf is not. */
  lemma {:induction false} FieldFits(schema: Schema, field: Field, t: Tree)
    requires field.Legal(schema) && TypedTree(schema, field.root, t) && WellFormedSchema(schema)
    ensures Apart(t, field.segments, field.Parents()) && LeafPath(field.segments) !in t
  {
    forall j | 0 <= j < field.Parents() && PathTo(field.segments, j) in t
      ensures field.segments[j].name !in t[PathTo(field.segments, j)].scalars
    {
      FieldType(schema, field, j);
      assert InSchema(schema, field.segments[j]) && SingularMessage(field.segments[j]);
    }
    FieldType(schema, field, field.Parents());
    assert InSchema(schema, field.Leaf());
  }

  lemma {:induction false} LeafDeclared(schema: Schema, field: Field)
    requires field.Legal(schema) && WellFormedSchema(schema)
    ensures var key := FieldKey(field.Leaf().containing, field.Leaf().name);
      key in schema && schema[key] == field.Leaf() && !SingularMessage(field.Leaf())
  {
    assert InSchema(schema, field.Leaf());
  }

  lemma {:induction false} OnPathAt(segments: seq<FieldDescriptor>, k: nat, p: Path) returns (j: nat)
    requires k <= |segments| && p in OnPath(segments, k)
    ensures j <= k && p == PathTo(segments, j)
  {
    if p == PathTo(segments, k) {
      j := k;
    } else {
      j := OnPathAt(segments, k - 1, p);
    }
  }

  lemma CanonicalIsWellFormed(t: Tree)
    requires Canonical(t)
    ensures WellFormed(t)
  {
  }

  lemma {:induction false} OnPathHasChild(segments: seq<FieldDescriptor>, n: nat)
    requires n <= |segments|
    ensures forall p | p in OnPath(segments, n) && p != PathTo(segments, n) ::
      exists c :: c in OnPath(segments, n) && c.Under? && c.parent == p
    ensures PathTo(segments, n) in OnPath(segments, n)
  {
    if n > 0 {
      OnPathHasChild(segments, n - 1);
      assert PathTo(segments, n).parent == PathTo(segments, n - 1);
    }
  }

  /** Every message but the root and possibly p is non-empty. */
  predicate CanonicalBut(t: Tree, p: Path) {
    && WellFormed(t)
    && forall q | q in t :: t[q].unknown == [] && (q.Root? || q == p || !EmptyAt(t, q))
  }

  lemma {:induction false} PruneMakesCanonical(t: Tree, p: Path)
    requires CanonicalBut(t, p) && NoOverlap(t) && p in t
    ensures Canonical(Prune(t, p))
    decreases p
  {
    if p.Under? && EmptyAt(t, p) {
      RemoveEmpty(t, p);
      forall q | q in t - {p} && q.Under? && q != p.parent
        ensures !EmptyAt(t - {p}, q)
      {
        if HasChild(t, q) {
          var c :| c in t && c.Under? && c.parent == q;
          assert c in t - {p};
        }
      }
      PruneMakesCanonical(t - {p}, p.parent);
    }
  }

  lemma {:induction false} ClearKeepsCanonical(t: Tree, segments: seq<FieldDescriptor>)
    requires Canonical(t) && NoOverlap(t) && |segments| > 0 && LeafPath(segments) !in t
    ensures Canonical(ClearTree(t, segments))
  {
    var p, leaf := PathTo(segments, |segments| - 1), segments[|segments| - 1].name;
    if p in t {
      ClearLeaf(t, p, leaf);
      var u := ClearFields(t, p, {leaf});
      forall q | q in u && q.Under? && q != p
        ensures !EmptyAt(u, q)
      {
        if HasChild(t, q) {
          assert HasChild(u, q);
        }
      }
      PruneMakesCanonical(u, p);
    }
  }

  lemma {:induction false} ClearKeepsTyped(schema: Schema, root: string, t: Tree, segments: seq<FieldDescriptor>)
    requires TypedTree(schema, root, t) && |segments| > 0 && LeafPath(segments) !in t
    ensures TypedTree(schema, root, ClearTree(t, segments))
  {
    TypedIsApart(schema, root, t);
    ClearLocal(t, segments);
    var p := PathTo(segments, |segments| - 1);
    if p in t {
      ClearWellFormed(t, p, {segments[|segments| - 1].name});
      NotBelow(p, p, {segments[|segments| - 1].name});
      PruneWellFormed(ClearFields(t, p, {segments[|segments| - 1].name}), p);
    }
  }
}
