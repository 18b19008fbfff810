/**
 Runs of typed-field operations (settings/field.go:63-176) on one document: what every operation keeps, and the
 partial map of leaf paths the document stands for.
 */
module SettingsRuns {
  import opened Prelude
  import opened SettingsTree
  import opened SettingsMessage
  import opened SettingsField
  import opened SettingsLaws
  import opened SettingsOneofs

  /** The whole tree an accepted assignment leaves. */
  lemma {:induction false} SetShape(t: Tree, segments: seq<FieldDescriptor>, value: Value)
    requires WellFormed(t) && |segments| > 0
    ensures var u := Freed(t, segments); var s := SetTree(t, segments, value); var n := |segments| - 1;
      var p := PathTo(segments, n); var base := if p in u then u[p] else EMPTY_NODE;
      && WellFormed(s) && s.Keys == u.Keys + OnPath(segments, n) && p in s
      && s[p] == Node(base.scalars[segments[n].name := value], base.unknown)
      && (forall r | r in s && r != p :: s[r] == if r in u then u[r] else EMPTY_NODE)
  {
    hide SetTree, MaterializePath, OnPath, PathTo, PresentDepth, Freed, NoOneof, Plain;
    var n, u, plain := |segments| - 1, Freed(t, segments), Plain(segments);
    SetAsPlain(t, segments, value);
    PlainPath(segments, n);
    MaterializeAdds(u, plain, n);
    SetAsPut(u, plain, value);
    PlainName(segments, n);
  }

  lemma PlainName(segments: seq<FieldDescriptor>, k: nat)
    requires k < |segments|
    ensures Plain(segments)[k].name == segments[k].name
  {
  }

  // ---- Types ----

  lemma {:induction false} SetKeepsTyped(schema: Schema, field: Field, t: Tree, value: Value)
    requires field.Legal(schema) && TypedTree(schema, field.root, t) && WellFormedSchema(schema)
    ensures TypedTree(schema, field.root, SetTree(t, field.segments, value))
  {
    hide SetTree, OnPath, InSchema, Freed, PresentDepth, PathTo;
    var n := field.Parents();
    FreedShape(t, field.segments);
    SetShape(t, field.segments, value);
    forall p | p in OnPath(field.segments, n)
      ensures TypeOf(schema, field.root, p).Some?
    {
      var j := OnPathAt(field.segments, n, p);
      FieldType(schema, field, j);
    }
    FieldType(schema, field, n);
    LeafDeclared(schema, field);
  }

  /** Every stored enum number is one its field defines. */
  ghost predicate EnumsDefined(schema: Schema, root: string, t: Tree) {
    forall p, f | p in t && f in t[p].scalars && t[p].scalars[f].EnumValue? ::
      DefinedHere(schema, TypeOf(schema, root, p), f, t[p].scalars[f].number)
  }

  predicate DefinedHere(schema: Schema, descriptor: Option<string>, f: string, number: int) {
    && descriptor.Some? && FieldKey(descriptor.value, f) in schema
    && number in schema[FieldKey(descriptor.value, f)].enumValues
  }

  lemma {:induction false} SetKeepsDefined(schema: Schema, field: Field, t: Tree, value: Value)
    requires field.Legal(schema) && WellFormed(t) && EnumsDefined(schema, field.root, t) && WellFormedSchema(schema)
    requires value.EnumValue? ==> value.number in field.Leaf().enumValues
    ensures EnumsDefined(schema, field.root, SetTree(t, field.segments, value))
  {
    hide SetTree, OnPath, Freed, PresentDepth, PathTo, DefinedHere, WellFormed;
    var segments, n := field.segments, field.Parents();
    FreedShape(t, segments);
    SetShape(t, segments, value);
    FreedValues(t, segments);
    FieldType(schema, field, n);
    LeafDefines(schema, field, value);
    var u, s := Freed(t, segments), SetTree(t, segments, value);
    forall p, f | p in s && f in s[p].scalars && s[p].scalars[f].EnumValue?
      ensures DefinedHere(schema, TypeOf(schema, field.root, p), f, s[p].scalars[f].number)
    {
      if !(p == PathTo(segments, n) && f == segments[n].name) {
        assert p in u && f in u[p].scalars && u[p].scalars[f] == s[p].scalars[f] == t[p].scalars[f];
      }
    }
  }

  lemma {:induction false} FreedValues(t: Tree, segments: seq<FieldDescriptor>)
    requires |segments| > 0
    ensures var u := Freed(t, segments);
      forall p | p in u ::
        p in t && forall f | f in u[p].scalars :: f in t[p].scalars && u[p].scalars[f] == t[p].scalars[f]
  {
  }

  lemma {:induction false} LeafDefines(schema: Schema, field: Field, value: Value)
    requires field.Legal(schema) && WellFormedSchema(schema)
    requires value.EnumValue? ==> value.number in field.Leaf().enumValues
    ensures value.EnumValue? ==>
      DefinedHere(schema, Some(field.Leaf().containing), field.Leaf().name, value.number)
  {
    LeafDeclared(schema, field);
  }

  lemma {:induction false} ClearKeepsDefined(schema: Schema, root: string, t: Tree, segments: seq<FieldDescriptor>)
    requires WellFormed(t) && NoOverlap(t) && |segments| > 0 && LeafPath(segments) !in t
    requires EnumsDefined(schema, root, t)
    ensures EnumsDefined(schema, root, ClearTree(t, segments))
  {
    hide ClearTree, DefinedHere, TypeOf, OnPath, PathTo;
    ClearLocal(t, segments);
    var c := ClearTree(t, segments);
    forall p, f | p in c && f in c[p].scalars && c[p].scalars[f].EnumValue?
      ensures DefinedHere(schema, TypeOf(schema, root, p), f, c[p].scalars[f].number)
    {
      assert f in t[p].scalars && t[p].scalars[f] == c[p].scalars[f];
    }
  }

  // ---- No empty messages ----

  /** Adding a chain of messages that ends in a stored scalar fills the one message that was empty on it. */
  lemma {:induction false} GrownIsCanonical(t: Tree, base: Path, u: Tree, chain: set<Path>, last: Path)
    requires CanonicalBut(t, base) && WellFormed(u) && base in chain && last in u && u.Keys == t.Keys + chain
    requires forall p | p in u && p != last :: u[p] == if p in t then t[p] else EMPTY_NODE
    requires u[last].scalars != map[] && u[last].unknown == []
    requires forall p | p in chain && p != last :: exists c :: c in chain && c.Under? && c.parent == p
    ensures Canonical(u)
  {
    forall p | p in u && p.Under? && p != last
      ensures HasChild(u, p) || u[p] != EMPTY_NODE
    {
      if p in chain {
        var c :| c in chain && c.Under? && c.parent == p;
        assert c in u;
      } else if HasChild(t, p) {
        var c :| c in t && c.Under? && c.parent == p;
        assert c in u;
      }
    }
  }

  /** Clearing fields of one message empties at most that one. */
  lemma {:induction false} ClearEmptiesOne(t: Tree, p: Path, names: set<string>)
    requires Canonical(t)
    ensures CanonicalBut(ClearFields(t, p, names), p)
  {
    var u := ClearFields(t, p, names);
    ClearWellFormed(t, p, names);
    forall q | q in u && q.Under? && q != p
      ensures !EmptyAt(u, q)
    {
      if HasChild(t, q) {
        var c :| c in t && c.Under? && c.parent == q;
        assert c in u;
      }
    }
  }

  lemma {:induction false} OnPathHas(segments: seq<FieldDescriptor>, k: nat, n: nat)
    requires k <= n <= |segments|
    ensures PathTo(segments, k) in OnPath(segments, n)
  {
    if k < n {
      OnPathHas(segments, k, n - 1);
    }
  }

  lemma {:induction false} SetKeepsCanonical(t: Tree, segments: seq<FieldDescriptor>, value: Value)
    requires Canonical(t) && |segments| > 0
    ensures Canonical(SetTree(t, segments, value))
  {
    hide SetTree, OnPath, PathTo, EmptyAt, WellFormed, ClearFields, PresentDepth, Canonical, CanonicalBut;
    var n, d := |segments| - 1, Base(t, segments);
    CanonicalIsWellFormed(t);
    FreedShape(t, segments);
    SetShape(t, segments, value);
    OnPathHasChild(segments, n);
    OnPathHas(segments, d, n);
    ClearEmptiesOne(t, PathTo(segments, d), segments[d].siblings);
    var u, s, p := Freed(t, segments), SetTree(t, segments, value), PathTo(segments, n);
    assert segments[n].name in s[p].scalars;
    NoUnknown(t, PathTo(segments, d), u, p);
    GrownIsCanonical(u, PathTo(segments, d), s, OnPath(segments, n), p);
  }

  lemma NoUnknown(t: Tree, base: Path, u: Tree, p: Path)
    requires CanonicalBut(u, base)
    ensures p in u ==> u[p].unknown == []
  {
  }

  // ---- One member of each oneof ----

  /** No two members of a oneof are present in one message. */
  ghost predicate Exclusive(schema: Schema, root: string, t: Tree) {
    forall p, f, g | p in t && Present(t, p, f) && Present(t, p, g) :: !Rivals(schema, TypeOf(schema, root, p), f, g)
  }

  predicate Rivals(schema: Schema, descriptor: Option<string>, f: string, g: string) {
    && descriptor.Some? && FieldKey(descriptor.value, f) in schema
    && g in schema[FieldKey(descriptor.value, f)].siblings
  }

  lemma NoRivals(schema: Schema, root: string, t: Tree, p: Path, f: string, g: string)
    requires Exclusive(schema, root, t) && p in t && Present(t, p, f) && Present(t, p, g)
    ensures !Rivals(schema, TypeOf(schema, root, p), f, g)
  {
  }

  lemma RivalsAgree(schema: Schema, descriptor: Option<string>, f: string, g: string)
    requires OneofsAgree(schema) && Rivals(schema, descriptor, f, g)
    ensures Rivals(schema, descriptor, g, f)
  {
    var key := FieldKey(descriptor.value, f);
    assert schema[FieldKey(key.message, g)].siblings == schema[key].siblings - {g} + {key.field};
  }

  lemma {:induction false} ShrunkIsExclusive(schema: Schema, root: string, t: Tree, u: Tree)
    requires Exclusive(schema, root, t)
    requires u.Keys <= t.Keys && forall q | q in u :: u[q].scalars.Keys <= t[q].scalars.Keys
    ensures Exclusive(schema, root, u)
  {
    hide Rivals;
    forall p, f, g | p in u && Present(u, p, f) && Present(u, p, g)
      ensures !Rivals(schema, TypeOf(schema, root, p), f, g)
    {
      assert Present(t, p, f) && Present(t, p, g);
    }
  }

  /** The path's own field in the message at p, when p is on the path. */
  predicate Own(segments: seq<FieldDescriptor>, j: nat, p: Path, f: string) {
    j < |segments| && p == PathTo(segments, j) && f == segments[j].name
  }

  /** What is present after an assignment was there before, or is a field of the path. */
  lemma {:induction false} PresentAfterSet(t: Tree, segments: seq<FieldDescriptor>, value: Value, p: Path, f: string)
    returns (j: nat)
    requires WellFormed(t) && |segments| > 0 && Present(SetTree(t, segments, value), p, f)
    ensures Present(Freed(t, segments), p, f) || Own(segments, j, p, f)
  {
    hide SetTree, Freed, PresentDepth, OnPath, PathTo, WellFormed;
    var n, u := |segments| - 1, Freed(t, segments);
    SetShape(t, segments, value);
    var s := SetTree(t, segments, value);
    j := n;
    if Under(p, f) in s {
      if Under(p, f) !in u {
        j := OnPathAt(segments, n, Under(p, f));
        PathToParent(segments, j);
        j := j - 1;
      }
    }
  }

  lemma PathToParent(segments: seq<FieldDescriptor>, j: nat)
    requires j <= |segments|
    ensures PathTo(segments, j) == if j == 0 then Root else Under(PathTo(segments, j - 1), segments[j - 1].name)
  {
  }

  /** Beside a field the path adds no rival is left. */
  lemma {:induction false} NoRivalLeft(
      schema: Schema, field: Field, t: Tree, value: Value, j: nat, p: Path, f: string, g: string)
    requires field.Legal(schema) && TypedTree(schema, field.root, t) && Exclusive(schema, field.root, t)
    requires WellFormedSchema(schema) && Own(field.segments, j, p, f)
    requires Present(SetTree(t, field.segments, value), p, g)
    ensures !Rivals(schema, TypeOf(schema, field.root, p), f, g)
  {
    hide SetTree, TypedTree, Exclusive;
    var segments := field.segments;
    var n, d, u := field.Parents(), Base(t, segments), Freed(t, segments);
    FieldType(schema, field, j);
    SegmentDeclared(schema, field, j);
    TypedIsWellFormed(schema, field.root, t);
    if g in segments[j].siblings {
      var i := PresentAfterSet(t, segments, value, p, g);
      if Own(segments, i, p, g) {
        PathDepth(segments, i);
        PathDepth(segments, j);
        assert false;
      }
      RivalsGone(schema, field, t, j, g);
    }
  }

  lemma {:induction false} SegmentDeclared(schema: Schema, field: Field, j: nat)
    requires field.Legal(schema) && WellFormedSchema(schema) && j < |field.segments|
    ensures var segment := field.segments[j]; var key := FieldKey(segment.containing, segment.name);
      key in schema && schema[key] == segment && segment.name !in segment.siblings
  {
    assert InSchema(schema, field.segments[j]);
  }

  lemma {:induction false} FreedKeeps(t: Tree, segments: seq<FieldDescriptor>, p: Path, g: string)
    requires WellFormed(t) && |segments| > 0 && Present(Freed(t, segments), p, g)
    ensures Present(t, p, g) && p in t
    ensures p == PathTo(segments, Base(t, segments)) ==> g !in segments[Base(t, segments)].siblings
  {
    var q := Under(p, g);
    if q in Freed(t, segments) {
      assert q.parent == p;
    }
  }

  /** After freeing, no sibling of a path field is present anywhere along the path. */
  lemma {:induction false} RivalsGone(schema: Schema, field: Field, t: Tree, j: nat, g: string)
    requires field.Legal(schema) && TypedTree(schema, field.root, t) && Exclusive(schema, field.root, t)
    requires WellFormedSchema(schema) && j < |field.segments| && g in field.segments[j].siblings
    ensures !Present(Freed(t, field.segments), PathTo(field.segments, j), g)
  {
    hide TypedTree, Freed, Exclusive;
    var segments := field.segments;
    var n, d, p := field.Parents(), Base(t, segments), PathTo(segments, j);
    TypedIsWellFormed(schema, field.root, t);
    FieldType(schema, field, j);
    SegmentDeclared(schema, field, j);
    assert Rivals(schema, TypeOf(schema, field.root, p), segments[j].name, g);
    if Present(Freed(t, segments), p, g) {
      FreedKeeps(t, segments, p, g);
      PresentPrefix(t, segments, n);
      assert j <= d;
      assert j != d;
      PrefixPresent(t, segments, j + 1, d);
      assert Under(p, segments[j].name) in t && Present(t, p, segments[j].name);
      NoRivals(schema, field.root, t, p, segments[j].name, g);
    }
  }

  lemma {:induction false} SetKeepsExclusive(schema: Schema, field: Field, t: Tree, value: Value)
    requires field.Legal(schema) && TypedTree(schema, field.root, t) && Exclusive(schema, field.root, t)
    requires WellFormedSchema(schema) && OneofsAgree(schema)
    ensures Exclusive(schema, field.root, SetTree(t, field.segments, value))
  {
    hide SetTree, TypedTree, Freed, OneofsAgree, WellFormedSchema, Rivals, Own;
    TypedIsWellFormed(schema, field.root, t);
    var s := SetTree(t, field.segments, value);
    forall p, f, g | p in s && Present(s, p, f) && Present(s, p, g)
      ensures !Rivals(schema, TypeOf(schema, field.root, p), f, g)
    {
      var i := PresentAfterSet(t, field.segments, value, p, f);
      var j := PresentAfterSet(t, field.segments, value, p, g);
      if Rivals(schema, TypeOf(schema, field.root, p), f, g) {
        RivalsAgree(schema, TypeOf(schema, field.root, p), f, g);
        if Own(field.segments, i, p, f) {
          NoRivalLeft(schema, field, t, value, i, p, f, g);
        } else if Own(field.segments, j, p, g) {
          NoRivalLeft(schema, field, t, value, j, p, g, f);
        } else {
          FreedKeeps(t, field.segments, p, f);
          FreedKeeps(t, field.segments, p, g);
        }
      }
    }
  }

  lemma TypedIsWellFormed(schema: Schema, root: string, t: Tree)
    requires TypedTree(schema, root, t)
    ensures WellFormed(t)
  {
  }

  // ---- The map of leaf paths ----

  /** The path is below a oneof sibling of one of the first k fields of the segments. */
  predicate Beside(q: Path, segments: seq<FieldDescriptor>, k: nat)
    requires k <= |segments|
  {
    exists i | 0 <= i < k :: Below(q, PathTo(segments, i), segments[i].siblings)
  }

  function WithoutSiblings(m: map<Path, Value>, segments: seq<FieldDescriptor>): map<Path, Value> {
    map q | q in m && !Beside(q, segments, |segments|) :: m[q]
  }

  /** A leaf below named fields of a message shows that one of them is present. */
  lemma {:induction false} BelowIsPresent(t: Tree, q: Path, p: Path, names: set<string>) returns (g: string)
    requires WellFormed(t) && q.Under? && Present(t, q.parent, q.name) && q.parent in t && Below(q, p, names)
    ensures p in t && g in names && Present(t, p, g)
  {
    if q.parent == p && q.name in names {
      g := q.name;
    } else {
      g := BelowIsPresent(t, q.parent, p, names);
    }
  }

  /** Of all oneof siblings along the path, only those of the first field stored can have leaves. */
  lemma {:induction false} OnlyAtBase(schema: Schema, field: Field, t: Tree, q: Path, i: nat)
    requires field.Legal(schema) && TypedTree(schema, field.root, t) && Exclusive(schema, field.root, t)
    requires WellFormedSchema(schema) && i < |field.segments| && q in LeafMap(t)
    requires Below(q, PathTo(field.segments, i), field.segments[i].siblings)
    ensures i == Base(t, field.segments)
  {
    hide TypedTree, Exclusive;
    var segments := field.segments;
    var n, d, p := field.Parents(), Base(t, segments), PathTo(segments, i);
    TypedIsWellFormed(schema, field.root, t);
    var g := BelowIsPresent(t, q, p, segments[i].siblings);
    FieldType(schema, field, i);
    SegmentDeclared(schema, field, i);
    assert Rivals(schema, TypeOf(schema, field.root, p), segments[i].name, g);
    PresentPrefix(t, segments, n);
    assert i <= d;
    if i < d {
      PrefixPresent(t, segments, i + 1, d);
      assert Present(t, p, segments[i].name);
      NoRivals(schema, field.root, t, p, segments[i].name, g);
    }
  }

  lemma {:induction false} DisplacedLeaves(schema: Schema, field: Field, t: Tree)
    requires field.Legal(schema) && TypedTree(schema, field.root, t) && Exclusive(schema, field.root, t)
    requires WellFormedSchema(schema)
    ensures var d := Base(t, field.segments);
      Without(LeafMap(t), PathTo(field.segments, d), field.segments[d].siblings)
      == WithoutSiblings(LeafMap(t), field.segments)
  {
    hide TypedTree, Exclusive, LeafMap, PresentDepth;
    var d, m := Base(t, field.segments), LeafMap(t);
    forall q | q in m
      ensures Beside(q, field.segments, |field.segments|) <==>
        Below(q, PathTo(field.segments, d), field.segments[d].siblings)
    {
      forall i | 0 <= i < |field.segments| && Below(q, PathTo(field.segments, i), field.segments[i].siblings)
        ensures i == d
      {
        OnlyAtBase(schema, field, t, q, i);
      }
    }
  }

  /** An accepted assignment removes the leaves of the path's oneof siblings from the map and adds its own. */
  lemma {:induction false} SetOnMap(schema: Schema, field: Field, t: Tree, value: Value)
    requires field.Legal(schema) && TypedTree(schema, field.root, t) && Exclusive(schema, field.root, t)
    requires WellFormedSchema(schema)
    ensures LeafMap(SetTree(t, field.segments, value))
         == WithoutSiblings(LeafMap(t), field.segments)[LeafPath(field.segments) := value]
  {
    hide TypedTree, Exclusive, LeafMap, SetTree, PresentDepth, WithoutSiblings, Without;
    TypedIsWellFormed(schema, field.root, t);
    SetIsMapUpdate(t, field.segments, value);
    DisplacedLeaves(schema, field, t);
  }

  /** No leaf is below a oneof sibling of a parent on the field's path. */
  predicate Harmless(m: map<Path, Value>, field: Field)
    requires |field.segments| > 0
  {
    forall q | q in m :: !Beside(q, field.segments, field.Parents())
  }

  lemma {:induction false} AncestorIsAbove(q: Path, p: Path, f: string)
    requires Under(p, f) in Ancestors(q)
    ensures Below(q, p, {f})
  {
    if q.parent != Under(p, f) {
      AncestorIsAbove(q.parent, p, f);
    } else {
      assert q.parent.parent == p && q.parent.name == f;
    }
  }

  lemma {:induction false} BelowMore(q: Path, p: Path, fewer: set<string>, more: set<string>)
    requires fewer <= more && Below(q, p, fewer)
    ensures Below(q, p, more)
  {
    if !(q.parent == p && q.name in fewer) {
      BelowMore(q.parent, p, fewer, more);
    }
  }

  /** A present field of a canonical document shows in its leaves. */
  lemma {:induction false} PresentHasLeaf(t: Tree, p: Path, f: string) returns (q: Path)
    requires Canonical(t) && Present(t, p, f)
    ensures q in LeafMap(t) && Below(q, p, {f})
  {
    var c := Under(p, f);
    if c in t {
      q := LeafBelow(t, c, set r | r in t && (r == c || c in Ancestors(r)));
      AncestorIsAbove(q, p, f);
    } else {
      q := c;
    }
  }

  /** A rejected assignment leaves the document alone exactly when no leaf is below a oneof sibling of a parent. */
  lemma {:induction false} RejectedSetOnMapIff(schema: Schema, field: Field, t: Tree)
    requires field.Legal(schema) && TypedTree(schema, field.root, t) && Exclusive(schema, field.root, t)
    requires WellFormedSchema(schema) && Canonical(t)
    ensures Displaced(t, field.segments, field.Parents()) == t <==> Harmless(LeafMap(t), field)
  {
    hide TypedTree, Exclusive, Displaced, Canonical, LeafMap;
    var segments, n := field.segments, field.Parents();
    var d := Base(t, segments);
    TypedIsWellFormed(schema, field.root, t);
    PresentPrefix(t, segments, n);
    RejectedSetRestores(t, segments, n);
    if Displaces(t, segments, n) {
      var f :| f in segments[d].siblings && Present(t, PathTo(segments, d), f);
      var q := PresentHasLeaf(t, PathTo(segments, d), f);
      BelowMore(q, PathTo(segments, d), {f}, segments[d].siblings);
      assert Beside(q, segments, n);
    }
    if !Harmless(LeafMap(t), field) {
      var q :| q in LeafMap(t) && Beside(q, segments, n);
      var i :| 0 <= i < n && Below(q, PathTo(segments, i), segments[i].siblings);
      OnlyAtBase(schema, field, t, q, i);
      LeafIsPresent(t, q);
      var g := BelowIsPresent(t, q, PathTo(segments, i), segments[i].siblings);
      assert Displaces(t, segments, n);
    }
  }

  lemma LeafIsPresent(t: Tree, q: Path)
    requires q in LeafMap(t)
    ensures q.Under? && q.parent in t && Present(t, q.parent, q.name)
  {
  }

  // ---- Operations ----

  datatype Operation =
    | SetTo(field: Field, value: Value)
    | ClearOf(field: Field)
    | Default(field: Field)

  /** An operation through a field built for this root, of the field's own kind. */
  predicate Applicable(schema: Schema, root: string, op: Operation) {
    && op.field.Legal(schema) && op.field.root == root
    && (op.SetTo? ==> SameKind(op.value, op.field.default))
  }

  predicate Rejected(op: Operation)
    requires |op.field.segments| > 0
  {
    op.SetTo? && !Assignable(op.field.Leaf(), op.value)
  }

  /** What the operation does to a partial map; storing a value removes the leaves of the path's oneof siblings. */
  function OnMap(m: map<Path, Value>, op: Operation): map<Path, Value>
    requires |op.field.segments| > 0
  {
    var segments := op.field.segments;
    var leaf := LeafPath(segments);
    match op
    case SetTo(field, value) => if Rejected(op) then m else WithoutSiblings(m, segments)[leaf := value]
    case ClearOf(_) => m - {leaf}
    case Default(field) => if leaf in m then m else WithoutSiblings(m, segments)[leaf := field.default]
  }

  function MapAfter(ops: seq<Operation>): map<Path, Value>
    requires forall i | 0 <= i < |ops| :: |ops[i].field.segments| > 0
  {
    if ops == [] then map[] else OnMap(MapAfter(ops[..|ops| - 1]), ops[|ops| - 1])
  }

  /** What the operation's method leaves of a document. */
  function OnTree(t: Tree, op: Operation): Tree
    requires WellFormed(t) && |op.field.segments| > 0
  {
    var segments := op.field.segments;
    match op
    case SetTo(field, value) =>
      if Assignable(field.Leaf(), value) then SetTree(t, segments, value) else Displaced(t, segments, field.Parents())
    case ClearOf(_) => ClearTree(t, segments)
    case Default(field) => ApplyDefaultTree(t, segments, field.default)
  }

  /** What every operation keeps. */
  ghost predicate Settled(schema: Schema, root: string, t: Tree) {
    && TypedTree(schema, root, t) && Canonical(t) && Exclusive(schema, root, t)
    && EnumsDefined(schema, root, t)
  }

  /** Storing a value acts on the leaves as it does on a partial map, and keeps what every operation keeps. */
  lemma {:induction false} StoreIsOnMap(schema: Schema, field: Field, t: Tree, value: Value)
    requires WellFormedSchema(schema) && OneofsAgree(schema) && field.Legal(schema) && Settled(schema, field.root, t)
    requires value.EnumValue? ==> value.number in field.Leaf().enumValues
    ensures WellFormed(t) && Settled(schema, field.root, SetTree(t, field.segments, value))
    ensures LeafMap(SetTree(t, field.segments, value))
         == WithoutSiblings(LeafMap(t), field.segments)[LeafPath(field.segments) := value]
  {
    hide SetTree, Canonical, TypedTree, LeafMap, Exclusive, OneofsAgree, WellFormedSchema, WithoutSiblings,
      EnumsDefined;
    TypedIsWellFormed(schema, field.root, t);
    SetKeepsDefined(schema, field, t, value);
    SetOnMap(schema, field, t, value);
    SetKeepsTyped(schema, field, t, value);
    SetKeepsCanonical(t, field.segments, value);
    SetKeepsExclusive(schema, field, t, value);
  }

  lemma {:induction false} ClearIsOnMap(schema: Schema, field: Field, t: Tree)
    requires WellFormedSchema(schema) && field.Legal(schema) && Settled(schema, field.root, t)
    ensures WellFormed(t) && Settled(schema, field.root, ClearTree(t, field.segments))
    ensures LeafMap(ClearTree(t, field.segments)) == LeafMap(t) - {LeafPath(field.segments)}
  {
    hide ClearTree, Canonical, TypedTree, LeafMap, Exclusive, Apart, NoOverlap, EnumsDefined;
    TypedIsWellFormed(schema, field.root, t);
    TypedIsApart(schema, field.root, t);
    FieldFits(schema, field, t);
    ClearIsMapRemoval(t, field.segments);
    ClearKeepsTyped(schema, field.root, t, field.segments);
    ClearKeepsDefined(schema, field.root, t, field.segments);
    ClearKeepsCanonical(t, field.segments);
    ClearLocal(t, field.segments);
    ShrunkIsExclusive(schema, field.root, t, ClearTree(t, field.segments));
  }

  /**
   One operation acts on the leaves as it does on a partial map, and leaves nothing else behind; a rejected
   assignment does so exactly when it displaces no leaf.
   */
  lemma {:induction false} OperationIsOnMap(schema: Schema, root: string, t: Tree, op: Operation)
    requires WellFormedSchema(schema) && OneofsAgree(schema) && Settled(schema, root, t) && Applicable(schema, root, op)
    requires Rejected(op) ==> Harmless(LeafMap(t), op.field)
    ensures WellFormed(t)
    ensures var u := OnTree(t, op); Settled(schema, root, u) && LeafMap(u) == OnMap(LeafMap(t), op)
  {
    hide SetTree, ClearTree, Displaced, LeafMap, WithoutSiblings, LookupTree, Harmless, OneofsAgree, WellFormedSchema;
    TypedIsWellFormed(schema, root, t);
    match op
    case SetTo(field, value) =>
      if Rejected(op) {
        RejectedSetOnMapIff(schema, field, t);
      } else {
        StoreIsOnMap(schema, field, t, value);
      }
    case ClearOf(field) => ClearIsOnMap(schema, field, t);
    case Default(field) =>
      LookupIsMapLookup(t, field.segments);
      StoreIsOnMap(schema, field, t, field.default);
  }

  /** Runs one operation on a document. */
  method Perform(ghost schema: Schema, message: Message, op: Operation)
    requires message.Valid(schema) && Applicable(schema, message.descriptor, op)
    modifies message.Repr()
    ensures message.Valid(schema) && fresh(message.Repr() - old(message.Repr()))
    ensures WellFormed(old(message.Snapshot())) && message.Snapshot() == OnTree(old(message.Snapshot()), op)
  {
    ValidTree(schema, message.Document);
    hide ValidLayout, TreeOf, WellFormed, Displaced, SetTree, ClearTree, ApplyDefaultTree, Chain, SameKind, Assignable,
      TakesDefault;
    match op
    case SetTo(field, value) => var _ := Set(schema, field, message, value);
    case ClearOf(field) => var _ := Clear(schema, field, message);
    case Default(field) => var _ := ApplyDefault(schema, field, message);
  }

  /** The operations fit the document, and those rejected meet no leaf they would displace. */
  ghost predicate Replayable(schema: Schema, root: string, ops: seq<Operation>) {
    && (forall i | 0 <= i < |ops| :: |ops[i].field.segments| > 0 && Applicable(schema, root, ops[i]))
    && (forall i | 0 <= i < |ops| :: Rejected(ops[i]) ==> Harmless(MapAfter(ops[..i]), ops[i].field))
  }

  lemma ReplaySteps(schema: Schema, root: string, ops: seq<Operation>)
    requires Replayable(schema, root, ops)
    ensures MapAfter(ops[..0]) == map[]
    ensures forall i | 0 <= i < |ops| ::
      && |ops[i].field.segments| > 0 && Applicable(schema, root, ops[i])
      && (Rejected(ops[i]) ==> Harmless(MapAfter(ops[..i]), ops[i].field))
      && MapAfter(ops[..i + 1]) == OnMap(MapAfter(ops[..i]), ops[i])
  {
    forall i | 0 <= i < |ops|
      ensures MapAfter(ops[..i + 1]) == OnMap(MapAfter(ops[..i]), ops[i])
    {
      assert ops[..i + 1][..i] == ops[..i];
    }
  }

  /**
   After any run of Set, Clear and ApplyDefault on a new message, the document is the one its partial
   map determines: no empty sub-message, one member of each oneof, no trace of a rejected value.
   */
  method Replay(schema: Schema, root: string, ops: seq<Operation>) returns (message: Message)
    requires WellFormedSchema(schema) && OneofsAgree(schema) && Replayable(schema, root, ops)
    ensures message.Valid(schema) && message.Snapshot() == FromMap(MapAfter(ops))
    ensures LeafMap(message.Snapshot()) == MapAfter(ops) && Exclusive(schema, root, message.Snapshot())
    ensures forall p, f | p in message.Snapshot() && f in message.Snapshot()[p].scalars ::
      var value, descriptor := message.Snapshot()[p].scalars[f], TypeOf(schema, root, p);
      value.EnumValue? ==>
        && descriptor.Some? && FieldKey(descriptor.value, f) in schema
        && value.number in schema[FieldKey(descriptor.value, f)].enumValues
  {
    hide ValidLayout, Settled, LeafMap, OnTree, OnMap, TreeOf, FromMap, Replayable, Applicable, Harmless, Rejected,
      OneofsAgree, MapAfter;
    message := new Message(schema, root);
    StartsEmpty(schema, root);
    ReplaySteps(schema, root, ops);
    for i := 0 to |ops|
      invariant message.Valid(schema) && message.descriptor == root && fresh(message.Repr())
      invariant Settled(schema, root, message.Snapshot())
      invariant LeafMap(message.Snapshot()) == MapAfter(ops[..i])
    {
      OperationIsOnMap(schema, root, message.Snapshot(), ops[i]);
      Perform(schema, message, ops[i]);
    }
    assert ops[..|ops|] == ops;
    SettledIsFromMap(schema, root, message.Snapshot());
  }

  lemma SettledIsFromMap(schema: Schema, root: string, t: Tree)
    requires Settled(schema, root, t)
    ensures t == FromMap(LeafMap(t)) && Exclusive(schema, root, t)
    ensures forall p, f | p in t && f in t[p].scalars ::
      t[p].scalars[f].EnumValue? ==> DefinedHere(schema, TypeOf(schema, root, p), f, t[p].scalars[f].number)
  {
    CanonicalIsFromMap(t);
  }

  lemma StartsEmpty(schema: Schema, root: string)
    ensures Settled(schema, root, EMPTY_TREE) && LeafMap(EMPTY_TREE) == map[]
  {
    assert Leaves(EMPTY_TREE) == {};
  }
}
