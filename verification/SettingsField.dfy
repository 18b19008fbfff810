/**
 Typed fields (settings/field.go): a resolved path from a root message type to one scalar, read and
 written in place on the messages of a document.
 */
module SettingsField {
  import opened Prelude
  import opened SettingsTree
  import opened SettingsMessage

  datatype SettingsError =
    | NilMessage
    | WrongRoot
    | UndefinedEnum
    | NilPrototype
    | EmptyPath
    | EmptySegment
    | NoSuchField
    | NotSingularMessage
    | UnsupportedLeaf
    | RejectedLeaf

  /** The value kind of a typed field is the kind of its default. */
  predicate SameKind(a: Value, b: Value) {
    (a.StringValue? <==> b.StringValue?) && (a.BoolValue? <==> b.BoolValue?) && (a.EnumValue? <==> b.EnumValue?)
  }

  /** The assignment of a string or bool always succeeds; an enum number must be defined. */
  predicate Assignable(leaf: FieldDescriptor, value: Value) {
    value.EnumValue? ==> value.number in leaf.enumValues
  }

  /** settings/field.go:228-244, 275-280: the leaf holds this kind of value with presence and knows the default. */
  predicate LeafAccepts(leaf: FieldDescriptor, default: Value) {
    && leaf.presence
    && match default
       case StringValue(_) => leaf.kind == StringKind
       case BoolValue(_) => leaf.kind == BoolKind
       case EnumValue(number) => leaf.kind == EnumKind && number in leaf.enumValues
       case Composite(_) => false
  }

  /** Each segment is a field of the message type the previous one leads to. */
  predicate Chain(schema: Schema, root: string, segments: seq<FieldDescriptor>) {
    && (forall i | 0 <= i < |segments| :: InSchema(schema, segments[i]))
    && (|segments| > 0 ==> segments[0].containing == root)
    && (forall i | 0 <= i < |segments| - 1 ::
          SingularMessage(segments[i]) && segments[i + 1].containing == segments[i].message.value)
  }

  predicate TakesDefault(leaf: FieldDescriptor, default: Value) {
    leaf.cardinality == Singular && LeafAccepts(leaf, default)
  }

  datatype Field = Field(root: string, path: string, segments: seq<FieldDescriptor>, default: Value) {

    /** Every access along the path is one its message type allows, and the leaf takes the default. */
    predicate Legal(schema: Schema) {
      |segments| > 0 && Chain(schema, root, segments) && TakesDefault(segments[|segments| - 1], default)
    }

    /** The number of parent messages between the root and the leaf. */
    function Parents(): (n: nat)
      requires |segments| > 0
    {
      |segments| - 1
    }

    function Leaf(): FieldDescriptor
      requires |segments| > 0
    {
      segments[|segments| - 1]
    }
  }

  ghost predicate At(document: Layout, message: Message, p: Path) {
    p in document && document[p].self == message
  }

  /** settings/field.go:178-192. */
  function RootError(field: Field, message: Message?): Option<SettingsError> {
    if message == null then Some(NilMessage)
    else if message.descriptor != field.root then Some(WrongRoot)
    else None
  }

  /** settings/field.go:80-101. */
  method Lookup(ghost schema: Schema, field: Field, message: Message?) returns (r: Result<Option<Value>, SettingsError>)
    requires field.Legal(schema)
    requires message != null ==> message.Valid(schema)
    ensures RootError(field, message).Some? ==> r == Err(RootError(field, message).value)
    ensures RootError(field, message).None? ==> r == Ok(LookupTree(message.Snapshot(), field.segments))
  {
    hide ValidLayout, TreeOf, WellFormed;
    if message == null {
      return Err(NilMessage);
    }
    if message.descriptor != field.root {
      return Err(WrongRoot);
    }
    ValidTree(schema, message.Document);
    var current: Message := message;
    ghost var n := field.Parents();
    for i := 0 to |field.segments| - 1
      invariant At(message.Document, current, PathTo(field.segments, i))
      invariant current.descriptor == field.segments[i].containing
    {
      var segment := field.segments[i];
      current.HasAt(schema, message, PathTo(field.segments, i), segment);
      if !current.Has(segment) {
        AbsentParent(message.Snapshot(), field.segments, i + 1);
        return Ok(None);
      }
      current := current.Get(segment);
    }
    var leaf := field.segments[|field.segments| - 1];
    current.ScalarAt(schema, message, PathTo(field.segments, n), leaf);
    if !current.Has(leaf) {
      return Ok(None);
    }
    return Ok(Some(current.scalars[leaf.name]));
  }

  /** settings/field.go:48-58. */
  method Get(ghost schema: Schema, field: Field, message: Message?) returns (r: Result<Value, SettingsError>)
    requires field.Legal(schema)
    requires message != null ==> message.Valid(schema)
    ensures RootError(field, message).Some? ==> r == Err(RootError(field, message).value)
    ensures RootError(field, message).None? ==>
      var stored := LookupTree(message.Snapshot(), field.segments);
      r == Ok(if stored.Some? then stored.value else field.default)
  {
    var found := Lookup(schema, field, message);
    match found
    case Err(e) => return Err(e);
    case Ok(None) => return Ok(field.default);
    case Ok(Some(v)) => return Ok(v);
  }

  /** One step of the walk towards a leaf: the message walked from, the field followed, and whether it was created. */
  datatype Step = Step(message: Message, field: FieldDescriptor, created: bool)

  /** The recorded steps are those along the path, and each is still in the document. */
  ghost predicate Walked(document: Layout, t: Tree, segments: seq<FieldDescriptor>, steps: seq<Step>) {
    && |steps| <= |segments|
    && forall j | 0 <= j < |steps| ::
         && At(document, steps[j].message, PathTo(segments, j))
         && steps[j].message.descriptor == segments[j].containing
         && steps[j].field == segments[j]
         && (steps[j].created <==> PathTo(segments, j + 1) !in t)
  }

  lemma WalkStart(document: Layout, t: Tree, segments: seq<FieldDescriptor>)
    ensures Walked(document, t, segments, [])
  {
  }

  lemma {:induction false} WalkKept(
      before: Layout, after: Layout, t: Tree, segments: seq<FieldDescriptor>, steps: seq<Step>)
    requires Walked(before, t, segments, steps)
    requires forall q | q in before && Depth(q) <= |steps| :: q in after && after[q].self == before[q].self
    ensures Walked(after, t, segments, steps)
  {
    hide PathTo, Depth;
    forall j | 0 <= j <= |steps|
      ensures PathTo(segments, j) in before ==> At(after, before[PathTo(segments, j)].self, PathTo(segments, j))
    {
      PathDepth(segments, j);
    }
  }

  lemma {:induction false} WalkOn(
      before: Layout, after: Layout, t: Tree, segments: seq<FieldDescriptor>, steps: seq<Step>, step: Step)
    requires Walked(before, t, segments, steps) && |steps| < |segments|
    requires At(before, step.message, PathTo(segments, |steps|))
    requires step.message.descriptor == segments[|steps|].containing && step.field == segments[|steps|]
    requires step.created <==> PathTo(segments, |steps| + 1) !in t
    requires forall q | q in before && Depth(q) <= |steps| :: q in after && after[q].self == before[q].self
    ensures Walked(after, t, segments, steps + [step])
  {
    hide PathTo, Depth;
    WalkKept(before, after, t, segments, steps);
    PathDepth(segments, |steps|);
  }

  /** settings/field.go:122-129: one parent, read or created. */
  method Enter(ghost schema: Schema, field: Field, message: Message, i: nat, parent: Message,
               ghost t: Tree, ghost parents: seq<Step>)
    returns (step: Step, child: Message)
    requires field.Legal(schema) && message.Valid(schema) && WellFormed(t) && i == |parents| < field.Parents()
    requires message.Snapshot() == MaterializePath(t, field.segments, i)
    requires At(message.Document, parent, PathTo(field.segments, i))
    requires parent.descriptor == field.segments[i].containing
    requires Walked(message.Document, t, field.segments, parents)
    modifies message.Repr()
    ensures message.Valid(schema) && fresh(message.Repr() - old(message.Repr()))
    ensures message.Snapshot() == MaterializePath(t, field.segments, i + 1)
    ensures At(message.Document, child, PathTo(field.segments, i + 1))
    ensures child.descriptor == field.segments[i + 1].containing
    ensures Walked(message.Document, t, field.segments, parents + [step])
  {
    hide ValidLayout, TreeOf, WellFormed, Materialize, Message.Synced, Walked, InSchema, TakesDefault;
    var segment := field.segments[i];
    parent.HasAt(schema, message, PathTo(field.segments, i), segment);
    CreatedHere(t, field.segments, i);
    ValidTree(schema, message.Document);
    var created := !parent.Has(segment);
    ghost var document := message.Document;
    child := parent.Mutable(schema, message, PathTo(field.segments, i), segment);
    PathDepth(field.segments, i);
    PathDepth(field.segments, i + 1);
    step := Step(parent, segment, created);
    WalkOn(document, message.Document, t, field.segments, parents, step);
  }

  /** settings/field.go:120-130: materializes every parent, recording what it had to create. */
  method Descend(ghost schema: Schema, field: Field, message: Message) returns (current: Message, parents: seq<Step>)
    requires field.Legal(schema) && message.Valid(schema) && message.descriptor == field.root
    modifies message.Repr()
    ensures message.Valid(schema) && fresh(message.Repr() - old(message.Repr()))
    ensures message.Snapshot() == MaterializePath(old(message.Snapshot()), field.segments, field.Parents())
    ensures At(message.Document, current, PathTo(field.segments, field.Parents())) && current in message.Repr()
    ensures current.descriptor == field.Leaf().containing
    ensures |parents| == field.Parents() && Walked(message.Document, old(message.Snapshot()), field.segments, parents)
  {
    hide ValidLayout, TreeOf, WellFormed, Materialize, Message.Synced, Walked, InSchema;
    ValidTree(schema, message.Document);
    ghost var t := message.Snapshot();
    current, parents := message, [];
    WalkStart(message.Document, t, field.segments);
    for i := 0 to |field.segments| - 1
      invariant message.Valid(schema) && fresh(message.Repr() - old(message.Repr()))
      invariant message.Snapshot() == MaterializePath(t, field.segments, i)
      invariant At(message.Document, current, PathTo(field.segments, i))
      invariant current.descriptor == field.segments[i].containing
      invariant |parents| == i && Walked(message.Document, t, field.segments, parents)
    {
      var step;
      step, current := Enter(schema, field, message, i, current, t, parents);
      parents := parents + [step];
    }
  }

  /** The message a path leads to has the type its next segment belongs to. */
  lemma {:induction false} PathTyped(schema: Schema, field: Field, document: Layout, j: nat)
    requires field.Legal(schema) && ValidLayout(schema, document) && document[Root].descriptor == field.root
    requires j <= field.Parents() && PathTo(field.segments, j) in document
    ensures document[PathTo(field.segments, j)].descriptor == field.segments[j].containing
  {
    if j > 0 {
      var p := PathTo(field.segments, j);
      assert p.parent == PathTo(field.segments, j - 1);
      PathTyped(schema, field, document, j - 1);
      assert InSchema(schema, field.segments[j - 1]);
    }
  }

  lemma {:induction false} ValidApart(schema: Schema, field: Field, document: Layout)
    requires field.Legal(schema) && ValidLayout(schema, document) && document[Root].descriptor == field.root
    ensures Apart(TreeOf(document), field.segments, field.Parents())
  {
    forall j | 0 <= j < field.Parents() && PathTo(field.segments, j) in document
      ensures field.segments[j].name !in document[PathTo(field.segments, j)].scalars
    {
      PathTyped(schema, field, document, j);
      assert Typed(schema, document[PathTo(field.segments, j)]);
      assert InSchema(schema, field.segments[j]) && SingularMessage(field.segments[j]);
    }
  }

  /** settings/field.go:134-141: one parent, removed if this call created it and it is empty. */
  method Undo(ghost schema: Schema, field: Field, message: Message, step: Step, index: nat, ghost t: Tree)
    returns (removed: bool)
    requires field.Legal(schema) && message.Valid(schema) && index < field.Parents()
    requires WellFormed(t) && Apart(t, field.segments, field.Parents())
    requires message.Snapshot() == Undone(t, field.segments, field.Parents(), index + 1)
    requires step.field == field.segments[index] && (step.created <==> PathTo(field.segments, index + 1) !in t)
    requires At(message.Document, step.message, PathTo(field.segments, index)) || !step.created
    requires step.message.descriptor == field.segments[index].containing
    modifies message.Repr()
    ensures message.Valid(schema) && message.Repr() <= old(message.Repr())
    ensures message.Document.Keys <= old(message.Document).Keys
    ensures forall q | q in message.Document :: message.Document[q].self == old(message.Document)[q].self
    ensures removed ==> message.Snapshot() == Undone(t, field.segments, field.Parents(), index)
    ensures !removed ==> message.Snapshot() == Displaced(t, field.segments, field.Parents())
  {
    ghost var n := field.Parents();
    hide ValidLayout, TreeOf, WellFormed, Apart, Undone, MaterializePath, ClearFields, Displaced, EmptyAt;
    ValidTree(schema, message.Document);
    UndoOne(t, field.segments, n, index + 1);
    if !step.created {
      return false;
    }
    step.message.HasAt(schema, message, PathTo(field.segments, index), step.field);
    var child := step.message.Get(step.field);
    child.IsEmptyAt(schema, message, PathTo(field.segments, index + 1));
    if !child.IsEmpty() {
      return false;
    }
    step.message.Remove(schema, message, PathTo(field.segments, index), {step.field.name});
    return true;
  }

  /** settings/field.go:133-142: removes the empty messages this call created, innermost first. */
  method RollBack(ghost schema: Schema, field: Field, message: Message, parents: seq<Step>, ghost t: Tree)
    requires field.Legal(schema) && message.Valid(schema)
    requires WellFormed(t) && Apart(t, field.segments, field.Parents())
    requires message.Snapshot() == MaterializePath(t, field.segments, field.Parents())
    requires |parents| == field.Parents() && Walked(message.Document, t, field.segments, parents)
    modifies message.Repr()
    ensures message.Valid(schema) && message.Repr() <= old(message.Repr())
    ensures message.Snapshot() == Displaced(t, field.segments, field.Parents())
  {
    hide ValidLayout, TreeOf, WellFormed, Apart, Undone, MaterializePath, ClearFields, Displaced, EmptyAt, Chain,
      TakesDefault, Message.Synced, PathTo;
    ghost var n := field.Parents();
    UndoStart(t, field.segments, n);
    var index := |parents| - 1;
    while index >= 0
      invariant -1 <= index < n
      invariant message.Valid(schema) && message.Repr() <= old(message.Repr())
      invariant message.Document.Keys <= old(message.Document).Keys
      invariant forall q | q in message.Document :: message.Document[q].self == old(message.Document)[q].self
      invariant message.Snapshot() == Undone(t, field.segments, n, index + 1)
    {
      UndoneHas(schema, field, message, index, t);
      var removed := Undo(schema, field, message, parents[index], index, t);
      if !removed {
        return;
      }
      index := index - 1;
    }
  }

  /** A parent this call created is still there when its turn comes. */
  lemma {:induction false} UndoneHas(schema: Schema, field: Field, message: Message, index: nat, t: Tree)
    requires field.Legal(schema) && message.Valid(schema) && index < field.Parents()
    requires WellFormed(t) && Apart(t, field.segments, field.Parents())
    requires message.Snapshot() == Undone(t, field.segments, field.Parents(), index + 1)
    ensures PathTo(field.segments, index + 1) !in t ==> PathTo(field.segments, index) in message.Document
  {
    hide ValidLayout, TreeOf, WellFormed, Apart, Undone, ClearFields, EmptyAt;
    ValidTree(schema, message.Document);
    UndoOne(t, field.segments, field.Parents(), index + 1);
  }

  lemma {:induction false} LeafTakes(schema: Schema, field: Field, value: Value)
    requires field.Legal(schema) && SameKind(value, field.default)
    ensures InSchema(schema, field.Leaf()) && ValueFits(field.Leaf(), value) && Populates(field.Leaf(), value)
  {
  }

  /** settings/field.go:120-145: the assignment itself, on a message of the field's root type. */
  method Assign(ghost schema: Schema, field: Field, message: Message, value: Value) returns (accepted: bool)
    requires field.Legal(schema) && SameKind(value, field.default)
    requires message.Valid(schema) && message.descriptor == field.root
    modifies message.Repr()
    ensures message.Valid(schema) && fresh(message.Repr() - old(message.Repr()))
    ensures accepted == Assignable(field.Leaf(), value)
    ensures accepted <==> !(value.EnumValue? && value.number !in field.Leaf().enumValues)
    ensures accepted ==> message.Snapshot() == SetTree(old(message.Snapshot()), field.segments, value)
    ensures !accepted ==> message.Snapshot() == Displaced(old(message.Snapshot()), field.segments, field.Parents())
  {
    hide ValidLayout, TreeOf, WellFormed, Apart, MaterializePath, Displaced, Walked, Chain, InSchema, ValueFits,
      LeafAccepts, PutLeaf, SameKind, Members, TakesDefault;
    message.SelfListed(schema);
    LeafTakes(schema, field, value);
    ValidTree(schema, message.Document);
    ghost var t := message.Snapshot();
    ValidApart(schema, field, message.Document);
    var current, parents := Descend(schema, field, message);
    var leaf := field.segments[|field.segments| - 1];
    accepted := Assignable(leaf, value);
    if accepted {
      current.Put(schema, message, PathTo(field.segments, field.Parents()), leaf, value);
    } else {
      RollBack(schema, field, message, parents, t);
    }
  }

  /** What was set is what lookup finds. */
  lemma FoundAgain(t: Tree, segments: seq<FieldDescriptor>, value: Value)
    requires WellFormed(t) && |segments| > 0
    ensures LookupTree(SetTree(t, segments, value), segments) == Some(value)
  {
    MaterializeShape(t, segments, |segments| - 1);
    NotBelow(PathTo(segments, |segments| - 1), PathTo(segments, |segments| - 1), segments[|segments| - 1].siblings);
  }

  /** settings/field.go:110-146. */
  method Set(ghost schema: Schema, field: Field, message: Message?, value: Value) returns (r: Option<SettingsError>)
    requires field.Legal(schema) && SameKind(value, field.default)
    requires message != null ==> message.Valid(schema)
    modifies if message == null then {} else message.Repr()
    ensures message != null ==> message.Valid(schema) && fresh(message.Repr() - old(message.Repr()))
    ensures RootError(field, message).Some? ==>
      r == RootError(field, message) && (message != null ==> message.Snapshot() == old(message.Snapshot()))
    ensures RootError(field, message).None? && Assignable(field.Leaf(), value) ==>
      r == None && message.Snapshot() == SetTree(old(message.Snapshot()), field.segments, value)
    ensures RootError(field, message).None? && !Assignable(field.Leaf(), value) ==>
      && r == Some(UndefinedEnum)
      && message.Snapshot() == Displaced(old(message.Snapshot()), field.segments, field.Parents())
    ensures RootError(field, message).None? ==>
      (r == Some(UndefinedEnum) <==> value.EnumValue? && value.number !in field.Leaf().enumValues)
    ensures RootError(field, message).None? && r.None? ==>
      LookupTree(message.Snapshot(), field.segments) == Some(value)
  {
    hide ValidLayout, TreeOf, WellFormed, Displaced, Members, SetTree, LookupTree;
    if message == null {
      return Some(NilMessage);
    }
    if message.descriptor != field.root {
      return Some(WrongRoot);
    }
    ValidTree(schema, message.Document);
    FoundAgain(message.Snapshot(), field.segments, value);
    var accepted := Assign(schema, field, message, value);
    return if accepted then None else Some(UndefinedEnum);
  }

  /** settings/field.go:155-166: the walk to the leaf's message, given up at the first absent parent. */
  method Trace(ghost schema: Schema, field: Field, message: Message)
    returns (found: bool, current: Message, parents: seq<Step>)
    requires field.Legal(schema) && message.Valid(schema) && message.descriptor == field.root
    ensures found <==> PathTo(field.segments, field.Parents()) in message.Snapshot()
    ensures found ==>
      && At(message.Document, current, PathTo(field.segments, field.Parents()))
      && |parents| == field.Parents() && Walked(message.Document, message.Snapshot(), field.segments, parents)
  {
    hide ValidLayout, TreeOf, WellFormed, Walked;
    ValidTree(schema, message.Document);
    ghost var t := message.Snapshot();
    current, parents := message, [];
    WalkStart(message.Document, t, field.segments);
    for i := 0 to |field.segments| - 1
      invariant |parents| == i && Walked(message.Document, t, field.segments, parents)
      invariant At(message.Document, current, PathTo(field.segments, i))
      invariant current.descriptor == field.segments[i].containing
    {
      var segment := field.segments[i];
      current.HasAt(schema, message, PathTo(field.segments, i), segment);
      if !current.Has(segment) {
        AbsentParent(t, field.segments, i + 1);
        return false, current, parents;
      }
      WalkOn(message.Document, message.Document, t, field.segments, parents, Step(current, segment, false));
      parents := parents + [Step(current, segment, false)];
      current := current.Get(segment);
    }
    return true, current, parents;
  }

  /** settings/field.go:168-174: removes emptied parents, innermost first. */
  method PruneParents(ghost schema: Schema, field: Field, message: Message, parents: seq<Step>, ghost t: Tree)
    requires field.Legal(schema) && message.Valid(schema)
    requires PathTo(field.segments, field.Parents()) in message.Snapshot() && WellFormed(message.Snapshot())
    requires |parents| == field.Parents()
    requires Walked(message.Document, t, field.segments, parents)
    modifies message.Repr()
    ensures message.Valid(schema) && message.Repr() <= old(message.Repr())
    ensures message.Snapshot() == Prune(old(message.Snapshot()), PathTo(field.segments, field.Parents()))
  {
    hide ValidLayout, TreeOf, WellFormed, ClearFields, Below, Prune, EmptyAt;
    ghost var start, n := message.Snapshot(), field.Parents();
    var index := |parents| - 1;
    while index >= 0
      invariant -1 <= index < n
      invariant message.Valid(schema) && message.Repr() <= old(message.Repr())
      invariant forall q | q in message.Document ::
        q in old(message.Document) && message.Document[q].self == old(message.Document)[q].self
      invariant WellFormed(message.Snapshot()) && PathTo(field.segments, index + 1) in message.Snapshot()
      invariant Prune(message.Snapshot(), PathTo(field.segments, index + 1)) == Prune(start, PathTo(field.segments, n))
    {
      ValidTree(schema, message.Document);
      PruneStep(message.Snapshot(), field.segments, index + 1);
      PrefixPresent(message.Snapshot(), field.segments, index, index + 1);
      var parent, segment := parents[index].message, parents[index].field;
      parent.HasAt(schema, message, PathTo(field.segments, index), segment);
      var child := parent.Get(segment);
      child.IsEmptyAt(schema, message, PathTo(field.segments, index + 1));
      if !child.IsEmpty() {
        break;
      }
      parent.Remove(schema, message, PathTo(field.segments, index), {segment.name});
      index := index - 1;
    }
    if index < 0 {
      PruneStep(message.Snapshot(), field.segments, 0);
    }
  }

  lemma ClearUnfolds(t: Tree, segments: seq<FieldDescriptor>)
    requires WellFormed(t) && |segments| > 0
    ensures var p := PathTo(segments, |segments| - 1); var u := ClearFields(t, p, {segments[|segments| - 1].name});
      if p in t then p in u && WellFormed(u) && ClearTree(t, segments) == Prune(u, p) else ClearTree(t, segments) == t
  {
    hide Prune, ClearFields, PathTo;
    var p := PathTo(segments, |segments| - 1);
    ClearStays(t, p, {segments[|segments| - 1].name});
  }

  lemma ClearStays(t: Tree, p: Path, names: set<string>)
    requires WellFormed(t)
    ensures WellFormed(ClearFields(t, p, names)) && (p in t ==> p in ClearFields(t, p, names))
  {
    ClearWellFormed(t, p, names);
    NotBelow(p, p, names);
  }

  /** settings/field.go:155-174: the removal itself, on a message of the field's root type. */
  method Erase(ghost schema: Schema, field: Field, message: Message)
    requires field.Legal(schema) && message.Valid(schema) && message.descriptor == field.root
    modifies message.Repr()
    ensures message.Valid(schema) && message.Repr() <= old(message.Repr())
    ensures WellFormed(old(message.Snapshot()))
    ensures message.Snapshot() == ClearTree(old(message.Snapshot()), field.segments)
  {
    ValidTree(schema, message.Document);
    ghost var t, n := message.Snapshot(), field.Parents();
    hide ValidLayout, TreeOf, WellFormed, ClearFields, Below, Prune, Walked, PathTo, Chain, TakesDefault, InSchema,
      ClearTree;
    PathDepth(field.segments, n);
    ClearUnfolds(t, field.segments);
    var found, current, parents := Trace(schema, field, message);
    if !found {
      return;
    }
    ghost var document := message.Document;
    current.Remove(schema, message, PathTo(field.segments, n), {field.segments[|field.segments| - 1].name});
    WalkKept(document, message.Document, t, field.segments, parents);
    ValidTree(schema, message.Document);
    PruneParents(schema, field, message, parents, t);
  }

  /** settings/field.go:150-176. */
  method Clear(ghost schema: Schema, field: Field, message: Message?) returns (r: Option<SettingsError>)
    requires field.Legal(schema)
    requires message != null ==> message.Valid(schema)
    modifies if message == null then {} else message.Repr()
    ensures message != null ==> message.Valid(schema) && message.Repr() <= old(message.Repr())
    ensures r == RootError(field, message)
    ensures r.Some? && message != null ==> message.Snapshot() == old(message.Snapshot())
    ensures r.None? ==> message.Snapshot() == ClearTree(old(message.Snapshot()), field.segments)
  {
    hide ValidLayout, TreeOf, WellFormed, ClearTree;
    if message == null {
      return Some(NilMessage);
    }
    if message.descriptor != field.root {
      return Some(WrongRoot);
    }
    Erase(schema, field, message);
    return None;
  }

  /** settings/field.go:63-75. */
  method ApplyDefault(ghost schema: Schema, field: Field, message: Message?) returns (r: Result<bool, SettingsError>)
    requires field.Legal(schema)
    requires message != null ==> message.Valid(schema)
    modifies if message == null then {} else message.Repr()
    ensures message != null ==> message.Valid(schema) && fresh(message.Repr() - old(message.Repr()))
    ensures RootError(field, message).Some? ==>
      r == Err(RootError(field, message).value) && (message != null ==> message.Snapshot() == old(message.Snapshot()))
    ensures RootError(field, message).None? ==>
      && r == Ok(LookupTree(old(message.Snapshot()), field.segments).None?)
      && message.Snapshot() == ApplyDefaultTree(old(message.Snapshot()), field.segments, field.default)
  {
    hide ValidLayout, TreeOf, WellFormed, SetTree, Chain, LookupTree;
    var found := Lookup(schema, field, message);
    match found
    case Err(e) => return Err(e);
    case Ok(Some(_)) => return Ok(false);
    case Ok(None) =>
      var refused := Set(schema, field, message, field.default);
      return match refused case Some(e) => Err(e) case None => Ok(true);
  }

  /** A path is what its dot-separated names spell. */
  function Split(path: string): (names: seq<string>)
    ensures |names| > 0
  {
    if path == "" then [""]
    else
      var rest := Split(path[1..]);
      if path[0] == '.' then [""] + rest else [[path[0]] + rest[0]] + rest[1..]
  }

  function Join(names: seq<string>): string
    requires |names| > 0
  {
    if |names| == 1 then names[0] else names[0] + "." + Join(names[1..])
  }

  /** The names of a path spell the path, so a field's segments and its Path() agree. */
  lemma {:induction false} JoinSplit(path: string)
    ensures Join(Split(path)) == path
    ensures forall name | name in Split(path) :: '.' !in name
  {
    if path != "" {
      JoinSplit(path[1..]);
      var rest := Split(path[1..]);
      var names := Split(path);
      if path[0] == '.' {
        assert names[1..] == rest;
      } else if |rest| > 1 {
        assert names[1..] == rest[1..];
      }
    }
  }

  /** The Unicode White_Space characters, which strings.TrimSpace removes. */
  predicate IsSpace(c: char) {
    || '\U{9}' <= c <= '\U{D}' || c == ' ' || c == '\U{85}' || c == '\U{A0}' || c == '\U{1680}'
    || '\U{2000}' <= c <= '\U{200A}' || c == '\U{2028}' || c == '\U{2029}' || c == '\U{202F}' || c == '\U{205F}'
    || c == '\U{3000}'
  }

  function TrimSpace(s: string): (t: string)
    decreases |s|
  {
    if s == "" then s
    else if IsSpace(s[0]) then TrimSpace(s[1..])
    else if IsSpace(s[|s| - 1]) then TrimSpace(s[..|s| - 1])
    else s
  }

  predicate AllSpace(s: string) {
    forall i | 0 <= i < |s| :: IsSpace(s[i])
  }

  predicate Between(s: string, before: string, t: string, after: string) {
    s == before + t + after && AllSpace(before) && AllSpace(after)
  }

  /** `s` is `t` between spaces, and no space is left at either end. */
  ghost predicate Trims(s: string, t: string) {
    && (exists before, after :: Between(s, before, t, after))
    && (t != "" ==> !IsSpace(t[0]) && !IsSpace(t[|t| - 1]))
  }

  lemma {:induction false} TrimSpaceTrims(s: string)
    ensures Trims(s, TrimSpace(s))
    decreases |s|
  {
    var t := TrimSpace(s);
    if s == "" || !(IsSpace(s[0]) || IsSpace(s[|s| - 1])) {
      assert Between(s, "", t, "");
    } else if IsSpace(s[0]) {
      TrimSpaceTrims(s[1..]);
      var before, after :| Between(s[1..], before, t, after);
      assert Between(s, [s[0]] + before, t, after);
    } else {
      TrimSpaceTrims(s[..|s| - 1]);
      var before, after :| Between(s[..|s| - 1], before, t, after);
      assert s == before + t + (after + [s[|s| - 1]]);
      assert Between(s, before, t, after + [s[|s| - 1]]);
    }
  }

  lemma {:induction false} TrimmedOnlyOneWay(s: string, t: string, before: string, after: string)
    requires s == before + t + after && AllSpace(before) && AllSpace(after)
    requires t != "" ==> !IsSpace(t[0]) && !IsSpace(t[|t| - 1])
    ensures TrimSpace(s) == t
    decreases |s|
  {
    if before != "" {
      assert s[1..] == before[1..] + t + after;
      TrimmedOnlyOneWay(s[1..], t, before[1..], after);
    } else if after != "" {
      var front := after[..|after| - 1];
      assert s[|s| - 1] == after[|after| - 1];
      if t == "" {
        assert s[1..] == "" + t + after[1..];
        TrimmedOnlyOneWay(s[1..], t, "", after[1..]);
      } else {
        assert s[..|s| - 1] == before + t + front;
        TrimmedOnlyOneWay(s[..|s| - 1], t, before, front);
      }
    } else {
      assert s == t;
    }
  }

  /** TrimSpace is the one way to take all spaces off both ends. */
  lemma TrimSpaceIff(s: string, t: string)
    ensures t == TrimSpace(s) <==> Trims(s, t)
  {
    TrimSpaceTrims(s);
    if Trims(s, t) {
      var before, after :| Between(s, before, t, after);
      TrimmedOnlyOneWay(s, t, before, after);
    }
  }

  /** The characters with the property White_Space in the Unicode Character Database. */
  lemma SpacesAre(c: char)
    ensures IsSpace(c) <==> c as int in {
      0x9, 0xA, 0xB, 0xC, 0xD, 0x20, 0x85, 0xA0, 0x1680, 0x2000, 0x2001, 0x2002, 0x2003, 0x2004, 0x2005, 0x2006,
      0x2007, 0x2008, 0x2009, 0x200A, 0x2028, 0x2029, 0x202F, 0x205F, 0x3000}
  {
  }

  function Names(segments: seq<FieldDescriptor>): seq<string> {
    seq(|segments|, i requires 0 <= i < |segments| => segments[i].name)
  }

  /** The segments are the fields `names` resolve to, starting from the message type `root`. */
  predicate Resolves(schema: Schema, root: string, names: seq<string>, segments: seq<FieldDescriptor>) {
    && |segments| == |names|
    && (forall i | 0 <= i < |names| :: segments[i].name == names[i])
    && Chain(schema, root, segments)
  }

  lemma {:induction false} ResolvesOneWay(
      schema: Schema, root: string, names: seq<string>, segments: seq<FieldDescriptor>, others: seq<FieldDescriptor>,
      k: nat)
    requires k <= |names| && Resolves(schema, root, names[..k], segments) && Resolves(schema, root, names, others)
    ensures others[..k] == segments
  {
    if k > 0 {
      assert Resolves(schema, root, names[..k - 1], segments[..k - 1]) by {
        assert names[..k - 1] == names[..k][..k - 1];
      }
      ResolvesOneWay(schema, root, names, segments[..k - 1], others, k - 1);
      assert k > 1 ==> others[k - 2] == others[..k - 1][k - 2] == segments[k - 2];
      assert InSchema(schema, others[k - 1]) && InSchema(schema, segments[k - 1]);
      assert names[..k][k - 1] == names[k - 1];
      assert others[..k] == others[..k - 1] + [others[k - 1]];
    }
  }

  /** No way of reading the names leads to a leaf that takes the default. */
  ghost predicate Unresolvable(schema: Schema, root: string, names: seq<string>, default: Value) {
    forall others: seq<FieldDescriptor> ::
      Resolves(schema, root, names, others) && |others| > 0 ==> !TakesDefault(others[|others| - 1], default)
  }

  /** The message type the next name belongs to. */
  predicate LeadsTo(root: string, segments: seq<FieldDescriptor>, descriptor: string) {
    if segments == [] then descriptor == root
    else SingularMessage(segments[|segments| - 1]) && descriptor == segments[|segments| - 1].message.value
  }

  lemma {:induction false} ResolvesNext(
      schema: Schema, root: string, names: seq<string>, segments: seq<FieldDescriptor>, descriptor: string,
      segment: FieldDescriptor)
    requires |segments| < |names| && Resolves(schema, root, names[..|segments|], segments)
    requires LeadsTo(root, segments, descriptor)
    requires InSchema(schema, segment) && segment.containing == descriptor && segment.name == names[|segments|]
    ensures Resolves(schema, root, names[..|segments| + 1], segments + [segment])
  {
    assert names[..|segments| + 1] == names[..|segments|] + [names[|segments|]];
  }

  /** Every reading of the names takes its next field from the type the segments so far lead to. */
  lemma {:induction false} ReadsOn(
      schema: Schema, root: string, names: seq<string>, segments: seq<FieldDescriptor>, descriptor: string,
      others: seq<FieldDescriptor>)
    requires |segments| < |names| && Resolves(schema, root, names[..|segments|], segments)
    requires LeadsTo(root, segments, descriptor) && Resolves(schema, root, names, others)
    ensures var key := FieldKey(descriptor, names[|segments|]);
      key in schema && schema[key] == others[|segments|] && (|segments| < |names| - 1 ==> SingularMessage(schema[key]))
  {
    var k := |segments|;
    ResolvesOneWay(schema, root, names, segments, others, k);
    assert k > 0 ==> others[k - 1] == others[..k][k - 1];
    assert InSchema(schema, others[k]);
  }

  /** A name the type does not have, or one before the last that is no singular message, ends every reading. */
  lemma {:induction false} NoWayOn(
      schema: Schema, root: string, names: seq<string>, segments: seq<FieldDescriptor>, descriptor: string,
      default: Value)
    requires |segments| < |names| && Resolves(schema, root, names[..|segments|], segments)
    requires LeadsTo(root, segments, descriptor)
    requires var key := FieldKey(descriptor, names[|segments|]);
      key in schema ==> |segments| < |names| - 1 && !SingularMessage(schema[key])
    ensures Unresolvable(schema, root, names, default)
  {
    hide Resolves;
    forall others: seq<FieldDescriptor> | Resolves(schema, root, names, others)
      ensures false
    {
      ReadsOn(schema, root, names, segments, descriptor, others);
    }
  }

  lemma {:induction false} WrongLeaf(
      schema: Schema, root: string, names: seq<string>, segments: seq<FieldDescriptor>, default: Value)
    requires Resolves(schema, root, names, segments) && |names| > 0
    requires !TakesDefault(segments[|segments| - 1], default)
    ensures Unresolvable(schema, root, names, default)
  {
    assert names[..|names|] == names;
    forall others: seq<FieldDescriptor> | Resolves(schema, root, names, others)
      ensures others == segments
    {
      ResolvesOneWay(schema, root, names, segments, others, |names|);
    }
  }

  /** The path can be read as far as `segments`; what comes next, or their last field, is refused for this reason. */
  ghost predicate RefusedAt(
      schema: Schema, root: string, names: seq<string>, segments: seq<FieldDescriptor>, descriptor: string,
      default: Value, error: SettingsError)
  {
    var k := |segments|;
    && k <= |names| && Resolves(schema, root, names[..k], segments) && "" !in names[..k]
    && if k < |names| then
         var key := FieldKey(descriptor, names[k]);
         && LeadsTo(root, segments, descriptor)
         && if names[k] == "" then error == EmptySegment
            else if key !in schema then error == NoSuchField
            else
              && error == NotSingularMessage && k < |names| - 1
              && (schema[key].cardinality != Singular || schema[key].message.None?)
       else
         && k > 0
         && if segments[k - 1].cardinality != Singular then error == UnsupportedLeaf else error == RejectedLeaf
  }

  lemma RefusedHere(
      schema: Schema, root: string, names: seq<string>, segments: seq<FieldDescriptor>, descriptor: string,
      default: Value, error: SettingsError)
    requires RefusedAt(schema, root, names, segments, descriptor, default, error)
    ensures exists read, reached :: RefusedAt(schema, root, names, read, reached, default, error)
  {
  }

  /** A default is taken by a singular leaf with presence, of its kind, that defines its number. */
  lemma UnresolvableMeans(schema: Schema, root: string, names: seq<string>, default: Value)
    requires Unresolvable(schema, root, names, default) && |names| > 0
    ensures forall segments: seq<FieldDescriptor> | Resolves(schema, root, names, segments) ::
      var leaf := segments[|segments| - 1];
      !(leaf.cardinality == Singular && leaf.presence
        && match default
           case StringValue(_) => leaf.kind == StringKind
           case BoolValue(_) => leaf.kind == BoolKind
           case EnumValue(number) => leaf.kind == EnumKind && number in leaf.enumValues
           case Composite(_) => false)
  {
  }

  lemma ResolvedMeans(schema: Schema, root: string, names: seq<string>, segments: seq<FieldDescriptor>)
    requires Resolves(schema, root, names, segments) && |names| > 0
    ensures segments[0].containing == root
    ensures forall i | 0 <= i < |segments| ::
      var key := FieldKey(segments[i].containing, segments[i].name); key in schema && schema[key] == segments[i]
    ensures forall i | 0 <= i < |segments| - 1 ::
      segments[i].cardinality == Singular && segments[i].message == Some(segments[i + 1].containing)
  {
    forall i | 0 <= i < |segments|
      ensures InSchema(schema, segments[i])
    {
    }
  }

  /**
   settings/field.go:299-358. A field is built exactly for the paths that resolve, name by name, to a
   chain of singular messages ending in a singular scalar with presence that takes the default.
   */
  method NewField(schema: Schema, prototype: Option<string>, path: string, default: Value)
    returns (r: Result<Field, SettingsError>)
    requires WellFormedSchema(schema)
    ensures r.Ok? ==>
      && prototype == Some(r.value.root) && r.value.path == TrimSpace(path) && r.value.default == default
      && r.value.Legal(schema) && Resolves(schema, r.value.root, Split(TrimSpace(path)), r.value.segments)
      && Join(Names(r.value.segments)) == r.value.path && Trims(path, r.value.path)
      && "" !in Split(TrimSpace(path)) && TrimSpace(path) != ""
    ensures r.Ok? ==>
      var segments := r.value.segments; var n := |segments| - 1; var leaf := segments[n];
      && (forall i | 0 <= i <= n ::
            var key := FieldKey(segments[i].containing, segments[i].name); key in schema && schema[key] == segments[i])
      && segments[0].containing == prototype.value
      && (forall i | 0 <= i < n ::
            segments[i].cardinality == Singular && segments[i].message == Some(segments[i + 1].containing))
      && leaf.cardinality == Singular && leaf.presence && !default.Composite?
      && (default.StringValue? ==> leaf.kind == StringKind)
      && (default.BoolValue? ==> leaf.kind == BoolKind)
      && (default.EnumValue? ==> leaf.kind == EnumKind && default.number in leaf.enumValues)
    ensures r.Err? && prototype.Some? && TrimSpace(path) != "" && "" !in Split(TrimSpace(path)) ==>
      forall segments: seq<FieldDescriptor> | Resolves(schema, prototype.value, Split(TrimSpace(path)), segments) ::
        var leaf := segments[|segments| - 1];
        !(leaf.cardinality == Singular && leaf.presence
          && match default
             case StringValue(_) => leaf.kind == StringKind
             case BoolValue(_) => leaf.kind == BoolKind
             case EnumValue(number) => leaf.kind == EnumKind && number in leaf.enumValues
             case Composite(_) => false)
    ensures r == Err(NilPrototype) <==> prototype.None?
    ensures r == Err(EmptyPath) <==> prototype.Some? && TrimSpace(path) == ""
    ensures r.Err? && r.error != NilPrototype && r.error != EmptyPath ==>
      exists segments, descriptor ::
        RefusedAt(schema, prototype.value, Split(TrimSpace(path)), segments, descriptor, default, r.error)
  {
    if prototype.None? {
      return Err(NilPrototype);
    }
    var trimmed := TrimSpace(path);
    if trimmed == "" {
      return Err(EmptyPath);
    }
    TrimSpaceTrims(path);
    hide Unresolvable, Chain, TrimSpace, Split, Trims;
    var names := Split(trimmed);
    var root := prototype.value;
    var descriptor := root;
    var segments: seq<FieldDescriptor> := [];
    assert names[..0] == [] && Resolves(schema, root, [], []) by { ResolvesNothing(schema, root); }
    for index := 0 to |names|
      invariant |segments| == index && Resolves(schema, root, names[..index], segments)
      invariant "" !in names[..index]
      invariant index < |names| ==> LeadsTo(root, segments, descriptor)
    {
      var name := names[index];
      if name == "" {
        RefusedHere(schema, root, names, segments, descriptor, default, EmptySegment);
        return Err(EmptySegment);
      }
      var key := FieldKey(descriptor, name);
      if key !in schema {
        NoWayOn(schema, root, names, segments, descriptor, default);
        RefusedHere(schema, root, names, segments, descriptor, default, NoSuchField);
        UnresolvableMeans(schema, root, names, default);
        return Err(NoSuchField);
      }
      var segment := schema[key];
      if index < |names| - 1 && (segment.cardinality != Singular || segment.message.None?) {
        NoWayOn(schema, root, names, segments, descriptor, default);
        RefusedHere(schema, root, names, segments, descriptor, default, NotSingularMessage);
        UnresolvableMeans(schema, root, names, default);
        return Err(NotSingularMessage);
      }
      ResolvesNext(schema, root, names, segments, descriptor, segment);
      segments := segments + [segment];
      if index < |names| - 1 {
        descriptor := segment.message.value;
      }
    }
    assert names[..|names|] == names;
    var leaf := segments[|segments| - 1];
    if leaf.cardinality != Singular {
      WrongLeaf(schema, root, names, segments, default);
      RefusedHere(schema, root, names, segments, descriptor, default, UnsupportedLeaf);
      UnresolvableMeans(schema, root, names, default);
      return Err(UnsupportedLeaf);
    }
    if !LeafAccepts(leaf, default) {
      WrongLeaf(schema, root, names, segments, default);
      RefusedHere(schema, root, names, segments, descriptor, default, RejectedLeaf);
      UnresolvableMeans(schema, root, names, default);
      return Err(RejectedLeaf);
    }
    assert Names(segments) == names;
    JoinSplit(trimmed);
    ResolvedMeans(schema, root, names, segments);
    return Ok(Field(root, trimmed, segments, default));
  }

  lemma {:induction false} ResolvesNothing(schema: Schema, root: string)
    ensures Resolves(schema, root, [], [])
  {
  }
}
