/**
 Mutable settings messages and the reflective accesses of settings/field.go.

 A message refers to its present sub-messages. The root of a document also keeps, as ghost state, the
 map from paths to the messages reachable from it: that map is what makes the document a tree.
 */
module SettingsMessage {
  import opened Prelude
  import opened SettingsTree

  /** A field of a message type, by the type's full name and the field's name. */
  datatype FieldKey = FieldKey(message: string, field: string)

  type Schema = map<FieldKey, FieldDescriptor>

  predicate SingularMessage(field: FieldDescriptor) {
    field.cardinality == Singular && field.message.Some?
  }

  predicate InSchema(schema: Schema, field: FieldDescriptor) {
    var key := FieldKey(field.containing, field.name);
    key in schema && schema[key] == field
  }

  /** Lists, maps and the kinds no typed field uses hold composite values. */
  predicate ValueFits(field: FieldDescriptor, value: Value) {
    if field.cardinality != Singular then value.Composite?
    else match field.kind
      case StringKind => value.StringValue?
      case BoolKind => value.BoolValue?
      case EnumKind => value.EnumValue?
      case MessageKind => false
      case OtherKind => value.Composite?
  }

  predicate WellFormedSchema(schema: Schema) {
    forall key | key in schema ::
      && schema[key].containing == key.message
      && schema[key].name == key.field
      && key.field !in schema[key].siblings
      && (schema[key].kind == MessageKind <==> schema[key].message.Some?)
  }

  /** What one message of a document holds. */
  datatype Content = Content(
    self: Message,
    descriptor: string,
    scalars: map<string, Value>,
    subs: map<string, Message>,
    unknown: seq<byte>)

  /** The content of every message of a document, by path. */
  type Layout = map<Path, Content>

  ghost function TreeOf(l: Layout): Tree {
    map p | p in l :: Node(l[p].scalars, l[p].unknown)
  }

  ghost function Members(l: Layout): set<Message> {
    set p | p in l :: l[p].self
  }

  /** A message's own fields have the types its descriptor gives them. */
  ghost predicate Typed(schema: Schema, c: Content) {
    && (forall f | f in c.scalars ::
          && FieldKey(c.descriptor, f) in schema
          && ValueFits(schema[FieldKey(c.descriptor, f)], c.scalars[f]))
    && (forall f | f in c.subs ::
          && FieldKey(c.descriptor, f) in schema
          && SingularMessage(schema[FieldKey(c.descriptor, f)]))
  }

  /** Every message but the root is held by the one at its parent path, with the type declared there. */
  ghost predicate Held(schema: Schema, l: Layout) {
    forall p {:trigger p.parent} | p in l && p.Under? ::
      && p.parent in l
      && p.name in l[p.parent].subs
      && l[p.parent].subs[p.name] == l[p].self
      && Declares(schema, l[p.parent].descriptor, p.name, l[p].descriptor)
  }

  predicate Declares(schema: Schema, descriptor: string, f: string, message: string) {
    FieldKey(descriptor, f) in schema && schema[FieldKey(descriptor, f)].message == Some(message)
  }

  /** Every sub-message is laid out at its own path. */
  ghost predicate Listed(l: Layout) {
    forall p, f | p in l && f in l[p].subs :: Under(p, f) in l
  }

  ghost predicate Distinct(l: Layout) {
    forall p, q | p in l && q in l && l[p].self == l[q].self :: p == q
  }

  ghost predicate AllTyped(schema: Schema, l: Layout) {
    forall p | p in l :: Typed(schema, l[p])
  }

  /** The messages form a tree, and one that has the types its schema declares. */
  ghost predicate Linked(schema: Schema, l: Layout) {
    Root in l && Held(schema, l) && Listed(l) && Distinct(l)
  }

  ghost predicate ValidLayout(schema: Schema, l: Layout) {
    WellFormedSchema(schema) && Linked(schema, l) && AllTyped(schema, l)
  }

  lemma {:induction false} ValidTree(schema: Schema, l: Layout)
    requires ValidLayout(schema, l)
    ensures TreeOf(l).Keys == l.Keys
    ensures WellFormed(TreeOf(l))
    ensures forall p, f | p in l :: f in l[p].subs <==> Under(p, f) in l
  {
  }

  /** Where a layout has the sub-message under a field, and of what type it is. */
  lemma {:induction false} LayoutHas(schema: Schema, l: Layout, p: Path, field: FieldDescriptor)
    requires ValidLayout(schema, l) && p in l
    requires InSchema(schema, field) && field.containing == l[p].descriptor && SingularMessage(field)
    ensures field.name !in l[p].scalars && (field.name in l[p].subs <==> Under(p, field.name) in l)
    ensures field.name in l[p].subs ==>
      && l[p].subs[field.name] == l[Under(p, field.name)].self
      && l[Under(p, field.name)].descriptor == field.message.value
  {
    hide Held, Listed, Distinct, AllTyped;
    ListedAt(l, p, field.name);
    TypedAt(schema, l, p);
    if Under(p, field.name) in l {
      HeldAt(schema, l, Under(p, field.name));
    }
  }

  lemma HeldAt(schema: Schema, l: Layout, q: Path)
    requires Held(schema, l) && q in l && q.Under?
    ensures q.parent in l && q.name in l[q.parent].subs && l[q.parent].subs[q.name] == l[q].self
    ensures Declares(schema, l[q.parent].descriptor, q.name, l[q].descriptor)
  {
  }

  lemma ListedAt(l: Layout, p: Path, f: string)
    requires Listed(l)
    ensures p in l && f in l[p].subs ==> Under(p, f) in l
  {
  }

  lemma TypedAt(schema: Schema, l: Layout, p: Path)
    requires AllTyped(schema, l) && p in l
    ensures Typed(schema, l[p])
  {
  }

  ghost function Detach(l: Layout, p: Path, names: set<string>): Layout {
    map r | r in l && !Below(r, p, names) ::
      if r == p then l[r].(scalars := l[r].scalars - names, subs := l[r].subs - names) else l[r]
  }

  lemma {:induction false} DetachLinked(schema: Schema, l: Layout, p: Path, names: set<string>)
    requires Linked(schema, l)
    ensures Linked(schema, Detach(l, p, names))
  {
  }

  lemma {:induction false} DetachTyped(schema: Schema, l: Layout, p: Path, names: set<string>)
    requires AllTyped(schema, l)
    ensures AllTyped(schema, Detach(l, p, names))
  {
  }

  lemma {:induction false} DetachTree(l: Layout, p: Path, names: set<string>)
    ensures TreeOf(Detach(l, p, names)) == ClearFields(TreeOf(l), p, names)
  {
  }

  /** Hangs a fresh empty message under the field `field` of the message at p. */
  /** What detaching leaves of a layout: one content changed, the messages below it gone. */
  lemma {:induction false} DetachLayout(schema: Schema, l: Layout, p: Path, names: set<string>)
    requires ValidLayout(schema, l) && p in l
    ensures var d := Detach(l, p, names);
      && ValidLayout(schema, d) && p in d && d.Keys <= l.Keys && d[Root].self == l[Root].self
      && d[p] == l[p].(scalars := l[p].scalars - names, subs := l[p].subs - names)
      && (forall q | q in d && q != p :: d[q] == l[q] && d[q].self != l[p].self)
      && (forall q | q in l && Depth(q) <= Depth(p) :: q in d)
      && Members(d) <= Members(l)
      && TreeOf(d) == ClearFields(TreeOf(l), p, names)
  {
    hide WellFormedSchema, Held, Listed, AllTyped, TreeOf, ClearFields, Below;
    forall q | q in l {
      BelowIsDeeper(q, p, names);
    }
    DetachLinked(schema, l, p, names);
    DetachTyped(schema, l, p, names);
    DetachTree(l, p, names);
  }

  ghost function Attach(l: Layout, p: Path, field: FieldDescriptor, child: Message): Layout
    requires p in l && field.message.Some?
  {
    l[p := l[p].(subs := l[p].subs[field.name := child])]
     [Under(p, field.name) := Content(child, field.message.value, map[], map[], [])]
  }

  lemma {:induction false} AttachHeld(schema: Schema, l: Layout, p: Path, field: FieldDescriptor, child: Message)
    requires Held(schema, l) && p in l && Under(p, field.name) !in l
    requires InSchema(schema, field) && field.containing == l[p].descriptor && SingularMessage(field)
    ensures Held(schema, Attach(l, p, field, child))
  {
  }

  lemma {:induction false} AttachListed(l: Layout, p: Path, field: FieldDescriptor, child: Message)
    requires Listed(l) && p in l && Under(p, field.name) !in l && field.message.Some?
    ensures Listed(Attach(l, p, field, child))
  {
  }

  lemma {:induction false} AttachDistinct(l: Layout, p: Path, field: FieldDescriptor, child: Message)
    requires Root in l && Distinct(l) && p in l && Under(p, field.name) !in l && field.message.Some?
    requires forall q | q in l :: l[q].self != child
    ensures Root in Attach(l, p, field, child) && Distinct(Attach(l, p, field, child))
  {
  }

  lemma {:induction false} AttachLinked(schema: Schema, l: Layout, p: Path, field: FieldDescriptor, child: Message)
    requires Linked(schema, l) && p in l && Under(p, field.name) !in l
    requires InSchema(schema, field) && field.containing == l[p].descriptor && SingularMessage(field)
    requires forall q | q in l :: l[q].self != child
    ensures Linked(schema, Attach(l, p, field, child))
  {
    hide Held, Listed, Distinct, Attach;
    AttachHeld(schema, l, p, field, child);
    AttachListed(l, p, field, child);
    AttachDistinct(l, p, field, child);
  }

  lemma {:induction false} AttachTyped(schema: Schema, l: Layout, p: Path, field: FieldDescriptor, child: Message)
    requires AllTyped(schema, l) && p in l
    requires InSchema(schema, field) && field.containing == l[p].descriptor && SingularMessage(field)
    ensures AllTyped(schema, Attach(l, p, field, child))
  {
    var c := l[p].(subs := l[p].subs[field.name := child]);
    assert Typed(schema, c) by {
      assert Typed(schema, l[p]);
    }
  }

  lemma {:induction false} AttachTree(l: Layout, p: Path, field: FieldDescriptor, child: Message)
    requires p in l && field.message.Some?
    ensures TreeOf(Attach(l, p, field, child)) == TreeOf(l)[Under(p, field.name) := EMPTY_NODE]
  {
  }

  lemma {:induction false} AttachLayout(schema: Schema, l: Layout, p: Path, field: FieldDescriptor, child: Message)
    requires ValidLayout(schema, l) && p in l && Under(p, field.name) !in l && child !in Members(l)
    requires InSchema(schema, field) && field.containing == l[p].descriptor && SingularMessage(field)
    ensures var a := Attach(l, p, field, child); var c := Under(p, field.name);
      && ValidLayout(schema, a) && a.Keys == l.Keys + {c} && a[Root].self == l[Root].self
      && a[p] == l[p].(subs := l[p].subs[field.name := child])
      && a[c] == Content(child, field.message.value, map[], map[], [])
      && (forall q | q in l && q != p :: a[q] == l[q] && l[q].self != l[p].self)
      && (forall q | q in l :: a[q].self == l[q].self && l[q].self != child)
      && TreeOf(a) == TreeOf(l)[c := EMPTY_NODE]
  {
    hide WellFormedSchema, Held, Listed, AllTyped, TreeOf, Typed, InSchema;
    assert forall q | q in l :: l[q].self in Members(l);
    AttachLinked(schema, l, p, field, child);
    AttachTyped(schema, l, p, field, child);
    AttachTree(l, p, field, child);
  }

  ghost function Store(l: Layout, p: Path, name: string, value: Value): Layout
    requires p in l
  {
    l[p := l[p].(scalars := l[p].scalars[name := value])]
  }

  lemma {:induction false} StoreLinked(schema: Schema, l: Layout, p: Path, name: string, value: Value)
    requires Linked(schema, l) && p in l
    ensures Linked(schema, Store(l, p, name, value))
  {
  }

  lemma {:induction false} StoreTyped(schema: Schema, l: Layout, p: Path, field: FieldDescriptor, value: Value)
    requires AllTyped(schema, l) && p in l
    requires InSchema(schema, field) && field.containing == l[p].descriptor && ValueFits(field, value)
    ensures AllTyped(schema, Store(l, p, field.name, value))
  {
    var c := l[p].(scalars := l[p].scalars[field.name := value]);
    assert Typed(schema, c) by {
      assert Typed(schema, l[p]);
    }
  }

  lemma {:induction false} StoreTree(l: Layout, p: Path, name: string, value: Value)
    requires p in l
    ensures TreeOf(Store(l, p, name, value)) == PutScalar(TreeOf(l), p, name, value)
  {
  }

  lemma {:induction false} StoreMembers(l: Layout, p: Path, name: string, value: Value)
    requires p in l
    ensures Members(Store(l, p, name, value)) == Members(l)
  {
    var s := Store(l, p, name, value);
    assert forall q | q in l :: q in s && s[q].self == l[q].self;
  }

  class Message {
    const descriptor: string
    var scalars: map<string, Value>
    var subs: map<string, Message>
    var unknown: seq<byte>
    /** On the root of a document: the content of every message it reaches. */
    ghost var Document: Layout

    ghost predicate Holds(c: Content)
      reads this
    {
      this == c.self && descriptor == c.descriptor && scalars == c.scalars && subs == c.subs && unknown == c.unknown
    }

    /** The layout is what the heap holds. */
    ghost predicate Synced()
      reads this, set p | p in Document :: Document[p].self
    {
      forall p | p in Document :: Document[p].self.Holds(Document[p])
    }

    ghost predicate Valid(schema: Schema)
      reads this, set p | p in Document :: Document[p].self
    {
      ValidLayout(schema, Document) && Document[Root].self == this && Synced()
    }

    /** The value of the document rooted here. */
    ghost function Snapshot(): Tree
      reads this
    {
      TreeOf(Document)
    }

    /** The messages of the document rooted here. */
    ghost function Repr(): set<Message>
      reads this
    {
      Members(Document)
    }

    constructor (ghost schema: Schema, descriptor: string)
      requires WellFormedSchema(schema)
      ensures Valid(schema) && Snapshot() == EMPTY_TREE && this.descriptor == descriptor
      ensures Repr() == {this} && scalars == map[] && subs == map[] && unknown == []
    {
      this.descriptor := descriptor;
      scalars, subs, unknown := map[], map[], [];
      new;
      Document := map[Root := Content(this, descriptor, map[], map[], [])];
    }

    predicate Has(field: FieldDescriptor)
      requires field.containing == descriptor
      reads this
    {
      field.name in scalars || field.name in subs
    }

    function Get(field: FieldDescriptor): Message
      requires field.containing == descriptor && field.name in subs
      reads this
    {
      subs[field.name]
    }

    /** settings/field.go:370-380: no unknown bytes and no populated field. */
    predicate IsEmpty()
      reads this
    {
      |unknown| == 0 && scalars == map[] && subs == map[]
    }

    lemma SelfListed(schema: Schema)
      requires Valid(schema)
      ensures this in Repr() && Document[Root].self == this && Document[Root].descriptor == descriptor
    {
    }

    /** A message field is present exactly when the document has a message there. */
    lemma {:induction false} HasAt(schema: Schema, root: Message, p: Path, field: FieldDescriptor)
      requires root.Valid(schema) && p in root.Document && root.Document[p].self == this
      requires InSchema(schema, field) && field.containing == descriptor && SingularMessage(field)
      ensures field.name !in scalars
      ensures Has(field) <==> Under(p, field.name) in root.Document
      ensures Has(field) ==>
        && subs[field.name] == root.Document[Under(p, field.name)].self
        && subs[field.name].descriptor == field.message.value
    {
      hide ValidLayout, Declares, Typed;
      LayoutHas(schema, root.Document, p, field);
    }

    /** A scalar field is present exactly when the document's value has it. */
    lemma {:induction false} ScalarAt(schema: Schema, root: Message, p: Path, field: FieldDescriptor)
      requires root.Valid(schema) && p in root.Document && root.Document[p].self == this
      requires InSchema(schema, field) && field.containing == descriptor && field.kind != MessageKind
      ensures p in root.Snapshot() && root.Snapshot()[p].scalars == scalars
      ensures Has(field) <==> field.name in scalars
    {
      assert Typed(schema, root.Document[p]);
    }

    lemma {:induction false} IsEmptyAt(schema: Schema, root: Message, p: Path)
      requires root.Valid(schema) && p in root.Document && root.Document[p].self == this
      ensures IsEmpty() <==> EmptyAt(root.Snapshot(), p)
    {
      ValidTree(schema, root.Document);
      if subs != map[] {
        var f :| f in subs;
        assert Under(p, f).parent == p && Under(p, f) in root.Snapshot();
      }
    }

    /** Drops the named fields of this message from the heap and from the layout of the document rooted at `root`. */
    method Drop(ghost schema: Schema, ghost root: Message, ghost p: Path, names: set<string>)
      requires root.Valid(schema) && p in root.Document && root.Document[p].self == this
      modifies this`scalars, this`subs, root`Document
      ensures root.Valid(schema) && root.Document == Detach(old(root.Document), p, names)
    {
      hide ValidLayout, TreeOf, ClearFields, Detach, Members, Depth;
      DetachLayout(schema, root.Document, p, names);
      scalars := scalars - names;
      subs := subs - names;
      root.Document := Detach(root.Document, p, names);
      forall q | q in root.Document
        ensures root.Document[q].self.Holds(root.Document[q])
      {
        assert old(root.Document[q].self.Holds(root.Document[q]));
      }
    }

    /** Removes the named fields of this message, which the document rooted at `root` holds at p. */
    method Remove(ghost schema: Schema, ghost root: Message, ghost p: Path, names: set<string>)
      requires root.Valid(schema) && p in root.Document && root.Document[p].self == this
      modifies this`scalars, this`subs, root`Document
      ensures root.Valid(schema)
      ensures p in root.Document && root.Document.Keys <= old(root.Document).Keys
      ensures forall q | q in root.Document :: root.Document[q].self == old(root.Document)[q].self
      ensures root.Repr() <= old(root.Repr())
      ensures forall q | q in old(root.Document) && Depth(q) <= Depth(p) :: q in root.Document
      ensures root.Snapshot() == ClearFields(old(root.Snapshot()), p, names)
    {
      hide ValidLayout, TreeOf, ClearFields, Detach, Members, Depth, Message.Synced;
      DetachLayout(schema, root.Document, p, names);
      Drop(schema, root, p, names);
    }

    /** Hangs a fresh empty message under an absent field. */
    method Hang(ghost schema: Schema, ghost root: Message, ghost p: Path, field: FieldDescriptor, child: Message)
      requires root.Valid(schema) && p in root.Document && root.Document[p].self == this
      requires InSchema(schema, field) && field.containing == descriptor && SingularMessage(field)
      requires Under(p, field.name) !in root.Document
      requires child.Holds(Content(child, field.message.value, map[], map[], []))
      requires child !in root.Repr()
      modifies this`subs, root`Document
      ensures root.Valid(schema)
      ensures root.Document == Attach(old(root.Document), p, field, child)
      ensures Under(p, field.name) in root.Document && root.Document[Under(p, field.name)].self == child
      ensures forall q | q in root.Document && q != Under(p, field.name) ::
        q in old(root.Document) && root.Document[q].self == old(root.Document)[q].self
      ensures old(root.Document).Keys <= root.Document.Keys
      ensures root.Snapshot() == old(root.Snapshot())[Under(p, field.name) := EMPTY_NODE]
    {
      hide ValidLayout, TreeOf, InSchema, Attach, Members;
      AttachLayout(schema, root.Document, p, field, child);
      subs := subs[field.name := child];
      root.Document := Attach(root.Document, p, field, child);
      forall q | q in root.Document
        ensures root.Document[q].self.Holds(root.Document[q])
      {
        assert q in old(root.Document) ==> old(root.Document[q].self.Holds(root.Document[q]));
      }
    }

    /** Creates the absent sub-message `field`, clearing the siblings of a oneof member. */
    method Create(ghost schema: Schema, ghost root: Message, ghost p: Path, field: FieldDescriptor)
      returns (child: Message)
      requires root.Valid(schema) && p in root.Document && root.Document[p].self == this
      requires InSchema(schema, field) && field.containing == descriptor && SingularMessage(field)
      requires Under(p, field.name) !in root.Document
      modifies this`scalars, this`subs, root`Document
      ensures root.Valid(schema)
      ensures root.Snapshot() ==
        ClearFields(old(root.Snapshot()), p, field.siblings)[Under(p, field.name) := EMPTY_NODE]
      ensures fresh(child) && child.descriptor == field.message.value
      ensures Under(p, field.name) in root.Document && root.Document[Under(p, field.name)].self == child
      ensures forall q | q in root.Document && q != Under(p, field.name) ::
        q in old(root.Document) && root.Document[q].self == old(root.Document)[q].self
      ensures forall q | q in old(root.Document) && Depth(q) <= Depth(p) :: q in root.Document
    {
      hide WellFormedSchema, Linked, AllTyped, TreeOf, ClearFields, InSchema, Attach, Depth;
      Remove(schema, root, p, field.siblings);
      child := new Message(schema, field.message.value);
      Hang(schema, root, p, field, child);
    }

    /** The sub-message under `field`, created if absent. */
    method Mutable(ghost schema: Schema, ghost root: Message, ghost p: Path, field: FieldDescriptor)
      returns (child: Message)
      requires root.Valid(schema) && p in root.Document && root.Document[p].self == this
      requires InSchema(schema, field) && field.containing == descriptor && SingularMessage(field)
      modifies this`scalars, this`subs, root`Document
      ensures root.Valid(schema)
      ensures root.Snapshot() == Materialize(old(root.Snapshot()), p, field)
      ensures Under(p, field.name) in root.Document && root.Document[Under(p, field.name)].self == child
      ensures child.descriptor == field.message.value
      ensures old(Has(field)) <==> Under(p, field.name) in old(root.Document)
      ensures old(Has(field)) ==> root.Document == old(root.Document)
      ensures !old(Has(field)) ==> fresh(child)
      ensures forall q | q in root.Document && q != Under(p, field.name) ::
        q in old(root.Document) && root.Document[q].self == old(root.Document)[q].self
      ensures forall q | q in old(root.Document) && Depth(q) <= Depth(p) :: q in root.Document
    {
      HasAt(schema, root, p, field);
      if Has(field) {
        child := Get(field);
      } else {
        child := Create(schema, root, p, field);
      }
    }

    /** Stores a scalar that makes its field present, leaving every other field alone. */
    method Write(ghost schema: Schema, ghost root: Message, ghost p: Path, field: FieldDescriptor, value: Value)
      requires root.Valid(schema) && p in root.Document && root.Document[p].self == this
      requires InSchema(schema, field) && field.containing == descriptor && ValueFits(field, value)
      modifies this`scalars, root`Document
      ensures root.Valid(schema)
      ensures root.Snapshot() == PutScalar(old(root.Snapshot()), p, field.name, value)
      ensures root.Repr() == old(root.Repr())
      ensures p in root.Document && root.Document[p].self == this
    {
      hide WellFormedSchema, Held, Listed, AllTyped, TreeOf, Typed, InSchema, ValueFits, Members;
      StoreLinked(schema, root.Document, p, field.name, value);
      StoreTyped(schema, root.Document, p, field, value);
      StoreTree(root.Document, p, field.name, value);
      StoreMembers(root.Document, p, field.name, value);
      scalars := scalars[field.name := value];
      root.Document := Store(root.Document, p, field.name, value);
    }

    /** protoreflect's Set on a scalar: without presence, storing the zero value removes the field. */
    method Assign(ghost schema: Schema, ghost root: Message, ghost p: Path, field: FieldDescriptor, value: Value)
      requires root.Valid(schema) && p in root.Document && root.Document[p].self == this
      requires InSchema(schema, field) && field.containing == descriptor && ValueFits(field, value)
      modifies this`scalars, this`subs, root`Document
      ensures root.Valid(schema)
      ensures p in old(root.Snapshot()) && root.Snapshot() == Stored(old(root.Snapshot()), p, field, value)
      ensures root.Repr() <= old(root.Repr())
    {
      ValidTree(schema, root.Document);
      hide ValidLayout, TreeOf, ClearFields, Members, ValueFits, IsZero;
      if field.presence || !IsZero(value) {
        Write(schema, root, p, field, value);
      } else {
        Remove(schema, root, p, {field.name});
      }
    }

    /** Stores a scalar; storing a oneof member clears its siblings. */
    method Put(ghost schema: Schema, ghost root: Message, ghost p: Path, field: FieldDescriptor, value: Value)
      requires root.Valid(schema) && p in root.Document && root.Document[p].self == this
      requires InSchema(schema, field) && field.containing == descriptor && ValueFits(field, value)
      requires Populates(field, value)
      modifies this`scalars, this`subs, root`Document
      ensures root.Valid(schema)
      ensures root.Snapshot() == PutLeaf(old(root.Snapshot()), p, field, value)
      ensures root.Repr() <= old(root.Repr())
    {
      NotBelow(p, p, field.siblings);
      hide ValidLayout, TreeOf, ClearFields;
      Remove(schema, root, p, field.siblings);
      Assign(schema, root, p, field, value);
    }
  }

  /** Whatever is stored in a field is found again exactly when the field has presence. */
  lemma {:induction false} EveryValueIsFoundIff(field: FieldDescriptor)
    requires field.cardinality == Singular
    requires field.kind == StringKind || field.kind == BoolKind || field.kind == EnumKind
    ensures (forall t: Tree, p: Path, value: Value | p in t && ValueFits(field, value) ::
               var u := Stored(t, p, field, value);
               p in u && field.name in u[p].scalars && u[p].scalars[field.name] == value)
      <==> field.presence
  {
    if !field.presence {
      var zero := if field.kind == StringKind then StringValue("")
                  else if field.kind == BoolKind then BoolValue(false) else EnumValue(0);
      assert ValueFits(field, zero) && Root in EMPTY_TREE;
      var u := Stored(EMPTY_TREE, Root, field, zero);
      assert Root in u ==> field.name !in u[Root].scalars;
    }
  }
}
