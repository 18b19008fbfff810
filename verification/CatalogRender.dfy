/** Rendering the settings catalogs (settings/catalog/render.go) and what can be read back from them. */
module CatalogRender {
  import opened Prelude
  import opened CatalogText
  import opened CatalogValidate

  // ---- The Go and TypeScript catalogs ----

  /** The fixed text of a catalog and of one entry in it. */
  datatype Layout = Layout(header: string, open: string, name: string, number: string, message: string, close: string,
                           footer: string)

  const GO: Layout := Layout(
    "// Code generated by module-compose. DO NOT EDIT.\npackage settingscatalog\n\ntype Field struct {\n" +
    "\tNamespace string\n\tName string\n\tNumber int\n\tMessage string\n}\n\nvar fields = [...]Field{\n",
    "\t{Namespace: ", ", Name: ", ", Number: ", ", Message: ", "},\n",
    "}\n" + "\nfunc Fields() []Field {\n\treturn append([]Field(nil), fields[:]...)\n}\n")

  const TYPESCRIPT: Layout := Layout(
    "// Code generated by module-compose. DO NOT EDIT.\nexport const SETTINGS_FIELDS = Object.freeze([\n",
    "\t{ namespace: ", ", name: ", ", number: ", ", message: ", " },\n",
    "] as const);\n")

  function Entry(l: Layout, c: Contribution, isPrint: char -> bool): Text {
    Chars(l.open) + Quote(c.namespace, isPrint) + Chars(l.name) + Quote(c.fieldName, isPrint)
    + Chars(l.number) + Number(c.fieldNumber) + Chars(l.message) + Quote(c.message, isPrint) + Chars(l.close)
  }

  /** The entries of `cs`, then the footer. */
  function Entries(l: Layout, cs: seq<Contribution>, isPrint: char -> bool): Text {
    if cs == [] then Chars(l.footer) else Entry(l, cs[0], isPrint) + Entries(l, cs[1..], isPrint)
  }

  function Catalog(l: Layout, cs: seq<Contribution>, isPrint: char -> bool): Text {
    Chars(l.header) + Entries(l, cs, isPrint)
  }

  /** settings/catalog/render.go:66-74. */
  method RenderGo(contributions: seq<Contribution>, isPrint: char -> bool) returns (body: Text)
    ensures body == Catalog(GO, contributions, isPrint)
  {
    hide Chars, Quote, Number;
    body := Chars(
      "// Code generated by module-compose. DO NOT EDIT.\npackage settingscatalog\n\ntype Field struct {\n"
      + "\tNamespace string\n\tName string\n\tNumber int\n\tMessage string\n}\n\nvar fields = [...]Field{\n");
    for i := 0 to |contributions|
      invariant body + Entries(GO, contributions[i..], isPrint) == Catalog(GO, contributions, isPrint)
    {
      assert contributions[i..][1..] == contributions[i + 1..];
      var c := contributions[i];
      var entry :=
        Chars("\t{Namespace: ") + Quote(c.namespace, isPrint) + Chars(", Name: ") + Quote(c.fieldName, isPrint)
        + Chars(", Number: ") + Number(c.fieldNumber) + Chars(", Message: ") + Quote(c.message, isPrint)
        + Chars("},\n");
      Associate(body, entry, Entries(GO, contributions[i + 1..], isPrint));
      assert entry == Entry(GO, c, isPrint);
      body := body + entry;
    }
    body := body + Chars("}\n" + "\nfunc Fields() []Field {\n\treturn append([]Field(nil), fields[:]...)\n}\n");
  }

  /** settings/catalog/render.go:78-86. */
  method RenderTypeScript(contributions: seq<Contribution>, isPrint: char -> bool) returns (body: Text)
    ensures body == Catalog(TYPESCRIPT, contributions, isPrint)
  {
    hide Chars, Quote, Number;
    body := Chars(
      "// Code generated by module-compose. DO NOT EDIT.\nexport const SETTINGS_FIELDS = Object.freeze([\n");
    for i := 0 to |contributions|
      invariant body + Entries(TYPESCRIPT, contributions[i..], isPrint) == Catalog(TYPESCRIPT, contributions, isPrint)
    {
      assert contributions[i..][1..] == contributions[i + 1..];
      var c := contributions[i];
      var entry :=
        Chars("\t{ namespace: ") + Quote(c.namespace, isPrint) + Chars(", name: ") + Quote(c.fieldName, isPrint)
        + Chars(", number: ") + Number(c.fieldNumber) + Chars(", message: ") + Quote(c.message, isPrint)
        + Chars(" },\n");
      Associate(body, entry, Entries(TYPESCRIPT, contributions[i + 1..], isPrint));
      assert entry == Entry(TYPESCRIPT, c, isPrint);
      body := body + entry;
    }
    body := body + Chars("] as const);\n");
  }

  /** Entries cannot run into the footer, nor a number into the text after it. */
  predicate Delimited(l: Layout) {
    && l.open != "" && l.footer != "" && l.open[0] != l.footer[0]
    && l.message != "" && !NumberChar(l.message[0])
  }

  predicate SameEntry(c: Contribution, d: Contribution) {
    c.namespace == d.namespace && c.fieldName == d.fieldName && c.fieldNumber == d.fieldNumber && c.message == d.message
  }

  lemma EntryParts(l: Layout, c: Contribution, isPrint: char -> bool, rest: Text)
    ensures Entry(l, c, isPrint) + rest
         == Chars(l.open) + (Quote(c.namespace, isPrint) + (Chars(l.name) + (Quote(c.fieldName, isPrint)
            + (Chars(l.number) + (Number(c.fieldNumber) + (Chars(l.message)
            + (Quote(c.message, isPrint) + (Chars(l.close) + rest))))))))
  {
    hide Quote, Number, Chars;
  }

  lemma EntryUnique(l: Layout, c: Contribution, d: Contribution, isPrint: char -> bool, x: Text, y: Text)
    requires Delimited(l) && Entry(l, c, isPrint) + x == Entry(l, d, isPrint) + y
    ensures SameEntry(c, d) && x == y
  {
    hide Quote, Number, Entry;
    EntryParts(l, c, isPrint, x);
    EntryParts(l, d, isPrint, y);
    var x1, y1 := Chars(l.close) + x, Chars(l.close) + y;
    var x2 := Chars(l.message) + (Quote(c.message, isPrint) + x1);
    var y2 := Chars(l.message) + (Quote(d.message, isPrint) + y1);
    var x3, y3 := Chars(l.number) + (Number(c.fieldNumber) + x2), Chars(l.number) + (Number(d.fieldNumber) + y2);
    var x4 := Chars(l.name) + (Quote(c.fieldName, isPrint) + x3);
    var y4 := Chars(l.name) + (Quote(d.fieldName, isPrint) + y3);
    Peel(Chars(l.open), Quote(c.namespace, isPrint) + x4, Quote(d.namespace, isPrint) + y4);
    QuoteUnique(c.namespace, d.namespace, isPrint, x4, y4);
    Peel(Chars(l.name), Quote(c.fieldName, isPrint) + x3, Quote(d.fieldName, isPrint) + y3);
    QuoteUnique(c.fieldName, d.fieldName, isPrint, x3, y3);
    Peel(Chars(l.number), Number(c.fieldNumber) + x2, Number(d.fieldNumber) + y2);
    NumberUnique(c.fieldNumber, d.fieldNumber, x2, y2);
    Peel(Chars(l.message), Quote(c.message, isPrint) + x1, Quote(d.message, isPrint) + y1);
    QuoteUnique(c.message, d.message, isPrint, x1, y1);
    Peel(Chars(l.close), x, y);
  }

  ghost predicate SameEntries(cs: seq<Contribution>, ds: seq<Contribution>) {
    |cs| == |ds| && forall i | 0 <= i < |cs| :: SameEntry(cs[i], ds[i])
  }

  lemma EntriesStart(l: Layout, cs: seq<Contribution>, isPrint: char -> bool)
    requires Delimited(l)
    ensures Entries(l, cs, isPrint) != []
    ensures Entries(l, cs, isPrint)[0] == Char(if cs == [] then l.footer[0] else l.open[0])
  {
    hide Quote, Number, Entry;
    if cs != [] {
      EntryParts(l, cs[0], isPrint, Entries(l, cs[1..], isPrint));
    }
  }

  lemma {:induction false} EntriesUnique(l: Layout, cs: seq<Contribution>, ds: seq<Contribution>, isPrint: char -> bool)
    requires Delimited(l) && Entries(l, cs, isPrint) == Entries(l, ds, isPrint)
    ensures SameEntries(cs, ds)
  {
    hide Entry, Chars;
    EntriesStart(l, cs, isPrint);
    EntriesStart(l, ds, isPrint);
    if cs != [] {
      EntryUnique(l, cs[0], ds[0], isPrint, Entries(l, cs[1..], isPrint), Entries(l, ds[1..], isPrint));
      EntriesUnique(l, cs[1..], ds[1..], isPrint);
      assert forall i | 0 < i < |cs| :: cs[i] == cs[1..][i - 1] && ds[i] == ds[1..][i - 1];
    }
  }

  /** Equal Go catalogs come from lists that agree on namespaces, names, numbers and messages, valid or not. */
  lemma GoCatalogIff(cs: seq<Contribution>, ds: seq<Contribution>, isPrint: char -> bool)
    ensures Catalog(GO, cs, isPrint) == Catalog(GO, ds, isPrint) <==> SameEntries(cs, ds)
  {
    assert GO.open[0] == '\t' && GO.footer[0] == '}';
    CatalogIff(GO, cs, ds, isPrint);
  }

  lemma TypeScriptCatalogIff(cs: seq<Contribution>, ds: seq<Contribution>, isPrint: char -> bool)
    ensures Catalog(TYPESCRIPT, cs, isPrint) == Catalog(TYPESCRIPT, ds, isPrint) <==> SameEntries(cs, ds)
  {
    CatalogIff(TYPESCRIPT, cs, ds, isPrint);
  }

  lemma CatalogIff(l: Layout, cs: seq<Contribution>, ds: seq<Contribution>, isPrint: char -> bool)
    requires Delimited(l)
    ensures Catalog(l, cs, isPrint) == Catalog(l, ds, isPrint) <==> SameEntries(cs, ds)
  {
    if Catalog(l, cs, isPrint) == Catalog(l, ds, isPrint) {
      Peel(Chars(l.header), Entries(l, cs, isPrint), Entries(l, ds, isPrint));
      EntriesUnique(l, cs, ds, isPrint);
    }
    if SameEntries(cs, ds) {
      EntriesAgree(l, cs, ds, isPrint);
    }
  }

  lemma {:induction false} EntriesAgree(l: Layout, cs: seq<Contribution>, ds: seq<Contribution>, isPrint: char -> bool)
    requires SameEntries(cs, ds)
    ensures Entries(l, cs, isPrint) == Entries(l, ds, isPrint)
  {
    if cs != [] {
      assert SameEntry(cs[0], ds[0]);
      assert SameEntries(cs[1..], ds[1..]);
      EntriesAgree(l, cs[1..], ds[1..], isPrint);
    }
  }

  // ---- The composed proto ----

  const PROTO_HEADER: string :=
    "// Code generated by module-compose. DO NOT EDIT.\nsyntax = \"proto3\";\n\n"
    + "package saas.composed.settings.v1;\n\n"
  const PROTO_MESSAGE: string := "\nmessage Settings {\n"
  const PROTO_FOOTER: string := "}\n"

  function Import(c: Contribution, isPrint: char -> bool): Text {
    Chars("import ") + Quote(c.protoImport, isPrint) + Chars(";\n")
  }

  function ProtoField(c: Contribution): Text {
    Chars("  ") + c.message + Chars(" ") + c.fieldName + Chars(" = ") + Number(c.fieldNumber) + Chars(";\n")
  }

  function Imports(cs: seq<Contribution>, isPrint: char -> bool, tail: Text): Text {
    if cs == [] then tail else Import(cs[0], isPrint) + Imports(cs[1..], isPrint, tail)
  }

  /** The fields of `cs`, then the footer. */
  function ProtoFields(cs: seq<Contribution>): Text {
    if cs == [] then Chars(PROTO_FOOTER) else ProtoField(cs[0]) + ProtoFields(cs[1..])
  }

  function Proto(cs: seq<Contribution>, isPrint: char -> bool): Text {
    Chars(PROTO_HEADER) + Imports(cs, isPrint, Chars(PROTO_MESSAGE) + ProtoFields(cs))
  }

  /** settings/catalog/render.go:49-61. */
  method RenderProto(contributions: seq<Contribution>, isPrint: char -> bool) returns (body: Text)
    ensures body == Proto(contributions, isPrint)
  {
    hide Chars, Quote, Number;
    ghost var fields := Chars(PROTO_MESSAGE) + ProtoFields(contributions);
    body := Chars(
      "// Code generated by module-compose. DO NOT EDIT.\nsyntax = \"proto3\";\n\n"
      + "package saas.composed.settings.v1;\n\n");
    for i := 0 to |contributions|
      invariant body + Imports(contributions[i..], isPrint, fields) == Proto(contributions, isPrint)
    {
      assert contributions[i..][1..] == contributions[i + 1..];
      var line := Chars("import ") + Quote(contributions[i].protoImport, isPrint) + Chars(";\n");
      Associate(body, line, Imports(contributions[i + 1..], isPrint, fields));
      assert line == Import(contributions[i], isPrint);
      body := body + line;
    }
    Associate(body, Chars(PROTO_MESSAGE), ProtoFields(contributions));
    body := body + Chars("\nmessage Settings {\n");
    for i := 0 to |contributions|
      invariant body + ProtoFields(contributions[i..]) == Proto(contributions, isPrint)
    {
      assert contributions[i..][1..] == contributions[i + 1..];
      var c := contributions[i];
      var line :=
        Chars("  ") + c.message + Chars(" ") + c.fieldName + Chars(" = ") + Number(c.fieldNumber) + Chars(";\n");
      Associate(body, line, ProtoFields(contributions[i + 1..]));
      assert line == ProtoField(c);
      body := body + line;
    }
    body := body + Chars("}\n");
  }

  predicate NotSpace(r: Rune) {
    r != Char(' ')
  }

  /** The names that the proto shows without quotes have no space in them. */
  ghost predicate Spaceless(c: Contribution) {
    AllIn(c.message, NotSpace) && AllIn(c.fieldName, NotSpace)
  }

  lemma ValidIsSpaceless(c: Contribution)
    requires Valid(c)
    ensures Spaceless(c)
  {
    hide Matches, InAlphabet, SafeRelativeImport;
    forall i | 0 <= i < |c.message|
      ensures NotSpace(c.message[i])
    {
      MatchStaysInAlphabet(MESSAGE_PATTERN, c.message, i);
      MessageAlphabet(c.message[i].c);
    }
    forall i | 0 <= i < |c.fieldName|
      ensures NotSpace(c.fieldName[i])
    {
      MatchStaysInAlphabet(FIELD_NAME_PATTERN, c.fieldName, i);
      FieldNameAlphabet(c.fieldName[i].c);
    }
  }

  predicate SameField(c: Contribution, d: Contribution) {
    c.message == d.message && c.fieldName == d.fieldName && c.fieldNumber == d.fieldNumber
  }

  lemma FieldParts(c: Contribution, rest: Text)
    ensures ProtoField(c) + rest
         == Chars("  ") + (c.message + (Chars(" ") + (c.fieldName + (Chars(" = ")
            + (Number(c.fieldNumber) + (Chars(";\n") + rest))))))
  {
    hide Number, Chars;
  }

  lemma FieldUnique(c: Contribution, d: Contribution, x: Text, y: Text)
    requires Spaceless(c) && Spaceless(d) && ProtoField(c) + x == ProtoField(d) + y
    ensures SameField(c, d) && x == y
  {
    hide Number, ProtoField;
    FieldParts(c, x);
    FieldParts(d, y);
    var x1, y1 := Chars(";\n") + x, Chars(";\n") + y;
    var x2, y2 := Chars(" = ") + (Number(c.fieldNumber) + x1), Chars(" = ") + (Number(d.fieldNumber) + y1);
    var x3, y3 := Chars(" ") + (c.fieldName + x2), Chars(" ") + (d.fieldName + y2);
    Peel(Chars("  "), c.message + x3, d.message + y3);
    TokenUnique(c.message, d.message, x3, y3, NotSpace);
    Peel(Chars(" "), c.fieldName + x2, d.fieldName + y2);
    TokenUnique(c.fieldName, d.fieldName, x2, y2, NotSpace);
    Peel(Chars(" = "), Number(c.fieldNumber) + x1, Number(d.fieldNumber) + y1);
    NumberUnique(c.fieldNumber, d.fieldNumber, x1, y1);
    Peel(Chars(";\n"), x, y);
  }

  lemma ImportUnique(c: Contribution, d: Contribution, isPrint: char -> bool, x: Text, y: Text)
    requires Import(c, isPrint) + x == Import(d, isPrint) + y
    ensures c.protoImport == d.protoImport && x == y
  {
    hide Quote, Chars;
    var x1, y1 := Chars(";\n") + x, Chars(";\n") + y;
    assert Import(c, isPrint) + x == Chars("import ") + (Quote(c.protoImport, isPrint) + x1);
    assert Import(d, isPrint) + y == Chars("import ") + (Quote(d.protoImport, isPrint) + y1);
    Peel(Chars("import "), Quote(c.protoImport, isPrint) + x1, Quote(d.protoImport, isPrint) + y1);
    QuoteUnique(c.protoImport, d.protoImport, isPrint, x1, y1);
    Peel(Chars(";\n"), x, y);
  }

  lemma ImportsStart(cs: seq<Contribution>, isPrint: char -> bool, tail: Text)
    requires cs != []
    ensures Imports(cs, isPrint, tail) != [] && Imports(cs, isPrint, tail)[0] == Char('i')
  {
    hide Quote;
    assert Chars("import ")[0] == Char('i');
  }

  lemma {:induction false} ImportsUnique(
      cs: seq<Contribution>, ds: seq<Contribution>, isPrint: char -> bool, x: Text, y: Text)
    requires x != [] && x[0] == Char('\n') && y != [] && y[0] == Char('\n')
    requires Imports(cs, isPrint, x) == Imports(ds, isPrint, y)
    ensures |cs| == |ds| && x == y && forall i | 0 <= i < |cs| :: cs[i].protoImport == ds[i].protoImport
  {
    hide Import;
    if cs != [] {
      ImportsStart(cs, isPrint, x);
    }
    if ds != [] {
      ImportsStart(ds, isPrint, y);
    }
    if cs != [] {
      ImportUnique(cs[0], ds[0], isPrint, Imports(cs[1..], isPrint, x), Imports(ds[1..], isPrint, y));
      ImportsUnique(cs[1..], ds[1..], isPrint, x, y);
      assert forall i | 0 < i < |cs| :: cs[i] == cs[1..][i - 1] && ds[i] == ds[1..][i - 1];
    }
  }

  lemma {:induction false} ProtoFieldsUnique(cs: seq<Contribution>, ds: seq<Contribution>)
    requires forall c | c in cs + ds :: Spaceless(c)
    requires ProtoFields(cs) == ProtoFields(ds) && |cs| == |ds|
    ensures forall i | 0 <= i < |cs| :: SameField(cs[i], ds[i])
  {
    hide ProtoField;
    if cs != [] {
      assert cs[0] in cs + ds && ds[0] in cs + ds;
      FieldUnique(cs[0], ds[0], ProtoFields(cs[1..]), ProtoFields(ds[1..]));
      assert forall c | c in cs[1..] + ds[1..] :: c in cs + ds;
      ProtoFieldsUnique(cs[1..], ds[1..]);
      assert forall i | 0 < i < |cs| :: cs[i] == cs[1..][i - 1] && ds[i] == ds[1..][i - 1];
    }
  }

  /** The proto of validated contributions determines their imports, messages, field names and numbers, in order. */
  lemma ProtoUnique(cs: seq<Contribution>, ds: seq<Contribution>, isPrint: char -> bool)
    requires forall c | c in cs + ds :: Valid(c)
    requires Proto(cs, isPrint) == Proto(ds, isPrint)
    ensures |cs| == |ds|
    ensures forall i | 0 <= i < |cs| :: cs[i].protoImport == ds[i].protoImport && SameField(cs[i], ds[i])
  {
    hide Valid;
    var x, y := Chars(PROTO_MESSAGE) + ProtoFields(cs), Chars(PROTO_MESSAGE) + ProtoFields(ds);
    Peel(Chars(PROTO_HEADER), Imports(cs, isPrint, x), Imports(ds, isPrint, y));
    ImportsUnique(cs, ds, isPrint, x, y);
    Peel(Chars(PROTO_MESSAGE), ProtoFields(cs), ProtoFields(ds));
    forall c | c in cs + ds
      ensures Spaceless(c)
    {
      ValidIsSpaceless(c);
    }
    ProtoFieldsUnique(cs, ds);
  }

  /** Without validation two different contributions can render to the same proto. */
  lemma UnvalidatedProtosCollide(isPrint: char -> bool)
    ensures exists c, d :: !SameField(c, d) && Proto([c], isPrint) == Proto([d], isPrint)
  {
    var c := Contribution(Chars("n"), Chars("p"), Chars("A b"), Chars("c"), 1);
    var d := Contribution(Chars("n"), Chars("p"), Chars("A"), Chars("b c"), 1);
    assert Chars("A b") == Chars("A") + Chars(" ") + Chars("b");
    assert Chars("b c") == Chars("b") + Chars(" ") + Chars("c");
    assert |c.message| != |d.message|;
    assert ProtoField(c) == ProtoField(d);
    assert [c][1..] == [] && [d][1..] == [];
  }
}
