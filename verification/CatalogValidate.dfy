/** Which contributions the catalog renderers are meant for (settings/catalog/validate.go). */
module CatalogValidate {
  import opened Prelude
  import opened CatalogText

  datatype Contribution = Contribution(
    namespace: Text,
    protoImport: Text,
    message: Text,
    fieldName: Text,
    fieldNumber: int)

  // ---- Regular expressions ----

  /** The part of regexp's syntax that the patterns use; a pattern here matches the whole text. */
  datatype Regex = Class(has: char -> bool) | Then(first: Regex, second: Regex) | Star(body: Regex)

  predicate Matches(re: Regex, s: Text)
    decreases re, |s|
  {
    match re
    case Class(has) => |s| == 1 && s[0].Char? && has(s[0].c)
    case Then(first, second) => exists k | 0 <= k <= |s| :: Matches(first, s[..k]) && Matches(second, s[k..])
    case Star(body) => s == [] || exists k | 0 < k <= |s| :: Matches(body, s[..k]) && Matches(re, s[k..])
  }

  function Plus(re: Regex): Regex {
    Then(re, Star(re))
  }

  predicate Lower(c: char) {
    'a' <= c <= 'z'
  }

  predicate LowerOrDigit(c: char) {
    Lower(c) || '0' <= c <= '9'
  }

  predicate Letter(c: char) {
    Lower(c) || 'A' <= c <= 'Z'
  }

  predicate LetterOrDigit(c: char) {
    Letter(c) || '0' <= c <= '9'
  }

  predicate Dot(c: char) {
    c == '.'
  }

  predicate WordChar(c: char) {
    LetterOrDigit(c) || c == '_'
  }

  predicate LowerWordChar(c: char) {
    LowerOrDigit(c) || c == '_'
  }

  predicate NamespaceSeparator(c: char) {
    c == '.' || c == '_' || c == '-'
  }

  /** settings/catalog/validate.go:21-23. */
  const NAMESPACE_PATTERN: Regex :=
    Then(Class(Lower), Then(Star(Class(LowerOrDigit)),
      Star(Then(Class(NamespaceSeparator), Plus(Class(LowerOrDigit))))))
  const MESSAGE_PART: Regex := Then(Class(Dot), Then(Class(Letter), Star(Class(WordChar))))
  const MESSAGE_PATTERN: Regex := Then(Class(Letter), Then(Star(Class(LetterOrDigit)), Plus(MESSAGE_PART)))
  const FIELD_NAME_PATTERN: Regex := Then(Class(Lower), Star(Class(LowerWordChar)))

  /** `c` is in some character class of the pattern. */
  predicate InAlphabet(re: Regex, c: char) {
    match re
    case Class(has) => has(c)
    case Then(first, second) => InAlphabet(first, c) || InAlphabet(second, c)
    case Star(body) => InAlphabet(body, c)
  }

  lemma {:induction false} MatchStaysInAlphabet(re: Regex, s: Text, i: nat)
    requires Matches(re, s) && i < |s|
    ensures s[i].Char? && InAlphabet(re, s[i].c)
    decreases re, |s|
  {
    match re
    case Class(_) =>
    case Then(first, second) =>
      var k :| 0 <= k <= |s| && Matches(first, s[..k]) && Matches(second, s[k..]);
      if i < k {
        MatchStaysInAlphabet(first, s[..k], i);
      } else {
        MatchStaysInAlphabet(second, s[k..], i - k);
      }
    case Star(body) =>
      var k :| 0 < k <= |s| && Matches(body, s[..k]) && Matches(re, s[k..]);
      if i < k {
        MatchStaysInAlphabet(body, s[..k], i);
      } else {
        MatchStaysInAlphabet(re, s[k..], i - k);
      }
  }

  /** What a message name and a field name are written with. */
  lemma MessageAlphabet(c: char)
    requires InAlphabet(MESSAGE_PATTERN, c)
    ensures WordChar(c) || Dot(c)
  {
    var words := MESSAGE_PART.second;
    assert InAlphabet(words, c) ==> InAlphabet(words.first, c) || InAlphabet(words.second, c);
    assert InAlphabet(words.second, c) ==> InAlphabet(Class(WordChar), c);
    assert InAlphabet(MESSAGE_PART, c) ==> InAlphabet(Class(Dot), c) || InAlphabet(words, c);
    assert InAlphabet(Star(MESSAGE_PART), c) == InAlphabet(MESSAGE_PART, c);
    assert InAlphabet(Plus(MESSAGE_PART), c) == (InAlphabet(MESSAGE_PART, c) || InAlphabet(Star(MESSAGE_PART), c));
    var rest := MESSAGE_PATTERN.second;
    assert InAlphabet(rest.first, c) ==> InAlphabet(Class(LetterOrDigit), c);
    assert InAlphabet(rest, c) ==> InAlphabet(rest.first, c) || InAlphabet(Plus(MESSAGE_PART), c);
  }

  lemma FieldNameAlphabet(c: char)
    requires InAlphabet(FIELD_NAME_PATTERN, c)
    ensures LowerWordChar(c)
  {
    assert InAlphabet(FIELD_NAME_PATTERN.second, c) ==> InAlphabet(Class(LowerWordChar), c);
  }

  // ---- What the patterns accept ----

  ghost predicate Written(s: Text, has: char -> bool) {
    forall i | 0 <= i < |s| :: s[i].Char? && has(s[i].c)
  }

  lemma {:induction false} RepeatedIff(has: char -> bool, s: Text)
    ensures Matches(Star(Class(has)), s) <==> Written(s, has)
  {
    if s != [] {
      var re := Star(Class(has));
      if Matches(re, s) {
        var k :| 0 < k <= |s| && Matches(Class(has), s[..k]) && Matches(re, s[k..]);
        RepeatedIff(has, s[k..]);
        assert s == s[..k] + s[k..];
      }
      if Written(s, has) {
        RepeatedIff(has, s[1..]);
        assert Matches(Class(has), s[..1]);
      }
    }
  }

  lemma InitialIff(first: char -> bool, rest: Regex, s: Text)
    ensures Matches(Then(Class(first), rest), s)
       <==> s != [] && s[0].Char? && first(s[0].c) && Matches(rest, s[1..])
  {
    if s != [] && Matches(Class(first), s[..1]) && Matches(rest, s[1..]) {
      assert Matches(Then(Class(first), rest), s);
    }
  }

  /** A separator, an initial and any number of others. */
  function Group(sep: char -> bool, first: char -> bool, other: char -> bool): Regex {
    Then(Class(sep), Then(Class(first), Star(Class(other))))
  }

  /** A separator stands before an initial; what is not a separator is one of the others. */
  ghost predicate GroupedAt(sep: char -> bool, first: char -> bool, other: char -> bool, s: Text, i: nat)
    requires i < |s|
  {
    && s[i].Char?
    && (sep(s[i].c) || other(s[i].c))
    && (sep(s[i].c) ==> i + 1 < |s| && s[i + 1].Char? && first(s[i + 1].c))
  }

  ghost predicate Grouped(sep: char -> bool, first: char -> bool, other: char -> bool, s: Text) {
    forall i | 0 <= i < |s| :: GroupedAt(sep, first, other, s, i)
  }

  /** The classes of a group: no separator is among the others, every initial is. */
  ghost predicate Apart(sep: char -> bool, first: char -> bool, other: char -> bool) {
    forall c :: (sep(c) ==> !other(c)) && (first(c) ==> other(c))
  }

  lemma GroupIff(sep: char -> bool, first: char -> bool, other: char -> bool, s: Text)
    ensures Matches(Group(sep, first, other), s) <==>
      && |s| >= 2 && s[0].Char? && sep(s[0].c) && s[1].Char? && first(s[1].c) && Written(s[2..], other)
  {
    InitialIff(sep, Then(Class(first), Star(Class(other))), s);
    if s != [] {
      InitialIff(first, Star(Class(other)), s[1..]);
      if |s| >= 2 {
        RepeatedIff(other, s[2..]);
        assert s[1..][1..] == s[2..];
      }
    }
  }

  /** Where the first separator after position `i` stands. */
  function UntilSeparator(sep: char -> bool, s: Text, i: nat): (k: nat)
    requires i <= |s|
    ensures i <= k <= |s| && (k < |s| ==> s[k].Char? && sep(s[k].c))
    ensures forall j | i <= j < k :: s[j].Char? ==> !sep(s[j].c)
    decreases |s| - i
  {
    if i == |s| || (s[i].Char? && sep(s[i].c)) then i else UntilSeparator(sep, s, i + 1)
  }

  lemma {:induction false} GroupsIff(sep: char -> bool, first: char -> bool, other: char -> bool, s: Text)
    requires Apart(sep, first, other)
    ensures Matches(Star(Group(sep, first, other)), s) <==>
      Grouped(sep, first, other, s) && (s != [] ==> s[0].Char? && sep(s[0].c))
    decreases |s|
  {
    hide Group;
    var group := Group(sep, first, other);
    if s != [] {
      if Matches(Star(group), s) {
        var k :| 0 < k <= |s| && Matches(group, s[..k]) && Matches(Star(group), s[k..]);
        GroupIff(sep, first, other, s[..k]);
        GroupsIff(sep, first, other, s[k..]);
        OneMoreGroup(sep, first, other, s, k);
      }
      if Grouped(sep, first, other, s) && s[0].Char? && sep(s[0].c) {
        var k := UntilSeparator(sep, s, 1);
        FirstGroup(sep, first, other, s, k);
        LaterGroups(sep, first, other, s, k);
        GroupsIff(sep, first, other, s[k..]);
      }
    }
  }

  lemma GroupedLater(sep: char -> bool, first: char -> bool, other: char -> bool, s: Text, k: nat, i: nat)
    requires k <= i < |s| && Grouped(sep, first, other, s[k..])
    ensures GroupedAt(sep, first, other, s, i)
  {
    var later, j := s[k..], i - k;
    assert GroupedAt(sep, first, other, later, j);
    assert later[j] == s[i];
    assert j + 1 < |later| ==> later[j + 1] == s[i + 1];
  }

  lemma FirstGroup(sep: char -> bool, first: char -> bool, other: char -> bool, s: Text, k: nat)
    requires Apart(sep, first, other) && Grouped(sep, first, other, s) && s != [] && s[0].Char? && sep(s[0].c)
    requires k == UntilSeparator(sep, s, 1)
    ensures k > 1 && Matches(Group(sep, first, other), s[..k])
  {
    GroupedMeans(sep, first, other, s);
    GroupIff(sep, first, other, s[..k]);
  }

  lemma GroupedMeans(sep: char -> bool, first: char -> bool, other: char -> bool, s: Text)
    ensures Grouped(sep, first, other, s) ==> forall i | 0 <= i < |s| :: s[i].Char? && (sep(s[i].c) || other(s[i].c))
    ensures Grouped(sep, first, other, s) ==>
      forall i | 0 <= i < |s| && s[i].Char? && sep(s[i].c) :: i + 1 < |s| && s[i + 1].Char? && first(s[i + 1].c)
  {
    if Grouped(sep, first, other, s) {
      forall i | 0 <= i < |s|
        ensures s[i].Char? && (sep(s[i].c) || other(s[i].c))
      {
        assert GroupedAt(sep, first, other, s, i);
      }
      forall i | 0 <= i < |s| && s[i].Char? && sep(s[i].c)
        ensures i + 1 < |s| && s[i + 1].Char? && first(s[i + 1].c)
      {
        assert GroupedAt(sep, first, other, s, i);
      }
    }
  }

  lemma OneMoreGroup(sep: char -> bool, first: char -> bool, other: char -> bool, s: Text, k: nat)
    requires Apart(sep, first, other) && 2 <= k <= |s|
    requires s[0].Char? && sep(s[0].c) && s[1].Char? && first(s[1].c) && Written(s[..k][2..], other)
    requires Grouped(sep, first, other, s[k..])
    ensures Grouped(sep, first, other, s)
  {
    forall i | 0 <= i < |s|
      ensures GroupedAt(sep, first, other, s, i)
    {
      if i >= k {
        GroupedLater(sep, first, other, s, k, i);
      } else if i >= 2 {
        assert s[..k][2..][i - 2] == s[i];
      }
    }
  }

  lemma LaterGroups(sep: char -> bool, first: char -> bool, other: char -> bool, s: Text, k: nat)
    requires Grouped(sep, first, other, s) && k <= |s|
    ensures Grouped(sep, first, other, s[k..])
  {
    forall i | 0 <= i < |s[k..]|
      ensures GroupedAt(sep, first, other, s[k..], i)
    {
      assert GroupedAt(sep, first, other, s, k + i);
    }
  }

  lemma OnceOrMoreIff(re: Regex, s: Text)
    requires !Matches(re, [])
    ensures Matches(Plus(re), s) <==> s != [] && Matches(Star(re), s)
  {
    if Matches(Plus(re), s) {
      var k :| 0 <= k <= |s| && Matches(re, s[..k]) && Matches(Star(re), s[k..]);
      assert s[..0] == [];
    }
  }

  /** A head, and groups after it: `some` says whether there must be one. */
  function Headed(tail: char -> bool, group: Regex, some: bool): Regex {
    Then(Star(Class(tail)), if some then Plus(group) else Star(group))
  }

  lemma GroupsOf(sep: char -> bool, first: char -> bool, other: char -> bool, some: bool, s: Text)
    requires Apart(sep, first, other)
    ensures var group := Group(sep, first, other);
      Matches(if some then Plus(group) else Star(group), s) <==>
      Grouped(sep, first, other, s) && if s == [] then !some else s[0].Char? && sep(s[0].c)
  {
    hide Group;
    GroupIff(sep, first, other, []);
    OnceOrMoreIff(Group(sep, first, other), s);
    GroupsIff(sep, first, other, s);
  }

  ghost predicate HeadedText(sep: char -> bool, first: char -> bool, tail: char -> bool, other: char -> bool,
                             some: bool, s: Text) {
    var k := UntilSeparator(sep, s, 0);
    Grouped(sep, first, other, s) && Written(s[..k], tail) && (some ==> k < |s|)
  }

  lemma HeadedIff(sep: char -> bool, first: char -> bool, tail: char -> bool, other: char -> bool, some: bool, s: Text)
    requires Apart(sep, first, other) && forall c :: tail(c) ==> other(c)
    ensures Matches(Headed(tail, Group(sep, first, other), some), s) <==> HeadedText(sep, first, tail, other, some, s)
  {
    hide Group, Plus, Grouped;
    var group := Group(sep, first, other);
    var re := if some then Plus(group) else Star(group);
    var k := UntilSeparator(sep, s, 0);
    if Matches(Headed(tail, group, some), s) {
      var n :| 0 <= n <= |s| && Matches(Star(Class(tail)), s[..n]) && Matches(re, s[n..]);
      RepeatedIff(tail, s[..n]);
      GroupsOf(sep, first, other, some, s[n..]);
      assert forall i | 0 <= i < n :: s[..n][i] == s[i];
      assert n < |s| ==> s[n..][0] == s[n];
      assert k == n;
      HeadBefore(sep, first, other, s, k);
    }
    if HeadedText(sep, first, tail, other, some, s) {
      LaterGroups(sep, first, other, s, k);
      RepeatedIff(tail, s[..k]);
      GroupsOf(sep, first, other, some, s[k..]);
      assert k < |s| ==> s[k..][0] == s[k];
    }
  }

  lemma HeadBefore(sep: char -> bool, first: char -> bool, other: char -> bool, s: Text, k: nat)
    requires k <= |s| && Written(s[..k], other) && Grouped(sep, first, other, s[k..])
    requires forall c :: sep(c) ==> !other(c)
    ensures Grouped(sep, first, other, s)
  {
    forall i | 0 <= i < |s|
      ensures GroupedAt(sep, first, other, s, i)
    {
      if i >= k {
        GroupedLater(sep, first, other, s, k, i);
      } else {
        assert s[..k][i] == s[i];
      }
    }
  }

  /** A text of characters, with what is left of a pattern after an initial. */
  lemma InitialAndHeaded(sep: char -> bool, first: char -> bool, tail: char -> bool, other: char -> bool, some: bool,
                         initial: char -> bool, s: Text)
    requires Apart(sep, first, other) && forall c :: (tail(c) ==> other(c)) && (initial(c) ==> tail(c))
    ensures Matches(Then(Class(initial), Headed(tail, Group(sep, first, other), some)), s)
       <==> s != [] && s[0].Char? && initial(s[0].c) && HeadedText(sep, first, tail, other, some, s)
  {
    hide Group, Headed, Grouped;
    InitialIff(initial, Headed(tail, Group(sep, first, other), some), s);
    if s != [] && s[0].Char? && initial(s[0].c) {
      var rest := s[1..];
      HeadedIff(sep, first, tail, other, some, rest);
      assert !sep(s[0].c);
      UntilLater(sep, s);
      var k := UntilSeparator(sep, s, 0);
      assert s[..k] == [s[0]] + rest[..k - 1];
      if Grouped(sep, first, other, s) {
        LaterGroups(sep, first, other, s, 1);
      }
      if Grouped(sep, first, other, rest) {
        assert s[..1] == [s[0]];
        HeadBefore(sep, first, other, s, 1);
      }
      PrependWritten(s[0], rest[..k - 1], tail);
    }
  }

  lemma PrependWritten(r: Rune, s: Text, has: char -> bool)
    ensures Written([r] + s, has) <==> r.Char? && has(r.c) && Written(s, has)
  {
    assert forall i | 0 < i < |[r] + s| :: ([r] + s)[i] == s[i - 1];
    assert forall i | 0 <= i < |s| :: s[i] == ([r] + s)[1..][i];
    assert ([r] + s)[1..] == s;
    if Written([r] + s, has) {
      assert ([r] + s)[0] == r;
      assert forall i | 1 <= i < |s| + 1 :: ([r] + s)[i].Char? && has(([r] + s)[i].c);
    }
  }

  lemma UntilLater(sep: char -> bool, s: Text)
    requires s != [] && s[0].Char? && !sep(s[0].c)
    ensures UntilSeparator(sep, s, 0) == UntilSeparator(sep, s[1..], 0) + 1
  {
    var k, n := UntilSeparator(sep, s, 0), UntilSeparator(sep, s[1..], 0);
    assert n < |s| - 1 ==> s[1..][n] == s[n + 1];
    assert 0 < k;
    assert k < |s| ==> s[1..][k - 1] == s[k];
  }

  /** Lower-case words between single separators, begun by a letter. */
  predicate NamespaceText(s: Text) {
    && s != [] && s[0].Char? && 'a' <= s[0].c <= 'z'
    && forall i | 0 <= i < |s| ::
      && s[i].Char? && ('a' <= s[i].c <= 'z' || '0' <= s[i].c <= '9' || s[i].c in "._-")
      && (s[i].c in "._-" ==> i + 1 < |s| && s[i + 1].Char? && s[i + 1].c !in "._-")
  }

  /** What the namespace pattern accepts. */
  lemma NamespaceIff(s: Text)
    ensures Matches(NAMESPACE_PATTERN, s) <==> NamespaceText(s)
  {
    hide Matches;
    InitialAndHeaded(NamespaceSeparator, LowerOrDigit, LowerOrDigit, LowerOrDigit, false, Lower, s);
    GroupedMeans(NamespaceSeparator, LowerOrDigit, LowerOrDigit, s);
  }

  /** A letter, digit, "_" or dot in its place: letters begin names, a dot stands between two, "_" is after a dot. */
  predicate MessageAt(s: Text, i: nat)
    requires i < |s|
  {
    && s[i].Char?
    && ('a' <= s[i].c <= 'z' || 'A' <= s[i].c <= 'Z' || '0' <= s[i].c <= '9' || s[i].c == '_' || s[i].c == '.')
    && (i == 0 || s[i - 1] == Char('.') ==> 'a' <= s[i].c <= 'z' || 'A' <= s[i].c <= 'Z')
    && (s[i].c == '.' ==> i + 1 < |s|)
    && (s[i].c == '_' ==> Char('.') in s[..i])
  }

  /** Two or more dotted names of letters, digits and "_", each begun by a letter, and no "_" in the first. */
  predicate MessageText(s: Text) {
    s != [] && Char('.') in s && forall i | 0 <= i < |s| :: MessageAt(s, i)
  }

  /** What the message pattern accepts. */
  lemma MessageIff(s: Text)
    ensures Matches(MESSAGE_PATTERN, s) <==> MessageText(s)
  {
    hide Matches;
    InitialAndHeaded(Dot, Letter, LetterOrDigit, WordChar, true, Letter, s);
    GroupedMeans(Dot, Letter, WordChar, s);
    var k := UntilSeparator(Dot, s, 0);
    if MessageText(s) {
      forall i | 0 <= i < k
        ensures s[..k][i].Char? && LetterOrDigit(s[..k][i].c)
      {
        assert MessageAt(s, i) && Char('.') !in s[..i];
      }
      forall i | 0 <= i < |s|
        ensures GroupedAt(Dot, Letter, WordChar, s, i)
      {
        assert MessageAt(s, i) && (i + 1 < |s| ==> MessageAt(s, i + 1));
      }
      assert MessageAt(s, 0);
      assert HeadedText(Dot, Letter, LetterOrDigit, WordChar, true, s);
    }
    if Matches(MESSAGE_PATTERN, s) {
      assert s[k] == Char('.');
      forall i | 0 <= i < |s|
        ensures MessageAt(s, i)
      {
        assert i > 0 && s[i - 1] == Char('.') ==> Letter(s[i - 1 + 1].c);
        assert i < k ==> s[..k][i] == s[i];
        assert i > k ==> s[..i][k] == Char('.');
      }
    }
  }

  /** Lower-case letters, digits and "_", begun by a letter. */
  predicate FieldNameText(s: Text) {
    && s != [] && s[0].Char? && 'a' <= s[0].c <= 'z'
    && forall i | 0 <= i < |s| :: s[i].Char? && ('a' <= s[i].c <= 'z' || '0' <= s[i].c <= '9' || s[i].c == '_')
  }

  /** What the field name pattern accepts. */
  lemma FieldNameIff(s: Text)
    ensures Matches(FIELD_NAME_PATTERN, s) <==> FieldNameText(s)
  {
    InitialIff(Lower, Star(Class(LowerWordChar)), s);
    if s != [] {
      RepeatedIff(LowerWordChar, s[1..]);
    }
  }

  // ---- Imports ----

  const SLASH := Char('/')
  const DOT := [Char('.')]
  const DOT_DOT := [Char('.'), Char('.')]

  /** The parts of a slash-separated path. */
  function Parts(p: Text): (parts: seq<Text>)
    ensures parts != []
  {
    if p == [] then [[]]
    else
      var parts := Parts(p[1..]);
      if p[0] == SLASH then [[]] + parts else [[p[0]] + parts[0]] + parts[1..]
  }

  /** The relative paths that path.Clean leaves alone: no empty or "." part, and ".." only at the front. */
  predicate IsClean(p: Text) {
    p == DOT || var parts := Parts(p);
      && (forall i | 0 <= i < |parts| :: parts[i] != [] && parts[i] != DOT)
      && (forall i | 0 < i < |parts| :: parts[i] == DOT_DOT ==> parts[i - 1] == DOT_DOT)
  }

  /** path.Ext: from the last dot of the last part. */
  function Ext(p: Text): Text
    decreases |p|
  {
    if p == [] || p[|p| - 1] == SLASH then []
    else if p[|p| - 1] == Char('.') then DOT
    else
      var ext := Ext(p[..|p| - 1]);
      if ext == [] then [] else ext + [p[|p| - 1]]
  }

  /** settings/catalog/validate.go:71-79. */
  predicate SafeRelativeImport(p: Text) {
    && p != [] && !([SLASH] <= p) && Char('\\') !in p
    && IsClean(p) && p != DOT && p != DOT_DOT && !(DOT_DOT + [SLASH] <= p)
    && Ext(p) == Chars(".proto")
  }

  predicate OrdinaryPart(part: Text) {
    part != [] && part != DOT && part != DOT_DOT
  }

  lemma {:induction false} PartsStart(p: Text)
    ensures Parts(p)[0] == [] <==> p == [] || [SLASH] <= p
    ensures Parts(p)[0] == DOT_DOT <==> p == DOT_DOT || DOT_DOT + [SLASH] <= p
    ensures Parts(p)[0] == DOT <==> p == DOT || DOT + [SLASH] <= p
  {
    if p != [] && p[0] != SLASH {
      var q := p[1..];
      assert p == [p[0]] + q;
      assert Parts(p)[0] == [p[0]] + Parts(q)[0];
      if q != [] && q[0] != SLASH {
        var r := q[1..];
        assert q == [q[0]] + r;
        assert Parts(q)[0] == [q[0]] + Parts(r)[0];
        assert Parts(r)[0] == [] <==> r == [] || [SLASH] <= r;
        assert Parts(p)[0] == [p[0], q[0]] + Parts(r)[0];
        assert p == [p[0], q[0]] + r;
      }
    }
  }

  lemma {:induction false} NoClimbing(parts: seq<Text>, i: nat)
    requires i < |parts| && parts[0] != DOT_DOT
    requires forall j | 0 < j < |parts| :: parts[j] == DOT_DOT ==> parts[j - 1] == DOT_DOT
    ensures parts[i] != DOT_DOT
  {
    if i > 0 {
      NoClimbing(parts, i - 1);
    }
  }

  /** `p[i..j]` stands between slashes, or between a slash and an end. */
  predicate IsPart(p: Text, i: nat, j: nat) {
    && i <= j <= |p| && (i == 0 || p[i - 1] == Char('/')) && (j == |p| || p[j] == Char('/'))
    && forall k | i <= k < j :: p[k] != Char('/')
  }

  lemma Shifted(p: Text, i: nat, j: nat)
    requires p != [] && i <= j <= |p| - 1
    ensures p[i + 1..j + 1] == p[1..][i..j]
  {
    var q := p[1..];
    assert forall k | 0 <= k < j - i :: q[i..j][k] == q[i + k] == p[i + 1 + k];
  }

  lemma {:induction false} PartAt(p: Text, n: nat) returns (i: nat, j: nat)
    requires n < |Parts(p)|
    ensures IsPart(p, i, j) && p[i..j] == Parts(p)[n] && (i == 0 <==> n == 0)
  {
    if p == [] || (n == 0 && p[0] == SLASH) {
      return 0, 0;
    }
    var q := p[1..];
    i, j := PartAt(q, if p[0] == SLASH then n - 1 else n);
    if n == 0 {
      assert p[..j + 1] == [p[0]] + q[..j];
      return 0, j + 1;
    }
    Shifted(p, i, j);
    return i + 1, j + 1;
  }

  lemma {:induction false} PartFound(p: Text, i: nat, j: nat) returns (n: nat)
    requires IsPart(p, i, j)
    ensures n < |Parts(p)| && p[i..j] == Parts(p)[n] && (i == 0 <==> n == 0)
  {
    if j == 0 {
      return 0;
    }
    var q := p[1..];
    assert p == [p[0]] + q;
    if i == 0 {
      assert IsPart(q, 0, j - 1);
      n := PartFound(q, 0, j - 1);
      assert p[..j] == [p[0]] + q[..j - 1];
    } else {
      n := PartFound(q, i - 1, j - 1);
      Shifted(p, i - 1, j - 1);
      n := if p[0] == SLASH then n + 1 else n;
    }
  }

  lemma {:induction false} ExtIs(p: Text, e: string)
    requires |e| > 0 && e[0] == '.' && forall k | 0 < k < |e| :: e[k] != '.' && e[k] != '/'
    ensures Ext(p) == Chars(e) <==> |e| <= |p| && p[|p| - |e|..] == Chars(e)
  {
    if p != [] {
      var n, q := |e| - 1, p[..|p| - 1];
      var last := p[|p| - 1];
      assert p == q + [last];
      if n == 0 {
        assert p[|p| - 1..] == [last] && Chars(e) == [Char('.')];
      } else {
        var shorter := e[..n];
        ExtIs(q, shorter);
        assert Chars(e) == Chars(shorter) + [Char(e[n])];
        assert |e| <= |p| ==> p[|p| - |e|..] == q[|q| - n..] + [last];
        SameLast(Ext(q), Chars(shorter), last, Char(e[n]));
        SameLast(if |e| <= |p| then q[|q| - n..] else [], Chars(shorter), last, Char(e[n]));
      }
    }
  }

  lemma SameLast(s: Text, t: Text, x: Rune, y: Rune)
    ensures s + [x] == t + [y] <==> s == t && x == y
  {
    assert (s + [x])[..|s|] == s && (t + [y])[..|t|] == t;
    assert (s + [x])[|s|] == x && (t + [y])[|t|] == y;
  }

  /** Relative and slash-separated, every part the name of an entry, ending in ".proto", and no backslash anywhere. */
  predicate ImportText(p: Text) {
    && Char('\\') !in p
    && (forall i, j | 0 <= i <= j <= |p| && IsPart(p, i, j) ::
          p[i..j] != [] && p[i..j] != [Char('.')] && p[i..j] != [Char('.'), Char('.')])
    && |p| >= 6 && p[|p| - 6..] == Chars(".proto")
  }

  lemma SafeRelativeImportIff(p: Text)
    ensures SafeRelativeImport(p) <==> ImportText(p)
  {
    hide IsPart;
    PartsStart(p);
    ExtIs(p, ".proto");
    var parts := Parts(p);
    if SafeRelativeImport(p) {
      forall i, j | 0 <= i <= j <= |p| && IsPart(p, i, j)
        ensures OrdinaryPart(p[i..j])
      {
        var n := PartFound(p, i, j);
        NoClimbing(parts, n);
      }
    }
    if ImportText(p) {
      forall n | 0 <= n < |parts|
        ensures OrdinaryPart(parts[n])
      {
        var i, j := PartAt(p, n);
      }
      assert OrdinaryPart(parts[0]);
    }
  }

  // ---- Validation ----

  datatype Problem = BadNamespace | BadMessage | BadImport | BadFieldName | BadFieldNumber

  datatype Rejection = Rejection(contribution: Contribution, problem: Problem)

  predicate ProtoFieldNumber(n: int) {
    1 <= n <= 536870911 && !(19000 <= n <= 19999)
  }

  /** settings/catalog/validate.go:46-66. */
  function ProblemOf(c: Contribution): Option<Problem> {
    if !Matches(NAMESPACE_PATTERN, c.namespace) then Some(BadNamespace)
    else if !Matches(MESSAGE_PATTERN, c.message) then Some(BadMessage)
    else if !SafeRelativeImport(c.protoImport) then Some(BadImport)
    else if !Matches(FIELD_NAME_PATTERN, c.fieldName) then Some(BadFieldName)
    else if c.fieldNumber < 1 || c.fieldNumber > 536870911 || (c.fieldNumber >= 19000 && c.fieldNumber <= 19999)
    then Some(BadFieldNumber)
    else None
  }

  predicate Valid(c: Contribution) {
    && Matches(NAMESPACE_PATTERN, c.namespace) && Matches(MESSAGE_PATTERN, c.message)
    && Matches(FIELD_NAME_PATTERN, c.fieldName) && SafeRelativeImport(c.protoImport) && ProtoFieldNumber(c.fieldNumber)
  }

  /** What each problem says of a contribution. */
  predicate Has(c: Contribution, problem: Problem) {
    match problem
    case BadNamespace => !NamespaceText(c.namespace)
    case BadMessage => !MessageText(c.message)
    case BadImport => !ImportText(c.protoImport)
    case BadFieldName => !FieldNameText(c.fieldName)
    case BadFieldNumber => c.fieldNumber <= 0 || c.fieldNumber >= 0x2000_0000 || 19000 <= c.fieldNumber < 20000
  }

  const IN_ORDER: seq<Problem> := [BadNamespace, BadMessage, BadImport, BadFieldName, BadFieldNumber]

  /** The `n`th problem is the first one that the contribution has. */
  predicate FirstIs(c: Contribution, n: nat) {
    n < 5 && Has(c, IN_ORDER[n]) && forall m | 0 <= m < n :: !Has(c, IN_ORDER[m])
  }

  predicate Faultless(c: Contribution) {
    forall m | 0 <= m < 5 :: !Has(c, IN_ORDER[m])
  }

  lemma ProblemIs(c: Contribution)
    ensures match ProblemOf(c)
      case None => Faultless(c)
      case Some(p) => exists n: nat :: FirstIs(c, n) && p == IN_ORDER[n]
    ensures Valid(c) <==> Faultless(c)
  {
    hide Matches, SafeRelativeImport, NamespaceText, MessageText, FieldNameText, ImportText;
    NamespaceIff(c.namespace);
    MessageIff(c.message);
    SafeRelativeImportIff(c.protoImport);
    FieldNameIff(c.fieldName);
    assert IN_ORDER[0] == BadNamespace && IN_ORDER[1] == BadMessage && IN_ORDER[2] == BadImport;
    assert IN_ORDER[3] == BadFieldName && IN_ORDER[4] == BadFieldNumber;
    if ProblemOf(c).Some? {
      assert FirstIs(c, 0) || FirstIs(c, 1) || FirstIs(c, 2) || FirstIs(c, 3) || FirstIs(c, 4);
    }
  }

  /** `rejection` is of the first contribution that has any problem, for the first problem it has. */
  ghost predicate FirstRejected(contributions: seq<Contribution>, rejection: Rejection) {
    exists i: nat, n: nat | i < |contributions| && FirstIs(contributions[i], n) ::
      && rejection == Rejection(contributions[i], IN_ORDER[n])
      && forall j | 0 <= j < i :: Faultless(contributions[j])
  }

  /** settings/catalog/validate.go:35-42. */
  method Validate(contributions: seq<Contribution>) returns (rejection: Option<Rejection>)
    ensures rejection == None <==> forall i | 0 <= i < |contributions| :: Faultless(contributions[i])
    ensures rejection.Some? ==> FirstRejected(contributions, rejection.value)
  {
    hide ProblemOf, Valid, Has;
    for k := 0 to |contributions|
      invariant forall i | 0 <= i < k :: Faultless(contributions[i])
    {
      ProblemIs(contributions[k]);
      var problem := ProblemOf(contributions[k]);
      if problem.Some? {
        return Some(Rejection(contributions[k], problem.value));
      }
    }
    return None;
  }
}
