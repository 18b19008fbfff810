/** The text conversions of the catalog renderers: %q and %d, and how what they print can be told apart. */
module CatalogText {
  import opened Prelude

  // ---- Texts ----

  /** A byte of a Go string that is no part of a UTF-8 sequence. */
  newtype stray = x: int | 0x80 <= x < 0x100 witness 0x80

  /** What ranging over a Go string meets. */
  datatype Rune = Char(c: char) | Stray(b: stray)

  type Text = seq<Rune>

  function Chars(s: string): (t: Text)
    ensures |t| == |s|
  {
    seq(|s|, i requires 0 <= i < |s| => Char(s[i]))
  }

  lemma CharsInjective(s: string, t: string)
    requires Chars(s) == Chars(t)
    ensures s == t
  {
    assert forall i | 0 <= i < |s| :: Chars(s)[i] == Char(s[i]) && Chars(t)[i] == Char(t[i]);
  }

  ghost predicate AllIn(s: Text, alphabet: Rune -> bool) {
    forall i | 0 <= i < |s| :: alphabet(s[i])
  }

  /** A token ends where the first rune outside its alphabet stands. */
  lemma TokenUnique(a: Text, b: Text, x: Text, y: Text, alphabet: Rune -> bool)
    requires AllIn(a, alphabet) && AllIn(b, alphabet)
    requires x != [] && !alphabet(x[0]) && y != [] && !alphabet(y[0])
    requires a + x == b + y
    ensures a == b && x == y
  {
    var z := a + x;
    assert z[|a|] == x[0] && z[|b|] == y[0];
    assert forall i | 0 <= i < |a| :: z[i] == a[i];
    assert forall i | 0 <= i < |b| :: z[i] == b[i];
    assert |a| == |b|;
    assert (a + x)[..|a|] == a && (b + y)[..|b|] == b;
    Peel(a, x, y);
  }

  // ---- %d ----

  predicate NumberChar(c: char) {
    '0' <= c <= '9' || c == '-'
  }

  lemma {:induction false} ItoaChars(n: int)
    ensures Itoa(n) != "" && forall i | 0 <= i < |Itoa(n)| :: NumberChar(Itoa(n)[i])
    ensures n >= 0 ==> Itoa(n)[0] != '-'
    decreases n < 0, if n < 0 then -n else n
  {
    if n < 0 {
      ItoaChars(-n);
    } else if n >= 10 {
      ItoaChars(n / 10);
    }
  }

  lemma {:induction false} ItoaInjective(n: int, m: int)
    requires Itoa(n) == Itoa(m)
    ensures n == m
    decreases n < 0, if n < 0 then -n else n
  {
    ItoaChars(n);
    ItoaChars(m);
    if n < 0 || m < 0 {
      assert n < 0 && m < 0;
      assert Itoa(n)[1..] == Itoa(-n) && Itoa(m)[1..] == Itoa(-m);
      ItoaInjective(-n, -m);
    } else {
      var k := |Itoa(n)| - 1;
      assert Itoa(n)[k] == ('0' as int + n % 10) as char && Itoa(m)[k] == ('0' as int + m % 10) as char;
      if n >= 10 && m >= 10 {
        assert Itoa(n)[..k] == Itoa(n / 10) && Itoa(m)[..k] == Itoa(m / 10);
        ItoaInjective(n / 10, m / 10);
      } else if n >= 10 {
        ItoaChars(n / 10);
      } else if m >= 10 {
        ItoaChars(m / 10);
      }
    }
  }

  function Number(n: int): Text {
    Chars(Itoa(n))
  }

  /** The number that decimal digits spell. */
  function DecimalValue(s: string): int {
    if s == "" then 0 else 10 * DecimalValue(s[..|s| - 1]) + (s[|s| - 1] as int - 0x30)
  }

  /** A number is printed in its decimal digits without a leading zero, a negative one after "-". */
  lemma {:induction false} ItoaIs(n: int)
    ensures n >= 0 ==> DecimalValue(Itoa(n)) == n && forall i | 0 <= i < |Itoa(n)| :: '0' <= Itoa(n)[i] <= '9'
    ensures n > 0 ==> Itoa(n) != "" && Itoa(n)[0] != '0'
    ensures n == 0 ==> Itoa(n) == "0"
    ensures n < 0 ==> Itoa(n) == "-" + Itoa(-n)
    decreases if n < 0 then -n else n
  {
    if n >= 10 {
      ItoaIs(n / 10);
      var s := Itoa(n);
      assert s[..|s| - 1] == Itoa(n / 10);
    } else if n >= 0 {
      assert Itoa(n)[..0] == "";
    }
  }

  predicate NumberRune(r: Rune) {
    r.Char? && NumberChar(r.c)
  }

  lemma NumberUnique(n: int, m: int, x: Text, y: Text)
    requires x != [] && !NumberRune(x[0]) && y != [] && !NumberRune(y[0])
    requires Number(n) + x == Number(m) + y
    ensures n == m && x == y
  {
    ItoaChars(n);
    ItoaChars(m);
    TokenUnique(Number(n), Number(m), x, y, NumberRune);
    CharsInjective(Itoa(n), Itoa(m));
    ItoaInjective(n, m);
  }

  // ---- %q ----

  function HexDigit(d: nat): char
    requires d < 16
  {
    if d < 10 then ('0' as int + d) as char else ('a' as int + d - 10) as char
  }

  function HexDigitValue(r: Rune): int {
    if r.Stray? then 0
    else if r.c <= '9' then r.c as int - '0' as int
    else r.c as int - 'a' as int + 10
  }

  /** The last `width` hexadecimal digits of `n`. */
  function Hex(n: nat, width: nat): (s: string)
    ensures |s| == width
  {
    if width == 0 then "" else Hex(n / 16, width - 1) + [HexDigit(n % 16)]
  }

  function HexValue(s: Text): int {
    if s == [] then 0 else 16 * HexValue(s[..|s| - 1]) + HexDigitValue(s[|s| - 1])
  }

  function Pow16(width: nat): nat {
    if width == 0 then 1 else 16 * Pow16(width - 1)
  }

  lemma {:induction false} HexReadsBack(n: nat, width: nat)
    requires n < Pow16(width)
    ensures HexValue(Chars(Hex(n, width))) == n
  {
    if width > 0 {
      HexReadsBack(n / 16, width - 1);
      assert Chars(Hex(n, width))[..width - 1] == Chars(Hex(n / 16, width - 1));
      assert Chars(Hex(n, width))[width - 1] == Char(HexDigit(n % 16));
    }
  }

  /** One rune inside %q's quotes; isPrint is strconv.IsPrint. */
  function Escaped(r: Rune, isPrint: char -> bool): string {
    match r
    case Stray(b) => "\\x" + Hex(b as int, 2)
    case Char(c) => EscapedChar(c, isPrint)
  }

  function EscapedChar(c: char, isPrint: char -> bool): string {
    var n := c as int;
    if c == '"' || c == '\\' then ['\\', c]
    else if isPrint(c) then [c]
    else if n == 7 then "\\a"
    else if n == 8 then "\\b"
    else if n == 12 then "\\f"
    else if n == 10 then "\\n"
    else if n == 13 then "\\r"
    else if n == 9 then "\\t"
    else if n == 11 then "\\v"
    else if n < 0x20 || n == 0x7f then "\\x" + Hex(n, 2)
    else if n < 0x10000 then "\\u" + Hex(n, 4)
    else "\\U" + Hex(n, 8)
  }

  const DIGITS := "0123456789abcdef"

  /** The table that %q goes by, spelt out. */
  predicate Spells(r: Rune, e: string, isPrint: char -> bool) {
    match r
    case Stray(b) => e == ['\\', 'x', DIGITS[b as int / 16], DIGITS[b as int % 16]]
    case Char(c) =>
      var n := c as int;
      if c == '\"' then e == "\\\""
      else if c == '\\' then e == "\\\\"
      else if isPrint(c) then e == [c]
      else if 0x07 <= n <= 0x0d then e == ["\\a", "\\b", "\\t", "\\n", "\\v", "\\f", "\\r"][n - 0x07]
      else if n <= 0x1f || n == 0x7f then e == ['\\', 'x', DIGITS[n / 16], DIGITS[n % 16]]
      else if n <= 0xffff then
        e == ['\\', 'u', DIGITS[n / 0x1000], DIGITS[n / 0x100 % 16], DIGITS[n / 16 % 16], DIGITS[n % 16]]
      else
        e == ['\\', 'U', '0', '0', DIGITS[n / 0x100000], DIGITS[n / 0x10000 % 16], DIGITS[n / 0x1000 % 16],
              DIGITS[n / 0x100 % 16], DIGITS[n / 16 % 16], DIGITS[n % 16]]
  }

  lemma EscapedIs(r: Rune, isPrint: char -> bool)
    ensures Spells(r, Escaped(r, isPrint), isPrint)
  {
    hide Hex;
    match r
    case Stray(b) => HexTwo(b as int);
    case Char(c) =>
      var n := c as int;
      if n < 0x80 {
        HexTwo(n);
      }
      if n < 0x10000 {
        HexFour(n);
      } else {
        HexEight(n);
      }
  }

  lemma HexTwo(n: nat)
    requires n < 0x100
    ensures Hex(n, 2) == [DIGITS[n / 16], DIGITS[n % 16]]
  {
    HexLastTwo(n, 2);
  }

  lemma HexFour(n: nat)
    requires n < 0x10000
    ensures Hex(n, 4) == [DIGITS[n / 0x1000], DIGITS[n / 0x100 % 16], DIGITS[n / 16 % 16], DIGITS[n % 16]]
  {
    hide Hex;
    HexLastTwo(n, 4);
    HexTwo(n / 0x100);
  }

  lemma HexEight(n: nat)
    requires n < 0x110000
    ensures Hex(n, 8) == ['0', '0', DIGITS[n / 0x100000], DIGITS[n / 0x10000 % 16], DIGITS[n / 0x1000 % 16],
                          DIGITS[n / 0x100 % 16], DIGITS[n / 16 % 16], DIGITS[n % 16]]
  {
    hide Hex;
    HexLastTwo(n, 8);
    HexLastTwo(n / 0x100, 6);
    assert n / 0x100 / 0x100 == n / 0x10000 && n / 0x100 / 16 == n / 0x1000;
    HexTop(n / 0x10000);
    assert n / 0x10000 / 16 == n / 0x100000;
  }

  lemma HexTop(m: nat)
    requires m < 0x11
    ensures Hex(m, 4) == ['0', '0', DIGITS[m / 16], DIGITS[m % 16]]
  {
    hide Hex;
    HexFour(m);
    assert m / 0x1000 == 0 && m / 0x100 % 16 == 0 && m / 16 % 16 == m / 16;
  }

  lemma HexLastTwo(n: nat, width: nat)
    requires width >= 2
    ensures Hex(n, width) == Hex(n / 0x100, width - 2) + [DIGITS[n / 16 % 16], DIGITS[n % 16]]
  {
    assert Hex(n, width) == Hex(n / 16, width - 1) + [HexDigit(n % 16)];
    assert n / 16 / 16 == n / 0x100;
  }

  function QuoteBody(s: Text, isPrint: char -> bool): Text {
    if s == [] then [] else Chars(Escaped(s[0], isPrint)) + QuoteBody(s[1..], isPrint)
  }

  /** A quoted text is its runes' spellings in their order. */
  lemma {:induction false} QuoteBodyJoins(s: Text, t: Text, isPrint: char -> bool)
    ensures QuoteBody(s + t, isPrint) == QuoteBody(s, isPrint) + QuoteBody(t, isPrint)
    ensures |s| == 1 ==> QuoteBody(s, isPrint) == Chars(Escaped(s[0], isPrint))
  {
    hide Escaped, Chars;
    if s == [] {
      assert s + t == t;
    } else {
      QuoteBodyJoins(s[1..], t, isPrint);
      assert (s + t)[1..] == s[1..] + t;
      Associate(Chars(Escaped(s[0], isPrint)), QuoteBody(s[1..], isPrint), QuoteBody(t, isPrint));
    }
  }

  const QUOTE: Text := [Char('"')]

  function Quote(s: Text, isPrint: char -> bool): Text {
    QUOTE + QuoteBody(s, isPrint) + QUOTE
  }

  /** The rune a quoted text starts with, and how many characters spell it. */
  function ReadRune(t: Text): (Option<Rune>, nat) {
    if t == [] || t[0].Stray? then (None, 0)
    else if t[0].c != '\\' then (Some(t[0]), 1)
    else if |t| < 2 || t[1].Stray? then (None, 0)
    else match t[1].c
      case 'a' => (Decoded(7), 2)
      case 'b' => (Decoded(8), 2)
      case 'f' => (Decoded(12), 2)
      case 'n' => (Decoded(10), 2)
      case 'r' => (Decoded(13), 2)
      case 't' => (Decoded(9), 2)
      case 'v' => (Decoded(11), 2)
      case 'x' => if |t| < 4 then (None, 0) else (ByteDecoded(HexValue(t[2..4])), 4)
      case 'u' => if |t| < 6 then (None, 0) else (Decoded(HexValue(t[2..6])), 6)
      case 'U' => if |t| < 10 then (None, 0) else (Decoded(HexValue(t[2..10])), 10)
      case c => (Some(Char(c)), 2)
  }

  /** The character with this code, if there is one: surrogates are none. */
  function Decoded(n: int): Option<Rune> {
    if 0 <= n < 0xD800 || 0xE000 <= n < 0x110000 then Some(Char(n as char)) else None
  }

  /** A byte escape of 0x80 and up spells a stray byte. */
  function ByteDecoded(n: int): Option<Rune> {
    if 0x80 <= n < 0x100 then Some(Stray(n as stray)) else Decoded(n)
  }

  lemma HexEscapeReadsBack(tag: char, n: nat, width: nat, rest: Text)
    requires n < Pow16(width)
    ensures var t := Chars(['\\', tag] + Hex(n, width)) + rest;
      && t[0] == Char('\\') && t[1] == Char(tag) && HexValue(t[2..2 + width]) == n
  {
    HexReadsBack(n, width);
    assert (Chars(['\\', tag] + Hex(n, width)) + rest)[2..2 + width] == Chars(Hex(n, width));
  }

  lemma EscapedReadsBack(r: Rune, isPrint: char -> bool, rest: Text)
    ensures var e := Escaped(r, isPrint);
      && ReadRune(Chars(e) + rest) == (Some(r), |e|)
      && e != "" && e[0] != '"'
  {
    hide Hex, HexValue;
    var n := if r.Char? then r.c as int else r.b as int;
    assert Pow16(2) == 0x100;
    assert Pow16(4) == 0x10000 by { assert Pow16(3) == 0x1000; }
    assert Pow16(8) >= 0x110000 by { assert Pow16(5) == 0x100000; assert Pow16(6) == 0x1000000; }
    if n < 0x100 {
      HexEscapeReadsBack('x', n, 2, rest);
    }
    if n < 0x10000 {
      HexEscapeReadsBack('u', n, 4, rest);
    }
    HexEscapeReadsBack('U', n, 8, rest);
  }

  /** Equal texts that start with an escaped rune start with the same one. */
  lemma EscapedUnique(r: Rune, q: Rune, isPrint: char -> bool, x: Text, y: Text)
    requires Chars(Escaped(r, isPrint)) + x == Chars(Escaped(q, isPrint)) + y
    ensures r == q && x == y
  {
    hide Escaped, ReadRune;
    EscapedReadsBack(r, isPrint, x);
    EscapedReadsBack(q, isPrint, y);
    Peel(Chars(Escaped(r, isPrint)), x, y);
  }

  lemma BodyStart(s: Text, isPrint: char -> bool)
    ensures s != [] ==> QuoteBody(s, isPrint) != [] && QuoteBody(s, isPrint)[0] != Char('"')
  {
    hide Escaped;
    if s != [] {
      EscapedReadsBack(s[0], isPrint, []);
    }
  }

  lemma {:induction false} QuoteBodyUnique(a: Text, b: Text, isPrint: char -> bool, x: Text, y: Text)
    requires QuoteBody(a, isPrint) + (QUOTE + x) == QuoteBody(b, isPrint) + (QUOTE + y)
    ensures a == b && x == y
  {
    hide Escaped;
    BodyStart(a, isPrint);
    BodyStart(b, isPrint);
    assert (QuoteBody(a, isPrint) + (QUOTE + x))[0] == if a == [] then Char('"') else QuoteBody(a, isPrint)[0];
    assert (QuoteBody(b, isPrint) + (QUOTE + y))[0] == if b == [] then Char('"') else QuoteBody(b, isPrint)[0];
    if a == [] && b == [] {
      assert [] + (QUOTE + x) == QUOTE + x && [] + (QUOTE + y) == QUOTE + y;
      Peel(QUOTE, x, y);
    } else {
      var u := QuoteBody(a[1..], isPrint) + (QUOTE + x);
      var v := QuoteBody(b[1..], isPrint) + (QUOTE + y);
      Associate(Chars(Escaped(a[0], isPrint)), QuoteBody(a[1..], isPrint), QUOTE + x);
      Associate(Chars(Escaped(b[0], isPrint)), QuoteBody(b[1..], isPrint), QUOTE + y);
      EscapedUnique(a[0], b[0], isPrint, u, v);
      QuoteBodyUnique(a[1..], b[1..], isPrint, x, y);
    }
  }

  lemma Regrouped(body: Text, rest: Text)
    ensures (QUOTE + body + QUOTE) + rest == QUOTE + (body + (QUOTE + rest))
  {
    Associate(QUOTE + body, QUOTE, rest);
    Associate(QUOTE, body, QUOTE + rest);
  }

  /** A quoted string can be read off the front of a text in one way only, whatever it holds. */
  lemma QuoteUnique(a: Text, b: Text, isPrint: char -> bool, x: Text, y: Text)
    requires Quote(a, isPrint) + x == Quote(b, isPrint) + y
    ensures a == b && x == y
  {
    hide QuoteBody;
    var u := QuoteBody(a, isPrint) + (QUOTE + x);
    var v := QuoteBody(b, isPrint) + (QUOTE + y);
    Regrouped(QuoteBody(a, isPrint), x);
    Regrouped(QuoteBody(b, isPrint), y);
    Peel(QUOTE, u, v);
    QuoteBodyUnique(a, b, isPrint, x, y);
  }
}
