/** JSON.stringify on strings and safe integers, and readers of what it writes. */
module JsonText {
  import opened Bytes
  import opened JsStrings
  import Hex

  const QUOTE: Unit := 0x22
  const BACKSLASH: Unit := 0x5C
  const LOWER_U: Unit := 0x75
  const MINUS: Unit := 0x2D

  // Strings.

  function UnicodeEscape(u: Unit): (r: JsString)
    ensures |r| == 6
  {
    [BACKSLASH, LOWER_U, Hex.Digit(u / 0x1000), Hex.Digit(u / 0x100 % 0x10), Hex.Digit(u / 0x10 % 0x10), Hex.Digit(u % 0x10)]
  }

  /** The letter of a two-character escape. */
  function EscapeLetter(u: Unit): Option<Unit> {
    if u == QUOTE then Some(QUOTE)
    else if u == BACKSLASH then Some(BACKSLASH)
    else if u == 0x08 then Some(0x62)
    else if u == 0x09 then Some(0x74)
    else if u == 0x0A then Some(0x6E)
    else if u == 0x0C then Some(0x66)
    else if u == 0x0D then Some(0x72)
    else None
  }

  function EscapedBy(letter: Unit): Option<Unit> {
    if letter == QUOTE then Some(QUOTE)
    else if letter == BACKSLASH then Some(BACKSLASH)
    else if letter == 0x62 then Some(0x08)
    else if letter == 0x74 then Some(0x09)
    else if letter == 0x6E then Some(0x0A)
    else if letter == 0x66 then Some(0x0C)
    else if letter == 0x72 then Some(0x0D)
    else None
  }

  /** Control characters and lone surrogates are escaped, the rest is kept. */
  function EscapeUnit(u: Unit): (r: JsString)
    ensures r != []
  {
    if EscapeLetter(u).Some? then [BACKSLASH, EscapeLetter(u).value]
    else if u < 0x20 || IsHigh(u) || IsLow(u) then UnicodeEscape(u)
    else [u]
  }

  function Escape(s: JsString): JsString
    decreases |s|
  {
    if s == [] then []
    else if StartsWithPair(s) then [s[0], s[1]] + Escape(s[2..])
    else EscapeUnit(s[0]) + Escape(s[1..])
  }

  function Quoted(s: JsString): JsString {
    [QUOTE] + Escape(s) + [QUOTE]
  }

  function HexUnit(s: JsString): Option<Unit> {
    if |s| < 4 then None
    else
      match (Hex.Value(s[0]), Hex.Value(s[1]), Hex.Value(s[2]), Hex.Value(s[3]))
      case (Some(a), Some(b), Some(c), Some(d)) => Some(Place(a, b, c, d))
      case _ => None
  }

  function Place(a: int, b: int, c: int, d: int): Unit
    requires 0 <= a < 16 && 0 <= b < 16 && 0 <= c < 16 && 0 <= d < 16
  {
    0x1000 * a + 0x100 * b + 0x10 * c + d
  }

  type Read<T> = Option<(T, JsString)>

  function Push(front: JsString, rest: Read<JsString>): (r: Read<JsString>)
    ensures r.Some? == rest.Some? && (r.Some? ==> r.value.1 == rest.value.1)
  {
    match rest case None => None case Some((s, after)) => Some((front + s, after))
  }

  /** Reads up to the closing quote, undoing the escapes. */
  function ReadQuoted(s: JsString): (r: Read<JsString>)
    ensures r.Some? ==> |r.value.1| < |s|
    decreases |s|
  {
    if s == [] || s[0] < 0x20 then None
    else if s[0] == QUOTE then Some(([], s[1..]))
    else if s[0] != BACKSLASH then Push([s[0]], ReadQuoted(s[1..]))
    else if |s| < 2 then None
    else if s[1] == LOWER_U then
      match HexUnit(s[2..])
      case None => None
      case Some(u) => Push([u], ReadQuoted(s[6..]))
    else
      match EscapedBy(s[1])
      case None => None
      case Some(u) => Push([u], ReadQuoted(s[2..]))
  }

  lemma EscapeLetterRoundTrip(u: Unit)
    requires EscapeLetter(u).Some?
    ensures EscapedBy(EscapeLetter(u).value) == Some(u) && EscapeLetter(u).value != LOWER_U
  {
  }

  lemma UnicodeEscapeRoundTrip(u: Unit, rest: JsString)
    ensures HexUnit((UnicodeEscape(u) + rest)[2..]) == Some(u)
  {
    var s := (UnicodeEscape(u) + rest)[2..];
    assert s[0] == Hex.Digit(u / 0x1000) && s[1] == Hex.Digit(u / 0x100 % 0x10);
    assert s[2] == Hex.Digit(u / 0x10 % 0x10) && s[3] == Hex.Digit(u % 0x10);
    FourDigits(u);
  }

  lemma FourDigits(u: Unit)
    ensures 0x1000 * (u / 0x1000) + 0x100 * (u / 0x100 % 0x10) + 0x10 * (u / 0x10 % 0x10) + u % 0x10 == u
  {
    assert u / 0x100 == 0x10 * (u / 0x1000) + u / 0x100 % 0x10;
    assert u / 0x10 == 0x10 * (u / 0x100) + u / 0x10 % 0x10;
  }

  lemma ReadEscapedUnit(u: Unit, rest: JsString)
    ensures ReadQuoted(EscapeUnit(u) + rest) == Push([u], ReadQuoted(rest))
  {
    var s := EscapeUnit(u) + rest;
    assert s[|EscapeUnit(u)|..] == rest;
    if EscapeLetter(u).Some? {
      EscapeLetterRoundTrip(u);
    } else if u < 0x20 || IsHigh(u) || IsLow(u) {
      UnicodeEscapeRoundTrip(u, rest);
    }
  }

  lemma PushPush(a: JsString, b: JsString, r: Read<JsString>)
    ensures Push(a, Push(b, r)) == Push(a + b, r)
  {
    if r.Some? {
      assert a + (b + r.value.0) == a + b + r.value.0;
    }
  }

  lemma ReadPlainUnit(u: Unit, rest: JsString)
    requires u >= 0x20 && u != QUOTE && u != BACKSLASH
    ensures ReadQuoted([u] + rest) == Push([u], ReadQuoted(rest))
  {
    assert ([u] + rest)[1..] == rest;
  }

  lemma ReadPairUnits(high: Unit, low: Unit, rest: JsString)
    requires IsHigh(high) && IsLow(low)
    ensures ReadQuoted([high, low] + rest) == Push([high, low], ReadQuoted(rest))
  {
    hide ReadQuoted;
    assert [high, low] + rest == [high] + ([low] + rest);
    ReadPlainUnit(high, [low] + rest);
    ReadPlainUnit(low, rest);
    PushPush([high], [low], ReadQuoted(rest));
    assert [high] + [low] == [high, low];
  }

  lemma ReadFront(front: JsString, text: JsString, s: JsString, rest: JsString)
    requires s != [] && front == s[..if StartsWithPair(s) then 2 else 1]
    requires text == if StartsWithPair(s) then front else EscapeUnit(s[0])
    ensures ReadQuoted(text + rest) == Push(front, ReadQuoted(rest))
  {
    hide ReadQuoted, EscapeUnit;
    if StartsWithPair(s) {
      assert front == [s[0], s[1]];
      ReadPairUnits(s[0], s[1], rest);
    } else {
      assert front == [s[0]];
      ReadEscapedUnit(s[0], rest);
    }
  }

  lemma ReadNothing(rest: JsString)
    ensures ReadQuoted(Escape([]) + [QUOTE] + rest) == Some(([], rest))
  {
    assert ([QUOTE] + rest)[1..] == rest;
    assert Escape([]) + [QUOTE] + rest == [QUOTE] + rest;
  }

  lemma {:induction false} ReadEscaped(s: JsString, rest: JsString)
    ensures ReadQuoted(Escape(s) + [QUOTE] + rest) == Some((s, rest))
    decreases |s|
  {
    hide Escape, EscapeUnit, ReadQuoted;
    if s == [] {
      ReadNothing(rest);
    } else {
      var n := if StartsWithPair(s) then 2 else 1;
      var front, back := s[..n], s[n..];
      var text := if StartsWithPair(s) then front else EscapeUnit(s[0]);
      EscapeFront(s, front, back, text);
      ReadEscaped(back, rest);
      var after := Escape(back) + [QUOTE] + rest;
      assert Escape(s) + [QUOTE] + rest == text + after;
      ReadFront(front, text, s, after);
      PushOnto(front, back, rest);
      assert s == front + back;
    }
  }

  lemma EscapeFront(s: JsString, front: JsString, back: JsString, text: JsString)
    requires s != [] && front + back == s
    requires |front| == if StartsWithPair(s) then 2 else 1
    requires text == if StartsWithPair(s) then front else EscapeUnit(s[0])
    ensures Escape(s) == text + Escape(back)
  {
    assert back == s[|front|..];
    if StartsWithPair(s) {
      assert front == [s[0], s[1]];
    }
  }

  lemma PushOnto(front: JsString, back: JsString, rest: JsString)
    ensures Push(front, Some((back, rest))) == Some((front + back, rest))
  {
  }

  lemma PlainUnits(s: JsString)
    requires forall i :: 0 <= i < |s| ==> !IsHigh(s[i]) && !IsLow(s[i])
    ensures WellFormed(s)
    decreases |s|
  {
    if s != [] {
      PlainUnits(s[1..]);
    }
  }

  /** The escaped text has no lone surrogate, whatever the string. */
  lemma {:induction false} EscapeWellFormed(s: JsString)
    ensures WellFormed(Escape(s))
    decreases |s|
  {
    if s == [] {
    } else if StartsWithPair(s) {
      EscapeWellFormed(s[2..]);
      assert Escape(s)[2..] == Escape(s[2..]);
    } else {
      EscapeWellFormed(s[1..]);
      PlainUnits(EscapeUnit(s[0]));
      WellFormedAppend(EscapeUnit(s[0]), Escape(s[1..]));
    }
  }

  lemma QuotedWellFormed(s: JsString)
    ensures WellFormed(Quoted(s))
  {
    EscapeWellFormed(s);
    PlainUnits([QUOTE]);
    WellFormedAppend([QUOTE], Escape(s));
    WellFormedAppend([QUOTE] + Escape(s), [QUOTE]);
  }

  // Integers.

  predicate IsDigit(u: Unit) {
    0x30 <= u <= 0x39
  }

  function Digits(n: nat): (r: JsString)
    ensures r != [] && forall i :: 0 <= i < |r| ==> IsDigit(r[i])
  {
    if n < 10 then [0x30 + n] else Digits(n / 10) + [0x30 + n % 10]
  }

  function Decimal(n: int): (r: JsString)
    ensures r != [] && (IsDigit(r[0]) || r[0] == MINUS)
    ensures forall i :: 0 <= i < |r| ==> r[i] < 0x80
  {
    if n < 0 then [MINUS] + Digits(-n) else Digits(n)
  }

  predicate StartsWithDigit(s: JsString) {
    s != [] && IsDigit(s[0])
  }

  function ReadDigits(seen: nat, s: JsString): (r: (nat, JsString))
    ensures |r.1| <= |s|
    ensures StartsWithDigit(s) ==> |r.1| < |s|
    decreases |s|
  {
    if StartsWithDigit(s) then ReadDigits(10 * seen + (s[0] - 0x30), s[1..]) else (seen, s)
  }

  function Negated(n: int): int {
    -n
  }

  function ReadDecimal(s: JsString): (r: Read<int>)
    ensures r.Some? ==> |r.value.1| < |s|
  {
    if StartsWithDigit(s) then
      var (n, rest) := ReadDigits(0, s);
      Some((n, rest))
    else if s != [] && s[0] == MINUS && StartsWithDigit(s[1..]) then
      var (n, rest) := ReadDigits(0, s[1..]);
      Some((Negated(n), rest))
    else None
  }

  lemma {:induction false} ReadDigitsBack(n: nat, rest: JsString)
    ensures ReadDigits(0, Digits(n) + rest) == ReadDigits(n, rest)
  {
    if n < 10 {
      assert (Digits(n) + rest)[1..] == rest;
    } else {
      var last: JsString := [0x30 + n % 10];
      assert Digits(n) + rest == Digits(n / 10) + (last + rest);
      ReadDigitsBack(n / 10, last + rest);
      assert (last + rest)[1..] == rest;
    }
  }

  lemma ReadDecimalBack(n: int, rest: JsString)
    requires !StartsWithDigit(rest)
    ensures ReadDecimal(Decimal(n) + rest) == Some((n, rest))
  {
    if n < 0 {
      ReadDigitsBack(-n, rest);
      assert (Decimal(n) + rest)[1..] == Digits(-n) + rest;
    } else {
      ReadDigitsBack(n, rest);
    }
  }

  // Which escapes are written.

  /** A unit as four lower-case hexadecimal digits. */
  function FourHex(u: Unit): JsString {
    var digits := Lit("0123456789abcdef");
    [digits[u / 0x1000], digits[u / 0x100 % 0x10], digits[u / 0x10 % 0x10], digits[u % 0x10]]
  }

  /** The short escapes where there are any, else lower-case hexadecimal, and only where it is needed. */
  lemma EscapesAre(u: Unit)
    ensures EscapeUnit(u) ==
            if u == 0x08 then Lit("\\b") else if u == 0x09 then Lit("\\t") else if u == 0x0A then Lit("\\n")
            else if u == 0x0C then Lit("\\f") else if u == 0x0D then Lit("\\r")
            else if u == 0x22 then Lit("\\\"") else if u == 0x5C then Lit("\\\\")
            else if u < 0x20 || 0xD800 <= u < 0xE000 then Lit("\\u") + FourHex(u)
            else [u]
  {
    Hex.DigitsAre(u / 0x1000);
    Hex.DigitsAre(u / 0x100 % 0x10);
    Hex.DigitsAre(u / 0x10 % 0x10);
    Hex.DigitsAre(u % 0x10);
    hide Hex.Digit;
    assert Lit("\\u") == [BACKSLASH, LOWER_U];
  }

  /** A text without anything to escape is kept as it is, surrogate pairs included. */
  lemma {:induction false} PlainTextKept(s: JsString)
    requires WellFormed(s) && forall i :: 0 <= i < |s| ==> s[i] >= 0x20 && s[i] != QUOTE && s[i] != BACKSLASH
    ensures Escape(s) == s
    decreases |s|
  {
    if s == [] {
    } else if StartsWithPair(s) {
      PlainTextKept(s[2..]);
      assert s == [s[0], s[1]] + s[2..];
    } else {
      PlainTextKept(s[1..]);
      assert s == [s[0]] + s[1..];
    }
  }

  /** No shorter text is read as the same unit. */
  lemma ShortestEscape(u: Unit, x: JsString)
    requires !IsHigh(u) && !IsLow(u) && StandsFor(x, u)
    ensures |EscapeUnit(u)| <= |x|
  {
    hide *;
    EscapeLengths(u);
    if |x| < 6 {
      ReadShort(x, u);
    }
  }

  /** Before a closing quote the text is read as this unit. */
  predicate StandsFor(x: JsString, u: Unit) {
    ReadQuoted(x + [QUOTE]) == Some(([u], []))
  }

  lemma EscapeLengths(u: Unit)
    requires !IsHigh(u) && !IsLow(u)
    ensures |EscapeUnit(u)| == if EscapeLetter(u).Some? then 2 else if u < 0x20 then 6 else 1
    ensures EscapeLetter(u).Some? ==> u < 0x20 || u == QUOTE || u == BACKSLASH
  {
  }

  /** A text shorter than six units stands for a unit that needs no escape, or that has a short one. */
  lemma ReadShort(x: JsString, u: Unit)
    requires |x| < 6 && StandsFor(x, u)
    ensures x != []
    ensures |x| == 1 ==> u >= 0x20 && u != QUOTE && u != BACKSLASH
    ensures u >= 0x20 || EscapeLetter(u).Some?
  {
    hide ReadQuoted, EscapeLetter;
    var s := x + [QUOTE];
    ReadQuoteAlone();
    assert x == [] ==> s == [QUOTE];
    assert |x| == 1 ==> s == [x[0], QUOTE];
    if s[0] != BACKSLASH {
      ReadPlainFirst(s, u);
    } else {
      ReadEscapeFirst(s, u);
    }
  }

  lemma ReadQuoteAlone()
    ensures ReadQuoted([QUOTE]) == Some(([], [])) && ReadQuoted([BACKSLASH, QUOTE]) == None
  {
    assert [QUOTE][1..] == [];
    var s := [BACKSLASH, QUOTE];
    assert ReadQuoted(s) == Push([QUOTE], ReadQuoted(s[2..])) && s[2..] == [];
  }

  lemma ReadPlainFirst(s: JsString, u: Unit)
    requires s != [] && s[0] != BACKSLASH && ReadQuoted(s) == Some(([u], []))
    ensures u == s[0] && u >= 0x20 && u != QUOTE
  {
    assert s[0] >= 0x20 && s[0] != QUOTE;
    var rest := ReadQuoted(s[1..]);
    assert ReadQuoted(s) == Push([s[0]], rest);
    assert ([s[0]] + rest.value.0)[0] == s[0];
  }

  lemma ReadEscapeFirst(s: JsString, u: Unit)
    requires 0 < |s| < 7 && s[0] == BACKSLASH && s[|s| - 1] == QUOTE && ReadQuoted(s) == Some(([u], []))
    ensures EscapeLetter(u).Some?
  {
    assert |s| >= 2;
    if s[1] == LOWER_U {
      NoQuoteInHex(s);
    } else {
      var rest := ReadQuoted(s[2..]);
      var e := EscapedBy(s[1]);
      assert e.Some? && ReadQuoted(s) == Push([e.value], rest);
      assert ([e.value] + rest.value.0)[0] == e.value;
      EscapedByLetter(s[1]);
    }
  }

  lemma EscapedByLetter(c: Unit)
    requires EscapedBy(c).Some?
    ensures EscapeLetter(EscapedBy(c).value).Some?
  {
  }

  lemma NoQuoteInHex(s: JsString)
    requires 2 <= |s| < 7 && s[|s| - 1] == QUOTE
    ensures HexUnit(s[2..]).None?
  {
    if |s| == 6 {
      assert s[2..][3] == QUOTE && Hex.Value(QUOTE).None?;
    }
  }
}
