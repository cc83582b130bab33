/** JavaScript strings as UTF-16 code units, and their UTF-8 encoding by TextEncoder. */
module JsStrings {
  import opened Bytes
  import Lexicographic
  import Sorting

  type Unit = u16

  type JsString = seq<Unit>

  predicate IsAscii(s: string) {
    forall i :: 0 <= i < |s| ==> s[i] as int < 0x80
  }

  function AsciiUnit(c: char): Unit
    requires c as int < 0x80
  {
    c as int
  }

  /** A string constant of the source. */
  function Lit(s: string): (r: JsString)
    requires IsAscii(s)
    ensures |r| == |s| && forall i :: 0 <= i < |s| ==> r[i] == s[i] as int < 0x80
  {
    seq(|s|, i requires 0 <= i < |s| => AsciiUnit(s[i]))
  }

  predicate IsHigh(u: Unit) {
    0xD800 <= u < 0xDC00
  }

  predicate IsLow(u: Unit) {
    0xDC00 <= u < 0xE000
  }

  predicate StartsWithPair(s: JsString) {
    |s| >= 2 && IsHigh(s[0]) && IsLow(s[1])
  }

  /** No surrogate stands alone. */
  predicate WellFormed(s: JsString)
    decreases |s|
  {
    if s == [] then true
    else if StartsWithPair(s) then WellFormed(s[2..])
    else !IsHigh(s[0]) && !IsLow(s[0]) && WellFormed(s[1..])
  }

  function EncodeUnit(u: Unit): (r: Bytes)
    ensures 1 <= |r| <= 3
  {
    if u < 0x80 then [u]
    else if u < 0x800 then [0xC0 + u / 0x40, 0x80 + u % 0x40]
    else [0xE0 + u / 0x1000, 0x80 + u / 0x40 % 0x40, 0x80 + u % 0x40]
  }

  function EncodePair(high: Unit, low: Unit): (r: Bytes)
    requires IsHigh(high) && IsLow(low)
    ensures |r| == 4
  {
    var c := 0x1_0000 + (high - 0xD800) * 0x400 + (low - 0xDC00);
    [0xF0 + c / 0x4_0000, 0x80 + c / 0x1000 % 0x40, 0x80 + c / 0x40 % 0x40, 0x80 + c % 0x40]
  }

  /** TextEncoder: a lone surrogate becomes U+FFFD. */
  function Utf8(s: JsString): Bytes
    decreases |s|
  {
    if s == [] then []
    else if StartsWithPair(s) then EncodePair(s[0], s[1]) + Utf8(s[2..])
    else EncodeUnit(if IsHigh(s[0]) || IsLow(s[0]) then 0xFFFD else s[0]) + Utf8(s[1..])
  }

  predicate IsTail(b: Bytes, n: nat) {
    |b| > n && forall i :: 1 <= i <= n ==> 0x80 <= b[i] < 0xC0
  }

  /** Reads UTF-8 back into code units. */
  function FromUtf8(b: Bytes): Option<JsString>
    decreases |b|
  {
    if b == [] then Some([])
    else if b[0] < 0x80 then Prepend([b[0]], FromUtf8(b[1..]))
    else if 0xC0 <= b[0] < 0xE0 && IsTail(b, 1) then Prepend([Join2(b[0], b[1])], FromUtf8(b[2..]))
    else if 0xE0 <= b[0] < 0xF0 && IsTail(b, 2) then Prepend([Join3(b[0], b[1], b[2])], FromUtf8(b[3..]))
    else if 0xF0 <= b[0] < 0xF8 && IsTail(b, 3) then
      var c := Join4(b[0], b[1], b[2], b[3]);
      if 0x1_0000 <= c < 0x11_0000 then
        Prepend([0xD800 + (c - 0x1_0000) / 0x400, 0xDC00 + (c - 0x1_0000) % 0x400], FromUtf8(b[4..]))
      else None
    else None
  }

  function Join2(a: int, b: int): Unit
    requires 0xC0 <= a < 0xE0 && 0x80 <= b < 0xC0
  {
    (a - 0xC0) * 0x40 + (b - 0x80)
  }

  function Join3(a: int, b: int, c: int): Unit
    requires 0xE0 <= a < 0xF0 && 0x80 <= b < 0xC0 && 0x80 <= c < 0xC0
  {
    (a - 0xE0) * 0x1000 + (b - 0x80) * 0x40 + (c - 0x80)
  }

  function Join4(a: int, b: int, c: int, d: int): int {
    (a - 0xF0) * 0x4_0000 + (b - 0x80) * 0x1000 + (c - 0x80) * 0x40 + (d - 0x80)
  }

  function Prepend(front: JsString, rest: Option<JsString>): Option<JsString> {
    match rest case None => None case Some(s) => Some(front + s)
  }

  lemma ReadUnit(u: Unit, rest: Bytes)
    ensures FromUtf8(EncodeUnit(u) + rest) == Prepend([u], FromUtf8(rest))
  {
    var b := EncodeUnit(u) + rest;
    assert b[|EncodeUnit(u)|..] == rest;
  }

  lemma ReadPair(high: Unit, low: Unit, rest: Bytes)
    requires IsHigh(high) && IsLow(low)
    ensures FromUtf8(EncodePair(high, low) + rest) == Prepend([high, low], FromUtf8(rest))
  {
    var b := EncodePair(high, low) + rest;
    assert b[4..] == rest;
    var c := 0x1_0000 + (high - 0xD800) * 0x400 + (low - 0xDC00);
    SplitCodePoint(c);
    assert (c - 0x1_0000) / 0x400 == high - 0xD800;
  }

  lemma SplitCodePoint(c: nat)
    requires c < 0x11_0000
    ensures (c / 0x4_0000) * 0x4_0000 + (c / 0x1000 % 0x40) * 0x1000 + (c / 0x40 % 0x40) * 0x40 + c % 0x40 == c
  {
    var low, middle, high := c / 0x40, c / 0x1000, c / 0x4_0000;
    assert middle == low / 0x40 && high == middle / 0x40;
    assert c == low * 0x40 + c % 0x40;
    assert low == middle * 0x40 + low % 0x40;
    assert middle == high * 0x40 + middle % 0x40;
  }

  /** A string without lone surrogates is recovered from its encoding. */
  lemma {:induction false} Utf8RoundTrip(s: JsString)
    requires WellFormed(s)
    ensures FromUtf8(Utf8(s)) == Some(s)
    decreases |s|
  {
    if s == [] {
    } else if StartsWithPair(s) {
      ReadPair(s[0], s[1], Utf8(s[2..]));
      Utf8RoundTrip(s[2..]);
      assert s == [s[0], s[1]] + s[2..];
    } else {
      ReadUnit(s[0], Utf8(s[1..]));
      Utf8RoundTrip(s[1..]);
      assert s == [s[0]] + s[1..];
    }
  }

  /** A string whose encoding is ASCII is that ASCII, lone surrogates or not. */
  lemma {:induction false} AsciiUtf8(s: JsString)
    requires forall b :: b in Utf8(s) ==> b < 0x80
    ensures Utf8(s) == s
    decreases |s|
  {
    if s != [] {
      FirstOfUtf8(s);
      var rest := Utf8(s[1..]);
      assert Utf8(s)[0] in Utf8(s);
      assert Utf8(s) == [s[0]] + rest;
      assert forall b :: b in rest ==> b in Utf8(s);
      AsciiUtf8(s[1..]);
      assert s == [s[0]] + s[1..];
    }
  }

  lemma FirstOfUtf8(s: JsString)
    requires s != []
    ensures Utf8(s) != []
    ensures s[0] < 0x80 ==> Utf8(s) == [s[0]] + Utf8(s[1..])
    ensures s[0] >= 0x80 ==> Utf8(s)[0] >= 0x80
  {
  }

  lemma {:induction false} Utf8OfAscii(s: JsString)
    requires forall i :: 0 <= i < |s| ==> s[i] < 0x80
    ensures Utf8(s) == s
  {
    if s != [] {
      hide Utf8;
      FirstOfUtf8(s);
      Utf8OfAscii(s[1..]);
      var rest: Bytes := Utf8(s[1..]);
      assert rest == s[1..];
    } else {
      assert Utf8(s) == [];
    }
  }

  lemma HighBytes(u: Unit, high: Unit, low: Unit)
    ensures u >= 0x80 ==> forall b :: b in EncodeUnit(u) ==> b >= 0x80
    ensures u < 0x80 ==> EncodeUnit(u) == [u]
    ensures IsHigh(high) && IsLow(low) ==> forall b :: b in EncodePair(high, low) ==> b >= 0x80
  {
  }

  /** ASCII stands for itself, and nothing else does. */
  lemma {:induction false} Utf8Has(s: JsString, b: byte)
    requires b < 0x80
    ensures b in Utf8(s) <==> b in s
    decreases |s|
  {
    if s != [] {
      hide EncodeUnit, EncodePair;
      if StartsWithPair(s) {
        HighBytes(0, s[0], s[1]);
        Utf8Has(s[2..], b);
        assert s == [s[0], s[1]] + s[2..];
      } else {
        HighBytes(if IsHigh(s[0]) || IsLow(s[0]) then 0xFFFD else s[0], 0, 0);
        Utf8Has(s[1..], b);
        assert s == [s[0]] + s[1..];
      }
    }
  }

  lemma {:induction false} Utf8Length(s: JsString)
    ensures |Utf8(s)| <= 3 * |s|
    decreases |s|
  {
    if s == [] {
    } else if StartsWithPair(s) {
      Utf8Length(s[2..]);
    } else {
      Utf8Length(s[1..]);
    }
  }

  lemma {:induction false} WellFormedAppend(s: JsString, t: JsString)
    requires WellFormed(s) && WellFormed(t)
    ensures WellFormed(s + t)
    decreases |s|
  {
    if s == [] {
      assert s + t == t;
    } else if StartsWithPair(s) {
      assert (s + t)[2..] == s[2..] + t;
      WellFormedAppend(s[2..], t);
    } else {
      assert (s + t)[1..] == s[1..] + t;
      WellFormedAppend(s[1..], t);
    }
  }

  // JavaScript's string order compares code units.

  predicate Less(a: JsString, b: JsString) {
    Lexicographic.Less(a, b)
  }

  lemma IsStrictOrder()
    ensures Sorting.StrictOrder(Less) && Sorting.Connected(Less)
  {
    forall x: JsString, y: JsString, z: JsString
      ensures !Less(x, x) && (Less(x, y) && Less(y, z) ==> Less(x, z)) && (Less(x, z) ==> Less(x, y) || Less(y, z))
      ensures x == y || Less(x, y) || Less(y, x)
    {
      Lexicographic.Irreflexive(x);
      Lexicographic.Connected(x, y);
      if Less(x, y) && Less(y, z) { Lexicographic.Transitive(x, y, z); }
      if Less(x, z) && Less(y, x) { Lexicographic.Transitive(y, x, z); }
    }
  }

  /** The forms of UTF-8: one to three bytes for a unit, four for a pair. */
  lemma EncodingsAre(u: Unit)
    ensures u < 0x80 ==> EncodeUnit(u) == [u]
    ensures 0x80 <= u < 0x800 ==> EncodeUnit(u) == [192 + u / 64, 128 + u % 64]
    ensures u >= 0x800 ==> EncodeUnit(u) == [224 + u / 4096, 128 + u / 64 % 64, 128 + u % 64]
    ensures EncodePair(0xD83D, 0xDE00) == [0xF0, 0x9F, 0x98, 0x80]
  {
  }
}
