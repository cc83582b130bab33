/** Unicode text as UTF-16, and so as UTF-8. */
module Texts {
  import opened Bytes
  import opened JsStrings

  function Units(c: char): (r: JsString)
    ensures 1 <= |r| <= 2
  {
    var code := c as int;
    if code < 0x1_0000 then [code]
    else [0xD800 + (code - 0x1_0000) / 0x400, 0xDC00 + (code - 0x1_0000) % 0x400]
  }

  function Utf16(s: string): JsString {
    if s == "" then [] else Units(s[0]) + Utf16(s[1..])
  }

  function TextBytes(s: string): Bytes {
    Utf8(Utf16(s))
  }

  lemma UnitsWellFormed(c: char)
    ensures WellFormed(Units(c))
    ensures |Units(c)| == 2 <==> IsHigh(Units(c)[0])
  {
    var u := Units(c);
    assert c as int < 0xD800 || c as int >= 0xE000;
    if |u| == 2 {
      assert u[2..] == [];
    } else {
      assert u[1..] == [];
    }
  }

  lemma {:induction false} Utf16WellFormed(s: string)
    ensures WellFormed(Utf16(s))
  {
    if s != "" {
      hide WellFormed, Units;
      UnitsWellFormed(s[0]);
      Utf16WellFormed(s[1..]);
      WellFormedAppend(Units(s[0]), Utf16(s[1..]));
    } else {
      assert WellFormed([]);
    }
  }

  lemma UnitsInjective(c: char, d: char)
    requires Units(c) == Units(d)
    ensures c == d
  {
    var m, n := c as int, d as int;
    assert m == n by {
      var u, v := Units(c), Units(d);
      if |u| == 2 {
        assert u[0] == v[0] && u[1] == v[1];
        SplitPair(m - 0x1_0000);
        SplitPair(n - 0x1_0000);
      } else {
        assert u[0] == v[0];
      }
    }
  }

  lemma SplitPair(n: nat)
    ensures n == n / 0x400 * 0x400 + n % 0x400
  {
  }

  lemma {:induction false} Utf16Injective(s: string, t: string)
    requires Utf16(s) == Utf16(t)
    ensures s == t
  {
    if s != "" && t != "" {
      var a, b := Units(s[0]), Units(t[0]);
      var x, y := Utf16(s), Utf16(t);
      UnitsWellFormed(s[0]);
      UnitsWellFormed(t[0]);
      assert x[0] == a[0] && y[0] == b[0];
      hide Units, WellFormed;
      assert |a| == |b|;
      assert x[..|a|] == a && y[..|b|] == b;
      assert x[|a|..] == Utf16(s[1..]) && y[|b|..] == Utf16(t[1..]);
      UnitsInjective(s[0], t[0]);
      Utf16Injective(s[1..], t[1..]);
      assert s == [s[0]] + s[1..] && t == [t[0]] + t[1..];
    }
  }

  lemma {:induction false} Utf16Has(s: string, c: char)
    requires c < '\U{0080}'
    ensures c as int in Utf16(s) <==> c in s
  {
    if s != "" {
      Utf16Has(s[1..], c);
      assert s == [s[0]] + s[1..];
      assert c as int in Units(s[0]) <==> c == s[0];
      hide Units;
    }
  }

  /** An ASCII character is among the bytes exactly when it is in the text, and first when it is first. */
  lemma TextBytesHas(s: string, c: char)
    requires c < '\U{0080}'
    ensures c as int in TextBytes(s) <==> c in s
    ensures s != "" ==> TextBytes(s) != [] && (TextBytes(s)[0] == c as int <==> s[0] == c)
  {
    Utf16Has(s, c);
    Utf8Has(Utf16(s), c as int);
    if s != "" {
      assert Utf16(s) == Units(s[0]) + Utf16(s[1..]);
      FirstOfUtf8(Utf16(s));
      assert Utf16(s)[0] == Units(s[0])[0];
      hide Utf8, Utf16;
    }
  }

  predicate IsAsciiText(s: string) {
    forall i :: 0 <= i < |s| ==> s[i] < '\U{0080}'
  }

  lemma {:induction false} Utf16OfAscii(s: string)
    requires IsAsciiText(s)
    ensures |Utf16(s)| == |s| && forall i :: 0 <= i < |s| ==> Utf16(s)[i] == s[i] as int
  {
    if s != "" {
      assert Units(s[0]) == [s[0] as int];
      Utf16OfAscii(s[1..]);
    }
  }

  /** The bytes of an ASCII text are its characters, in this encoding and in any other that extends ASCII. */
  lemma AsciiTextBytes(s: string)
    requires IsAsciiText(s)
    ensures |TextBytes(s)| == |s| && forall i :: 0 <= i < |s| ==> TextBytes(s)[i] == s[i] as int < 0x80
  {
    hide Utf8, Utf16;
    Utf16OfAscii(s);
    Utf8OfAscii(Utf16(s));
  }

  /** Different texts have different bytes. */
  lemma TextBytesInjective(s: string, t: string)
    requires TextBytes(s) == TextBytes(t)
    ensures s == t
  {
    hide Utf8, Utf16, WellFormed, FromUtf8;
    Utf16WellFormed(s);
    Utf16WellFormed(t);
    Utf8RoundTrip(Utf16(s));
    Utf8RoundTrip(Utf16(t));
    Utf16Injective(s, t);
  }
}
