/** The CLI's CRC-32, its table-driven form, and the bursts it detects. */
module Crc32 {
  import opened Bytes

  const POLYNOMIAL: u32 := 0xedb8_8320

  const ALL_ONES: u32 := 0xffff_ffff

  // Exclusive-or of words, bit by bit.

  function Xor(a: nat, b: nat): nat
    decreases a + b
  {
    if a == 0 && b == 0 then 0 else (a + b) % 2 + 2 * Xor(a / 2, b / 2)
  }

  lemma Pow2Values()
    ensures Pow2(8) == 0x100 && Pow2(31) == 0x8000_0000 && Pow2(32) == 0x1_0000_0000
  {
    assert Pow2(8) == 0x100 && Pow2(16) == 0x1_0000 && Pow2(24) == 0x100_0000;
  }

  lemma {:induction false} XorBound(a: nat, b: nat, k: nat)
    requires a < Pow2(k) && b < Pow2(k)
    ensures Xor(a, b) < Pow2(k)
    decreases k
  {
    if k != 0 {
      XorBound(a / 2, b / 2, k - 1);
    }
  }

  function XorWords(a: u32, b: u32): u32 {
    Pow2Values();
    XorBound(a, b, 32);
    Xor(a, b)
  }

  function Shift(c: u32): u32 {
    if c % 2 == 1 then XorWords(c / 2, POLYNOMIAL) else c / 2
  }

  function ShiftN(c: u32, n: nat): u32
    decreases n
  {
    if n == 0 then c else ShiftN(Shift(c), n - 1)
  }

  /** The register after one more byte. */
  function Step(c: u32, b: byte): u32 {
    ShiftN(XorWords(c, b), 8)
  }

  /** The register after a byte string. */
  function Register(c: u32, bytes: Bytes): u32
    decreases |bytes|
  {
    if bytes == [] then c else Register(Step(c, bytes[0]), bytes[1..])
  }

  function Checksum(bytes: Bytes): u32 {
    ALL_ONES - Register(ALL_ONES, bytes)
  }

  method Compute(bytes: Bytes) returns (crc: u32)
    ensures crc == Checksum(bytes)
  {
    crc := ALL_ONES;
    for i := 0 to |bytes|
      invariant Register(crc, bytes[i..]) == Register(ALL_ONES, bytes)
    {
      ghost var next := Step(crc, bytes[i]);
      crc := XorWords(crc, bytes[i]);
      for k := 0 to 8
        invariant ShiftN(crc, 8 - k) == next
      {
        if crc % 2 == 1 {
          crc := XorWords(crc / 2, POLYNOMIAL);
        } else {
          crc := crc / 2;
        }
      }
      assert bytes[i..][1..] == bytes[i + 1..];
    }
    crc := ALL_ONES - crc;
  }

  // Exclusive-or is an abelian group in which every word is its own inverse.

  lemma {:induction false} XorCommutes(a: nat, b: nat)
    ensures Xor(a, b) == Xor(b, a)
    decreases a + b
  {
    if a + b != 0 {
      XorCommutes(a / 2, b / 2);
    }
  }

  lemma {:induction false} XorZero(a: nat)
    ensures Xor(a, 0) == a
  {
    if a != 0 {
      XorZero(a / 2);
    }
  }

  lemma XorParity(a: nat, b: nat)
    ensures Xor(a, b) % 2 == (a + b) % 2
  {
    if a != 0 || b != 0 {
      var half := Xor(a / 2, b / 2);
      assert Xor(a, b) == (a + b) % 2 + 2 * half;
      hide Xor;
      BitBelow((a + b) % 2, half);
    }
  }

  lemma BitBelow(bit: nat, half: nat)
    requires bit < 2
    ensures (bit + 2 * half) % 2 == bit
  {
  }

  lemma XorHalf(a: nat, b: nat)
    ensures Xor(a, b) / 2 == Xor(a / 2, b / 2)
  {
    var r, x := (a + b) % 2, Xor(a / 2, b / 2);
    assert Xor(a, b) == r + 2 * x;
  }

  lemma XorHalves(a: nat, b: nat, x: nat)
    requires x == Xor(a, b)
    ensures x % 2 == (a + b) % 2 && x / 2 == Xor(a / 2, b / 2)
  {
    XorParity(a, b);
    XorHalf(a, b);
  }

  lemma {:induction false} XorAssociates(a: nat, b: nat, c: nat)
    ensures Xor(Xor(a, b), c) == Xor(a, Xor(b, c))
    decreases a + b + c
  {
    if a + b + c != 0 {
      XorAssociates(a / 2, b / 2, c / 2);
      XorAssociatesAbove(a, b, c, Xor(a, b), Xor(b, c));
    }
  }

  lemma XorAssociatesAbove(a: nat, b: nat, c: nat, ab: nat, bc: nat)
    requires ab == Xor(a, b) && bc == Xor(b, c)
    requires Xor(Xor(a / 2, b / 2), c / 2) == Xor(a / 2, Xor(b / 2, c / 2))
    ensures Xor(ab, c) == Xor(a, bc)
  {
    hide Xor;
    XorHalves(a, b, ab);
    XorHalves(b, c, bc);
    SumParity(a, b, c, ab, bc);
    SameHalves(ab, c, a, bc);
  }

  lemma SumParity(a: nat, b: nat, c: nat, ab: nat, bc: nat)
    requires ab % 2 == (a + b) % 2 && bc % 2 == (b + c) % 2
    ensures (ab + c) % 2 == (a + bc) % 2
  {
  }

  lemma SameHalves(a: nat, b: nat, c: nat, d: nat)
    requires (a + b) % 2 == (c + d) % 2
    requires Xor(a / 2, b / 2) == Xor(c / 2, d / 2)
    ensures Xor(a, b) == Xor(c, d)
  {
    XorHalves(a, b, Xor(a, b));
    XorHalves(c, d, Xor(c, d));
  }

  lemma {:induction false} XorCancels(a: nat, b: nat, c: nat)
    requires Xor(a, c) == Xor(b, c)
    ensures a == b
    decreases a + b + c
  {
    if a + b + c != 0 {
      hide Xor;
      XorHalves(a, c, Xor(a, c));
      XorHalves(b, c, Xor(b, c));
      XorCancels(a / 2, b / 2, c / 2);
      SameWord(a, b, c);
    }
  }

  lemma SameWord(a: nat, b: nat, c: nat)
    requires (a + c) % 2 == (b + c) % 2 && a / 2 == b / 2
    ensures a == b
  {
  }

  /** A word moved up by k bits. */
  function Up(w: nat, k: nat): nat
    decreases k
  {
    if k == 0 then w else 2 * Up(w, k - 1)
  }

  lemma UpAByte(w: nat)
    ensures Up(w, 8) == 0x100 * w
  {
    assert Up(w, 4) == 0x10 * w;
  }

  /** Words with no bit in common. */
  lemma {:induction false} XorDisjoint(low: nat, high: nat, k: nat)
    requires low < Pow2(k)
    ensures Xor(low, Up(high, k)) == low + Up(high, k)
    decreases k
  {
    hide Xor;
    if k == 0 {
      XorZero(high);
      XorCommutes(0, high);
    } else {
      XorDisjoint(low / 2, high, k - 1);
      XorHalves(low, Up(high, k), Xor(low, Up(high, k)));
      FromHalves(Xor(low, Up(high, k)), low, Up(high, k - 1));
    }
  }

  lemma FromHalves(x: nat, a: nat, b: nat)
    requires x % 2 == (a + 2 * b) % 2 && x / 2 == a / 2 + b
    ensures x == a + 2 * b
  {
  }

  lemma XorBytes(low: byte, high: nat)
    ensures Xor(low, 0x100 * high) == low + 0x100 * high
  {
    Pow2Values();
    UpAByte(high);
    XorDisjoint(low, high, 8);
  }

  // Shifting is linear over exclusive-or and one-to-one.

  lemma ShiftXor(c: u32, w: nat)
    requires 2 * w <= ALL_ONES
    ensures Shift(XorWords(c, 2 * w)) == XorWords(Shift(c), w)
  {
    hide Xor;
    XorHalves(c, 2 * w, XorWords(c, 2 * w));
    XorAssociates(c / 2, w, POLYNOMIAL);
    XorAssociates(c / 2, POLYNOMIAL, w);
    XorCommutes(w, POLYNOMIAL);
  }

  lemma {:induction false} ShiftNXor(c: u32, w: nat, n: nat)
    requires Up(w, n) <= ALL_ONES
    ensures w <= ALL_ONES
    ensures ShiftN(XorWords(c, Up(w, n)), n) == XorWords(ShiftN(c, n), w)
    decreases n
  {
    hide Xor;
    if n != 0 {
      ShiftXor(c, Up(w, n - 1));
      ShiftNXor(Shift(c), w, n - 1);
    }
  }

  lemma {:induction false} TopBitStays(a: nat, b: nat, k: nat)
    requires a < Pow2(k) <= b < Pow2(k + 1)
    ensures Xor(a, b) >= Pow2(k)
    decreases k
  {
    if k == 0 {
    } else {
      TopBitStays(a / 2, b / 2, k - 1);
    }
  }

  lemma ShiftInjective(c: u32, d: u32)
    requires Shift(c) == Shift(d)
    ensures c == d
  {
    Pow2Values();
    TopBitStays(c / 2, POLYNOMIAL, 31);
    TopBitStays(d / 2, POLYNOMIAL, 31);
    if c % 2 == 1 && d % 2 == 1 {
      XorCancels(c / 2, d / 2, POLYNOMIAL);
    }
  }

  lemma {:induction false} ShiftNInjective(c: u32, d: u32, n: nat)
    requires ShiftN(c, n) == ShiftN(d, n)
    ensures c == d
    decreases n
  {
    if n != 0 {
      ShiftNInjective(Shift(c), Shift(d), n - 1);
      ShiftInjective(c, d);
    }
  }

  lemma {:induction false} ShiftNAdds(c: u32, m: nat, n: nat)
    ensures ShiftN(ShiftN(c, m), n) == ShiftN(c, m + n)
    decreases m
  {
    if m != 0 {
      ShiftNAdds(Shift(c), m - 1, n);
    }
  }

  lemma {:induction false} RegisterInjective(c: u32, d: u32, bytes: Bytes)
    requires Register(c, bytes) == Register(d, bytes)
    ensures c == d
    decreases |bytes|
  {
    if bytes != [] {
      RegisterInjective(Step(c, bytes[0]), Step(d, bytes[0]), bytes[1..]);
      ShiftNInjective(XorWords(c, bytes[0]), XorWords(d, bytes[0]), 8);
      XorCancels(c, d, bytes[0]);
    }
  }

  lemma {:induction false} RegisterAppend(c: u32, x: Bytes, y: Bytes)
    ensures Register(c, x + y) == Register(Register(c, x), y)
    decreases |x|
  {
    if x == [] {
      assert x + y == y;
    } else {
      assert (x + y)[1..] == x[1..] + y;
      RegisterAppend(Step(c, x[0]), x[1..], y);
    }
  }

  // Up to four bytes enter the register as one little-endian word.

  function Window(x: Bytes): nat
    decreases |x|
  {
    if x == [] then 0 else x[0] + 0x100 * Window(x[1..])
  }

  lemma {:induction false} WindowFits(x: Bytes)
    requires |x| <= 4
    ensures Window(x) <= ALL_ONES && (|x| <= 3 ==> 0x100 * Window(x) <= ALL_ONES)
  {
    if |x| >= 1 { assert Window(x) == x[0] + 0x100 * Window(x[1..]); }
    if |x| >= 2 { assert Window(x[1..]) == x[1] + 0x100 * Window(x[2..]) by { assert x[1..][1..] == x[2..]; } }
    if |x| >= 3 { assert Window(x[2..]) == x[2] + 0x100 * Window(x[3..]) by { assert x[2..][1..] == x[3..]; } }
    if |x| >= 4 { assert Window(x[3..]) == x[3]; }
  }

  lemma {:induction false} WindowInjective(x: Bytes, y: Bytes)
    requires |x| == |y|
    requires Window(x) == Window(y)
    ensures x == y
    decreases |x|
  {
    if x != [] {
      WindowInjective(x[1..], y[1..]);
      assert x == [x[0]] + x[1..] && y == [y[0]] + y[1..];
    }
  }

  lemma {:induction false} RegisterOfWindow(c: u32, x: Bytes)
    requires |x| <= 4
    ensures Window(x) <= ALL_ONES
    ensures Register(c, x) == ShiftN(XorWords(c, Window(x)), 8 * |x|)
    decreases |x|
  {
    hide Xor;
    WindowFits(x);
    if x == [] {
      XorZero(c);
    } else {
      var rest := Window(x[1..]);
      WindowFits(x[1..]);
      XorBytes(x[0], rest);
      XorAssociates(c, x[0], 0x100 * rest);
      assert XorWords(c, Window(x)) == XorWords(XorWords(c, x[0]), 0x100 * rest);
      UpAByte(rest);
      ShiftNXor(XorWords(c, x[0]), rest, 8);
      RegisterOfWindow(Step(c, x[0]), x[1..]);
      ShiftNAdds(XorWords(c, Window(x)), 8, 8 * (|x| - 1));
    }
  }

  /** Changing only bytes within four consecutive ones always changes the checksum. */
  lemma BurstDetected(before: Bytes, x: Bytes, y: Bytes, after: Bytes)
    requires |x| == |y| <= 4
    requires x != y
    ensures Checksum(before + x + after) != Checksum(before + y + after)
  {
    if Checksum(before + x + after) == Checksum(before + y + after) {
      var c := Register(ALL_ONES, before);
      RegisterAppend(ALL_ONES, before + x, after);
      RegisterAppend(ALL_ONES, before + y, after);
      RegisterAppend(ALL_ONES, before, x);
      RegisterAppend(ALL_ONES, before, y);
      RegisterInjective(Register(c, x), Register(c, y), after);
      RegisterOfWindow(c, x);
      RegisterOfWindow(c, y);
      ShiftNInjective(XorWords(c, Window(x)), XorWords(c, Window(y)), 8 * |x|);
      XorCommutes(c, Window(x));
      XorCommutes(c, Window(y));
      XorCancels(Window(x), Window(y), c);
      WindowInjective(x, y);
    }
  }

  // The table-driven form of section 8 of RFC 1952.

  function TableEntry(n: byte): u32 {
    ShiftN(n, 8)
  }

  function TableUpdate(c: u32, bytes: Bytes): u32
    decreases |bytes|
  {
    if bytes == [] then c
    else TableUpdate(XorWords(TableEntry(XorWords(c, bytes[0]) % 0x100), c / 0x100), bytes[1..])
  }

  /** The RFC complements the register on the way in and on the way out. */
  function Rfc1952Update(crc: u32, bytes: Bytes): u32 {
    XorWords(TableUpdate(XorWords(crc, ALL_ONES), bytes), ALL_ONES)
  }

  lemma HighBytesUnchanged(c: u32, b: byte)
    ensures XorWords(c, b) / 0x100 == c / 0x100
  {
    hide Xor;
    Pow2Values();
    var low, high := c % 0x100, c / 0x100;
    XorBytes(low, high);
    XorBound(low, b, 8);
    XorBytes(Xor(low, b), high);
    XorAssociates(b, low, 0x100 * high);
    XorCommutes(c, b);
    XorCommutes(low, b);
  }

  lemma ShiftAByte(low: byte, high: nat)
    requires high <= 0xff_ffff
    ensures ShiftN(low + 0x100 * high, 8) == XorWords(ShiftN(low, 8), high)
  {
    hide Xor, ShiftN;
    XorBytes(low, high);
    UpAByte(high);
    ShiftNXor(low, high, 8);
  }

  lemma TableStep(c: u32, b: byte)
    ensures XorWords(TableEntry(XorWords(c, b) % 0x100), c / 0x100) == Step(c, b)
  {
    hide Xor, ShiftN;
    var z := XorWords(c, b);
    HighBytesUnchanged(c, b);
    ShiftAByte(z % 0x100, z / 0x100);
  }

  lemma {:induction false} TableUpdateAgrees(c: u32, bytes: Bytes)
    ensures TableUpdate(c, bytes) == Register(c, bytes)
    decreases |bytes|
  {
    if bytes != [] {
      TableStep(c, bytes[0]);
      TableUpdateAgrees(Step(c, bytes[0]), bytes[1..]);
    }
  }

  lemma {:induction false} XorOnesComplements(a: nat, ones: nat, k: nat)
    requires ones == Pow2(k) - 1 && a <= ones
    ensures Xor(a, ones) == ones - a
    decreases k
  {
    if k != 0 {
      hide Xor;
      var x := Xor(a, ones);
      assert ones / 2 == Pow2(k - 1) - 1 && ones % 2 == 1;
      XorOnesComplements(a / 2, ones / 2, k - 1);
      XorHalves(a, ones, x);
      ComplementHalves(a, ones, x);
    }
  }

  lemma ComplementHalves(a: nat, ones: nat, x: nat)
    requires ones % 2 == 1 && x % 2 == (a + ones) % 2
    requires x / 2 == ones / 2 - a / 2
    ensures x == ones - a
  {
  }

  /** The CLI's checksum is the CRC of RFC 1952. */
  lemma MatchesRfc1952(bytes: Bytes)
    ensures Checksum(bytes) == Rfc1952Update(0, bytes)
  {
    hide Xor;
    Pow2Values();
    XorOnesComplements(0, ALL_ONES, 32);
    TableUpdateAgrees(ALL_ONES, bytes);
    XorOnesComplements(Register(ALL_ONES, bytes), ALL_ONES, 32);
  }
}
