/** The checksum as what it stands for: a remainder of polynomials whose coefficients are bits. */
module CrcDivision {
  import opened Bytes
  import opened Crc32

  /** The coefficients of a polynomial, that of the highest power first. */
  type Bits = seq<bool>

  /** The powers below 32 in the generator of the CRC-32; its leading power is 32. */
  const EXPONENTS: seq<nat> := [26, 23, 22, 16, 12, 11, 10, 8, 7, 5, 4, 2, 1, 0]

  /** The coefficients of the generator, from power 31 down. */
  function Generator(): (r: Bits)
    ensures |r| == 32 && forall i :: 0 <= i < 32 ==> r[i] == (31 - i in EXPONENTS)
  {
    seq(32, i requires 0 <= i < 32 => 31 - i in EXPONENTS)
  }

  function Zeros32(): (r: Bits)
    ensures |r| == 32 && forall i :: 0 <= i < 32 ==> !r[i]
  {
    seq(32, i requires 0 <= i < 32 => false)
  }

  function XorBits(a: Bits, b: Bits): (r: Bits)
    requires |a| == |b|
    ensures |r| == |a| && forall i :: 0 <= i < |a| ==> r[i] == (a[i] != b[i])
  {
    seq(|a|, i requires 0 <= i < |a| => a[i] != b[i])
  }

  function Complement(a: Bits): (r: Bits)
    ensures |r| == |a| && forall i :: 0 <= i < |a| ==> r[i] == !a[i]
  {
    seq(|a|, i requires 0 <= i < |a| => !a[i])
  }

  /** Long division by the generator: what is left below power 32. */
  function Remainder(d: Bits): (r: Bits)
    requires |d| >= 32
    ensures |r| == 32
    decreases |d|
  {
    if |d| == 32 then d
    else if d[0] then Remainder(XorBits(d[1..33], Generator()) + d[33..])
    else Remainder(d[1..])
  }

  /** The k lowest bits of a number, the lowest first. */
  function BitsOf(n: nat, k: nat): (r: Bits)
    ensures |r| == k
    decreases k
  {
    if k == 0 then [] else [n % 2 == 1] + BitsOf(n / 2, k - 1)
  }

  /** The bits of a message in the order in which they are sent: of each byte the lowest first. */
  function MessageBits(bytes: Bytes): Bits {
    if bytes == [] then [] else BitsOf(bytes[0], 8) + MessageBits(bytes[1..])
  }

  /** The message times x^32, with its first 32 bits complemented. */
  function Dividend(bytes: Bytes): (r: Bits)
    ensures |r| >= 32
  {
    var d := MessageBits(bytes) + Zeros32();
    Complement(d[..32]) + d[32..]
  }

  // The register bit by bit.

  function Bit(b: bool): u32 {
    if b then 1 else 0
  }

  function BitStep(c: u32, b: bool): u32 {
    Shift(XorWords(c, Bit(b)))
  }

  function BitRegister(c: u32, m: Bits): u32
    decreases |m|
  {
    if m == [] then c else BitRegister(BitStep(c, m[0]), m[1..])
  }

  lemma {:induction false} BitRegisterAppend(c: u32, m: Bits, n: Bits)
    ensures BitRegister(c, m + n) == BitRegister(BitRegister(c, m), n)
    decreases |m|
  {
    hide BitStep;
    if m == [] {
      assert m + n == n;
    } else {
      assert (m + n)[1..] == m[1..] + n;
      BitRegisterAppend(BitStep(c, m[0]), m[1..], n);
    }
  }

  lemma LowBit(c: u32, w: u32)
    ensures XorWords(c, w) == XorWords(XorWords(c, w % 2), 2 * (w / 2))
  {
    hide Xor;
    var low, high: nat := w % 2, w / 2;
    assert Pow2(1) == 2 * Pow2(0) == 2;
    assert Up(high, 1) == 2 * Up(high, 0) == 2 * high;
    XorDisjoint(low, high, 1);
    XorAssociates(c, low, 2 * high);
  }

  /** Taking in n bits at once and then shifting n times is taking them in one by one. */
  lemma {:induction false} BitsOneByOne(c: u32, w: u32, n: nat)
    requires w < Pow2(n)
    ensures BitRegister(c, BitsOf(w, n)) == ShiftN(XorWords(c, w), n)
    decreases n
  {
    hide Xor, Shift;
    if n == 0 {
      XorZero(c);
    } else {
      var low := w % 2 == 1;
      LowBit(c, w);
      ShiftXor(XorWords(c, Bit(low)), w / 2);
      BitsOneByOne(BitStep(c, low), w / 2, n - 1);
      assert BitsOf(w, n)[1..] == BitsOf(w / 2, n - 1);
    }
  }

  lemma {:induction false} RegisterByBits(c: u32, bytes: Bytes)
    ensures BitRegister(c, MessageBits(bytes)) == Register(c, bytes)
    decreases |bytes|
  {
    hide Xor, ShiftN, BitStep;
    if bytes != [] {
      Pow2Values();
      BitsOneByOne(c, bytes[0], 8);
      BitRegisterAppend(c, BitsOf(bytes[0], 8), MessageBits(bytes[1..]));
      RegisterByBits(Step(c, bytes[0]), bytes[1..]);
    }
  }

  // Bits of words.

  lemma {:induction false} BitsOfXor(a: nat, b: nat, k: nat)
    ensures BitsOf(Xor(a, b), k) == XorBits(BitsOf(a, k), BitsOf(b, k))
    decreases k
  {
    hide Xor;
    if k > 0 {
      XorHalves(a, b, Xor(a, b));
      BitsOfXor(a / 2, b / 2, k - 1);
    }
  }

  lemma {:induction false} BitsOfHalf(n: nat, k: nat)
    requires n < Pow2(k + 1)
    ensures BitsOf(n / 2, k + 1) == BitsOf(n, k + 1)[1..] + [false]
    decreases k
  {
    if k == 0 {
      assert Pow2(1) == 2 * Pow2(0) == 2;
      assert BitsOf(n / 2, 1) == [false] + BitsOf(n / 4, 0);
    } else {
      assert n / 2 < Pow2(k);
      BitsOfHalf(n / 2, k - 1);
      assert BitsOf(n, k + 1)[1..] == BitsOf(n / 2, k);
    }
  }

  /** The constant that the register is combined with is the generator. */
  lemma PolynomialIsGenerator()
    ensures BitsOf(POLYNOMIAL, 32) == Generator()
  {
    hide BitsOf, Generator;
    BytesOfWord(0x20, 0x83, 0xb8, 0xed);
    BitsOfBytes();
    GeneratorBytes();
    var g := Generator();
    assert g == g[..8] + g[8..16] + g[16..24] + g[24..];
  }

  lemma BitsOfBytes()
    ensures BitsOf(0x20, 8) == [false, false, false, false, false, true, false, false]
    ensures BitsOf(0x83, 8) == [true, true, false, false, false, false, false, true]
    ensures BitsOf(0xb8, 8) == [false, false, false, true, true, true, false, true]
    ensures BitsOf(0xed, 8) == [true, false, true, true, false, true, true, true]
  {
    hide BitsOf;
    EightBits(0x0, 0x2);
    EightBits(0x3, 0x8);
    EightBits(0x8, 0xb);
    EightBits(0xd, 0xe);
  }

  function Nibble(n: nat): (r: Bits)
    ensures |r| == 4
  {
    [n % 2 == 1, n / 2 % 2 == 1, n / 4 % 2 == 1, n / 8 % 2 == 1]
  }

  lemma UpANibble(w: nat)
    ensures Pow2(4) == 0x10 && Up(w, 4) == 0x10 * w
  {
    assert Up(w, 2) == 4 * w;
  }

  lemma EightBits(low: nat, high: nat)
    requires low < 16 && high < 16
    ensures BitsOf(low + 0x10 * high, 8) == Nibble(low) + Nibble(high)
  {
    hide BitsOf, Pow2, Up, Nibble;
    UpANibble(high);
    FourBits(low);
    FourBits(high);
    BitsOfSum(low, high, 4, 4);
  }

  lemma FourBits(n: nat)
    ensures BitsOf(n, 4) == Nibble(n)
  {
    assert n / 2 / 2 == n / 4 && n / 4 / 2 == n / 8;
    NoBits(n / 16);
    assert BitsOf(n / 8, 1) == [n / 8 % 2 == 1] + BitsOf(n / 8 / 2, 0);
    assert BitsOf(n / 4, 2) == [n / 4 % 2 == 1] + BitsOf(n / 8, 1);
    assert BitsOf(n / 2, 3) == [n / 2 % 2 == 1] + BitsOf(n / 4, 2);
  }

  lemma NoBits(n: nat)
    ensures BitsOf(n, 0) == []
  {
  }

  lemma GeneratorBytes()
    ensures Generator()[..8] == [false, false, false, false, false, true, false, false]
    ensures Generator()[8..16] == [true, true, false, false, false, false, false, true]
    ensures Generator()[16..24] == [false, false, false, true, true, true, false, true]
    ensures Generator()[24..] == [true, false, true, true, false, true, true, true]
  {
    forall n: nat ensures n in EXPONENTS <==> IsExponent(n) {
      ExponentsAre(n);
    }
    hide EXPONENTS;
  }

  predicate IsExponent(n: nat) {
    n == 26 || n == 23 || n == 22 || n == 16 || n == 12 || n == 11 || n == 10 || n == 8 || n == 7 || n == 5 || n == 4
    || n == 2 || n == 1 || n == 0
  }

  lemma ExponentsAre(n: nat)
    ensures n in EXPONENTS <==> IsExponent(n)
  {
  }

  lemma {:induction false} BitsOfSum(low: nat, high: nat, k: nat, n: nat)
    requires low < Pow2(k)
    ensures BitsOf(low + Up(high, k), k + n) == BitsOf(low, k) + BitsOf(high, n)
    decreases k
  {
    if k == 0 {
      assert BitsOf(low, 0) + BitsOf(high, n) == BitsOf(high, n);
    } else {
      var p := Up(high, k - 1);
      HalvesOfSum(low, p);
      BitsOfSum(low / 2, high, k - 1, n);
    }
  }

  lemma HalvesOfSum(low: nat, p: nat)
    ensures (low + 2 * p) % 2 == low % 2 && (low + 2 * p) / 2 == low / 2 + p
  {
  }

  lemma LowByte(low: byte, high: nat, n: nat)
    ensures BitsOf(low + 0x100 * high, 8 + n) == BitsOf(low, 8) + BitsOf(high, n)
  {
    hide BitsOf, Up;
    Pow2Values();
    UpAByte(high);
    BitsOfSum(low, high, 8, n);
  }

  lemma BytesOfWord(a: byte, b: byte, c: byte, e: byte)
    ensures BitsOf(a + 0x100 * (b + 0x100 * (c + 0x100 * e)), 32) == BitsOf(a, 8) + BitsOf(b, 8) + BitsOf(c, 8) + BitsOf(e, 8)
  {
    hide BitsOf;
    LowByte(c, e, 8);
    LowByte(b, c + 0x100 * e, 16);
    LowByte(a, b + 0x100 * (c + 0x100 * e), 24);
    Regroup(BitsOf(a, 8), BitsOf(b, 8), BitsOf(c, 8), BitsOf(e, 8));
  }

  lemma Regroup(a: Bits, b: Bits, c: Bits, e: Bits)
    ensures a + (b + (c + e)) == a + b + c + e
  {
  }

  lemma {:induction false} BitsOfComplement(n: nat, k: nat)
    requires n < Pow2(k)
    ensures BitsOf(Pow2(k) - 1 - n, k) == Complement(BitsOf(n, k))
    decreases k
  {
    if k > 0 {
      var c := Pow2(k) - 1 - n;
      assert c % 2 == 1 - n % 2 && c / 2 == Pow2(k - 1) - 1 - n / 2;
      BitsOfComplement(n / 2, k - 1);
    }
  }

  lemma {:induction false} BitsOfZero(k: nat)
    ensures forall i :: 0 <= i < k ==> !BitsOf(0, k)[i]
    decreases k
  {
    if k > 0 {
      BitsOfZero(k - 1);
    }
  }

  // The register is the remainder.

  /** The register's bits on top of the first 32 of the dividend. */
  function OnTop(r: Bits, d: Bits): (e: Bits)
    requires |r| == 32 <= |d|
    ensures |e| == |d| && forall i :: 0 <= i < |d| ==> e[i] == if i < 32 then r[i] != d[i] else d[i]
  {
    XorBits(r, d[..32]) + d[32..]
  }

  /** The register is shifted, and combined with the constant when the bit that leaves it is not the bit that comes. */
  lemma BitStepIs(c: u32, b: bool)
    ensures BitStep(c, b) == if (c % 2 == 1) != b then XorWords(c / 2, POLYNOMIAL) else c / 2
  {
    hide Xor;
    var z := XorWords(c, Bit(b));
    XorHalves(c, Bit(b), z);
    XorZero(c / 2);
    assert Bit(b) / 2 == 0 && z / 2 == c / 2;
  }

  lemma FirstBit(c: nat)
    ensures BitsOf(c, 32)[0] == (c % 2 == 1)
  {
  }

  lemma ShiftedBits(c: u32)
    ensures BitsOf(c / 2, 32) == BitsOf(c, 32)[1..] + [false] && BitsOf(c, 32)[0] == (c % 2 == 1)
  {
    hide BitsOf;
    Pow2Values();
    BitsOfHalf(c, 31);
    FirstBit(c);
  }

  lemma CombinedBits(c: u32)
    ensures BitsOf(XorWords(c, POLYNOMIAL), 32) == XorBits(BitsOf(c, 32), Generator())
  {
    hide BitsOf, XorBits, Xor, Generator, POLYNOMIAL;
    BitsOfXor(c, POLYNOMIAL, 32);
    PolynomialIsGenerator();
  }

  /** The bits of a register after one more bit. */
  lemma BitStepBits(c: u32, b: bool)
    ensures var r, s := BitsOf(c, 32), BitsOf(BitStep(c, b), 32);
            var shifted := r[1..] + [false];
            s == if r[0] != b then XorBits(shifted, Generator()) else shifted
  {
    hide XorWords, BitsOf, BitStep, Generator, XorBits, POLYNOMIAL;
    BitStepIs(c, b);
    ShiftedBits(c);
    CombinedBits(c / 2);
  }

  /** One step of the division is one step of the register. */
  lemma DivisionStep(c: u32, m: Bits)
    requires m != []
    ensures Remainder(OnTop(BitsOf(c, 32), m + Zeros32())) ==
            Remainder(OnTop(BitsOf(BitStep(c, m[0]), 32), m[1..] + Zeros32()))
  {
    hide BitStep, BitsOf, Generator, Remainder, Zeros32;
    BitStepBits(c, m[0]);
    var d := m + Zeros32();
    assert m[1..] + Zeros32() == d[1..];
    var r := BitsOf(c, 32);
    if r[0] != m[0] {
      TopIsSet(r, d);
    } else {
      TopIsClear(r, d);
    }
  }

  lemma TopIsSet(r: Bits, d: Bits)
    requires |r| == 32 < |d| && r[0] != d[0]
    ensures Remainder(OnTop(r, d)) == Remainder(OnTop(XorBits(r[1..] + [false], Generator()), d[1..]))
  {
    hide Generator;
    var g, top := Generator(), OnTop(r, d);
    assert Remainder(top) == Remainder(XorBits(top[1..33], g) + top[33..]);
    hide Remainder, OnTop;
    var next := OnTop(XorBits(r[1..] + [false], g), d[1..]);
    assert next == XorBits(top[1..33], g) + top[33..];
  }

  lemma TopIsClear(r: Bits, d: Bits)
    requires |r| == 32 < |d| && r[0] == d[0]
    ensures Remainder(OnTop(r, d)) == Remainder(OnTop(r[1..] + [false], d[1..]))
  {
    var top := OnTop(r, d);
    assert Remainder(top) == Remainder(top[1..]);
    hide Remainder, OnTop;
    assert OnTop(r[1..] + [false], d[1..]) == top[1..];
  }

  lemma {:induction false} RegisterIsRemainder(c: u32, m: Bits)
    ensures Remainder(OnTop(BitsOf(c, 32), m + Zeros32())) == BitsOf(BitRegister(c, m), 32)
    decreases |m|
  {
    hide BitStep, BitsOf;
    if m == [] {
      assert OnTop(BitsOf(c, 32), m + Zeros32()) == BitsOf(c, 32);
    } else {
      DivisionStep(c, m);
      RegisterIsRemainder(BitStep(c, m[0]), m[1..]);
    }
  }

  /**
    The bits of the checksum, the lowest first, are the complement of the remainder that the message times
    x^32, its first 32 bits complemented, leaves when it is divided by
    x^32 + x^26 + x^23 + x^22 + x^16 + x^12 + x^11 + x^10 + x^8 + x^7 + x^5 + x^4 + x^2 + x + 1.
    */
  lemma ChecksumIsRemainder(bytes: Bytes)
    ensures BitsOf(Checksum(bytes), 32) == Complement(Remainder(Dividend(bytes)))
  {
    hide Register, BitsOf, Remainder, Dividend, OnTop, MessageBits;
    Pow2Values();
    OnesOnTop(bytes);
    RegisterIsRemainder(ALL_ONES, MessageBits(bytes));
    RegisterByBits(ALL_ONES, bytes);
    BitsOfComplement(Register(ALL_ONES, bytes), 32);
  }

  lemma OnesOnTop(bytes: Bytes)
    ensures OnTop(BitsOf(ALL_ONES, 32), MessageBits(bytes) + Zeros32()) == Dividend(bytes)
  {
    hide BitsOf, MessageBits;
    Pow2Values();
    BitsOfComplement(0, 32);
    BitsOfZero(32);
  }
}
