/** What the base64 decoder accepts, and that it inverts the encoder. */
module Base64Laws {
  import opened Bytes
  import opened Base64

  predicate IsSymbol(c: Octet) {
    ValueOf(c).Some?
  }

  /** Whole groups of symbols; only the last group may end in one or two pads. */
  predicate Shaped(s: Octets) {
    var n := |s|;
    && n % 4 == 0
    && (forall i :: 0 <= i < n - 2 ==> IsSymbol(s[i]))
    && (n > 0 ==> (IsSymbol(s[n - 2]) && (IsSymbol(s[n - 1]) || s[n - 1] == PAD)) || (s[n - 2] == PAD && s[n - 1] == PAD))
  }

  function Pads(s: Octets): nat {
    var n := |s|;
    if n >= 2 && s[n - 1] == PAD then if s[n - 2] == PAD then 2 else 1 else 0
  }

  // Acceptance.

  predicate Faultless(s: Octets) {
    forall k :: 0 <= k < |s| ==> FaultUpTo(s, k).None?
  }

  /** The fault of the character at k, given those before it. */
  function FaultUpTo(s: Octets, k: nat): Option<DecodeError>
    requires k < |s|
  {
    LastFault(s[..k + 1])
  }

  lemma {:induction false} FaultlessMeans(s: Octets)
    ensures FirstFault(s).None? <==> Faultless(s)
    decreases |s|
  {
    hide LastFault;
    if s != [] {
      var front := s[..|s| - 1];
      FaultlessMeans(front);
      assert s[..|s|] == s;
      forall k: nat | k < |front| ensures FaultUpTo(front, k) == FaultUpTo(s, k) {
        assert front[..k + 1] == s[..k + 1];
      }
      if Faultless(s) {
        assert FaultUpTo(s, |s| - 1).None?;
      }
    }
  }

  lemma PadIsNoSymbol()
    ensures !IsSymbol(PAD)
  {
  }

  /** What a faultless character looks like where it stands. */
  lemma FaultAt(s: Octets, k: nat)
    requires k < |s|
    ensures FaultUpTo(s, k).None? <==>
            && (k >= 4 ==> s[k - Column(k) - 1] != PAD)
            && (s[k] == PAD || IsSymbol(s[k]))
            && (s[k] != PAD && Column(k) >= 1 ==> s[k - 1] != PAD)
            && (s[k] == PAD && Column(k) >= 2 ==> s[k - 1] != PAD || s[k - 2] != PAD)
  {
    hide ValueOf, Column;
    var t := s[..k + 1];
    assert t[k] == s[k] && (k >= 1 ==> t[k - 1] == s[k - 1]) && (k >= 2 ==> t[k - 2] == s[k - 2]);
    assert k >= 4 ==> t[k - Column(k) - 1] == s[k - Column(k) - 1];
  }

  lemma GroupEnd(n: nat, k: nat)
    requires n % 4 == 0 && k < n
    ensures k - Column(k) - 1 < n - 4
    ensures Column(n - 1) == 3 && Column(n - 2) == 2
  {
  }

  lemma ShapedIsFaultless(s: Octets)
    requires Shaped(s)
    ensures Faultless(s)
  {
    hide IsSymbol, FaultUpTo, Column;
    PadIsNoSymbol();
    forall k | 0 <= k < |s| ensures FaultUpTo(s, k).None? {
      GroupEnd(|s|, k);
      FaultAt(s, k);
      assert k < |s| - 2 ==> IsSymbol(s[k]);
      assert k >= 1 && k - 1 < |s| - 2 ==> IsSymbol(s[k - 1]);
      assert k >= 2 ==> IsSymbol(s[k - 2]);
    }
  }

  lemma FaultlessFacts(s: Octets, k: nat)
    requires Faultless(s) && k < |s|
    ensures k >= 4 ==> s[k - Column(k) - 1] != PAD
    ensures s[k] == PAD || IsSymbol(s[k])
    ensures s[k] != PAD && Column(k) >= 1 ==> s[k - 1] != PAD
    ensures s[k] == PAD && Column(k) >= 2 ==> s[k - 1] != PAD || s[k - 2] != PAD
  {
    hide FaultUpTo, Column, IsSymbol;
    FaultAt(s, k);
  }

  /** A pad is followed by no more than one character. */
  lemma PadIsLate(s: Octets, i: nat)
    requires Faultless(s) && i + 2 < |s|
    ensures s[i] != PAD
  {
    hide Faultless, Column, IsSymbol;
    FaultlessFacts(s, i + 1);
    FaultlessFacts(s, i + 2);
    ColumnMoves(i);
    ColumnMoves(i + 1);
  }

  lemma FaultlessIsShaped(s: Octets)
    requires Faultless(s) && |s| % 4 == 0
    ensures Shaped(s)
  {
    hide Faultless, Column, IsSymbol;
    PadIsNoSymbol();
    forall i | 0 <= i < |s| - 2 ensures IsSymbol(s[i]) {
      PadIsLate(s, i);
      FaultlessFacts(s, i);
    }
    if |s| > 0 {
      GroupEnd(|s|, |s| - 1);
      FaultlessFacts(s, |s| - 1);
      FaultlessFacts(s, |s| - 2);
    }
  }

  /** Exactly the texts of the right shape, whitespace apart, are accepted. */
  lemma AcceptsShaped(text: Octets)
    ensures Decoded(text).Ok? <==> Shaped(Stripped(text))
  {
    hide Shaped, Faultless, FirstFault, Stripped;
    var s := Stripped(text);
    FaultlessMeans(s);
    if Shaped(s) {
      ShapedIsFaultless(s);
      ShapedLength(s);
    } else if Faultless(s) && |s| % 4 == 0 {
      FaultlessIsShaped(s);
    }
  }

  lemma ShapedLength(s: Octets)
    requires Shaped(s)
    ensures |s| % 4 == 0
  {
  }

  // Lengths.

  lemma {:induction false} PayloadLength(s: Octets)
    requires Shaped(s)
    ensures |Payload(s)| == |s| / 4 * 3 - Pads(s)
    decreases |s|
  {
    hide IsSymbol;
    PadIsNoSymbol();
    if s != [] {
      var rest := s[4..];
      ShapedTail(s);
      PayloadLength(rest);
      assert |s| > 4 ==> IsSymbol(s[2]) && IsSymbol(s[3]);
      GroupLength(s[0], s[1], s[2], s[3]);
    }
  }

  lemma GroupLength(a: Octet, b: Octet, c: Octet, d: Octet)
    ensures |GroupOctets(a, b, c, d)| == if c == PAD then 1 else if d == PAD then 2 else 3
  {
    hide Sextet;
  }

  lemma ShapedTail(s: Octets)
    requires Shaped(s) && s != []
    ensures |s| >= 4 && Shaped(s[4..]) && (|s| > 4 ==> Pads(s) == Pads(s[4..]))
  {
    hide IsSymbol;
    var rest := s[4..];
    forall i | 0 <= i < |rest| - 2 ensures IsSymbol(rest[i]) {
      assert rest[i] == s[i + 4];
    }
  }

  /** Three octets for every four characters, less the pads. */
  lemma OutputLength(text: Octets)
    requires Decoded(text).Ok?
    ensures |Decoded(text).value| == |Stripped(text)| / 4 * 3 - Pads(Stripped(text))
  {
    hide Shaped, Payload, Stripped, FirstFault, Pads;
    AcceptsShaped(text);
    PayloadLength(Stripped(text));
  }

  // Whitespace.

  lemma {:induction false} OnlyWhitespace(w: Octets)
    requires forall i :: 0 <= i < |w| ==> IsWhitespace(w[i])
    ensures Stripped(w) == []
    decreases |w|
  {
    if w != [] {
      OnlyWhitespace(w[..|w| - 1]);
    }
  }

  /** Whitespace anywhere changes nothing. */
  lemma WhitespaceIgnored(a: Octets, w: Octets, b: Octets)
    requires forall i :: 0 <= i < |w| ==> IsWhitespace(w[i])
    ensures Decoded(a + w + b) == Decoded(a + b)
  {
    hide FirstFault, Payload, IsWhitespace, Stripped;
    StrippedSplits(a + w, b);
    StrippedSplits(a, w);
    StrippedSplits(a, b);
    OnlyWhitespace(w);
    assert Stripped(a) + [] == Stripped(a);
  }

  // The round trip.

  lemma SymbolReads(v: Octet)
    requires v < 64
    ensures ValueOf(Symbol(v)) == Some(v) && Symbol(v) != PAD && !IsWhitespace(Symbol(v))
  {
  }

  lemma SymbolWrites(c: Octet)
    requires IsSymbol(c)
    ensures Sextet(c) < 64 && Symbol(Sextet(c)) == c
  {
  }

  lemma ThreeBits(a: Octet, b: Octet, c: Octet)
    ensures First(a) < 64 && Second(a, b) < 64 && Third(b, c) < 64 && Fourth(c) < 64
    ensures High(First(a), Second(a, b)) == a
    ensures Middle(Second(a, b), Third(b, c)) == b
    ensures Low(Third(b, c), Fourth(c)) == c
  {
  }

  /** A character of the encoding: a symbol of the table. */
  lemma ThreeSymbols(a: Octet, b: Octet, c: Octet, i: nat)
    requires i < 4
    ensures IsSymbol(EncodeThree(a, b, c)[i]) && EncodeThree(a, b, c)[i] != PAD && !IsWhitespace(EncodeThree(a, b, c)[i])
  {
    hide Symbol, ValueOf, IsWhitespace, First, Second, Third, Fourth, High, Middle, Low;
    ThreeBits(a, b, c);
    SymbolReads(First(a));
    SymbolReads(Second(a, b));
    SymbolReads(Third(b, c));
    SymbolReads(Fourth(c));
  }

  lemma ThreeSextets(a: Octet, b: Octet, c: Octet)
    ensures var e := EncodeThree(a, b, c);
            Sextet(e[0]) == First(a) && Sextet(e[1]) == Second(a, b) && Sextet(e[2]) == Third(b, c) && Sextet(e[3]) == Fourth(c)
  {
    hide Symbol, ValueOf, IsWhitespace, First, Second, Third, Fourth, High, Middle, Low;
    ThreeBits(a, b, c);
    SymbolReads(First(a));
    SymbolReads(Second(a, b));
    SymbolReads(Third(b, c));
    SymbolReads(Fourth(c));
  }

  lemma PadSextet()
    ensures Sextet(PAD) == 0
  {
  }

  /** The group of one, two or three octets reads back. */
  lemma GroupReads(a: Octet, b: Octet, c: Octet)
    ensures var e := EncodeThree(a, b, c); GroupOctets(e[0], e[1], e[2], e[3]) == [a, b, c]
    ensures var e := EncodeThree(a, b, 0); GroupOctets(e[0], e[1], e[2], PAD) == [a, b]
    ensures var e := EncodeThree(a, 0, 0); GroupOctets(e[0], e[1], PAD, PAD) == [a]
  {
    hide EncodeThree, Sextet, IsSymbol, IsWhitespace, First, Second, Third, Fourth, High, Middle, Low;
    ThreeBits(a, b, c);
    ThreeBits(a, b, 0);
    ThreeBits(a, 0, 0);
    ThreeSextets(a, b, c);
    ThreeSextets(a, b, 0);
    ThreeSextets(a, 0, 0);
    ThreeSymbols(a, b, c, 2);
    ThreeSymbols(a, b, c, 3);
    ThreeSymbols(a, b, 0, 2);
    PadSextet();
  }

  lemma {:induction false} PayloadOfEncoding(b: Octets)
    ensures Payload(Encode(b)) == b
    decreases |b|
  {
    hide EncodeThree, GroupOctets;
    if |b| >= 3 {
      GroupReads(b[0], b[1], b[2]);
      PayloadOfEncoding(b[3..]);
      assert (EncodeThree(b[0], b[1], b[2]) + Encode(b[3..]))[4..] == Encode(b[3..]);
      assert b == [b[0], b[1], b[2]] + b[3..];
    } else if |b| == 2 {
      GroupReads(b[0], b[1], 0);
      OneGroup(EncodeThree(b[0], b[1], 0)[..3] + [PAD]);
    } else if |b| == 1 {
      GroupReads(b[0], 0, 0);
      OneGroup(EncodeThree(b[0], 0, 0)[..2] + [PAD, PAD]);
    }
  }

  lemma ShapedCons(g: Octets, rest: Octets)
    requires |g| == 4 && (forall i :: 0 <= i < 4 ==> IsSymbol(g[i])) && Shaped(rest)
    ensures Shaped(g + rest) && Pads(g + rest) == Pads(rest)
  {
    hide IsSymbol;
    PadIsNoSymbol();
    var s := g + rest;
    forall i | 0 <= i < |s| - 2 ensures IsSymbol(s[i]) {
      assert i < 4 ==> s[i] == g[i];
    }
    if rest != [] {
      assert s[|s| - 2] == rest[|rest| - 2] && s[|s| - 1] == rest[|rest| - 1];
    }
  }

  lemma {:induction false} EncodingShape(b: Octets)
    ensures Shaped(Encode(b)) && forall i :: 0 <= i < |Encode(b)| ==> !IsWhitespace(Encode(b)[i])
    decreases |b|
  {
    hide EncodeThree, IsWhitespace, IsSymbol;
    if |b| >= 3 {
      var g := EncodeThree(b[0], b[1], b[2]);
      forall i: nat | i < 4 ensures IsSymbol(g[i]) && !IsWhitespace(g[i]) {
        ThreeSymbols(b[0], b[1], b[2], i);
      }
      EncodingShape(b[3..]);
      ShapedCons(g, Encode(b[3..]));
    } else if |b| > 0 {
      var second := if |b| == 2 then b[1] else 0;
      PadIsVisible();
      ThreeSymbols(b[0], second, 0, 0);
      ThreeSymbols(b[0], second, 0, 1);
      ThreeSymbols(b[0], second, 0, 2);
    }
  }

  lemma PadIsVisible()
    ensures !IsWhitespace(PAD) && !IsSymbol(PAD)
  {
  }

  lemma {:induction false} NothingStripped(s: Octets)
    requires forall i :: 0 <= i < |s| ==> !IsWhitespace(s[i])
    ensures Stripped(s) == s
    decreases |s|
  {
    hide IsWhitespace;
    if s != [] {
      NothingStripped(s[..|s| - 1]);
    }
  }

  /** Decoding undoes encoding, for every byte string. */
  lemma DecodeEncode(b: Octets)
    ensures Decoded(Encode(b)) == Ok(b)
  {
    hide Shaped, Encode, IsWhitespace, Stripped, Payload, FirstFault;
    EncodingShape(b);
    NothingStripped(Encode(b));
    AcceptsShaped(Encode(b));
    PayloadOfEncoding(b);
  }

  // The other way round: which accepted texts are encodings.

  /** The bits of the last symbol that no octet takes up. */
  function SpareBits(s: Octets): Octet {
    var n := |s|;
    if n < 4 || Pads(s) == 0 then 0
    else if Pads(s) == 1 then Sextet(s[n - 2]) & 3
    else Sextet(s[n - 3]) & 15
  }

  lemma GroupBits(v: Octet, w: Octet, x: Octet, y: Octet)
    requires v < 64 && w < 64 && x < 64 && y < 64
    ensures First(High(v, w)) == v
    ensures Second(High(v, w), Middle(w, x)) == w
    ensures Third(Middle(w, x), Low(x, y)) == x
    ensures Fourth(Low(x, y)) == y
    ensures Second(High(v, w), 0) == w <==> w & 15 == 0
    ensures Third(Middle(w, x), 0) == x <==> x & 3 == 0
  {
  }

  lemma SymbolInjective(v: Octet, w: Octet)
    requires v < 64 && w < 64
    ensures Symbol(v) == Symbol(w) <==> v == w
  {
    hide Symbol, ValueOf;
    SymbolReads(v);
    SymbolReads(w);
  }

  lemma GroupWrites(a: Octet, b: Octet, c: Octet, d: Octet)
    requires IsSymbol(a) && IsSymbol(b) && IsSymbol(c) && IsSymbol(d)
    ensures var o := GroupOctets(a, b, c, d); |o| == 3 && EncodeThree(o[0], o[1], o[2]) == [a, b, c, d]
  {
    hide Sextet, Symbol, IsSymbol, First, Second, Third, Fourth, High, Middle, Low;
    PadIsNoSymbol();
    SymbolWrites(a);
    SymbolWrites(b);
    SymbolWrites(c);
    SymbolWrites(d);
    GroupBits(Sextet(a), Sextet(b), Sextet(c), Sextet(d));
  }

  lemma OneOctetWrites(a: Octet, b: Octet)
    requires IsSymbol(a) && IsSymbol(b)
    ensures var o := GroupOctets(a, b, PAD, PAD);
            |o| == 1 && (EncodeThree(o[0], 0, 0)[..2] == [a, b] <==> Sextet(b) & 15 == 0)
  {
    hide Sextet, Symbol, IsSymbol, First, Second, Third, Fourth, High, Middle, Low;
    SymbolWrites(a);
    SymbolWrites(b);
    var v, w := Sextet(a), Sextet(b);
    GroupBits(v, w, 0, 0);
    ThreeBits(High(v, w), 0, 0);
    SymbolInjective(Second(High(v, w), 0), w);
    var e := EncodeThree(High(v, w), 0, 0);
    assert e[..2] == [e[0], e[1]];
  }

  lemma TwoOctetsWrite(a: Octet, b: Octet, c: Octet)
    requires IsSymbol(a) && IsSymbol(b) && IsSymbol(c)
    ensures var o := GroupOctets(a, b, c, PAD);
            |o| == 2 && (EncodeThree(o[0], o[1], 0)[..3] == [a, b, c] <==> Sextet(c) & 3 == 0)
  {
    hide Sextet, Symbol, IsSymbol, First, Second, Third, Fourth, High, Middle, Low;
    PadIsNoSymbol();
    SymbolWrites(a);
    SymbolWrites(b);
    SymbolWrites(c);
    var v, w, x := Sextet(a), Sextet(b), Sextet(c);
    GroupBits(v, w, x, 0);
    ThreeBits(High(v, w), Middle(w, x), 0);
    SymbolInjective(Third(Middle(w, x), 0), x);
    var e := EncodeThree(High(v, w), Middle(w, x), 0);
    assert e[..3] == [e[0], e[1], e[2]];
  }

  lemma EncodeStep(a: Octet, b: Octet, c: Octet, rest: Octets)
    ensures Encode([a, b, c] + rest) == EncodeThree(a, b, c) + Encode(rest)
  {
    hide EncodeThree;
    assert ([a, b, c] + rest)[3..] == rest;
  }

  lemma CancelFront(g: Octets, x: Octets, y: Octets)
    ensures g + x == g + y <==> x == y
  {
    assert (g + x)[|g|..] == x && (g + y)[|g|..] == y;
  }

  lemma SameSpareBits(s: Octets)
    requires Shaped(s) && |s| > 4
    ensures SpareBits(s) == SpareBits(s[4..])
  {
    LongerThanGroup(s);
    ShapedTail(s);
    hide Sextet, Shaped, Pads;
    var n := |s|;
    assert s[4..][n - 4 - 2] == s[n - 2] && s[4..][n - 4 - 3] == s[n - 3];
  }

  lemma EncodeDecodeStep(s: Octets)
    requires Shaped(s) && |s| > 4
    ensures Encode(Payload(s)) == s[..4] + Encode(Payload(s[4..]))
  {
    FullGroup(s);
    hide Encode, Payload, EncodeThree, GroupOctets, Sextet, IsSymbol, Shaped, Pads;
    GroupWrites(s[0], s[1], s[2], s[3]);
    PayloadStep(s);
    var o := GroupOctets(s[0], s[1], s[2], s[3]);
    EncodeStep(o[0], o[1], o[2], Payload(s[4..]));
    assert o == [o[0], o[1], o[2]];
    assert s[..4] == [s[0], s[1], s[2], s[3]];
  }

  lemma FullGroup(s: Octets)
    requires Shaped(s) && |s| > 4
    ensures IsSymbol(s[0]) && IsSymbol(s[1]) && IsSymbol(s[2]) && IsSymbol(s[3])
  {
    hide IsSymbol;
  }

  lemma LongerThanGroup(s: Octets)
    requires Shaped(s) && |s| > 4
    ensures |s[4..]| >= 4
  {
  }

  /** An accepted text without whitespace is the encoding of its octets exactly when it has no spare bits. */
  lemma {:induction false} EncodeDecode(s: Octets)
    requires Shaped(s)
    ensures Encode(Payload(s)) == s <==> SpareBits(s) == 0
    decreases |s|
  {
    if |s| > 4 {
      hide *;
      ShapedTail(s);
      EncodeDecode(s[4..]);
      EncodeDecodeStep(s);
      SameSpareBits(s);
      CancelFront(s[..4], Encode(Payload(s[4..])), s[4..]);
      assert s == s[..4] + s[4..];
    } else if |s| == 4 {
      hide EncodeThree, GroupOctets, Sextet, IsSymbol, SpareBits;
      OneGroup(s);
      LastGroup(s);
    }
  }

  lemma LastGroup(s: Octets)
    requires Shaped(s) && |s| == 4
    ensures Encode(GroupOctets(s[0], s[1], s[2], s[3])) == s <==> SpareBits(s) == 0
  {
    hide EncodeThree, GroupOctets, Sextet, IsSymbol;
    PadIsNoSymbol();
    if s[2] == PAD {
      OneOctetWrites(s[0], s[1]);
    } else if s[3] == PAD {
      TwoOctetsWrite(s[0], s[1], s[2]);
    } else {
      GroupWrites(s[0], s[1], s[2], s[3]);
      assert EncodeThree(GroupOctets(s[0], s[1], s[2], s[3])[0], GroupOctets(s[0], s[1], s[2], s[3])[1], GroupOctets(s[0], s[1], s[2], s[3])[2]) + [] == s;
    }
  }

  /** For one: "QR==" is read as the octet of "A", whose encoding is "QQ==". */
  lemma SpareBitsLost()
    ensures Decoded([0x51, 0x52, PAD, PAD]) == Ok([0x41]) && Encode([0x41]) == [0x51, 0x51, PAD, PAD]
  {
    hide Decoded, FirstFault, Encode, Payload, GroupOctets, Stripped, Shaped;
    var s, t := [0x51, 0x52, PAD, PAD], [0x51, 0x51, PAD, PAD];
    ShortGroup(s);
    ShortGroup(t);
    assert High(Sextet(0x51), Sextet(0x52)) == 0x41 && High(Sextet(0x51), Sextet(0x51)) == 0x41;
    assert SpareBits(t) == 0;
    EncodeDecode(t);
  }

  lemma ShortGroup(s: Octets)
    requires |s| == 4 && IsSymbol(s[0]) && IsSymbol(s[1]) && s[2] == PAD && s[3] == PAD
    ensures Shaped(s) && Payload(s) == [High(Sextet(s[0]), Sextet(s[1]))] && Decoded(s) == Ok(Payload(s))
  {
    hide FirstFault, Payload, Stripped;
    OneGroup(s);
    NothingStripped(s);
    AcceptsShaped(s);
  }

  // The alphabet and the bits of RFC 4648.

  /** Table 1 of section 4: A to Z, a to z, 0 to 9, + and /, and = for padding. */
  lemma SymbolsAre(v: Octet)
    requires v < 63
    ensures Symbol(0) == 0x41 && Symbol(25) == 0x5A && Symbol(26) == 0x61 && Symbol(51) == 0x7A
    ensures Symbol(52) == 0x30 && Symbol(61) == 0x39 && Symbol(62) == 0x2B && Symbol(63) == 0x2F && PAD == 0x3D
    ensures v != 25 && v != 51 && v != 61 && v != 62 ==> Symbol(v + 1) == Symbol(v) + 1
  {
  }

  /** The values of four symbols are the bits of three octets, six at a time, the most significant first. */
  lemma SixBitsAtATime(a: Octet, b: Octet, c: Octet)
    ensures First(a) == a / 4 && Second(a, b) == a % 4 * 16 + b / 16
    ensures Third(b, c) == b % 16 * 4 + c / 64 && Fourth(c) == c % 64
  {
  }

  /** What stands in a group: whole, or for one or two octets with the missing bits zero and pads. */
  lemma GroupsAre(a: Octet, b: Octet, c: Octet, rest: Octets)
    ensures a / 4 < 64 && a % 4 * 16 + b / 16 < 64 && b % 16 * 4 + c / 64 < 64 && c % 64 < 64
    ensures a % 4 * 16 < 64 && b % 16 * 4 < 64
    ensures Encode([a, b, c] + rest) ==
            [Symbol(a / 4), Symbol(a % 4 * 16 + b / 16), Symbol(b % 16 * 4 + c / 64), Symbol(c % 64)] + Encode(rest)
    ensures Encode([a, b]) == [Symbol(a / 4), Symbol(a % 4 * 16 + b / 16), Symbol(b % 16 * 4), PAD]
    ensures Encode([a]) == [Symbol(a / 4), Symbol(a % 4 * 16), PAD, PAD]
    ensures Encode([]) == []
  {
    SixBitsAtATime(a, b, c);
    SixBitsAtATime(a, b, 0);
    SixBitsAtATime(a, 0, 0);
    SextetsFit(a, b, c);
    hide First, Second, Third, Fourth, Symbol;
    EncodeStep(a, b, c, rest);
  }

  lemma SextetsFit(a: Octet, b: Octet, c: Octet)
    ensures a / 4 < 64 && a % 4 * 16 + b / 16 < 64 && b % 16 * 4 + c / 64 < 64 && c % 64 < 64
    ensures a % 4 * 16 < 64 && b % 16 * 4 < 64 && a % 4 * 16 + (0 as Octet) / 16 == a % 4 * 16
    ensures b % 16 * 4 + (0 as Octet) / 64 == b % 16 * 4
  {
  }

  // Which characters are skipped, and which error is given.

  /** The five blanks are the only characters that stand for nothing. */
  lemma BlanksAre(c: Octet)
    ensures Decoded([c]) == Ok([]) <==> c == 9 || c == 10 || c == 12 || c == 13 || c == 32
  {
    assert [c][..0] == [];
    assert Stripped([c]) == if IsWhitespace(c) then [] else [c];
  }

  predicate AreSymbols(s: Octets) {
    forall i :: 0 <= i < |s| ==> IsSymbol(s[i])
  }

  lemma {:induction false} SymbolsFaultless(s: Octets)
    requires AreSymbols(s)
    ensures FirstFault(s) == None && Stripped(s) == s
    decreases |s|
  {
    PadIsNoSymbol();
    hide Column;
    if s != [] {
      SymbolsFaultless(s[..|s| - 1]);
      assert IsSymbol(s[|s| - 1]);
    }
  }

  /** The fault of the first characters decides, whatever comes after them. */
  lemma FaultDecides(s: Octets, rest: Octets)
    requires Stripped(s) == s && FirstFault(s).Some?
    ensures Decoded(s + rest) == Err(FirstFault(s).value)
  {
    hide FirstFault, Stripped;
    StrippedSplits(s, rest);
    FaultStays(s, Stripped(rest));
  }

  lemma NextCharacter(s: Octets, c: Octet)
    requires FirstFault(s).None? && Stripped(s) == s && !IsWhitespace(c)
    ensures FirstFault(s + [c]) == LastFault(s + [c]) && Stripped(s + [c]) == s + [c]
  {
    hide LastFault, IsWhitespace;
    assert (s + [c])[..|s|] == s;
  }

  /** Symbols alone must come in whole groups. */
  lemma LengthRefused(s: Octets)
    requires AreSymbols(s) && |s| % 4 != 0
    ensures Decoded(s) == Err(InvalidLength)
  {
    SymbolsFaultless(s);
  }

  lemma PadAfterSymbols(s: Octets)
    requires AreSymbols(s)
    ensures LastFault(s + [PAD]) == None
  {
    PadIsNoSymbol();
    hide IsSymbol;
    assert (s + [PAD])[|s|] == PAD && forall i :: 0 <= i < |s| ==> (s + [PAD])[i] == s[i] && IsSymbol(s[i]);
  }

  lemma CharacterAfterSymbols(s: Octets, c: Octet)
    requires AreSymbols(s) && !IsSymbol(c) && c != PAD
    ensures LastFault(s + [c]) == Some(InvalidCharacter)
  {
    PadIsNoSymbol();
    hide ValueOf, Column;
    assert (s + [c])[|s|] == c && forall i :: 0 <= i < |s| ==> (s + [c])[i] == s[i] && IsSymbol(s[i]);
  }

  lemma SymbolAfterPad(s: Octets, c: Octet)
    requires AreSymbols(s) && |s| % 4 != 3 && IsSymbol(c)
    ensures LastFault((s + [PAD]) + [c]) == Some(InvalidPadding)
  {
    PadIsNoSymbol();
    var t := (s + [PAD]) + [c];
    assert t[|s|] == PAD && t[|s| + 1] == c && forall i :: 0 <= i < |s| ==> t[i] == s[i] && IsSymbol(s[i]);
  }

  /** After symbols, a character that is no symbol, pad or blank is refused as such, whatever comes after it. */
  lemma CharacterRefused(s: Octets, c: Octet, rest: Octets)
    requires AreSymbols(s) && !IsSymbol(c) && c != PAD && !IsWhitespace(c)
    ensures Decoded(s + [c] + rest) == Err(InvalidCharacter)
  {
    hide IsWhitespace, IsSymbol, AreSymbols, LastFault, FirstFault, Stripped, Decoded;
    SymbolsFaultless(s);
    NextCharacter(s, c);
    CharacterAfterSymbols(s, c);
    FaultDecides(s + [c], rest);
  }

  /** After symbols and a pad that does not end its group, a symbol is refused for the pad. */
  lemma PaddingRefused(s: Octets, c: Octet, rest: Octets)
    requires AreSymbols(s) && |s| % 4 != 3 && IsSymbol(c)
    ensures Decoded(s + [PAD] + [c] + rest) == Err(InvalidPadding)
  {
    hide IsWhitespace, IsSymbol, AreSymbols, LastFault, FirstFault, Stripped, Decoded;
    SymbolsFaultless(s);
    PadIsVisible();
    NextCharacter(s, PAD);
    PadAfterSymbols(s);
    SymbolIsVisible(c);
    NextCharacter(s + [PAD], c);
    SymbolAfterPad(s, c);
    FaultDecides(s + [PAD] + [c], rest);
  }

  /** Nothing but blanks may follow a padded group. */
  lemma EndRefused(s: Octets, c: Octet, rest: Octets)
    requires Shaped(s) && Pads(s) > 0 && !IsWhitespace(c)
    ensures Decoded(s + [c] + rest) == Err(InvalidPadding)
  {
    ShapedIsVisible(s);
    ShapedIsFaultless(s);
    FaultlessMeans(s);
    NextCharacter(s, c);
    AfterPad(s, c);
    hide *;
    FaultDecides(s + [c], rest);
  }

  lemma AfterPad(s: Octets, c: Octet)
    requires |s| > 0 && |s| % 4 == 0 && s[|s| - 1] == PAD
    ensures LastFault(s + [c]) == Some(InvalidPadding)
  {
    assert (s + [c])[|s| - 1] == PAD;
  }

  lemma ShapedIsVisible(s: Octets)
    requires Shaped(s)
    ensures Stripped(s) == s
  {
    PadIsVisible();
    forall i | 0 <= i < |s| ensures !IsWhitespace(s[i]) {
      if s[i] != PAD {
        SymbolIsVisible(s[i]);
      }
    }
    NothingStripped(s);
  }

  lemma SymbolIsVisible(c: Octet)
    requires IsSymbol(c)
    ensures !IsWhitespace(c)
  {
  }
}
