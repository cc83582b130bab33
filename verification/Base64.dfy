/** The CLI's base64 decoder, against the encoding of section 4 of RFC 4648. */
module Base64 {
  import opened Bytes

  type Octet = bv8

  type Octets = seq<Octet>

  const PAD: Octet := 0x3D

  datatype DecodeError = InvalidPadding | InvalidCharacter | InvalidLength

  type Decoding = Result<Octets, DecodeError>

  // The encoding.

  /** Table 1: A-Z, a-z, 0-9, + and /. */
  function Symbol(v: Octet): Octet
    requires v < 64
  {
    if v < 26 then 0x41 + v
    else if v < 52 then 0x61 + (v - 26)
    else if v < 62 then 0x30 + (v - 52)
    else if v == 62 then 0x2B
    else 0x2F
  }

  /** The four values that three octets spread over. */
  function First(a: Octet): Octet {
    a >> 2
  }

  function Second(a: Octet, b: Octet): Octet {
    ((a & 3) << 4) | (b >> 4)
  }

  function Third(b: Octet, c: Octet): Octet {
    ((b & 15) << 2) | (c >> 6)
  }

  function Fourth(c: Octet): Octet {
    c & 63
  }

  function EncodeThree(a: Octet, b: Octet, c: Octet): (r: Octets)
    ensures |r| == 4
  {
    [Symbol(First(a)), Symbol(Second(a, b)), Symbol(Third(b, c)), Symbol(Fourth(c))]
  }

  /** Whole groups of three octets, then a padded group for what is left. */
  function Encode(b: Octets): Octets
    decreases |b|
  {
    if |b| == 0 then []
    else if |b| == 1 then EncodeThree(b[0], 0, 0)[..2] + [PAD, PAD]
    else if |b| == 2 then EncodeThree(b[0], b[1], 0)[..3] + [PAD]
    else EncodeThree(b[0], b[1], b[2]) + Encode(b[3..])
  }

  // What the decoder makes of a text.

  predicate IsWhitespace(c: Octet) {
    c == 0x20 || c == 0x09 || c == 0x0A || c == 0x0C || c == 0x0D
  }

  function Stripped(text: Octets): Octets
    decreases |text|
  {
    if text == [] then []
    else
      var last := text[|text| - 1];
      Stripped(text[..|text| - 1]) + if IsWhitespace(last) then [] else [last]
  }

  function ValueOf(c: Octet): Option<Octet> {
    if 0x41 <= c <= 0x5A then Some(c - 0x41)
    else if 0x61 <= c <= 0x7A then Some(c - 0x61 + 26)
    else if 0x30 <= c <= 0x39 then Some(c - 0x30 + 52)
    else if c == 0x2B then Some(62)
    else if c == 0x2F then Some(63)
    else None
  }

  function Sextet(c: Octet): Octet {
    ValueOf(c).GetOr(0)
  }

  /** The three octets that four values make up. */
  function High(v: Octet, w: Octet): Octet {
    (v << 2) | (w >> 4)
  }

  function Middle(w: Octet, x: Octet): Octet {
    (w << 4) | (x >> 2)
  }

  function Low(x: Octet, y: Octet): Octet {
    (x << 6) | y
  }

  /** The octets of a group of four values that ends in so many pads. */
  function Joined(v: Octet, w: Octet, x: Octet, y: Octet, pads: int): Octets {
    [High(v, w)] + (if pads < 2 then [Middle(w, x)] else []) + (if pads == 0 then [Low(x, y)] else [])
  }

  /** One or two pads end a group; they stand for no octets. */
  function GroupOctets(a: Octet, b: Octet, c: Octet, d: Octet): Octets {
    Joined(Sextet(a), Sextet(b), Sextet(c), Sextet(d), if c == PAD then 2 else if d == PAD then 1 else 0)
  }

  function Payload(s: Octets): Octets
    decreases |s|
  {
    if |s| < 4 then [] else GroupOctets(s[0], s[1], s[2], s[3]) + Payload(s[4..])
  }

  /** The place in its group of the character that comes after n others. */
  function Column(n: nat): (r: nat)
    ensures r < 4 && r <= n
  {
    n % 4
  }

  lemma ColumnMoves(n: nat)
    ensures Column(n + 1) == if Column(n) == 3 then 0 else Column(n) + 1
    ensures Column(n) == 3 ==> n >= 3 && (n - 3) % 4 == 0
    ensures n < 4 ==> Column(n) == n
  {
  }

  /** Why the last character of a text cannot stand where it does, when all before it can. */
  function LastFault(s: Octets): Option<DecodeError>
    requires s != []
  {
    var n := |s| - 1;
    var column := Column(n);
    if n >= 4 && s[n - column - 1] == PAD then Some(InvalidPadding)
    else if s[n] != PAD && ValueOf(s[n]).None? then Some(InvalidCharacter)
    else if s[n] != PAD && column >= 1 && s[n - 1] == PAD then Some(InvalidPadding)
    else if s[n] == PAD && column >= 2 && s[n - 1] == PAD && s[n - 2] == PAD then Some(InvalidPadding)
    else None
  }

  function FirstFault(s: Octets): Option<DecodeError>
    decreases |s|
  {
    if s == [] then None
    else if FirstFault(s[..|s| - 1]).Some? then FirstFault(s[..|s| - 1])
    else LastFault(s)
  }

  function Decoded(text: Octets): Decoding {
    var s := Stripped(text);
    match FirstFault(s)
    case Some(e) => Err(e)
    case None => if |s| % 4 != 0 then Err(InvalidLength) else Ok(Payload(s))
  }

  lemma {:induction false} FaultStays(s: Octets, t: Octets)
    requires FirstFault(s).Some?
    ensures FirstFault(s + t) == FirstFault(s)
    decreases |t|
  {
    hide LastFault;
    if t == [] {
      assert s + t == s;
    } else {
      FaultStays(s, t[..|t| - 1]);
      assert (s + t)[..|s + t| - 1] == s + t[..|t| - 1];
    }
  }

  lemma {:induction false} StrippedSplits(a: Octets, b: Octets)
    ensures Stripped(a + b) == Stripped(a) + Stripped(b)
    decreases |b|
  {
    if b == [] {
      assert a + b == a;
    } else {
      StrippedSplits(a, b[..|b| - 1]);
      assert (a + b)[..|a + b| - 1] == a + b[..|b| - 1];
    }
  }

  lemma PayloadStep(s: Octets)
    requires |s| >= 4
    ensures Payload(s) == GroupOctets(s[0], s[1], s[2], s[3]) + Payload(s[4..])
  {
    hide GroupOctets;
  }

  lemma OneGroup(g: Octets)
    requires |g| == 4
    ensures Payload(g) == GroupOctets(g[0], g[1], g[2], g[3])
  {
    hide GroupOctets;
    assert Payload(g[4..]) == [];
  }

  lemma {:induction false} PayloadGroup(s: Octets, g: Octets)
    requires |s| % 4 == 0 && |g| == 4
    ensures Payload(s + g) == Payload(s) + GroupOctets(g[0], g[1], g[2], g[3])
    decreases |s|
  {
    hide GroupOctets;
    if s == [] {
      assert s + g == g && Payload(s) == [];
      OneGroup(g);
    } else {
      hide Payload;
      PayloadGroup(s[4..], g);
      PayloadStep(s);
      PayloadStep(s + g);
      assert (s + g)[4..] == s[4..] + g;
    }
  }

  /** The group being read: its values so far, and the pads at its end. */
  predicate Partial(seen: Octets, chunk: Octets, chunkLen: int, padding: int) {
    && |chunk| == 4 && chunkLen == Column(|seen|) && 0 <= padding <= chunkLen && padding <= 2
    && AllHold(seen[|seen| - chunkLen..], chunk, chunkLen, padding)
  }

  predicate AllHold(group: Octets, chunk: Octets, chunkLen: int, padding: int)
    requires |group| == chunkLen && chunkLen <= |chunk|
  {
    forall k :: 0 <= k < chunkLen ==> Holds(group[k], chunk[k], k + padding >= chunkLen)
  }

  predicate Holds(c: Octet, value: Octet, isPad: bool) {
    value == Sextet(c) && (c == PAD <==> isPad)
  }

  /** The last full group read was padded. */
  predicate Finished(seen: Octets) {
    |seen| >= 4 && seen[|seen| - Column(|seen|) - 1] == PAD
  }

  /** What the checks of the loop body find is the fault of the next character. */
  lemma NextFault(seen: Octets, chunk: Octets, chunkLen: int, padding: int, c: Octet)
    requires Partial(seen, chunk, chunkLen, padding)
    ensures LastFault(seen + [c]) ==
            if Finished(seen) then Some(InvalidPadding)
            else if c != PAD && ValueOf(c).None? then Some(InvalidCharacter)
            else if c != PAD && padding > 0 then Some(InvalidPadding)
            else if c == PAD && padding == 2 then Some(InvalidPadding)
            else None
  {
    hide ValueOf, Column, Partial, Finished;
    PartialColumn(seen, chunk, chunkLen, padding);
    PadsBefore(seen, chunk, chunkLen, padding);
    var s, n := seen + [c], |seen|;
    assert s[n] == c && (forall i :: 0 <= i < n ==> s[i] == seen[i]);
    GroupBefore(seen);
  }

  lemma GroupBefore(seen: Octets)
    ensures Finished(seen) <==> |seen| >= 4 && seen[|seen| - Column(|seen|) - 1] == PAD
  {
    hide Column;
  }

  /** The pads counted are those that the group being read ends in. */
  lemma PadsBefore(seen: Octets, chunk: Octets, chunkLen: int, padding: int)
    requires Partial(seen, chunk, chunkLen, padding)
    ensures chunkLen <= |seen| && (padding > 0 <==> chunkLen >= 1 && seen[|seen| - 1] == PAD)
    ensures padding == 2 <==> chunkLen >= 2 && seen[|seen| - 1] == PAD && seen[|seen| - 2] == PAD
  {
    PartialColumn(seen, chunk, chunkLen, padding);
    hide Column, Holds, AllHold, Partial;
    if chunkLen >= 1 {
      PartialAt(seen, chunk, chunkLen, padding, chunkLen - 1);
    }
    if chunkLen >= 2 {
      PartialAt(seen, chunk, chunkLen, padding, chunkLen - 2);
    }
  }

  lemma PartialAt(seen: Octets, chunk: Octets, chunkLen: int, padding: int, k: nat)
    requires Partial(seen, chunk, chunkLen, padding) && k < chunkLen
    ensures chunkLen <= |seen| && Holds(seen[|seen| - chunkLen + k], chunk[k], k + padding >= chunkLen)
    ensures seen[|seen| - chunkLen + k] == PAD <==> k + padding >= chunkLen
  {
    hide Sextet, Column;
    assert Holds(seen[|seen| - chunkLen..][k], chunk[k], k + padding >= chunkLen);
  }

  lemma PartialNext(seen: Octets, chunk: Octets, chunkLen: int, padding: int, c: Octet)
    requires Partial(seen, chunk, chunkLen, padding) && chunkLen < 3
    requires LastFault(seen + [c]).None?
    ensures Partial(seen + [c], chunk[chunkLen := Sextet(c)], chunkLen + 1, if c == PAD then padding + 1 else padding)
    ensures Finished(seen + [c]) <==> Finished(seen)
  {
    hide ValueOf, LastFault, Sextet, Column, Finished, Holds, AllHold;
    NextFault(seen, chunk, chunkLen, padding, c);
    PartialColumn(seen, chunk, chunkLen, padding);
    ColumnMoves(|seen|);
    NextHolds(seen, chunk, chunkLen, padding, c);
    FinishedStays(seen, c);
    assert |seen + [c]| - (chunkLen + 1) == |seen| - chunkLen;
  }

  lemma PartialColumn(seen: Octets, chunk: Octets, chunkLen: int, padding: int)
    requires Partial(seen, chunk, chunkLen, padding)
    ensures |chunk| == 4 && chunkLen == Column(|seen|) && 0 <= padding <= chunkLen && padding <= 2
  {
    hide AllHold, Column;
  }

  /** The group before stays the last full one until the fourth character. */
  lemma FinishedStays(seen: Octets, c: Octet)
    requires Column(|seen|) < 3
    ensures Finished(seen + [c]) <==> Finished(seen)
  {
    hide Column;
    ColumnMoves(|seen|);
    var n, column := |seen|, Column(|seen|);
    assert n >= 4 ==> (seen + [c])[n - column - 1] == seen[n - column - 1];
  }

  lemma NextHolds(seen: Octets, chunk: Octets, chunkLen: int, padding: int, c: Octet)
    requires Partial(seen, chunk, chunkLen, padding) && chunkLen < 3
    requires c != PAD ==> padding == 0
    ensures var padding' := if c == PAD then padding + 1 else padding;
            AllHold((seen + [c])[|seen| - chunkLen..], chunk[chunkLen := Sextet(c)], chunkLen + 1, padding')
  {
    var next, chunk' := seen + [c], chunk[chunkLen := Sextet(c)];
    var padding' := if c == PAD then padding + 1 else padding;
    assert Holds(c, Sextet(c), chunkLen + padding' >= chunkLen + 1);
    hide Holds, Sextet;
    forall k | 0 <= k < chunkLen + 1
      ensures Holds(next[|seen| - chunkLen..][k], chunk'[k], k + padding' >= chunkLen + 1)
    {
      if k < chunkLen {
        PartialAt(seen, chunk, chunkLen, padding, k);
      }
    }
  }

  /** The fourth character completes a group. */
  lemma PartialFull(seen: Octets, chunk: Octets, padding: int, c: Octet)
    requires Partial(seen, chunk, 3, padding) && LastFault(seen + [c]).None?
    ensures var padding' := if c == PAD then padding + 1 else padding;
            && Payload(seen + [c]) == Payload(seen[..|seen| - 3]) + Joined(chunk[0], chunk[1], chunk[2], Sextet(c), padding')
            && (Finished(seen + [c]) <==> padding' > 0)
  {
    hide *;
    NextFault(seen, chunk, 3, padding, c);
    FullLength(seen, chunk, padding);
    PartialAt(seen, chunk, 3, padding, 0);
    PartialAt(seen, chunk, 3, padding, 1);
    PartialAt(seen, chunk, 3, padding, 2);
    FullPayload(seen, c);
    GroupValues(seen, chunk, padding, c);
    LastIsPad(seen, c);
  }

  lemma LastIsPad(seen: Octets, c: Octet)
    requires Column(|seen|) == 3
    ensures Finished(seen + [c]) <==> c == PAD
  {
    hide Column;
    ColumnMoves(|seen|);
  }

  lemma FullPayload(seen: Octets, c: Octet)
    requires Column(|seen|) == 3
    ensures var n := |seen|;
            Payload(seen + [c]) == Payload(seen[..n - 3]) + GroupOctets(seen[n - 3], seen[n - 2], seen[n - 1], c)
  {
    hide Payload, GroupOctets, Column;
    ColumnMoves(|seen|);
    var n := |seen|;
    var s, g := seen[..n - 3], [seen[n - 3], seen[n - 2], seen[n - 1], c];
    assert seen + [c] == s + g;
    PayloadGroup(s, g);
  }

  lemma GroupValues(seen: Octets, chunk: Octets, padding: int, c: Octet)
    requires Column(|seen|) == 3 && |chunk| == 4 && 0 <= padding <= 2
    requires var n := |seen|;
             Holds(seen[n - 3], chunk[0], padding >= 3) && Holds(seen[n - 2], chunk[1], 1 + padding >= 3)
             && Holds(seen[n - 1], chunk[2], 2 + padding >= 3)
    requires (c != PAD ==> padding == 0) && (c == PAD ==> padding < 2)
    ensures var n := |seen|;
            GroupOctets(seen[n - 3], seen[n - 2], seen[n - 1], c)
            == Joined(chunk[0], chunk[1], chunk[2], Sextet(c), if c == PAD then padding + 1 else padding)
  {
    hide Joined, Sextet, Column;
  }

  lemma FullLength(seen: Octets, chunk: Octets, padding: int)
    requires Partial(seen, chunk, 3, padding)
    ensures |chunk| == 4 && Column(|seen|) == 3 && 0 <= padding <= 2
  {
    hide Column, Holds;
  }

  /** Pushing the octets of a group one by one. */
  lemma Pushes(output: Octets, v: Octet, w: Octet, x: Octet, y: Octet, pads: int)
    ensures pads == 0 ==>
              output + [(v << 2) | (w >> 4)] + [(w << 4) | (x >> 2)] + [(x << 6) | y] == output + Joined(v, w, x, y, pads)
    ensures pads == 1 ==> output + [(v << 2) | (w >> 4)] + [(w << 4) | (x >> 2)] == output + Joined(v, w, x, y, pads)
    ensures pads == 2 ==> output + [(v << 2) | (w >> 4)] == output + Joined(v, w, x, y, pads)
  {
  }

  /** The value of a character; a pad counts as zero. */
  method ReadSymbol(c: Octet) returns (value: Option<Octet>)
    ensures value.None? <==> c != PAD && ValueOf(c).None?
    ensures value.Some? ==> value.value == Sextet(c)
  {
    if 0x41 <= c <= 0x5A {
      value := Some(c - 0x41);
    } else if 0x61 <= c <= 0x7A {
      value := Some(c - 0x61 + 26);
    } else if 0x30 <= c <= 0x39 {
      value := Some(c - 0x30 + 52);
    } else if c == 0x2B {
      value := Some(62);
    } else if c == 0x2F {
      value := Some(63);
    } else if c == PAD {
      value := Some(0);
    } else {
      value := None;
    }
  }

  /** One pass over the text, four characters at a time. */
  method DecodeBase64(input: Octets) returns (r: Decoding)
    ensures r == Decoded(input)
  {
    hide Decoded, Payload, LastFault, FirstFault, Partial, Finished, Sextet, Stripped, ValueOf, Column, Joined;
    var output: Octets := [];
    var chunk := new Octet[4](_ => 0);
    var chunkLen := 0;
    var padding := 0;
    var sawPadding := false;
    var finished := false;
    ghost var seen: Octets := [];
    NothingSeen(input, chunk[..]);
    for i := 0 to |input|
      invariant seen == Stripped(input[..i]) && FirstFault(seen).None?
      invariant 0 <= chunkLen < 4 && chunkLen <= |seen| && Partial(seen, chunk[..], chunkLen, padding)
      invariant output == Payload(seen[..|seen| - chunkLen])
      invariant sawPadding == (padding > 0)
      invariant finished == Finished(seen)
    {
      var c := input[i];
      StepStrips(input, i);
      if !IsWhitespace(c) {
        ghost var next := seen + [c];
        NextFault(seen, chunk[..], chunkLen, padding, c);
        FaultSoFar(input, i + 1, seen, c);
        if finished {
          return Err(InvalidPadding);
        }
        var value := ReadSymbol(c);
        if value.None? {
          return Err(InvalidCharacter);
        }
        if c == PAD {
          sawPadding := true;
          padding := padding + 1;
        }
        if sawPadding && c != PAD {
          return Err(InvalidPadding);
        }
        if padding > 2 {
          return Err(InvalidPadding);
        }
        ghost var before, earlier := chunk[..], if c == PAD then padding - 1 else padding;
        chunk[chunkLen] := value.value;
        assert chunk[..] == before[chunkLen := value.value];
        assert seen[..|seen| - chunkLen] == next[..|next| - chunkLen - 1];
        chunkLen := chunkLen + 1;
        if chunkLen == 4 {
          PartialFull(seen, before, earlier, c);
          GroupStarts(seen, before, earlier, c);
          Pushes(output, chunk[0], chunk[1], chunk[2], chunk[3], padding);
          output := output + [(chunk[0] << 2) | (chunk[1] >> 4)];
          if padding < 2 {
            output := output + [(chunk[1] << 4) | (chunk[2] >> 2)];
          }
          if padding == 0 {
            output := output + [(chunk[2] << 6) | chunk[3]];
          }
          forall k | 0 <= k < 4 { chunk[k] := 0; }
          chunkLen := 0;
          if padding > 0 {
            finished := true;
          }
          padding := 0;
          sawPadding := false;
          StartPartial(next, chunk[..]);
        } else {
          PartialNext(seen, before, chunkLen - 1, earlier, c);
        }
        seen := next;
      }
    }
    assert input[..|input|] == input;
    PartialLength(seen, chunk[..], chunkLen, padding);
    if chunkLen != 0 {
      return Err(InvalidLength);
    }
    assert seen[..|seen|] == seen;
    r := Ok(output);
  }

  lemma NothingSeen(input: Octets, chunk: Octets)
    requires |chunk| == 4
    ensures Stripped(input[..0]) == [] && FirstFault([]).None? && Payload([]) == []
    ensures Partial([], chunk, 0, 0) && !Finished([])
  {
  }

  lemma GroupStarts(seen: Octets, chunk: Octets, padding: int, c: Octet)
    requires Partial(seen, chunk, 3, padding)
    ensures Column(|seen + [c]|) == 0
    ensures (seen + [c])[..|seen + [c]|] == seen + [c]
  {
    hide Holds;
  }

  lemma StartPartial(seen: Octets, chunk: Octets)
    requires Column(|seen|) == 0 && |chunk| == 4
    ensures Partial(seen, chunk, 0, 0)
  {
    hide Holds;
  }

  lemma PartialLength(seen: Octets, chunk: Octets, chunkLen: int, padding: int)
    requires Partial(seen, chunk, chunkLen, padding) && FirstFault(seen).None?
    ensures chunkLen == |seen| % 4
    ensures forall input :: Stripped(input) == seen ==>
              Decoded(input) == if chunkLen != 0 then Err(InvalidLength) else Ok(Payload(seen))
  {
    hide FirstFault, Payload, Stripped;
  }

  lemma StepStrips(input: Octets, i: nat)
    requires i < |input|
    ensures Stripped(input[..i + 1]) == Stripped(input[..i]) + if IsWhitespace(input[i]) then [] else [input[i]]
  {
    assert input[..i + 1][..i] == input[..i];
  }

  /** The first fault in what has been read decides the result. */
  lemma FaultSoFar(input: Octets, n: nat, seen: Octets, c: Octet)
    requires n <= |input| && seen + [c] == Stripped(input[..n]) && FirstFault(seen).None?
    ensures FirstFault(seen + [c]) == LastFault(seen + [c])
    ensures LastFault(seen + [c]).Some? ==> Decoded(input) == Err(LastFault(seen + [c]).value)
  {
    hide LastFault, Stripped;
    var next := seen + [c];
    assert next[..|seen|] == seen;
    assert input == input[..n] + input[n..];
    StrippedSplits(input[..n], input[n..]);
    if LastFault(next).Some? {
      FaultStays(next, Stripped(input[n..]));
    }
  }
}
