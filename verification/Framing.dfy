/** Length-prefixed fields and their concatenation. */
module Framing {
  import opened Bytes

  const MAX_LENGTH: nat := 0xffff_ffff

  function U32be(n: u32): (r: Bytes)
    ensures |r| == 4
  {
    [n / 0x100_0000, n / 0x1_0000 % 0x100, n / 0x100 % 0x100, n % 0x100]
  }

  /** The uint32 length prefix, or nothing when the length does not fit. */
  method LengthPrefix(length: int) returns (r: Option<Bytes>)
    ensures r == if 0 <= length <= MAX_LENGTH then Some(U32be(length)) else None
  {
    if length < 0 || length > MAX_LENGTH {
      return None;
    }
    var buf := new byte[4];
    buf[0], buf[1] := length / 0x100_0000, length / 0x1_0000 % 0x100;
    buf[2], buf[3] := length / 0x100 % 0x100, length % 0x100;
    assert buf[..] == U32be(length);
    r := Some(buf[..]);
  }

  function Flatten(parts: seq<Bytes>): Bytes {
    if parts == [] then [] else parts[0] + Flatten(parts[1..])
  }

  lemma {:induction false} FlattenSnoc(parts: seq<Bytes>, last: Bytes)
    ensures Flatten(parts + [last]) == Flatten(parts) + last
  {
    if parts == [] {
      assert [last][1..] == [];
    } else {
      assert (parts + [last])[1..] == parts[1..] + [last];
      FlattenSnoc(parts[1..], last);
    }
  }

  lemma {:induction false} FlattenSplit(parts: seq<Bytes>, i: nat)
    requires i < |parts|
    ensures Flatten(parts[..i + 1]) == Flatten(parts[..i]) + parts[i]
  {
    assert parts[..i + 1] == parts[..i] + [parts[i]];
    FlattenSnoc(parts[..i], parts[i]);
  }

  lemma {:induction false} PrefixFits(parts: seq<Bytes>, i: nat)
    requires i <= |parts|
    ensures |Flatten(parts[..i])| <= |Flatten(parts)|
    decreases |parts| - i
  {
    if i < |parts| {
      FlattenSplit(parts, i);
      PrefixFits(parts, i + 1);
    } else {
      assert parts[..i] == parts;
    }
  }

  /** Parts are copied one after another into one buffer. */
  method Concat(parts: seq<Bytes>) returns (r: Bytes)
    ensures r == Flatten(parts)
  {
    var total := 0;
    for i := 0 to |parts|
      invariant total == |Flatten(parts[..i])|
    {
      FlattenSplit(parts, i);
      total := total + |parts[i]|;
    }
    assert parts[..|parts|] == parts;
    var out := new byte[total];
    var offset := 0;
    for i := 0 to |parts|
      invariant offset == |Flatten(parts[..i])| <= out.Length
      invariant out[..offset] == Flatten(parts[..i])
    {
      FlattenSplit(parts, i);
      PrefixFits(parts, i + 1);
      ghost var before := out[..offset];
      forall k | 0 <= k < |parts[i]| {
        out[offset + k] := parts[i][k];
      }
      assert out[..offset] == before;
      assert out[offset..offset + |parts[i]|] == parts[i];
      offset := offset + |parts[i]|;
    }
    r := out[..];
  }

  function Field(b: Bytes): Bytes
    requires |b| <= MAX_LENGTH
  {
    U32be(|b|) + b
  }

  lemma U32beInjective(m: u32, n: u32)
    requires U32be(m) == U32be(n)
    ensures m == n
  {
    U32beValue(m);
    U32beValue(n);
    hide U32be;
  }

  lemma U32beValue(n: u32)
    ensures var b: seq<int> := U32be(n); n == ((b[0] * 0x100 + b[1]) * 0x100 + b[2]) * 0x100 + b[3]
  {
    var low, middle, high := n / 0x100, n / 0x1_0000, n / 0x100_0000;
    assert middle == low / 0x100 && high == middle / 0x100;
    assert n == low * 0x100 + n % 0x100;
    assert low == middle * 0x100 + low % 0x100;
    assert middle == high * 0x100 + middle % 0x100;
  }

  /** A field's end is known from its start. */
  lemma FieldsSeparate(b: Bytes, c: Bytes, after: Bytes, after': Bytes)
    requires |b| <= MAX_LENGTH && |c| <= MAX_LENGTH
    requires Field(b) + after == Field(c) + after'
    ensures b == c && after == after'
  {
    var whole := Field(b) + after;
    hide U32be;
    assert U32be(|b|) == whole[..4] == U32be(|c|);
    U32beInjective(|b|, |c|);
    assert b == whole[4..4 + |b|] == c;
    assert after == whole[4 + |b|..] == after';
  }

  // A reader of fields.

  /** The number in the first four bytes, the most significant first. */
  function NumberAt(b: Bytes): int
    requires |b| >= 4
  {
    var x: seq<int> := b;
    x[0] * 0x100_0000 + x[1] * 0x1_0000 + x[2] * 0x100 + x[3]
  }

  /** n fields, and nothing after them. */
  function ReadFields(b: Bytes, n: nat): Option<seq<Bytes>> {
    if n == 0 then if b == [] then Some([]) else None
    else if |b| < 4 || |b| < 4 + NumberAt(b) then None
    else
      match ReadFields(b[4 + NumberAt(b)..], n - 1)
      case None => None
      case Some(rest) => Some([b[4..4 + NumberAt(b)]] + rest)
  }

  lemma ReadFirst(x: Bytes, rest: Bytes)
    requires |x| <= MAX_LENGTH
    ensures var b := Field(x) + rest;
            |b| >= 4 && NumberAt(b) == |x| && b[4..4 + |x|] == x && b[4 + |x|..] == rest
  {
    U32beValue(|x|);
    var b := Field(x) + rest;
    assert b[..4] == U32be(|x|);
    hide U32be;
  }

  /** A field is read back, with the fields after it. */
  lemma ReadField(x: Bytes, rest: Bytes, n: nat, fields: seq<Bytes>)
    requires |x| <= MAX_LENGTH && ReadFields(rest, n) == Some(fields)
    ensures ReadFields(Field(x) + rest, n + 1) == Some([x] + fields)
  {
    ReadFirst(x, rest);
    hide Field;
  }
}
