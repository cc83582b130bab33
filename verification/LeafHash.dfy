/** The leaf hash input and what it determines. */
module LeafHash {
  import opened Bytes
  import opened JsStrings
  import opened Framing
  import TreeBinding

  const PROTOCOL_VERSION: JsString := Lit("1.0")
  const HASH_ALGORITHM: JsString := Lit("sha256")
  const FILE_LEAF: JsString := Lit("file/sha256/v1")
  const SHINGLE_LEAF: JsString := Lit("shingle/sha256/v1")
  const COMPONENT_LEAF: JsString := Lit("component/sha256/v1")

  datatype LeafInput = LeafInput(protocolVersion: JsString, leafType: JsString, hashAlgorithm: JsString, payloadHash: Bytes)

  datatype LeafError = PayloadNotDigest(length: nat) | UnknownLeafType | LengthOutOfRange

  predicate IsLeafType(s: JsString) {
    s == FILE_LEAF || s == SHINGLE_LEAF || s == COMPONENT_LEAF
  }

  predicate FieldsFit(input: LeafInput) {
    |Utf8(input.protocolVersion)| <= MAX_LENGTH && |Utf8(input.leafType)| <= MAX_LENGTH
    && |Utf8(input.hashAlgorithm)| <= MAX_LENGTH && |input.payloadHash| == 32
  }

  function Encoding(input: LeafInput): Bytes
    requires FieldsFit(input)
  {
    [0x00] + (Field(Utf8(input.protocolVersion)) + (Field(Utf8(input.leafType))
    + (Field(Utf8(input.hashAlgorithm)) + Field(input.payloadHash))))
  }

  function LeafHashInput(input: LeafInput): Result<Bytes, LeafError> {
    if |input.payloadHash| != 32 then Err(PayloadNotDigest(|input.payloadHash|))
    else if !IsLeafType(input.leafType) then Err(UnknownLeafType)
    else if !FieldsFit(input) then Err(LengthOutOfRange)
    else Ok(Encoding(input))
  }

  function ComputeLeafHash(h: HashFn, input: LeafInput): Result<Digest, LeafError> {
    match LeafHashInput(input)
    case Err(e) => Err(e)
    case Ok(bytes) => Ok(h(bytes))
  }

  /** The input is put together from its parts in a buffer. */
  method BuildLeafHashInput(input: LeafInput) returns (r: Result<Bytes, LeafError>)
    ensures r == LeafHashInput(input)
  {
    hide Utf8, U32be, Flatten, IsLeafType;
    if |input.payloadHash| != 32 {
      return Err(PayloadNotDigest(|input.payloadHash|));
    }
    if !IsLeafType(input.leafType) {
      return Err(UnknownLeafType);
    }
    var protocol, leafType, algo := Utf8(input.protocolVersion), Utf8(input.leafType), Utf8(input.hashAlgorithm);
    var n0 := LengthPrefix(|protocol|);
    var n1 := LengthPrefix(|leafType|);
    var n2 := LengthPrefix(|algo|);
    var n3 := LengthPrefix(|input.payloadHash|);
    if n0.None? || n1.None? || n2.None? {
      return Err(LengthOutOfRange);
    }
    var parts: seq<Bytes> := [[0x00], n0.value, protocol, n1.value, leafType, n2.value, algo, n3.value, input.payloadHash];
    var bytes := Concat(parts);
    FlattenNine(parts);
    r := Ok(bytes);
  }

  lemma FlattenNine(p: seq<Bytes>)
    requires |p| == 9
    ensures Flatten(p) == p[0] + ((p[1] + p[2]) + ((p[3] + p[4]) + ((p[5] + p[6]) + (p[7] + p[8]))))
  {
    assert Flatten(p[9..]) == [];
    assert Flatten(p[8..]) == p[8] by { assert p[8..][1..] == p[9..]; }
    assert Flatten(p[7..]) == p[7] + p[8] by { assert p[7..][1..] == p[8..]; }
    assert Flatten(p[5..]) == (p[5] + p[6]) + (p[7] + p[8]) by {
      assert p[5..][1..] == p[6..] && p[6..][1..] == p[7..];
    }
    assert Flatten(p[3..]) == (p[3] + p[4]) + Flatten(p[5..]) by {
      assert p[3..][1..] == p[4..] && p[4..][1..] == p[5..];
    }
    assert Flatten(p[1..]) == (p[1] + p[2]) + Flatten(p[3..]) by {
      assert p[1..][1..] == p[2..] && p[2..][1..] == p[3..];
    }
  }

  lemma StartsWithZero(input: LeafInput)
    requires LeafHashInput(input).Ok?
    ensures TreeBinding.IsLeafInput(LeafHashInput(input).value)
  {
  }

  lemma LeafTypeIsAscii(s: JsString)
    requires IsLeafType(s)
    ensures Utf8(s) == s
  {
    Utf8OfAscii(s);
  }

  /** Equal inputs come from equal leaf types, payloads and encoded version and algorithm. */
  lemma InputInjective(a: LeafInput, b: LeafInput)
    requires LeafHashInput(a).Ok? && LeafHashInput(a) == LeafHashInput(b)
    ensures a.leafType == b.leafType && a.payloadHash == b.payloadHash
    ensures Utf8(a.protocolVersion) == Utf8(b.protocolVersion)
    ensures Utf8(a.hashAlgorithm) == Utf8(b.hashAlgorithm)
  {
    var va, vb := Utf8(a.protocolVersion), Utf8(b.protocolVersion);
    var ta, tb := Utf8(a.leafType), Utf8(b.leafType);
    var ga, gb := Utf8(a.hashAlgorithm), Utf8(b.hashAlgorithm);
    LeafTypeIsAscii(a.leafType);
    LeafTypeIsAscii(b.leafType);
    hide Utf8, Field;
    assert Encoding(a)[1..] == Encoding(b)[1..];
    FieldsSeparate(va, vb, Field(ta) + (Field(ga) + Field(a.payloadHash)), Field(tb) + (Field(gb) + Field(b.payloadHash)));
    FieldsSeparate(ta, tb, Field(ga) + Field(a.payloadHash), Field(gb) + Field(b.payloadHash));
    FieldsSeparate(ga, gb, Field(a.payloadHash), Field(b.payloadHash));
    FieldsSeparate(a.payloadHash, b.payloadHash, [], []);
  }

  // A reader of leaf inputs.

  /** The tag 0x00, then four fields. */
  function ReadLeafInput(b: Bytes): Option<seq<Bytes>> {
    if b == [] || b[0] != 0x00 then None else ReadFields(b[1..], 4)
  }

  /** What is hashed reads as version, leaf type, algorithm and payload hash, in this order. */
  lemma InputReads(input: LeafInput)
    requires LeafHashInput(input).Ok?
    ensures ReadLeafInput(LeafHashInput(input).value) ==
            Some([Utf8(input.protocolVersion), Utf8(input.leafType), Utf8(input.hashAlgorithm), input.payloadHash])
  {
    hide Utf8, Field, IsLeafType;
    var v, t, g, p := Utf8(input.protocolVersion), Utf8(input.leafType), Utf8(input.hashAlgorithm), input.payloadHash;
    assert Field(p) + [] == Field(p);
    ReadField(p, [], 0, []);
    assert [p] + [] == [p] && [g] + [p] == [g, p] && [t] + [g, p] == [t, g, p] && [v] + [t, g, p] == [v, t, g, p];
    ReadField(g, Field(p), 1, [p]);
    ReadField(t, Field(g) + Field(p), 2, [g, p]);
    ReadField(v, Field(t) + (Field(g) + Field(p)), 3, [t, g, p]);
    assert Encoding(input)[1..] == Field(v) + (Field(t) + (Field(g) + Field(p)));
  }

  /** The three leaf types, the version and the algorithm. */
  lemma NamesAre(s: JsString)
    ensures IsLeafType(s) <==>
            s == Lit("file/sha256/v1") || s == Lit("shingle/sha256/v1") || s == Lit("component/sha256/v1")
    ensures PROTOCOL_VERSION == Lit("1.0") && HASH_ALGORITHM == Lit("sha256")
  {
  }

  /** Which inputs are refused, and why. */
  lemma RefusedExactly(input: LeafInput)
    ensures LeafHashInput(input) == Err(PayloadNotDigest(|input.payloadHash|)) <==> |input.payloadHash| != 32
    ensures LeafHashInput(input) == Err(UnknownLeafType) <==> |input.payloadHash| == 32 && !IsLeafType(input.leafType)
    ensures LeafHashInput(input) == Err(LengthOutOfRange) <==>
            && |input.payloadHash| == 32 && IsLeafType(input.leafType)
            && (|Utf8(input.protocolVersion)| > 0xffff_ffff || |Utf8(input.hashAlgorithm)| > 0xffff_ffff)
  {
    if IsLeafType(input.leafType) {
      LeafTypeIsAscii(input.leafType);
      LeafTypeIsShort(input.leafType);
    }
    hide Utf8, IsLeafType;
  }

  lemma LeafTypeIsShort(s: JsString)
    requires IsLeafType(s)
    ensures |s| <= 100
  {
  }
}
