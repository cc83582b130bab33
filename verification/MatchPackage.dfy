/** Match result packages: their offline check, what it proves, and the packages that pass it. */
module MatchPackage {
  import opened Bytes
  import opened JsStrings
  import opened LevelTree
  import opened LeafHash
  import opened Manifest
  import opened ManifestValidator
  import opened ManifestBinding
  import opened TreeBinding
  import opened Framing
  import Hex
  import ByteOrder
  import Merkle
  import Sorting

  datatype PathStep = PathStep(sibling: JsString, position: Position)

  datatype Match = Match(leafId: JsString, leafType: JsString, proofPath: seq<PathStep>)

  /**
    The parts of a result package that the check reads. The protocol version is the text that the platform
    makes of the field before encoding it; it is None when that throws, as for an object that has no text.
    */
  datatype ResultPackage = ResultPackage(
    resultType: JsString,
    protocolVersion: Option<JsString>,
    submittedHash: JsString,
    merkleRoot: JsString,
    found: Option<Match>)

  /** The exceptions that the check lets through. */
  datatype Thrown = VersionHasNoText | LeafFailed(leaf: LeafError)

  const MATCH: JsString := Lit("match")

  /** The longest string a JavaScript engine makes. */
  const MAX_STRING_LENGTH: nat := 0x1FFF_FFE8

  function DecodePath(path: seq<PathStep>): (r: seq<Merkle.ProofStep>)
    ensures |r| == |path|
    ensures forall i :: 0 <= i < |r| ==> r[i] == Step(Hex.FromHex(path[i].sibling), path[i].position)
  {
    seq(|path|, i requires 0 <= i < |path| => Step(Hex.FromHex(path[i].sibling), path[i].position))
  }

  function PackageInput(pkg: ResultPackage): LeafInput
    requires pkg.found.Some? && pkg.protocolVersion.Some?
  {
    LeafInput(pkg.protocolVersion.value, pkg.found.value.leafType, HASH_ALGORITHM, Hex.FromHex(pkg.submittedHash))
  }

  /** The checks before the leaf hash is recomputed. */
  predicate IsRecomputed(pkg: ResultPackage) {
    && pkg.resultType == MATCH && pkg.found.Some? && IsLeafType(pkg.found.value.leafType)
    && |Hex.FromHex(pkg.submittedHash)| == 32 && |Hex.FromHex(pkg.found.value.leafId)| == 32
  }

  /** The check; an error stands for an exception thrown while the leaf hash is recomputed. */
  function VerifyMatchProof(h: HashFn, pkg: ResultPackage): Result<bool, Thrown> {
    if pkg.resultType != MATCH || pkg.found.None? then Ok(false)
    else if !IsLeafType(pkg.found.value.leafType) then Ok(false)
    else if |Hex.FromHex(pkg.submittedHash)| != 32 then Ok(false)
    else if |Hex.FromHex(pkg.found.value.leafId)| != 32 then Ok(false)
    else if pkg.protocolVersion.None? then Err(VersionHasNoText)
    else
      match ComputeLeafHash(h, PackageInput(pkg))
      case Err(e) => Err(LeafFailed(e))
      case Ok(recomputed) =>
        if Hex.ToHex(recomputed) != pkg.found.value.leafId then Ok(false)
        else
          Ok(Merkle.Verifies(h, Hex.FromHex(pkg.found.value.leafId), DecodePath(pkg.found.value.proofPath),
                             Hex.FromHex(pkg.merkleRoot)))
  }

  lemma PackageFieldsFit(pkg: ResultPackage)
    requires IsRecomputed(pkg) && pkg.protocolVersion.Some?
    ensures FieldsFit(PackageInput(pkg)) <==> |Utf8(pkg.protocolVersion.value)| <= MAX_LENGTH
  {
    Utf8Length(HASH_ALGORITHM);
    LeafTypeIsAscii(pkg.found.value.leafType);
    hide Utf8;
  }

  /**
    The check throws exactly when it gets as far as the leaf hash and the version has no text or one whose
    encoding is too long for its prefix. No string that an engine can make is that long.
    */
  lemma ThrowsExactly(h: HashFn, pkg: ResultPackage)
    ensures VerifyMatchProof(h, pkg).Err? <==>
            IsRecomputed(pkg) && (pkg.protocolVersion.None? || |Utf8(pkg.protocolVersion.value)| > MAX_LENGTH)
    ensures pkg.protocolVersion.Some? && |pkg.protocolVersion.value| <= MAX_STRING_LENGTH ==>
              VerifyMatchProof(h, pkg).Ok?
  {
    if IsRecomputed(pkg) && pkg.protocolVersion.Some? {
      PackageFieldsFit(pkg);
      Utf8Length(pkg.protocolVersion.value);
    }
    hide IsLeafType, Utf8, Encoding;
  }

  /** For one: any package that passes makes the check throw once its version is a value without a text. */
  lemma ThrowsWithoutVersion(h: HashFn, pkg: ResultPackage)
    requires VerifyMatchProof(h, pkg) == Ok(true)
    ensures VerifyMatchProof(h, pkg.(protocolVersion := None)) == Err(VersionHasNoText)
  {
    hide IsLeafType, ComputeLeafHash, Merkle.Verifies;
  }

  lemma VerifiedWalk(h: HashFn, pkg: ResultPackage)
    requires VerifyMatchProof(h, pkg) == Ok(true)
    ensures pkg.protocolVersion.Some? && LeafHashInput(PackageInput(pkg)).Ok?
    ensures var x := LeafHashInput(PackageInput(pkg)).value;
            && IsLeafInput(x) && |Hex.FromHex(pkg.merkleRoot)| == 32
            && Merkle.Walk(h, h(x), DecodePath(pkg.found.value.proofPath)) == Some(Hex.FromHex(pkg.merkleRoot))
  {
    hide IsLeafType, Merkle.Walk, LeafHashInput;
    var x := LeafHashInput(PackageInput(pkg)).value;
    StartsWithZero(PackageInput(pkg));
    Hex.HexRoundTrip(h(x));
  }

  lemma SameInputSameMember(pkg: ResultPackage, member: Member)
    requires pkg.found.Some? && pkg.protocolVersion.Some? && Encodable(member)
    requires LeafHashInput(PackageInput(pkg)) == Ok(InputBytes(member))
    ensures member == Member(pkg.found.value.leafType, Hex.FromHex(pkg.submittedHash))
    ensures pkg.protocolVersion == Some(Lit("1.0"))
  {
    ConstantsFit(InputOf(member));
    InputInjective(PackageInput(pkg), InputOf(member));
    hide LeafHashInput, Encoding;
    Utf8OfAscii(PROTOCOL_VERSION);
    assert PROTOCOL_VERSION == Lit("1.0");
    AsciiUtf8(pkg.protocolVersion.value);
  }

  /** An accepted package names a member of the manifest that has its root, or a collision is named. */
  lemma MatchSound(h: HashFn, parses: Timestamps, m: Value, pkg: ResultPackage)
    requires Accepted(h, parses, m) && RootText(m).Str?
    requires VerifyMatchProof(h, pkg) == Ok(true)
    requires Hex.FromHex(pkg.merkleRoot) == Hex.FromHex(RootText(m).s)
    ensures pkg.protocolVersion.Some? && LeafHashInput(PackageInput(pkg)).Ok?
    ensures forall i :: 0 <= i < |m.leafSet.leaves| ==> Typed(m.leafSet.leaves[i])
    ensures var x, path := LeafHashInput(PackageInput(pkg)).value, DecodePath(pkg.found.value.proofPath);
            var members := Members(m.leafSet.leaves);
            members != [] &&
            match WalkCollision(h, x, path, AllInputs(members))
            case None =>
              && Member(pkg.found.value.leafType, Hex.FromHex(pkg.submittedHash)) in members
              && pkg.protocolVersion == Some(Lit("1.0")) && pkg.resultType == Lit("match")
            case Some(pair) =>
              Witnesses(h, pair, {x} + HashedForWalk(h, h(x), path), HashedForRoot(h, AllInputs(members)))
  {
    hide *;
    UnfoldAccepted(h, parses, m);
    AcceptedRoot(h, parses, m);
    VerifiedWalk(h, pkg);
    FoundInVerified(h, pkg);
    var x, path := LeafHashInput(PackageInput(pkg)).value, DecodePath(pkg.found.value.proofPath);
    var members := Members(m.leafSet.leaves);
    WalkBinds(h, x, path, AllInputs(members));
    if WalkCollision(h, x, path, AllInputs(members)).None? {
      var i :| 0 <= i < |members| && AllInputs(members)[i] == x;
      SameInputSameMember(pkg, members[i]);
    }
  }

  lemma UnfoldAccepted(h: HashFn, parses: Timestamps, m: Value)
    requires Accepted(h, parses, m)
    ensures m.Object? && m.leafSet.LeafSet? && m.leafSet.leaves != []
    ensures GoodLeaves(h, m.leafSet.leaves)
  {
  }

  lemma FoundInVerified(h: HashFn, pkg: ResultPackage)
    requires VerifyMatchProof(h, pkg) == Ok(true)
    ensures pkg.found.Some? && pkg.resultType == Lit("match")
  {
  }

  // The packages that the server builds for a matched leaf.

  function EncodePath(proof: seq<Step<Digest>>): (r: seq<PathStep>)
    ensures |r| == |proof|
    ensures forall i :: 0 <= i < |r| ==> r[i] == PathStep(Hex.ToHex(proof[i].sibling), proof[i].position)
  {
    seq(|proof|, i requires 0 <= i < |proof| => PathStep(Hex.ToHex(proof[i].sibling), proof[i].position))
  }

  /** The root stored with the attestation, or else the manifest's own. */
  function RootUsed(m: Value, attested: Option<JsString>): JsString
    requires m.Object? && RootText(m).Str?
  {
    attested.GetOr(RootText(m).s)
  }

  /** The package for the leaf at i, when its recomputed hash and proof check out. */
  function BuildMatchPackage(h: HashFn, m: Value, i: nat, attested: Option<JsString>): Option<ResultPackage>
    requires m.Object? && m.leafSet.LeafSet? && AllHashesHex(m.leafSet.leaves) && i < |m.leafSet.leaves|
    requires RootText(m).Str? && Typed(m.leafSet.leaves[i])
  {
    var leaves := m.leafSet.leaves;
    var leaf := leaves[i];
    if RecomputedHash(h, leaf.leafType.s, leaf.payloadHash.s) != leaf.leafHash.s then None
    else
      match Merkle.MerkleProof(h, LeafBytes(leaves), Hex.FromHex(leaf.leafHash.s))
      case Err(_) => None
      case Ok(proof) =>
        Some(ResultPackage(MATCH, Some(PROTOCOL_VERSION), leaf.payloadHash.s, RootUsed(m, attested),
                           Some(Match(leaf.leafHash.s, leaf.leafType.s, EncodePath(proof)))))
  }

  lemma PathRoundTrip(proof: seq<Step<Digest>>)
    ensures DecodePath(EncodePath(proof)) == proof
  {
    forall i | 0 <= i < |proof| ensures DecodePath(EncodePath(proof))[i] == proof[i] {
      Hex.HexRoundTrip(proof[i].sibling);
    }
  }

  lemma LeafProofExists(h: HashFn, leaves: seq<Leaf>, i: nat)
    requires GoodLeaves(h, leaves) && i < |leaves|
    ensures AllHashesHex(leaves)
    ensures Merkle.MerkleRoot(h, LeafBytes(leaves)).Ok?
    ensures Merkle.MerkleProof(h, LeafBytes(leaves), LeafBytes(leaves)[i]).Ok?
    ensures Merkle.Verifies(h, LeafBytes(leaves)[i], Merkle.MerkleProof(h, LeafBytes(leaves), LeafBytes(leaves)[i]).value,
                            Merkle.MerkleRoot(h, LeafBytes(leaves)).value)
  {
    LeafBytesAreHashes(h, leaves);
    LeafBytesAscend(h, leaves);
    var bytes := LeafBytes(leaves);
    hide Merkle.MerkleProof, Merkle.MerkleRoot, Merkle.Verifies, ByteOrder.Less, GoodTo;
    ByteOrder.IsStrictOrder();
    Sorting.AscendingIsSorted<Bytes>(ByteOrder.Less, bytes);
    Merkle.ProofsComplete(h, bytes, bytes[i]);
  }

  lemma MemberInput(leaf: Leaf, input: LeafInput)
    requires Typed(leaf)
    requires input == LeafInput(PROTOCOL_VERSION, leaf.leafType.s, HASH_ALGORITHM, Hex.FromHex(leaf.payloadHash.s))
    ensures input == InputOf(Encoded(leaf))
    ensures LeafHashInput(input) == Ok(InputBytes(Encoded(leaf)))
  {
    hide Encoding, Utf8, IsLeafType, Hex.FromHex, Hex.IsHex64;
    ConstantsFit(InputOf(Encoded(leaf)));
  }

  lemma BuiltInput(h: HashFn, leaf: Leaf, input: LeafInput)
    requires GoodLeaf(h, leaf)
    requires input == LeafInput(PROTOCOL_VERSION, leaf.leafType.s, HASH_ALGORITHM, Hex.FromHex(leaf.payloadHash.s))
    ensures Typed(leaf) && |input.payloadHash| == 32 && IsLeafType(input.leafType)
    ensures LeafHashInput(input).Ok?
    ensures leaf.leafHash.s == Hex.ToHex(h(LeafHashInput(input).value))
    ensures Hex.FromHex(leaf.leafHash.s) == h(LeafHashInput(input).value)
  {
    hide LeafHashInput, InputBytes, RecomputedHash, IsLeafType, Hex.FromHex, Hex.IsHex64, Hex.ToHex;
    GoodLeafTyped(h, leaf);
    MemberInput(leaf, input);
  }

  function PackageFor(leaf: Leaf, rootText: JsString, proof: seq<Step<Digest>>): ResultPackage
    requires Typed(leaf) && leaf.leafHash.Str?
  {
    ResultPackage(MATCH, Some(PROTOCOL_VERSION), leaf.payloadHash.s, rootText,
                  Some(Match(leaf.leafHash.s, leaf.leafType.s, EncodePath(proof))))
  }

  lemma PackagePasses(h: HashFn, leaf: Leaf, root: Digest, proof: seq<Step<Digest>>, rootText: JsString)
    requires GoodLeaf(h, leaf) && leaf.leafHash.Str?
    requires Merkle.Verifies(h, Hex.FromHex(leaf.leafHash.s), proof, root)
    ensures VerifyMatchProof(h, PackageFor(leaf, rootText, proof)) == Ok(Hex.FromHex(rootText) == root)
  {
    BuiltInput(h, leaf, PackageInput(PackageFor(leaf, rootText, proof)));
    PathRoundTrip(proof);
    hide LeafHashInput, Encoding, Merkle.Walk, IsLeafType, GoodLeaf;
  }

  lemma Built(h: HashFn, m: Value, i: nat, attested: Option<JsString>)
    requires m.Object? && m.leafSet.LeafSet? && AllHashesHex(m.leafSet.leaves) && i < |m.leafSet.leaves|
    requires RootText(m).Str? && Typed(m.leafSet.leaves[i]) && GoodLeaf(h, m.leafSet.leaves[i])
    requires Merkle.MerkleProof(h, LeafBytes(m.leafSet.leaves), LeafBytes(m.leafSet.leaves)[i]).Ok?
    ensures BuildMatchPackage(h, m, i, attested) ==
            Some(PackageFor(m.leafSet.leaves[i], RootUsed(m, attested),
                            Merkle.MerkleProof(h, LeafBytes(m.leafSet.leaves), LeafBytes(m.leafSet.leaves)[i]).value))
  {
    hide RecomputedHash, Merkle.MerkleProof, IsLeafType;
  }

  lemma GoodAt(h: HashFn, leaves: seq<Leaf>, i: nat)
    requires GoodLeaves(h, leaves) && i < |leaves|
    ensures GoodLeaf(h, leaves[i]) && leaves[i].leafHash.Str? && AllHashesHex(leaves)
    ensures LeafBytes(leaves)[i] == Hex.FromHex(leaves[i].leafHash.s)
  {
    GoodLeavesHex(h, leaves);
  }

  /**
    Every leaf of an accepted manifest gets a package, which passes the check exactly when the root it
    carries is the manifest's; always when it carries the manifest's own.
    */
  lemma MatchComplete(h: HashFn, parses: Timestamps, m: Value, i: nat, attested: Option<JsString>)
    requires Accepted(h, parses, m) && i < |m.leafSet.leaves|
    ensures AllHashesHex(m.leafSet.leaves) && RootText(m).Str? && Typed(m.leafSet.leaves[i])
    ensures BuildMatchPackage(h, m, i, attested).Some?
    ensures VerifyMatchProof(h, BuildMatchPackage(h, m, i, attested).value) ==
            Ok(Hex.FromHex(RootUsed(m, attested)) == Hex.FromHex(RootText(m).s))
    ensures VerifyMatchProof(h, BuildMatchPackage(h, m, i, None).value) == Ok(true)
  {
    hide *;
    UnfoldAccepted(h, parses, m);
    AcceptedRoot(h, parses, m);
    var leaves := m.leafSet.leaves;
    var root := RootText(m).s;
    GoodAt(h, leaves, i);
    LeafProofExists(h, leaves, i);
    GoodLeavesRoot(h, leaves);
    var proof := Merkle.MerkleProof(h, LeafBytes(leaves), LeafBytes(leaves)[i]).value;
    OwnRoot(m);
    Built(h, m, i, attested);
    Built(h, m, i, None);
    PackagePasses(h, leaves[i], Merkle.MerkleRoot(h, LeafBytes(leaves)).value, proof, RootUsed(m, attested));
    PackagePasses(h, leaves[i], Merkle.MerkleRoot(h, LeafBytes(leaves)).value, proof, RootUsed(m, None));
  }

  lemma OwnRoot(m: Value)
    requires m.Object? && RootText(m).Str?
    ensures RootUsed(m, None) == RootText(m).s
  {
  }

  /** What the package for a leaf says: the attestation's root, or the manifest's own when there is none. */
  lemma PackageSays(h: HashFn, m: Value, i: nat, attested: Option<JsString>)
    requires m.Object? && m.leafSet.LeafSet? && AllHashesHex(m.leafSet.leaves) && i < |m.leafSet.leaves|
    requires RootText(m).Str? && Typed(m.leafSet.leaves[i]) && BuildMatchPackage(h, m, i, attested).Some?
    ensures var pkg, leaf := BuildMatchPackage(h, m, i, attested).value, m.leafSet.leaves[i];
            && pkg.merkleRoot == (match attested case Some(root) => root case None => RootText(m).s)
            && pkg.resultType == Lit("match") && pkg.protocolVersion == Some(Lit("1.0"))
            && pkg.submittedHash == leaf.payloadHash.s && pkg.found.Some?
            && pkg.found.value.leafId == leaf.leafHash.s && pkg.found.value.leafType == leaf.leafType.s
  {
    hide Merkle.MerkleProof, LeafBytes, RecomputedHash, AllHashesHex, EncodePath, Hex.FromHex;
  }
}
