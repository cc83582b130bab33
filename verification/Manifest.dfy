/** Manifests: what the builder makes and what the validator accepts. */
module Manifest {
  import opened Bytes
  import opened JsStrings
  import opened Json
  import opened LeafHash
  import Hex
  import Merkle

  // A value is seen through the properties that the validator reads; a missing one is Undefined.

  datatype TextField =
    | SchemaVersion | ProtocolVersion | CanonicalizationVersion | MerkleVersion | HashAlgorithm | HashAlgorithmVersion
    | TenantId | ProjectId | AttestationId | AttemptId | CreatedByUserId | CreatedByDeviceId | CreatedByProfileId
    | MerkleRoot | CreatedAt | ShinglingVersion | OcrExtractionVersion | TemplateId

  datatype Leaf = LeafNotObject | LeafObject(leafType: Json, leafHash: Json, payloadHash: Json, metadata: Json)

  datatype LeafSet = NoLeafSet | LeafSet(leaves: seq<Leaf>)

  datatype Counts = NoCounts | Counts(first: Json, second: Json, third: Json)

  datatype Signature = SignatureNotObject | SignatureObject(kind: Json, keyId: Json, algorithm: Json, signature: Json)

  datatype Signatures = NoSignatures | Signatures(entries: seq<Signature>)

  /** The counts of sourceSummary are files, shingles and OCR pages; those of leafCounts files, shingles and components. */
  datatype Value = NotObject | Object(
    texts: map<TextField, Json>,
    sourceSummary: Counts,
    policyContext: Json,
    extractionMetadata: Json,
    leafSet: LeafSet,
    leafCounts: Counts,
    signatures: Signatures)

  datatype CountKey = FileCount | ShingleCount | ThirdCount

  datatype Issue =
    | RootNotObject
    | TextMissing(field: TextField)
    | WrongVersion(field: TextField)
    | BadTimestamp
    | SummaryMissing
    | BadSummaryCount(key: CountKey)
    | PolicyMissing
    | ExtractionMissing
    | LeafSetMissing
    | BadLeaf(index: nat)
    | BadLeafType(index: nat)
    | BadPayloadHash(index: nat)
    | BadLeafHash(index: nat)
    | LeafHashMismatch(index: nat)
    | DuplicateLeafHash(index: nat)
    | LeavesUnsorted
    | CountsMissing
    | WrongCount(key: CountKey)
    | RootMismatch
    | RootFailed(error: Merkle.MerkleError)
    | RootNotHex
    | SignaturesMissing
    | BadSignature(index: nat)
    | UnknownSigner(index: nat)
    | MissingKeyId(index: nat)
    | WrongAlgorithm(index: nat)
    | MissingSignature(index: nat)

  /** The ISO 8601 pattern together with Date.parse. */
  type Timestamps = JsString -> bool

  const REQUIRED: seq<TextField> := [
    SchemaVersion, ProtocolVersion, CanonicalizationVersion, MerkleVersion, HashAlgorithm, HashAlgorithmVersion,
    TenantId, ProjectId, AttestationId, AttemptId, CreatedByUserId, CreatedByDeviceId, CreatedByProfileId,
    MerkleRoot, CreatedAt]

  const VERSIONED: seq<TextField> := [
    SchemaVersion, ProtocolVersion, CanonicalizationVersion, MerkleVersion, HashAlgorithm, HashAlgorithmVersion]

  function ExpectedVersion(field: TextField): JsString {
    if field == HashAlgorithm then HASH_ALGORITHM else PROTOCOL_VERSION
  }

  function Text(texts: map<TextField, Json>, field: TextField): Json {
    if field in texts then texts[field] else Undefined
  }

  predicate IsNonEmptyString(v: Json) {
    v.Str? && v.s != []
  }

  predicate IsPlainObject(v: Json) {
    v.Obj?
  }

  predicate IsCount(v: Json) {
    v.Num? && (v.number.NegativeZero? || (v.number.Integer? && v.number.n >= 0))
  }

  predicate EqualsNumber(v: Json, n: nat) {
    v == Num(Integer(n)) || (n == 0 && v == Num(NegativeZero))
  }

  const DEVICE: JsString := Lit("device")
  const PROVERIA: JsString := Lit("proveria")
  const CUSTOMER: JsString := Lit("customer")
  const ED25519: JsString := Lit("ed25519")

  predicate IsSignerKind(v: Json) {
    v == Str(DEVICE) || v == Str(PROVERIA) || v == Str(CUSTOMER)
  }

  // The texts.

  /** The issues of the first n fields. */
  function TextIssues(texts: map<TextField, Json>, fields: seq<TextField>, n: nat): seq<Issue>
    requires n <= |fields|
  {
    if n == 0 then []
    else
      TextIssues(texts, fields, n - 1)
      + if IsNonEmptyString(Text(texts, fields[n - 1])) then [] else [TextMissing(fields[n - 1])]
  }

  function VersionIssues(texts: map<TextField, Json>, fields: seq<TextField>, n: nat): seq<Issue>
    requires n <= |fields|
  {
    if n == 0 then []
    else
      VersionIssues(texts, fields, n - 1)
      + if Text(texts, fields[n - 1]) == Str(ExpectedVersion(fields[n - 1])) then [] else [WrongVersion(fields[n - 1])]
  }

  function TimestampIssues(parses: Timestamps, v: Json): seq<Issue> {
    if IsNonEmptyString(v) && !parses(v.s) then [BadTimestamp] else []
  }

  function SummaryIssues(summary: Counts): seq<Issue> {
    match summary
    case NoCounts => [SummaryMissing]
    case Counts(files, shingles, pages) =>
      (if IsCount(files) then [] else [BadSummaryCount(FileCount)])
      + (if IsCount(shingles) then [] else [BadSummaryCount(ShingleCount)])
      + (if IsCount(pages) then [] else [BadSummaryCount(ThirdCount)])
  }

  // Making a text of a value, as error messages do.

  const TO_STRING: JsString := Lit("toString")

  /**
    String(v) of a value read from JSON returns. It throws for an object with a toString of its own, which is
    not callable, and for an array with such an object in it.
    */
  predicate HasText(v: Json) {
    match v
    case Arr(items) => forall i :: 0 <= i < |items| ==> HasText(items[i])
    case Obj(fields) => forall i :: 0 <= i < |fields| ==> fields[i].name != TO_STRING
    case _ => true
  }

  // The leaves.

  function RecomputedHash(h: HashFn, leafType: JsString, payloadHash: JsString): JsString
    requires IsLeafType(leafType) && Hex.IsHex64(payloadHash)
  {
    Hex.StrictRoundTrip(payloadHash);
    var input := LeafInput(PROTOCOL_VERSION, leafType, HASH_ALGORITHM, Hex.FromHex(payloadHash));
    ConstantsFit(input);
    Hex.ToHex(h(Encoding(input)))
  }

  lemma {:induction false} ConstantsFit(input: LeafInput)
    requires input.protocolVersion == PROTOCOL_VERSION && input.hashAlgorithm == HASH_ALGORITHM
    requires IsLeafType(input.leafType) && |input.payloadHash| == 32
    ensures FieldsFit(input) && LeafHashInput(input) == Ok(Encoding(input))
  {
    LeafTypeIsAscii(input.leafType);
    Utf8Length(input.protocolVersion);
    Utf8Length(input.hashAlgorithm);
  }

  /** What the loop over the leaves carries along. */
  datatype Pass = Pass(issues: seq<Issue>, seen: set<JsString>, sortedOk: bool, previous: JsString)

  predicate KnownType(v: Json) {
    v.Str? && IsLeafType(v.s)
  }

  predicate IsHexText(v: Json) {
    v.Str? && Hex.IsHex64(v.s)
  }

  function LeafStep(h: HashFn, leaf: Leaf, i: nat, pass: Pass): Pass {
    if leaf.LeafNotObject? then pass.(issues := pass.issues + [BadLeaf(i)])
    else
      var issues := pass.issues
        + (if KnownType(leaf.leafType) then [] else [BadLeafType(i)])
        + (if IsHexText(leaf.payloadHash) then [] else [BadPayloadHash(i)]);
      if !IsHexText(leaf.leafHash) then pass.(issues := issues + [BadLeafHash(i)])
      else
        var hash := leaf.leafHash.s;
        var checked := issues
          + (if KnownType(leaf.leafType) && IsHexText(leaf.payloadHash)
                && RecomputedHash(h, leaf.leafType.s, leaf.payloadHash.s) != hash then [LeafHashMismatch(i)] else [])
          + (if hash in pass.seen then [DuplicateLeafHash(i)] else []);
        Pass(checked, pass.seen + {hash},
             pass.sortedOk && !(pass.previous != [] && JsStrings.Less(hash, pass.previous)), hash)
  }

  function PassTo(h: HashFn, leaves: seq<Leaf>, i: nat): Pass
    requires i <= |leaves|
  {
    if i == 0 then Pass([], {}, true, []) else LeafStep(h, leaves[i - 1], i - 1, PassTo(h, leaves, i - 1))
  }

  function LeafIssues(h: HashFn, leaves: seq<Leaf>): seq<Issue> {
    var pass := PassTo(h, leaves, |leaves|);
    pass.issues + if pass.sortedOk then [] else [LeavesUnsorted]
  }

  predicate HasType(leaf: Leaf, leafType: JsString) {
    leaf.LeafObject? && leaf.leafType == Str(leafType)
  }

  /** How many of the first n leaves have the type. */
  function CountTo(leaves: seq<Leaf>, leafType: JsString, n: nat): nat
    requires n <= |leaves|
  {
    if n == 0 then 0 else CountTo(leaves, leafType, n - 1) + if HasType(leaves[n - 1], leafType) then 1 else 0
  }

  function CountOf(leaves: seq<Leaf>, leafType: JsString): nat {
    CountTo(leaves, leafType, |leaves|)
  }

  function CountIssues(counts: Counts, leaves: seq<Leaf>): seq<Issue> {
    match counts
    case NoCounts => [CountsMissing]
    case Counts(files, shingles, components) =>
      (if EqualsNumber(files, CountOf(leaves, FILE_LEAF)) then [] else [WrongCount(FileCount)])
      + (if EqualsNumber(shingles, CountOf(leaves, SHINGLE_LEAF)) then [] else [WrongCount(ShingleCount)])
      + (if EqualsNumber(components, CountOf(leaves, COMPONENT_LEAF)) then [] else [WrongCount(ThirdCount)])
  }

  predicate AllHashesHex(leaves: seq<Leaf>) {
    forall i :: 0 <= i < |leaves| ==> leaves[i].LeafObject? && IsHexText(leaves[i].leafHash)
  }

  function LeafBytes(leaves: seq<Leaf>): (r: seq<Bytes>)
    requires AllHashesHex(leaves)
    ensures |r| == |leaves| && forall i :: 0 <= i < |r| ==> r[i] == Hex.FromHex(leaves[i].leafHash.s)
  {
    seq(|leaves|, i requires 0 <= i < |leaves| => Hex.FromHex(leaves[i].leafHash.s))
  }

  function RootIssues(h: HashFn, root: Json, leaves: seq<Leaf>): seq<Issue> {
    if IsNonEmptyString(root) && Hex.IsHex64(root.s) then
      if !AllHashesHex(leaves) then []
      else
        match Merkle.MerkleRoot(h, LeafBytes(leaves))
        case Err(e) => [RootFailed(e)]
        case Ok(digest) => if Hex.ToHex(digest) == root.s then [] else [RootMismatch]
    else if root != Undefined then [RootNotHex] else []
  }

  // The signatures.

  function SignatureIssues(entry: Signature, i: nat): seq<Issue> {
    match entry
    case SignatureNotObject => [BadSignature(i)]
    case SignatureObject(kind, keyId, algorithm, signature) =>
      (if IsSignerKind(kind) then [] else [UnknownSigner(i)])
      + (if IsNonEmptyString(keyId) then [] else [MissingKeyId(i)])
      + (if algorithm == Str(ED25519) then [] else [WrongAlgorithm(i)])
      + (if IsNonEmptyString(signature) then [] else [MissingSignature(i)])
  }

  function AllSignatureIssues(entries: seq<Signature>, n: nat): seq<Issue>
    requires n <= |entries|
  {
    if n == 0 then [] else AllSignatureIssues(entries, n - 1) + SignatureIssues(entries[n - 1], n - 1)
  }

  function SignaturesIssues(signatures: Signatures): seq<Issue> {
    if signatures.NoSignatures? then [SignaturesMissing] else AllSignatureIssues(signatures.entries, |signatures.entries|)
  }

  // The whole validation.

  function HeaderIssues(parses: Timestamps, m: Value): seq<Issue>
    requires m.Object?
  {
    TextIssues(m.texts, REQUIRED, |REQUIRED|) + VersionIssues(m.texts, VERSIONED, |VERSIONED|)
    + TimestampIssues(parses, Text(m.texts, CreatedAt)) + SummaryIssues(m.sourceSummary)
    + (if IsPlainObject(m.policyContext) then [] else [PolicyMissing])
    + (if IsPlainObject(m.extractionMetadata) then [] else [ExtractionMissing])
  }

  predicate LeafHasText(leaf: Leaf) {
    leaf.LeafObject? ==> HasText(leaf.leafType)
  }

  predicate SignatureHasText(entry: Signature) {
    entry.SignatureObject? ==> HasText(entry.kind)
  }

  predicate CountsHaveText(counts: Counts) {
    counts.Counts? ==> HasText(counts.first) && HasText(counts.second) && HasText(counts.third)
  }

  predicate LeavesHaveText(leaves: seq<Leaf>, n: nat)
    requires n <= |leaves|
  {
    forall i :: 0 <= i < n ==> LeafHasText(leaves[i])
  }

  predicate SignaturesHaveText(signatures: Signatures) {
    signatures.Signatures? ==> forall i :: 0 <= i < |signatures.entries| ==> SignatureHasText(signatures.entries[i])
  }

  /** Every leaf type, declared count and kind of signer can be put into a message. */
  predicate HasTexts(m: Value) {
    m.Object? && m.leafSet.LeafSet? && m.leafSet.leaves != [] ==>
      && LeavesHaveText(m.leafSet.leaves, |m.leafSet.leaves|)
      && CountsHaveText(m.leafCounts) && SignaturesHaveText(m.signatures)
  }

  datatype Report = Report(valid: bool, issues: seq<Issue>)

  /** The exception of a value that has no text. */
  datatype Thrown = NoText

  /** The whole outcome: a report, or an exception while a message is made. */
  function Validated(h: HashFn, parses: Timestamps, m: Value): Result<Report, Thrown> {
    if HasTexts(m) then Ok(Report(Issues(h, parses, m) == [], Issues(h, parses, m))) else Err(NoText)
  }

  /** An empty leaf set ends the validation early. */
  function Issues(h: HashFn, parses: Timestamps, m: Value): seq<Issue> {
    if m.NotObject? then [RootNotObject]
    else if m.leafSet.NoLeafSet? || m.leafSet.leaves == [] then HeaderIssues(parses, m) + [LeafSetMissing]
    else
      var leaves := m.leafSet.leaves;
      HeaderIssues(parses, m) + LeafIssues(h, leaves) + CountIssues(m.leafCounts, leaves)
      + RootIssues(h, Text(m.texts, MerkleRoot), leaves) + SignaturesIssues(m.signatures)
  }
}
