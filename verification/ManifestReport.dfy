/** What the validator's report says: exactly which issues it lists, and in which order. */
module ManifestReport {
  import opened Bytes
  import opened JsStrings
  import opened Json
  import opened LeafHash
  import opened Manifest
  import Hex
  import Lexicographic
  import Merkle
  import Sorting

  // What is wrong with a manifest, issue by issue.

  predicate HasLeaves(m: Value) {
    m.Object? && m.leafSet.LeafSet? && m.leafSet.leaves != []
  }

  /** The fifteen fields that must be non-empty strings. */
  predicate IsRequired(field: TextField) {
    !field.ShinglingVersion? && !field.OcrExtractionVersion? && !field.TemplateId?
  }

  /** The six version fields. */
  predicate IsVersion(field: TextField) {
    || field.SchemaVersion? || field.ProtocolVersion? || field.CanonicalizationVersion? || field.MerkleVersion?
    || field.HashAlgorithm? || field.HashAlgorithmVersion?
  }

  function VersionText(field: TextField): Json {
    if field.HashAlgorithm? then Str(Lit("sha256")) else Str(Lit("1.0"))
  }

  function CountAt(counts: Counts, key: CountKey): Json
    requires counts.Counts?
  {
    match key case FileCount => counts.first case ShingleCount => counts.second case ThirdCount => counts.third
  }

  predicate HasKnownType(leaf: Leaf) {
    leaf.LeafObject? && (leaf.leafType == Str(Lit("file/sha256/v1")) || leaf.leafType == Str(Lit("shingle/sha256/v1"))
                         || leaf.leafType == Str(Lit("component/sha256/v1")))
  }

  function KeyType(key: CountKey): Json {
    match key
    case FileCount => Str(Lit("file/sha256/v1"))
    case ShingleCount => Str(Lit("shingle/sha256/v1"))
    case ThirdCount => Str(Lit("component/sha256/v1"))
  }

  /** The leaves of a type. */
  function OfType(leaves: seq<Leaf>, leafType: Json, n: nat): set<int> {
    set i | 0 <= i < n && i < |leaves| && leaves[i].LeafObject? && leaves[i].leafType == leafType
  }

  /** The leaf declares a hash in the right form. */
  predicate IsHashed(leaf: Leaf) {
    leaf.LeafObject? && IsHexText(leaf.leafHash)
  }

  /** The hash recomputed from what the leaf declares is another one. */
  predicate Mismatches(h: HashFn, leaf: Leaf) {
    && HasKnownType(leaf) && IsHexText(leaf.payloadHash) && IsHashed(leaf)
    && var input := LeafInput(Lit("1.0"), leaf.leafType.s, Lit("sha256"), Hex.FromHex(leaf.payloadHash.s));
       LeafHashInput(input).Ok? && leaf.leafHash.s != Hex.ToHex(h(LeafHashInput(input).value))
  }

  predicate IsDuplicate(leaves: seq<Leaf>, i: nat)
    requires i < |leaves|
  {
    IsHashed(leaves[i]) && exists j :: 0 <= j < i && IsHashed(leaves[j]) && leaves[j].leafHash == leaves[i].leafHash
  }

  /** A hash comes before a smaller one. */
  ghost predicate IsUnsorted(leaves: seq<Leaf>, n: nat)
    requires n <= |leaves|
  {
    exists i, j :: 0 <= i < j < n && Descends(leaves[i], leaves[j])
  }

  predicate Descends(leaf: Leaf, later: Leaf) {
    IsHashed(leaf) && IsHashed(later) && JsStrings.Less(later.leafHash.s, leaf.leafHash.s)
  }

  /** What is wrong with leaf i. */
  predicate LeafFault(h: HashFn, leaves: seq<Leaf>, i: nat, issue: Issue)
    requires i < |leaves|
  {
    var leaf := leaves[i];
    match issue
    case BadLeaf(k) => k == i && leaf.LeafNotObject?
    case BadLeafType(k) => k == i && leaf.LeafObject? && !HasKnownType(leaf)
    case BadPayloadHash(k) => k == i && leaf.LeafObject? && !IsHexText(leaf.payloadHash)
    case BadLeafHash(k) => k == i && leaf.LeafObject? && !IsHashed(leaf)
    case LeafHashMismatch(k) => k == i && Mismatches(h, leaf)
    case DuplicateLeafHash(k) => k == i && IsDuplicate(leaves, i)
    case _ => false
  }

  predicate HasHexRoot(m: Value)
    requires m.Object?
  {
    Text(m.texts, MerkleRoot).Str? && Hex.IsHex64(Text(m.texts, MerkleRoot).s)
  }

  predicate SignatureFault(entry: Signature, i: nat, issue: Issue) {
    match issue
    case BadSignature(k) => k == i && entry.SignatureNotObject?
    case UnknownSigner(k) =>
      && k == i && entry.SignatureObject?
      && entry.kind != Str(Lit("device")) && entry.kind != Str(Lit("proveria")) && entry.kind != Str(Lit("customer"))
    case MissingKeyId(k) => k == i && entry.SignatureObject? && !IsNonEmptyString(entry.keyId)
    case WrongAlgorithm(k) => k == i && entry.SignatureObject? && entry.algorithm != Str(Lit("ed25519"))
    case MissingSignature(k) => k == i && entry.SignatureObject? && !IsNonEmptyString(entry.signature)
    case _ => false
  }

  predicate HeaderFault(parses: Timestamps, m: Value, issue: Issue)
    requires m.Object?
  {
    match issue
    case TextMissing(field) => IsRequired(field) && !IsNonEmptyString(Text(m.texts, field))
    case WrongVersion(field) => IsVersion(field) && Text(m.texts, field) != VersionText(field)
    case BadTimestamp => IsNonEmptyString(Text(m.texts, CreatedAt)) && !parses(Text(m.texts, CreatedAt).s)
    case SummaryMissing => m.sourceSummary.NoCounts?
    case BadSummaryCount(key) => m.sourceSummary.Counts? && !IsCount(CountAt(m.sourceSummary, key))
    case PolicyMissing => !m.policyContext.Obj?
    case ExtractionMissing => !m.extractionMetadata.Obj?
    case _ => false
  }

  predicate CountFault(m: Value, issue: Issue)
    requires HasLeaves(m)
  {
    match issue
    case CountsMissing => m.leafCounts.NoCounts?
    case WrongCount(key) =>
      && m.leafCounts.Counts?
      && !EqualsNumber(CountAt(m.leafCounts, key), |OfType(m.leafSet.leaves, KeyType(key), |m.leafSet.leaves|)|)
    case _ => false
  }

  predicate RootFault(h: HashFn, m: Value, issue: Issue)
    requires HasLeaves(m)
  {
    var leaves := m.leafSet.leaves;
    match issue
    case RootNotHex => Text(m.texts, MerkleRoot) != Undefined && !HasHexRoot(m)
    case RootFailed(e) =>
      HasHexRoot(m) && AllHashesHex(leaves) && Merkle.MerkleRoot(h, LeafBytes(leaves)) == Err(e)
    case RootMismatch =>
      && HasHexRoot(m) && AllHashesHex(leaves) && Merkle.MerkleRoot(h, LeafBytes(leaves)).Ok?
      && Text(m.texts, MerkleRoot).s != Hex.ToHex(Merkle.MerkleRoot(h, LeafBytes(leaves)).value)
    case _ => false
  }

  ghost predicate LeavesFault(h: HashFn, leaves: seq<Leaf>, issue: Issue) {
    || (exists i: nat :: i < |leaves| && LeafFault(h, leaves, i, issue))
    || (issue.LeavesUnsorted? && IsUnsorted(leaves, |leaves|))
  }

  ghost predicate SignaturesFault(signatures: Signatures, issue: Issue) {
    || (issue.SignaturesMissing? && signatures.NoSignatures?)
    || (signatures.Signatures? && exists i: nat :: i < |signatures.entries| && SignatureFault(signatures.entries[i], i, issue))
  }

  /** The manifest has this fault. */
  ghost predicate HasFault(h: HashFn, parses: Timestamps, m: Value, issue: Issue) {
    || (issue.RootNotObject? && m.NotObject?)
    || (m.Object? && HeaderFault(parses, m, issue))
    || (issue.LeafSetMissing? && m.Object? && !HasLeaves(m))
    || (HasLeaves(m) && (|| LeavesFault(h, m.leafSet.leaves, issue) || CountFault(m, issue) || RootFault(h, m, issue)
                         || SignaturesFault(m.signatures, issue)))
  }

  // The header.

  lemma {:induction false} TextIssuesAre(texts: map<TextField, Json>, fields: seq<TextField>, n: nat, issue: Issue)
    requires n <= |fields|
    ensures issue in TextIssues(texts, fields, n) <==>
            issue.TextMissing? && issue.field in fields[..n] && !IsNonEmptyString(Text(texts, issue.field))
  {
    hide Text, IsNonEmptyString;
    if n > 0 {
      TextIssuesAre(texts, fields, n - 1, issue);
      assert fields[..n] == fields[..n - 1] + [fields[n - 1]];
    }
  }

  lemma {:induction false} VersionIssuesAre(texts: map<TextField, Json>, fields: seq<TextField>, n: nat, issue: Issue)
    requires n <= |fields|
    ensures issue in VersionIssues(texts, fields, n) <==>
            issue.WrongVersion? && issue.field in fields[..n] && Text(texts, issue.field) != Str(ExpectedVersion(issue.field))
  {
    hide Text, ExpectedVersion;
    if n > 0 {
      VersionIssuesAre(texts, fields, n - 1, issue);
      assert fields[..n] == fields[..n - 1] + [fields[n - 1]];
    }
  }

  lemma FieldsAre(field: TextField)
    ensures field in REQUIRED <==> IsRequired(field)
    ensures field in VERSIONED <==> IsVersion(field)
  {
    hide REQUIRED, VERSIONED, IsRequired, IsVersion;
    if field in REQUIRED {
      OnlyRequired(field);
    }
    if IsRequired(field) {
      AllRequired(field);
    }
    VersionsAre(field);
  }

  lemma OnlyRequired(field: TextField)
    requires field in REQUIRED
    ensures IsRequired(field)
  {
  }

  lemma AllRequired(field: TextField)
    requires IsRequired(field)
    ensures field in REQUIRED
  {
    var r := REQUIRED;
    match field
    case SchemaVersion => assert r[0] == field;
    case ProtocolVersion => assert r[1] == field;
    case CanonicalizationVersion => assert r[2] == field;
    case MerkleVersion => assert r[3] == field;
    case HashAlgorithm => assert r[4] == field;
    case HashAlgorithmVersion => assert r[5] == field;
    case TenantId => assert r[6] == field;
    case ProjectId => assert r[7] == field;
    case AttestationId => assert r[8] == field;
    case AttemptId => assert r[9] == field;
    case CreatedByUserId => assert r[10] == field;
    case CreatedByDeviceId => assert r[11] == field;
    case CreatedByProfileId => assert r[12] == field;
    case MerkleRoot => assert r[13] == field;
    case CreatedAt => assert r[14] == field;
  }

  lemma VersionsAre(field: TextField)
    ensures field in VERSIONED <==> IsVersion(field)
  {
    var v := VERSIONED;
    assert v[0] == SchemaVersion && v[1] == ProtocolVersion && v[2] == CanonicalizationVersion && v[3] == MerkleVersion;
    assert v[4] == HashAlgorithm && v[5] == HashAlgorithmVersion;
  }

  lemma VersionTextIs(field: TextField)
    ensures Str(ExpectedVersion(field)) == VersionText(field)
  {
    NamesAre([]);
  }

  lemma SummaryIssuesAre(summary: Counts, issue: Issue)
    ensures issue in SummaryIssues(summary) <==>
            || (issue.SummaryMissing? && summary.NoCounts?)
            || (issue.BadSummaryCount? && summary.Counts? && !IsCount(CountAt(summary, issue.key)))
  {
    hide IsCount;
  }

  lemma HeaderIssuesAre(parses: Timestamps, m: Value, issue: Issue)
    requires m.Object?
    ensures issue in HeaderIssues(parses, m) <==> HeaderFault(parses, m, issue)
  {
    hide Text, IsNonEmptyString, TextIssues, VersionIssues, SummaryIssues, ExpectedVersion, VersionText, IsRequired, IsVersion,
      REQUIRED, VERSIONED, IsCount, CountAt;
    TextIssuesAre(m.texts, REQUIRED, |REQUIRED|, issue);
    VersionIssuesAre(m.texts, VERSIONED, |VERSIONED|, issue);
    assert REQUIRED[..|REQUIRED|] == REQUIRED && VERSIONED[..|VERSIONED|] == VERSIONED;
    SummaryIssuesAre(m.sourceSummary, issue);
    if issue.TextMissing? || issue.WrongVersion? {
      FieldsAre(issue.field);
      VersionTextIs(issue.field);
    }
  }

  // The leaves.

  lemma KnownTypeIs(leaf: Leaf)
    requires leaf.LeafObject?
    ensures KnownType(leaf.leafType) <==> HasKnownType(leaf)
  {
    if leaf.leafType.Str? {
      NamesAre(leaf.leafType.s);
    }
    hide IsLeafType;
  }

  lemma MismatchIs(h: HashFn, leaf: Leaf)
    requires leaf.LeafObject? && KnownType(leaf.leafType) && IsHexText(leaf.payloadHash) && IsHexText(leaf.leafHash)
    ensures RecomputedHash(h, leaf.leafType.s, leaf.payloadHash.s) != leaf.leafHash.s <==> Mismatches(h, leaf)
  {
    KnownTypeIs(leaf);
    NamesAre(leaf.leafType.s);
    Hex.StrictRoundTrip(leaf.payloadHash.s);
    hide IsLeafType, HasKnownType, Encoding, Hex.ToHex, Hex.FromHex, Hex.AllLower;
    ConstantsFit(LeafInput(PROTOCOL_VERSION, leaf.leafType.s, HASH_ALGORITHM, Hex.FromHex(leaf.payloadHash.s)));
  }

  /** What the pass over the first n leaves carries along. */
  ghost predicate PassIs(leaves: seq<Leaf>, n: nat, pass: Pass)
    requires n <= |leaves|
  {
    && (forall hash :: hash in pass.seen <==> exists j :: 0 <= j < n && IsHashed(leaves[j]) && leaves[j].leafHash.s == hash)
    && (pass.sortedOk <==> !IsUnsorted(leaves, n))
    && (pass.sortedOk ==> LastIs(leaves, n, pass.previous))
  }

  /** The hash of the last leaf that declares one, which is then the greatest. */
  ghost predicate LastIs(leaves: seq<Leaf>, n: nat, previous: JsString)
    requires n <= |leaves|
  {
    && (previous == [] ==> forall j :: 0 <= j < n ==> !IsHashed(leaves[j]))
    && (previous != [] ==> exists j :: 0 <= j < n && IsHashed(leaves[j]) && leaves[j].leafHash.s == previous)
    && (forall j :: 0 <= j < n && IsHashed(leaves[j]) ==> !JsStrings.Less(previous, leaves[j].leafHash.s))
  }

  lemma UnsortedNext(leaves: seq<Leaf>, n: nat)
    requires n < |leaves|
    ensures IsUnsorted(leaves, n + 1) <==> IsUnsorted(leaves, n) || exists i :: 0 <= i < n && Descends(leaves[i], leaves[n])
  {
    hide Descends;
  }

  lemma SortedNext(leaves: seq<Leaf>, n: nat, pass: Pass, next: Pass)
    requires n < |leaves| && PassIs(leaves, n, pass) && IsHashed(leaves[n])
    requires var hash := leaves[n].leafHash.s;
             next.sortedOk == (pass.sortedOk && !(pass.previous != [] && JsStrings.Less(hash, pass.previous)))
             && next.previous == hash
    ensures next.sortedOk <==> !IsUnsorted(leaves, n + 1)
    ensures next.sortedOk ==> LastIs(leaves, n + 1, next.previous)
  {
    var hash := leaves[n].leafHash.s;
    assert hash != [] by { assert |hash| == 64; }
    UnsortedNext(leaves, n);
    hide JsStrings.Less, IsHexText;
    JsStrings.IsStrictOrder();
    assert !JsStrings.Less(hash, hash);
    if pass.sortedOk {
      forall j | 0 <= j < n && IsHashed(leaves[j])
        ensures next.sortedOk ==> !JsStrings.Less(hash, leaves[j].leafHash.s)
        ensures !next.sortedOk && leaves[j].leafHash.s == pass.previous ==> Descends(leaves[j], leaves[n])
      {
        OrderPasses(hash, pass.previous, leaves[j].leafHash.s);
      }
    }
  }

  lemma OrderPasses(a: JsString, b: JsString, c: JsString)
    ensures JsStrings.Less(a, c) ==> JsStrings.Less(a, b) || JsStrings.Less(b, c)
  {
    JsStrings.IsStrictOrder();
  }

  lemma StepIs(h: HashFn, leaves: seq<Leaf>, n: nat, pass: Pass)
    requires n < |leaves| && PassIs(leaves, n, pass)
    ensures PassIs(leaves, n + 1, LeafStep(h, leaves[n], n, pass))
  {
    hide RecomputedHash, KnownType, LastIs, IsUnsorted, Hex.IsHex64, JsStrings.Less;
    var next := LeafStep(h, leaves[n], n, pass);
    if IsHashed(leaves[n]) {
      SortedNext(leaves, n, pass, next);
      forall hash
        ensures hash in next.seen <==> exists j :: 0 <= j < n + 1 && IsHashed(leaves[j]) && leaves[j].leafHash.s == hash
      {
        assert hash in next.seen <==> hash in pass.seen || hash == leaves[n].leafHash.s;
      }
    } else {
      UnsortedNext(leaves, n);
      LastStays(leaves, n, pass.previous);
      assert forall i :: 0 <= i < n ==> !Descends(leaves[i], leaves[n]);
    }
  }

  lemma LastStays(leaves: seq<Leaf>, n: nat, previous: JsString)
    requires n < |leaves| && !IsHashed(leaves[n])
    ensures LastIs(leaves, n, previous) ==> LastIs(leaves, n + 1, previous)
  {
    hide IsHashed, JsStrings.Less;
  }

  /** The issues of one leaf. */
  lemma StepIssuesAre(h: HashFn, leaves: seq<Leaf>, n: nat, pass: Pass, issue: Issue)
    requires n < |leaves| && PassIs(leaves, n, pass)
    ensures issue in LeafStep(h, leaves[n], n, pass).issues <==> issue in pass.issues || LeafFault(h, leaves, n, issue)
  {
    hide RecomputedHash, KnownType, HasKnownType, IsHexText, Mismatches, JsStrings.Less, IsUnsorted, LastIs;
    var leaf := leaves[n];
    if leaf.LeafObject? {
      KnownTypeIs(leaf);
      MismatchMeans(h, leaf);
      if IsHashed(leaf) {
        SeenIsDuplicate(leaves, n, pass);
      }
    } else {
      NoMismatch(h, leaf);
    }
  }

  lemma SeenIsDuplicate(leaves: seq<Leaf>, n: nat, pass: Pass)
    requires n < |leaves| && PassIs(leaves, n, pass) && IsHashed(leaves[n])
    ensures leaves[n].leafHash.s in pass.seen <==> IsDuplicate(leaves, n)
  {
    hide IsUnsorted, LastIs, IsHexText;
    assert IsHashed(leaves[n]) ==> leaves[n].leafHash.Str? by { StringsOnly(leaves[n]); }
    forall j | 0 <= j < n && IsHashed(leaves[j]) ensures leaves[j].leafHash.Str? {
      StringsOnly(leaves[j]);
    }
  }

  lemma StringsOnly(leaf: Leaf)
    requires IsHashed(leaf)
    ensures leaf.leafHash.Str?
  {
  }

  lemma NoMismatch(h: HashFn, leaf: Leaf)
    requires leaf.LeafNotObject?
    ensures !Mismatches(h, leaf)
  {
  }

  lemma MismatchMeans(h: HashFn, leaf: Leaf)
    requires leaf.LeafObject?
    ensures Mismatches(h, leaf) <==>
            && KnownType(leaf.leafType) && IsHexText(leaf.payloadHash) && IsHexText(leaf.leafHash)
            && RecomputedHash(h, leaf.leafType.s, leaf.payloadHash.s) != leaf.leafHash.s
  {
    KnownTypeIs(leaf);
    if KnownType(leaf.leafType) && IsHexText(leaf.payloadHash) && IsHexText(leaf.leafHash) {
      MismatchIs(h, leaf);
    }
    hide HasKnownType, RecomputedHash, LeafHashInput, Hex.ToHex, Hex.FromHex;
  }

  lemma {:induction false} PassIssuesAre(h: HashFn, leaves: seq<Leaf>, n: nat, issue: Issue)
    requires n <= |leaves|
    ensures PassIs(leaves, n, PassTo(h, leaves, n))
    ensures issue in PassTo(h, leaves, n).issues <==> exists i: nat :: i < n && LeafFault(h, leaves, i, issue)
  {
    hide LeafStep, LeafFault, IsHashed;
    if n == 0 {
      NoPass(leaves);
    } else {
      PassIssuesAre(h, leaves, n - 1, issue);
      hide PassIs;
      StepIs(h, leaves, n - 1, PassTo(h, leaves, n - 1));
      StepIssuesAre(h, leaves, n - 1, PassTo(h, leaves, n - 1), issue);
    }
  }

  lemma NoPass(leaves: seq<Leaf>)
    ensures PassIs(leaves, 0, Pass([], {}, true, []))
  {
  }

  lemma LeafIssuesAre(h: HashFn, leaves: seq<Leaf>, issue: Issue)
    ensures issue in LeafIssues(h, leaves) <==> LeavesFault(h, leaves, issue)
  {
    hide PassTo, LeafFault, IsUnsorted, LastIs;
    PassIssuesAre(h, leaves, |leaves|, issue);
    if issue.LeavesUnsorted? {
      forall i: nat | i < |leaves| ensures !LeafFault(h, leaves, i, issue) {
        NoLeafFault(h, leaves, i, issue);
      }
    }
  }

  lemma NoLeafFault(h: HashFn, leaves: seq<Leaf>, i: nat, issue: Issue)
    requires i < |leaves| && issue.LeavesUnsorted?
    ensures !LeafFault(h, leaves, i, issue)
  {
  }

  // Counts, root and signatures.

  lemma OfTypeNext(leaves: seq<Leaf>, leafType: JsString, n: nat)
    requires n < |leaves|
    ensures n !in OfType(leaves, Str(leafType), n)
    ensures OfType(leaves, Str(leafType), n + 1) ==
            OfType(leaves, Str(leafType), n) + if HasType(leaves[n], leafType) then {n as int} else {}
  {
  }

  lemma NoneOfType(leaves: seq<Leaf>, leafType: JsString)
    ensures OfType(leaves, Str(leafType), 0) == {}
  {
  }

  lemma {:induction false} CountIsSize(leaves: seq<Leaf>, leafType: JsString, n: nat)
    requires n <= |leaves|
    ensures CountTo(leaves, leafType, n) == |OfType(leaves, Str(leafType), n)|
  {
    hide OfType, HasType;
    if n == 0 {
      NoneOfType(leaves, leafType);
    } else {
      CountIsSize(leaves, leafType, n - 1);
      OfTypeNext(leaves, leafType, n - 1);
    }
  }

  lemma KeyTypesAre()
    ensures KeyType(FileCount) == Str(FILE_LEAF) && KeyType(ShingleCount) == Str(SHINGLE_LEAF)
    ensures KeyType(ThirdCount) == Str(COMPONENT_LEAF)
  {
  }

  lemma CountIssuesAre(m: Value, issue: Issue)
    requires HasLeaves(m)
    ensures issue in CountIssues(m.leafCounts, m.leafSet.leaves) <==> CountFault(m, issue)
  {
    KeyTypesAre();
    hide CountTo, OfType, EqualsNumber, KeyType, FILE_LEAF, SHINGLE_LEAF, COMPONENT_LEAF;
    var leaves := m.leafSet.leaves;
    CountIsSize(leaves, FILE_LEAF, |leaves|);
    CountIsSize(leaves, SHINGLE_LEAF, |leaves|);
    CountIsSize(leaves, COMPONENT_LEAF, |leaves|);
  }

  lemma HexRootIs(m: Value)
    requires m.Object?
    ensures HasHexRoot(m) <==> IsNonEmptyString(Text(m.texts, MerkleRoot)) && Hex.IsHex64(Text(m.texts, MerkleRoot).s)
  {
    hide Hex.AllLower;
  }

  lemma RootIssuesAre(h: HashFn, m: Value, issue: Issue)
    requires HasLeaves(m)
    ensures issue in RootIssues(h, Text(m.texts, MerkleRoot), m.leafSet.leaves) <==> RootFault(h, m, issue)
  {
    HexRootIs(m);
    hide HasHexRoot, Merkle.MerkleRoot, AllHashesHex, LeafBytes, Hex.ToHex, Text, IsNonEmptyString;
  }

  lemma SignerIs(entry: Signature)
    requires entry.SignatureObject?
    ensures IsSignerKind(entry.kind) <==>
            entry.kind == Str(Lit("device")) || entry.kind == Str(Lit("proveria")) || entry.kind == Str(Lit("customer"))
    ensures ED25519 == Lit("ed25519")
  {
  }

  lemma SignatureIssuesAre(entry: Signature, i: nat, issue: Issue)
    ensures issue in SignatureIssues(entry, i) <==> SignatureFault(entry, i, issue)
  {
    if entry.SignatureObject? {
      SignerIs(entry);
    }
    hide IsSignerKind, IsNonEmptyString, ED25519, Lit;
  }

  lemma {:induction false} AllSignatureIssuesAre(entries: seq<Signature>, n: nat, issue: Issue)
    requires n <= |entries|
    ensures issue in AllSignatureIssues(entries, n) <==> exists i: nat :: i < n && SignatureFault(entries[i], i, issue)
  {
    hide SignatureIssues, SignatureFault;
    if n > 0 {
      AllSignatureIssuesAre(entries, n - 1, issue);
      SignatureIssuesAre(entries[n - 1], n - 1, issue);
    }
  }

  lemma SignaturesIssuesAre(signatures: Signatures, issue: Issue)
    ensures issue in SignaturesIssues(signatures) <==> SignaturesFault(signatures, issue)
  {
    hide SignatureFault;
    if signatures.Signatures? {
      AllSignatureIssuesAre(signatures.entries, |signatures.entries|, issue);
    }
  }

  /** An issue is reported exactly when the manifest has that fault. */
  lemma ReportedExactly(h: HashFn, parses: Timestamps, m: Value, issue: Issue)
    ensures issue in Issues(h, parses, m) <==> HasFault(h, parses, m, issue)
  {
    hide HeaderIssues, LeafIssues, CountIssues, RootIssues, SignaturesIssues, HeaderFault, LeavesFault, CountFault, RootFault,
      SignaturesFault;
    if m.Object? {
      HeaderIssuesAre(parses, m, issue);
      if HasLeaves(m) {
        LeafIssuesAre(h, m.leafSet.leaves, issue);
        CountIssuesAre(m, issue);
        RootIssuesAre(h, m, issue);
        SignaturesIssuesAre(m.signatures, issue);
      }
    }
  }

  // Texts, counts, and values that a message can be made of.

  lemma TextIs(v: Json)
    ensures IsNonEmptyString(v) <==> exists s: JsString :: v == Str(s) && |s| > 0
    ensures IsHexText(v) <==> exists b: Bytes :: |b| == 32 && v == Str(Hex.ToHex(b))
  {
    if IsHexText(v) {
      Hex.StrictRoundTrip(v.s);
    }
    forall b: Bytes | |b| == 32 && v == Str(Hex.ToHex(b)) ensures IsHexText(v) {
      Hex.ToHexShape(b);
    }
  }

  /** A count is an integer that is not negative; a negative zero is one. */
  lemma CountIs(v: Json)
    ensures IsCount(v) <==> v == Num(NegativeZero) || exists n: nat :: v == Num(Integer(n))
    ensures forall n: nat :: EqualsNumber(v, n) <==> v == Num(Integer(n)) || (n == 0 && v == Num(NegativeZero))
  {
  }

  /** What stands at a path of positions through arrays. */
  function ItemAt(v: Json, path: seq<nat>): Option<Json>
    decreases |path|
  {
    if path == [] then Some(v)
    else if v.Arr? && path[0] < |v.items| then ItemAt(v.items[path[0]], path[1..])
    else None
  }

  /** An object with a property of its own that hides the conversion to a string. */
  ghost predicate HidesToString(v: Option<Json>) {
    v.Some? && v.value.Obj? && exists i :: 0 <= i < |v.value.fields| && v.value.fields[i].name == Lit("toString")
  }

  ghost predicate NeverHides(v: Json) {
    forall path :: !HidesToString(ItemAt(v, path))
  }

  lemma ItemHides(v: Json, i: nat)
    requires v.Arr? && i < |v.items| && NeverHides(v)
    ensures NeverHides(v.items[i])
  {
    hide HidesToString;
    forall path ensures !HidesToString(ItemAt(v.items[i], path)) {
      assert ([i] + path)[1..] == path;
      assert ItemAt(v, [i] + path) == ItemAt(v.items[i], path);
    }
  }

  lemma ArrayHides(v: Json)
    requires v.Arr? && forall i :: 0 <= i < |v.items| ==> NeverHides(v.items[i])
    ensures NeverHides(v)
  {
    forall path ensures !HidesToString(ItemAt(v, path)) {
      if path == [] {
        assert ItemAt(v, path) == Some(v);
      } else if path[0] < |v.items| {
        assert NeverHides(v.items[path[0]]);
        assert ItemAt(v, path) == ItemAt(v.items[path[0]], path[1..]);
      } else {
        assert ItemAt(v, path) == None;
      }
    }
  }

  lemma ArrayHidesExactly(v: Json)
    requires v.Arr?
    ensures NeverHides(v) <==> forall i :: 0 <= i < |v.items| ==> NeverHides(v.items[i])
  {
    hide NeverHides;
    if NeverHides(v) {
      forall i | 0 <= i < |v.items| ensures NeverHides(v.items[i]) {
        ItemHides(v, i);
      }
    } else if forall i :: 0 <= i < |v.items| ==> NeverHides(v.items[i]) {
      ArrayHides(v);
    }
  }

  lemma ScalarHides(v: Json)
    requires !v.Arr?
    ensures NeverHides(v) <==> HasText(v)
  {
    assert ItemAt(v, []) == Some(v);
    assert forall path :: path != [] ==> ItemAt(v, path) == None;
  }

  /** A value has a text unless such an object is reached from it through arrays, however deep. */
  lemma {:induction false} HasTextExactly(v: Json)
    ensures HasText(v) <==> NeverHides(v)
  {
    hide NeverHides;
    if v.Arr? {
      forall i | 0 <= i < |v.items| ensures HasText(v.items[i]) <==> NeverHides(v.items[i]) {
        HasTextExactly(v.items[i]);
      }
      ArrayHidesExactly(v);
    } else {
      ScalarHides(v);
    }
  }
}
