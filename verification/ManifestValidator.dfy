/** The validator's loops, and exactly which values it accepts. */
module ManifestValidator {
  import opened Bytes
  import opened JsStrings
  import opened Json
  import opened LeafHash
  import opened Manifest
  import Hex
  import Merkle
  import Sorting

  method CheckTexts(texts: map<TextField, Json>, fields: seq<TextField>) returns (issues: seq<Issue>)
    ensures issues == TextIssues(texts, fields, |fields|)
  {
    issues := [];
    for i := 0 to |fields|
      invariant issues == TextIssues(texts, fields, i)
    {
      if !IsNonEmptyString(Text(texts, fields[i])) {
        issues := issues + [TextMissing(fields[i])];
      }
    }
  }

  method CheckVersions(texts: map<TextField, Json>, fields: seq<TextField>) returns (issues: seq<Issue>)
    ensures issues == VersionIssues(texts, fields, |fields|)
  {
    hide ExpectedVersion;
    issues := [];
    for i := 0 to |fields|
      invariant issues == VersionIssues(texts, fields, i)
    {
      if Text(texts, fields[i]) != Str(ExpectedVersion(fields[i])) {
        issues := issues + [WrongVersion(fields[i])];
      }
    }
  }

  method CheckHeader(parses: Timestamps, m: Value) returns (issues: seq<Issue>)
    requires m.Object?
    ensures issues == HeaderIssues(parses, m)
  {
    hide TextIssues, VersionIssues, TimestampIssues, SummaryIssues;
    issues := CheckTexts(m.texts, REQUIRED);
    var versions := CheckVersions(m.texts, VERSIONED);
    issues := issues + versions + TimestampIssues(parses, Text(m.texts, CreatedAt)) + SummaryIssues(m.sourceSummary);
    if !IsPlainObject(m.policyContext) {
      issues := issues + [PolicyMissing];
    }
    if !IsPlainObject(m.extractionMetadata) {
      issues := issues + [ExtractionMissing];
    }
  }

  method CheckLeaf(h: HashFn, leaf: Leaf, i: nat, pass: Pass) returns (next: Result<Pass, Thrown>)
    ensures next == if LeafHasText(leaf) then Ok(LeafStep(h, leaf, i, pass)) else Err(NoText)
  {
    hide IsLeafType, Hex.IsHex64, RecomputedHash, JsStrings.Less, TO_STRING;
    var issues := pass.issues;
    if leaf.LeafNotObject? {
      return Ok(pass.(issues := issues + [BadLeaf(i)]));
    }
    if KnownType(leaf.leafType) {
      assert HasText(leaf.leafType);
    } else {
      if !HasText(leaf.leafType) {
        return Err(NoText);
      }
      issues := issues + [BadLeafType(i)];
    }
    if !IsHexText(leaf.payloadHash) {
      issues := issues + [BadPayloadHash(i)];
    }
    assert issues == pass.issues
      + (if KnownType(leaf.leafType) then [] else [BadLeafType(i)])
      + (if IsHexText(leaf.payloadHash) then [] else [BadPayloadHash(i)]);
    if !IsHexText(leaf.leafHash) {
      return Ok(pass.(issues := issues + [BadLeafHash(i)]));
    }
    var hash := leaf.leafHash.s;
    if KnownType(leaf.leafType) && IsHexText(leaf.payloadHash) {
      var recomputed := RecomputedHash(h, leaf.leafType.s, leaf.payloadHash.s);
      if recomputed != hash {
        issues := issues + [LeafHashMismatch(i)];
      }
    }
    if hash in pass.seen {
      issues := issues + [DuplicateLeafHash(i)];
    }
    var sortedOk := pass.sortedOk;
    if pass.previous != [] && JsStrings.Less(hash, pass.previous) {
      sortedOk := false;
    }
    assert issues == LeafStep(h, leaf, i, pass).issues;
    next := Ok(Pass(issues, pass.seen + {hash}, sortedOk, hash));
  }

  method CheckLeaves(h: HashFn, leaves: seq<Leaf>) returns (r: Result<seq<Issue>, Thrown>)
    ensures r == if LeavesHaveText(leaves, |leaves|) then Ok(LeafIssues(h, leaves)) else Err(NoText)
  {
    hide LeafStep, LeafHasText;
    var pass := Pass([], {}, true, []);
    for i := 0 to |leaves|
      invariant LeavesHaveText(leaves, i) && pass == PassTo(h, leaves, i)
    {
      var next := CheckLeaf(h, leaves[i], i, pass);
      if next.Err? {
        assert !LeafHasText(leaves[i]);
        return Err(next.error);
      }
      pass := next.value;
    }
    var issues := pass.issues;
    if !pass.sortedOk {
      issues := issues + [LeavesUnsorted];
    }
    assert issues == LeafIssues(h, leaves);
    r := Ok(issues);
  }

  method TallyLeaves(leaves: seq<Leaf>) returns (file: nat, shingle: nat, component: nat)
    ensures file == CountOf(leaves, FILE_LEAF)
    ensures shingle == CountOf(leaves, SHINGLE_LEAF)
    ensures component == CountOf(leaves, COMPONENT_LEAF)
  {
    file, shingle, component := 0, 0, 0;
    LeafTypesDiffer();
    for i := 0 to |leaves|
      invariant file == CountTo(leaves, FILE_LEAF, i)
      invariant shingle == CountTo(leaves, SHINGLE_LEAF, i)
      invariant component == CountTo(leaves, COMPONENT_LEAF, i)
    {
      if leaves[i].LeafObject? {
        if leaves[i].leafType == Str(FILE_LEAF) {
          file := file + 1;
        } else if leaves[i].leafType == Str(SHINGLE_LEAF) {
          shingle := shingle + 1;
        } else if leaves[i].leafType == Str(COMPONENT_LEAF) {
          component := component + 1;
        }
      }
    }
  }

  lemma LeafTypesDiffer()
    ensures FILE_LEAF != SHINGLE_LEAF && FILE_LEAF != COMPONENT_LEAF
    ensures SHINGLE_LEAF != COMPONENT_LEAF
  {
    assert FILE_LEAF[0] == 'f' as int && SHINGLE_LEAF[0] == 's' as int && COMPONENT_LEAF[0] == 'c' as int;
  }

  method CheckSignatures(signatures: Signatures) returns (r: Result<seq<Issue>, Thrown>)
    ensures r == if SignaturesHaveText(signatures) then Ok(SignaturesIssues(signatures)) else Err(NoText)
  {
    hide SignatureIssues, TO_STRING;
    if signatures.NoSignatures? {
      return Ok([SignaturesMissing]);
    }
    var issues := [];
    for i := 0 to |signatures.entries|
      invariant forall k :: 0 <= k < i ==> SignatureHasText(signatures.entries[k])
      invariant issues == AllSignatureIssues(signatures.entries, i)
    {
      var entry := signatures.entries[i];
      if entry.SignatureObject? && !IsSignerKind(entry.kind) && !HasText(entry.kind) {
        assert !SignatureHasText(entry);
        return Err(NoText);
      }
      issues := issues + SignatureIssues(entry, i);
    }
    r := Ok(issues);
  }

  method CheckCount(declared: Json, actual: nat, key: CountKey) returns (r: Result<seq<Issue>, Thrown>)
    ensures r == if !HasText(declared) then Err(NoText)
                 else if EqualsNumber(declared, actual) then Ok([]) else Ok([WrongCount(key)])
  {
    hide TO_STRING;
    if EqualsNumber(declared, actual) {
      return Ok([]);
    }
    if !HasText(declared) {
      return Err(NoText);
    }
    r := Ok([WrongCount(key)]);
  }

  method CheckCounts(counts: Counts, leaves: seq<Leaf>) returns (r: Result<seq<Issue>, Thrown>)
    ensures r == if CountsHaveText(counts) then Ok(CountIssues(counts, leaves)) else Err(NoText)
  {
    hide HasText, EqualsNumber, CountOf;
    if counts.NoCounts? {
      return Ok([CountsMissing]);
    }
    var file, shingle, component := TallyLeaves(leaves);
    var first := CheckCount(counts.first, file, FileCount);
    if first.Err? {
      return first;
    }
    var second := CheckCount(counts.second, shingle, ShingleCount);
    if second.Err? {
      return second;
    }
    var third := CheckCount(counts.third, component, ThirdCount);
    if third.Err? {
      return third;
    }
    r := Ok(first.value + second.value + third.value);
  }

  /** Every issue is reported, in order, unless a value has no text for its message. */
  method ValidateManifest(h: HashFn, parses: Timestamps, m: Value) returns (r: Result<Report, Thrown>)
    ensures r == Validated(h, parses, m)
  {
    hide HeaderIssues, LeafIssues, CountIssues, RootIssues, SignaturesIssues, LeavesHaveText, CountsHaveText, SignaturesHaveText;
    if m.NotObject? {
      return Ok(Report(false, [RootNotObject]));
    }
    var issues := CheckHeader(parses, m);
    if m.leafSet.NoLeafSet? || m.leafSet.leaves == [] {
      issues := issues + [LeafSetMissing];
      return Ok(Report(issues == [], issues));
    }
    var leaves := m.leafSet.leaves;
    var leafIssues := CheckLeaves(h, leaves);
    if leafIssues.Err? {
      return Err(leafIssues.error);
    }
    var countIssues := CheckCounts(m.leafCounts, leaves);
    if countIssues.Err? {
      return Err(countIssues.error);
    }
    var rootIssues := CheckRoot(h, Text(m.texts, MerkleRoot), leaves);
    var signatureIssues := CheckSignatures(m.signatures);
    if signatureIssues.Err? {
      return Err(signatureIssues.error);
    }
    issues := issues + leafIssues.value + countIssues.value + rootIssues + signatureIssues.value;
    r := Ok(Report(issues == [], issues));
  }

  method CheckRoot(h: HashFn, root: Json, leaves: seq<Leaf>) returns (issues: seq<Issue>)
    ensures issues == RootIssues(h, root, leaves)
  {
    issues := [];
    if IsNonEmptyString(root) && Hex.IsHex64(root.s) {
      if AllHashesHex(leaves) {
        var recomputed := Merkle.ComputeMerkleRoot(h, LeafBytes(leaves));
        match recomputed
        case Err(e) => issues := [RootFailed(e)];
        case Ok(digest) =>
          if Hex.ToHex(digest) != root.s {
            issues := [RootMismatch];
          }
      }
    } else if root != Undefined {
      issues := [RootNotHex];
    }
  }

  // What acceptance means.

  /** A leaf whose hash is that of its type and payload. */
  predicate GoodLeaf(h: HashFn, leaf: Leaf) {
    && leaf.LeafObject? && KnownType(leaf.leafType) && IsHexText(leaf.payloadHash)
    && leaf.leafHash == Str(RecomputedHash(h, leaf.leafType.s, leaf.payloadHash.s))
  }

  /** The declared hashes of the first n leaves. */
  function HashTexts(leaves: seq<Leaf>, n: nat): (r: seq<JsString>)
    requires n <= |leaves|
    ensures |r| == n
  {
    if n == 0 then [] else HashTexts(leaves, n - 1) + [HashText(leaves[n - 1])]
  }

  function HashText(leaf: Leaf): JsString {
    if leaf.LeafObject? && leaf.leafHash.Str? then leaf.leafHash.s else []
  }

  ghost predicate GoodTo(h: HashFn, leaves: seq<Leaf>, n: nat)
    requires n <= |leaves|
  {
    && (forall i :: 0 <= i < n ==> GoodLeaf(h, leaves[i]))
    && Sorting.Ascending(JsStrings.Less, HashTexts(leaves, n))
  }

  ghost predicate GoodLeaves(h: HashFn, leaves: seq<Leaf>) {
    GoodTo(h, leaves, |leaves|)
  }

  predicate GoodCounts(counts: Counts, leaves: seq<Leaf>) {
    && counts.Counts?
    && EqualsNumber(counts.first, CountOf(leaves, FILE_LEAF))
    && EqualsNumber(counts.second, CountOf(leaves, SHINGLE_LEAF))
    && EqualsNumber(counts.third, CountOf(leaves, COMPONENT_LEAF))
  }

  predicate GoodSignature(entry: Signature) {
    && entry.SignatureObject? && IsSignerKind(entry.kind) && IsNonEmptyString(entry.keyId)
    && entry.algorithm == Str(ED25519) && IsNonEmptyString(entry.signature)
  }

  predicate GoodHeader(parses: Timestamps, m: Value)
    requires m.Object?
  {
    && (forall f :: f in REQUIRED ==> IsNonEmptyString(Text(m.texts, f)))
    && (forall f :: f in VERSIONED ==> Text(m.texts, f) == Str(ExpectedVersion(f)))
    && parses(Text(m.texts, CreatedAt).s)
    && m.sourceSummary.Counts? && IsCount(m.sourceSummary.first)
    && IsCount(m.sourceSummary.second) && IsCount(m.sourceSummary.third)
    && IsPlainObject(m.policyContext) && IsPlainObject(m.extractionMetadata)
  }

  ghost predicate Accepted(h: HashFn, parses: Timestamps, m: Value) {
    && m.Object? && CreatedAt in REQUIRED && GoodHeader(parses, m)
    && m.leafSet.LeafSet? && m.leafSet.leaves != [] && GoodLeaves(h, m.leafSet.leaves)
    && GoodCounts(m.leafCounts, m.leafSet.leaves)
    && GoodRoot(h, Text(m.texts, MerkleRoot), m.leafSet.leaves)
    && m.signatures.Signatures? && forall i :: 0 <= i < |m.signatures.entries| ==> GoodSignature(m.signatures.entries[i])
  }

  /** The declared root is the hexadecimal form of the recomputed one. */
  predicate GoodRoot(h: HashFn, root: Json, leaves: seq<Leaf>) {
    && AllHashesHex(leaves) && root.Str?
    && Merkle.MerkleRoot(h, LeafBytes(leaves)).Ok?
    && root.s == Hex.ToHex(Merkle.MerkleRoot(h, LeafBytes(leaves)).value)
  }

  lemma {:induction false} NoTextIssues(texts: map<TextField, Json>, fields: seq<TextField>, n: nat)
    requires n <= |fields|
    ensures TextIssues(texts, fields, n) == [] <==> forall i :: 0 <= i < n ==> IsNonEmptyString(Text(texts, fields[i]))
  {
    if n != 0 {
      NoTextIssues(texts, fields, n - 1);
    }
  }

  lemma {:induction false} NoVersionIssues(texts: map<TextField, Json>, fields: seq<TextField>, n: nat)
    requires n <= |fields|
    ensures VersionIssues(texts, fields, n) == [] <==>
            forall i :: 0 <= i < n ==> Text(texts, fields[i]) == Str(ExpectedVersion(fields[i]))
  {
    hide ExpectedVersion;
    if n != 0 {
      NoVersionIssues(texts, fields, n - 1);
    }
  }

  lemma {:induction false} NoSignatureIssues(entries: seq<Signature>, n: nat)
    requires n <= |entries|
    ensures AllSignatureIssues(entries, n) == [] <==> forall i :: 0 <= i < n ==> GoodSignature(entries[i])
  {
    hide SignatureIssues, GoodSignature;
    if n != 0 {
      NoSignatureIssues(entries, n - 1);
      NoIssueInSignature(entries[n - 1], n - 1);
    }
  }

  lemma NoIssueInSignature(entry: Signature, i: nat)
    ensures SignatureIssues(entry, i) == [] <==> GoodSignature(entry)
  {
    hide IsSignerKind, IsNonEmptyString;
  }

  lemma {:induction false} NoHeaderIssues(parses: Timestamps, m: Value)
    requires m.Object?
    ensures CreatedAt in REQUIRED
    ensures HeaderIssues(parses, m) == [] <==> GoodHeader(parses, m)
  {
    hide TextIssues, VersionIssues, ExpectedVersion;
    assert REQUIRED[14] == CreatedAt;
    RequiredFields(m);
    VersionedFields(m);
    hide REQUIRED, VERSIONED;
  }

  lemma RequiredFields(m: Value)
    requires m.Object?
    ensures TextIssues(m.texts, REQUIRED, |REQUIRED|) == [] <==> forall f :: f in REQUIRED ==> IsNonEmptyString(Text(m.texts, f))
  {
    NoTextIssues(m.texts, REQUIRED, |REQUIRED|);
    hide REQUIRED, TextIssues, Text, IsNonEmptyString;
  }

  lemma VersionedFields(m: Value)
    requires m.Object?
    ensures VersionIssues(m.texts, VERSIONED, |VERSIONED|) == [] <==>
            forall f :: f in VERSIONED ==> Text(m.texts, f) == Str(ExpectedVersion(f))
  {
    NoVersionIssues(m.texts, VERSIONED, |VERSIONED|);
    hide VERSIONED, VersionIssues, Text, ExpectedVersion;
  }

  // The loop over the leaves.

  lemma RecomputedShape(h: HashFn, leafType: JsString, payloadHash: JsString)
    requires IsLeafType(leafType) && Hex.IsHex64(payloadHash)
    ensures Hex.IsHex64(RecomputedHash(h, leafType, payloadHash))
  {
    var input := LeafInput(PROTOCOL_VERSION, leafType, HASH_ALGORITHM, Hex.FromHex(payloadHash));
    Hex.StrictRoundTrip(payloadHash);
    ConstantsFit(input);
    Hex.ToHexShape(h(Encoding(input)));
  }

  predicate CleanPass(pass: Pass) {
    pass.issues == [] && pass.sortedOk
  }

  lemma {:induction false} LeafStepClean(h: HashFn, leaf: Leaf, i: nat, pass: Pass)
    ensures CleanPass(LeafStep(h, leaf, i, pass)) <==>
            CleanPass(pass) && GoodLeaf(h, leaf) && leaf.leafHash.s !in pass.seen
            && !(pass.previous != [] && JsStrings.Less(leaf.leafHash.s, pass.previous))
    ensures GoodLeaf(h, leaf) ==> LeafStep(h, leaf, i, pass).seen == pass.seen + {leaf.leafHash.s}
                                  && LeafStep(h, leaf, i, pass).previous == leaf.leafHash.s
  {
    if leaf.LeafObject? && KnownType(leaf.leafType) && IsHexText(leaf.payloadHash) {
      RecomputedShape(h, leaf.leafType.s, leaf.payloadHash.s);
    }
    hide RecomputedHash, IsLeafType, Hex.IsHex64, JsStrings.Less;
  }

  /** What the first n leaves leave behind when nothing was wrong with them. */
  ghost predicate GoodPass(leaves: seq<Leaf>, n: nat, pass: Pass)
    requires n <= |leaves|
  {
    var hashes := HashTexts(leaves, n);
    && (forall x :: x in pass.seen <==> x in hashes)
    && pass.previous == if n == 0 then [] else hashes[n - 1]
  }

  lemma LastHashNotEmpty(h: HashFn, leaf: Leaf)
    requires GoodLeaf(h, leaf)
    ensures HashText(leaf) == leaf.leafHash.s != []
  {
    RecomputedShape(h, leaf.leafType.s, leaf.payloadHash.s);
  }

  lemma GoodToSplits(h: HashFn, leaves: seq<Leaf>, n: nat)
    requires 0 < n <= |leaves|
    ensures GoodTo(h, leaves, n) <==>
            && GoodTo(h, leaves, n - 1) && GoodLeaf(h, leaves[n - 1])
            && Sorting.Ascending(JsStrings.Less, HashTexts(leaves, n - 1) + [HashText(leaves[n - 1])])
  {
    hide GoodLeaf, JsStrings.Less;
    var before, after := HashTexts(leaves, n - 1), HashTexts(leaves, n);
    assert after == before + [HashText(leaves[n - 1])];
    assert forall i :: 0 <= i < n - 1 ==> after[i] == before[i];
  }

  lemma NextInOrder(h: HashFn, leaves: seq<Leaf>, n: nat, pass: Pass)
    requires 0 < n <= |leaves| && GoodTo(h, leaves, n - 1) && GoodLeaf(h, leaves[n - 1])
    requires GoodPass(leaves, n - 1, pass)
    ensures leaves[n - 1].leafHash.s !in pass.seen
            && !(pass.previous != [] && JsStrings.Less(leaves[n - 1].leafHash.s, pass.previous))
            <==> GoodTo(h, leaves, n)
  {
    var hashes := HashTexts(leaves, n - 1);
    LastHashNotEmpty(h, leaves[n - 1]);
    if n > 1 {
      LastHashNotEmpty(h, leaves[n - 2]);
    }
    GoodToSplits(h, leaves, n);
    hide GoodLeaf, GoodTo, JsStrings.Less;
    JsStrings.IsStrictOrder();
    Sorting.NextAscends(JsStrings.Less, hashes, HashText(leaves[n - 1]));
  }

  lemma PassStep(h: HashFn, leaves: seq<Leaf>, n: nat, pass: Pass)
    requires 0 < n <= |leaves|
    requires CleanPass(pass) <==> GoodTo(h, leaves, n - 1)
    requires GoodTo(h, leaves, n - 1) ==> GoodPass(leaves, n - 1, pass)
    ensures CleanPass(LeafStep(h, leaves[n - 1], n - 1, pass)) <==> GoodTo(h, leaves, n)
    ensures GoodTo(h, leaves, n) ==> GoodPass(leaves, n, LeafStep(h, leaves[n - 1], n - 1, pass))
  {
    hide LeafStep, GoodTo, GoodLeaf, JsStrings.Less, CleanPass, HashText;
    LeafStepClean(h, leaves[n - 1], n - 1, pass);
    GoodToSplits(h, leaves, n);
    if GoodTo(h, leaves, n - 1) && GoodLeaf(h, leaves[n - 1]) {
      NextInOrder(h, leaves, n, pass);
      LastHashNotEmpty(h, leaves[n - 1]);
    }
  }

  /** The pass stays clean exactly as long as the leaves are good and ascend. */
  lemma {:induction false} PassMeaning(h: HashFn, leaves: seq<Leaf>, n: nat)
    requires n <= |leaves|
    ensures CleanPass(PassTo(h, leaves, n)) <==> GoodTo(h, leaves, n)
    ensures GoodTo(h, leaves, n) ==> GoodPass(leaves, n, PassTo(h, leaves, n))
  {
    if n == 0 {
      assert HashTexts(leaves, 0) == [];
    } else {
      hide LeafStep, GoodTo, CleanPass, GoodPass;
      PassMeaning(h, leaves, n - 1);
      PassStep(h, leaves, n, PassTo(h, leaves, n - 1));
    }
  }

  /** The validator accepts exactly the values that Accepted describes. */
  lemma NoIssuesExactly(h: HashFn, parses: Timestamps, m: Value)
    ensures Issues(h, parses, m) == [] <==> Accepted(h, parses, m)
  {
    hide HeaderIssues, GoodHeader, CountIssues, GoodCounts, RootIssues, GoodRoot, PassTo, GoodTo, AllSignatureIssues, GoodSignature;
    if m.Object? {
      NoHeaderIssues(parses, m);
      GoodHeaderRootText(parses, m);
      if m.leafSet.LeafSet? && m.leafSet.leaves != [] {
        var leaves := m.leafSet.leaves;
        PassMeaning(h, leaves, |leaves|);
        if m.signatures.Signatures? {
          NoSignatureIssues(m.signatures.entries, |m.signatures.entries|);
        }
        RootAccepted(h, m, leaves);
        NoCountIssues(m.leafCounts, leaves);
      }
    }
  }

  lemma AcceptedHasTexts(h: HashFn, parses: Timestamps, m: Value)
    requires Accepted(h, parses, m)
    ensures HasTexts(m)
  {
    hide GoodHeader, GoodRoot, CountOf, IsLeafType, RecomputedHash, TO_STRING;
    var leaves, entries := m.leafSet.leaves, m.signatures.entries;
    forall i | 0 <= i < |leaves| ensures LeafHasText(leaves[i]) {
      assert GoodLeaf(h, leaves[i]);
    }
    forall i | 0 <= i < |entries| ensures SignatureHasText(entries[i]) {
      assert GoodSignature(entries[i]);
    }
  }

  /** A value is valid, with nothing reported and nothing thrown, exactly when it is as the format demands. */
  lemma AcceptedExactly(h: HashFn, parses: Timestamps, m: Value)
    ensures Validated(h, parses, m) == Ok(Report(true, [])) <==> Accepted(h, parses, m)
  {
    hide Accepted, Issues, HasTexts;
    NoIssuesExactly(h, parses, m);
    if Accepted(h, parses, m) {
      AcceptedHasTexts(h, parses, m);
    }
  }

  /** The manifest with another value for the type of one leaf. */
  function Retyped(m: Value, i: nat, leafType: Json): Value
    requires m.Object? && m.leafSet.LeafSet? && i < |m.leafSet.leaves| && m.leafSet.leaves[i].LeafObject?
  {
    m.(leafSet := LeafSet(m.leafSet.leaves[i := m.leafSet.leaves[i].(leafType := leafType)]))
  }

  /** The failing family: a leaf type that is an object with a toString of its own. */
  lemma ThrowsWithoutText(h: HashFn, parses: Timestamps, m: Value, i: nat, fields: seq<Field>, k: nat)
    requires m.Object? && m.leafSet.LeafSet? && i < |m.leafSet.leaves| && m.leafSet.leaves[i].LeafObject?
    requires k < |fields| && fields[k].name == TO_STRING
    ensures Validated(h, parses, Retyped(m, i, Obj(fields))) == Err(NoText)
  {
    hide TO_STRING, Issues;
    assert !HasText(Obj(fields));
    var leaves := Retyped(m, i, Obj(fields)).leafSet.leaves;
    assert !LeafHasText(leaves[i]);
  }

  lemma NoCountIssues(counts: Counts, leaves: seq<Leaf>)
    ensures CountIssues(counts, leaves) == [] <==> GoodCounts(counts, leaves)
  {
    hide CountTo;
  }

  lemma GoodHeaderRootText(parses: Timestamps, m: Value)
    requires m.Object? && CreatedAt in REQUIRED
    ensures GoodHeader(parses, m) ==> HeaderMeansRootText(m)
  {
    assert REQUIRED[13] == MerkleRoot;
  }

  lemma GoodLeavesHex(h: HashFn, leaves: seq<Leaf>)
    requires GoodLeaves(h, leaves)
    ensures AllHashesHex(leaves)
  {
    forall i | 0 <= i < |leaves| ensures IsHexText(leaves[i].leafHash) {
      assert GoodLeaf(h, leaves[i]);
      RecomputedShape(h, leaves[i].leafType.s, leaves[i].payloadHash.s);
    }
  }

  lemma RootAccepted(h: HashFn, m: Value, leaves: seq<Leaf>)
    requires m.Object?
    ensures HeaderMeansRootText(m) && GoodLeaves(h, leaves) ==>
            (RootIssues(h, Text(m.texts, MerkleRoot), leaves) == [] <==> GoodRoot(h, Text(m.texts, MerkleRoot), leaves))
  {
    if HeaderMeansRootText(m) && GoodLeaves(h, leaves) {
      hide GoodLeaves, AllHashesHex, Text;
      GoodLeavesHex(h, leaves);
      RootOfHexLeaves(h, Text(m.texts, MerkleRoot), leaves);
    }
  }

  lemma RootOfHexLeaves(h: HashFn, root: Json, leaves: seq<Leaf>)
    requires IsNonEmptyString(root) && AllHashesHex(leaves)
    ensures RootIssues(h, root, leaves) == [] <==> GoodRoot(h, root, leaves)
  {
    hide AllHashesHex, Merkle.MerkleRoot, LeafBytes, Hex.ToHex;
    var computed := Merkle.MerkleRoot(h, LeafBytes(leaves));
    if computed.Ok? {
      Hex.ToHexShape(computed.value);
    }
  }

  predicate HeaderMeansRootText(m: Value)
    requires m.Object?
  {
    IsNonEmptyString(Text(m.texts, MerkleRoot))
  }
}
