/** The order in which the validator reports what is wrong: nothing twice, and always the same way round. */
module ReportOrder {
  import opened Bytes
  import opened JsStrings
  import opened Json
  import opened Manifest
  import opened ManifestReport
  import Hex
  import Merkle

  /** The place of a field among the required ones. */
  function FieldIndex(field: TextField): nat {
    match field
    case SchemaVersion => 0 case ProtocolVersion => 1 case CanonicalizationVersion => 2 case MerkleVersion => 3
    case HashAlgorithm => 4 case HashAlgorithmVersion => 5 case TenantId => 6 case ProjectId => 7
    case AttestationId => 8 case AttemptId => 9 case CreatedByUserId => 10 case CreatedByDeviceId => 11
    case CreatedByProfileId => 12 case MerkleRoot => 13 case CreatedAt => 14
    case ShinglingVersion => 15 case OcrExtractionVersion => 16 case TemplateId => 17
  }

  function KeyIndex(key: CountKey): nat {
    match key case FileCount => 0 case ShingleCount => 1 case ThirdCount => 2
  }

  /** The part of the manifest that an issue is about. */
  function Section(issue: Issue): nat {
    match issue
    case RootNotObject => 0
    case TextMissing(_) => 1
    case WrongVersion(_) => 2
    case BadTimestamp => 3
    case SummaryMissing => 4
    case BadSummaryCount(_) => 4
    case PolicyMissing => 5
    case ExtractionMissing => 6
    case LeafSetMissing => 7
    case BadLeaf(_) => 8
    case BadLeafType(_) => 8
    case BadPayloadHash(_) => 8
    case BadLeafHash(_) => 8
    case LeafHashMismatch(_) => 8
    case DuplicateLeafHash(_) => 8
    case LeavesUnsorted => 9
    case CountsMissing => 10
    case WrongCount(_) => 10
    case RootMismatch => 11
    case RootFailed(_) => 11
    case RootNotHex => 11
    case SignaturesMissing => 12
    case BadSignature(_) => 12
    case UnknownSigner(_) => 12
    case MissingKeyId(_) => 12
    case WrongAlgorithm(_) => 12
    case MissingSignature(_) => 12
  }

  /** The field, count, leaf or signature that it is about. */
  function Item(issue: Issue): nat {
    match issue
    case TextMissing(field) => FieldIndex(field)
    case WrongVersion(field) => FieldIndex(field)
    case BadSummaryCount(key) => KeyIndex(key)
    case WrongCount(key) => KeyIndex(key)
    case BadLeaf(i) => i
    case BadLeafType(i) => i
    case BadPayloadHash(i) => i
    case BadLeafHash(i) => i
    case LeafHashMismatch(i) => i
    case DuplicateLeafHash(i) => i
    case BadSignature(i) => i
    case UnknownSigner(i) => i
    case MissingKeyId(i) => i
    case WrongAlgorithm(i) => i
    case MissingSignature(i) => i
    case _ => 0
  }

  /** The property of a leaf or a signature that it is about. */
  function Property(issue: Issue): nat {
    match issue
    case BadPayloadHash(_) => 1
    case BadLeafHash(_) => 2
    case LeafHashMismatch(_) => 3
    case DuplicateLeafHash(_) => 4
    case MissingKeyId(_) => 1
    case WrongAlgorithm(_) => 2
    case MissingSignature(_) => 3
    case _ => 0
  }

  predicate Before(a: Issue, b: Issue) {
    || Section(a) < Section(b)
    || (Section(a) == Section(b) && (Item(a) < Item(b) || (Item(a) == Item(b) && Property(a) < Property(b))))
  }

  predicate InOrder(s: seq<Issue>) {
    forall i, j :: 0 <= i < j < |s| ==> Before(s[i], s[j])
  }

  predicate Within(s: seq<Issue>, low: nat, high: nat) {
    forall i :: 0 <= i < |s| ==> low <= Section(s[i]) <= high
  }

  lemma Append(a: seq<Issue>, b: seq<Issue>, low: nat, middle: nat, high: nat)
    requires InOrder(a) && InOrder(b) && Within(a, low, middle) && Within(b, middle + 1, high) && low <= middle < high
    ensures InOrder(a + b) && Within(a + b, low, high)
  {
    hide Before, Section;
    forall i, j | 0 <= i < j < |a + b| ensures Before((a + b)[i], (a + b)[j]) {
      if i < |a| <= j {
        SectionsDecide(a[i], b[j - |a|]);
      }
    }
  }

  lemma SectionsDecide(a: Issue, b: Issue)
    requires Section(a) < Section(b)
    ensures Before(a, b)
  {
  }

  lemma Empty(low: nat, high: nat)
    ensures InOrder([]) && Within([], low, high)
  {
  }

  /** Issues about the first n items of one section. */
  predicate About(s: seq<Issue>, section: nat, n: nat) {
    forall i :: 0 <= i < |s| ==> Section(s[i]) == section && Item(s[i]) < n
  }

  /** Issues about one more item, in the order of its properties. */
  lemma Extend(s: seq<Issue>, more: seq<Issue>, section: nat, n: nat)
    requires InOrder(s) && About(s, section, n) && InOrder(more)
    requires forall i :: 0 <= i < |more| ==> Section(more[i]) == section && Item(more[i]) == n
    ensures InOrder(s + more) && About(s + more, section, n + 1)
  {
    hide Section, Item, Property;
    forall i, j | 0 <= i < j < |s + more| ensures Before((s + more)[i], (s + more)[j]) {
      if i < |s| <= j {
        assert Item(s[i]) < n == Item(more[j - |s|]);
      }
    }
  }

  predicate Indexed(fields: seq<TextField>) {
    forall k :: 0 <= k < |fields| ==> FieldIndex(fields[k]) == k
  }

  lemma RequiredIndexed()
    ensures Indexed(REQUIRED)
  {
  }

  lemma VersionedIndexed()
    ensures Indexed(VERSIONED)
  {
  }

  lemma {:induction false} TextIssuesInOrder(texts: map<TextField, Json>, fields: seq<TextField>, n: nat)
    requires n <= |fields| && Indexed(fields)
    ensures InOrder(TextIssues(texts, fields, n)) && About(TextIssues(texts, fields, n), 1, n)
  {
    hide Text, IsNonEmptyString, Before;
    if n > 0 {
      TextIssuesInOrder(texts, fields, n - 1);
      Extend(TextIssues(texts, fields, n - 1),
             if IsNonEmptyString(Text(texts, fields[n - 1])) then [] else [TextMissing(fields[n - 1])], 1, n - 1);
    }
  }

  lemma {:induction false} VersionIssuesInOrder(texts: map<TextField, Json>, fields: seq<TextField>, n: nat)
    requires n <= |fields| && Indexed(fields)
    ensures InOrder(VersionIssues(texts, fields, n)) && About(VersionIssues(texts, fields, n), 2, n)
  {
    hide Text, ExpectedVersion, Before;
    if n > 0 {
      VersionIssuesInOrder(texts, fields, n - 1);
      Extend(VersionIssues(texts, fields, n - 1),
             if Text(texts, fields[n - 1]) == Str(ExpectedVersion(fields[n - 1])) then [] else [WrongVersion(fields[n - 1])],
             2, n - 1);
    }
  }

  lemma AboutIsWithin(s: seq<Issue>, section: nat, n: nat)
    requires About(s, section, n)
    ensures Within(s, section, section)
  {
    hide Section, Item;
  }

  lemma SummaryInOrder(summary: Counts)
    ensures InOrder(SummaryIssues(summary)) && Within(SummaryIssues(summary), 4, 4)
  {
    hide IsCount;
  }

  lemma One(issue: Issue, given: bool)
    ensures var s := if given then [issue] else []; InOrder(s) && Within(s, Section(issue), Section(issue))
  {
    hide Before;
  }

  lemma HeaderInOrder(parses: Timestamps, m: Value)
    requires m.Object?
    ensures InOrder(HeaderIssues(parses, m)) && Within(HeaderIssues(parses, m), 1, 6)
  {
    hide TextIssues, VersionIssues, SummaryIssues, Text, Before, InOrder, Within, About, Indexed, REQUIRED, VERSIONED;
    RequiredIndexed();
    VersionedIndexed();
    var a := TextIssues(m.texts, REQUIRED, |REQUIRED|);
    var b := VersionIssues(m.texts, VERSIONED, |VERSIONED|);
    TextIssuesInOrder(m.texts, REQUIRED, |REQUIRED|);
    VersionIssuesInOrder(m.texts, VERSIONED, |VERSIONED|);
    AboutIsWithin(a, 1, |REQUIRED|);
    AboutIsWithin(b, 2, |VERSIONED|);
    Append(a, b, 1, 1, 2);
    var created := Text(m.texts, CreatedAt);
    var bad := IsNonEmptyString(created) && !parses(created.s);
    var c := TimestampIssues(parses, created);
    assert c == if bad then [BadTimestamp] else [];
    One(BadTimestamp, bad);
    Append(a + b, c, 1, 2, 3);
    SummaryInOrder(m.sourceSummary);
    Append(a + b + c, SummaryIssues(m.sourceSummary), 1, 3, 4);
    One(PolicyMissing, !IsPlainObject(m.policyContext));
    One(ExtractionMissing, !IsPlainObject(m.extractionMetadata));
    var e := a + b + c + SummaryIssues(m.sourceSummary);
    Append(e, if IsPlainObject(m.policyContext) then [] else [PolicyMissing], 1, 4, 5);
    Append(e + (if IsPlainObject(m.policyContext) then [] else [PolicyMissing]),
           if IsPlainObject(m.extractionMetadata) then [] else [ExtractionMissing], 1, 5, 6);
  }

  /** What one leaf adds. */
  function LeafAdds(h: HashFn, leaf: Leaf, i: nat, pass: Pass): seq<Issue> {
    if leaf.LeafNotObject? then [BadLeaf(i)]
    else
      (if KnownType(leaf.leafType) then [] else [BadLeafType(i)])
      + (if IsHexText(leaf.payloadHash) then [] else [BadPayloadHash(i)])
      + (if !IsHexText(leaf.leafHash) then [BadLeafHash(i)] else [])
      + (if IsHexText(leaf.leafHash) && KnownType(leaf.leafType) && IsHexText(leaf.payloadHash)
            && RecomputedHash(h, leaf.leafType.s, leaf.payloadHash.s) != leaf.leafHash.s then [LeafHashMismatch(i)] else [])
      + (if IsHexText(leaf.leafHash) && leaf.leafHash.s in pass.seen then [DuplicateLeafHash(i)] else [])
  }

  lemma StepAdds(h: HashFn, leaf: Leaf, i: nat, pass: Pass)
    ensures LeafStep(h, leaf, i, pass).issues == pass.issues + LeafAdds(h, leaf, i, pass)
  {
    hide KnownType, Hex.IsHex64, RecomputedHash, JsStrings.Less;
  }

  lemma AddsInOrder(h: HashFn, leaf: Leaf, i: nat, pass: Pass)
    ensures InOrder(LeafAdds(h, leaf, i, pass))
    ensures forall k :: 0 <= k < |LeafAdds(h, leaf, i, pass)| ==>
              Section(LeafAdds(h, leaf, i, pass)[k]) == 8 && Item(LeafAdds(h, leaf, i, pass)[k]) == i
  {
    hide KnownType, IsHexText, RecomputedHash;
    var n := |LeafAdds(h, leaf, i, pass)|;
    assert n <= 5;
  }

  lemma {:induction false} PassInOrder(h: HashFn, leaves: seq<Leaf>, n: nat)
    requires n <= |leaves|
    ensures InOrder(PassTo(h, leaves, n).issues) && About(PassTo(h, leaves, n).issues, 8, n)
  {
    hide LeafStep, Before, LeafAdds, Section, Item;
    if n > 0 {
      var pass := PassTo(h, leaves, n - 1);
      PassInOrder(h, leaves, n - 1);
      StepAdds(h, leaves[n - 1], n - 1, pass);
      AddsInOrder(h, leaves[n - 1], n - 1, pass);
      Extend(pass.issues, LeafAdds(h, leaves[n - 1], n - 1, pass), 8, n - 1);
    }
  }

  lemma LeavesInOrder(h: HashFn, leaves: seq<Leaf>)
    ensures InOrder(LeafIssues(h, leaves)) && Within(LeafIssues(h, leaves), 8, 9)
  {
    hide PassTo, Before, InOrder, Within, About;
    var pass := PassTo(h, leaves, |leaves|);
    PassInOrder(h, leaves, |leaves|);
    AboutIsWithin(pass.issues, 8, |leaves|);
    One(LeavesUnsorted, !pass.sortedOk);
    Append(pass.issues, if pass.sortedOk then [] else [LeavesUnsorted], 8, 8, 9);
  }

  lemma CountsInOrder(counts: Counts, leaves: seq<Leaf>)
    ensures InOrder(CountIssues(counts, leaves)) && Within(CountIssues(counts, leaves), 10, 10)
  {
    hide EqualsNumber, CountOf;
  }

  lemma RootInOrder(h: HashFn, root: Json, leaves: seq<Leaf>)
    ensures InOrder(RootIssues(h, root, leaves)) && Within(RootIssues(h, root, leaves), 11, 11)
  {
    hide AllHashesHex, LeafBytes, IsNonEmptyString, Hex.IsHex64, Hex.ToHex, Merkle.MerkleRoot, Before;
  }

  lemma SignatureInOrder(entry: Signature, i: nat)
    ensures InOrder(SignatureIssues(entry, i))
    ensures forall k :: 0 <= k < |SignatureIssues(entry, i)| ==>
              Section(SignatureIssues(entry, i)[k]) == 12 && Item(SignatureIssues(entry, i)[k]) == i
  {
    hide IsSignerKind, IsNonEmptyString, ED25519;
  }

  lemma {:induction false} SignaturesInOrder(entries: seq<Signature>, n: nat)
    requires n <= |entries|
    ensures InOrder(AllSignatureIssues(entries, n)) && About(AllSignatureIssues(entries, n), 12, n)
  {
    hide SignatureIssues, Before, Section, Item;
    if n > 0 {
      SignaturesInOrder(entries, n - 1);
      SignatureInOrder(entries[n - 1], n - 1);
      Extend(AllSignatureIssues(entries, n - 1), SignatureIssues(entries[n - 1], n - 1), 12, n - 1);
    }
  }

  lemma AllSignaturesInOrder(signatures: Signatures)
    ensures InOrder(SignaturesIssues(signatures)) && Within(SignaturesIssues(signatures), 12, 12)
  {
    hide AllSignatureIssues, Before, About;
    if signatures.Signatures? {
      SignaturesInOrder(signatures.entries, |signatures.entries|);
      AboutIsWithin(AllSignatureIssues(signatures.entries, |signatures.entries|), 12, |signatures.entries|);
    }
  }

  /**
    Issues are reported in the order of the format, those of leaves and signatures one leaf or signature after
    another, and none twice.
    */
  lemma ReportInOrder(h: HashFn, parses: Timestamps, m: Value, i: nat, j: nat)
    requires i < j < |Issues(h, parses, m)|
    ensures Before(Issues(h, parses, m)[i], Issues(h, parses, m)[j])
  {
    IssuesInOrder(h, parses, m);
    hide Issues, Before;
  }

  lemma IssuesInOrder(h: HashFn, parses: Timestamps, m: Value)
    ensures InOrder(Issues(h, parses, m))
  {
    hide HeaderIssues, LeafIssues, CountIssues, RootIssues, SignaturesIssues, Before, InOrder, Within;
    if m.NotObject? {
      One(RootNotObject, true);
    } else {
      HeaderInOrder(parses, m);
      var a := HeaderIssues(parses, m);
      if !HasLeaves(m) {
        One(LeafSetMissing, true);
        Append(a, [LeafSetMissing], 1, 6, 7);
      } else {
        var leaves := m.leafSet.leaves;
        LeavesInOrder(h, leaves);
        Looser(LeafIssues(h, leaves), 8, 9, 7);
        Append(a, LeafIssues(h, leaves), 1, 6, 9);
        CountsInOrder(m.leafCounts, leaves);
        Append(a + LeafIssues(h, leaves), CountIssues(m.leafCounts, leaves), 1, 9, 10);
        var b := a + LeafIssues(h, leaves) + CountIssues(m.leafCounts, leaves);
        RootInOrder(h, Text(m.texts, MerkleRoot), leaves);
        Append(b, RootIssues(h, Text(m.texts, MerkleRoot), leaves), 1, 10, 11);
        AllSignaturesInOrder(m.signatures);
        Append(b + RootIssues(h, Text(m.texts, MerkleRoot), leaves), SignaturesIssues(m.signatures), 1, 11, 12);
      }
    }
  }

  lemma Looser(s: seq<Issue>, low: nat, high: nat, lower: nat)
    requires Within(s, low, high) && lower <= low
    ensures Within(s, lower, high)
  {
    hide Section;
  }
}
