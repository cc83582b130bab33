/** The manifest builder, and its agreement with the validator. */
module ManifestBuilder {
  import opened Bytes
  import opened JsStrings
  import opened Json
  import opened LeafHash
  import opened Manifest
  import opened ManifestValidator
  import opened ManifestBinding
  import Hex
  import Merkle
  import Sorting

  datatype Descriptor = Descriptor(leafType: JsString, payloadHash: Bytes, metadata: Option<seq<Field>>)

  /** Now is the time at which the builder is called. */
  datatype BuildInput = BuildInput(
    tenantId: JsString,
    projectId: JsString,
    attestationId: JsString,
    attemptId: JsString,
    userId: JsString,
    deviceId: JsString,
    profileId: JsString,
    templateId: Option<JsString>,
    leaves: seq<Descriptor>,
    policyContext: Option<seq<Field>>,
    sourceSummary: Counts,
    extractionMetadata: Option<seq<Field>>,
    shinglingVersion: Option<JsString>,
    ocrExtractionVersion: Option<JsString>,
    createdAt: Option<JsString>,
    now: JsString)

  datatype BuildError = NoLeaves | LeafFailed(leaf: LeafError) | TreeFailed(tree: Merkle.MerkleError)

  function OrEmpty(fields: Option<seq<Field>>): Json {
    if fields.Some? then Obj(fields.value) else Obj([])
  }

  function EntryOf(h: HashFn, d: Descriptor): Result<Leaf, LeafError> {
    match ComputeLeafHash(h, LeafInput(PROTOCOL_VERSION, d.leafType, HASH_ALGORITHM, d.payloadHash))
    case Err(e) => Err(e)
    case Ok(digest) =>
      Ok(LeafObject(Str(d.leafType), Str(Hex.ToHex(digest)), Str(Hex.ToHex(d.payloadHash)), OrEmpty(d.metadata)))
  }

  function Entries(h: HashFn, ds: seq<Descriptor>): Result<seq<Leaf>, LeafError> {
    if ds == [] then Ok([])
    else
      match EntryOf(h, ds[0])
      case Err(e) => Err(e)
      case Ok(first) =>
        match Entries(h, ds[1..])
        case Err(e) => Err(e)
        case Ok(rest) => Ok([first] + rest)
  }

  predicate EntryLess(a: Leaf, b: Leaf) {
    JsStrings.Less(HashText(a), HashText(b))
  }

  function HashBytes(leaf: Leaf): Bytes {
    Hex.FromHex(HashText(leaf))
  }

  function OrNull(text: Option<JsString>): Json {
    if text.Some? then Str(text.value) else Null
  }

  function CreatedWhen(input: BuildInput): JsString {
    input.createdAt.GetOr(input.now)
  }

  function BuiltText(input: BuildInput, root: JsString, field: TextField): Json {
    match field
    case HashAlgorithm => Str(HASH_ALGORITHM)
    case TenantId => Str(input.tenantId)
    case ProjectId => Str(input.projectId)
    case AttestationId => Str(input.attestationId)
    case AttemptId => Str(input.attemptId)
    case CreatedByUserId => Str(input.userId)
    case CreatedByDeviceId => Str(input.deviceId)
    case CreatedByProfileId => Str(input.profileId)
    case TemplateId => OrNull(input.templateId)
    case ShinglingVersion => OrNull(input.shinglingVersion)
    case OcrExtractionVersion => OrNull(input.ocrExtractionVersion)
    case MerkleRoot => Str(root)
    case CreatedAt => Str(CreatedWhen(input))
    case SchemaVersion | ProtocolVersion | CanonicalizationVersion | MerkleVersion | HashAlgorithmVersion =>
      Str(PROTOCOL_VERSION)
  }

  function Texts(input: BuildInput, root: JsString): map<TextField, Json> {
    map field: TextField :: BuiltText(input, root, field)
  }

  function Assemble(input: BuildInput, leaves: seq<Leaf>, root: Digest): Value {
    Object(Texts(input, Hex.ToHex(root)), input.sourceSummary, OrEmpty(input.policyContext),
           OrEmpty(input.extractionMetadata), LeafSet(leaves),
           Counts(Num(Integer(CountOf(leaves, FILE_LEAF))), Num(Integer(CountOf(leaves, SHINGLE_LEAF))),
                  Num(Integer(CountOf(leaves, COMPONENT_LEAF)))),
           Signatures([]))
  }

  /** An unsigned manifest over the descriptors, or the exception that stopped it. */
  function Built(h: HashFn, input: BuildInput): Result<Value, BuildError> {
    if input.leaves == [] then Err(NoLeaves)
    else
      match Entries(h, input.leaves)
      case Err(e) => Err(LeafFailed(e))
      case Ok(entries) =>
        var leaves := Sorting.Sort(EntryLess, entries);
        match Merkle.MerkleRoot(h, Sorting.MapSeq(HashBytes, leaves))
        case Err(e) => Err(TreeFailed(e))
        case Ok(root) => Ok(Assemble(input, leaves, root))
  }

  method BuildManifest(h: HashFn, input: BuildInput) returns (r: Result<Value, BuildError>)
    ensures r == Built(h, input)
  {
    if |input.leaves| == 0 {
      return Err(NoLeaves);
    }
    var entries := Entries(h, input.leaves);
    if entries.Err? {
      return Err(LeafFailed(entries.error));
    }
    hide Texts, CountOf;
    var leaves := Sorting.Sort(EntryLess, entries.value);
    var root := Merkle.ComputeMerkleRoot(h, Sorting.MapSeq(HashBytes, leaves));
    if root.Err? {
      return Err(TreeFailed(root.error));
    }
    var file, shingle, component := TallyLeaves(leaves);
    r := Ok(Object(Texts(input, Hex.ToHex(root.value)), input.sourceSummary, OrEmpty(input.policyContext),
                   OrEmpty(input.extractionMetadata), LeafSet(leaves),
                   Counts(Num(Integer(file)), Num(Integer(shingle)), Num(Integer(component))), Signatures([])));
  }

  // The entries that are built.

  function MemberOfDescriptor(d: Descriptor): Member {
    Member(d.leafType, d.payloadHash)
  }

  function MemberOfLeaf(leaf: Leaf): Member {
    if Typed(leaf) then MemberOf(leaf) else Member([], [])
  }

  lemma EntryMeaning(h: HashFn, d: Descriptor)
    ensures EntryOf(h, d).Ok? <==> Encodable(MemberOfDescriptor(d))
    ensures EntryOf(h, d).Ok? ==>
              GoodLeaf(h, EntryOf(h, d).value) && MemberOfLeaf(EntryOf(h, d).value) == MemberOfDescriptor(d)
  {
    hide Encoding, Utf8, IsLeafType, FieldsFit, Hex.AllLower, Hex.ToHex, Hex.FromHex;
    var input := LeafInput(PROTOCOL_VERSION, d.leafType, HASH_ALGORITHM, d.payloadHash);
    Hex.ToHexShape(d.payloadHash);
    Hex.HexRoundTrip(d.payloadHash);
    if Encodable(MemberOfDescriptor(d)) {
      ConstantsFit(input);
    }
  }

  lemma {:induction false} EntriesMeaning(h: HashFn, ds: seq<Descriptor>)
    ensures Entries(h, ds).Ok? <==> forall i :: 0 <= i < |ds| ==> Encodable(MemberOfDescriptor(ds[i]))
    ensures Entries(h, ds).Ok? ==>
              && (forall i :: 0 <= i < |Entries(h, ds).value| ==> GoodLeaf(h, Entries(h, ds).value[i]))
              && Sorting.MapSeq(MemberOfLeaf, Entries(h, ds).value) == Sorting.MapSeq(MemberOfDescriptor, ds)
  {
    hide EntryOf, GoodLeaf, MemberOfLeaf, MemberOfDescriptor, Encodable;
    if ds != [] {
      EntryMeaning(h, ds[0]);
      EntriesMeaning(h, ds[1..]);
      assert ds == [ds[0]] + ds[1..];
    }
  }

  // Sorting the entries.

  lemma {:induction false} HashTextsMap(leaves: seq<Leaf>)
    ensures HashTexts(leaves, |leaves|) == Sorting.MapSeq(HashText, leaves)
  {
    forall i | 0 <= i < |leaves| ensures HashTexts(leaves, |leaves|)[i] == HashText(leaves[i]) {
      HashTextsAt(leaves, |leaves|, i);
    }
  }

  lemma SortedTexts(entries: seq<Leaf>)
    ensures Sorting.MapSeq(HashText, Sorting.Sort(EntryLess, entries)) ==
            Sorting.Sort(JsStrings.Less, Sorting.MapSeq(HashText, entries))
  {
    Sorting.SortMap(HashText, EntryLess, JsStrings.Less, entries);
  }

  lemma SortedStaysGood(h: HashFn, entries: seq<Leaf>)
    requires forall i :: 0 <= i < |entries| ==> GoodLeaf(h, entries[i])
    ensures var leaves := Sorting.Sort(EntryLess, entries);
            && |leaves| == |entries| && (forall i :: 0 <= i < |leaves| ==> GoodLeaf(h, leaves[i]))
            && AllHashesHex(leaves) && Sorting.MapSeq(HashBytes, leaves) == LeafBytes(leaves)
  {
    hide GoodLeaf, EntryLess;
    var leaves := Sorting.Sort(EntryLess, entries);
    Sorting.SortKeeps(EntryLess, entries);
    Sorting.SameElements(entries, leaves);
    forall i | 0 <= i < |leaves| ensures GoodLeaf(h, leaves[i]) {
      assert leaves[i] in entries;
    }
    AllGoodHex(h, leaves);
  }

  lemma AllGoodHex(h: HashFn, leaves: seq<Leaf>)
    requires forall i :: 0 <= i < |leaves| ==> GoodLeaf(h, leaves[i])
    ensures AllHashesHex(leaves) && Sorting.MapSeq(HashBytes, leaves) == LeafBytes(leaves)
  {
    forall i | 0 <= i < |leaves| ensures leaves[i].LeafObject? && IsHexText(leaves[i].leafHash) {
      RecomputedShape(h, leaves[i].leafType.s, leaves[i].payloadHash.s);
    }
    hide GoodLeaf;
  }

  lemma DistinctTexts(h: HashFn, leaves: seq<Leaf>)
    requires Merkle.MerkleRoot(h, Sorting.MapSeq(HashBytes, leaves)).Ok?
    ensures Sorting.Distinct(Sorting.MapSeq(HashText, leaves))
  {
    var texts := Sorting.MapSeq(HashText, leaves);
    var bytes := Sorting.MapSeq(HashBytes, leaves);
    assert bytes == Sorting.MapSeq(Hex.FromHex, texts);
    Merkle.SortedLeavesMeaning(bytes);
    Sorting.DistinctByImage(Hex.FromHex, texts);
  }

  /** A computed root means distinct hashes, so sorted leaves ascend. */
  lemma RootMeansAscending(h: HashFn, entries: seq<Leaf>)
    requires forall i :: 0 <= i < |entries| ==> GoodLeaf(h, entries[i])
    requires Merkle.MerkleRoot(h, Sorting.MapSeq(HashBytes, Sorting.Sort(EntryLess, entries))).Ok?
    ensures GoodLeaves(h, Sorting.Sort(EntryLess, entries))
  {
    hide GoodLeaf, EntryLess, JsStrings.Less, Merkle.MerkleRoot;
    var leaves := Sorting.Sort(EntryLess, entries);
    SortedStaysGood(h, entries);
    DistinctTexts(h, leaves);
    HashTextsMap(leaves);
    SortedTexts(entries);
    JsStrings.IsStrictOrder();
    Sorting.SortSorts(JsStrings.Less, Sorting.MapSeq(HashText, entries));
    Sorting.DistinctSortedAscends(JsStrings.Less, Sorting.MapSeq(HashText, leaves));
  }

  /** What the caller of the builder vouches for. */
  predicate GoodInput(parses: Timestamps, input: BuildInput) {
    && input.tenantId != [] && input.projectId != [] && input.attestationId != [] && input.attemptId != []
    && input.userId != [] && input.deviceId != [] && input.profileId != []
    && CreatedWhen(input) != [] && parses(CreatedWhen(input))
    && input.sourceSummary.Counts? && IsCount(input.sourceSummary.first)
    && IsCount(input.sourceSummary.second) && IsCount(input.sourceSummary.third)
  }

  lemma VersionsNotEmpty()
    ensures PROTOCOL_VERSION != [] && HASH_ALGORITHM != []
  {
  }

  lemma TextsBuilt(parses: Timestamps, input: BuildInput, root: JsString)
    requires GoodInput(parses, input) && root != []
    ensures forall f :: f in REQUIRED ==> IsNonEmptyString(Text(Texts(input, root), f))
    ensures forall f :: f in VERSIONED ==> Text(Texts(input, root), f) == Str(ExpectedVersion(f))
    ensures Text(Texts(input, root), CreatedAt) == Str(CreatedWhen(input))
  {
    VersionsNotEmpty();
    hide PROTOCOL_VERSION, HASH_ALGORITHM, CreatedWhen;
  }

  lemma HeaderBuilt(parses: Timestamps, input: BuildInput, leaves: seq<Leaf>, root: Digest)
    requires GoodInput(parses, input)
    ensures GoodHeader(parses, Assemble(input, leaves, root))
  {
    hide CountOf, Texts, Text, Hex.ToHex, PROTOCOL_VERSION, HASH_ALGORITHM;
    Hex.ToHexShape(root);
    TextsBuilt(parses, input, Hex.ToHex(root));
  }

  lemma AssembledIsAccepted(h: HashFn, parses: Timestamps, input: BuildInput, leaves: seq<Leaf>, root: Digest)
    requires GoodInput(parses, input) && GoodLeaves(h, leaves) && leaves != [] && AllHashesHex(leaves)
    requires Merkle.MerkleRoot(h, LeafBytes(leaves)) == Ok(root)
    ensures Accepted(h, parses, Assemble(input, leaves, root))
  {
    hide GoodInput, GoodHeader, GoodTo, CountOf, Merkle.MerkleRoot;
    HeaderBuilt(parses, input, leaves, root);
    assert REQUIRED[14] == CreatedAt;
  }

  /** Every manifest that the builder returns for vouched-for input is accepted. */
  lemma BuiltIsAccepted(h: HashFn, parses: Timestamps, input: BuildInput)
    requires GoodInput(parses, input) && Built(h, input).Ok?
    ensures Accepted(h, parses, Built(h, input).value)
  {
    hide GoodInput, Accepted, Assemble, GoodTo, GoodLeaf, EntryLess, Merkle.MerkleRoot, Entries;
    var entries := Entries(h, input.leaves).value;
    var leaves := Sorting.Sort(EntryLess, entries);
    EntriesMeaning(h, input.leaves);
    EntriesNonEmpty(h, input.leaves);
    RootMeansAscending(h, entries);
    SortedStaysGood(h, entries);
    AssembledIsAccepted(h, parses, input, leaves, Merkle.MerkleRoot(h, LeafBytes(leaves)).value);
  }

  lemma EntriesNonEmpty(h: HashFn, ds: seq<Descriptor>)
    requires Entries(h, ds).Ok?
    ensures |Entries(h, ds).value| == |ds|
  {
  }

  // Rebuilding from the members of an accepted manifest.

  function TextOf(h: HashFn): Member -> JsString {
    (x: Member) => if Encodable(x) then Hex.ToHex(h(InputBytes(x))) else []
  }

  function TypeOf(member: Member): Json {
    Str(member.leafType)
  }

  function LeafTypeOf(leaf: Leaf): Json {
    if leaf.LeafObject? then leaf.leafType else Undefined
  }

  lemma GoodLeafByMember(h: HashFn, leaf: Leaf)
    requires GoodLeaf(h, leaf)
    ensures HashText(leaf) == TextOf(h)(MemberOfLeaf(leaf))
    ensures LeafTypeOf(leaf) == TypeOf(MemberOfLeaf(leaf))
  {
    hide InputBytes, RecomputedHash, Hex.ToHex;
    GoodLeafTyped(h, leaf);
  }

  /** Good leaves with the same members, in any order, have the same hashes and types, in some order. */
  lemma SameMembersSameTexts(h: HashFn, a: seq<Leaf>, b: seq<Leaf>)
    requires forall i :: 0 <= i < |a| ==> GoodLeaf(h, a[i])
    requires forall i :: 0 <= i < |b| ==> GoodLeaf(h, b[i])
    requires multiset(Sorting.MapSeq(MemberOfLeaf, a)) == multiset(Sorting.MapSeq(MemberOfLeaf, b))
    ensures multiset(Sorting.MapSeq(HashText, a)) == multiset(Sorting.MapSeq(HashText, b))
    ensures multiset(Sorting.MapSeq(LeafTypeOf, a)) == multiset(Sorting.MapSeq(LeafTypeOf, b))
  {
    TextsByMembers(h, a);
    TextsByMembers(h, b);
    hide *;
    Sorting.MapPermuted(TextOf(h), Sorting.MapSeq(MemberOfLeaf, a), Sorting.MapSeq(MemberOfLeaf, b));
    Sorting.MapPermuted(TypeOf, Sorting.MapSeq(MemberOfLeaf, a), Sorting.MapSeq(MemberOfLeaf, b));
  }

  lemma TextsByMembers(h: HashFn, a: seq<Leaf>)
    requires forall i :: 0 <= i < |a| ==> GoodLeaf(h, a[i])
    ensures Sorting.MapSeq(HashText, a) == Sorting.MapSeq(TextOf(h), Sorting.MapSeq(MemberOfLeaf, a))
    ensures Sorting.MapSeq(LeafTypeOf, a) == Sorting.MapSeq(TypeOf, Sorting.MapSeq(MemberOfLeaf, a))
  {
    hide GoodLeaf, HashText, LeafTypeOf, MemberOfLeaf, TextOf;
    forall i | 0 <= i < |a|
      ensures HashText(a[i]) == TextOf(h)(MemberOfLeaf(a[i])) && LeafTypeOf(a[i]) == TypeOf(MemberOfLeaf(a[i]))
    {
      GoodLeafByMember(h, a[i]);
    }
  }

  lemma {:induction false} CountIsMultiplicity(leaves: seq<Leaf>, leafType: JsString, n: nat)
    requires n <= |leaves|
    ensures CountTo(leaves, leafType, n) == multiset(Sorting.MapSeq(LeafTypeOf, leaves[..n]))[Str(leafType)]
  {
    if n == 0 {
      assert Sorting.MapSeq(LeafTypeOf, leaves[..0]) == [];
    } else {
      CountIsMultiplicity(leaves, leafType, n - 1);
      var types := Sorting.MapSeq(LeafTypeOf, leaves[..n]);
      assert types == Sorting.MapSeq(LeafTypeOf, leaves[..n - 1]) + [LeafTypeOf(leaves[n - 1])];
    }
  }

  lemma SameTypesSameCounts(a: seq<Leaf>, b: seq<Leaf>, leafType: JsString)
    requires multiset(Sorting.MapSeq(LeafTypeOf, a)) == multiset(Sorting.MapSeq(LeafTypeOf, b))
    ensures CountOf(a, leafType) == CountOf(b, leafType)
  {
    CountIsMultiplicity(a, leafType, |a|);
    CountIsMultiplicity(b, leafType, |b|);
    assert a[..|a|] == a && b[..|b|] == b;
  }

  lemma TextsDetermineBytes(a: seq<Leaf>, b: seq<Leaf>)
    requires Sorting.MapSeq(HashText, a) == Sorting.MapSeq(HashText, b)
    ensures Sorting.MapSeq(HashBytes, a) == Sorting.MapSeq(HashBytes, b)
  {
    assert Sorting.MapSeq(HashBytes, a) == Sorting.MapSeq(Hex.FromHex, Sorting.MapSeq(HashText, a));
    assert Sorting.MapSeq(HashBytes, b) == Sorting.MapSeq(Hex.FromHex, Sorting.MapSeq(HashText, b));
  }

  /** Sorting good entries with the members of good leaves gives back the hashes of those leaves, in order. */
  lemma SortedEntriesMatch(h: HashFn, entries: seq<Leaf>, leaves: seq<Leaf>)
    requires forall i :: 0 <= i < |entries| ==> GoodLeaf(h, entries[i])
    requires forall i :: 0 <= i < |leaves| ==> GoodLeaf(h, leaves[i])
    requires Sorting.Ascending(JsStrings.Less, Sorting.MapSeq(HashText, leaves))
    requires multiset(Sorting.MapSeq(MemberOfLeaf, entries)) == multiset(Sorting.MapSeq(MemberOfLeaf, leaves))
    ensures Sorting.MapSeq(HashText, Sorting.Sort(EntryLess, entries)) == Sorting.MapSeq(HashText, leaves)
  {
    hide *;
    var texts, given := Sorting.MapSeq(HashText, leaves), Sorting.MapSeq(HashText, entries);
    SameMembersSameTexts(h, entries, leaves);
    SortedTexts(entries);
    JsStrings.IsStrictOrder();
    Sorting.AscendingIsSorted(JsStrings.Less, texts);
    Sorting.SortSorts(JsStrings.Less, given);
    Sorting.SortKeeps(JsStrings.Less, given);
    Sorting.SortedUnique(JsStrings.Less, texts, Sorting.Sort(JsStrings.Less, given));
  }

  lemma SortedEntriesCount(h: HashFn, entries: seq<Leaf>, leaves: seq<Leaf>, leafType: JsString)
    requires forall i :: 0 <= i < |entries| ==> GoodLeaf(h, entries[i])
    requires forall i :: 0 <= i < |leaves| ==> GoodLeaf(h, leaves[i])
    requires multiset(Sorting.MapSeq(MemberOfLeaf, entries)) == multiset(Sorting.MapSeq(MemberOfLeaf, leaves))
    ensures CountOf(Sorting.Sort(EntryLess, entries), leafType) == CountOf(leaves, leafType)
  {
    hide *;
    var sorted := Sorting.Sort(EntryLess, entries);
    Sorting.SortKeeps(EntryLess, entries);
    Sorting.MapPermuted(MemberOfLeaf, sorted, entries);
    SortedStaysGood(h, entries);
    SameMembersSameTexts(h, sorted, leaves);
    SameTypesSameCounts(sorted, leaves, leafType);
  }

  lemma MembersEncodable(h: HashFn, ds: seq<Descriptor>, leaves: seq<Leaf>)
    requires forall i :: 0 <= i < |leaves| ==> GoodLeaf(h, leaves[i])
    requires multiset(Sorting.MapSeq(MemberOfDescriptor, ds)) == multiset(Sorting.MapSeq(MemberOfLeaf, leaves))
    ensures |ds| == |leaves| && forall i :: 0 <= i < |ds| ==> Encodable(MemberOfDescriptor(ds[i]))
  {
    hide Encodable;
    var a, b := Sorting.MapSeq(MemberOfDescriptor, ds), Sorting.MapSeq(MemberOfLeaf, leaves);
    Sorting.SameElements(a, b);
    forall i | 0 <= i < |ds| ensures Encodable(MemberOfDescriptor(ds[i])) {
      assert a[i] in b;
      var j :| 0 <= j < |b| && b[j] == a[i];
      LeafEncodable(h, leaves[j]);
    }
  }

  lemma LeafEncodable(h: HashFn, leaf: Leaf)
    requires GoodLeaf(h, leaf)
    ensures Encodable(MemberOfLeaf(leaf))
  {
    hide RecomputedHash, Hex.ToHex, Hex.FromHex, KnownType, IsHexText, MemberOf, Encodable, GoodLeaf;
    GoodLeafTyped(h, leaf);
    assert Encodable(Encoded(leaf));
  }

  lemma GoodLeavesUnfold(h: HashFn, leaves: seq<Leaf>)
    requires GoodLeaves(h, leaves)
    ensures forall i :: 0 <= i < |leaves| ==> GoodLeaf(h, leaves[i])
    ensures Sorting.Ascending(JsStrings.Less, Sorting.MapSeq(HashText, leaves))
  {
    hide GoodLeaf, JsStrings.Less;
    HashTextsMap(leaves);
  }

  /** What sorting and hashing make of descriptors with the members of good leaves. */
  lemma RebuiltLeaves(h: HashFn, ds: seq<Descriptor>, leaves: seq<Leaf>)
    requires GoodLeaves(h, leaves)
    requires multiset(Sorting.MapSeq(MemberOfDescriptor, ds)) == multiset(Sorting.MapSeq(MemberOfLeaf, leaves))
    ensures Entries(h, ds).Ok? && |ds| == |leaves|
    ensures AllHashesHex(leaves)
    ensures var sorted := Sorting.Sort(EntryLess, Entries(h, ds).value);
            && Sorting.MapSeq(HashText, sorted) == Sorting.MapSeq(HashText, leaves)
            && Sorting.MapSeq(HashBytes, sorted) == LeafBytes(leaves)
            && CountOf(sorted, FILE_LEAF) == CountOf(leaves, FILE_LEAF)
            && CountOf(sorted, SHINGLE_LEAF) == CountOf(leaves, SHINGLE_LEAF)
            && CountOf(sorted, COMPONENT_LEAF) == CountOf(leaves, COMPONENT_LEAF)
  {
    hide *;
    GoodLeavesUnfold(h, leaves);
    MembersEncodable(h, ds, leaves);
    EntriesMeaning(h, ds);
    var entries := Entries(h, ds).value;
    var sorted := Sorting.Sort(EntryLess, entries);
    SortedEntriesMatch(h, entries, leaves);
    TextsDetermineBytes(sorted, leaves);
    AllGoodHex(h, leaves);
    SortedEntriesCount(h, entries, leaves, FILE_LEAF);
    SortedEntriesCount(h, entries, leaves, SHINGLE_LEAF);
    SortedEntriesCount(h, entries, leaves, COMPONENT_LEAF);
  }

  predicate EqualCount(built: Json, declared: Json) {
    built.Num? && built.number.Integer? && built.number.n >= 0 && EqualsNumber(declared, built.number.n)
  }

  predicate EqualCounts(built: Counts, declared: Counts) {
    && built.Counts? && declared.Counts?
    && EqualCount(built.first, declared.first)
    && EqualCount(built.second, declared.second)
    && EqualCount(built.third, declared.third)
  }

  /** The members of an accepted manifest, in any order, rebuild its hashes, counts and root. */
  lemma RebuildReproduces(h: HashFn, parses: Timestamps, m: Value, input: BuildInput)
    requires Accepted(h, parses, m)
    requires multiset(Sorting.MapSeq(MemberOfDescriptor, input.leaves)) ==
             multiset(Sorting.MapSeq(MemberOfLeaf, m.leafSet.leaves))
    ensures Built(h, input).Ok? && Built(h, input).value.Object? && Built(h, input).value.leafSet.LeafSet?
    ensures Sorting.MapSeq(HashText, Built(h, input).value.leafSet.leaves) == Sorting.MapSeq(HashText, m.leafSet.leaves)
    ensures RootText(Built(h, input).value) == RootText(m)
    ensures EqualCounts(Built(h, input).value.leafCounts, m.leafCounts)
  {
    hide GoodHeader, GoodTo, GoodSignature, Merkle.MerkleRoot, Entries, EntryLess, CountOf, HashText, HashBytes;
    RebuiltLeaves(h, input.leaves, m.leafSet.leaves);
  }

  // What a built manifest says, part by part.

  /** The text for a field that may be left out. */
  function GivenOrNull(text: Option<JsString>): Json {
    match text case None => Null case Some(s) => Str(s)
  }

  function GivenOrEmpty(fields: Option<seq<Field>>): Json {
    match fields case None => Obj([]) case Some(f) => Obj(f)
  }

  /** Each text of a built manifest is the version, the algorithm, or what was given for it. */
  lemma BuiltTexts(h: HashFn, input: BuildInput, field: TextField)
    requires Built(h, input).Ok?
    ensures Built(h, input).value.Object? && field in Built(h, input).value.texts
    ensures Built(h, input).value.texts[field] ==
            match field
            case HashAlgorithm => Str(Lit("sha256"))
            case TenantId => Str(input.tenantId)
            case ProjectId => Str(input.projectId)
            case AttestationId => Str(input.attestationId)
            case AttemptId => Str(input.attemptId)
            case CreatedByUserId => Str(input.userId)
            case CreatedByDeviceId => Str(input.deviceId)
            case CreatedByProfileId => Str(input.profileId)
            case TemplateId => GivenOrNull(input.templateId)
            case ShinglingVersion => GivenOrNull(input.shinglingVersion)
            case OcrExtractionVersion => GivenOrNull(input.ocrExtractionVersion)
            case CreatedAt => Str(match input.createdAt case None => input.now case Some(when) => when)
            case MerkleRoot => RootText(Built(h, input).value)
            case _ => Str(Lit("1.0"))
  {
    NamesAre([]);
    hide Entries, Merkle.MerkleRoot, CountOf, PROTOCOL_VERSION, HASH_ALGORITHM, Lit, EntryLess, HashBytes;
  }

  /** The other parts: what was given, or nothing, and no signatures yet. */
  lemma BuiltParts(h: HashFn, input: BuildInput)
    requires Built(h, input).Ok?
    ensures var m := Built(h, input).value;
            && m.Object? && m.sourceSummary == input.sourceSummary
            && m.policyContext == GivenOrEmpty(input.policyContext)
            && m.extractionMetadata == GivenOrEmpty(input.extractionMetadata)
            && m.signatures == Signatures([]) && m.leafSet.LeafSet?
            && m.leafCounts == Counts(Num(Integer(CountOf(m.leafSet.leaves, Lit("file/sha256/v1")))),
                                      Num(Integer(CountOf(m.leafSet.leaves, Lit("shingle/sha256/v1")))),
                                      Num(Integer(CountOf(m.leafSet.leaves, Lit("component/sha256/v1")))))
  {
    LeafNamesAre();
    hide Entries, Merkle.MerkleRoot, CountOf, Texts, FILE_LEAF, SHINGLE_LEAF, COMPONENT_LEAF;
  }

  lemma LeafNamesAre()
    ensures FILE_LEAF == Lit("file/sha256/v1") && SHINGLE_LEAF == Lit("shingle/sha256/v1")
    ensures COMPONENT_LEAF == Lit("component/sha256/v1")
  {
  }

  /** The entry of a descriptor. */
  predicate IsEntry(h: HashFn, d: Descriptor, leaf: Leaf) {
    var input := LeafInput(Lit("1.0"), d.leafType, Lit("sha256"), d.payloadHash);
    && leaf.LeafObject? && leaf.leafType == Str(d.leafType) && leaf.payloadHash == Str(Hex.ToHex(d.payloadHash))
    && leaf.metadata == GivenOrEmpty(d.metadata)
    && LeafHashInput(input).Ok? && leaf.leafHash == Str(Hex.ToHex(h(LeafHashInput(input).value)))
  }

  lemma EntryIs(h: HashFn, d: Descriptor)
    requires EntryOf(h, d).Ok?
    ensures IsEntry(h, d, EntryOf(h, d).value)
  {
    NamesAre([]);
    hide LeafHashInput, Hex.ToHex, PROTOCOL_VERSION, HASH_ALGORITHM, Lit;
  }

  lemma {:induction false} EntriesAre(h: HashFn, ds: seq<Descriptor>)
    requires Entries(h, ds).Ok?
    ensures |Entries(h, ds).value| == |ds|
    ensures forall i :: 0 <= i < |ds| ==> IsEntry(h, ds[i], Entries(h, ds).value[i])
  {
    hide EntryOf, IsEntry;
    if ds != [] {
      EntryIs(h, ds[0]);
      EntriesAre(h, ds[1..]);
      assert ds == [ds[0]] + ds[1..];
    }
  }

  /** The leaves are the entries of the descriptors, sorted by hash. */
  lemma BuiltLeaves(h: HashFn, input: BuildInput) returns (entries: seq<Leaf>)
    requires Built(h, input).Ok?
    ensures |entries| == |input.leaves| && forall i :: 0 <= i < |entries| ==> IsEntry(h, input.leaves[i], entries[i])
    ensures Built(h, input).value.Object? && Built(h, input).value.leafSet.LeafSet?
    ensures multiset(Built(h, input).value.leafSet.leaves) == multiset(entries)
  {
    hide Entries, Merkle.MerkleRoot, CountOf, Texts, IsEntry;
    EntriesAre(h, input.leaves);
    entries := Entries(h, input.leaves).value;
    Sorting.SortKeeps(EntryLess, entries);
  }

  /** Why nothing is built: no leaves, the first leaf that cannot be hashed, or what the tree refuses. */
  lemma RefusedExactly(h: HashFn, input: BuildInput, i: nat, e: LeafError)
    ensures Built(h, input) == Err(NoLeaves) <==> input.leaves == []
    ensures i < |input.leaves| && EntryOf(h, input.leaves[i]) == Err(e)
            && (forall j :: 0 <= j < i ==> EntryOf(h, input.leaves[j]).Ok?) ==>
              Built(h, input) == Err(LeafFailed(e))
  {
    hide EntryOf, Merkle.MerkleRoot, Assemble;
    if i < |input.leaves| && EntryOf(h, input.leaves[i]) == Err(e)
       && (forall j :: 0 <= j < i ==> EntryOf(h, input.leaves[j]).Ok?) {
      FirstRefused(h, input.leaves, i, e);
    }
  }

  lemma {:induction false} FirstRefused(h: HashFn, ds: seq<Descriptor>, i: nat, e: LeafError)
    requires i < |ds| && EntryOf(h, ds[i]) == Err(e) && forall j :: 0 <= j < i ==> EntryOf(h, ds[j]).Ok?
    ensures Entries(h, ds) == Err(e)
    decreases |ds|
  {
    hide EntryOf;
    if i > 0 {
      FirstRefused(h, ds[1..], i - 1, e);
    }
  }
}
