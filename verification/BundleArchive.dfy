/** Bundles written as ZIP and tar archives: what a reader finds is what the exporter stored. */
module BundleArchive {
  import opened Bytes
  import opened Base64
  import opened BundlePaths
  import opened EvidenceRefs
  import opened EvidenceBundle
  import opened Texts
  import Normalizer
  import Zip
  import ZipReader
  import Tar
  import TarReader

  /** The JSON texts that are written beside the artifacts. */
  datatype Documents = Documents(bundle: Bytes, manifest: Bytes, missing: Bytes)

  datatype Item = Item(path: string, bytes: Bytes)

  datatype ArchiveError = Invalid(error: BundleError) | DuplicatePath(path: string)

  const BUNDLE_JSON := "bundle.json"
  const MANIFEST_JSON := "manifest.json"
  const MISSING_JSON := "missing-artifacts.json"

  function ByteOf(o: Octet): byte {
    o as int
  }

  function AsBytes(octets: Octets): (r: Bytes)
    ensures |r| == |octets| && forall i :: 0 <= i < |r| ==> r[i] == ByteOf(octets[i])
  {
    if octets == [] then [] else [ByteOf(octets[0])] + AsBytes(octets[1..])
  }

  function ItemOf(a: Artifact): Item
    requires ArtifactFault(a).None?
  {
    Item(SafePath(a.path).value, AsBytes(Decoded(a.bodyBase64).value))
  }

  predicate AllValid(artifacts: seq<Artifact>) {
    forall i :: 0 <= i < |artifacts| ==> ArtifactFault(artifacts[i]).None?
  }

  function ArtifactItems(artifacts: seq<Artifact>): (r: seq<Item>)
    requires AllValid(artifacts)
    ensures |r| == |artifacts| && forall i :: 0 <= i < |r| ==> r[i] == ItemOf(artifacts[i])
  {
    if artifacts == [] then [] else [ItemOf(artifacts[0])] + ArtifactItems(artifacts[1..])
  }

  /** What is pushed, in order. */
  function ItemsOf(bundle: Bundle, documents: Documents): seq<Item>
    requires AllValid(bundle.artifacts)
  {
    [Item(BUNDLE_JSON, documents.bundle), Item(MANIFEST_JSON, documents.manifest)]
    + ArtifactItems(bundle.artifacts)
    + if bundle.missing == [] then [] else [Item(MISSING_JSON, documents.missing)]
  }

  function EntryOf(item: Item): Zip.Entry {
    Zip.Entry(TextBytes(item.path), item.bytes)
  }

  predicate IsTaken(items: seq<Item>, n: nat, path: string)
    requires n <= |items|
  {
    exists j :: 0 <= j < n && items[j].path == path
  }

  /** The entries of the first n items, or the first path that is there already. */
  function Pushed(items: seq<Item>, n: nat): Result<seq<Zip.Entry>, ArchiveError>
    requires n <= |items|
  {
    if n == 0 then Ok([])
    else
      match Pushed(items, n - 1)
      case Err(e) => Err(e)
      case Ok(entries) =>
        if IsTaken(items, n - 1, items[n - 1].path) then Err(DuplicatePath(items[n - 1].path))
        else Ok(entries + [EntryOf(items[n - 1])])
  }

  function EntriesOf(bundle: Bundle, documents: Documents): Result<seq<Zip.Entry>, ArchiveError> {
    match Verdict(bundle)
    case Some(e) => Err(Invalid(e))
    case None =>
      ValidArtifacts(bundle);
      Pushed(ItemsOf(bundle, documents), |ItemsOf(bundle, documents)|)
  }

  lemma ValidArtifacts(bundle: Bundle)
    requires Verdict(bundle).None?
    ensures AllValid(bundle.artifacts)
  {
    hide ArtifactFault;
    NoFaultMeans(bundle.artifacts, |bundle.artifacts|);
  }

  lemma {:induction false} FailureIsFinal(items: seq<Item>, n: nat, m: nat)
    requires n <= m <= |items| && Pushed(items, n).Err?
    ensures Pushed(items, m) == Pushed(items, n)
    decreases m
  {
    hide EntryOf, IsTaken;
    if n < m {
      FailureIsFinal(items, n, m - 1);
    }
  }

  /** One more entry, unless its path is taken. */
  method PushZipEntry(ghost items: seq<Item>, ghost n: nat, entries: seq<Zip.Entry>, paths: set<string>, item: Item)
    returns (r: Result<seq<Zip.Entry>, ArchiveError>, paths': set<string>)
    requires n < |items| && items[n] == item && Pushed(items, n) == Ok(entries)
    requires forall path :: path in paths <==> IsTaken(items, n, path)
    ensures r == Pushed(items, n + 1)
    ensures forall path :: path in paths' <==> IsTaken(items, n + 1, path)
  {
    hide EntryOf;
    paths' := paths + {item.path};
    if item.path in paths {
      r := Err(DuplicatePath(item.path));
    } else {
      r := Ok(entries + [EntryOf(item)]);
    }
  }

  /** The bundle is checked, and then its documents and artifacts are pushed one after another. */
  method EvidenceBundleZipEntries(bundle: Bundle, documents: Documents) returns (r: Result<seq<Zip.Entry>, ArchiveError>)
    ensures r == EntriesOf(bundle, documents)
  {
    hide Verdict, ArtifactFault, ItemOf, Pushed, BUNDLE_JSON, MANIFEST_JSON, MISSING_JSON;
    var fault := ValidateEvidenceBundle(bundle);
    if fault.Some? {
      return Err(Invalid(fault.value));
    }
    ValidArtifacts(bundle);
    var n := |bundle.artifacts|;
    ghost var items := ItemsOf(bundle, documents);
    NothingPushed(items);
    var paths: set<string> := {};
    r, paths := PushZipEntry(items, 0, [], paths, Item(BUNDLE_JSON, documents.bundle));
    if r.Err? {
      FailureIsFinal(items, 1, |items|);
      return;
    }
    r, paths := PushZipEntry(items, 1, r.value, paths, Item(MANIFEST_JSON, documents.manifest));
    if r.Err? {
      FailureIsFinal(items, 2, |items|);
      return;
    }
    for i := 0 to n
      invariant r.Ok? && r == Pushed(items, i + 2)
      invariant forall path :: path in paths <==> IsTaken(items, i + 2, path)
    {
      var a := bundle.artifacts[i];
      r, paths := PushZipEntry(items, i + 2, r.value, paths, ItemOf(a));
      if r.Err? {
        FailureIsFinal(items, i + 3, |items|);
        return;
      }
    }
    if bundle.missing != [] {
      r, paths := PushZipEntry(items, n + 2, r.value, paths, Item(MISSING_JSON, documents.missing));
    }
  }

  lemma NothingPushed(items: seq<Item>)
    ensures Pushed(items, 0) == Ok([]) && forall path :: !IsTaken(items, 0, path)
  {
  }

  predicate DistinctPaths(items: seq<Item>, n: nat)
    requires n <= |items|
  {
    forall j, k :: 0 <= j < k < n ==> items[j].path != items[k].path
  }

  lemma DistinctNext(items: seq<Item>, n: nat)
    requires n < |items|
    ensures DistinctPaths(items, n + 1) <==> DistinctPaths(items, n) && !IsTaken(items, n, items[n].path)
  {
  }

  function EntriesTo(items: seq<Item>, n: nat): (r: seq<Zip.Entry>)
    requires n <= |items|
    ensures |r| == n && forall k :: 0 <= k < n ==> r[k] == EntryOf(items[k])
  {
    if n == 0 then [] else EntriesTo(items, n - 1) + [EntryOf(items[n - 1])]
  }

  /** Items are pushed exactly when no path comes twice; the entries are theirs, in order. */
  lemma {:induction false} PushedExactly(items: seq<Item>, n: nat)
    requires n <= |items|
    ensures Pushed(items, n).Ok? <==> DistinctPaths(items, n)
    ensures Pushed(items, n).Ok? ==> Pushed(items, n) == Ok(EntriesTo(items, n))
  {
    if n > 0 {
      hide EntryOf, DistinctPaths, IsTaken;
      PushedExactly(items, n - 1);
      DistinctNext(items, n - 1);
    }
  }

  // Paths in archives.

  predicate HasNul(path: string) {
    '\0' in path
  }

  lemma BytesOfPath(path: string)
    ensures TarReader.HasNul(TextBytes(path)) <==> HasNul(path)
    ensures path != "" && path[0] != SLASH ==> !TarReader.OnlyRootSplit(TextBytes(path))
  {
    TextBytesHas(path, '\0');
    TextBytesHas(path, SLASH);
    hide TextBytes;
    assert Tar.SLASH == SLASH as int;
    assert TarReader.HasNul(TextBytes(path)) <==> 0 in TextBytes(path);
  }

  lemma FixedNames()
    ensures !HasNul(BUNDLE_JSON) && !HasNul(MANIFEST_JSON) && !HasNul(MISSING_JSON)
    ensures SLASH !in BUNDLE_JSON && SLASH !in MANIFEST_JSON && SLASH !in MISSING_JSON
    ensures BUNDLE_JSON != MANIFEST_JSON && BUNDLE_JSON != MISSING_JSON && MANIFEST_JSON != MISSING_JSON
    ensures BUNDLE_JSON != "" && MANIFEST_JSON != "" && MISSING_JSON != ""
  {
    assert |BUNDLE_JSON| == 11 && |MANIFEST_JSON| == 13 && |MISSING_JSON| == 22;
  }

  lemma FixedNamesAreAscii()
    ensures IsAsciiText(BUNDLE_JSON) && IsAsciiText(MANIFEST_JSON) && IsAsciiText(MISSING_JSON)
  {
  }

  /** No pushed path is empty or starts with a slash; one has a NUL only if it is an artifact's. */
  lemma ItemPaths(bundle: Bundle, documents: Documents, k: nat)
    requires AllValid(bundle.artifacts) && k < |ItemsOf(bundle, documents)|
    ensures var items, n := ItemsOf(bundle, documents), |bundle.artifacts|;
            && items[k].path != "" && items[k].path[0] != SLASH
            && (2 <= k < n + 2 ==> items[k] == ItemOf(bundle.artifacts[k - 2]))
            && (!(2 <= k < n + 2) ==> !HasNul(items[k].path) && SLASH !in items[k].path && IsAsciiText(items[k].path))
  {
    FixedNames();
    FixedNamesAreAscii();
    hide ArtifactFault, SafePath, IsAsciiText, BUNDLE_JSON, MANIFEST_JSON, MISSING_JSON;
    var n := |bundle.artifacts|;
    if 2 <= k < n + 2 {
      var a := bundle.artifacts[k - 2];
      assert ArtifactFault(a).None?;
      ValidPath(a);
      SafePathIsStable(a.path);
    }
  }

  lemma ValidPath(a: Artifact)
    requires ArtifactFault(a).None?
    ensures SafePath(a.path).Ok? && Decoded(a.bodyBase64).Ok?
  {
    hide SafePath, Decoded;
  }

  predicate ArtifactHasNul(a: Artifact) {
    SafePath(a.path).Ok? && HasNul(SafePath(a.path).value)
  }

  /** A tar of a checked bundle reads back exactly when no artifact path has a NUL; a ZIP always does. */
  lemma ArchivesReadBack(bundle: Bundle, documents: Documents)
    requires EntriesOf(bundle, documents).Ok?
    ensures var entries := EntriesOf(bundle, documents).value;
            Zip.Verdict(entries).None? ==> ZipReader.ReadArchive(Zip.Archive(entries)) == Some(entries)
    ensures var entries := EntriesOf(bundle, documents).value;
            Tar.Archive(entries).Ok? ==>
              (TarReader.ReadMembers(Tar.Archive(entries).value, 0) == Some(entries) <==>
               forall i :: 0 <= i < |bundle.artifacts| ==> !ArtifactHasNul(bundle.artifacts[i]))
  {
    hide Zip.Archive, Zip.Verdict, Zip.Fits, ZipReader.ReadArchive, Tar.Archive, TarReader.ReadMembers, Verdict, SafePath,
      ArtifactFault, ItemsOf, TarReader.HasNul, TarReader.OnlyRootSplit, EntryOf, HasNul, Pushed;
    ValidArtifacts(bundle);
    var items := ItemsOf(bundle, documents);
    PushedExactly(items, |items|);
    var entries := EntriesOf(bundle, documents).value;
    if Zip.Verdict(entries).None? {
      ZipReader.SucceedsExactly(entries);
      ZipReader.RoundTrip(entries);
    }
    if Tar.Archive(entries).Ok? {
      TarReader.RoundTrip(entries);
      NulsAreInArtifacts(bundle, documents, entries);
    }
  }

  lemma NulsAreInArtifacts(bundle: Bundle, documents: Documents, entries: seq<Zip.Entry>)
    requires AllValid(bundle.artifacts) && |entries| == |ItemsOf(bundle, documents)|
    requires forall k :: 0 <= k < |entries| ==> entries[k] == EntryOf(ItemsOf(bundle, documents)[k])
    ensures (forall k :: 0 <= k < |entries| ==>
               !TarReader.HasNul(entries[k].path) && !TarReader.OnlyRootSplit(entries[k].path))
            <==> (forall i :: 0 <= i < |bundle.artifacts| ==> !ArtifactHasNul(bundle.artifacts[i]))
  {
    hide ArtifactFault, SafePath, HasNul, TarReader.HasNul, TarReader.OnlyRootSplit, TextBytes;
    var items, n := ItemsOf(bundle, documents), |bundle.artifacts|;
    forall k | 0 <= k < |items|
      ensures !TarReader.OnlyRootSplit(entries[k].path)
      ensures TarReader.HasNul(entries[k].path) <==> 2 <= k < n + 2 && ArtifactHasNul(bundle.artifacts[k - 2])
    {
      ItemPaths(bundle, documents, k);
      BytesOfPath(items[k].path);
      if 2 <= k < n + 2 {
        ValidPath(bundle.artifacts[k - 2]);
      }
    }
    forall i | 0 <= i < n
      ensures ArtifactHasNul(bundle.artifacts[i]) <==> TarReader.HasNul(entries[i + 2].path)
    {
    }
  }

  // Bundles that the exporter builds.

  function BundleOf(e: Evidence, store: Store): Bundle {
    Built(Refs(e), store)
  }

  /** A built artifact holds the bytes stored for a reference, under a path of plain names. */
  lemma BuiltArtifact(e: Evidence, store: Store, a: Artifact)
    requires a in BundleOf(e, store).artifacts
    ensures exists r :: r in Refs(e) && store(r.objectKey).Some? && a == ArtifactOf(r, store(r.objectKey).value)
    ensures Tidy(a.path) && Decoded(a.bodyBase64).Ok?
  {
    hide Refs, Tidy, ArtifactFault, PathFault, Artifacts, MissingRefs, DedupeKey;
    ArtifactsFrom(Refs(e), store, |Refs(e)|, a);
    var k :| 0 <= k < |Refs(e)| && Stored(Refs(e), store, k)
             && a == ArtifactOf(Refs(e)[k], store(Refs(e)[k].objectKey).GetOr([]));
    var r := Refs(e)[k];
    assert r in Refs(e) && store(r.objectKey).Some? && a == ArtifactOf(r, store(r.objectKey).value);
    ArtifactDecodes(r, store(r.objectKey).value);
    RefsStand(e, r);
  }

  lemma TidyPath(path: string)
    requires Tidy(path) && SafePath(path).Ok?
    ensures SLASH in SafePath(path).value && !HasNul(SafePath(path).value) && IsAsciiText(SafePath(path).value)
  {
    SafePathIsStable(path);
    hide SafePath;
    NoNul(path);
    var safe := SafePath(path).value;
    forall i | 0 <= i < |safe| ensures safe[i] < '\U{0080}' {
      assert safe[i] in safe;
    }
  }

  /** The paths of two artifacts come to the same. */
  predicate SamePath(a: Artifact, b: Artifact) {
    SafePath(a.path).Ok? && SafePath(a.path) == SafePath(b.path)
  }

  lemma BuiltItem(e: Evidence, store: Store, documents: Documents, k: nat)
    requires AllValid(BundleOf(e, store).artifacts) && k < |ItemsOf(BundleOf(e, store), documents)|
    ensures var artifacts, items := BundleOf(e, store).artifacts, ItemsOf(BundleOf(e, store), documents);
            if 2 <= k < |artifacts| + 2 then
              && SafePath(artifacts[k - 2].path) == Ok(items[k].path) && SLASH in items[k].path && !HasNul(items[k].path)
            else SLASH !in items[k].path
    ensures IsAsciiText(ItemsOf(BundleOf(e, store), documents)[k].path)
  {
    hide BundleOf, ArtifactFault, SafePath, HasNul, ItemsOf, IsAsciiText;
    var artifacts := BundleOf(e, store).artifacts;
    ItemPaths(BundleOf(e, store), documents, k);
    if 2 <= k < |artifacts| + 2 {
      var a := artifacts[k - 2];
      assert a in artifacts && ArtifactFault(a).None?;
      ValidPath(a);
      BuiltArtifact(e, store, a);
      TidyPath(a.path);
    }
  }

  lemma FixedItems(bundle: Bundle, documents: Documents, j: nat, k: nat)
    requires AllValid(bundle.artifacts) && j < k < |ItemsOf(bundle, documents)|
    requires !(2 <= j < |bundle.artifacts| + 2) && !(2 <= k < |bundle.artifacts| + 2)
    ensures ItemsOf(bundle, documents)[j].path != ItemsOf(bundle, documents)[k].path
  {
    FixedNames();
    hide ArtifactFault, BUNDLE_JSON, MANIFEST_JSON, MISSING_JSON;
  }

  /**
    A built bundle can be archived exactly when no row with the id ".." has a stored artifact and no two
    artifacts have the same path: the documents' own names are never taken.
    */
  lemma ArchivedExactly(e: Evidence, store: Store, documents: Documents)
    ensures var artifacts := BundleOf(e, store).artifacts;
            EntriesOf(BundleOf(e, store), documents).Ok? <==>
              && (forall row, a :: row in AllRows(e) ==> !IsRefused(row, a, store))
              && (forall i, j :: 0 <= i < j < |artifacts| ==> !SamePath(artifacts[i], artifacts[j]))
  {
    hide Verdict, Refs, AllRows, IsRefused, Artifacts, MissingRefs, ArtifactFault, SafePath, ItemsOf, Pushed, HasNul, EntryOf;
    EvidencePasses(e, store);
    var bundle := BundleOf(e, store);
    if Verdict(bundle).None? {
      ValidArtifacts(bundle);
      var items, artifacts := ItemsOf(bundle, documents), bundle.artifacts;
      PushedExactly(items, |items|);
      DistinctItems(e, store, documents);
    }
  }

  lemma PairOfItems(e: Evidence, store: Store, documents: Documents, j: nat, k: nat)
    requires AllValid(BundleOf(e, store).artifacts) && j < k < |ItemsOf(BundleOf(e, store), documents)|
    ensures var artifacts, items := BundleOf(e, store).artifacts, ItemsOf(BundleOf(e, store), documents);
            items[j].path == items[k].path <==>
            2 <= j && k < |artifacts| + 2 && SamePath(artifacts[j - 2], artifacts[k - 2])
  {
    hide BundleOf, AllValid, SafePath, HasNul, ItemsOf;
    var n := |BundleOf(e, store).artifacts|;
    BuiltItem(e, store, documents, j);
    BuiltItem(e, store, documents, k);
    if !(2 <= j < n + 2) && !(2 <= k < n + 2) {
      FixedItems(BundleOf(e, store), documents, j, k);
    }
  }

  lemma DistinctItems(e: Evidence, store: Store, documents: Documents)
    requires AllValid(BundleOf(e, store).artifacts)
    ensures var artifacts, items := BundleOf(e, store).artifacts, ItemsOf(BundleOf(e, store), documents);
            (forall j, k :: 0 <= j < k < |items| ==> items[j].path != items[k].path) <==>
            (forall i, j :: 0 <= i < j < |artifacts| ==> !SamePath(artifacts[i], artifacts[j]))
  {
    hide BundleOf, AllValid, SamePath, ItemsOf;
    var bundle := BundleOf(e, store);
    var items, n := ItemsOf(bundle, documents), |bundle.artifacts|;
    ItemCount(bundle, documents);
    forall j, k | 0 <= j < k < |items|
      ensures items[j].path == items[k].path <==>
              2 <= j && k < n + 2 && SamePath(bundle.artifacts[j - 2], bundle.artifacts[k - 2])
    {
      PairOfItems(e, store, documents, j, k);
    }
    forall i, j | 0 <= i < j < n
      ensures SamePath(bundle.artifacts[i], bundle.artifacts[j]) <==> items[i + 2].path == items[j + 2].path
    {
    }
  }

  lemma ItemCount(bundle: Bundle, documents: Documents)
    requires AllValid(bundle.artifacts)
    ensures |bundle.artifacts| + 2 <= |ItemsOf(bundle, documents)| <= |bundle.artifacts| + 3
  {
  }

  /** The entry that a reference gets in an archive. */
  function EntryFor(r: Ref, bytes: Octets): Zip.Entry
    requires SafePath(r.path).Ok?
  {
    Zip.Entry(TextBytes(SafePath(r.path).value), AsBytes(bytes))
  }

  /** What the store holds for an artifact. */
  function StoredBytes(a: Named, store: Store): Option<Octets> {
    if HasKey(a) then store(a.objectKey.value) else None
  }

  /** Among the entries are the bytes stored for this artifact, under the path of a reference to it. */
  ghost predicate ComesBack(e: Evidence, store: Store, row: Row, a: Named, entries: seq<Zip.Entry>)
    requires StoredBytes(a, store).Some?
  {
    exists r :: StandsFor(AllRows(e), row, a, r) && SafePath(r.path).Ok?
                && EntryFor(r, StoredBytes(a, store).value) in entries
  }

  lemma StoredComesBack(e: Evidence, store: Store, documents: Documents, row: Row, a: Named)
    requires EntriesOf(BundleOf(e, store), documents).Ok?
    requires row in AllRows(e) && a in row.artifacts && StoredBytes(a, store).Some?
    ensures ComesBack(e, store, row, a, EntriesOf(BundleOf(e, store), documents).value)
  {
    hide Verdict, Refs, AllRows, HasKey, ArtifactFault, SafePath, Tidy, ItemsOf, Pushed, DedupeKey, Decoded, Artifacts,
      TextBytes, PathFault, BUNDLE_JSON, MANIFEST_JSON, MISSING_JSON, BundleOf;
    var bundle := BundleOf(e, store);
    var bytes := StoredBytes(a, store).value;
    ValidArtifacts(bundle);
    var r := ArtifactFor(e, store, row, a);
    var i :| 0 <= i < |bundle.artifacts| && bundle.artifacts[i] == ArtifactOf(r, bytes);
    assert ArtifactFault(bundle.artifacts[i]).None?;
    ValidPath(bundle.artifacts[i]);
    ArtifactDecodes(r, bytes);
    var items := ItemsOf(bundle, documents);
    ItemCount(bundle, documents);
    ItemPaths(bundle, documents, i + 2);
    PushedExactly(items, |items|);
    assert EntriesOf(bundle, documents).value[i + 2] == EntryFor(r, bytes);
  }

  lemma ArtifactFor(e: Evidence, store: Store, row: Row, a: Named) returns (r: Ref)
    requires row in AllRows(e) && a in row.artifacts && StoredBytes(a, store).Some?
    ensures StandsFor(AllRows(e), row, a, r)
    ensures ArtifactOf(r, StoredBytes(a, store).value) in BundleOf(e, store).artifacts
  {
    hide Refs, AllRows, SafePath, Tidy, IsFirst, DedupeKey, Artifacts, MissingRefs, ArtifactOf;
    var refs := Refs(e);
    RefsCover(e, row, a);
    r :| r in refs && StandsFor(AllRows(e), row, a, r);
    var k :| 0 <= k < |refs| && refs[k] == r;
    var first := HasFirst(refs, k);
    RefsStand(e, refs[first]);
    DedupeKeyDecides(refs[first], r);
    assert Stored(refs, store, first);
    ArtifactsFrom(refs, store, |refs|, ArtifactOf(r, StoredBytes(a, store).value));
  }

  predicate IsAsciiName(name: Bytes) {
    forall i :: 0 <= i < |name| ==> name[i] < 0x80
  }

  lemma NamesAreAscii(e: Evidence, store: Store, documents: Documents)
    requires EntriesOf(BundleOf(e, store), documents).Ok?
    ensures forall x :: x in EntriesOf(BundleOf(e, store), documents).value ==> IsAsciiName(x.path)
  {
    hide BundleOf, Verdict, ArtifactFault, SafePath, ItemsOf, Pushed, TextBytes, DistinctPaths, HasNul;
    ValidArtifacts(BundleOf(e, store));
    var items := ItemsOf(BundleOf(e, store), documents);
    PushedExactly(items, |items|);
    forall k | 0 <= k < |items| ensures IsAsciiName(EntryOf(items[k]).path) {
      BuiltItem(e, store, documents, k);
      AsciiTextBytes(items[k].path);
    }
  }

  lemma BuiltHasNoNul(e: Evidence, store: Store, a: Artifact)
    requires a in BundleOf(e, store).artifacts
    ensures !ArtifactHasNul(a)
  {
    hide BundleOf, SafePath, HasNul;
    BuiltArtifact(e, store, a);
    if SafePath(a.path).Ok? {
      TidyPath(a.path);
    }
  }

  /**
    From the store to a reader of the archive: whenever a built bundle is written, as ZIP or as tar, reading
    gives back what was written, and with it the bytes of every stored artifact. All names are ASCII, so they
    are the same text whatever encoding the reader takes them to be in.
    */
  lemma ExportReadsBack(e: Evidence, store: Store, documents: Documents)
    requires EntriesOf(BundleOf(e, store), documents).Ok?
    ensures var entries := EntriesOf(BundleOf(e, store), documents).value;
            && (Zip.Verdict(entries).None? ==> ZipReader.ReadArchive(Zip.Archive(entries)) == Some(entries))
            && (Tar.Archive(entries).Ok? ==> TarReader.ReadMembers(Tar.Archive(entries).value, 0) == Some(entries))
            && forall x :: x in entries ==> IsAsciiName(x.path)
    ensures forall row, a :: row in AllRows(e) && a in row.artifacts && StoredBytes(a, store).Some? ==>
              ComesBack(e, store, row, a, EntriesOf(BundleOf(e, store), documents).value)
  {
    hide *;
    ArchivesReadBack(BundleOf(e, store), documents);
    var artifacts := BundleOf(e, store).artifacts;
    forall i | 0 <= i < |artifacts| ensures !ArtifactHasNul(artifacts[i]) {
      BuiltHasNoNul(e, store, artifacts[i]);
    }
    NamesAreAscii(e, store, documents);
    forall row, a | row in AllRows(e) && a in row.artifacts && StoredBytes(a, store).Some?
      ensures ComesBack(e, store, row, a, EntriesOf(BundleOf(e, store), documents).value)
    {
      StoredComesBack(e, store, documents, row, a);
    }
  }

  // Two artifacts with one path.

  lemma {:induction false} RefFrom(rows: seq<Row>, prefix: string, fallback: string, n: nat, k: nat, a: Named)
    requires k < n <= |rows| && a in rows[k].artifacts && HasKey(a)
    ensures RefOf(prefix, Segment(rows[k], fallback, k), a) in RefsFrom(rows, prefix, fallback, n)
    decreases n
  {
    hide Segment, RefOf, HasKey, RowRefs;
    if k < n - 1 {
      RefFrom(rows, prefix, fallback, n - 1, k, a);
    } else {
      var row := rows[k];
      var j :| 0 <= j < |row.artifacts| && row.artifacts[j] == a;
      RowRefsAre(prefix, Segment(row, fallback, k), row.artifacts, |row.artifacts|, RefOf(prefix, Segment(row, fallback, k), a));
    }
  }

  /** The reference of a stored artifact has an artifact in the bundle. */
  lemma StoredRef(e: Evidence, store: Store, r: Ref)
    requires r in Refs(e) && store(r.objectKey).Some?
    ensures ArtifactOf(r, store(r.objectKey).value) in BundleOf(e, store).artifacts
  {
    hide Refs, AllRows, SafePath, Tidy, IsFirst, DedupeKey, Artifacts, MissingRefs, ArtifactOf, HasKey;
    var refs := Refs(e);
    var k :| 0 <= k < |refs| && refs[k] == r;
    var first := HasFirst(refs, k);
    RefsStand(e, refs[first]);
    RefsStand(e, r);
    DedupeKeyDecides(refs[first], r);
    assert Stored(refs, store, first);
    ArtifactsFrom(refs, store, |refs|, ArtifactOf(r, store(r.objectKey).value));
  }

  /**
    The failing family: attestations with one segment, in their ids or by default, whose artifacts of one name
    are stored under different keys. The bundle cannot be archived.
    */
  lemma SameSegmentClashes(e: Evidence, store: Store, documents: Documents, k: nat, k': nat, a: Named, a': Named)
    requires k < |e.attestations| && a in e.attestations[k].artifacts && HasKey(a) && StoredBytes(a, store).Some?
    requires k' < |e.attestations| && a' in e.attestations[k'].artifacts && HasKey(a') && StoredBytes(a', store).Some?
    requires Segment(e.attestations[k], ATTESTATION, k) == Segment(e.attestations[k'], ATTESTATION, k')
    requires a.name == a'.name && a.objectKey != a'.objectKey
    ensures EntriesOf(BundleOf(e, store), documents).Err?
  {
    hide RefsFrom, Segment, ATTESTATIONS, ATTESTATION, Label, ArtifactFault, SafePath, BundleOf, EntriesOf, AllRows, Verdict;
    var n := |e.attestations|;
    RefFrom(e.attestations, ATTESTATIONS, ATTESTATION, n, k, a);
    RefFrom(e.attestations, ATTESTATIONS, ATTESTATION, n, k', a');
    var r := RefOf(ATTESTATIONS, Segment(e.attestations[k], ATTESTATION, k), a);
    var r' := RefOf(ATTESTATIONS, Segment(e.attestations[k'], ATTESTATION, k'), a');
    StoredRef(e, store, r);
    StoredRef(e, store, r');
    TwoWithOnePath(e, store, documents, ArtifactOf(r, store(r.objectKey).value), ArtifactOf(r', store(r'.objectKey).value));
  }

  lemma PathTwice(artifacts: seq<Artifact>, x: Artifact, y: Artifact)
    requires x in artifacts && y in artifacts && x.path == y.path && x != y && SafePath(x.path).Ok?
    ensures exists i, j :: 0 <= i < j < |artifacts| && SamePath(artifacts[i], artifacts[j])
  {
    hide SafePath;
    var i :| 0 <= i < |artifacts| && artifacts[i] == x;
    var j :| 0 <= j < |artifacts| && artifacts[j] == y;
    assert SamePath(artifacts[i], artifacts[j]) && SamePath(artifacts[j], artifacts[i]);
  }

  lemma TwoWithOnePath(e: Evidence, store: Store, documents: Documents, x: Artifact, y: Artifact)
    requires x in BundleOf(e, store).artifacts && y in BundleOf(e, store).artifacts && x.path == y.path && x != y
    ensures EntriesOf(BundleOf(e, store), documents).Err?
  {
    hide BundleOf, SafePath, Verdict, IsRefused, AllRows, ItemsOf, Pushed, ArtifactFault;
    ArchivedExactly(e, store, documents);
    if Verdict(BundleOf(e, store)).None? {
      ValidArtifacts(BundleOf(e, store));
      ValidPath(x);
      PathTwice(BundleOf(e, store).artifacts, x, y);
    }
  }

  /** For one: an attestation without an id, and one whose id is the default of the first. */
  lemma DefaultIdClashes(store: Store, documents: Documents, x: string, y: string)
    requires x != "" && y != "" && x != y && store(x).Some? && store(y).Some?
    ensures var e := Evidence([Row(None, [Named("manifest", Some(x))]),
                               Row(Some("attestation-1"), [Named("manifest", Some(y))])], [], []);
            EntriesOf(BundleOf(e, store), documents).Err?
  {
    hide EntriesOf, BundleOf, Label;
    var a, a' := Named("manifest", Some(x)), Named("manifest", Some(y));
    var e := Evidence([Row(None, [a]), Row(Some("attestation-1"), [a'])], [], []);
    DefaultSegment(e.attestations[0], e.attestations[1]);
    SameSegmentClashes(e, store, documents, 0, 1, a, a');
  }

  lemma DefaultSegment(row: Row, row': Row)
    requires row.id == None && row'.id == Some("attestation-1")
    ensures Segment(row, ATTESTATION, 0) == Segment(row', ATTESTATION, 1)
  {
    var id := "attestation-1";
    assert ATTESTATION + "-" + Digits(1) == id;
    assert AllAllowed(id) && !IsBlankText(id) by {
      assert !Normalizer.IsJsSpace(id[0]);
    }
    hide IsAllowed, Underscored;
    UnderscoredShape(id);
  }

  /** The documents stand at the start, and what is missing at the end, if anything is. */
  lemma DocumentsAre(bundle: Bundle, documents: Documents)
    requires AllValid(bundle.artifacts)
    ensures var items, n := ItemsOf(bundle, documents), |bundle.artifacts|;
            && |items| == n + 2 + (if bundle.missing == [] then 0 else 1)
            && items[0] == Item("bundle.json", documents.bundle) && items[1] == Item("manifest.json", documents.manifest)
            && (bundle.missing != [] ==> items[n + 2] == Item("missing-artifacts.json", documents.missing))
  {
    hide ArtifactFault;
  }

  /** The first path that comes a second time is the one complained of. */
  lemma {:induction false} FirstDuplicate(items: seq<Item>, k: nat, n: nat)
    requires k < n <= |items| && DistinctPaths(items, k) && IsTaken(items, k, items[k].path)
    ensures Pushed(items, n) == Err(DuplicatePath(items[k].path))
  {
    hide DistinctPaths, IsTaken, EntryOf;
    PushedExactly(items, k);
    FailureIsFinal(items, k + 1, n);
  }
}
