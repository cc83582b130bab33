/** Evidence bundles: built by the exporter, checked by the CLI. */
module EvidenceBundle {
  import opened Bytes
  import opened Base64
  import opened BundlePaths
  import opened EvidenceRefs
  import Base64Laws

  const BUNDLE_TYPE := "proveria_evidence_bundle"
  const SCHEMA_VERSION := "1.0"
  const BASE64 := "base64"

  datatype Artifact = Artifact(
    path: string, objectKey: string, contentType: string, encoding: string, byteSize: nat, bodyBase64: Octets)

  datatype Bundle = Bundle(bundleType: string, schemaVersion: string, artifacts: seq<Artifact>, missing: seq<Ref>)

  /** The object store at the time of the export. */
  type Store = string -> Option<Octets>

  datatype BundleError =
    | UnsupportedType
    | UnsupportedVersion
    | UnsafePath(cause: PathError)
    | UnsupportedEncoding
    | Undecodable(error: DecodeError)
    | WrongSize

  // Building.

  function DedupeKey(ref: Ref): string {
    ref.path + "\0" + ref.objectKey
  }

  predicate EndsWith(s: string, suffix: string) {
    |s| >= |suffix| && s[|s| - |suffix|..] == suffix
  }

  function ContentType(objectKey: string): string {
    if EndsWith(objectKey, ".pdf") then "application/pdf"
    else if EndsWith(objectKey, ".json") || EndsWith(objectKey, ".jsonl") then "application/json"
    else "application/octet-stream"
  }

  function ArtifactOf(ref: Ref, bytes: Octets): Artifact {
    Artifact(ref.path, ref.objectKey, ContentType(ref.objectKey), BASE64, |bytes|, Encode(bytes))
  }

  /** No earlier reference has the same key. */
  predicate IsFirst(refs: seq<Ref>, k: nat)
    requires k < |refs|
  {
    forall j :: 0 <= j < k ==> DedupeKey(refs[j]) != DedupeKey(refs[k])
  }

  predicate Stored(refs: seq<Ref>, store: Store, k: nat)
    requires k < |refs|
  {
    IsFirst(refs, k) && store(refs[k].objectKey).Some?
  }

  predicate Missing(refs: seq<Ref>, store: Store, k: nat)
    requires k < |refs|
  {
    IsFirst(refs, k) && store(refs[k].objectKey).None?
  }

  /** The artifacts of the first n references. */
  function Artifacts(refs: seq<Ref>, store: Store, n: nat): seq<Artifact>
    requires n <= |refs|
  {
    if n == 0 then []
    else Artifacts(refs, store, n - 1)
         + if Stored(refs, store, n - 1) then [ArtifactOf(refs[n - 1], store(refs[n - 1].objectKey).GetOr([]))] else []
  }

  function MissingRefs(refs: seq<Ref>, store: Store, n: nat): seq<Ref>
    requires n <= |refs|
  {
    if n == 0 then []
    else MissingRefs(refs, store, n - 1) + if Missing(refs, store, n - 1) then [refs[n - 1]] else []
  }

  function Built(refs: seq<Ref>, store: Store): Bundle {
    Bundle(BUNDLE_TYPE, SCHEMA_VERSION, Artifacts(refs, store, |refs|), MissingRefs(refs, store, |refs|))
  }

  method BuildEvidenceExportBundle(e: Evidence, store: Store) returns (bundle: Bundle)
    ensures bundle == Built(Refs(e), store)
  {
    hide Refs, ContentType, Encode;
    var refs := Refs(e);
    var artifacts: seq<Artifact> := [];
    var missing: seq<Ref> := [];
    var seen: set<string> := {};
    for i := 0 to |refs|
      invariant artifacts == Artifacts(refs, store, i) && missing == MissingRefs(refs, store, i)
      invariant forall key :: key in seen <==> exists j :: 0 <= j < i && DedupeKey(refs[j]) == key
    {
      var ref := refs[i];
      if DedupeKey(ref) in seen {
        assert !IsFirst(refs, i);
        continue;
      }
      assert IsFirst(refs, i);
      ghost var before := seen;
      seen := seen + {DedupeKey(ref)};
      var bytes := store(ref.objectKey);
      if bytes.None? {
        missing := missing + [ref];
      } else {
        artifacts := artifacts + [ArtifactOf(ref, bytes.value)];
      }
    }
    bundle := Bundle(BUNDLE_TYPE, SCHEMA_VERSION, artifacts, missing);
  }

  function KeyOf(a: Artifact): string {
    DedupeKey(Ref(a.path, a.objectKey))
  }

  lemma {:induction false} ArtifactsFrom(refs: seq<Ref>, store: Store, n: nat, a: Artifact)
    requires n <= |refs|
    ensures a in Artifacts(refs, store, n) <==>
            exists k :: 0 <= k < n && Stored(refs, store, k) && a == ArtifactOf(refs[k], store(refs[k].objectKey).GetOr([]))
  {
    hide Stored, ArtifactOf;
    if n > 0 {
      ArtifactsFrom(refs, store, n - 1, a);
    }
  }

  lemma {:induction false} MissingFrom(refs: seq<Ref>, store: Store, n: nat, r: Ref)
    requires n <= |refs|
    ensures r in MissingRefs(refs, store, n) <==> exists k :: 0 <= k < n && Missing(refs, store, k) && r == refs[k]
  {
    hide Missing;
    if n > 0 {
      MissingFrom(refs, store, n - 1, r);
    }
  }

  lemma {:induction false} HasFirst(refs: seq<Ref>, k: nat) returns (first: nat)
    requires k < |refs|
    ensures first <= k && IsFirst(refs, first) && DedupeKey(refs[first]) == DedupeKey(refs[k])
    decreases k
  {
    if IsFirst(refs, k) {
      first := k;
    } else {
      var j :| 0 <= j < k && DedupeKey(refs[j]) == DedupeKey(refs[k]);
      first := HasFirst(refs, j);
    }
  }

  /** Every reference is answered, by an artifact holding the stored bytes or by an entry of what is missing. */
  lemma EveryReferenceAnswered(refs: seq<Ref>, store: Store, k: nat)
    requires k < |refs|
    ensures (exists a :: a in Built(refs, store).artifacts && KeyOf(a) == DedupeKey(refs[k]))
            || (exists r :: r in Built(refs, store).missing && DedupeKey(r) == DedupeKey(refs[k]))
  {
    var first := HasFirst(refs, k);
    if store(refs[first].objectKey).Some? {
      var a := ArtifactOf(refs[first], store(refs[first].objectKey).GetOr([]));
      assert Stored(refs, store, first);
      ArtifactsFrom(refs, store, |refs|, a);
      assert KeyOf(a) == DedupeKey(refs[k]);
    } else {
      assert Missing(refs, store, first);
      MissingFrom(refs, store, |refs|, refs[first]);
    }
  }

  function Keys(refs: seq<Ref>, n: nat): set<string>
    requires n <= |refs|
  {
    set j | 0 <= j < n :: DedupeKey(refs[j])
  }

  /** Together the two lists have one entry for each key: none is answered twice. */
  lemma {:induction false} OneAnswerEach(refs: seq<Ref>, store: Store, n: nat)
    requires n <= |refs|
    ensures |Artifacts(refs, store, n)| + |MissingRefs(refs, store, n)| == |Keys(refs, n)|
  {
    hide DedupeKey;
    if n > 0 {
      OneAnswerEach(refs, store, n - 1);
      assert Keys(refs, n) == Keys(refs, n - 1) + {DedupeKey(refs[n - 1])};
      assert IsFirst(refs, n - 1) <==> DedupeKey(refs[n - 1]) !in Keys(refs, n - 1);
      if !IsFirst(refs, n - 1) {
        assert Keys(refs, n) == Keys(refs, n - 1);
      }
    }
  }

  // Checking.

  function ArtifactFault(a: Artifact): Option<BundleError> {
    if SafePath(a.path).Err? then Some(UnsafePath(SafePath(a.path).error))
    else if a.encoding != BASE64 then Some(UnsupportedEncoding)
    else
      match Decoded(a.bodyBase64)
      case Err(e) => Some(Undecodable(e))
      case Ok(bytes) => if |bytes| != a.byteSize then Some(WrongSize) else None
  }

  /** The fault of the first bad artifact among the first n. */
  function FirstArtifactFault(artifacts: seq<Artifact>, n: nat): Option<BundleError>
    requires n <= |artifacts|
  {
    if n == 0 then None
    else if FirstArtifactFault(artifacts, n - 1).Some? then FirstArtifactFault(artifacts, n - 1)
    else ArtifactFault(artifacts[n - 1])
  }

  function Verdict(bundle: Bundle): Option<BundleError> {
    if bundle.bundleType != BUNDLE_TYPE then Some(UnsupportedType)
    else if bundle.schemaVersion != SCHEMA_VERSION then Some(UnsupportedVersion)
    else FirstArtifactFault(bundle.artifacts, |bundle.artifacts|)
  }

  lemma {:induction false} FaultIsFinal(artifacts: seq<Artifact>, n: nat, m: nat)
    requires n <= m <= |artifacts| && FirstArtifactFault(artifacts, n).Some?
    ensures FirstArtifactFault(artifacts, m) == FirstArtifactFault(artifacts, n)
    decreases m
  {
    hide ArtifactFault;
    if n < m {
      FaultIsFinal(artifacts, n, m - 1);
    }
  }

  method ValidateEvidenceBundle(bundle: Bundle) returns (fault: Option<BundleError>)
    ensures fault == Verdict(bundle)
  {
    hide Decoded, SafePath;
    if bundle.bundleType != BUNDLE_TYPE {
      return Some(UnsupportedType);
    }
    if bundle.schemaVersion != SCHEMA_VERSION {
      return Some(UnsupportedVersion);
    }
    var n := |bundle.artifacts|;
    for i := 0 to n
      invariant FirstArtifactFault(bundle.artifacts, i).None?
    {
      var a := bundle.artifacts[i];
      if FirstArtifactFault(bundle.artifacts, i + 1).Some? {
        FaultIsFinal(bundle.artifacts, i + 1, n);
      }
      var path := SafePath(a.path);
      if path.Err? {
        return Some(UnsafePath(path.error));
      }
      if a.encoding != BASE64 {
        return Some(UnsupportedEncoding);
      }
      var decoded := DecodeBase64(a.bodyBase64);
      if decoded.Err? {
        return Some(Undecodable(decoded.error));
      }
      if |decoded.value| != a.byteSize {
        return Some(WrongSize);
      }
    }
    fault := None;
  }

  lemma {:induction false} NoFaultMeans(artifacts: seq<Artifact>, n: nat)
    requires n <= |artifacts|
    ensures FirstArtifactFault(artifacts, n).None? <==>
            forall i :: 0 <= i < n ==> ArtifactFault(artifacts[i]).None?
  {
    hide ArtifactFault;
    if n > 0 {
      NoFaultMeans(artifacts, n - 1);
    }
  }

  function PathFault(path: string): Option<BundleError> {
    match SafePath(path) case Err(e) => Some(UnsafePath(e)) case Ok(_) => None
  }

  /** The body of an artifact that the exporter makes decodes to the stored bytes. */
  lemma ArtifactDecodes(ref: Ref, bytes: Octets)
    ensures Decoded(ArtifactOf(ref, bytes).bodyBase64) == Ok(bytes)
    ensures ArtifactFault(ArtifactOf(ref, bytes)) == PathFault(ref.path)
  {
    hide Encode, Decoded, SafePath, ContentType;
    Base64Laws.DecodeEncode(bytes);
  }

  /** Built artifacts pass the CLI's base64 and size checks: only their paths count. */
  lemma BuiltFault(refs: seq<Ref>, store: Store, a: Artifact)
    requires a in Built(refs, store).artifacts
    ensures ArtifactFault(a) == PathFault(a.path)
    ensures exists k :: 0 <= k < |refs| && Stored(refs, store, k) && refs[k].path == a.path
  {
    hide ArtifactFault, PathFault, Artifacts, MissingRefs, Stored;
    ArtifactsFrom(refs, store, |refs|, a);
    var k :| 0 <= k < |refs| && Stored(refs, store, k) && a == ArtifactOf(refs[k], store(refs[k].objectKey).GetOr([]));
    ArtifactDecodes(refs[k], store(refs[k].objectKey).GetOr([]));
  }

  /** What the exporter builds for some references is refused exactly when a stored one has an unsafe path. */
  lemma BuiltBundlePasses(refs: seq<Ref>, store: Store)
    ensures Verdict(Built(refs, store)).None? <==>
            forall k :: 0 <= k < |refs| && Stored(refs, store, k) ==> SafePath(refs[k].path).Ok?
    ensures Verdict(Built(refs, store)).Some? ==> Verdict(Built(refs, store)).value.UnsafePath?
  {
    hide ArtifactFault, SafePath, Stored, Artifacts, MissingRefs, FirstArtifactFault;
    var artifacts := Built(refs, store).artifacts;
    forall i | 0 <= i < |artifacts|
      ensures ArtifactFault(artifacts[i]) == PathFault(artifacts[i].path)
      ensures exists k :: 0 <= k < |refs| && Stored(refs, store, k) && refs[k].path == artifacts[i].path
    {
      BuiltFault(refs, store, artifacts[i]);
    }
    NoFaultMeans(artifacts, |artifacts|);
    if Verdict(Built(refs, store)).Some? {
      BuiltVerdict(refs, store);
    }
    forall k | 0 <= k < |refs| && Stored(refs, store, k)
      ensures exists i :: 0 <= i < |artifacts| && artifacts[i].path == refs[k].path
    {
      ArtifactsFrom(refs, store, |refs|, ArtifactOf(refs[k], store(refs[k].objectKey).GetOr([])));
    }
  }

  lemma {:induction false} FaultIsOfOne(artifacts: seq<Artifact>, n: nat)
    requires n <= |artifacts| && FirstArtifactFault(artifacts, n).Some?
    ensures exists i :: 0 <= i < n && FirstArtifactFault(artifacts, n) == ArtifactFault(artifacts[i])
  {
    hide ArtifactFault;
    if FirstArtifactFault(artifacts, n - 1).Some? {
      FaultIsOfOne(artifacts, n - 1);
    }
  }

  /** The fault of a built bundle is that of the path of some stored reference. */
  lemma BuiltVerdict(refs: seq<Ref>, store: Store)
    requires Verdict(Built(refs, store)).Some?
    ensures exists k :: 0 <= k < |refs| && Stored(refs, store, k) && Verdict(Built(refs, store)) == PathFault(refs[k].path)
  {
    hide ArtifactFault, PathFault, Stored, Artifacts, MissingRefs, FirstArtifactFault;
    var artifacts := Built(refs, store).artifacts;
    FaultIsOfOne(artifacts, |artifacts|);
    var i :| 0 <= i < |artifacts| && FirstArtifactFault(artifacts, |artifacts|) == ArtifactFault(artifacts[i]);
    BuiltFault(refs, store, artifacts[i]);
  }

  // From the manifest.

  /** A stored artifact under the id "..". */
  predicate IsRefused(row: Row, a: Named, store: Store) {
    row.id == Some("..") && a in row.artifacts && HasKey(a) && store(a.objectKey.value).Some?
  }

  /**
    The bundle of a manifest passes the CLI's checks exactly when no row with the id ".." has a stored
    artifact; base64 and sizes always pass.
    */
  lemma EvidencePasses(e: Evidence, store: Store)
    ensures Verdict(Built(Refs(e), store)).None? <==>
            forall row, a :: row in AllRows(e) ==> !IsRefused(row, a, store)
    ensures Verdict(Built(Refs(e), store)).Some? ==> Verdict(Built(Refs(e), store)) == Some(UnsafePath(NotSafe))
  {
    hide Verdict, Refs, AllRows, SafePath, IsRefused, Stored;
    BuiltBundlePasses(Refs(e), store);
    if Verdict(Built(Refs(e), store)).Some? {
      BuiltVerdict(Refs(e), store);
      var k :| 0 <= k < |Refs(e)| && Stored(Refs(e), store, k)
               && Verdict(Built(Refs(e), store)) == PathFault(Refs(e)[k].path);
      var row, a := RefusedRow(e, store, k);
    }
    forall row, a | row in AllRows(e) && IsRefused(row, a, store) ensures Verdict(Built(Refs(e), store)).Some? {
      RefusedRef(e, row, a, store);
    }
  }

  lemma RefusedRow(e: Evidence, store: Store, k: nat) returns (row: Row, a: Named)
    requires k < |Refs(e)| && Stored(Refs(e), store, k) && SafePath(Refs(e)[k].path).Err?
    ensures row in AllRows(e) && IsRefused(row, a, store) && PathFault(Refs(e)[k].path) == Some(UnsafePath(NotSafe))
  {
    hide Refs, AllRows, SafePath, HasKey;
    RefsStand(e, Refs(e)[k]);
    row, a :| StandsFor(AllRows(e), row, a, Refs(e)[k]);
  }

  /** A key tells the path from the object key: paths have no NUL. */
  lemma DedupeKeyDecides(r: Ref, r': Ref)
    requires Tidy(r.path) && Tidy(r'.path) && DedupeKey(r) == DedupeKey(r')
    ensures r == r'
  {
    NoNul(r.path);
    NoNul(r'.path);
    var a, b := DedupeKey(r), DedupeKey(r');
    FirstNul(r, r');
    FirstNul(r', r);
    assert a[..|r.path|] == r.path && b[..|r.path|] == r'.path;
    assert a[|r.path| + 1..] == r.objectKey && b[|r.path| + 1..] == r'.objectKey;
  }

  lemma FirstNul(r: Ref, r': Ref)
    requires '\0' !in r'.path && DedupeKey(r) == DedupeKey(r')
    ensures |r.path| >= |r'.path|
  {
    forall i | 0 <= i < |r'.path| ensures DedupeKey(r')[i] != '\0' {
      assert r'.path[i] in r'.path;
    }
    assert DedupeKey(r)[|r.path|] == '\0';
  }

  lemma NoNul(path: string)
    requires Tidy(path)
    ensures '\0' !in path
  {
    hide SafePath;
  }

  lemma RefusedRef(e: Evidence, row: Row, a: Named, store: Store)
    requires row in AllRows(e) && IsRefused(row, a, store)
    ensures exists k :: 0 <= k < |Refs(e)| && Stored(Refs(e), store, k) && SafePath(Refs(e)[k].path).Err?
  {
    hide Refs, AllRows, SafePath, Tidy, IsFirst, DedupeKey;
    var refs := Refs(e);
    RefsCover(e, row, a);
    var r :| r in refs && StandsFor(AllRows(e), row, a, r);
    var k :| 0 <= k < |refs| && refs[k] == r;
    var first := HasFirst(refs, k);
    RefsStand(e, refs[first]);
    DedupeKeyDecides(refs[first], r);
    assert Stored(refs, store, first);
  }

  // Names that the CLI and other readers rely on.

  /** The content type goes by the end of the object key. */
  lemma ContentTypesAre(key: string)
    ensures ContentType(key + ".pdf") == "application/pdf"
    ensures ContentType(key + ".json") == "application/json" && ContentType(key + ".jsonl") == "application/json"
    ensures !EndsWith(key, ".pdf") && !EndsWith(key, ".json") && !EndsWith(key, ".jsonl") ==>
              ContentType(key) == "application/octet-stream"
  {
    Ends(key, ".pdf");
    Ends(key, ".json");
    Ends(key, ".jsonl");
    LastDiffers(key);
    hide EndsWith;
  }

  lemma Ends(key: string, suffix: string)
    ensures EndsWith(key + suffix, suffix)
  {
  }

  lemma LastDiffers(key: string)
    ensures !EndsWith(key + ".json", ".pdf") && !EndsWith(key + ".jsonl", ".pdf")
  {
    var a, b := key + ".json", key + ".jsonl";
    assert a[|a| - 1] == 'n' && b[|b| - 1] == 'l';
    assert forall s: string :: EndsWith(s, ".pdf") ==> s[|s| - 4..][3] == 'f';
  }

  /** What a bundle says of itself, and what an artifact says of its bytes. */
  lemma BundleIs(e: Evidence, store: Store, ref: Ref, bytes: Octets)
    ensures Built(Refs(e), store).bundleType == "proveria_evidence_bundle" && Built(Refs(e), store).schemaVersion == "1.0"
    ensures var a := ArtifactOf(ref, bytes);
            && a.path == ref.path && a.objectKey == ref.objectKey && a.contentType == ContentType(ref.objectKey)
            && a.encoding == "base64" && a.byteSize == |bytes| && Decoded(a.bodyBase64) == Ok(bytes)
  {
    hide Refs, Artifacts, MissingRefs, ContentType, Encode, Decoded;
    Base64Laws.DecodeEncode(bytes);
  }

  /** The first fault of a bundle in the order of the checks. */
  lemma VerdictIs(bundle: Bundle)
    ensures bundle.bundleType != "proveria_evidence_bundle" <==> Verdict(bundle) == Some(UnsupportedType)
    ensures bundle.bundleType == "proveria_evidence_bundle" && bundle.schemaVersion != "1.0" <==>
            Verdict(bundle) == Some(UnsupportedVersion)
  {
    ConstantsAre();
    hide BUNDLE_TYPE, SCHEMA_VERSION;
    NoHeaderFault(bundle.artifacts, |bundle.artifacts|);
  }

  lemma ConstantsAre()
    ensures BUNDLE_TYPE == "proveria_evidence_bundle" && SCHEMA_VERSION == "1.0"
  {
  }

  lemma {:induction false} NoHeaderFault(artifacts: seq<Artifact>, n: nat)
    requires n <= |artifacts|
    ensures FirstArtifactFault(artifacts, n) != Some(UnsupportedType)
    ensures FirstArtifactFault(artifacts, n) != Some(UnsupportedVersion)
  {
    hide SafePath, Decoded;
    if n > 0 {
      NoHeaderFault(artifacts, n - 1);
    }
  }

  /** The faults of an artifact: its path, its encoding, its text, its size, the first that applies. */
  lemma ArtifactFaultIs(a: Artifact)
    ensures SafePath(a.path).Err? ==> ArtifactFault(a) == Some(UnsafePath(SafePath(a.path).error))
    ensures SafePath(a.path).Ok? && a.encoding != "base64" ==> ArtifactFault(a) == Some(UnsupportedEncoding)
    ensures SafePath(a.path).Ok? && a.encoding == "base64" && Decoded(a.bodyBase64).Err? ==>
              ArtifactFault(a) == Some(Undecodable(Decoded(a.bodyBase64).error))
    ensures SafePath(a.path).Ok? && a.encoding == "base64" && Decoded(a.bodyBase64).Ok? ==>
              ArtifactFault(a) == if |Decoded(a.bodyBase64).value| == a.byteSize then None else Some(WrongSize)
  {
    hide SafePath, Decoded;
  }

  /** The first artifact with a fault decides. */
  lemma FirstFaultDecides(bundle: Bundle, k: nat)
    requires bundle.bundleType == BUNDLE_TYPE && bundle.schemaVersion == SCHEMA_VERSION && k < |bundle.artifacts|
    requires ArtifactFault(bundle.artifacts[k]).Some? && forall j :: 0 <= j < k ==> ArtifactFault(bundle.artifacts[j]).None?
    ensures Verdict(bundle) == ArtifactFault(bundle.artifacts[k])
  {
    hide ArtifactFault, BUNDLE_TYPE, SCHEMA_VERSION;
    NoFaultMeans(bundle.artifacts, k);
    FaultIsFinal(bundle.artifacts, k + 1, |bundle.artifacts|);
  }
}
