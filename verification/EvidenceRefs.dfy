/** The artifacts that an evidence manifest refers to, and the paths they get in a bundle. */
module EvidenceRefs {
  import opened Bytes
  import opened BundlePaths
  import Normalizer

  /** One entry of an artifacts object; a value that is not a string is None. */
  datatype Named = Named(name: string, objectKey: Option<string>)

  /** The id of a row, or else its packageId, when that is a string; its artifacts in the order of their names. */
  datatype Row = Row(id: Option<string>, artifacts: seq<Named>)

  /** The three collections of a manifest; one that is no array counts as empty. */
  datatype Evidence = Evidence(attestations: seq<Row>, attempts: seq<Row>, results: seq<Row>)

  datatype Ref = Ref(path: string, objectKey: string)

  const ATTESTATIONS := "attestations"
  const ATTEMPTS := "attempts"
  const RESULTS := "verification-results"
  const ATTESTATION := "attestation"
  const ATTEMPT := "attempt"
  const RESULT := "verification-result"

  const MAX_SEGMENT := 120

  // Segments.

  predicate IsAllowed(c: char) {
    'a' <= c <= 'z' || 'A' <= c <= 'Z' || '0' <= c <= '9' || c == '.' || c == '_' || c == '-'
  }

  predicate AllAllowed(s: string) {
    forall i :: 0 <= i < |s| ==> IsAllowed(s[i])
  }

  /** What comes of a character after some others. */
  function Piece(front: string, c: char): string {
    if IsAllowed(c) then [c] else if front != "" && !IsAllowed(front[|front| - 1]) then "" else "_"
  }

  /** Runs of other characters become one underscore. */
  function Underscored(s: string): string
    decreases |s|
  {
    if s == "" then "" else Underscored(s[..|s| - 1]) + Piece(s[..|s| - 1], s[|s| - 1])
  }

  function Truncated(s: string): string {
    if |s| > MAX_SEGMENT then s[..MAX_SEGMENT] else s
  }

  predicate IsBlankText(s: string) {
    forall i :: 0 <= i < |s| ==> Normalizer.IsJsSpace(s[i])
  }

  function SafeSegment(value: Option<string>, fallback: string): string {
    if value.None? || IsBlankText(value.value) then fallback else Truncated(Underscored(value.value))
  }

  function Digit(n: nat): char
    requires n < 10
  {
    ('0' as int + n) as char
  }

  function Digits(n: nat): string {
    if n < 10 then [Digit(n)] else Digits(n / 10) + [Digit(n % 10)]
  }

  function Label(name: string): string {
    match name
    case "manifest" => "manifest.json"
    case "leaves" => "leaves.jsonl"
    case "receiptJson" => "receipt.json"
    case "receiptPdf" => "receipt.pdf"
    case "validationResult" => "validation-result.json"
    case "resultJson" => "result.json"
    case _ => SafeSegment(Some(name), "artifact") + ".bin"
  }

  // References.

  function Segment(row: Row, fallback: string, k: nat): string {
    SafeSegment(row.id, fallback + "-" + Digits(k + 1))
  }

  predicate HasKey(a: Named) {
    a.objectKey.Some? && a.objectKey.value != ""
  }

  function RefOf(prefix: string, segment: string, a: Named): Ref
    requires HasKey(a)
  {
    Ref(prefix + "/" + segment + "/" + Label(a.name), a.objectKey.value)
  }

  /** The references of the first n artifacts of a row. */
  function RowRefs(prefix: string, segment: string, artifacts: seq<Named>, n: nat): seq<Ref>
    requires n <= |artifacts|
  {
    if n == 0 then []
    else RowRefs(prefix, segment, artifacts, n - 1)
         + if HasKey(artifacts[n - 1]) then [RefOf(prefix, segment, artifacts[n - 1])] else []
  }

  /** The references of the first n rows of a collection. */
  function RefsFrom(rows: seq<Row>, prefix: string, fallback: string, n: nat): seq<Ref>
    requires n <= |rows|
  {
    if n == 0 then []
    else
      var row := rows[n - 1];
      RefsFrom(rows, prefix, fallback, n - 1) + RowRefs(prefix, Segment(row, fallback, n - 1), row.artifacts, |row.artifacts|)
  }

  function Refs(e: Evidence): seq<Ref> {
    RefsFrom(e.attestations, ATTESTATIONS, ATTESTATION, |e.attestations|)
    + RefsFrom(e.attempts, ATTEMPTS, ATTEMPT, |e.attempts|)
    + RefsFrom(e.results, RESULTS, RESULT, |e.results|)
  }

  // The shape of segments.

  lemma PieceShape(front: string, c: char)
    ensures AllAllowed(Piece(front, c))
    ensures Piece(front, c) == "" ==> front != "" && !AllAllowed(front)
    ensures IsAllowed(c) ==> Piece(front, c) == [c]
    ensures !IsAllowed(c) && AllAllowed(front) ==> Piece(front, c) == "_"
  {
    UnderscoreIsAllowed();
    hide IsAllowed;
  }

  lemma AllowedSum(s: string, t: string)
    ensures AllAllowed(s + t) <==> AllAllowed(s) && AllAllowed(t)
  {
    hide IsAllowed;
    forall i | 0 <= i < |t| ensures t[i] == (s + t)[|s| + i] {
    }
    forall i | 0 <= i < |s| ensures s[i] == (s + t)[i] {
    }
  }

  lemma AllowedOne(c: char)
    ensures AllAllowed([c]) <==> IsAllowed(c)
  {
    hide IsAllowed;
    assert [c][0] == c;
  }

  lemma NothingAllowed()
    ensures AllAllowed("") && Underscored("") == ""
  {
  }

  lemma {:induction false} UnderscoredShape(s: string)
    ensures AllAllowed(Underscored(s)) && (Underscored(s) == "" <==> s == "")
    ensures AllAllowed(s) ==> Underscored(s) == s
    ensures !AllAllowed(s) ==> '_' in Underscored(s)
    decreases |s|
  {
    hide IsAllowed, AllAllowed, Piece;
    if s == "" {
      NothingAllowed();
    } else {
      var front, last := s[..|s| - 1], s[|s| - 1];
      UnderscoredShape(front);
      assert s == front + [last];
      AllowedSum(front, [last]);
      AllowedOne(last);
      PieceShape(front, last);
      AllowedSum(Underscored(front), Piece(front, last));
    }
  }

  lemma UnderscoreIsAllowed()
    ensures IsAllowed('_') && IsAllowed('-') && IsAllowed('.')
  {
  }

  /** A segment is a name of allowed characters. It goes up exactly when the value does. */
  lemma SafeSegmentShape(value: Option<string>, fallback: string)
    requires AllAllowed(fallback) && |fallback| > 2
    ensures var segment := SafeSegment(value, fallback);
            && AllAllowed(segment) && segment != "" && (segment == ".." <==> value == Some(".."))
  {
    DotsAreInk();
    hide IsAllowed, Underscored, Normalizer.IsJsSpace;
    if value.Some? && !IsBlankText(value.value) {
      var u := Underscored(value.value);
      UnderscoredShape(value.value);
      TruncatedDots(u);
      if u == ".." {
        DotsAllowed();
        assert AllAllowed(value.value);
      }
      if value.value == ".." {
        DotsAllowed();
      }
    }
  }

  lemma DotsAreInk()
    ensures !IsBlankText("..")
  {
    assert !Normalizer.IsJsSpace(".."[0]);
  }

  lemma TruncatedDots(s: string)
    requires AllAllowed(s) && s != ""
    ensures AllAllowed(Truncated(s)) && Truncated(s) != "" && (Truncated(s) == ".." <==> s == "..")
  {
    hide IsAllowed;
  }

  lemma DotsAllowed()
    ensures AllAllowed("..") && '_' !in ".." && AllAllowed(".")
  {
  }

  lemma {:induction false} DigitsShape(n: nat)
    ensures AllAllowed(Digits(n)) && Digits(n) != ""
  {
    if n >= 10 {
      DigitsShape(n / 10);
    }
  }

  lemma LiteralsAllowed()
    ensures AllAllowed("manifest.json") && AllAllowed("leaves.jsonl") && AllAllowed("receipt.json")
    ensures AllAllowed("receipt.pdf") && AllAllowed("validation-result.json") && AllAllowed("result.json")
    ensures AllAllowed("artifact") && AllAllowed(".bin")
  {
  }

  lemma LabelShape(name: string)
    ensures AllAllowed(Label(name)) && |Label(name)| > 2
  {
    LiteralsAllowed();
    SafeSegmentShape(Some(name), "artifact");
    hide SafeSegment, IsAllowed;
  }

  predicate IsPrefix(prefix: string) {
    AllAllowed(prefix) && |prefix| > 2
  }

  lemma PrefixesAllowed()
    ensures IsPrefix(ATTESTATIONS) && IsPrefix(ATTEMPTS) && IsPrefix(RESULTS)
    ensures IsPrefix(ATTESTATION) && IsPrefix(ATTEMPT) && IsPrefix(RESULT)
  {
  }

  lemma SegmentShape(row: Row, fallback: string, k: nat)
    requires IsPrefix(fallback)
    ensures var segment := Segment(row, fallback, k);
            && AllAllowed(segment) && segment != "" && (segment == ".." <==> row.id == Some(".."))
  {
    DigitsShape(k + 1);
    UnderscoreIsAllowed();
    hide IsAllowed, SafeSegment, Digits;
    SafeSegmentShape(row.id, fallback + "-" + Digits(k + 1));
  }

  lemma AllowedIsPlain(s: string)
    requires AllAllowed(s)
    ensures SLASH !in s
  {
    assert !IsAllowed(SLASH);
    hide IsAllowed;
  }

  // The shape of paths.

  predicate IsPathChar(c: char) {
    IsAllowed(c) || c == SLASH
  }

  predicate AllPathChars(path: string) {
    forall i :: 0 <= i < |path| ==> IsPathChar(path[i])
  }

  /** Two or three plain names, or refused because the second one goes up. */
  predicate Tidy(path: string) {
    && AllPathChars(path)
    && (SafePath(path) == Err(NotSafe) || (SafePath(path).Ok? && SLASH in SafePath(path).value))
  }

  lemma PathCharsSum(s: string, t: string)
    requires AllPathChars(s) && AllPathChars(t)
    ensures AllPathChars(s + t)
  {
    hide IsPathChar;
  }

  lemma AllowedArePathChars(s: string)
    requires AllAllowed(s)
    ensures AllPathChars(s) && AllPathChars("/")
  {
    assert IsPathChar(SLASH);
    hide IsAllowed;
  }

  lemma ThreeNamesTidy(a: string, b: string, c: string)
    requires IsPrefix(a) && AllAllowed(b) && b != "" && AllAllowed(c) && |c| > 2
    ensures var path := a + "/" + b + "/" + c;
            Tidy(path) && (SafePath(path).Err? <==> b == "..")
  {
    hide SafePath, AllAllowed, AllPathChars;
    AllowedIsPlain(a);
    AllowedIsPlain(b);
    AllowedIsPlain(c);
    ThreeNames(a, b, c);
    AllowedArePathChars(a);
    AllowedArePathChars(b);
    AllowedArePathChars(c);
    PathCharsSum(a, "/");
    PathCharsSum(a + "/", b);
    PathCharsSum(a + "/" + b, "/");
    PathCharsSum(a + "/" + b + "/", c);
    SlashIn(a, c);
    SlashIn(a + "/" + b, c);
  }

  lemma SlashIn(s: string, t: string)
    ensures SLASH in s + "/" + t
  {
    assert (s + "/" + t)[|s|] == SLASH;
  }

  lemma RefPath(prefix: string, row: Row, fallback: string, k: nat, a: Named)
    requires IsPrefix(prefix) && IsPrefix(fallback) && HasKey(a)
    ensures var r := RefOf(prefix, Segment(row, fallback, k), a);
            && r.objectKey == a.objectKey.value
            && Tidy(r.path) && (SafePath(r.path).Err? <==> row.id == Some(".."))
  {
    hide IsPrefix, AllAllowed, SafePath, Segment, Label, Tidy;
    SegmentShape(row, fallback, k);
    LabelShape(a.name);
    ThreeNamesTidy(prefix, Segment(row, fallback, k), Label(a.name));
  }

  /** The reference stands for this artifact of this row. */
  predicate StandsFor(rows: seq<Row>, row: Row, a: Named, r: Ref) {
    && row in rows && a in row.artifacts && HasKey(a) && r.objectKey == a.objectKey.value
    && Tidy(r.path) && (SafePath(r.path).Err? <==> row.id == Some(".."))
  }

  lemma {:induction false} RowRefsAre(prefix: string, segment: string, artifacts: seq<Named>, n: nat, r: Ref)
    requires n <= |artifacts|
    ensures r in RowRefs(prefix, segment, artifacts, n) <==>
            exists j :: 0 <= j < n && HasKey(artifacts[j]) && r == RefOf(prefix, segment, artifacts[j])
  {
    hide RefOf, HasKey;
    if n > 0 {
      RowRefsAre(prefix, segment, artifacts, n - 1, r);
    }
  }

  lemma {:induction false} RefsFromStand(rows: seq<Row>, prefix: string, fallback: string, n: nat, r: Ref)
    requires n <= |rows| && IsPrefix(prefix) && IsPrefix(fallback) && r in RefsFrom(rows, prefix, fallback, n)
    ensures exists row, a :: StandsFor(rows, row, a, r)
  {
    hide IsPrefix, RowRefs, Segment, Tidy, SafePath, RefOf, HasKey;
    if r in RefsFrom(rows, prefix, fallback, n - 1) {
      RefsFromStand(rows, prefix, fallback, n - 1, r);
    } else {
      var row := rows[n - 1];
      var segment := Segment(row, fallback, n - 1);
      RowRefsAre(prefix, segment, row.artifacts, |row.artifacts|, r);
      var j :| 0 <= j < |row.artifacts| && HasKey(row.artifacts[j]) && r == RefOf(prefix, segment, row.artifacts[j]);
      RefPath(prefix, row, fallback, n - 1, row.artifacts[j]);
      assert StandsFor(rows, row, row.artifacts[j], r);
    }
  }

  lemma {:induction false} RefsFromCover(rows: seq<Row>, prefix: string, fallback: string, n: nat, k: nat, a: Named)
    requires k < n <= |rows| && IsPrefix(prefix) && IsPrefix(fallback) && a in rows[k].artifacts && HasKey(a)
    ensures exists r :: r in RefsFrom(rows, prefix, fallback, n) && StandsFor(rows, rows[k], a, r)
  {
    hide IsPrefix, RowRefs, Segment, Tidy, SafePath, RefOf, HasKey;
    if k < n - 1 {
      RefsFromCover(rows, prefix, fallback, n - 1, k, a);
      var r :| r in RefsFrom(rows, prefix, fallback, n - 1) && StandsFor(rows, rows[k], a, r);
      assert r in RefsFrom(rows, prefix, fallback, n);
    } else {
      var row := rows[k];
      var segment := Segment(row, fallback, k);
      var j :| 0 <= j < |row.artifacts| && row.artifacts[j] == a;
      var r := RefOf(prefix, segment, a);
      RowRefsAre(prefix, segment, row.artifacts, |row.artifacts|, r);
      RefPath(prefix, row, fallback, k, a);
      assert r in RefsFrom(rows, prefix, fallback, n) && StandsFor(rows, row, a, r);
    }
  }

  function AllRows(e: Evidence): seq<Row> {
    e.attestations + e.attempts + e.results
  }

  /** Every reference stands for an artifact of some row, under a path that is refused exactly when the id is "..". */
  lemma RefsStand(e: Evidence, r: Ref)
    requires r in Refs(e)
    ensures exists row, a :: StandsFor(AllRows(e), row, a, r)
  {
    PrefixesAllowed();
    hide RefsFrom, IsPrefix, Tidy, SafePath, HasKey, ATTESTATIONS, ATTEMPTS, RESULTS, ATTESTATION, ATTEMPT, RESULT;
    if r in RefsFrom(e.attestations, ATTESTATIONS, ATTESTATION, |e.attestations|) {
      RefsFromStand(e.attestations, ATTESTATIONS, ATTESTATION, |e.attestations|, r);
      var row, a :| StandsFor(e.attestations, row, a, r);
      assert StandsFor(AllRows(e), row, a, r);
    } else if r in RefsFrom(e.attempts, ATTEMPTS, ATTEMPT, |e.attempts|) {
      RefsFromStand(e.attempts, ATTEMPTS, ATTEMPT, |e.attempts|, r);
      var row, a :| StandsFor(e.attempts, row, a, r);
      assert StandsFor(AllRows(e), row, a, r);
    } else {
      RefsFromStand(e.results, RESULTS, RESULT, |e.results|, r);
      var row, a :| StandsFor(e.results, row, a, r);
      assert StandsFor(AllRows(e), row, a, r);
    }
  }

  /** Every artifact with a key has a reference that stands for it. */
  lemma RefsCover(e: Evidence, row: Row, a: Named)
    requires row in AllRows(e) && a in row.artifacts && HasKey(a)
    ensures exists r :: r in Refs(e) && StandsFor(AllRows(e), row, a, r)
  {
    PrefixesAllowed();
    hide RefsFrom, IsPrefix, Tidy, SafePath, HasKey, ATTESTATIONS, ATTEMPTS, RESULTS, ATTESTATION, ATTEMPT, RESULT;
    if row in e.attestations {
      var k :| 0 <= k < |e.attestations| && e.attestations[k] == row;
      RefsFromCover(e.attestations, ATTESTATIONS, ATTESTATION, |e.attestations|, k, a);
      var r :| r in RefsFrom(e.attestations, ATTESTATIONS, ATTESTATION, |e.attestations|) && StandsFor(e.attestations, row, a, r);
      assert r in Refs(e) && StandsFor(AllRows(e), row, a, r);
    } else if row in e.attempts {
      var k :| 0 <= k < |e.attempts| && e.attempts[k] == row;
      RefsFromCover(e.attempts, ATTEMPTS, ATTEMPT, |e.attempts|, k, a);
      var r :| r in RefsFrom(e.attempts, ATTEMPTS, ATTEMPT, |e.attempts|) && StandsFor(e.attempts, row, a, r);
      assert r in Refs(e) && StandsFor(AllRows(e), row, a, r);
    } else {
      var k :| 0 <= k < |e.results| && e.results[k] == row;
      RefsFromCover(e.results, RESULTS, RESULT, |e.results|, k, a);
      var r :| r in RefsFrom(e.results, RESULTS, RESULT, |e.results|) && StandsFor(e.results, row, a, r);
      assert r in Refs(e) && StandsFor(AllRows(e), row, a, r);
    }
  }

  // Segments, labels and paths, by their characters.

  lemma UnderscoredSnoc(s: string, c: char)
    ensures Underscored(s + [c]) == Underscored(s) + Piece(s, c)
  {
    hide Piece;
    assert (s + [c])[..|s|] == s;
  }

  /** What a character becomes goes by the one before it, if there is one. */
  lemma PieceAfter(a: string, front: string, c: char)
    requires front != ""
    ensures Piece(a + front, c) == Piece(front, c)
  {
    hide IsAllowed;
    assert (a + front)[|a + front| - 1] == front[|front| - 1];
  }

  lemma PieceAtBorder(a: string, c: char)
    requires a == "" || IsAllowed(a[|a| - 1]) || IsAllowed(c)
    ensures Piece(a, c) == Piece("", c)
  {
    hide IsAllowed;
  }

  lemma NothingUnderscored()
    ensures Underscored("") == ""
  {
  }

  /** One more character at the end of both sides. */
  lemma UnderscoredStep(a: string, front: string, last: char)
    requires Underscored(a + front) == Underscored(a) + Underscored(front)
    requires Piece(a + front, last) == Piece(front, last)
    ensures Underscored(a + (front + [last])) == Underscored(a) + Underscored(front + [last])
  {
    hide Underscored, Piece;
    UnderscoredSnoc(a + front, last);
    UnderscoredSnoc(front, last);
    Appended(a, front, [last]);
    Appended(Underscored(a), Underscored(front), Piece(front, last));
  }

  lemma Appended(a: string, b: string, c: string)
    ensures (a + b) + c == a + (b + c)
  {
  }

  lemma {:induction false} UnderscoredSum(a: string, b: string)
    requires a == "" || b == "" || IsAllowed(a[|a| - 1]) || IsAllowed(b[0])
    ensures Underscored(a + b) == Underscored(a) + Underscored(b)
    decreases |b|
  {
    hide IsAllowed, Underscored, Piece;
    if b == "" {
      NothingUnderscored();
      assert a + b == a;
    } else {
      var front, last := b[..|b| - 1], b[|b| - 1];
      assert b == front + [last];
      UnderscoredSum(a, front);
      if front == "" {
        assert a + front == a;
        PieceAtBorder(a, last);
      } else {
        PieceAfter(a, front, last);
      }
      UnderscoredStep(a, front, last);
    }
  }

  predicate NoneAllowed(s: string) {
    forall i :: 0 <= i < |s| ==> !IsAllowed(s[i])
  }

  lemma {:induction false} RunIsOne(run: string)
    requires run != "" && NoneAllowed(run)
    ensures Underscored(run) == "_"
    decreases |run|
  {
    hide IsAllowed;
    if |run| > 1 {
      RunIsOne(run[..|run| - 1]);
    } else {
      assert Underscored(run) == "" + Piece("", run[0]);
    }
  }

  /** Allowed characters stay, and a run of others becomes one underscore. */
  lemma RunReplaced(a: string, run: string, b: string)
    requires AllAllowed(a) && run != "" && NoneAllowed(run) && AllAllowed(b)
    ensures Underscored(a) == a && Underscored(a + run + b) == a + "_" + b
  {
    hide Underscored, IsAllowed;
    UnderscoredShape(a);
    UnderscoredShape(b);
    RunIsOne(run);
    assert a != "" ==> IsAllowed(a[|a| - 1]);
    UnderscoredSum(a, run);
    if b == "" {
      assert a + run + b == a + run && a + "_" + b == a + "_";
    } else {
      assert IsAllowed(b[0]);
      UnderscoredSum(a + run, b);
    }
  }

  /** A value without text gives the fallback, any other one its first 120 characters once underscored. */
  lemma SegmentIs(value: Option<string>, fallback: string)
    ensures SafeSegment(value, fallback) ==
            if value.None? || (forall i :: 0 <= i < |value.value| ==> Normalizer.IsJsSpace(value.value[i])) then fallback
            else if |Underscored(value.value)| <= 120 then Underscored(value.value)
            else Underscored(value.value)[..120]
  {
    hide Underscored, Normalizer.IsJsSpace;
  }

  /** The file names of the known artifacts. */
  lemma LabelsAre()
    ensures Label("manifest") == "manifest.json" && Label("leaves") == "leaves.jsonl"
    ensures Label("receiptJson") == "receipt.json" && Label("receiptPdf") == "receipt.pdf"
    ensures Label("validationResult") == "validation-result.json" && Label("resultJson") == "result.json"
  {
    hide SafeSegment;
  }

  lemma OtherLabel(name: string)
    requires name != "manifest" && name != "leaves" && name != "receiptJson" && name != "receiptPdf"
    requires name != "validationResult" && name != "resultJson"
    ensures Label(name) == SafeSegment(Some(name), "artifact") + ".bin"
  {
    hide SafeSegment;
  }

  /** References stand under the name of their collection, then of their row, then of their artifact. */
  lemma RefsAre(e: Evidence)
    ensures Refs(e) == RefsFrom(e.attestations, "attestations", "attestation", |e.attestations|)
                       + RefsFrom(e.attempts, "attempts", "attempt", |e.attempts|)
                       + RefsFrom(e.results, "verification-results", "verification-result", |e.results|)
  {
    hide RefsFrom;
  }

  /** Rows without an id are numbered from one. */
  lemma DefaultSegment(row: Row, fallback: string, k: nat)
    requires row.id.None?
    ensures Segment(row, fallback, k) == fallback + "-" + Digits(k + 1)
    ensures k < 9 ==> Digits(k + 1) == ["123456789"[k]]
  {
    assert k < 9 ==> Digit(k + 1) == "123456789"[k];
  }

  /** The allowed characters by their code points: hyphen, full stop, digits, capitals, underscore, small letters. */
  lemma AllowedAre(c: char)
    ensures var n := c as int;
            IsAllowed(c) <==> 45 <= n <= 46 || 48 <= n <= 57 || 65 <= n <= 90 || n == 95 || 97 <= n <= 122
  {
  }

  /** An artifact of the manifest has this key, which is no empty text. */
  ghost predicate IsKey(e: Evidence, key: string) {
    key != "" && exists row, a :: row in AllRows(e) && a in row.artifacts && a.objectKey == Some(key)
  }

  /** The keys of the references are the keys of artifacts that are not empty. */
  lemma KeysAre(e: Evidence, key: string)
    ensures (exists r :: r in Refs(e) && r.objectKey == key) <==> IsKey(e, key)
  {
    hide Refs, Tidy;
    if r :| r in Refs(e) && r.objectKey == key {
      RefsStand(e, r);
      var row, a :| StandsFor(AllRows(e), row, a, r);
      assert row in AllRows(e) && a in row.artifacts && a.objectKey == Some(key);
    }
    if IsKey(e, key) {
      var row, a :| row in AllRows(e) && a in row.artifacts && a.objectKey == Some(key);
      RefsCover(e, row, a);
    }
  }
}
