/** The root hash of a revision, and what equal ones mean. */
module RevisionBinding {
  import opened Bytes
  import opened JsStrings
  import opened Json
  import opened CanonicalJson
  import opened JsonReader
  import opened CliJson
  import opened DatasetRevision
  import Hex

  const NEW: JsString := Lit("new")
  const CHANGED: JsString := Lit("changed")
  const REMOVED: JsString := Lit("removed")
  const UNCHANGED: JsString := Lit("unchanged")
  const PATH: JsString := Lit("path")
  const SHA256: JsString := Lit("sha256")
  const BYTE_SIZE: JsString := Lit("byte_size")
  const PREVIOUS_SHA256: JsString := Lit("previous_sha256")
  const NEXT_SHA256: JsString := Lit("next_sha256")
  const PREVIOUS_BYTE_SIZE: JsString := Lit("previous_byte_size")
  const NEXT_BYTE_SIZE: JsString := Lit("next_byte_size")

  /** The code units of a text in UTF-8. */
  function TextOf(b: Bytes): JsString {
    FromUtf8(b).GetOr([])
  }

  predicate IsText(b: Bytes) {
    Utf8(TextOf(b)) == b
  }

  // The value that is hashed.

  function RowFields(row: FileRow): seq<Field> {
    [Field(PATH, Str(TextOf(row.path))), Field(SHA256, Str(TextOf(row.sha256))),
     Field(BYTE_SIZE, Num(Integer(row.byteSize)))]
  }

  function ChangedFields(row: ChangedRow): seq<Field> {
    [Field(PATH, Str(TextOf(row.path))), Field(PREVIOUS_SHA256, Str(TextOf(row.previousSha256))),
     Field(NEXT_SHA256, Str(TextOf(row.nextSha256))), Field(PREVIOUS_BYTE_SIZE, Num(Integer(row.previousByteSize))),
     Field(NEXT_BYTE_SIZE, Num(Integer(row.nextByteSize)))]
  }

  function RowsJson(rows: seq<FileRow>): (r: seq<Json>)
    ensures |r| == |rows| && forall i :: 0 <= i < |r| ==> r[i] == Obj(RowFields(rows[i]))
  {
    if rows == [] then [] else [Obj(RowFields(rows[0]))] + RowsJson(rows[1..])
  }

  function ChangedJson(rows: seq<ChangedRow>): (r: seq<Json>)
    ensures |r| == |rows| && forall i :: 0 <= i < |r| ==> r[i] == Obj(ChangedFields(rows[i]))
  {
    if rows == [] then [] else [Obj(ChangedFields(rows[0]))] + ChangedJson(rows[1..])
  }

  function ChangesFields(c: Changes): seq<Field> {
    [Field(NEW, Arr(RowsJson(c.added))), Field(CHANGED, Arr(ChangedJson(c.changed))),
     Field(REMOVED, Arr(RowsJson(c.removed))), Field(UNCHANGED, Arr(RowsJson(c.kept)))]
  }

  /** The bytes whose hash is the root of a revision. */
  function RootInput(c: Changes): Bytes {
    CliBytes(Obj(ChangesFields(c)))
  }

  /** The root in hexadecimal. */
  function RevisionRoot(h: HashFn): Changes -> Bytes {
    (c: Changes) => Utf8(Hex.ToHex(h(RootInput(c))))
  }

  // The value is one that the CLI's canonical JSON tells apart.

  predicate IsProper(v: Json) {
    Readable(v) && HasDistinctNames(v) && HasTextNames(v)
  }

  lemma TopNamesDiffer()
    ensures |NEW| == 3 && |CHANGED| == 7 && |REMOVED| == 7 && |UNCHANGED| == 9 && CHANGED != REMOVED
    ensures JsStrings.WellFormed(NEW) && JsStrings.WellFormed(CHANGED) && JsStrings.WellFormed(REMOVED) && JsStrings.WellFormed(UNCHANGED)
  {
    assert CHANGED[0] == 'c' as int && REMOVED[0] == 'r' as int;
    AsciiWellFormed(NEW);
    AsciiWellFormed(CHANGED);
    AsciiWellFormed(REMOVED);
    AsciiWellFormed(UNCHANGED);
  }

  lemma RowNamesDiffer()
    ensures |PATH| == 4 && |SHA256| == 6 && |BYTE_SIZE| == 9
    ensures JsStrings.WellFormed(PATH) && JsStrings.WellFormed(SHA256) && JsStrings.WellFormed(BYTE_SIZE)
  {
    AsciiWellFormed(PATH);
    AsciiWellFormed(SHA256);
    AsciiWellFormed(BYTE_SIZE);
  }

  lemma ChangedNamesDiffer()
    ensures |PATH| == 4 && |PREVIOUS_SHA256| == 15 && |NEXT_SHA256| == 11 && |PREVIOUS_BYTE_SIZE| == 18 && |NEXT_BYTE_SIZE| == 14
    ensures JsStrings.WellFormed(PATH) && JsStrings.WellFormed(PREVIOUS_SHA256) && JsStrings.WellFormed(NEXT_SHA256)
    ensures JsStrings.WellFormed(PREVIOUS_BYTE_SIZE) && JsStrings.WellFormed(NEXT_BYTE_SIZE)
  {
    AsciiWellFormed(PATH);
    AsciiWellFormed(PREVIOUS_SHA256);
    AsciiWellFormed(NEXT_SHA256);
    AsciiWellFormed(PREVIOUS_BYTE_SIZE);
    AsciiWellFormed(NEXT_BYTE_SIZE);
  }

  lemma {:induction false} AsciiWellFormed(s: JsString)
    requires IsAsciiName(s)
    ensures JsStrings.WellFormed(s)
  {
    if s != [] {
      AsciiWellFormed(s[1..]);
    }
  }

  lemma RowIsProper(row: FileRow)
    ensures IsProper(Obj(RowFields(row))) && DistinctNames(RowFields(row))
  {
    RowNamesDiffer();
    hide PATH, SHA256, BYTE_SIZE, JsStrings.WellFormed, TextOf;
    FieldsAreProper(RowFields(row));
  }

  predicate IsScalar(v: Json) {
    v.Str? || (v.Num? && v.number.Integer?)
  }

  lemma FieldsAreProper(fields: seq<Field>)
    requires DistinctNames(fields)
    requires forall i :: 0 <= i < |fields| ==> IsScalar(fields[i].value) && JsStrings.WellFormed(fields[i].name)
    ensures IsProper(Obj(fields))
  {
    hide DistinctNames, JsStrings.WellFormed;
    forall i | 0 <= i < |fields|
      ensures Readable(fields[i].value) && HasDistinctNames(fields[i].value) && HasTextNames(fields[i].value)
    {
    }
  }

  lemma ChangedIsProper(row: ChangedRow)
    ensures IsProper(Obj(ChangedFields(row))) && DistinctNames(ChangedFields(row))
  {
    ChangedNamesDiffer();
    hide PATH, PREVIOUS_SHA256, NEXT_SHA256, PREVIOUS_BYTE_SIZE, NEXT_BYTE_SIZE, JsStrings.WellFormed, TextOf;
    FieldsAreProper(ChangedFields(row));
  }

  lemma RowsAreProper(rows: seq<FileRow>)
    ensures IsProper(Arr(RowsJson(rows)))
  {
    hide RowFields;
    forall i | 0 <= i < |rows| ensures IsProper(RowsJson(rows)[i]) {
      RowIsProper(rows[i]);
    }
  }

  lemma ChangedAreProper(rows: seq<ChangedRow>)
    ensures IsProper(Arr(ChangedJson(rows)))
  {
    hide ChangedFields;
    forall i | 0 <= i < |rows| ensures IsProper(ChangedJson(rows)[i]) {
      ChangedIsProper(rows[i]);
    }
  }

  lemma ChangesAreProper(c: Changes)
    ensures IsProper(Obj(ChangesFields(c))) && DistinctNames(ChangesFields(c))
  {
    TopNamesDiffer();
    RowsAreProper(c.added);
    ChangedAreProper(c.changed);
    RowsAreProper(c.removed);
    RowsAreProper(c.kept);
    hide NEW, CHANGED, REMOVED, UNCHANGED, JsStrings.WellFormed, RowsJson, ChangedJson;
  }

  // Equal values come from equal changes.

  predicate SameNames(f: seq<Field>, g: seq<Field>) {
    |f| == |g| && forall i :: 0 <= i < |f| ==> f[i].name == g[i].name
  }

  lemma SameAt(f: seq<Field>, g: seq<Field>, i: nat)
    requires SameNames(f, g) && DistinctNames(g) && SameValue(Obj(f), Obj(g)) && i < |f|
    ensures SameValue(f[i].value, g[i].value)
  {
    assert SameIn(f[i], g);
    var j :| 0 <= j < |g| && f[i].name == g[j].name && SameValue(f[i].value, g[j].value);
    assert g[i].name == g[j].name;
  }

  predicate RowIsText(row: FileRow) {
    IsText(row.path) && IsText(row.sha256)
  }

  predicate ChangedIsText(row: ChangedRow) {
    IsText(row.path) && IsText(row.previousSha256) && IsText(row.nextSha256)
  }

  /** Equal strings are of equal texts, equal numbers are equal. */
  lemma SameTextValue(b: Bytes, b': Bytes)
    requires IsText(b) && IsText(b') && SameValue(Str(TextOf(b)), Str(TextOf(b')))
    ensures b == b'
  {
    hide TextOf, Utf8;
  }

  lemma SameNumber(n: nat, n': nat)
    requires SameValue(Num(Integer(n)), Num(Integer(n')))
    ensures n == n'
  {
  }

  lemma SameRow(row: FileRow, row': FileRow)
    requires RowIsText(row) && RowIsText(row') && SameValue(Obj(RowFields(row)), Obj(RowFields(row')))
    ensures row == row'
  {
    RowIsProper(row');
    hide IsProper, DistinctNames, TextOf, IsText, SameValue, PATH, SHA256, BYTE_SIZE;
    var f, g := RowFields(row), RowFields(row');
    assert SameNames(f, g);
    SameAt(f, g, 0);
    SameAt(f, g, 1);
    SameAt(f, g, 2);
    SameTextValue(row.path, row'.path);
    SameTextValue(row.sha256, row'.sha256);
    SameNumber(row.byteSize, row'.byteSize);
  }

  lemma SameChangedRow(row: ChangedRow, row': ChangedRow)
    requires ChangedIsText(row) && ChangedIsText(row') && SameValue(Obj(ChangedFields(row)), Obj(ChangedFields(row')))
    ensures row == row'
  {
    ChangedIsProper(row');
    hide IsProper, DistinctNames, TextOf, IsText, SameValue,
      PATH, PREVIOUS_SHA256, NEXT_SHA256, PREVIOUS_BYTE_SIZE, NEXT_BYTE_SIZE;
    var f, g := ChangedFields(row), ChangedFields(row');
    assert SameNames(f, g);
    SameAt(f, g, 0);
    SameAt(f, g, 1);
    SameAt(f, g, 2);
    SameAt(f, g, 3);
    SameAt(f, g, 4);
    SameTextValue(row.path, row'.path);
    SameTextValue(row.previousSha256, row'.previousSha256);
    SameTextValue(row.nextSha256, row'.nextSha256);
    SameNumber(row.previousByteSize, row'.previousByteSize);
    SameNumber(row.nextByteSize, row'.nextByteSize);
  }

  lemma SameRows(rows: seq<FileRow>, rows': seq<FileRow>)
    requires forall i :: 0 <= i < |rows| ==> RowIsText(rows[i])
    requires forall i :: 0 <= i < |rows'| ==> RowIsText(rows'[i])
    requires SameValue(Arr(RowsJson(rows)), Arr(RowsJson(rows')))
    ensures rows == rows'
  {
    hide RowFields, RowIsText;
    forall i | 0 <= i < |rows| ensures rows[i] == rows'[i] {
      assert SameValue(RowsJson(rows)[i], RowsJson(rows')[i]);
      SameRow(rows[i], rows'[i]);
    }
  }

  lemma SameChangedRows(rows: seq<ChangedRow>, rows': seq<ChangedRow>)
    requires forall i :: 0 <= i < |rows| ==> ChangedIsText(rows[i])
    requires forall i :: 0 <= i < |rows'| ==> ChangedIsText(rows'[i])
    requires SameValue(Arr(ChangedJson(rows)), Arr(ChangedJson(rows')))
    ensures rows == rows'
  {
    hide ChangedFields, ChangedIsText;
    forall i | 0 <= i < |rows| ensures rows[i] == rows'[i] {
      assert SameValue(ChangedJson(rows)[i], ChangedJson(rows')[i]);
      SameChangedRow(rows[i], rows'[i]);
    }
  }

  /** Paths and hashes are texts, as they are wherever they come from. */
  predicate AreTexts(c: Changes) {
    && (forall i :: 0 <= i < |c.added| ==> RowIsText(c.added[i]))
    && (forall i :: 0 <= i < |c.changed| ==> ChangedIsText(c.changed[i]))
    && (forall i :: 0 <= i < |c.removed| ==> RowIsText(c.removed[i]))
    && (forall i :: 0 <= i < |c.kept| ==> RowIsText(c.kept[i]))
  }

  lemma SameChanges(c: Changes, c': Changes)
    requires AreTexts(c) && AreTexts(c') && SameValue(Obj(ChangesFields(c)), Obj(ChangesFields(c')))
    ensures c == c'
  {
    ChangesAreProper(c');
    hide IsProper, DistinctNames, RowIsText, ChangedIsText, RowsJson, ChangedJson, NEW, CHANGED, REMOVED, UNCHANGED, SameValue;
    var f, g := ChangesFields(c), ChangesFields(c');
    assert SameNames(f, g);
    SameAt(f, g, 0);
    SameAt(f, g, 1);
    SameAt(f, g, 2);
    SameAt(f, g, 3);
    SameRows(c.added, c'.added);
    SameChangedRows(c.changed, c'.changed);
    SameRows(c.removed, c'.removed);
    SameRows(c.kept, c'.kept);
  }

  /** Equal roots mean equal changes, or the two hashed strings collide. */
  lemma RootBindsChanges(h: HashFn, c: Changes, c': Changes)
    requires AreTexts(c) && AreTexts(c') && RevisionRoot(h)(c) == RevisionRoot(h)(c')
    ensures c == c' || Collides(h, RootInput(c), RootInput(c'))
  {
    hide ChangesFields, AreTexts, CliBytes, Hex.ToHex, Hex.FromHex, IsAsciiName, Utf8, SameValue, Readable, HasDistinctNames, HasTextNames;
    SameDigest(h(RootInput(c)), h(RootInput(c')));
    if RootInput(c) == RootInput(c') {
      ChangesAreProper(c);
      ChangesAreProper(c');
      CliBytesDecide(Obj(ChangesFields(c)), Obj(ChangesFields(c')));
      SameChanges(c, c');
    }
  }

  lemma SameDigest(x: Digest, y: Digest)
    requires Utf8(Hex.ToHex(x)) == Utf8(Hex.ToHex(y))
    ensures x == y
  {
    Hex.ToHexShape(x);
    Hex.ToHexShape(y);
    hide Hex.ToHex, Hex.FromHex, Utf8;
    Utf8OfAscii(Hex.ToHex(x));
    Utf8OfAscii(Hex.ToHex(y));
    Hex.HexRoundTrip(x);
    Hex.HexRoundTrip(y);
  }

  // From inventories.

  /** The texts of a list of files. */
  predicate ItemIsText(item: Item) {
    (item.path.Some? ==> IsText(item.path.value)) && (item.sha256.Some? ==> IsText(item.sha256.value))
  }

  predicate HasTexts(inventory: Inventory) {
    inventory.files.Some? ==>
      forall i :: 0 <= i < |inventory.files.value| ==> ItemIsText(inventory.files.value[i])
  }

  ghost predicate MapHasTexts(m: TreeMap) {
    forall path :: path in m.entries ==> IsText(path) && IsText(m.entries[path].sha256)
  }

  lemma FilesHaveTexts(inventory: Inventory)
    requires HasTexts(inventory) && InventoryMap(inventory).Ok?
    ensures Valid(InventoryMap(inventory).value) && MapHasTexts(InventoryMap(inventory).value)
  {
    hide FileMapOf, Valid, IsText;
    var items := inventory.files.value;
    var m := FileMapOf(items, |items|).value;
    MapIsValid(items, |items|);
    FileMapMeans(items, |items|);
    forall path | path in m.entries ensures IsText(path) && IsText(m.entries[path].sha256) {
      var entry := m.entries[path];
      assert HasFile(m, path, entry);
      var k :| 0 <= k < |items| && items[k] == Item(Some(path), Some(entry.sha256), Some(entry.byteSize));
      assert ItemIsText(items[k]);
    }
  }

  lemma ChosenAreTexts(base: TreeMap, next: TreeMap)
    requires Valid(base) && Valid(next) && MapHasTexts(base) && MapHasTexts(next)
    ensures AreTexts(ChangesOf(base, next))
  {
    hide Valid, Chosen, IsText;
    var c := ChangesOf(base, next);
    forall i | 0 <= i < |c.added| ensures RowIsText(c.added[i]) {
      ChosenAt(next, Only(base, next), c.added[i]);
    }
    forall i | 0 <= i < |c.changed| ensures ChangedIsText(c.changed[i]) {
      ChosenAt(next, Changing(base, next), c.changed[i]);
    }
    forall i | 0 <= i < |c.removed| ensures RowIsText(c.removed[i]) {
      ChosenAt(base, Only(next, base), c.removed[i]);
    }
    forall i | 0 <= i < |c.kept| ensures RowIsText(c.kept[i]) {
      ChosenAt(next, Staying(base, next), c.kept[i]);
    }
  }

  lemma RevisionHasTexts(h: HashFn, base: Inventory, next: Inventory)
    requires HasTexts(base) && HasTexts(next) && RevisionOf(base, next, RevisionRoot(h)).Ok?
    ensures var r := RevisionOf(base, next, RevisionRoot(h)).value;
            AreTexts(r.changes) && r.revisionRootHash == RevisionRoot(h)(r.changes)
  {
    hide FileMapOf, Valid, MapHasTexts, ChangesOf, AreTexts, HasTexts, RevisionRoot, MetadataOf;
    FilesHaveTexts(base);
    FilesHaveTexts(next);
    ChosenAreTexts(InventoryMap(base).value, InventoryMap(next).value);
  }

  /**
    Two revisions with one root are of inventories with the same next files, and with the same base paths and
    hashes; or the two strings hashed for the roots collide.
    */
  lemma RootBindsInventories(h: HashFn, base: Inventory, next: Inventory, base': Inventory, next': Inventory)
    requires HasTexts(base) && HasTexts(next) && HasTexts(base') && HasTexts(next')
    requires RevisionOf(base, next, RevisionRoot(h)).Ok? && RevisionOf(base', next', RevisionRoot(h)).Ok?
    requires RevisionOf(base, next, RevisionRoot(h)).value.revisionRootHash
             == RevisionOf(base', next', RevisionRoot(h)).value.revisionRootHash
    ensures var c := RevisionOf(base, next, RevisionRoot(h)).value.changes;
            var c' := RevisionOf(base', next', RevisionRoot(h)).value.changes;
            || Collides(h, RootInput(c), RootInput(c'))
            || (&& c == c' && InventoryMap(base).Ok? && InventoryMap(base').Ok? && InventoryMap(next).Ok? && InventoryMap(next').Ok?
                && InventoryMap(next).value.entries == InventoryMap(next').value.entries
                && InventoryMap(base).value.entries.Keys == InventoryMap(base').value.entries.Keys
                && forall path :: path in InventoryMap(base).value.entries ==>
                     InventoryMap(base).value.entries[path].sha256 == InventoryMap(base').value.entries[path].sha256)
  {
    hide RevisionOf, InventoryMap, RevisionRoot, RootInput, AreTexts, HasTexts, NextRows, BaseRows, Recovered;
    RevisionHasTexts(h, base, next);
    RevisionHasTexts(h, base', next');
    var c := RevisionOf(base, next, RevisionRoot(h)).value.changes;
    var c' := RevisionOf(base', next', RevisionRoot(h)).value.changes;
    RootBindsChanges(h, c, c');
    RecordTellsBoth(base, next, RevisionRoot(h));
    RecordTellsBoth(base', next', RevisionRoot(h));
  }

  // What is hashed, as a reader finds it.

  predicate ReadsRow(v: Json, row: FileRow) {
    && v.Obj? && Lookup(v.fields, Lit("path")) == Str(TextOf(row.path))
    && Lookup(v.fields, Lit("sha256")) == Str(TextOf(row.sha256))
    && Lookup(v.fields, Lit("byte_size")) == Num(Integer(row.byteSize))
  }

  predicate ReadsHashes(fields: seq<Field>, row: ChangedRow) {
    && Lookup(fields, Lit("path")) == Str(TextOf(row.path))
    && Lookup(fields, Lit("previous_sha256")) == Str(TextOf(row.previousSha256))
    && Lookup(fields, Lit("next_sha256")) == Str(TextOf(row.nextSha256))
  }

  predicate ReadsSizes(fields: seq<Field>, row: ChangedRow) {
    && Lookup(fields, Lit("previous_byte_size")) == Num(Integer(row.previousByteSize))
    && Lookup(fields, Lit("next_byte_size")) == Num(Integer(row.nextByteSize))
  }

  predicate ReadsChanged(v: Json, row: ChangedRow) {
    v.Obj? && ReadsHashes(v.fields, row) && ReadsSizes(v.fields, row)
  }

  predicate ReadsRows(v: Json, rows: seq<FileRow>) {
    v.Arr? && |v.items| == |rows| && forall i :: 0 <= i < |rows| ==> ReadsRow(v.items[i], rows[i])
  }

  predicate ReadsChangedRows(v: Json, rows: seq<ChangedRow>) {
    v.Arr? && |v.items| == |rows| && forall i :: 0 <= i < |rows| ==> ReadsChanged(v.items[i], rows[i])
  }

  lemma RowReads(row: FileRow)
    ensures ReadsRow(Normal(Obj(RowFields(row))), row)
  {
    RowIsProper(row);
    RowNames(row);
    hide IsProper, Normal, DistinctNames, Lookup, TextOf, RowFields, Lit;
    var fields := RowFields(row);
    LookupNormal(fields, Lit("path"));
    LookupNormal(fields, Lit("sha256"));
    LookupNormal(fields, Lit("byte_size"));
    LookupIn(fields, fields[0]);
    LookupIn(fields, fields[1]);
    LookupIn(fields, fields[2]);
    NormalObject(fields);
  }

  lemma RowNames(row: FileRow)
    ensures var f := RowFields(row);
            && |f| == 3 && f[0].name == Lit("path") && f[1].name == Lit("sha256") && f[2].name == Lit("byte_size")
            && Normal(f[0].value) == Str(TextOf(row.path)) && Normal(f[1].value) == Str(TextOf(row.sha256))
            && Normal(f[2].value) == Num(Integer(row.byteSize))
  {
  }

  lemma NormalObject(fields: seq<Field>)
    ensures Normal(Obj(fields)).Obj?
  {
  }

  lemma ChangedReads(row: ChangedRow)
    ensures ReadsChanged(Normal(Obj(ChangedFields(row))), row)
  {
    ChangedIsProper(row);
    ChangedNames(row);
    hide IsProper, Normal, DistinctNames, Lookup, TextOf, ChangedFields, Lit;
    var fields := ChangedFields(row);
    LookupNormal(fields, Lit("path"));
    LookupNormal(fields, Lit("previous_sha256"));
    LookupNormal(fields, Lit("next_sha256"));
    LookupNormal(fields, Lit("previous_byte_size"));
    LookupNormal(fields, Lit("next_byte_size"));
    LookupIn(fields, fields[0]);
    LookupIn(fields, fields[1]);
    LookupIn(fields, fields[2]);
    LookupIn(fields, fields[3]);
    LookupIn(fields, fields[4]);
    NormalObject(fields);
  }

  lemma ChangedNames(row: ChangedRow)
    ensures var f := ChangedFields(row);
            && |f| == 5 && f[0].name == Lit("path") && f[1].name == Lit("previous_sha256") && f[2].name == Lit("next_sha256")
            && f[3].name == Lit("previous_byte_size") && f[4].name == Lit("next_byte_size")
            && Normal(f[0].value) == Str(TextOf(row.path)) && Normal(f[1].value) == Str(TextOf(row.previousSha256))
            && Normal(f[2].value) == Str(TextOf(row.nextSha256)) && Normal(f[3].value) == Num(Integer(row.previousByteSize))
            && Normal(f[4].value) == Num(Integer(row.nextByteSize))
  {
  }

  lemma RowsRead(rows: seq<FileRow>)
    ensures ReadsRows(Normal(Arr(RowsJson(rows))), rows)
  {
    hide RowFields, ReadsRow;
    forall i | 0 <= i < |rows| ensures ReadsRow(Normal(RowsJson(rows)[i]), rows[i]) {
      RowReads(rows[i]);
    }
  }

  lemma ChangedRowsRead(rows: seq<ChangedRow>)
    ensures ReadsChangedRows(Normal(Arr(ChangedJson(rows))), rows)
  {
    hide ChangedFields, ReadsChanged;
    forall i | 0 <= i < |rows| ensures ReadsChanged(Normal(ChangedJson(rows)[i]), rows[i]) {
      ChangedReads(rows[i]);
    }
  }

  lemma TopNames(c: Changes)
    ensures var f := ChangesFields(c);
            && |f| == 4 && f[0] == Field(Lit("new"), Arr(RowsJson(c.added)))
            && f[1] == Field(Lit("changed"), Arr(ChangedJson(c.changed)))
            && f[2] == Field(Lit("removed"), Arr(RowsJson(c.removed)))
            && f[3] == Field(Lit("unchanged"), Arr(RowsJson(c.kept)))
  {
    hide RowsJson, ChangedJson;
  }

  lemma AsciiRow(row: FileRow)
    ensures HasAsciiNames(Obj(RowFields(row)))
  {
    hide TextOf;
  }

  lemma AsciiChanged(row: ChangedRow)
    ensures HasAsciiNames(Obj(ChangedFields(row)))
  {
    hide TextOf;
  }

  lemma AsciiNames(c: Changes)
    ensures HasAsciiNames(Obj(ChangesFields(c)))
  {
    hide RowsJson, ChangedJson, IsAsciiName, NEW, CHANGED, REMOVED, UNCHANGED;
    AsciiRows(c.added);
    AsciiRows(c.removed);
    AsciiRows(c.kept);
    AsciiChangedRows(c.changed);
    AsciiTop();
  }

  lemma AsciiChangedRows(rows: seq<ChangedRow>)
    ensures HasAsciiNames(Arr(ChangedJson(rows)))
  {
    hide ChangedFields;
    forall i | 0 <= i < |rows| ensures HasAsciiNames(ChangedJson(rows)[i]) {
      AsciiChanged(rows[i]);
    }
  }

  lemma AsciiTop()
    ensures IsAsciiName(NEW) && IsAsciiName(CHANGED) && IsAsciiName(REMOVED) && IsAsciiName(UNCHANGED)
  {
  }

  lemma AsciiRows(rows: seq<FileRow>)
    ensures HasAsciiNames(Arr(RowsJson(rows)))
  {
    hide RowFields;
    forall i | 0 <= i < |rows| ensures HasAsciiNames(RowsJson(rows)[i]) {
      AsciiRow(rows[i]);
    }
  }

  /** The bytes that the CLI hashes are read back with names in order. */
  lemma CliBytesParse(v: Json)
    requires Readable(v) && HasAsciiNames(v)
    ensures ParseBytes(CliBytes(v)) == Some(Normal(v))
  {
    hide Ordered, Normal, Write, Utf8, FromUtf8, JsStrings.WellFormed, Readable, HasAsciiNames, ReadValue;
    OrderedIsNormal(v);
    OrderedReadable(v);
    WriteWellFormed(Normal(v));
    Utf8RoundTrip(Write(Normal(v)));
    ReadBack(Normal(v), []);
    assert Write(Normal(v)) + [] == Write(Normal(v));
  }

  /** A reader of the bytes hashed for a root finds the four lists under their names, row by row. */
  lemma RootInputReads(c: Changes)
    ensures var v := ParseBytes(RootInput(c));
            && v.Some? && v.value.Obj?
            && ReadsRows(Lookup(v.value.fields, Lit("new")), c.added)
            && ReadsChangedRows(Lookup(v.value.fields, Lit("changed")), c.changed)
            && ReadsRows(Lookup(v.value.fields, Lit("removed")), c.removed)
            && ReadsRows(Lookup(v.value.fields, Lit("unchanged")), c.kept)
  {
    TopLiterals();
    hide *;
    var fields := ChangesFields(c);
    ChangesReadable(c);
    AsciiNames(c);
    CliBytesParse(Obj(fields));
    RootInputIs(c);
    NormalObject(fields);
    TopNames(c);
    LookupNormal(fields, Lit("new"));
    LookupNormal(fields, Lit("changed"));
    LookupNormal(fields, Lit("removed"));
    LookupNormal(fields, Lit("unchanged"));
    LookupIn(fields, fields[0]);
    LookupIn(fields, fields[1]);
    LookupIn(fields, fields[2]);
    LookupIn(fields, fields[3]);
    RowsRead(c.added);
    ChangedRowsRead(c.changed);
    RowsRead(c.removed);
    RowsRead(c.kept);
  }

  lemma TopLiterals()
    ensures IsAscii("new") && IsAscii("changed") && IsAscii("removed") && IsAscii("unchanged")
  {
  }

  lemma ChangesReadable(c: Changes)
    ensures Readable(Obj(ChangesFields(c))) && DistinctNames(ChangesFields(c))
  {
    ChangesAreProper(c);
    hide ChangesFields, DistinctNames;
  }

  lemma RootInputIs(c: Changes)
    ensures RootInput(c) == CliBytes(Obj(ChangesFields(c)))
  {
  }
}
