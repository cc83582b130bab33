/** What changed between two dataset inventories, and how both are recovered from the record of it. */
module DatasetRevision {
  import opened Bytes
  import ByteOrder
  import Lexicographic
  import Sorting

  /** One element of a files array; a field that is absent or malformed is None. */
  datatype Item = Item(path: Option<Bytes>, sha256: Option<Bytes>, byteSize: Option<nat>)

  /** A field that may be missing or null but must be a string otherwise. */
  datatype OptionalText = Missing | Text(text: Bytes) | NotText

  /** The fields of an inventory that are read before its files; one that is absent or malformed is None. */
  datatype Header = Header(
    recordType: Option<string>, schemaVersion: Option<Bytes>, name: Option<Bytes>, version: Option<Bytes>,
    scope: Option<Bytes>, fileCount: Option<nat>, totalBytes: Option<nat>, rootHash: Option<Bytes>,
    classification: Option<Bytes>, sourceOwner: OptionalText, licenseBasis: OptionalText, retentionRule: OptionalText)

  datatype Inventory = Inventory(header: Header, files: Option<seq<Item>>)

  /** What the record of a revision takes from a header. */
  datatype Metadata = Metadata(name: Bytes, version: Bytes, rootHash: Bytes)

  datatype HeaderField =
    | RecordType | SchemaVersion | Name | Version | Scope | FileCount | TotalBytes | RootHash | Classification
    | SourceOwner | LicenseBasis | RetentionRule

  const INVENTORY_RECORD := "dataset_inventory_record"

  datatype FileEntry = FileEntry(sha256: Bytes, byteSize: nat)

  /** A map that is walked in the byte order of its keys. */
  datatype TreeMap = TreeMap(keys: seq<Bytes>, entries: map<Bytes, FileEntry>)

  datatype RevisionError = BadField(field: HeaderField) | WrongRecordType | NameMismatch | MissingFiles | MissingPath | DuplicatePath | BadHash | MissingSize

  datatype FileRow = FileRow(path: Bytes, sha256: Bytes, byteSize: nat)

  datatype ChangedRow = ChangedRow(
    path: Bytes, previousSha256: Bytes, nextSha256: Bytes, previousByteSize: nat, nextByteSize: nat)

  datatype Changes = Changes(
    added: seq<FileRow>, changed: seq<ChangedRow>, removed: seq<FileRow>, kept: seq<FileRow>)

  datatype Revision = Revision(
    name: Bytes, previousVersion: Bytes, nextVersion: Bytes,
    addedCount: nat, changedCount: nat, removedCount: nat, keptCount: nat,
    previousRootHash: Bytes, nextRootHash: Bytes, revisionRootHash: Bytes,
    changes: Changes)

  const NO_FILES := TreeMap([], map[])

  /** The header's metadata, or its first fault. */
  function MetadataOf(h: Header): Result<Metadata, RevisionError> {
    if h.recordType.None? then Err(BadField(RecordType))
    else if h.recordType.value != INVENTORY_RECORD then Err(WrongRecordType)
    else if h.schemaVersion.None? then Err(BadField(SchemaVersion))
    else if h.name.None? then Err(BadField(Name))
    else if h.version.None? then Err(BadField(Version))
    else if h.scope.None? then Err(BadField(Scope))
    else if h.fileCount.None? then Err(BadField(FileCount))
    else if h.totalBytes.None? then Err(BadField(TotalBytes))
    else if h.rootHash.None? then Err(BadField(RootHash))
    else if h.classification.None? then Err(BadField(Classification))
    else if h.sourceOwner.NotText? then Err(BadField(SourceOwner))
    else if h.licenseBasis.NotText? then Err(BadField(LicenseBasis))
    else if h.retentionRule.NotText? then Err(BadField(RetentionRule))
    else Ok(Metadata(h.name.value, h.version.value, h.rootHash.value))
  }

  ghost predicate Valid(m: TreeMap) {
    Sorting.Ascending<Bytes>(ByteOrder.Less, m.keys) && forall p :: p in m.keys <==> p in m.entries
  }

  function Put(m: TreeMap, path: Bytes, entry: FileEntry): TreeMap {
    TreeMap(Sorting.Insert(ByteOrder.Less, path, m.keys), m.entries[path := entry])
  }

  /** The map of the first n items, or the first fault among them. */
  function FileMapOf(items: seq<Item>, n: nat): Result<TreeMap, RevisionError>
    requires n <= |items|
  {
    if n == 0 then Ok(NO_FILES)
    else
      match FileMapOf(items, n - 1)
      case Err(e) => Err(e)
      case Ok(m) =>
        var file := items[n - 1];
        if file.path.None? then Err(MissingPath)
        else if file.path.value in m.entries then Err(DuplicatePath)
        else if file.sha256.None? then Err(BadHash)
        else if file.byteSize.None? then Err(MissingSize)
        else Ok(Put(m, file.path.value, FileEntry(file.sha256.value, file.byteSize.value)))
  }

  function InventoryMap(inventory: Inventory): Result<TreeMap, RevisionError> {
    if inventory.files.None? then Err(MissingFiles) else FileMapOf(inventory.files.value, |inventory.files.value|)
  }

  lemma {:induction false} FaultIsFinal(items: seq<Item>, n: nat, m: nat)
    requires n <= m <= |items| && FileMapOf(items, n).Err?
    ensures FileMapOf(items, m) == FileMapOf(items, n)
    decreases m
  {
    if n < m {
      FaultIsFinal(items, n, m - 1);
    }
  }

  method DatasetFileMap(inventory: Inventory) returns (r: Result<TreeMap, RevisionError>)
    ensures r == InventoryMap(inventory)
  {
    if inventory.files.None? {
      return Err(MissingFiles);
    }
    var items := inventory.files.value;
    var files := NO_FILES;
    for i := 0 to |items|
      invariant FileMapOf(items, i) == Ok(files)
    {
      var file := items[i];
      if FileMapOf(items, i + 1).Err? {
        FaultIsFinal(items, i + 1, |items|);
      }
      if file.path.None? {
        return Err(MissingPath);
      }
      if file.path.value in files.entries {
        return Err(DuplicatePath);
      }
      if file.sha256.None? {
        return Err(BadHash);
      }
      if file.byteSize.None? {
        return Err(MissingSize);
      }
      files := Put(files, file.path.value, FileEntry(file.sha256.value, file.byteSize.value));
    }
    r := Ok(files);
  }

  // The comparison.

  /** What f picks for the first n keys, in order. */
  function Chosen<T>(keys: seq<Bytes>, n: nat, f: Bytes -> Option<T>): seq<T>
    requires n <= |keys|
  {
    if n == 0 then []
    else Chosen(keys, n - 1, f) + match f(keys[n - 1]) case None => [] case Some(x) => [x]
  }

  function Row(m: TreeMap, path: Bytes): FileRow
    requires path in m.entries
  {
    FileRow(path, m.entries[path].sha256, m.entries[path].byteSize)
  }

  /** In the second map and not in the first. */
  function Only(first: TreeMap, second: TreeMap): Bytes -> Option<FileRow> {
    path => if path in second.entries && path !in first.entries then Some(Row(second, path)) else None
  }

  function Changing(base: TreeMap, next: TreeMap): Bytes -> Option<ChangedRow> {
    path =>
      if path in next.entries && path in base.entries && base.entries[path].sha256 != next.entries[path].sha256
      then Some(ChangedRow(path, base.entries[path].sha256, next.entries[path].sha256,
                           base.entries[path].byteSize, next.entries[path].byteSize))
      else None
  }

  function Staying(base: TreeMap, next: TreeMap): Bytes -> Option<FileRow> {
    path =>
      if path in next.entries && path in base.entries && base.entries[path].sha256 == next.entries[path].sha256
      then Some(Row(next, path)) else None
  }

  function ChangesOf(base: TreeMap, next: TreeMap): Changes {
    Changes(Chosen(next.keys, |next.keys|, Only(base, next)),
            Chosen(next.keys, |next.keys|, Changing(base, next)),
            Chosen(base.keys, |base.keys|, Only(next, base)),
            Chosen(next.keys, |next.keys|, Staying(base, next)))
  }

  function RevisionOf(base: Inventory, next: Inventory, rootHash: Changes -> Bytes): Result<Revision, RevisionError> {
    match (MetadataOf(base.header), MetadataOf(next.header))
    case (Err(e), _) => Err(e)
    case (_, Err(e)) => Err(e)
    case (Ok(was), Ok(will)) =>
      if was.name != will.name then Err(NameMismatch)
      else
        match (InventoryMap(base), InventoryMap(next))
        case (Err(e), _) => Err(e)
        case (_, Err(e)) => Err(e)
        case (Ok(b), Ok(n)) =>
          var c := ChangesOf(b, n);
          Ok(Revision(was.name, was.version, will.version,
                      |c.added|, |c.changed|, |c.removed|, |c.kept|,
                      was.rootHash, will.rootHash, rootHash(c), c))
  }

  lemma {:induction false} MapIsValid(items: seq<Item>, n: nat)
    requires n <= |items| && FileMapOf(items, n).Ok?
    ensures Valid(FileMapOf(items, n).value)
  {
    if n > 0 {
      MapIsValid(items, n - 1);
      var m := FileMapOf(items, n - 1).value;
      var file := items[n - 1];
      PutIsValid(m, file.path.value, FileEntry(file.sha256.value, file.byteSize.value));
    }
  }

  lemma PutIsValid(m: TreeMap, path: Bytes, entry: FileEntry)
    requires Valid(m) && path !in m.entries
    ensures Valid(Put(m, path, entry))
  {
    var keys := Sorting.Insert<Bytes>(ByteOrder.Less, path, m.keys);
    InsertAscends(path, m.keys);
    Sorting.InsertKeeps<Bytes>(ByteOrder.Less, path, m.keys);
    forall p ensures p in keys <==> p in m.entries[path := entry] {
      assert p in keys <==> p in multiset(keys);
      assert p in m.keys <==> p in multiset(m.keys);
    }
  }

  lemma InsertAscends(path: Bytes, keys: seq<Bytes>)
    requires Sorting.Ascending<Bytes>(ByteOrder.Less, keys) && path !in keys
    ensures Sorting.Ascending<Bytes>(ByteOrder.Less, Sorting.Insert<Bytes>(ByteOrder.Less, path, keys))
  {
    hide ByteOrder.Less, Sorting.Insert;
    var inserted := Sorting.Insert<Bytes>(ByteOrder.Less, path, keys);
    ByteOrder.IsStrictOrder();
    ByteOrder.IsConnected();
    Sorting.AscendingIsSorted<Bytes>(ByteOrder.Less, keys);
    Sorting.InsertSorted<Bytes>(ByteOrder.Less, path, keys);
    Sorting.InsertKeeps<Bytes>(ByteOrder.Less, path, keys);
    InsertDistinct(path, keys, inserted);
    Sorting.DistinctSortedAscends<Bytes>(ByteOrder.Less, inserted);
  }

  lemma InsertDistinct(path: Bytes, keys: seq<Bytes>, inserted: seq<Bytes>)
    requires Sorting.Ascending<Bytes>(ByteOrder.Less, keys) && path !in keys
    requires multiset(inserted) == multiset{path} + multiset(keys)
    ensures Sorting.Distinct<Bytes>(inserted)
  {
    ByteOrder.IsStrictOrder();
    hide ByteOrder.Less;
    var front: seq<Bytes> := [path] + keys;
    assert multiset(front) == multiset{path} + multiset(keys);
    Sorting.DistinctPermuted<Bytes>(front, inserted);
  }

  /** What the next key adds to each list. */
  lemma NextPick(base: TreeMap, next: TreeMap, i: nat)
    requires i < |next.keys| && Valid(next)
    ensures next.keys[i] in next.entries
    ensures var path := next.keys[i];
            && Chosen(next.keys, i + 1, Only(base, next)) ==
               Chosen(next.keys, i, Only(base, next)) + (if path in base.entries then [] else [Row(next, path)])
            && Chosen(next.keys, i + 1, Changing(base, next)) ==
               Chosen(next.keys, i, Changing(base, next))
               + (if path in base.entries && base.entries[path].sha256 != next.entries[path].sha256
                  then [ChangedRow(path, base.entries[path].sha256, next.entries[path].sha256,
                                   base.entries[path].byteSize, next.entries[path].byteSize)]
                  else [])
            && Chosen(next.keys, i + 1, Staying(base, next)) ==
               Chosen(next.keys, i, Staying(base, next))
               + (if path in base.entries && base.entries[path].sha256 == next.entries[path].sha256
                  then [Row(next, path)] else [])
  {
  }

  lemma NothingChosen(base: TreeMap, next: TreeMap)
    ensures Chosen(next.keys, 0, Only(base, next)) == [] && Chosen(next.keys, 0, Changing(base, next)) == []
    ensures Chosen(next.keys, 0, Staying(base, next)) == []
  {
  }

  /** One pass over the next inventory and one over the base, each in path order. */
  method BuildDatasetRevisionRecord(base: Inventory, next: Inventory, rootHash: Changes -> Bytes)
    returns (r: Result<Revision, RevisionError>)
    ensures r == RevisionOf(base, next, rootHash)
  {
    hide Chosen, Only, Changing, Staying, FileMapOf, Valid, MetadataOf;
    var baseMeta := MetadataOf(base.header);
    if baseMeta.Err? {
      return Err(baseMeta.error);
    }
    var nextMeta := MetadataOf(next.header);
    if nextMeta.Err? {
      return Err(nextMeta.error);
    }
    var was, will := baseMeta.value, nextMeta.value;
    if was.name != will.name {
      return Err(NameMismatch);
    }
    var baseMap := DatasetFileMap(base);
    if baseMap.Err? {
      return Err(baseMap.error);
    }
    var nextMap := DatasetFileMap(next);
    if nextMap.Err? {
      return Err(nextMap.error);
    }
    var baseFiles, nextFiles := baseMap.value, nextMap.value;
    MapIsValid(base.files.value, |base.files.value|);
    MapIsValid(next.files.value, |next.files.value|);
    var added: seq<FileRow>, changed: seq<ChangedRow>, removed: seq<FileRow>, kept: seq<FileRow> := [], [], [], [];
    NothingChosen(baseFiles, nextFiles);
    NothingChosen(nextFiles, baseFiles);
    for i := 0 to |nextFiles.keys|
      invariant added == Chosen(nextFiles.keys, i, Only(baseFiles, nextFiles))
      invariant changed == Chosen(nextFiles.keys, i, Changing(baseFiles, nextFiles))
      invariant kept == Chosen(nextFiles.keys, i, Staying(baseFiles, nextFiles))
    {
      var path := nextFiles.keys[i];
      NextPick(baseFiles, nextFiles, i);
      var nextFile := nextFiles.entries[path];
      if path !in baseFiles.entries {
        added := added + [FileRow(path, nextFile.sha256, nextFile.byteSize)];
      } else {
        var baseFile := baseFiles.entries[path];
        if baseFile.sha256 != nextFile.sha256 {
          changed := changed + [ChangedRow(path, baseFile.sha256, nextFile.sha256, baseFile.byteSize, nextFile.byteSize)];
        } else {
          kept := kept + [FileRow(path, nextFile.sha256, nextFile.byteSize)];
        }
      }
    }
    for i := 0 to |baseFiles.keys|
      invariant removed == Chosen(baseFiles.keys, i, Only(nextFiles, baseFiles))
    {
      var path := baseFiles.keys[i];
      NextPick(nextFiles, baseFiles, i);
      var baseFile := baseFiles.entries[path];
      if path !in nextFiles.entries {
        removed := removed + [FileRow(path, baseFile.sha256, baseFile.byteSize)];
      }
    }
    var changes := Changes(added, changed, removed, kept);
    r := Ok(Revision(was.name, was.version, will.version, |added|, |changed|, |removed|, |kept|,
                     was.rootHash, will.rootHash, rootHash(changes), changes));
  }

  // Partition and recovery.

  lemma {:induction false} ChosenFrom<T>(keys: seq<Bytes>, n: nat, f: Bytes -> Option<T>, x: T)
    requires n <= |keys|
    ensures x in Chosen(keys, n, f) <==> exists k :: 0 <= k < n && f(keys[k]) == Some(x)
  {
    if n > 0 {
      ChosenFrom(keys, n - 1, f, x);
    }
  }

  /** A row for a path of the map is chosen exactly when f picks it for that path. */
  lemma ChosenAt<T>(m: TreeMap, f: Bytes -> Option<T>, x: T)
    requires Valid(m)
    ensures x in Chosen(m.keys, |m.keys|, f) <==> exists path :: path in m.entries && f(path) == Some(x)
  {
    ChosenFrom(m.keys, |m.keys|, f, x);
    if path :| path in m.entries && f(path) == Some(x) {
      assert path in m.keys;
    }
  }

  predicate Lists(rows: seq<FileRow>, path: Bytes) {
    exists i :: 0 <= i < |rows| && rows[i].path == path
  }

  predicate ListsChanged(rows: seq<ChangedRow>, path: Bytes) {
    exists i :: 0 <= i < |rows| && rows[i].path == path
  }

  lemma OnlyLists(first: TreeMap, second: TreeMap, path: Bytes)
    requires Valid(second)
    ensures Lists(Chosen(second.keys, |second.keys|, Only(first, second)), path) <==>
            path in second.entries && path !in first.entries
  {
    var rows := Chosen(second.keys, |second.keys|, Only(first, second));
    if Lists(rows, path) {
      var i :| 0 <= i < |rows| && rows[i].path == path;
      ChosenAt(second, Only(first, second), rows[i]);
    }
    if path in second.entries && path !in first.entries {
      ChosenAt(second, Only(first, second), Row(second, path));
    }
  }

  lemma StayingLists(base: TreeMap, next: TreeMap, path: Bytes)
    requires Valid(next)
    ensures Lists(Chosen(next.keys, |next.keys|, Staying(base, next)), path) <==>
            path in next.entries && path in base.entries && base.entries[path].sha256 == next.entries[path].sha256
  {
    var rows := Chosen(next.keys, |next.keys|, Staying(base, next));
    if Lists(rows, path) {
      var i :| 0 <= i < |rows| && rows[i].path == path;
      ChosenAt(next, Staying(base, next), rows[i]);
    }
    if path in next.entries && path in base.entries && base.entries[path].sha256 == next.entries[path].sha256 {
      ChosenAt(next, Staying(base, next), Row(next, path));
    }
  }

  lemma ChangingLists(base: TreeMap, next: TreeMap, path: Bytes)
    requires Valid(next)
    ensures ListsChanged(Chosen(next.keys, |next.keys|, Changing(base, next)), path) <==>
            path in next.entries && path in base.entries && base.entries[path].sha256 != next.entries[path].sha256
  {
    var rows := Chosen(next.keys, |next.keys|, Changing(base, next));
    if ListsChanged(rows, path) {
      var i :| 0 <= i < |rows| && rows[i].path == path;
      ChosenAt(next, Changing(base, next), rows[i]);
    }
    if path in next.entries && path in base.entries && base.entries[path].sha256 != next.entries[path].sha256 {
      ChosenAt(next, Changing(base, next), Changing(base, next)(path).value);
    }
  }

  /** Every path of either inventory is in one list and no path is in two. */
  lemma Partition(base: TreeMap, next: TreeMap, path: Bytes)
    requires Valid(base) && Valid(next)
    ensures var c := ChangesOf(base, next);
            var (a, h, r, k) := (Lists(c.added, path), ListsChanged(c.changed, path), Lists(c.removed, path), Lists(c.kept, path));
            && (path in next.entries <==> a || h || k)
            && (path in base.entries <==> r || h || k)
            && !(a && h) && !(a && k) && !(h && k) && !(r && h) && !(r && k) && !(a && r)
  {
    hide Chosen, Lists, ListsChanged, Only, Changing, Staying;
    OnlyLists(base, next, path);
    OnlyLists(next, base, path);
    ChangingLists(base, next, path);
    StayingLists(base, next, path);
  }

  lemma {:induction false} CountsAdd(base: TreeMap, next: TreeMap, n: nat)
    requires Valid(next) && n <= |next.keys|
    ensures |Chosen(next.keys, n, Only(base, next))| + |Chosen(next.keys, n, Changing(base, next))|
            + |Chosen(next.keys, n, Staying(base, next))| == n
    decreases n
  {
    hide *;
    if n == 0 {
      NothingChosen(base, next);
    } else {
      CountsAdd(base, next, n - 1);
      NextPick(base, next, n - 1);
    }
  }

  lemma {:induction false} DistinctSize(keys: seq<Bytes>, s: set<Bytes>)
    requires Sorting.Distinct(keys) && forall p :: p in keys <==> p in s
    ensures |keys| == |s|
  {
    if keys == [] {
      assert s == {};
    } else {
      var rest := keys[1..];
      assert keys == [keys[0]] + rest;
      forall p ensures p in rest <==> p in s - {keys[0]} {
      }
      DistinctSize(rest, s - {keys[0]});
    }
  }

  lemma KeysCount(m: TreeMap)
    requires Valid(m)
    ensures |m.keys| == |m.entries|
  {
    ByteOrder.IsStrictOrder();
    DistinctSize(m.keys, m.entries.Keys);
  }

  function FirstKeys(keys: seq<Bytes>, n: nat): set<Bytes>
    requires n <= |keys|
  {
    set k | 0 <= k < n :: keys[k]
  }

  lemma KeyIsNew(m: TreeMap, n: nat)
    requires Valid(m) && 0 < n <= |m.keys|
    ensures FirstKeys(m.keys, n) == FirstKeys(m.keys, n - 1) + {m.keys[n - 1]}
    ensures m.keys[n - 1] !in FirstKeys(m.keys, n - 1)
  {
    ByteOrder.IsStrictOrder();
    hide ByteOrder.Less;
  }

  /** The first n keys that are not in the other map. */
  function KeysOutside(other: TreeMap, keys: seq<Bytes>, n: nat): set<Bytes>
    requires n <= |keys|
  {
    FirstKeys(keys, n) - other.entries.Keys
  }

  lemma OneMoreOutside(other: TreeMap, m: TreeMap, n: nat)
    requires Valid(m) && 0 < n <= |m.keys|
    ensures |KeysOutside(other, m.keys, n)| ==
            |KeysOutside(other, m.keys, n - 1)| + if m.keys[n - 1] in other.entries.Keys then 0 else 1
  {
    hide FirstKeys, Valid;
    KeyIsNew(m, n);
    var before, after := KeysOutside(other, m.keys, n - 1), KeysOutside(other, m.keys, n);
    if m.keys[n - 1] in other.entries.Keys {
      assert after == before;
    } else {
      assert after == before + {m.keys[n - 1]};
    }
  }

  lemma OnlyNext(first: TreeMap, second: TreeMap, i: nat)
    requires i < |second.keys| && Valid(second)
    ensures |Chosen(second.keys, i + 1, Only(first, second))| ==
            |Chosen(second.keys, i, Only(first, second))| + if second.keys[i] in first.entries.Keys then 0 else 1
  {
    hide Chosen, Only, Changing, Staying, Valid;
    NextPick(first, second, i);
  }

  lemma {:induction false} OnlyCount(first: TreeMap, second: TreeMap, n: nat)
    requires Valid(second) && n <= |second.keys|
    ensures |Chosen(second.keys, n, Only(first, second))| == |KeysOutside(first, second.keys, n)|
    decreases n
  {
    hide *;
    if n == 0 {
      NothingChosen(first, second);
      NoKeys(first, second.keys);
    } else {
      OnlyCount(first, second, n - 1);
      OnlyNext(first, second, n - 1);
      OneMoreOutside(first, second, n);
    }
  }

  lemma NoKeys(other: TreeMap, keys: seq<Bytes>)
    ensures KeysOutside(other, keys, 0) == {}
  {
  }

  lemma AllKeys(m: TreeMap)
    requires Valid(m)
    ensures FirstKeys(m.keys, |m.keys|) == m.entries.Keys
  {
    forall p ensures p in FirstKeys(m.keys, |m.keys|) <==> p in m.entries {
      assert p in m.keys <==> p in m.entries;
    }
  }

  lemma SharedSize(a: set<Bytes>, b: set<Bytes>)
    ensures |a| - |a - b| == |b| - |b - a|
  {
    assert a == (a - b) + (a * b) && b == (b - a) + (a * b);
    assert |a| == |a - b| + |a * b| && |b| == |b - a| + |a * b|;
  }

  /** The counts of the summary add up to the sizes of the inventories. */
  lemma CountsMatch(base: TreeMap, next: TreeMap)
    requires Valid(base) && Valid(next)
    ensures var c := ChangesOf(base, next);
            && |c.added| + |c.changed| + |c.kept| == |next.entries|
            && |c.removed| + |c.changed| + |c.kept| == |base.entries|
  {
    hide Chosen, Only, Changing, Staying, Valid;
    KeysCount(base);
    KeysCount(next);
    CountsAdd(base, next, |next.keys|);
    OnlyCount(base, next, |next.keys|);
    OnlyCount(next, base, |base.keys|);
    AllKeys(base);
    AllKeys(next);
    SharedSize(next.entries.Keys, base.entries.Keys);
  }

  // Recovery.

  /** The map that a list of rows describes. */
  function Recovered(rows: seq<FileRow>): map<Bytes, FileEntry> {
    if rows == [] then map[] else Recovered(rows[1..])[rows[0].path := FileEntry(rows[0].sha256, rows[0].byteSize)]
  }

  /** What the record says of the next inventory's files. */
  function NextRows(c: Changes): seq<FileRow> {
    c.added + Sorting.MapSeq(AfterRow, c.changed) + c.kept
  }

  function AfterRow(row: ChangedRow): FileRow {
    FileRow(row.path, row.nextSha256, row.nextByteSize)
  }

  function BeforeRow(row: ChangedRow): FileRow {
    FileRow(row.path, row.previousSha256, row.previousByteSize)
  }

  /** What the record says of the base's files; the sizes of kept files are those of the next inventory. */
  function BaseRows(c: Changes): seq<FileRow> {
    c.removed + Sorting.MapSeq(BeforeRow, c.changed) + c.kept
  }

  lemma {:induction false} RecoveredMeans(rows: seq<FileRow>, path: Bytes)
    ensures path in Recovered(rows) <==> Lists(rows, path)
    ensures path in Recovered(rows) ==>
              exists i :: 0 <= i < |rows| && rows[i] == FileRow(path, Recovered(rows)[path].sha256, Recovered(rows)[path].byteSize)
  {
    if rows != [] {
      var rest := rows[1..];
      RecoveredMeans(rest, path);
      if Lists(rows, path) {
        var i :| 0 <= i < |rows| && rows[i].path == path;
        assert i > 0 ==> rest[i - 1].path == path;
      }
      if rows[0].path == path {
        assert rows[0] == FileRow(path, Recovered(rows)[path].sha256, Recovered(rows)[path].byteSize);
      } else if path in Recovered(rest) {
        var i :| 0 <= i < |rest| && rest[i] == FileRow(path, Recovered(rest)[path].sha256, Recovered(rest)[path].byteSize);
        assert rows[i + 1] == rest[i];
      }
    }
  }

  lemma ListsSum(a: seq<FileRow>, h: seq<ChangedRow>, k: seq<FileRow>, f: ChangedRow -> FileRow, path: Bytes)
    requires forall row :: f(row).path == row.path
    ensures Lists(a + Sorting.MapSeq(f, h) + k, path) <==> Lists(a, path) || ListsChanged(h, path) || Lists(k, path)
  {
    var rows := a + Sorting.MapSeq(f, h) + k;
    if Lists(a, path) {
      var i :| 0 <= i < |a| && a[i].path == path;
      assert rows[i] == a[i];
    }
    if ListsChanged(h, path) {
      var i :| 0 <= i < |h| && h[i].path == path;
      assert rows[|a| + i] == f(h[i]);
    }
    if Lists(k, path) {
      var i :| 0 <= i < |k| && k[i].path == path;
      assert rows[|a| + |h| + i] == k[i];
    }
  }

  /** Rows of the next inventory say what it says. */
  lemma NextRowsTrue(base: TreeMap, next: TreeMap, i: nat)
    requires Valid(base) && Valid(next) && i < |NextRows(ChangesOf(base, next))|
    ensures var row := NextRows(ChangesOf(base, next))[i];
            row.path in next.entries && next.entries[row.path] == FileEntry(row.sha256, row.byteSize)
  {
    hide Chosen, Valid, Only, Changing, Staying;
    var c := ChangesOf(base, next);
    if i < |c.added| {
      RemovedTrue(next, base, i);
      AddedIsRemoved(base, next);
    } else if i < |c.added| + |c.changed| {
      ChangedTrue(base, next, i - |c.added|);
    } else {
      KeptTrue(base, next, i - |c.added| - |c.changed|);
    }
  }

  /** What one direction adds the other removes. */
  lemma AddedIsRemoved(base: TreeMap, next: TreeMap)
    ensures ChangesOf(base, next).added == ChangesOf(next, base).removed
  {
    hide Chosen, Only, Changing, Staying;
  }

  /** Rows of the base give its hashes, and its sizes for removed and changed files. */
  lemma BaseRowsTrue(base: TreeMap, next: TreeMap, i: nat)
    requires Valid(base) && Valid(next) && i < |BaseRows(ChangesOf(base, next))|
    ensures var row := BaseRows(ChangesOf(base, next))[i];
            && row.path in base.entries && base.entries[row.path].sha256 == row.sha256
            && (i < |BaseRows(ChangesOf(base, next))| - |ChangesOf(base, next).kept| ==>
                base.entries[row.path].byteSize == row.byteSize)
  {
    hide Chosen, Valid, Only, Changing, Staying;
    var c := ChangesOf(base, next);
    if i < |c.removed| {
      RemovedTrue(base, next, i);
    } else if i < |c.removed| + |c.changed| {
      ChangedTrue(base, next, i - |c.removed|);
    } else {
      KeptTrue(base, next, i - |c.removed| - |c.changed|);
    }
  }

  lemma RemovedTrue(base: TreeMap, next: TreeMap, i: nat)
    requires Valid(base) && i < |ChangesOf(base, next).removed|
    ensures var row := ChangesOf(base, next).removed[i];
            row.path in base.entries && base.entries[row.path] == FileEntry(row.sha256, row.byteSize)
  {
    hide Chosen, Valid;
    ChosenAt(base, Only(next, base), ChangesOf(base, next).removed[i]);
  }

  lemma ChangedTrue(base: TreeMap, next: TreeMap, i: nat)
    requires Valid(next) && i < |ChangesOf(base, next).changed|
    ensures var row := ChangesOf(base, next).changed[i];
            && row.path in base.entries && base.entries[row.path] == FileEntry(row.previousSha256, row.previousByteSize)
            && row.path in next.entries && next.entries[row.path] == FileEntry(row.nextSha256, row.nextByteSize)
  {
    hide Chosen, Valid;
    ChosenAt(next, Changing(base, next), ChangesOf(base, next).changed[i]);
  }

  lemma KeptTrue(base: TreeMap, next: TreeMap, i: nat)
    requires Valid(next) && i < |ChangesOf(base, next).kept|
    ensures var row := ChangesOf(base, next).kept[i];
            && row.path in base.entries && base.entries[row.path].sha256 == row.sha256
            && row.path in next.entries && next.entries[row.path] == FileEntry(row.sha256, row.byteSize)
  {
    hide Chosen, Valid;
    ChosenAt(next, Staying(base, next), ChangesOf(base, next).kept[i]);
  }

  /** The next inventory's files are recovered in full from the record. */
  lemma NextRecovered(base: TreeMap, next: TreeMap)
    requires Valid(base) && Valid(next)
    ensures Recovered(NextRows(ChangesOf(base, next))) == next.entries
  {
    hide Recovered, Valid, Lists, ListsChanged, Chosen;
    var c := ChangesOf(base, next);
    var rows := NextRows(c);
    forall path ensures path in Recovered(rows) <==> path in next.entries {
      RecoveredMeans(rows, path);
      ListsSum(c.added, c.changed, c.kept, AfterRow, path);
      Partition(base, next, path);
    }
    forall path | path in Recovered(rows) ensures Recovered(rows)[path] == next.entries[path] {
      RecoveredMeans(rows, path);
      var i :| 0 <= i < |rows| && rows[i] == FileRow(path, Recovered(rows)[path].sha256, Recovered(rows)[path].byteSize);
      NextRowsTrue(base, next, i);
    }
  }

  /** The base's paths and hashes are recovered from the record. */
  lemma BaseRecovered(base: TreeMap, next: TreeMap)
    requires Valid(base) && Valid(next)
    ensures var rows := BaseRows(ChangesOf(base, next));
            && Recovered(rows).Keys == base.entries.Keys
            && forall path :: path in base.entries ==> Recovered(rows)[path].sha256 == base.entries[path].sha256
  {
    hide Recovered, Valid, Lists, ListsChanged, Chosen;
    var c := ChangesOf(base, next);
    var rows := BaseRows(c);
    forall path ensures path in Recovered(rows) <==> path in base.entries {
      RecoveredMeans(rows, path);
      ListsSum(c.removed, c.changed, c.kept, BeforeRow, path);
      Partition(base, next, path);
    }
    forall path | path in base.entries ensures Recovered(rows)[path].sha256 == base.entries[path].sha256 {
      RecoveredMeans(rows, path);
      var i :| 0 <= i < |rows| && rows[i] == FileRow(path, Recovered(rows)[path].sha256, Recovered(rows)[path].byteSize);
      BaseRowsTrue(base, next, i);
    }
  }

  /** Sizes of kept files are not in the record: two bases that differ only there have one record. */
  lemma KeptSizesNotRecovered(base: TreeMap, next: TreeMap, path: Bytes, byteSize: nat)
    requires Valid(base) && Valid(next) && path in base.entries && path in next.entries
    requires base.entries[path].sha256 == next.entries[path].sha256
    ensures var other := base.(entries := base.entries[path := FileEntry(base.entries[path].sha256, byteSize)]);
            Valid(other) && ChangesOf(other, next) == ChangesOf(base, next)
  {
    var other := base.(entries := base.entries[path := FileEntry(base.entries[path].sha256, byteSize)]);
    SamePickers(base, other, next);
    hide Chosen, Only, Changing, Staying;
    SamePicks(next.keys, |next.keys|, Only(base, next), Only(other, next));
    SamePicks(next.keys, |next.keys|, Changing(base, next), Changing(other, next));
    SamePicks(next.keys, |next.keys|, Staying(base, next), Staying(other, next));
    SamePicks(base.keys, |base.keys|, Only(next, base), Only(next, other));
  }

  lemma SamePickers(base: TreeMap, other: TreeMap, next: TreeMap)
    requires forall p :: p in base.entries <==> p in other.entries
    requires forall p :: p in base.entries ==> base.entries[p].sha256 == other.entries[p].sha256
    requires forall p :: p in base.entries && base.entries[p] != other.entries[p] ==>
               p in next.entries && base.entries[p].sha256 == next.entries[p].sha256
    ensures forall p :: Only(base, next)(p) == Only(other, next)(p)
    ensures forall p :: Changing(base, next)(p) == Changing(other, next)(p)
    ensures forall p :: Staying(base, next)(p) == Staying(other, next)(p)
    ensures forall p :: Only(next, base)(p) == Only(next, other)(p)
  {
  }

  lemma {:induction false} SamePicks<T>(keys: seq<Bytes>, n: nat, f: Bytes -> Option<T>, g: Bytes -> Option<T>)
    requires n <= |keys| && forall path :: f(path) == g(path)
    ensures Chosen(keys, n, f) == Chosen(keys, n, g)
  {
    if n > 0 {
      SamePicks(keys, n - 1, f, g);
    }
  }

  // The inventories themselves.

  /** The file is one of the first n items. */
  predicate Listed(items: seq<Item>, n: nat, path: Bytes, entry: FileEntry)
    requires n <= |items|
  {
    exists k :: 0 <= k < n && items[k] == Item(Some(path), Some(entry.sha256), Some(entry.byteSize))
  }

  predicate HasFile(m: TreeMap, path: Bytes, entry: FileEntry) {
    path in m.entries && m.entries[path] == entry
  }

  predicate Complete(item: Item) {
    item.path.Some? && item.sha256.Some? && item.byteSize.Some?
  }

  /** Every item is complete and no path comes twice. */
  predicate WellFormed(items: seq<Item>, n: nat)
    requires n <= |items|
  {
    && (forall k :: 0 <= k < n ==> Complete(items[k]))
    && (forall j, k :: 0 <= j < k < n ==> items[j].path != items[k].path)
  }

  lemma PathTaken(items: seq<Item>, n: nat, m: TreeMap, path: Bytes)
    requires n <= |items| && WellFormed(items, n)
    requires forall path, entry :: HasFile(m, path, entry) <==> Listed(items, n, path, entry)
    ensures path in m.entries <==> exists k :: 0 <= k < n && items[k].path == Some(path)
  {
    if path in m.entries {
      assert HasFile(m, path, m.entries[path]);
      var k :| 0 <= k < n && items[k] == Item(Some(path), Some(m.entries[path].sha256), Some(m.entries[path].byteSize));
    }
    if k :| 0 <= k < n && items[k].path == Some(path) {
      assert Complete(items[k]);
      assert Listed(items, n, path, FileEntry(items[k].sha256.value, items[k].byteSize.value));
      assert HasFile(m, path, FileEntry(items[k].sha256.value, items[k].byteSize.value));
    }
  }

  lemma PutLists(items: seq<Item>, n: nat, m: TreeMap, entry: FileEntry)
    requires n < |items| && items[n].path.Some? && items[n].path.value !in m.entries
    requires items[n] == Item(items[n].path, Some(entry.sha256), Some(entry.byteSize))
    requires forall path, e :: HasFile(m, path, e) <==> Listed(items, n, path, e)
    ensures forall path, e :: HasFile(Put(m, items[n].path.value, entry), path, e) <==> Listed(items, n + 1, path, e)
  {
    var m' := Put(m, items[n].path.value, entry);
    forall path, e ensures HasFile(m', path, e) <==> Listed(items, n + 1, path, e) {
      assert HasFile(m, path, e) <==> Listed(items, n, path, e);
      if Listed(items, n, path, e) {
        var k :| 0 <= k < n && items[k] == Item(Some(path), Some(e.sha256), Some(e.byteSize));
        assert Listed(items, n + 1, path, e);
      }
    }
  }

  /** The map holds each file of the list and nothing else; it exists when the list is well formed. */
  lemma {:induction false} FileMapMeans(items: seq<Item>, n: nat)
    requires n <= |items|
    ensures FileMapOf(items, n).Ok? <==> WellFormed(items, n)
    ensures FileMapOf(items, n).Ok? ==>
              forall path, entry :: HasFile(FileMapOf(items, n).value, path, entry) <==> Listed(items, n, path, entry)
  {
    if n > 0 {
      FileMapMeans(items, n - 1);
      WellFormedNext(items, n - 1);
      var last := items[n - 1];
      if FileMapOf(items, n - 1).Ok? && last.path.Some? {
        var m := FileMapOf(items, n - 1).value;
        hide Listed, HasFile, WellFormed, Put;
        PathTaken(items, n - 1, m, last.path.value);
        if Complete(last) && last.path.value !in m.entries {
          PutLists(items, n - 1, m, FileEntry(last.sha256.value, last.byteSize.value));
        }
      }
    } else {
      assert forall path, entry :: !HasFile(NO_FILES, path, entry) && !Listed(items, 0, path, entry);
    }
  }

  lemma WellFormedNext(items: seq<Item>, n: nat)
    requires n < |items|
    ensures WellFormed(items, n + 1) <==>
            WellFormed(items, n) && Complete(items[n]) && !exists k :: 0 <= k < n && items[k].path == items[n].path
  {
    if WellFormed(items, n) && Complete(items[n]) && !exists k :: 0 <= k < n && items[k].path == items[n].path {
      forall j, k | 0 <= j < k < n + 1 ensures items[j].path != items[k].path {
      }
    }
  }

  /** Two maps with the same entries are the same: the order of keys is the only one. */
  lemma EntriesDecide(a: TreeMap, b: TreeMap)
    requires Valid(a) && Valid(b) && a.entries == b.entries
    ensures a == b
  {
    ByteOrder.IsStrictOrder();
    ByteOrder.NeverTies(a.keys);
    Sorting.AscendingIsSorted<Bytes>(ByteOrder.Less, a.keys);
    Sorting.AscendingIsSorted<Bytes>(ByteOrder.Less, b.keys);
    hide ByteOrder.Less;
    KeysCount(a);
    KeysCount(b);
    AscendingIsDistinct(a.keys);
    AscendingIsDistinct(b.keys);
    forall x | x in a.keys ensures x in b.keys {
      assert x in a.entries && x in b.entries;
    }
    Sorting.DistinctWithin<Bytes>(a.keys, b.keys);
    Sorting.SortedUnique<Bytes>(ByteOrder.Less, a.keys, b.keys);
  }

  lemma AscendingIsDistinct(keys: seq<Bytes>)
    requires Sorting.Ascending<Bytes>(ByteOrder.Less, keys)
    ensures Sorting.Distinct<Bytes>(keys)
  {
    ByteOrder.IsStrictOrder();
    hide ByteOrder.Less;
  }

  lemma ListedElsewhere(items: seq<Item>, items': seq<Item>, path: Bytes, entry: FileEntry)
    requires multiset(items) == multiset(items')
    ensures Listed(items, |items|, path, entry) ==> Listed(items', |items'|, path, entry)
  {
    var item := Item(Some(path), Some(entry.sha256), Some(entry.byteSize));
    if Listed(items, |items|, path, entry) {
      assert item in items;
      assert item in multiset(items');
      assert item in items';
    }
  }

  function PathOf(item: Item): Option<Bytes> {
    item.path
  }

  lemma PermutedIsAccepted(items: seq<Item>, items': seq<Item>)
    requires multiset(items) == multiset(items') && FileMapOf(items, |items|).Ok?
    ensures FileMapOf(items', |items'|).Ok?
  {
    FileMapMeans(items, |items|);
    FileMapMeans(items', |items'|);
    hide FileMapOf;
    Sorting.SameElements(items, items');
    Sorting.MapPermuted(PathOf, items, items');
    Sorting.DistinctPermuted(Sorting.MapSeq(PathOf, items), Sorting.MapSeq(PathOf, items'));
    forall k | 0 <= k < |items'| ensures Complete(items'[k]) {
      assert items'[k] in items;
    }
    forall j, k | 0 <= j < k < |items'| ensures items'[j].path != items'[k].path {
      assert Sorting.MapSeq(PathOf, items')[j] != Sorting.MapSeq(PathOf, items')[k];
    }
  }

  /** The order in which an inventory lists its files does not matter. */
  lemma FileOrderIrrelevant(items: seq<Item>, items': seq<Item>)
    requires multiset(items) == multiset(items') && FileMapOf(items, |items|).Ok?
    ensures FileMapOf(items', |items'|) == FileMapOf(items, |items|)
  {
    PermutedIsAccepted(items, items');
    var m, m' := FileMapOf(items, |items|).value, FileMapOf(items', |items'|).value;
    FileMapMeans(items, |items|);
    FileMapMeans(items', |items'|);
    MapIsValid(items, |items|);
    MapIsValid(items', |items'|);
    hide FileMapOf, Listed, Valid;
    forall path, entry ensures HasFile(m, path, entry) <==> HasFile(m', path, entry) {
      ListedElsewhere(items, items', path, entry);
      ListedElsewhere(items', items, path, entry);
    }
    forall path ensures path in m.entries <==> path in m'.entries {
      assert path in m.entries ==> HasFile(m, path, m.entries[path]);
      assert path in m'.entries ==> HasFile(m', path, m'.entries[path]);
    }
    forall path | path in m.entries ensures m.entries[path] == m'.entries[path] {
      assert HasFile(m, path, m.entries[path]);
    }
    assert m.entries == m'.entries;
    EntriesDecide(m, m');
  }

  /** The header is complete and of the right type. */
  predicate GoodHeader(h: Header) {
    && h.recordType == Some(INVENTORY_RECORD) && h.schemaVersion.Some? && h.name.Some? && h.version.Some?
    && h.scope.Some? && h.fileCount.Some? && h.totalBytes.Some? && h.rootHash.Some? && h.classification.Some?
    && !h.sourceOwner.NotText? && !h.licenseBasis.NotText? && !h.retentionRule.NotText?
  }

  predicate GoodFiles(inventory: Inventory) {
    inventory.files.Some? && WellFormed(inventory.files.value, |inventory.files.value|)
  }

  lemma MetadataMeans(h: Header)
    ensures MetadataOf(h).Ok? <==> GoodHeader(h)
    ensures MetadataOf(h).Ok? ==>
              var m := MetadataOf(h).value;
              Some(m.name) == h.name && Some(m.version) == h.version && Some(m.rootHash) == h.rootHash
  {
    hide INVENTORY_RECORD;
  }

  /**
    A record is made exactly of two complete headers with one name and two lists of complete files without
    a path twice. It names both versions and both root hashes.
    */
  lemma RevisedExactly(base: Inventory, next: Inventory, rootHash: Changes -> Bytes)
    ensures RevisionOf(base, next, rootHash).Ok? <==>
            && GoodHeader(base.header) && GoodHeader(next.header) && base.header.name == next.header.name
            && GoodFiles(base) && GoodFiles(next)
    ensures RevisionOf(base, next, rootHash).Ok? ==>
              var r := RevisionOf(base, next, rootHash).value;
              && Some(r.name) == base.header.name && Some(r.previousVersion) == base.header.version
              && Some(r.nextVersion) == next.header.version && Some(r.previousRootHash) == base.header.rootHash
              && Some(r.nextRootHash) == next.header.rootHash && r.revisionRootHash == rootHash(r.changes)
              && r.addedCount == |r.changes.added| && r.changedCount == |r.changes.changed|
              && r.removedCount == |r.changes.removed| && r.keptCount == |r.changes.kept|
  {
    hide MetadataOf, GoodHeader, FileMapOf, WellFormed, ChangesOf;
    MetadataMeans(base.header);
    MetadataMeans(next.header);
    if base.files.Some? {
      FileMapMeans(base.files.value, |base.files.value|);
    }
    if next.files.Some? {
      FileMapMeans(next.files.value, |next.files.value|);
    }
  }

  /** The record of a revision gives back the next inventory's files and the base's paths and hashes. */
  lemma RecordTellsBoth(base: Inventory, next: Inventory, rootHash: Changes -> Bytes)
    requires RevisionOf(base, next, rootHash).Ok?
    ensures var c := RevisionOf(base, next, rootHash).value.changes;
            && InventoryMap(base).Ok? && InventoryMap(next).Ok?
            && Recovered(NextRows(c)) == InventoryMap(next).value.entries
            && Recovered(BaseRows(c)).Keys == InventoryMap(base).value.entries.Keys
            && forall path :: path in InventoryMap(base).value.entries ==>
                 Recovered(BaseRows(c))[path].sha256 == InventoryMap(base).value.entries[path].sha256
  {
    hide FileMapOf, Valid, Chosen, Recovered, NextRows, BaseRows;
    MapIsValid(base.files.value, |base.files.value|);
    MapIsValid(next.files.value, |next.files.value|);
    NextRecovered(InventoryMap(base).value, InventoryMap(next).value);
    BaseRecovered(InventoryMap(base).value, InventoryMap(next).value);
  }

  // Why a record is refused.

  /** The place of a field in the order in which they are read; the type is checked with its own field. */
  function FieldPlace(field: HeaderField): nat {
    match field
    case RecordType => 0 case SchemaVersion => 1 case Name => 2 case Version => 3 case Scope => 4 case FileCount => 5
    case TotalBytes => 6 case RootHash => 7 case Classification => 8 case SourceOwner => 9 case LicenseBasis => 10
    case RetentionRule => 11
  }

  predicate IsBad(h: Header, field: HeaderField) {
    match field
    case RecordType => h.recordType.None?
    case SchemaVersion => h.schemaVersion.None?
    case Name => h.name.None?
    case Version => h.version.None?
    case Scope => h.scope.None?
    case FileCount => h.fileCount.None?
    case TotalBytes => h.totalBytes.None?
    case RootHash => h.rootHash.None?
    case Classification => h.classification.None?
    case SourceOwner => h.sourceOwner.NotText?
    case LicenseBasis => h.licenseBasis.NotText?
    case RetentionRule => h.retentionRule.NotText?
  }

  /** The first bad field decides; a type other than that of an inventory is refused before the rest is read. */
  lemma HeaderRefused(h: Header, field: HeaderField)
    ensures MetadataOf(h) == Err(WrongRecordType) <==>
            h.recordType.Some? && h.recordType.value != "dataset_inventory_record"
    ensures MetadataOf(h) == Err(BadField(field)) <==>
            && IsBad(h, field)
            && (field.RecordType? || h.recordType == Some("dataset_inventory_record"))
            && forall f :: FieldPlace(f) < FieldPlace(field) ==> !IsBad(h, f)
  {
    assert INVENTORY_RECORD == "dataset_inventory_record";
    hide INVENTORY_RECORD;
    BadBefore(h, field);
  }

  lemma BadBefore(h: Header, field: HeaderField)
    ensures (forall f :: FieldPlace(f) < FieldPlace(field) ==> !IsBad(h, f)) <==>
            && (FieldPlace(field) > 0 ==> !IsBad(h, RecordType)) && (FieldPlace(field) > 1 ==> !IsBad(h, SchemaVersion))
            && (FieldPlace(field) > 2 ==> !IsBad(h, Name)) && (FieldPlace(field) > 3 ==> !IsBad(h, Version))
            && (FieldPlace(field) > 4 ==> !IsBad(h, Scope)) && (FieldPlace(field) > 5 ==> !IsBad(h, FileCount))
            && (FieldPlace(field) > 6 ==> !IsBad(h, TotalBytes)) && (FieldPlace(field) > 7 ==> !IsBad(h, RootHash))
            && (FieldPlace(field) > 8 ==> !IsBad(h, Classification)) && (FieldPlace(field) > 9 ==> !IsBad(h, SourceOwner))
            && (FieldPlace(field) > 10 ==> !IsBad(h, LicenseBasis))
  {
    hide IsBad;
  }

  /** What is wrong with item k, given those before it. */
  predicate HasFault(items: seq<Item>, k: nat, e: RevisionError)
    requires k < |items|
  {
    var item := items[k];
    var taken := exists j :: 0 <= j < k && items[j].path == item.path;
    match e
    case MissingPath => item.path.None?
    case DuplicatePath => item.path.Some? && taken
    case BadHash => item.path.Some? && !taken && item.sha256.None?
    case MissingSize => item.path.Some? && !taken && item.sha256.Some? && item.byteSize.None?
    case _ => false
  }

  /** The first bad item decides why a list is refused. */
  lemma FirstBadItem(items: seq<Item>, k: nat, e: RevisionError)
    requires k < |items| && WellFormed(items, k) && HasFault(items, k, e)
    ensures FileMapOf(items, |items|) == Err(e)
  {
    hide FileMapOf;
    BadItem(items, k, e);
    FaultIsFinal(items, k + 1, |items|);
  }

  lemma BadItem(items: seq<Item>, k: nat, e: RevisionError)
    requires k < |items| && WellFormed(items, k) && HasFault(items, k, e)
    ensures FileMapOf(items, k + 1) == Err(e)
  {
    NextItem(items, k);
    hide FileMapOf, WellFormed;
    FileMapMeans(items, k);
    if items[k].path.Some? {
      PathTaken(items, k, FileMapOf(items, k).value, items[k].path.value);
    }
  }

  lemma NextItem(items: seq<Item>, k: nat)
    requires k < |items|
    ensures FileMapOf(items, k).Ok? ==>
              var m, file := FileMapOf(items, k).value, items[k];
              FileMapOf(items, k + 1) ==
              if file.path.None? then Err(MissingPath)
              else if file.path.value in m.entries then Err(DuplicatePath)
              else if file.sha256.None? then Err(BadHash)
              else if file.byteSize.None? then Err(MissingSize)
              else Ok(Put(m, file.path.value, FileEntry(file.sha256.value, file.byteSize.value)))
  {
  }

  /** Headers are looked at first, then their names, then the files of the base, then those of the next inventory. */
  lemma RefusedInOrder(base: Inventory, next: Inventory, rootHash: Changes -> Bytes)
    ensures var r := RevisionOf(base, next, rootHash);
            && (MetadataOf(base.header).Err? ==> r == Err(MetadataOf(base.header).error))
            && (MetadataOf(base.header).Ok? && MetadataOf(next.header).Err? ==> r == Err(MetadataOf(next.header).error))
            && (GoodHeader(base.header) && GoodHeader(next.header) ==>
                (r == Err(NameMismatch) <==> base.header.name != next.header.name))
            && (GoodHeader(base.header) && GoodHeader(next.header) && base.header.name == next.header.name ==>
                && (InventoryMap(base).Err? ==> r == Err(InventoryMap(base).error))
                && (InventoryMap(base).Ok? && InventoryMap(next).Err? ==> r == Err(InventoryMap(next).error)))
    ensures base.files.None? ==> InventoryMap(base) == Err(MissingFiles)
  {
    hide MetadataOf, GoodHeader, FileMapOf, ChangesOf;
    MetadataMeans(base.header);
    MetadataMeans(next.header);
    NoNameMismatch(base);
    NoNameMismatch(next);
  }

  lemma NoNameMismatch(inventory: Inventory)
    ensures InventoryMap(inventory) != Err(NameMismatch)
  {
    if inventory.files.Some? {
      NoNameMismatchIn(inventory.files.value, |inventory.files.value|);
    }
  }

  lemma {:induction false} NoNameMismatchIn(items: seq<Item>, n: nat)
    requires n <= |items|
    ensures FileMapOf(items, n) != Err(NameMismatch)
  {
    if n > 0 {
      NoNameMismatchIn(items, n - 1);
    }
  }

  // The order of rows.

  /** The paths ascend byte by byte. */
  ghost predicate PathsAscend<T>(rows: seq<T>, path: T -> Bytes) {
    forall i, j :: 0 <= i < j < |rows| ==> Lexicographic.Precedes(path(rows[i]), path(rows[j]))
  }

  ghost predicate PicksUnder<T(!new)>(f: Bytes -> Option<T>, path: T -> Bytes) {
    forall key, x :: f(key) == Some(x) ==> path(x) == key
  }

  lemma {:induction false} ChosenAscends<T(!new)>(keys: seq<Bytes>, n: nat, f: Bytes -> Option<T>, path: T -> Bytes)
    requires n <= |keys| && Sorting.Ascending<Bytes>(ByteOrder.Less, keys) && PicksUnder(f, path)
    ensures PathsAscend(Chosen(keys, n, f), path)
    ensures forall x :: x in Chosen(keys, n, f) ==> path(x) in keys[..n]
  {
    hide Lexicographic.Precedes;
    if n > 0 {
      ChosenAscends(keys, n - 1, f, path);
      var front := Chosen(keys, n - 1, f);
      forall x | x in front ensures Lexicographic.Precedes(path(x), keys[n - 1]) {
        var k :| 0 <= k < n - 1 && keys[k] == path(x);
        Lexicographic.LessMeans(keys[k], keys[n - 1]);
      }
      assert keys[..n] == keys[..n - 1] + [keys[n - 1]];
    }
  }

  function RowPath(row: FileRow): Bytes {
    row.path
  }

  function ChangedPath(row: ChangedRow): Bytes {
    row.path
  }

  /** Each of the four lists of a record stands in the byte order of paths, whatever the order of the inventories. */
  lemma RowsAscend(base: Inventory, next: Inventory, rootHash: Changes -> Bytes)
    requires RevisionOf(base, next, rootHash).Ok?
    ensures var c := RevisionOf(base, next, rootHash).value.changes;
            && PathsAscend(c.added, RowPath) && PathsAscend(c.changed, ChangedPath)
            && PathsAscend(c.removed, RowPath) && PathsAscend(c.kept, RowPath)
  {
    hide PathsAscend, Sorting.Ascending, Chosen;
    var b, n := InventoryMap(base).value, InventoryMap(next).value;
    MapIsValid(base.files.value, |base.files.value|);
    MapIsValid(next.files.value, |next.files.value|);
    ChosenAscends(n.keys, |n.keys|, Only(b, n), RowPath);
    ChosenAscends(n.keys, |n.keys|, Changing(b, n), ChangedPath);
    ChosenAscends(b.keys, |b.keys|, Only(n, b), RowPath);
    ChosenAscends(n.keys, |n.keys|, Staying(b, n), RowPath);
  }
}
