/** A reader of ZIP archives by PKWARE's APPNOTE, and the round trip through it. */
module ZipReader {
  import opened Bytes
  import opened Ranges
  import opened Zip
  import Crc32

  function Octet(b: Bytes, i: nat): int
    requires i < |b|
  {
    b[i]
  }

  function U16At(b: Bytes, i: nat): int {
    if i + 2 <= |b| then Octet(b, i) + 0x100 * Octet(b, i + 1) else -1
  }

  function U32At(b: Bytes, i: nat): int {
    if i + 4 <= |b|
    then Octet(b, i) + 0x100 * Octet(b, i + 1) + 0x1_0000 * Octet(b, i + 2) + 0x100_0000 * Octet(b, i + 3)
    else -1
  }

  function Cut(b: Bytes, i: nat, n: int): Option<Bytes> {
    if 0 <= n && i + n <= |b| then Some(b[i..i + n]) else None
  }

  /** Section 4.3.7: the header must repeat what the directory says, and the data must match its CRC. */
  function ReadLocal(b: Bytes, pos: nat, name: Bytes, crc: int, size: int): Option<Bytes> {
    if U32At(b, pos) != 0x0403_4b50 || U16At(b, pos + 6) != 0 || U16At(b, pos + 8) != 0
       || U32At(b, pos + 14) != crc || U32At(b, pos + 18) != size || U32At(b, pos + 22) != size
       || U16At(b, pos + 26) != |name| || U16At(b, pos + 28) < 0
       || Cut(b, pos + 30, |name|) != Some(name)
    then None
    else
      match Cut(b, pos + 30 + |name| + U16At(b, pos + 28), size)
      case None => None
      case Some(data) => if Crc32.Checksum(data) == crc then Some(data) else None
  }

  /** Section 4.3.12: stored, unencrypted entries on one disk. */
  function ReadCentral(b: Bytes, pos: nat, count: nat, end: nat): Option<seq<Entry>>
    decreases count
  {
    if count == 0 then if pos == end then Some([]) else None
    else if U32At(b, pos) != 0x0201_4b50 || U16At(b, pos + 8) != 0 || U16At(b, pos + 10) != 0
            || U32At(b, pos + 16) < 0 || U32At(b, pos + 20) != U32At(b, pos + 24)
            || U16At(b, pos + 28) < 0 || U16At(b, pos + 30) < 0 || U16At(b, pos + 32) < 0
            || U16At(b, pos + 34) != 0 || U32At(b, pos + 42) < 0
    then None
    else
      match Cut(b, pos + 46, U16At(b, pos + 28))
      case None => None
      case Some(name) =>
        match ReadLocal(b, U32At(b, pos + 42), name, U32At(b, pos + 16), U32At(b, pos + 20))
        case None => None
        case Some(data) =>
          var next := pos + 46 + |name| + U16At(b, pos + 30) + U16At(b, pos + 32);
          match ReadCentral(b, next, count - 1, end)
          case None => None
          case Some(rest) => Some([Entry(name, data)] + rest)
  }

  /** Section 4.3.16: the end record closes the file and says where the directory is. */
  function ReadArchive(b: Bytes): Option<seq<Entry>> {
    if |b| < 22 then None
    else
      var e := |b| - 22;
      if U32At(b, e) != 0x0605_4b50 || U16At(b, e + 4) != 0 || U16At(b, e + 6) != 0 || U16At(b, e + 20) != 0
         || U16At(b, e + 8) != U16At(b, e + 10) || U16At(b, e + 10) < 0
         || U32At(b, e + 12) < 0 || U32At(b, e + 16) < 0 || U32At(b, e + 16) + U32At(b, e + 12) != e
      then None
      else ReadCentral(b, U32At(b, e + 16), U16At(b, e + 10), e)
  }

  // Where things stand.

  lemma HasSplits(b: Bytes)
    ensures forall i: nat, x, y :: Has(b, i, x + y) ==> Has(b, i, x) && Has(b, i + |x|, y)
  {
    forall i: nat, x: Bytes, y: Bytes | Has(b, i, x + y) ensures Has(b, i, x) && Has(b, i + |x|, y) {
      HasSplit(b, i, x, y);
    }
  }

  lemma Le16Reads(b: Bytes, i: nat, v: nat)
    requires Has(b, i, Le16(v)) && v <= MAX16
    ensures U16At(b, i) == v
  {
    var x := Le16(v);
    assert b[i] == x[0] && b[i + 1] == x[1] by { assert b[i..i + 2][0] == b[i] && b[i..i + 2][1] == b[i + 1]; }
    TwoDigits(v);
  }

  lemma TwoDigits(v: nat)
    requires v <= MAX16
    ensures v % 0x100 + 0x100 * (v / 0x100 % 0x100) == v
  {
  }

  lemma Le32Reads(b: Bytes, i: nat, v: nat)
    requires Has(b, i, Le32(v)) && v <= MAX32
    ensures U32At(b, i) == v
  {
    var x := Le32(v);
    assert b[i] == x[0] && b[i + 1] == x[1] && b[i + 2] == x[2] && b[i + 3] == x[3] by {
      assert b[i..i + 4][0] == b[i] && b[i..i + 4][1] == b[i + 1] && b[i..i + 4][2] == b[i + 2] && b[i..i + 4][3] == b[i + 3];
    }
    FourDigits(v);
  }

  lemma FourDigits(v: nat)
    requires v <= MAX32
    ensures v % 0x100 + 0x100 * (v / 0x100 % 0x100) + 0x1_0000 * (v / 0x1_0000 % 0x100) + 0x100_0000 * (v / 0x100_0000 % 0x100) == v
  {
    var a := v / 0x100;
    assert a / 0x100 == v / 0x1_0000;
    var c := v / 0x1_0000;
    assert c / 0x100 == v / 0x100_0000;
  }

  /** All field facts at once, for a file whose fields are found by splitting. */
  lemma FieldsRead(b: Bytes)
    ensures forall i: nat, v: nat :: Has(b, i, Le16(v)) && v <= MAX16 ==> U16At(b, i) == v
    ensures forall i: nat, v: nat :: Has(b, i, Le32(v)) && v <= MAX32 ==> U32At(b, i) == v
  {
    forall i: nat, v: nat | Has(b, i, Le16(v)) && v <= MAX16 ensures U16At(b, i) == v {
      Le16Reads(b, i, v);
    }
    forall i: nat, v: nat | Has(b, i, Le32(v)) && v <= MAX32 ensures U32At(b, i) == v {
      Le32Reads(b, i, v);
    }
  }

  lemma HasCut(b: Bytes, i: nat, x: Bytes)
    requires Has(b, i, x)
    ensures Cut(b, i, |x|) == Some(x)
  {
  }

  /** A local header reads as what was written. */
  lemma LocalFields(b: Bytes, pos: nat, e: Entry)
    requires Has(b, pos, LocalHeader(e)) && |e.path| <= MAX16 && |e.bytes| <= MAX32
    ensures U32At(b, pos) == 0x0403_4b50 && U16At(b, pos + 6) == 0 && U16At(b, pos + 8) == 0
    ensures U16At(b, pos + 4) == 20 && U16At(b, pos + 10) == 0 && U16At(b, pos + 12) == 33
    ensures U32At(b, pos + 14) == Crc32.Checksum(e.bytes)
    ensures U32At(b, pos + 18) == |e.bytes| && U32At(b, pos + 22) == |e.bytes|
    ensures U16At(b, pos + 26) == |e.path| && U16At(b, pos + 28) == 0 && Has(b, pos + 30, e.path)
  {
    hide Has, U16At, U32At, Le16, Le32, Crc32.Checksum;
    HasSplits(b);
    FieldsRead(b);
  }

  lemma LocalReads(b: Bytes, pos: nat, e: Entry)
    requires Has(b, pos, LocalHeader(e) + e.bytes) && |e.path| <= MAX16 && |e.bytes| <= MAX32
    ensures ReadLocal(b, pos, e.path, Crc32.Checksum(e.bytes), |e.bytes|) == Some(e.bytes)
  {
    hide Has, U16At, U32At, LocalHeader, Cut, Crc32.Checksum;
    HasSplit(b, pos, LocalHeader(e), e.bytes);
    LocalFields(b, pos, e);
    HasCut(b, pos + 30, e.path);
    HasCut(b, pos + 30 + |e.path|, e.bytes);
  }

  lemma CentralFields(b: Bytes, pos: nat, e: Entry, localOffset: nat)
    requires Has(b, pos, CentralRecord(e, localOffset)) && |e.path| <= MAX16 && |e.bytes| <= MAX32 && localOffset <= MAX32
    ensures U32At(b, pos) == 0x0201_4b50 && U16At(b, pos + 8) == 0 && U16At(b, pos + 10) == 0
    ensures U16At(b, pos + 4) == 20 && U16At(b, pos + 6) == 20 && U16At(b, pos + 12) == 0 && U16At(b, pos + 14) == 33
    ensures U16At(b, pos + 36) == 0 && U32At(b, pos + 38) == 0
    ensures U32At(b, pos + 16) == Crc32.Checksum(e.bytes)
    ensures U32At(b, pos + 20) == |e.bytes| && U32At(b, pos + 24) == |e.bytes|
    ensures U16At(b, pos + 28) == |e.path| && U16At(b, pos + 30) == 0 && U16At(b, pos + 32) == 0 && U16At(b, pos + 34) == 0
    ensures U32At(b, pos + 42) == localOffset && Has(b, pos + 46, e.path)
  {
    hide Has, U16At, U32At, Le16, Le32, Crc32.Checksum;
    HasSplits(b);
    FieldsRead(b);
  }

  lemma EndFields(b: Bytes, pos: nat, count: nat, size: nat, offset: nat)
    requires Has(b, pos, EndRecord(count, size, offset)) && count <= MAX16 && size <= MAX32 && offset <= MAX32
    ensures U32At(b, pos) == 0x0605_4b50 && U16At(b, pos + 4) == 0 && U16At(b, pos + 6) == 0
    ensures U16At(b, pos + 8) == count && U16At(b, pos + 10) == count
    ensures U32At(b, pos + 12) == size && U32At(b, pos + 16) == offset && U16At(b, pos + 20) == 0
  {
    hide Has, U16At, U32At, Le16, Le32;
    HasSplits(b);
    FieldsRead(b);
  }

  // The whole archive.

  lemma {:induction false} LocalStands(entries: seq<Entry>, n: nat, k: nat)
    requires k < n <= |entries|
    ensures Has(Locals(entries, n), |Locals(entries, k)|, LocalHeader(entries[k]) + entries[k].bytes)
    decreases n
  {
    hide Has, LocalHeader;
    var x, y := Locals(entries, n - 1), LocalHeader(entries[n - 1]) + entries[n - 1].bytes;
    assert Locals(entries, n) == x + y;
    if k < n - 1 {
      LocalStands(entries, n - 1, k);
      HasInFront(x, y, |Locals(entries, k)|, LocalHeader(entries[k]) + entries[k].bytes);
    } else {
      HasAtEnd(x, y);
    }
  }

  lemma {:induction false} CentralStands(entries: seq<Entry>, n: nat, k: nat)
    requires k < n <= |entries|
    ensures Has(Central(entries, n), |Central(entries, k)|, CentralRecord(entries[k], |Locals(entries, k)|))
    decreases n
  {
    hide Has, CentralRecord, Locals;
    var x, y := Central(entries, n - 1), CentralRecord(entries[n - 1], |Locals(entries, n - 1)|);
    if k < n - 1 {
      CentralStands(entries, n - 1, k);
      HasInFront(x, y, |Central(entries, k)|, CentralRecord(entries[k], |Locals(entries, k)|));
    } else {
      HasAtEnd(x, y);
    }
  }

  lemma {:induction false} LocalsGrow(entries: seq<Entry>, k: nat, n: nat)
    requires k <= n <= |entries|
    ensures |Locals(entries, k)| <= |Locals(entries, n)|
    ensures k < n ==> |Locals(entries, k)| + |entries[k].bytes| <= |Locals(entries, n)|
    decreases n
  {
    hide LocalHeader;
    if k < n {
      LocalsGrow(entries, k, n - 1);
    }
  }

  lemma ArchiveParts(entries: seq<Entry>, k: nat)
    requires k < |entries|
    ensures var (b, n) := (Archive(entries), |entries|);
            && Has(b, |Locals(entries, k)|, LocalHeader(entries[k]) + entries[k].bytes)
            && Has(b, |Locals(entries, n)| + |Central(entries, k)|, CentralRecord(entries[k], |Locals(entries, k)|))
  {
    hide Has, LocalHeader, CentralRecord, Locals, Central, EndRecord;
    var n := |entries|;
    var l, c, e := Locals(entries, n), Central(entries, n), EndRecord(n, |Central(entries, n)|, |Locals(entries, n)|);
    LocalStands(entries, n, k);
    CentralStands(entries, n, k);
    HasShifted(l, c, |Central(entries, k)|, CentralRecord(entries[k], |Locals(entries, k)|));
    HasInFront(l, c, |Locals(entries, k)|, LocalHeader(entries[k]) + entries[k].bytes);
    HasInFront(l + c, e, |Locals(entries, k)|, LocalHeader(entries[k]) + entries[k].bytes);
    HasInFront(l + c, e, |l| + |Central(entries, k)|, CentralRecord(entries[k], |Locals(entries, k)|));
  }

  lemma EntryFits(entries: seq<Entry>, k: nat)
    requires Fits(entries) && k < |entries|
    ensures |entries[k].path| <= MAX16 && |entries[k].bytes| <= MAX32 && |Locals(entries, k)| <= MAX32
  {
    hide Locals, Central;
    LocalsGrow(entries, k, |entries|);
  }

  /** One directory record leads to its entry. */
  lemma RecordReads(b: Bytes, pos: nat, entries: seq<Entry>, k: nat, count: nat, end: nat)
    requires Fits(entries) && k < |entries| && count > 0
    requires Has(b, pos, CentralRecord(entries[k], |Locals(entries, k)|))
    requires Has(b, |Locals(entries, k)|, LocalHeader(entries[k]) + entries[k].bytes)
    ensures var rest := ReadCentral(b, pos + |CentralRecord(entries[k], |Locals(entries, k)|)|, count - 1, end);
            ReadCentral(b, pos, count, end) == if rest.None? then None else Some([entries[k]] + rest.value)
  {
    hide Has, LocalHeader, Locals, U16At, U32At, Cut, ReadLocal, Fits, Crc32.Checksum;
    EntryFits(entries, k);
    CentralFields(b, pos, entries[k], |Locals(entries, k)|);
    HasCut(b, pos + 46, entries[k].path);
    LocalReads(b, |Locals(entries, k)|, entries[k]);
  }

  lemma {:induction false} DirectoryReads(entries: seq<Entry>, k: nat)
    requires Fits(entries) && k <= |entries|
    ensures var n := |entries|;
            var l := |Locals(entries, n)|;
            ReadCentral(Archive(entries), l + |Central(entries, k)|, n - k, l + |Central(entries, n)|) == Some(entries[k..])
    decreases |entries| - k
  {
    hide *;
    var n := |entries|;
    var l := |Locals(entries, n)|;
    if k < n {
      DirectoryReads(entries, k + 1);
      ArchiveParts(entries, k);
      CentralGrows(entries, k);
      RecordReads(Archive(entries), l + |Central(entries, k)|, entries, k, n - k, l + |Central(entries, n)|);
      assert entries[k..] == [entries[k]] + entries[k + 1..];
    } else {
      DirectoryEnds(Archive(entries), l + |Central(entries, n)|);
      assert entries[k..] == [];
    }
  }

  lemma CentralGrows(entries: seq<Entry>, k: nat)
    requires k < |entries|
    ensures |Central(entries, k + 1)| == |Central(entries, k)| + |CentralRecord(entries[k], |Locals(entries, k)|)|
  {
    hide CentralRecord, Locals;
  }

  lemma DirectoryEnds(b: Bytes, end: nat)
    ensures ReadCentral(b, end, 0, end) == Some([])
  {
  }

  /** Whenever the counts, lengths and offsets fit, the archive reads back as its entries. */
  lemma RoundTrip(entries: seq<Entry>)
    requires Fits(entries)
    ensures ReadArchive(Archive(entries)) == Some(entries)
  {
    hide Has, Locals, Central, U16At, U32At, EndRecord, ReadCentral;
    var n := |entries|;
    var b, l, c := Archive(entries), Locals(entries, n), Central(entries, n);
    HasAtEnd(l + c, EndRecord(n, |c|, |l|));
    EndFields(b, |l + c|, n, |c|, |l|);
    DirectoryReads(entries, 0);
    NothingCentral(entries);
    assert entries[0..] == entries;
  }

  lemma NothingCentral(entries: seq<Entry>)
    ensures Central(entries, 0) == []
  {
  }

  // When the writer succeeds.

  lemma {:induction false} NoFaultMeans(entries: seq<Entry>, n: nat)
    requires n <= |entries|
    ensures FirstFault(entries, n).None? <==>
            (forall k :: 0 <= k < n ==> |entries[k].path| <= MAX16) && n <= MAX16 && |Locals(entries, n)| <= MAX32
    decreases n
  {
    hide LocalHeader;
    if n > 0 {
      NoFaultMeans(entries, n - 1);
    }
  }

  /** The writer succeeds exactly when everything fits. */
  lemma SucceedsExactly(entries: seq<Entry>)
    ensures Verdict(entries).None? <==> Fits(entries)
  {
    hide Locals, Central, FirstFault;
    NoFaultMeans(entries, |entries|);
  }

  /** Why the writer stops: at the first entry with a fault, for the first reason that applies to it. */
  lemma RefusedAt(entries: seq<Entry>, k: nat)
    requires k < |entries| && FirstFault(entries, k).None?
    ensures |entries[k].path| > 65535 ==> Verdict(entries) == Some(NameTooLong)
    ensures |entries[k].path| <= 65535 && |entries[k].bytes| > 4294967295 ==> Verdict(entries) == Some(EntryTooLarge)
    ensures |entries[k].path| <= 65535 && |entries[k].bytes| <= 4294967295 && |Locals(entries, k + 1)| > 4294967295 ==>
              Verdict(entries) == Some(ArchiveTooLarge)
    ensures |entries[k].path| <= 65535 && |entries[k].bytes| <= 4294967295 && |Locals(entries, k + 1)| <= 4294967295 &&
            k + 1 > 65535 ==>
              Verdict(entries) == Some(TooManyEntries)
  {
    hide Locals, Verdict, FirstFault;
    FaultAt(entries, k);
  }

  /** With no such entry it is the directory that may not fit. */
  lemma RefusedDirectory(entries: seq<Entry>)
    requires FirstFault(entries, |entries|).None? && |Central(entries, |entries|)| > 4294967295
    ensures Verdict(entries) == Some(ArchiveTooLarge)
  {
    hide Central, FirstFault;
  }
}
