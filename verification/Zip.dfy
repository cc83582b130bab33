/** The CLI's ZIP writer: stored entries, a central directory and an end record. */
module Zip {
  import opened Bytes
  import Crc32

  const MAX16: int := 0xFFFF
  const MAX32: int := 0xFFFF_FFFF

  const LOCAL_SIGNATURE: int := 0x0403_4b50
  const CENTRAL_SIGNATURE: int := 0x0201_4b50
  const END_SIGNATURE: int := 0x0605_4b50

  /** An archive path in UTF-8, and its bytes. */
  datatype Entry = Entry(path: Bytes, bytes: Bytes)

  datatype ZipError = NameTooLong | EntryTooLarge | ArchiveTooLarge | TooManyEntries

  /** Little-endian fields keep the low bits of the value. */
  function Le16(v: nat): (r: Bytes)
    ensures |r| == 2
  {
    [v % 0x100, v / 0x100 % 0x100]
  }

  function Le32(v: nat): (r: Bytes)
    ensures |r| == 4
  {
    [v % 0x100, v / 0x100 % 0x100, v / 0x1_0000 % 0x100, v / 0x100_0000 % 0x100]
  }

  function LocalHeader(e: Entry): (r: Bytes)
    ensures |r| == 30 + |e.path|
  {
    Le32(LOCAL_SIGNATURE) + Le16(20) + Le16(0) + Le16(0) + Le16(0) + Le16(33) + Le32(Crc32.Checksum(e.bytes))
    + Le32(|e.bytes|) + Le32(|e.bytes|) + Le16(|e.path|) + Le16(0) + e.path
  }

  function CentralRecord(e: Entry, localOffset: nat): (r: Bytes)
    ensures |r| == 46 + |e.path|
  {
    Le32(CENTRAL_SIGNATURE) + Le16(20) + Le16(20) + Le16(0) + Le16(0) + Le16(0) + Le16(33) + Le32(Crc32.Checksum(e.bytes))
    + Le32(|e.bytes|) + Le32(|e.bytes|) + Le16(|e.path|) + Le16(0) + Le16(0) + Le16(0) + Le16(0) + Le32(0)
    + Le32(localOffset) + e.path
  }

  function EndRecord(count: nat, size: nat, offset: nat): (r: Bytes)
    ensures |r| == 22
  {
    Le32(END_SIGNATURE) + Le16(0) + Le16(0) + Le16(count) + Le16(count) + Le32(size) + Le32(offset) + Le16(0)
  }

  /** Headers and bytes of the first n entries. */
  function Locals(entries: seq<Entry>, n: nat): Bytes
    requires n <= |entries|
  {
    if n == 0 then [] else Locals(entries, n - 1) + LocalHeader(entries[n - 1]) + entries[n - 1].bytes
  }

  function Central(entries: seq<Entry>, n: nat): Bytes
    requires n <= |entries|
  {
    if n == 0 then [] else Central(entries, n - 1) + CentralRecord(entries[n - 1], |Locals(entries, n - 1)|)
  }

  function Archive(entries: seq<Entry>): Bytes {
    var n := |entries|;
    Locals(entries, n) + Central(entries, n) + EndRecord(n, |Central(entries, n)|, |Locals(entries, n)|)
  }

  /** Why the writer stops at entry k, if it got there. */
  function EntryFault(entries: seq<Entry>, k: nat): Option<ZipError>
    requires k < |entries|
  {
    if |entries[k].path| > MAX16 then Some(NameTooLong)
    else if |entries[k].bytes| > MAX32 then Some(EntryTooLarge)
    else if |Locals(entries, k + 1)| > MAX32 then Some(ArchiveTooLarge)
    else if k + 1 > MAX16 then Some(TooManyEntries)
    else None
  }

  function FirstFault(entries: seq<Entry>, n: nat): Option<ZipError>
    requires n <= |entries|
  {
    if n == 0 then None
    else if FirstFault(entries, n - 1).Some? then FirstFault(entries, n - 1)
    else EntryFault(entries, n - 1)
  }

  function Verdict(entries: seq<Entry>): Option<ZipError> {
    var n := |entries|;
    if FirstFault(entries, n).Some? then FirstFault(entries, n)
    else if |Central(entries, n)| > MAX32 then Some(ArchiveTooLarge)
    else None
  }

  /** Every count, length and offset fits its field. */
  predicate Fits(entries: seq<Entry>) {
    var n := |entries|;
    && (forall k :: 0 <= k < n ==> |entries[k].path| <= 65535)
    && n <= 65535
    && |Locals(entries, n)| <= 4294967295
    && |Central(entries, n)| <= 4294967295
  }

  lemma {:induction false} FaultIsFinal(entries: seq<Entry>, n: nat, m: nat)
    requires n <= m <= |entries| && FirstFault(entries, n).Some?
    ensures FirstFault(entries, m) == FirstFault(entries, n)
    decreases m
  {
    hide EntryFault;
    if n < m {
      FaultIsFinal(entries, n, m - 1);
    }
  }

  lemma FaultAt(entries: seq<Entry>, k: nat)
    requires k < |entries| && FirstFault(entries, k).None?
    ensures EntryFault(entries, k).Some? ==> Verdict(entries) == EntryFault(entries, k)
    ensures FirstFault(entries, k + 1) == EntryFault(entries, k)
  {
    hide EntryFault;
    if EntryFault(entries, k).Some? {
      FaultIsFinal(entries, k + 1, |entries|);
    }
  }

  /** Entries go to the file and their records to the directory, which follows them. */
  method WriteZipArchive(entries: seq<Entry>) returns (r: Result<Bytes, ZipError>)
    ensures r == match Verdict(entries) case Some(e) => Err(e) case None => Ok(Archive(entries))
  {
    hide Le16, Le32, Verdict, FirstFault, Crc32.Checksum;
    var file: Bytes := [];
    var centralDirectory: Bytes := [];
    var centralRecords: u16 := 0;
    var offset: u32 := 0;
    assert FirstFault(entries, 0).None? by { NoEntries(entries); }
    for i := 0 to |entries|
      invariant file == Locals(entries, i) && centralDirectory == Central(entries, i)
      invariant centralRecords == i && offset == |file|
      invariant FirstFault(entries, i).None?
    {
      var entry := entries[i];
      FaultAt(entries, i);
      var name := entry.path;
      if |name| > MAX16 {
        return Err(NameTooLong);
      }
      if |entry.bytes| > MAX32 {
        return Err(EntryTooLarge);
      }
      var nameLen: u16, size: u32 := |name|, |entry.bytes|;
      var crc := Crc32.Compute(entry.bytes);
      var localOffset := offset;

      var localHeader := Le32(LOCAL_SIGNATURE);
      localHeader := localHeader + Le16(20);
      localHeader := localHeader + Le16(0);
      localHeader := localHeader + Le16(0);
      localHeader := localHeader + Le16(0);
      localHeader := localHeader + Le16(33);
      localHeader := localHeader + Le32(crc);
      localHeader := localHeader + Le32(size);
      localHeader := localHeader + Le32(size);
      localHeader := localHeader + Le16(nameLen);
      localHeader := localHeader + Le16(0);
      localHeader := localHeader + name;
      file := file + localHeader;
      file := file + entry.bytes;

      if |localHeader| + |entry.bytes| > MAX32 {
        return Err(ArchiveTooLarge);
      }
      var written: u32 := |localHeader| + |entry.bytes|;
      if offset + written > MAX32 {
        return Err(ArchiveTooLarge);
      }
      offset := offset + written;

      var record := Le32(CENTRAL_SIGNATURE);
      record := record + Le16(20);
      record := record + Le16(20);
      record := record + Le16(0);
      record := record + Le16(0);
      record := record + Le16(0);
      record := record + Le16(33);
      record := record + Le32(crc);
      record := record + Le32(size);
      record := record + Le32(size);
      record := record + Le16(nameLen);
      record := record + Le16(0);
      record := record + Le16(0);
      record := record + Le16(0);
      record := record + Le16(0);
      record := record + Le32(0);
      record := record + Le32(localOffset);
      record := record + name;
      centralDirectory := centralDirectory + record;
      if centralRecords == MAX16 {
        return Err(TooManyEntries);
      }
      centralRecords := centralRecords + 1;
    }

    var centralOffset := offset;
    if |centralDirectory| > MAX32 {
      assert Verdict(entries) == Some(ArchiveTooLarge) by { LastVerdict(entries); }
      return Err(ArchiveTooLarge);
    }
    LastVerdict(entries);
    var centralSize: u32 := |centralDirectory|;
    file := file + centralDirectory;
    var endRecord := Le32(END_SIGNATURE);
    endRecord := endRecord + Le16(0);
    endRecord := endRecord + Le16(0);
    endRecord := endRecord + Le16(centralRecords);
    endRecord := endRecord + Le16(centralRecords);
    endRecord := endRecord + Le32(centralSize);
    endRecord := endRecord + Le32(centralOffset);
    endRecord := endRecord + Le16(0);
    file := file + endRecord;
    r := Ok(file);
  }

  lemma NoEntries(entries: seq<Entry>)
    ensures FirstFault(entries, 0).None?
  {
  }

  lemma LastVerdict(entries: seq<Entry>)
    requires FirstFault(entries, |entries|).None?
    ensures Verdict(entries) == if |Central(entries, |entries|)| > MAX32 then Some(ArchiveTooLarge) else None
  {
  }
}
