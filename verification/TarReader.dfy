/** A reader of the ustar interchange format (IEEE Std 1003.1, pax), and the round trip through it. */
module TarReader {
  import opened Bytes
  import opened Ranges
  import opened Tar
  import Zip

  /** The characters of a field before its first NUL. */
  function UpToNul(b: Bytes): Bytes {
    if b == [] || b[0] == 0 then [] else [b[0]] + UpToNul(b[1..])
  }

  /** Octal digits, closed by a NUL or a space. */
  function ParseOctal(b: Bytes, value: nat): Option<nat>
    decreases |b|
  {
    if b == [] then None
    else if b[0] == 0 || b[0] == 0x20 then Some(value)
    else if 0x30 <= b[0] < 0x38 then ParseOctal(b[1..], 8 * value + (b[0] - 0x30))
    else None
  }

  datatype FileHeader = FileHeader(path: Bytes, size: nat, mode: nat, owner: nat, group: nat, time: nat)

  function Joined(name: Bytes, prefix: Bytes): Bytes {
    if prefix == [] then name else prefix + [0x2F] + name
  }

  /** A regular file whose header sum is right. */
  function ReadHeader(b: Bytes): Option<FileHeader>
    requires |b| == 512
  {
    if b[257..263] != [0x75, 0x73, 0x74, 0x61, 0x72, 0x00] || b[263..265] != [0x30, 0x30] || b[156] != 0x30
       || ParseOctal(b[148..156], 0) != Some(Sum(Patch(b, 148, Filled(0x20, 8))))
    then None
    else
      match (ParseOctal(b[124..136], 0), ParseOctal(b[100..108], 0), ParseOctal(b[108..116], 0),
             ParseOctal(b[116..124], 0), ParseOctal(b[136..148], 0))
      case (Some(size), Some(mode), Some(owner), Some(group), Some(time)) =>
        Some(FileHeader(Joined(UpToNul(b[..100]), UpToNul(b[345..500])), size, mode, owner, group, time))
      case _ => None
  }

  /** Headers and data in blocks of 512, up to two blocks of zeros that end the file. */
  function ReadMembers(b: Bytes, pos: nat): Option<seq<Zip.Entry>>
    decreases |b| - pos
  {
    if pos + 512 > |b| then None
    else if b[pos..pos + 512] == Filled(0, 512) then
      if b[pos..] == Filled(0, 1024) then Some([]) else None
    else
      match ReadHeader(b[pos..pos + 512])
      case None => None
      case Some(header) =>
        var data := pos + 512;
        if data + header.size + Padding(header.size) > |b| then None
        else
          match ReadMembers(b, data + header.size + Padding(header.size))
          case None => None
          case Some(rest) => Some([Zip.Entry(header.path, b[data..data + header.size])] + rest)
  }

  // Numbers.

  lemma {:induction false} ParseDigits(v: nat, rest: Bytes, value: nat)
    requires rest != [] && (rest[0] == 0 || rest[0] == SPACE)
    ensures ParseOctal(Octal(v) + rest, value) == Some(value * Pow8(|Octal(v)|) + v)
    decreases v
  {
    ParseMore(v, rest, value);
    assert ParseOctal(rest, value * Pow8(|Octal(v)|) + v) == Some(value * Pow8(|Octal(v)|) + v);
  }

  /** Reading the digits of a number shifts what was read before. */
  lemma {:induction false} ParseMore(v: nat, rest: Bytes, value: nat)
    ensures ParseOctal(Octal(v) + rest, value) == ParseOctal(rest, value * Pow8(|Octal(v)|) + v)
    decreases v
  {
    hide ParseOctal, Pow8, Octal;
    OctalStep(v);
    if v < 8 {
      OneDigit(v, rest, value);
      Pow8Steps(0);
    } else {
      var high := Octal(v / 8);
      assert Octal(v) + rest == high + ([DIGIT_ZERO + v % 8] + rest);
      ParseMore(v / 8, [DIGIT_ZERO + v % 8] + rest, value);
      OneDigit(v % 8, rest, value * Pow8(|high|) + v / 8);
      Pow8Steps(|high|);
      ShiftDigit(value, Pow8(|high|), v);
    }
  }

  lemma OctalStep(v: nat)
    ensures Octal(v) == if v < 8 then [DIGIT_ZERO + v] else Octal(v / 8) + [DIGIT_ZERO + v % 8]
  {
  }

  lemma Pow8Steps(n: nat)
    ensures Pow8(0) == 1 && Pow8(n + 1) == 8 * Pow8(n)
  {
  }

  lemma OneDigit(d: nat, rest: Bytes, value: nat)
    requires d < 8
    ensures ParseOctal([DIGIT_ZERO + d] + rest, value) == ParseOctal(rest, 8 * value + d)
  {
    assert ([DIGIT_ZERO + d] + rest)[1..] == rest;
  }

  lemma ShiftDigit(value: nat, p: nat, v: nat)
    ensures 8 * (value * p + v / 8) + v % 8 == value * (8 * p) + v
  {
    assert 8 * (v / 8) + v % 8 == v;
    assert 8 * (value * p) == value * (8 * p);
  }

  lemma {:induction false} LeadingZeros(n: nat, rest: Bytes)
    ensures ParseOctal(Filled(DIGIT_ZERO, n) + rest, 0) == ParseOctal(rest, 0)
  {
    if n > 0 {
      var zeros := Filled(DIGIT_ZERO, n - 1);
      assert Filled(DIGIT_ZERO, n) + rest == zeros + ([DIGIT_ZERO] + rest);
      LeadingZeros(n - 1, [DIGIT_ZERO] + rest);
      OneDigit(0, rest, 0);
    } else {
      assert Filled(DIGIT_ZERO, 0) + rest == rest;
    }
  }

  lemma PaddedParses(v: nat, width: nat, rest: Bytes)
    requires rest != [] && (rest[0] == 0 || rest[0] == SPACE)
    ensures ParseOctal(PaddedOctal(v, width) + rest, 0) == Some(v)
  {
    hide Octal, ParseOctal;
    ParseDigits(v, rest, 0);
    if |Octal(v)| < width {
      var zeros := Filled(DIGIT_ZERO, width - |Octal(v)|);
      LeadingZeros(width - |Octal(v)|, Octal(v) + rest);
      assert PaddedOctal(v, width) + rest == zeros + (Octal(v) + rest);
    }
  }

  // Fields.

  /** Looking for a field through patches that do not touch it. */
  lemma PatchRules()
    ensures forall b: Bytes, i: nat, x: Bytes :: i + |x| <= |b| ==> Has(Patch(b, i, x), i, x)
    ensures forall b: Bytes, i: nat, x: Bytes, j: nat, y: Bytes {:trigger Has(Patch(b, i, x), j, y)} ::
              i + |x| <= |b| && Has(b, j, y) && (j + |y| <= i || i + |x| <= j) ==> Has(Patch(b, i, x), j, y)
  {
    forall b: Bytes, i: nat, x: Bytes | i + |x| <= |b| ensures Has(Patch(b, i, x), i, x) {
      PatchHas(b, i, x);
    }
    forall b: Bytes, i: nat, x: Bytes, j: nat, y: Bytes
      | i + |x| <= |b| && Has(b, j, y) && (j + |y| <= i || i + |x| <= j)
      ensures Has(Patch(b, i, x), j, y)
    {
      PatchKeeps(b, i, x, j, y);
    }
  }

  lemma ZerosHave(n: nat, i: nat, m: nat)
    requires i + m <= n
    ensures Has(Filled(0, n), i, Filled(0, m))
  {
    assert Filled(0, n)[i..i + m] == Filled(0, m);
  }

  lemma BlankedFields(split: SplitPath, size: nat)
    requires |split.name| <= 100 && |split.prefix.GetOr([])| <= 155 && FitsOctal(size, 11)
    ensures var (b, prefix) := (Blanked(split, size), split.prefix.GetOr([]));
            && Has(b, 0, split.name) && Has(b, |split.name|, Filled(0, 100 - |split.name|))
            && FitsOctal(0x1A4, 7) && FitsOctal(0, 7) && FitsOctal(0, 11)
            && Has(b, 100, NumberField(0x1A4, 8)) && Has(b, 108, NumberField(0, 8)) && Has(b, 116, NumberField(0, 8))
            && Has(b, 136, NumberField(0, 12))
            && Has(b, 124, NumberField(size, 12)) && Has(b, 148, Filled(SPACE, 8)) && Has(b, 156, [DIGIT_ZERO])
            && Has(b, 257, MAGIC) && Has(b, 263, VERSION)
            && Has(b, 345, prefix) && Has(b, 345 + |prefix|, Filled(0, 155 - |prefix|))
  {
    hide Has, Patch, NumberField, Filled;
    var prefix := split.prefix.GetOr([]);
    SmallFits();
    ZerosHave(512, |split.name|, 100 - |split.name|);
    ZerosHave(512, 345 + |prefix|, 155 - |prefix|);
    PatchRules();
  }

  lemma HeaderFields(split: SplitPath, size: nat)
    requires |split.name| <= 100 && |split.prefix.GetOr([])| <= 155 && FitsOctal(size, 11)
    ensures FitsOctal(Sum(Blanked(split, size)), 6)
    ensures var (b, prefix) := (Header(split, size), split.prefix.GetOr([]));
            && Has(b, 0, split.name) && Has(b, |split.name|, Filled(0, 100 - |split.name|))
            && FitsOctal(0x1A4, 7) && FitsOctal(0, 7) && FitsOctal(0, 11)
            && Has(b, 100, NumberField(0x1A4, 8)) && Has(b, 108, NumberField(0, 8)) && Has(b, 116, NumberField(0, 8))
            && Has(b, 136, NumberField(0, 12))
            && Has(b, 124, NumberField(size, 12)) && Has(b, 156, [DIGIT_ZERO])
            && Has(b, 148, ChecksumField(Sum(Blanked(split, size))))
            && Has(b, 257, MAGIC) && Has(b, 263, VERSION)
            && Has(b, 345, prefix) && Has(b, 345 + |prefix|, Filled(0, 155 - |prefix|))
            && Patch(b, 148, Filled(SPACE, 8)) == Blanked(split, size)
  {
    hide Has, Patch, NumberField, Filled, Blanked, ChecksumField, Sum, FitsOctal;
    var b := Blanked(split, size);
    BlankedFields(split, size);
    SumFits(b);
    PatchRules();
    PatchTwice(b, 148, ChecksumField(Sum(b)), Filled(SPACE, 8));
    PatchSame(b, 148, Filled(SPACE, 8));
  }

  lemma HasSlice(b: Bytes, i: nat, x: Bytes)
    requires Has(b, i, x)
    ensures i + |x| <= |b| && b[i..i + |x|] == x
  {
  }

  lemma HasPair(b: Bytes, i: nat, x: Bytes, y: Bytes)
    requires Has(b, i, x) && Has(b, i + |x|, y)
    ensures i + |x| + |y| <= |b| && b[i..i + |x| + |y|] == x + y
  {
  }

  lemma {:induction false} NameEnds(x: Bytes, n: nat)
    ensures UpToNul(x + Filled(0, n)) == UpToNul(x)
  {
    if x == [] {
      assert x + Filled(0, n) == Filled(0, n);
      assert n > 0 ==> Filled(0, n)[0] == 0;
    } else if x[0] != 0 {
      NameEnds(x[1..], n);
      assert (x + Filled(0, n))[1..] == x[1..] + Filled(0, n);
    }
  }

  /** What a reader takes from a header: the same size, the path up to NULs, and mode 644, all else zero. */
  lemma HeaderReads(split: SplitPath, size: nat)
    requires |split.name| <= 100 && |split.prefix.GetOr([])| <= 155 && FitsOctal(size, 11)
    ensures ReadHeader(Header(split, size)) ==
            Some(FileHeader(Joined(UpToNul(split.name), UpToNul(split.prefix.GetOr([]))), size, 6 * 64 + 4 * 8 + 4, 0, 0, 0))
  {
    hide Has, Patch, Filled, Blanked, Sum, FitsOctal, PaddedOctal, ParseOctal, UpToNul, Header, Joined;
    var b, prefix := Header(split, size), split.prefix.GetOr([]);
    HeaderFields(split, size);
    HasSlice(b, 257, MAGIC);
    HasSlice(b, 263, VERSION);
    HasSlice(b, 156, [DIGIT_ZERO]);
    assert b[156] == b[156..157][0];
    var sum := Sum(Blanked(split, size));
    HasSlice(b, 148, ChecksumField(sum));
    PaddedParses(sum, 6, [0, SPACE]);
    HasSlice(b, 124, NumberField(size, 12));
    PaddedParses(size, 11, [0]);
    HasSlice(b, 100, NumberField(0x1A4, 8));
    PaddedParses(0x1A4, 7, [0]);
    HasSlice(b, 108, NumberField(0, 8));
    HasSlice(b, 116, NumberField(0, 8));
    PaddedParses(0, 7, [0]);
    HasSlice(b, 136, NumberField(0, 12));
    PaddedParses(0, 11, [0]);
    HasPair(b, 0, split.name, Filled(0, 100 - |split.name|));
    NameEnds(split.name, 100 - |split.name|);
    HasPair(b, 345, prefix, Filled(0, 155 - |prefix|));
    NameEnds(prefix, 155 - |prefix|);
  }

  // The whole archive.

  /** The path a reader sees. */
  function SeenPath(path: Bytes): Bytes {
    match Split(path)
    case Err(_) => []
    case Ok(split) => Joined(UpToNul(split.name), UpToNul(split.prefix.GetOr([])))
  }

  function Seen(entries: seq<Zip.Entry>): (r: seq<Zip.Entry>)
    ensures |r| == |entries|
    ensures forall i :: 0 <= i < |entries| ==> r[i] == Zip.Entry(SeenPath(entries[i].path), entries[i].bytes)
  {
    if entries == [] then [] else [Zip.Entry(SeenPath(entries[0].path), entries[0].bytes)] + Seen(entries[1..])
  }

  lemma {:induction false} FrontSucceeds(entries: seq<Zip.Entry>, k: nat, n: nat)
    requires k <= n <= |entries| && Members(entries, n).Ok?
    ensures Members(entries, k).Ok?
    ensures k < n ==> HeaderOf(entries[k].path, |entries[k].bytes|).Ok?
    ensures k < n ==> Members(entries, k + 1) ==
                      Ok(Members(entries, k).value + Member(HeaderOf(entries[k].path, |entries[k].bytes|).value, entries[k].bytes))
    decreases n
  {
    hide HeaderOf, Member;
    if k < n {
      FrontSucceeds(entries, k, n - 1);
    }
  }

  lemma {:induction false} MemberStands(entries: seq<Zip.Entry>, n: nat, k: nat)
    requires k < n <= |entries| && Members(entries, n).Ok?
    ensures Members(entries, k).Ok? && HeaderOf(entries[k].path, |entries[k].bytes|).Ok?
    ensures Has(Members(entries, n).value, |Members(entries, k).value|,
                Member(HeaderOf(entries[k].path, |entries[k].bytes|).value, entries[k].bytes))
    decreases n
  {
    hide Has, HeaderOf, Member;
    FrontSucceeds(entries, k, n);
    FrontSucceeds(entries, n - 1, n);
    var x := Members(entries, n - 1).value;
    var y := Member(HeaderOf(entries[n - 1].path, |entries[n - 1].bytes|).value, entries[n - 1].bytes);
    if k < n - 1 {
      MemberStands(entries, n - 1, k);
      HasInFront(x, y, |Members(entries, k).value|,
                 Member(HeaderOf(entries[k].path, |entries[k].bytes|).value, entries[k].bytes));
    } else {
      HasAtEnd(x, y);
    }
  }

  /** The zero blocks at the end are no header: a header has a digit at 156. */
  lemma HeaderIsNotZero(split: SplitPath, size: nat)
    requires |split.name| <= 100 && |split.prefix.GetOr([])| <= 155 && FitsOctal(size, 11)
    ensures Header(split, size) != Filled(0, 512)
  {
    hide Header, FitsOctal, Has, Blanked, Sum, PaddedOctal;
    HeaderFields(split, size);
    HasSlice(Header(split, size), 156, [DIGIT_ZERO]);
    assert Header(split, size)[156] == Header(split, size)[156..157][0];
  }

  lemma HeaderIsRead(path: Bytes, size: nat)
    requires HeaderOf(path, size).Ok?
    ensures ReadHeader(HeaderOf(path, size).value) == Some(FileHeader(SeenPath(path), size, 0x1A4, 0, 0, 0))
    ensures HeaderOf(path, size).value != Filled(0, 512)
  {
    hide Header, Joined, UpToNul, FitsOctal, ReadHeader, Filled, Split;
    var split := Split(path).value;
    HeaderReads(split, size);
    HeaderIsNotZero(split, size);
  }

  lemma MemberReads(b: Bytes, pos: nat, header: Bytes, bytes: Bytes, path: Bytes)
    requires Has(b, pos, Member(header, bytes)) && |header| == 512 && header != Filled(0, 512)
    requires ReadHeader(header) == Some(FileHeader(path, |bytes|, 0x1A4, 0, 0, 0))
    ensures var rest := ReadMembers(b, pos + |Member(header, bytes)|);
            ReadMembers(b, pos) == if rest.None? then None else Some([Zip.Entry(path, bytes)] + rest.value)
  {
    hide Has, ReadHeader, Filled, Padding;
    HasSplit(b, pos, header + bytes, Filled(0, Padding(|bytes|)));
    HasSplit(b, pos, header, bytes);
    HasSlice(b, pos, header);
    HasSlice(b, pos + 512, bytes);
    HasSlice(b, pos + 512 + |bytes|, Filled(0, Padding(|bytes|)));
  }

  lemma EndReads(b: Bytes, front: Bytes)
    requires b == front + Filled(0, 1024)
    ensures ReadMembers(b, |front|) == Some([])
  {
    assert b[|front|..] == Filled(0, 1024);
    assert b[|front|..|front| + 512] == Filled(0, 512);
  }

  lemma {:induction false} MembersRead(entries: seq<Zip.Entry>, k: nat)
    requires k <= |entries| && Archive(entries).Ok?
    ensures Members(entries, k).Ok?
    ensures ReadMembers(Archive(entries).value, |Members(entries, k).value|) == Some(Seen(entries[k..]))
    decreases |entries| - k
  {
    hide Has, HeaderOf, Member, Members, ReadMembers, SeenPath, ReadHeader, Filled;
    var n := |entries|;
    FrontSucceeds(entries, k, n);
    var b := Archive(entries).value;
    if k < n {
      MembersRead(entries, k + 1);
      MemberStands(entries, n, k);
      var header := HeaderOf(entries[k].path, |entries[k].bytes|).value;
      HasInFront(Members(entries, n).value, Filled(0, 1024), |Members(entries, k).value|, Member(header, entries[k].bytes));
      HeaderLength(entries[k].path, |entries[k].bytes|);
      HeaderIsRead(entries[k].path, |entries[k].bytes|);
      MemberReads(b, |Members(entries, k).value|, header, entries[k].bytes, SeenPath(entries[k].path));
      assert entries[k..][1..] == entries[k + 1..];
    } else {
      EndReads(b, Members(entries, n).value);
    }
  }

  lemma HeaderLength(path: Bytes, size: nat)
    requires HeaderOf(path, size).Ok?
    ensures |HeaderOf(path, size).value| == 512
  {
    hide HeaderOf;
  }

  lemma NothingWritten(entries: seq<Zip.Entry>)
    ensures Members(entries, 0) == Ok([])
  {
  }

  /** Every archive reads back, entry by entry, with the bytes written and the path that its header shows. */
  lemma ArchiveReads(entries: seq<Zip.Entry>)
    requires Archive(entries).Ok?
    ensures ReadMembers(Archive(entries).value, 0) == Some(Seen(entries))
  {
    hide Members, ReadMembers, Archive;
    MembersRead(entries, 0);
    NothingWritten(entries);
    assert entries[0..] == entries;
  }

  // Which paths survive.

  predicate HasNul(b: Bytes) {
    exists i :: 0 <= i < |b| && b[i] == 0
  }

  /** A slash and a hundred characters, with no slash to split at but the first. */
  predicate OnlyRootSplit(path: Bytes) {
    |path| == 101 && path[0] == SLASH && forall i :: 1 <= i < 100 ==> path[i] != SLASH
  }

  lemma {:induction false} UpToNulKeeps(x: Bytes)
    ensures |UpToNul(x)| <= |x|
    ensures |UpToNul(x)| == |x| <==> !HasNul(x)
    ensures !HasNul(x) ==> UpToNul(x) == x
  {
    if x != [] && x[0] != 0 {
      UpToNulKeeps(x[1..]);
      if HasNul(x) {
        var i :| 0 <= i < |x| && x[i] == 0;
        assert x[1..][i - 1] == 0;
      }
      if HasNul(x[1..]) {
        var i :| 0 <= i < |x[1..]| && x[1..][i] == 0;
        assert x[i + 1] == 0;
      }
    }
  }

  lemma RootSplit(path: Bytes)
    requires Split(path).Ok? && |path| > 100
    ensures Split(path).value.prefix == Some([]) <==> OnlyRootSplit(path)
  {
    var i := LastFeasible(path, |path|).value;
    assert |path[..i]| == i;
    if i == 0 {
      forall j | 1 <= j < 100 ensures path[j] != SLASH {
        assert !Feasible(path, j);
      }
    }
  }

  lemma NulInSplit(path: Bytes, i: nat)
    requires i < |path| && path[i] == SLASH
    ensures HasNul(path) <==> HasNul(path[..i]) || HasNul(path[i + 1..])
  {
    if HasNul(path) {
      var j :| 0 <= j < |path| && path[j] == 0;
      assert j < i ==> path[..i][j] == 0;
      assert j > i ==> path[i + 1..][j - i - 1] == 0;
    }
    if HasNul(path[i + 1..]) {
      var j :| 0 <= j < |path[i + 1..]| && path[i + 1..][j] == 0;
      assert path[i + 1 + j] == 0;
    }
  }

  /** A path survives exactly when it has no NUL and is not split at its first character. */
  lemma PathSurvives(path: Bytes)
    requires Split(path).Ok?
    ensures SeenPath(path) == path <==> !HasNul(path) && !OnlyRootSplit(path)
  {
    hide UpToNul, HasNul;
    var split := Split(path).value;
    if |path| <= 100 {
      UpToNulKeeps(path);
      assert UpToNul([]) == [] by { UpToNulKeeps([]); }
    } else {
      hide OnlyRootSplit;
      var i := LastFeasible(path, |path|).value;
      RootSplit(path);
      NulInSplit(path, i);
      UpToNulKeeps(path[..i]);
      UpToNulKeeps(path[i + 1..]);
      assert path == path[..i] + [SLASH] + path[i + 1..];
    }
  }

  /** For one: a slash before a hundred characters is lost. */
  lemma LeadingSlashLost(name: Bytes)
    requires |name| == 100 && forall i :: 0 <= i < 100 ==> name[i] != 0 && name[i] != SLASH
    ensures Split([SLASH] + name).Ok? && SeenPath([SLASH] + name) == name
  {
    var path := [SLASH] + name;
    assert Feasible(path, 0);
    assert forall j :: 1 <= j < |path| ==> !Feasible(path, j);
    assert LastFeasible(path, |path|) == Some(0);
    assert path[1..] == name && path[..0] == [];
    UpToNulKeeps(name);
  }

  /** For another: a NUL cuts the path off. */
  lemma NulTruncates(x: Bytes, y: Bytes)
    requires !HasNul(x) && |x| + 1 + |y| <= 100
    ensures Split(x + [0] + y).Ok? && SeenPath(x + [0] + y) == x
  {
    UpToFirstNul(x, y);
    UpToNulKeeps([]);
  }

  lemma {:induction false} UpToFirstNul(x: Bytes, y: Bytes)
    requires !HasNul(x)
    ensures UpToNul(x + [0] + y) == x
  {
    if x != [] {
      assert !HasNul(x[1..]) by {
        assert forall i :: 0 <= i < |x[1..]| ==> x[1..][i] == x[i + 1];
      }
      UpToFirstNul(x[1..], y);
      assert (x + [0] + y)[1..] == x[1..] + [0] + y;
    }
  }

  /** An archive reads back as its entries exactly when every path survives. */
  lemma RoundTrip(entries: seq<Zip.Entry>)
    requires Archive(entries).Ok?
    ensures ReadMembers(Archive(entries).value, 0) == Some(entries) <==>
            forall k :: 0 <= k < |entries| ==> !HasNul(entries[k].path) && !OnlyRootSplit(entries[k].path)
  {
    hide Archive, ReadMembers, SeenPath, HasNul, OnlyRootSplit, Split;
    ArchiveReads(entries);
    forall k | 0 <= k < |entries|
      ensures SeenPath(entries[k].path) == entries[k].path <==>
              !HasNul(entries[k].path) && !OnlyRootSplit(entries[k].path)
    {
      SplitSucceeded(entries, k);
      PathSurvives(entries[k].path);
    }
    assert Seen(entries) == entries <==> forall k :: 0 <= k < |entries| ==> Seen(entries)[k] == entries[k];
  }

  lemma SplitSucceeded(entries: seq<Zip.Entry>, k: nat)
    requires Archive(entries).Ok? && k < |entries|
    ensures Split(entries[k].path).Ok? && FitsOctal(|entries[k].bytes|, 11)
  {
    hide Members, Split, FitsOctal, Header, Member;
    FrontSucceeds(entries, k, |entries|);
  }

  /** A path without NULs that does not start with a slash always survives. */
  lemma RelativePathSurvives(path: Bytes)
    requires Split(path).Ok? && !HasNul(path) && (path == [] || path[0] != SLASH)
    ensures SeenPath(path) == path
  {
    hide SeenPath, HasNul, Split;
    PathSurvives(path);
  }

  // When the writer succeeds, and what it leaves.

  lemma {:induction false} SucceedsExactly(entries: seq<Zip.Entry>, n: nat)
    requires n <= |entries|
    ensures Members(entries, n).Ok? <==>
            forall k :: 0 <= k < n ==> Split(entries[k].path).Ok? && |entries[k].bytes| < 0x2_0000_0000
  {
    hide Split, FitsOctal, Header, Member;
    if n > 0 {
      SucceedsExactly(entries, n - 1);
      PowValues();
      FitsBelow(|entries[n - 1].bytes|, 11);
    }
  }

  lemma PaddingFills(size: nat)
    ensures (size + Padding(size)) % 512 == 0 && Padding(size) < 512
  {
  }

  lemma MemberLength(front: nat, header: Bytes, bytes: Bytes)
    requires front % 512 == 0 && |header| == 512
    ensures (front + |Member(header, bytes)|) % 512 == 0
  {
    hide Padding;
    PaddingFills(|bytes|);
  }

  lemma {:induction false} MembersLength(entries: seq<Zip.Entry>, n: nat)
    requires n <= |entries| && Members(entries, n).Ok?
    ensures |Members(entries, n).value| % 512 == 0
  {
    hide HeaderOf, Member;
    if n > 0 {
      FrontSucceeds(entries, n - 1, n);
      MembersLength(entries, n - 1);
      HeaderLength(entries[n - 1].path, |entries[n - 1].bytes|);
      MemberLength(|Members(entries, n - 1).value|, HeaderOf(entries[n - 1].path, |entries[n - 1].bytes|).value, entries[n - 1].bytes);
    }
  }

  /** The archive is a whole number of blocks. */
  lemma ArchiveLength(entries: seq<Zip.Entry>)
    requires Archive(entries).Ok?
    ensures |Archive(entries).value| % 512 == 0
  {
    hide Members, Filled;
    MembersLength(entries, |entries|);
  }

  /** Each header's checksum is the sum of its bytes with blanks for the checksum, in six octal digits. */
  lemma ChecksumHolds(path: Bytes, size: nat)
    requires HeaderOf(path, size).Ok?
    ensures var b := HeaderOf(path, size).value;
            var sum := Sum(Patch(b, 148, Filled(SPACE, 8)));
            && sum <= 0xFF * 512 && |Octal(sum)| <= 6
            && ParseOctal(b[148..156], 0) == Some(sum)
            && b[154] == 0 && b[155] == SPACE
  {
    hide Header, FitsOctal, Has, Blanked, Sum, Split, Octal, ParseOctal, Patch;
    var split := Split(path).value;
    var b := Header(split, size);
    HeaderFields(split, size);
    var sum := Sum(Blanked(split, size));
    SumBound(Blanked(split, size));
    PowValues();
    OctalLength(sum, 6);
    HasSlice(b, 148, ChecksumField(sum));
    PaddedParses(sum, 6, [0, SPACE]);
    assert b[154] == b[148..156][6] && b[155] == b[148..156][7];
  }

  // The rest of a header, and why the writer fails.

  /** A number stands in digits from 0 to 7 that fill its field up to a closing NUL. */
  lemma {:induction false} DigitsAreOctal(v: nat)
    ensures forall i :: 0 <= i < |Octal(v)| ==> 0x30 <= Octal(v)[i] <= 0x37
  {
    if v >= 8 {
      DigitsAreOctal(v / 8);
    }
  }

  lemma NumberFieldShape(v: nat, width: nat)
    requires width >= 1 && FitsOctal(v, width - 1)
    ensures var f := NumberField(v, width);
            && |f| == width && f[width - 1] == 0x00 && (forall i :: 0 <= i < width - 1 ==> 0x30 <= f[i] <= 0x37)
            && ParseOctal(f, 0) == Some(v)
  {
    DigitsAreOctal(v);
    PaddedParses(v, width - 1, [0]);
    hide ParseOctal, Octal;
  }

  /** Bytes outside the fields are zero. */
  lemma RestIsZero(path: Bytes, size: nat, i: nat)
    requires HeaderOf(path, size).Ok? && (157 <= i < 257 || 265 <= i < 345 || 500 <= i < 512)
    ensures HeaderOf(path, size).value[i] == 0x00
  {
    hide Split, FitsOctal, PaddedOctal, Sum, NumberField, ChecksumField;
    BlankedZero(Split(path).value, size, i);
    SumFits(Blanked(Split(path).value, size));
  }

  lemma BlankedZero(split: SplitPath, size: nat, i: nat)
    requires |split.name| <= 100 && |split.prefix.GetOr([])| <= 155 && FitsOctal(size, 11)
    requires 157 <= i < 257 || 265 <= i < 345 || 500 <= i < 512
    ensures Blanked(split, size)[i] == 0x00
  {
    hide Has, Patch, NumberField, Filled;
    SmallFits();
    ZerosHave(512, i, 1);
    PatchRules();
    HasSlice(Blanked(split, size), i, Filled(0, 1));
    assert Blanked(split, size)[i] == Blanked(split, size)[i..i + 1][0];
  }

  /** A slash that leaves a name of 1 to 100 bytes and a prefix of at most 155. */
  predicate Splits(path: Bytes, i: nat) {
    i < |path| && path[i] == 0x2F && i <= 155 && 1 <= |path| - i - 1 <= 100
  }

  /** Short paths stay whole; others are split at the last slash that will do, if there is one. */
  lemma SplitExactly(path: Bytes)
    ensures |path| <= 100 ==> Split(path) == Ok(SplitPath(path, None))
    ensures |path| > 100 && (forall i: nat :: !Splits(path, i)) ==> Split(path) == Err(PathTooLong)
    ensures forall i: nat :: |path| > 100 && Splits(path, i) && (forall j: nat :: j > i ==> !Splits(path, j)) ==>
              Split(path) == Ok(SplitPath(path[i + 1..], Some(path[..i])))
  {
    forall i: nat ensures Splits(path, i) <==> Feasible(path, i) {
    }
  }

  ghost predicate CanSplit(path: Bytes) {
    |path| <= 100 || exists i: nat :: Splits(path, i)
  }

  /** Why no header is written. */
  lemma HeaderRefused(path: Bytes, size: nat)
    ensures HeaderOf(path, size) == Err(PathTooLong) <==> !CanSplit(path)
    ensures HeaderOf(path, size) == Err(NumberTooLarge) <==> CanSplit(path) && size >= 8589934592
  {
    PowValues();
    FitsBelow(size, 11);
    SplitSucceeds(path);
    hide FitsOctal, Header, Split, CanSplit;
  }

  lemma SplitSucceeds(path: Bytes)
    ensures Split(path).Ok? <==> CanSplit(path)
    ensures Split(path).Err? ==> Split(path) == Err(PathTooLong)
  {
    forall i: nat ensures Splits(path, i) <==> Feasible(path, i) {
    }
    if |path| > 100 && Split(path).Ok? {
      assert Splits(path, LastFeasible(path, |path|).value);
    }
  }
}
