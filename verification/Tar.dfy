/** The CLI's ustar writer. */
module Tar {
  import opened Bytes
  import opened Ranges
  import Zip

  const SPACE: byte := 0x20
  const SLASH: byte := 0x2F
  const DIGIT_ZERO: byte := 0x30

  /** "ustar" and a NUL. */
  const MAGIC: Bytes := [0x75, 0x73, 0x74, 0x61, 0x72, 0]

  const VERSION: Bytes := [DIGIT_ZERO, DIGIT_ZERO]

  datatype TarError = PathTooLong | NumberTooLarge

  datatype SplitPath = SplitPath(name: Bytes, prefix: Option<Bytes>)

  function Filled(b: byte, n: nat): (r: Bytes)
    ensures |r| == n && forall i :: 0 <= i < n ==> r[i] == b
  {
    if n == 0 then [] else Filled(b, n - 1) + [b]
  }

  // Octal fields.

  function Octal(v: nat): (r: Bytes)
    ensures |r| >= 1
  {
    if v < 8 then [DIGIT_ZERO + v] else Octal(v / 8) + [DIGIT_ZERO + v % 8]
  }

  /** At least so many digits, with zeros in front. */
  function PaddedOctal(v: nat, width: nat): (r: Bytes)
    ensures |r| >= width && (|Octal(v)| <= width ==> |r| == width)
  {
    if |Octal(v)| < width then Filled(DIGIT_ZERO, width - |Octal(v)|) + Octal(v) else Octal(v)
  }

  predicate FitsOctal(v: nat, width: nat) {
    |PaddedOctal(v, width)| <= width
  }

  /** Digits up to a closing NUL. */
  function NumberField(v: nat, width: nat): (r: Bytes)
    requires width >= 1 && FitsOctal(v, width - 1)
    ensures |r| == width
  {
    PaddedOctal(v, width - 1) + [0]
  }

  function Sum(b: Bytes): nat
    decreases |b|
  {
    if b == [] then 0 else Sum(b[..|b| - 1]) + b[|b| - 1]
  }

  lemma {:induction false} SumBound(b: Bytes)
    ensures Sum(b) <= 0xFF * |b|
    decreases |b|
  {
    if b != [] {
      SumBound(b[..|b| - 1]);
    }
  }

  function Pow8(k: nat): nat {
    if k == 0 then 1 else 8 * Pow8(k - 1)
  }

  /** A number needs no more digits than places exactly when it is below that power of eight. */
  lemma {:induction false} OctalLength(v: nat, width: nat)
    requires width >= 1
    ensures |Octal(v)| <= width <==> v < Pow8(width)
    decreases width
  {
    if v >= 8 && width > 1 {
      OctalLength(v / 8, width - 1);
      EighthBelow(v, Pow8(width - 1));
    } else if v >= 8 {
      assert Pow8(1) == 8 * Pow8(0) == 8;
    } else {
      PowPositive(width - 1);
    }
  }

  lemma EighthBelow(v: nat, p: nat)
    ensures v / 8 < p <==> v < 8 * p
  {
  }

  lemma {:induction false} PowPositive(k: nat)
    ensures Pow8(k) >= 1
  {
    if k > 0 {
      PowPositive(k - 1);
    }
  }

  lemma FitsBelow(v: nat, width: nat)
    requires width >= 1
    ensures FitsOctal(v, width) <==> v < Pow8(width)
  {
    hide Octal;
    OctalLength(v, width);
  }

  lemma PowValues()
    ensures Pow8(6) == 0x4_0000 && Pow8(7) == 0x20_0000 && Pow8(11) == 0x2_0000_0000
  {
    assert Pow8(3) == 0x200;
    assert Pow8(6) == 0x4_0000;
    assert Pow8(9) == 0x800_0000;
  }

  // Paths.

  /** A slash at which both halves fit their fields. */
  predicate Feasible(path: Bytes, i: nat) {
    i + 1 < |path| && path[i] == SLASH && i <= 155 && |path| - (i + 1) <= 100
  }

  /** The rightmost such slash before n. */
  function LastFeasible(path: Bytes, n: nat): (r: Option<nat>)
    ensures r.Some? ==> r.value < n && Feasible(path, r.value) && forall j :: r.value < j < n ==> !Feasible(path, j)
    ensures r.None? ==> forall j :: 0 <= j < n ==> !Feasible(path, j)
  {
    if n == 0 then None else if Feasible(path, n - 1) then Some(n - 1) else LastFeasible(path, n - 1)
  }

  function Split(path: Bytes): (r: Result<SplitPath, TarError>)
    ensures r.Ok? ==> |r.value.name| <= 100 && |r.value.prefix.GetOr([])| <= 155
  {
    if |path| <= 100 then Ok(SplitPath(path, None))
    else
      match LastFeasible(path, |path|)
      case None => Err(PathTooLong)
      case Some(i) => Ok(SplitPath(path[i + 1..], Some(path[..i])))
  }

  method SplitTarPath(path: Bytes) returns (r: Result<SplitPath, TarError>)
    ensures r == Split(path)
  {
    if |path| <= 100 {
      return Ok(SplitPath(path, None));
    }
    var index := |path|;
    while index > 0
      invariant 0 <= index <= |path| && forall j :: index <= j < |path| ==> !Feasible(path, j)
    {
      index := index - 1;
      if path[index] == SLASH {
        var prefix := path[..index];
        var name := path[index + 1..];
        if name != [] && |prefix| <= 155 && |name| <= 100 {
          assert Feasible(path, index);
          return Ok(SplitPath(name, Some(prefix)));
        }
      }
    }
    r := Err(PathTooLong);
  }

  // Headers.

  /** The header with blanks for its checksum. */
  function Blanked(split: SplitPath, size: nat): (r: Bytes)
    requires |split.name| <= 100 && |split.prefix.GetOr([])| <= 155 && FitsOctal(size, 11)
    ensures |r| == 512
  {
    SmallFits();
    var b := Patch(Filled(0, 512), 0, split.name);
    var b := Patch(b, 100, NumberField(0x1A4, 8));
    var b := Patch(b, 108, NumberField(0, 8));
    var b := Patch(b, 116, NumberField(0, 8));
    var b := Patch(b, 124, NumberField(size, 12));
    var b := Patch(b, 136, NumberField(0, 12));
    var b := Patch(b, 148, Filled(SPACE, 8));
    var b := Patch(b, 156, [DIGIT_ZERO]);
    var b := Patch(b, 257, MAGIC);
    var b := Patch(b, 263, VERSION);
    Patch(b, 345, split.prefix.GetOr([]))
  }

  /** The mode, and zero, fit their fields. */
  lemma SmallFits()
    ensures FitsOctal(0x1A4, 7) && FitsOctal(0, 7) && FitsOctal(0, 11)
  {
    PowValues();
    FitsBelow(0x1A4, 7);
    FitsBelow(0, 7);
    FitsBelow(0, 11);
  }

  /** Six digits, a NUL and a space. */
  function ChecksumField(sum: nat): (r: Bytes)
    requires FitsOctal(sum, 6)
    ensures |r| == 8
  {
    PaddedOctal(sum, 6) + [0, SPACE]
  }

  lemma SumFits(b: Bytes)
    requires |b| == 512
    ensures FitsOctal(Sum(b), 6)
  {
    SumBound(b);
    PowValues();
    FitsBelow(Sum(b), 6);
  }

  function Header(split: SplitPath, size: nat): (r: Bytes)
    requires |split.name| <= 100 && |split.prefix.GetOr([])| <= 155 && FitsOctal(size, 11)
    ensures |r| == 512
  {
    var b := Blanked(split, size);
    SumFits(b);
    Patch(b, 148, ChecksumField(Sum(b)))
  }

  method WriteTarBytes(header: array<byte>, lo: nat, hi: nat, value: Bytes) returns (ok: bool)
    requires lo <= hi <= header.Length
    modifies header
    ensures ok <==> |value| <= hi - lo
    ensures ok ==> header[..] == Patch(old(header[..]), lo, value)
    ensures !ok ==> header[..] == old(header[..])
  {
    if |value| > hi - lo {
      return false;
    }
    for i := 0 to |value|
      invariant forall j :: 0 <= j < header.Length ==>
                  header[j] == if lo <= j < lo + i then value[j - lo] else old(header[j])
    {
      header[lo + i] := value[i];
    }
    ok := true;
  }

  method WriteTarOctal(header: array<byte>, lo: nat, hi: nat, value: nat) returns (ok: bool)
    requires lo < hi <= header.Length
    modifies header
    ensures ok <==> FitsOctal(value, hi - lo - 1)
    ensures ok ==> header[..] == Patch(old(header[..]), lo, NumberField(value, hi - lo))
    ensures !ok ==> header[..] == old(header[..])
  {
    hide PaddedOctal;
    var width := hi - lo;
    var encoded := PaddedOctal(value, width - 1);
    if |encoded| > width - 1 {
      return false;
    }
    Fill(header, lo, hi, 0);
    ok := WriteTarBytes(header, lo, hi, encoded);
    FillThenWrite(old(header[..]), lo, Filled(0, width), encoded);
  }

  lemma FillThenWrite(b: Bytes, lo: nat, zeros: Bytes, x: Bytes)
    requires lo + |zeros| <= |b| && |x| <= |zeros|
    ensures Patch(Patch(b, lo, zeros), lo, x) == Patch(b, lo, x + zeros[|x|..])
  {
  }

  method Fill(header: array<byte>, lo: nat, hi: nat, value: byte)
    requires lo <= hi <= header.Length
    modifies header
    ensures header[..] == Patch(old(header[..]), lo, Filled(value, hi - lo))
  {
    for i := lo to hi
      invariant forall j :: 0 <= j < header.Length ==> header[j] == if lo <= j < i then value else old(header[j])
    {
      header[i] := value;
    }
  }

  method WriteTarChecksum(header: array<byte>, lo: nat, value: nat)
    requires lo + 8 <= header.Length && FitsOctal(value, 6)
    modifies header
    ensures header[..] == Patch(old(header[..]), lo, ChecksumField(value))
  {
    hide PaddedOctal;
    var encoded := PaddedOctal(value, 6);
    Fill(header, lo, lo + 8, 0);
    var ok := WriteTarBytes(header, lo, lo + 8, encoded);
    FillThenWrite(old(header[..]), lo, Filled(0, 8), encoded);
    ghost var before: Bytes := header[..];
    header[lo + 6] := 0;
    header[lo + 7] := SPACE;
    TailThenEnd(old(header[..]), lo, encoded, Filled(0, 8)[6..]);
    assert header[..] == before[lo + 6 := 0][lo + 7 := SPACE];
  }

  lemma TailThenEnd(b: Bytes, lo: nat, x: Bytes, tail: Bytes)
    requires lo + 8 <= |b| && |x| == 6 && |tail| == 2
    ensures Patch(b, lo, x + tail)[lo + 6 := 0][lo + 7 := SPACE] == Patch(b, lo, x + [0, SPACE])
  {
  }

  method TarHeader(path: Bytes, size: nat) returns (r: Result<Bytes, TarError>)
    ensures r == HeaderOf(path, size)
  {
    hide Split, PaddedOctal, FitsOctal, NumberField, Patch, Sum, ChecksumField, Filled;
    var split := SplitTarPath(path);
    if split.Err? {
      return Err(split.error);
    }
    var name, prefix := split.value.name, split.value.prefix;
    SmallFits();
    var header := new byte[512](_ => 0);
    assert header[..] == Filled(0, 512) by { ZeroBlock(header[..]); }
    var ok := WriteTarBytes(header, 0, 100, name);
    ok := WriteTarOctal(header, 100, 108, 0x1A4);
    ok := WriteTarOctal(header, 108, 116, 0);
    ok := WriteTarOctal(header, 116, 124, 0);
    ok := WriteTarOctal(header, 124, 136, size);
    if !ok {
      return Err(NumberTooLarge);
    }
    ok := WriteTarOctal(header, 136, 148, 0);
    Fill(header, 148, 156, SPACE);
    ghost var before: Bytes := header[..];
    header[156] := DIGIT_ZERO;
    PatchOne(before, 156, DIGIT_ZERO);
    ok := WriteTarBytes(header, 257, 263, MAGIC);
    ok := WriteTarBytes(header, 263, 265, VERSION);
    ghost var unprefixed: Bytes := header[..];
    if prefix.Some? {
      ok := WriteTarBytes(header, 345, 500, prefix.value);
    } else {
      PatchNothing(unprefixed, 345);
    }
    assert header[..] == Blanked(split.value, size);
    SumFits(header[..]);
    var checksum := HeaderSum(header);
    WriteTarChecksum(header, 148, checksum);
    r := Ok(header[..]);
  }

  lemma ZeroBlock(b: Bytes)
    requires |b| == 512 && forall i :: 0 <= i < 512 ==> b[i] == 0
    ensures b == Filled(0, 512)
  {
  }

  lemma PatchOne(b: Bytes, i: nat, x: byte)
    requires i < |b|
    ensures b[i := x] == Patch(b, i, [x])
  {
  }

  lemma PatchNothing(b: Bytes, i: nat)
    requires i <= |b|
    ensures Patch(b, i, []) == b
  {
  }

  method HeaderSum(header: array<byte>) returns (sum: nat)
    ensures sum == Sum(header[..])
  {
    sum := 0;
    for i := 0 to header.Length
      invariant sum == Sum(header[..i])
    {
      assert header[..i + 1][..i] == header[..i];
      sum := sum + header[i];
    }
    assert header[..header.Length] == header[..];
  }

  function HeaderOf(path: Bytes, size: nat): (r: Result<Bytes, TarError>)
    ensures r.Ok? ==> |r.value| == 512
  {
    match Split(path)
    case Err(e) => Err(e)
    case Ok(split) => if FitsOctal(size, 11) then Ok(Header(split, size)) else Err(NumberTooLarge)
  }

  // Archives.

  function Padding(size: nat): nat {
    (512 - size % 512) % 512
  }

  /** An entry's blocks. */
  function Member(header: Bytes, bytes: Bytes): Bytes {
    header + bytes + Filled(0, Padding(|bytes|))
  }

  /** The blocks of the first n entries, or the first failure. */
  function Members(entries: seq<Zip.Entry>, n: nat): Result<Bytes, TarError>
    requires n <= |entries|
  {
    if n == 0 then Ok([])
    else
      match Members(entries, n - 1)
      case Err(e) => Err(e)
      case Ok(front) =>
        match HeaderOf(entries[n - 1].path, |entries[n - 1].bytes|)
        case Err(e) => Err(e)
        case Ok(header) => Ok(front + Member(header, entries[n - 1].bytes))
  }

  function Archive(entries: seq<Zip.Entry>): Result<Bytes, TarError> {
    match Members(entries, |entries|)
    case Err(e) => Err(e)
    case Ok(members) => Ok(members + Filled(0, 1024))
  }

  lemma {:induction false} FailureIsFinal(entries: seq<Zip.Entry>, n: nat, m: nat)
    requires n <= m <= |entries| && Members(entries, n).Err?
    ensures Members(entries, m) == Members(entries, n)
    decreases m
  {
    hide HeaderOf;
    if n < m {
      FailureIsFinal(entries, n, m - 1);
    }
  }

  method WriteTarArchive(entries: seq<Zip.Entry>) returns (r: Result<Bytes, TarError>)
    ensures r == Archive(entries)
  {
    hide HeaderOf, Padding, Filled;
    var file: Bytes := [];
    for i := 0 to |entries|
      invariant Members(entries, i) == Ok(file)
    {
      var entry := entries[i];
      if Members(entries, i + 1).Err? {
        FailureIsFinal(entries, i + 1, |entries|);
      }
      var header := TarHeader(entry.path, |entry.bytes|);
      if header.Err? {
        return Err(header.error);
      }
      ghost var before := file;
      file := file + header.value;
      file := file + entry.bytes;
      var padding := Padding(|entry.bytes|);
      if padding > 0 {
        file := file + Filled(0, padding);
      } else {
        assert Filled(0, 0) == [] by { NoneFilled(); }
      }
      assert file == before + Member(header.value, entry.bytes);
    }
    file := file + Filled(0, 1024);
    r := Ok(file);
  }

  lemma NoneFilled()
    ensures Filled(0, 0) == []
  {
  }
}
