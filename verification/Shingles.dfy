/** Shingles of a document and the payloads that are hashed for them. */
module Shingles {
  import opened Bytes
  import opened Framing
  import opened Texts
  import opened Words

  datatype Preset = Standard | Broad | Sensitive

  datatype Method = PlainText | PdfTextLayer | OcrTesseract

  function Window(preset: Preset): nat {
    match preset case Standard => 7 case Broad => 12 case Sensitive => 4
  }

  function Stride(preset: Preset): (r: nat)
    ensures r >= 1
  {
    match preset case Standard => 1 case Broad => 3 case Sensitive => 1
  }

  function PresetName(preset: Preset): string {
    match preset case Standard => "standard" case Broad => "broad" case Sensitive => "sensitive"
  }

  function MethodName(m: Method): string {
    match m case PlainText => "plain-text/v1" case PdfTextLayer => "pdf-text-layer/v1" case OcrTesseract => "ocr-tesseract/v1"
  }

  // Windows.

  datatype Shingle = Shingle(sourceIndex: nat, text: string)

  /** The windows of one paragraph from position i on. */
  function Windows(tokens: seq<string>, window: nat, stride: nat, i: nat): seq<string>
    requires stride >= 1
    decreases |tokens| - i
  {
    if i + window > |tokens| || i >= |tokens| then []
    else [Line1(tokens[i..i + window])] + Windows(tokens, window, stride, i + stride)
  }

  /** The windows of the first n paragraphs; none spans two. */
  function ShingleTexts(paragraphs: seq<seq<string>>, preset: Preset, n: nat): seq<string>
    requires n <= |paragraphs|
  {
    if n == 0 then []
    else ShingleTexts(paragraphs, preset, n - 1) + Windows(paragraphs[n - 1], Window(preset), Stride(preset), 0)
  }

  function Numbered(texts: seq<string>): (r: seq<Shingle>)
    ensures |r| == |texts| && forall i :: 0 <= i < |r| ==> r[i] == Shingle(i, texts[i])
  {
    if texts == [] then [] else Numbered(texts[..|texts| - 1]) + [Shingle(|texts| - 1, texts[|texts| - 1])]
  }

  function ShinglesOf(paragraphs: seq<seq<string>>, preset: Preset): seq<Shingle> {
    Numbered(ShingleTexts(paragraphs, preset, |paragraphs|))
  }

  lemma NumberedSnoc(texts: seq<string>, text: string)
    ensures Numbered(texts + [text]) == Numbered(texts) + [Shingle(|texts|, text)]
  {
    assert (texts + [text])[..|texts|] == texts;
  }

  lemma WindowStep(tokens: seq<string>, window: nat, stride: nat, i: nat)
    requires 1 <= window && 1 <= stride && i + window <= |tokens|
    ensures Windows(tokens, window, stride, i) == [Line1(tokens[i..i + window])] + Windows(tokens, window, stride, i + stride)
  {
  }

  method GenerateShingles(paragraphs: seq<seq<string>>, preset: Preset) returns (out: seq<Shingle>)
    ensures out == ShinglesOf(paragraphs, preset)
  {
    hide Windows, Line1, Numbered;
    var window, stride := Window(preset), Stride(preset);
    out := [];
    ghost var texts: seq<string> := [];
    var sourceIndex := 0;
    NothingNumbered();
    for n := 0 to |paragraphs|
      invariant texts == ShingleTexts(paragraphs, preset, n)
      invariant out == Numbered(texts) && sourceIndex == |texts|
    {
      var tokens := paragraphs[n];
      ghost var before := texts;
      if |tokens| < window {
        NoWindows(tokens, window, stride, 0);
        continue;
      }
      var i := 0;
      while i + window <= |tokens|
        invariant 0 <= i
        invariant texts + Windows(tokens, window, stride, i) == before + Windows(tokens, window, stride, 0)
        invariant out == Numbered(texts) && sourceIndex == |texts|
        decreases |tokens| - i
      {
        var text := Line1(tokens[i..i + window]);
        WindowStep(tokens, window, stride, i);
        NumberedSnoc(texts, text);
        Regroup(texts, text, Windows(tokens, window, stride, i + stride));
        out := out + [Shingle(sourceIndex, text)];
        texts := texts + [text];
        sourceIndex := sourceIndex + 1;
        i := i + stride;
      }
      NoWindows(tokens, window, stride, i);
      assert texts + [] == texts;
    }
  }

  lemma NothingNumbered()
    ensures Numbered([]) == []
  {
  }

  lemma NoWindows(tokens: seq<string>, window: nat, stride: nat, i: nat)
    requires stride >= 1 && i + window > |tokens|
    ensures Windows(tokens, window, stride, i) == []
  {
  }

  lemma Regroup(a: seq<string>, x: string, b: seq<string>)
    ensures a + ([x] + b) == (a + [x]) + b
  {
  }

  /** Whole strides lead from i to k. */
  predicate OnStride(stride: nat, i: nat, k: nat)
    requires stride >= 1
  {
    i <= k && (k - i) % stride == 0
  }

  lemma StrideOn(stride: nat, i: nat, k: nat)
    requires stride >= 1 && k != i
    ensures OnStride(stride, i, k) <==> OnStride(stride, i + stride, k)
  {
    if i + stride <= k {
      assert (k - i) % stride == (k - (i + stride)) % stride by { ModLess(k - (i + stride), stride); }
    } else if i < k {
      assert (k - i) % stride == k - i;
    }
  }

  lemma ModLess(n: nat, m: nat)
    requires m >= 1
    ensures (n + m) % m == n % m
  {
    var q := n / m;
    assert n == q * m + n % m;
    assert n + m == (q + 1) * m + n % m;
    QuotientUnique(n + m, m, q + 1, n % m);
  }

  lemma QuotientUnique(n: int, m: int, q: int, r: int)
    requires m >= 1 && 0 <= r < m && n == q * m + r
    ensures n % m == r
  {
    var q' := n / m;
    assert (q - q') * m == n % m - r;
    if q != q' {
      Multiple(q - q', m);
    }
  }

  lemma Multiple(d: int, m: int)
    requires d != 0 && m >= 1
    ensures d * m >= m || d * m <= -m
  {
  }

  /** The window that starts at k, which whole strides reach from i. */
  predicate IsWindowAt(tokens: seq<string>, window: nat, stride: nat, i: nat, k: nat, text: string)
    requires stride >= 1
  {
    OnStride(stride, i, k) && k + window <= |tokens| && text == Line1(tokens[k..k + window])
  }

  lemma NextWindowAt(tokens: seq<string>, window: nat, stride: nat, i: nat, k: nat, text: string)
    requires stride >= 1
    ensures k != i ==> (IsWindowAt(tokens, window, stride, i, k, text) <==> IsWindowAt(tokens, window, stride, i + stride, k, text))
    ensures !IsWindowAt(tokens, window, stride, i + stride, i, text)
  {
    hide Line1;
    if k != i {
      StrideOn(stride, i, k);
    }
  }

  /** A text is a window exactly when it starts on a stride and fits. */
  lemma {:induction false} WindowsAre(tokens: seq<string>, window: nat, stride: nat, i: nat, text: string)
    requires stride >= 1 && window >= 1
    ensures text in Windows(tokens, window, stride, i) <==>
            exists k: nat :: IsWindowAt(tokens, window, stride, i, k, text)
    decreases |tokens| - i
  {
    hide Line1;
    if i + window <= |tokens| {
      WindowsAre(tokens, window, stride, i + stride, text);
      WindowStep(tokens, window, stride, i);
      if text in Windows(tokens, window, stride, i) {
        var next := i + stride;
        if k: nat :| IsWindowAt(tokens, window, stride, next, k, text) {
          NextWindowAt(tokens, window, stride, i, k, text);
          assert IsWindowAt(tokens, window, stride, i, k, text);
        } else {
          assert IsWindowAt(tokens, window, stride, i, i, text);
        }
      }
      if k: nat :| IsWindowAt(tokens, window, stride, i, k, text) {
        NextWindowAt(tokens, window, stride, i, k, text);
      }
    } else {
      assert forall k: nat :: IsWindowAt(tokens, window, stride, i, k, text) ==> k >= i;
    }
  }

  /** The shingles of a document are the windows of its paragraphs. */
  lemma {:induction false} ShinglesAre(paragraphs: seq<seq<string>>, preset: Preset, n: nat, text: string)
    requires n <= |paragraphs|
    ensures text in ShingleTexts(paragraphs, preset, n) <==>
            exists p :: 0 <= p < n && text in Windows(paragraphs[p], Window(preset), Stride(preset), 0)
    decreases n
  {
    hide Windows;
    if n > 0 {
      ShinglesAre(paragraphs, preset, n - 1, text);
    }
  }

  // Payloads.

  const VERSION := "1.0"

  /** Length-prefixed fields, one after another. */
  function Fields(bs: seq<Bytes>): Bytes
    requires forall i :: 0 <= i < |bs| ==> |bs[i]| <= MAX_LENGTH
  {
    if bs == [] then [] else Field(bs[0]) + Fields(bs[1..])
  }

  lemma {:induction false} FieldsInjective(a: seq<Bytes>, b: seq<Bytes>)
    requires forall i :: 0 <= i < |a| ==> |a[i]| <= MAX_LENGTH
    requires forall i :: 0 <= i < |b| ==> |b[i]| <= MAX_LENGTH
    requires |a| == |b| && Fields(a) == Fields(b)
    ensures a == b
  {
    hide Field;
    if a != [] {
      FieldsSeparate(a[0], b[0], Fields(a[1..]), Fields(b[1..]));
      FieldsInjective(a[1..], b[1..]);
      assert a == [a[0]] + a[1..] && b == [b[0]] + b[1..];
    }
  }

  /** The texts in a payload: versions, preset, extraction method and window. */
  function PayloadTexts(preset: Preset, m: Method, text: string): seq<string> {
    [VERSION, PresetName(preset), VERSION, VERSION, MethodName(m), text]
  }

  function EachBytes(texts: seq<string>): (r: seq<Bytes>)
    ensures |r| == |texts| && forall i :: 0 <= i < |r| ==> r[i] == TextBytes(texts[i])
  {
    if texts == [] then [] else [TextBytes(texts[0])] + EachBytes(texts[1..])
  }

  predicate AllFit(bs: seq<Bytes>) {
    forall i :: 0 <= i < |bs| ==> |bs[i]| <= MAX_LENGTH
  }

  /** Nothing when a length does not fit its prefix. */
  function Payload(preset: Preset, m: Method, text: string): Option<Bytes> {
    var bs := EachBytes(PayloadTexts(preset, m, text));
    if AllFit(bs) then Some([0x02] + Fields(bs)) else None
  }

  /** A prefix and a field for each, to be copied one after another. */
  function TaggedParts(bs: seq<Bytes>): seq<Bytes>
    requires AllFit(bs)
    decreases |bs|
  {
    if bs == [] then [] else TaggedParts(bs[..|bs| - 1]) + [U32be(|bs[|bs| - 1]|), bs[|bs| - 1]]
  }

  lemma {:induction false} FieldsSnoc(bs: seq<Bytes>, last: Bytes)
    requires AllFit(bs) && |last| <= MAX_LENGTH
    ensures Fields(bs + [last]) == Fields(bs) + Field(last)
  {
    hide Field;
    if bs == [] {
      assert [last][1..] == [];
    } else {
      assert (bs + [last])[1..] == bs[1..] + [last];
      FieldsSnoc(bs[1..], last);
    }
  }

  lemma NothingTagged()
    ensures Flatten([[0x02]] + TaggedParts([])) == [0x02] + Fields([])
  {
    var head: seq<Bytes> := [[0x02]];
    assert head + [] == head && head[1..] == [];
  }

  lemma TaggedNext(head: seq<Bytes>, front: seq<Bytes>, last: Bytes)
    requires AllFit(front) && AllFit(front + [last]) && |last| <= MAX_LENGTH
    ensures head + TaggedParts(front + [last]) == ((head + TaggedParts(front)) + [U32be(|last|)]) + [last]
  {
    hide U32be;
    assert (front + [last])[..|front|] == front;
  }

  lemma {:induction false} TaggedFlatten(bs: seq<Bytes>)
    requires AllFit(bs)
    ensures Flatten([[0x02]] + TaggedParts(bs)) == [0x02] + Fields(bs)
    decreases |bs|
  {
    hide Flatten, Fields, TaggedParts, U32be;
    if bs == [] {
      NothingTagged();
    } else {
      var front, last := bs[..|bs| - 1], bs[|bs| - 1];
      assert bs == front + [last];
      TaggedFlatten(front);
      FieldsSnoc(front, last);
      var parts := [[0x02]] + TaggedParts(front);
      TaggedNext([[0x02]], front, last);
      FlattenSnoc(parts, U32be(|last|));
      FlattenSnoc(parts + [U32be(|last|)], last);
    }
  }

  method BuildShinglePayload(preset: Preset, m: Method, text: string) returns (r: Option<Bytes>)
    ensures r == Payload(preset, m, text)
  {
    hide U32be, Flatten, Fields, TextBytes, PayloadTexts, EachBytes;
    var texts := PayloadTexts(preset, m, text);
    var bs := EachBytes(texts);
    var parts: seq<Bytes> := [[0x02]];
    for i := 0 to |texts|
      invariant AllFit(bs[..i]) && parts == [[0x02]] + TaggedParts(bs[..i])
    {
      var bytes := TextBytes(texts[i]);
      var prefix := LengthPrefix(|bytes|);
      if prefix.None? {
        assert !AllFit(bs);
        return None;
      }
      assert bs[..i + 1] == bs[..i] + [bytes];
      parts := parts + [prefix.value, bytes];
    }
    assert bs[..|bs|] == bs;
    TaggedFlatten(bs);
    var payload := Concat(parts);
    r := Some(payload);
  }

  lemma NamesDiffer(p: Preset, p': Preset, m: Method, m': Method)
    ensures PresetName(p) == PresetName(p') ==> p == p'
    ensures MethodName(m) == MethodName(m') ==> m == m'
  {
    assert |PresetName(p)| == match p case Standard => 8 case Broad => 5 case Sensitive => 9;
    assert |PresetName(p')| == match p' case Standard => 8 case Broad => 5 case Sensitive => 9;
    assert |MethodName(m)| == match m case PlainText => 13 case PdfTextLayer => 17 case OcrTesseract => 16;
    assert |MethodName(m')| == match m' case PlainText => 13 case PdfTextLayer => 17 case OcrTesseract => 16;
  }

  /** Equal payloads are for the same preset, extraction method and window text. */
  lemma PayloadInjective(p: Preset, m: Method, text: string, p': Preset, m': Method, text': string)
    requires Payload(p, m, text).Some? && Payload(p, m, text) == Payload(p', m', text')
    ensures p == p' && m == m' && text == text'
  {
    var a, b := EachBytes(PayloadTexts(p, m, text)), EachBytes(PayloadTexts(p', m', text'));
    hide Fields, TextBytes, PresetName, MethodName;
    assert Fields(a) == Payload(p, m, text).value[1..] == Fields(b);
    FieldsInjective(a, b);
    assert a[1] == b[1] && a[4] == b[4] && a[5] == b[5];
    TextBytesInjective(PresetName(p), PresetName(p'));
    TextBytesInjective(MethodName(m), MethodName(m'));
    TextBytesInjective(text, text');
    NamesDiffer(p, p', m, m');
  }

  // A reader of payloads.

  /** The tag 0x02, then six fields. */
  function ReadPayload(b: Bytes): Option<seq<Bytes>> {
    if b == [] || b[0] != 0x02 then None else ReadFields(b[1..], 6)
  }

  lemma {:induction false} FieldsRead(bs: seq<Bytes>)
    requires AllFit(bs)
    ensures ReadFields(Fields(bs), |bs|) == Some(bs)
  {
    if bs != [] {
      FieldsRead(bs[1..]);
      ReadField(bs[0], Fields(bs[1..]), |bs| - 1, bs[1..]);
      assert bs == [bs[0]] + bs[1..];
    }
  }

  /** The names as they are written into payloads. */
  function NameOf(preset: Preset): string {
    match preset case Standard => "standard" case Broad => "broad" case Sensitive => "sensitive"
  }

  function NameOfMethod(m: Method): string {
    match m case PlainText => "plain-text/v1" case PdfTextLayer => "pdf-text-layer/v1" case OcrTesseract => "ocr-tesseract/v1"
  }

  /** What is hashed reads as version, preset, two versions, extraction method and window text, in this order. */
  lemma PayloadReads(preset: Preset, m: Method, text: string)
    requires Payload(preset, m, text).Some?
    ensures ReadPayload(Payload(preset, m, text).value) ==
            Some([TextBytes("1.0"), TextBytes(NameOf(preset)), TextBytes("1.0"), TextBytes("1.0"),
                  TextBytes(NameOfMethod(m)), TextBytes(text)])
  {
    NamesInPayload(preset, m, text);
    hide Fields, TextBytes, PayloadTexts, NameOf, NameOfMethod;
    var bs := EachBytes(PayloadTexts(preset, m, text));
    FieldsRead(bs);
    assert Payload(preset, m, text).value[1..] == Fields(bs);
    assert bs == [TextBytes("1.0"), TextBytes(NameOf(preset)), TextBytes("1.0"), TextBytes("1.0"),
                  TextBytes(NameOfMethod(m)), TextBytes(text)];
  }

  lemma NamesInPayload(preset: Preset, m: Method, text: string)
    ensures PayloadTexts(preset, m, text) == ["1.0", NameOf(preset), "1.0", "1.0", NameOfMethod(m), text]
  {
  }
}
