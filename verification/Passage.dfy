/** The CLI's candidate hashes for a passage, and the documents they match. */
module Passage {
  import opened Bytes
  import opened Framing
  import opened Texts
  import opened Words
  import opened Tokenizer
  import opened Shingles
  import Normalizer
  import CliNormalizer
  import JsStrings
  import Hex

  type HexHash = JsStrings.JsString

  datatype PassageError = PassageTooShort | NoCandidates

  const PRESETS: seq<Preset> := [Standard, Broad, Sensitive]
  const METHODS: seq<Method> := [PlainText, PdfTextLayer, OcrTesseract]

  const U32_RANGE: nat := 0x1_0000_0000

  // Payloads as the CLI builds them.

  /** The cast to u32 keeps the low bits of a length. */
  function CliField(b: Bytes): Bytes {
    U32be(|b| % U32_RANGE) + b
  }

  function CliFields(bs: seq<Bytes>): Bytes
    decreases |bs|
  {
    if bs == [] then [] else CliFields(bs[..|bs| - 1]) + CliField(bs[|bs| - 1])
  }

  function CliPayload(preset: Preset, m: Method, text: string): Bytes {
    [0x02] + CliFields(EachBytes(PayloadTexts(preset, m, text)))
  }

  function CliHash(h: HashFn, preset: Preset, m: Method, text: string): HexHash {
    Hex.ToHex(h(CliPayload(preset, m, text)))
  }

  lemma NoFields()
    ensures CliFields([]) == [] && Fields([]) == []
  {
  }

  lemma CliFieldsSnoc(bs: seq<Bytes>, last: Bytes)
    ensures CliFields(bs + [last]) == CliFields(bs) + CliField(last)
  {
    hide CliField;
    assert (bs + [last])[..|bs|] == bs;
  }

  method ShinglePayloadHash(h: HashFn, preset: Preset, m: Method, text: string) returns (hash: HexHash)
    ensures hash == CliHash(h, preset, m, text)
  {
    hide CliField, CliFields, TextBytes, Hex.ToHex, PayloadTexts, EachBytes;
    NoFields();
    var bs := EachBytes(PayloadTexts(preset, m, text));
    var payload: Bytes := [0x02];
    for i := 0 to |bs|
      invariant payload == [0x02] + CliFields(bs[..i])
    {
      CliFieldsSnoc(bs[..i], bs[i]);
      assert bs[..i + 1] == bs[..i] + [bs[i]];
      payload := payload + CliField(bs[i]);
    }
    assert bs[..|bs|] == bs;
    hash := Hex.ToHex(h(payload));
  }

  lemma {:induction false} FieldsThatFit(bs: seq<Bytes>)
    requires AllFit(bs)
    ensures CliFields(bs) == Fields(bs)
    decreases |bs|
  {
    if bs != [] {
      hide U32be, Fields;
      var front, last := bs[..|bs| - 1], bs[|bs| - 1];
      assert bs == front + [last];
      assert |last| <= MAX_LENGTH && |last| % U32_RANGE == |last|;
      FieldsThatFit(front);
      FieldsSnoc(front, last);
    }
  }

  /** Where the library has a payload the CLI has the same one. */
  lemma PayloadsAgree(preset: Preset, m: Method, text: string)
    requires Payload(preset, m, text).Some?
    ensures CliPayload(preset, m, text) == Payload(preset, m, text).value
  {
    hide Fields, CliFields, TextBytes, PresetName, MethodName;
    FieldsThatFit(EachBytes(PayloadTexts(preset, m, text)));
  }

  // Candidates.

  function HashesOf(h: HashFn, preset: Preset, m: Method, texts: seq<string>): seq<HexHash> {
    if texts == [] then [] else [CliHash(h, preset, m, texts[0])] + HashesOf(h, preset, m, texts[1..])
  }

  function ParagraphHashes(h: HashFn, preset: Preset, m: Method, tokens: seq<string>): seq<HexHash> {
    HashesOf(h, preset, m, Windows(tokens, Window(preset), Stride(preset), 0))
  }

  /** For the first n paragraphs. */
  function TextHashes(h: HashFn, preset: Preset, m: Method, tokens: seq<seq<string>>, n: nat): seq<HexHash>
    requires n <= |tokens|
  {
    if n == 0 then [] else TextHashes(h, preset, m, tokens, n - 1) + ParagraphHashes(h, preset, m, tokens[n - 1])
  }

  /** For the first n methods. */
  function MethodHashes(h: HashFn, preset: Preset, tokens: seq<seq<string>>, n: nat): seq<HexHash>
    requires n <= |METHODS|
  {
    if n == 0 then [] else MethodHashes(h, preset, tokens, n - 1) + TextHashes(h, preset, METHODS[n - 1], tokens, |tokens|)
  }

  /** For the first n presets. */
  function AllHashes(h: HashFn, tokens: seq<seq<string>>, n: nat): seq<HexHash>
    requires n <= |PRESETS|
  {
    if n == 0 then [] else AllHashes(h, tokens, n - 1) + MethodHashes(h, PRESETS[n - 1], tokens, |METHODS|)
  }

  /** A list without what it repeats. */
  function FirstOccurrences<T(==)>(s: seq<T>): seq<T>
    decreases |s|
  {
    if s == [] then []
    else
      var front, last := s[..|s| - 1], s[|s| - 1];
      if last in front then FirstOccurrences(front) else FirstOccurrences(front) + [last]
  }

  lemma FirstSnoc<T>(s: seq<T>, last: T)
    ensures FirstOccurrences(s + [last]) == if last in s then FirstOccurrences(s) else FirstOccurrences(s) + [last]
  {
    assert (s + [last])[..|s|] == s;
  }

  lemma {:induction false} FirstKeeps<T>(s: seq<T>, x: T)
    ensures x in FirstOccurrences(s) <==> x in s
    decreases |s|
  {
    if s != [] {
      FirstKeeps(s[..|s| - 1], x);
      assert s == s[..|s| - 1] + [s[|s| - 1]];
    }
  }

  lemma {:induction false} FirstDistinct<T>(s: seq<T>)
    ensures forall i, j :: 0 <= i < j < |FirstOccurrences(s)| ==> FirstOccurrences(s)[i] != FirstOccurrences(s)[j]
    decreases |s|
  {
    if s != [] {
      FirstDistinct(s[..|s| - 1]);
      FirstKeeps(s[..|s| - 1], s[|s| - 1]);
    }
  }

  predicate AllShort(tokens: seq<seq<string>>) {
    forall p :: 0 <= p < |tokens| ==> |tokens[p]| < 7
  }

  function Candidates(h: HashFn, tokens: seq<seq<string>>): Result<seq<HexHash>, PassageError> {
    if AllShort(tokens) then Err(PassageTooShort)
    else
      var hashes := FirstOccurrences(AllHashes(h, tokens, |PRESETS|));
      if hashes == [] then Err(NoCandidates) else Ok(hashes)
  }

  function CliTokensOf(fold: Normalizer.Fold, text: string): seq<seq<string>> {
    CliTokenizeNormalized(CliNormalizer.CliNormalized(fold, text))
  }

  /** The windows of one paragraph, each added unless it was seen. */
  method AddParagraph(h: HashFn, preset: Preset, m: Method, tokens: seq<string>,
                      seen: set<HexHash>, hashes: seq<HexHash>, ghost all: seq<HexHash>)
    returns (seen': set<HexHash>, hashes': seq<HexHash>)
    requires hashes == FirstOccurrences(all) && forall x :: x in seen <==> x in all
    ensures var all' := all + ParagraphHashes(h, preset, m, tokens);
            hashes' == FirstOccurrences(all') && forall x :: x in seen' <==> x in all'
  {
    hide CliHash, Windows, FirstOccurrences, Line1, HashesOf;
    var window, stride := Window(preset), Stride(preset);
    seen', hashes' := seen, hashes;
    ghost var all' := all;
    NothingHashed(h, preset, m, all);
    if |tokens| < window {
      NoWindows(tokens, window, stride, 0);
      return;
    }
    var index := 0;
    while index + window <= |tokens|
      invariant index >= 0
      invariant hashes' == FirstOccurrences(all') && forall x :: x in seen' <==> x in all'
      invariant all' + HashesOf(h, preset, m, Windows(tokens, window, stride, index)) == all + ParagraphHashes(h, preset, m, tokens)
      decreases |tokens| - index
    {
      var windowText := Line1(tokens[index..index + window]);
      var hash := ShinglePayloadHash(h, preset, m, windowText);
      WindowStep(tokens, window, stride, index);
      HashesStep(h, preset, m, windowText, Windows(tokens, window, stride, index + stride), all');
      FirstSnoc(all', hash);
      if hash !in seen' {
        seen' := seen' + {hash};
        hashes' := hashes' + [hash];
      }
      all' := all' + [hash];
      index := index + stride;
    }
    NoWindows(tokens, window, stride, index);
    NothingHashed(h, preset, m, all');
  }

  lemma NothingHashed(h: HashFn, preset: Preset, m: Method, all: seq<HexHash>)
    ensures all + HashesOf(h, preset, m, []) == all
  {
  }

  lemma HashesStep(h: HashFn, preset: Preset, m: Method, text: string, rest: seq<string>, all: seq<HexHash>)
    ensures all + HashesOf(h, preset, m, [text] + rest) == (all + [CliHash(h, preset, m, text)]) + HashesOf(h, preset, m, rest)
  {
    hide CliHash;
    assert ([text] + rest)[1..] == rest;
  }

  method PassageCandidateHashes(fold: Normalizer.Fold, h: HashFn, text: string)
    returns (r: Result<seq<HexHash>, PassageError>)
    ensures r == Candidates(h, CliTokensOf(fold, text))
  {
    hide FirstOccurrences, ParagraphHashes, CliNormalizer.CliNormalized, CliTokenizeNormalized;
    var normalized := CliNormalizer.NormalizeForShingling(fold, text);
    var tokens := CliTokenizeNormalized(normalized);
    if AllShort(tokens) {
      return Err(PassageTooShort);
    }
    var seen: set<HexHash> := {};
    var hashes: seq<HexHash> := [];
    ghost var all: seq<HexHash> := [];
    NoneFirst();
    for i := 0 to |PRESETS|
      invariant all == AllHashes(h, tokens, i)
      invariant hashes == FirstOccurrences(all) && forall x :: x in seen <==> x in all
    {
      ghost var presetStart := all;
      for j := 0 to |METHODS|
        invariant all == presetStart + MethodHashes(h, PRESETS[i], tokens, j)
        invariant hashes == FirstOccurrences(all) && forall x :: x in seen <==> x in all
      {
        ghost var methodStart := all;
        for k := 0 to |tokens|
          invariant all == methodStart + TextHashes(h, PRESETS[i], METHODS[j], tokens, k)
          invariant hashes == FirstOccurrences(all) && forall x :: x in seen <==> x in all
        {
          seen, hashes := AddParagraph(h, PRESETS[i], METHODS[j], tokens[k], seen, hashes, all);
          all := all + ParagraphHashes(h, PRESETS[i], METHODS[j], tokens[k]);
        }
      }
    }
    if hashes == [] {
      return Err(NoCandidates);
    }
    r := Ok(hashes);
  }

  lemma NoneFirst()
    ensures FirstOccurrences<HexHash>([]) == []
  {
  }
}
