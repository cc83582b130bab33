/** Which documents a passage matches, and why an equal hash can be trusted. */
module PassageLaws {
  import opened Bytes
  import opened Framing
  import opened Texts
  import opened Words
  import opened Tokenizer
  import opened Shingles
  import opened Passage
  import Normalizer
  import CliNormalizer
  import Agreement
  import Hex

  // What is among the candidates.

  lemma {:induction false} HashesAre(h: HashFn, preset: Preset, m: Method, texts: seq<string>, text: string)
    requires text in texts
    ensures CliHash(h, preset, m, text) in HashesOf(h, preset, m, texts)
  {
    hide CliHash;
    if texts[0] != text {
      assert texts == [texts[0]] + texts[1..];
      HashesAre(h, preset, m, texts[1..], text);
    }
  }

  lemma {:induction false} ParagraphIn(h: HashFn, preset: Preset, m: Method, tokens: seq<seq<string>>, n: nat, q: nat, x: HexHash)
    requires q < n <= |tokens| && x in ParagraphHashes(h, preset, m, tokens[q])
    ensures x in TextHashes(h, preset, m, tokens, n)
    decreases n
  {
    hide ParagraphHashes;
    if q < n - 1 {
      ParagraphIn(h, preset, m, tokens, n - 1, q, x);
    }
  }

  lemma {:induction false} MethodIn(h: HashFn, preset: Preset, tokens: seq<seq<string>>, n: nat, j: nat, x: HexHash)
    requires j < n <= |METHODS| && x in TextHashes(h, preset, METHODS[j], tokens, |tokens|)
    ensures x in MethodHashes(h, preset, tokens, n)
    decreases n
  {
    hide TextHashes;
    if j < n - 1 {
      MethodIn(h, preset, tokens, n - 1, j, x);
    }
  }

  lemma {:induction false} PresetIn(h: HashFn, tokens: seq<seq<string>>, n: nat, i: nat, x: HexHash)
    requires i < n <= |PRESETS| && x in MethodHashes(h, PRESETS[i], tokens, |METHODS|)
    ensures x in AllHashes(h, tokens, n)
    decreases n
  {
    hide MethodHashes;
    if i < n - 1 {
      PresetIn(h, tokens, n - 1, i, x);
    }
  }

  lemma EveryMethod(m: Method) returns (j: nat)
    ensures j < |METHODS| && METHODS[j] == m
  {
    j := match m case PlainText => 0 case PdfTextLayer => 1 case OcrTesseract => 2;
  }

  lemma EveryPreset(preset: Preset) returns (i: nat)
    ensures i < |PRESETS| && PRESETS[i] == preset
  {
    i := match preset case Standard => 0 case Broad => 1 case Sensitive => 2;
  }

  /** The hash of every window of the passage is a candidate, for every preset and method. */
  lemma WindowIsCandidate(h: HashFn, tokens: seq<seq<string>>, preset: Preset, m: Method, q: nat, text: string)
    requires q < |tokens| && text in Windows(tokens[q], Window(preset), Stride(preset), 0)
    ensures CliHash(h, preset, m, text) in AllHashes(h, tokens, |PRESETS|)
  {
    hide CliHash, Windows, HashesOf, TextHashes, MethodHashes, AllHashes, Window, Stride;
    var x := CliHash(h, preset, m, text);
    HashesAre(h, preset, m, Windows(tokens[q], Window(preset), Stride(preset), 0), text);
    ParagraphIn(h, preset, m, tokens, |tokens|, q, x);
    var j := EveryMethod(m);
    MethodIn(h, preset, tokens, |METHODS|, j, x);
    var i := EveryPreset(preset);
    PresetIn(h, tokens, |PRESETS|, i, x);
  }

  lemma FirstWindow(tokens: seq<string>, preset: Preset)
    requires |tokens| >= Window(preset)
    ensures Line1(tokens[..Window(preset)]) in Windows(tokens, Window(preset), Stride(preset), 0)
  {
    hide Line1;
    WindowStep(tokens, Window(preset), Stride(preset), 0);
    assert tokens[0..Window(preset)] == tokens[..Window(preset)];
  }

  /** A passage is refused exactly when every paragraph is short; otherwise there are candidates, none twice. */
  lemma CandidatesExactly(h: HashFn, tokens: seq<seq<string>>)
    ensures Candidates(h, tokens).Err? <==> AllShort(tokens)
    ensures Candidates(h, tokens).Err? ==> Candidates(h, tokens) == Err(PassageTooShort)
    ensures Candidates(h, tokens).Ok? ==>
              var hashes := Candidates(h, tokens).value;
              && (forall i, j :: 0 <= i < j < |hashes| ==> hashes[i] != hashes[j])
              && (forall x :: x in hashes <==> x in AllHashes(h, tokens, |PRESETS|))
  {
    hide AllHashes, FirstOccurrences, CliHash, Windows, Line1;
    var all := AllHashes(h, tokens, |PRESETS|);
    FirstDistinct(all);
    forall x ensures x in FirstOccurrences(all) <==> x in all {
      FirstKeeps(all, x);
    }
    if !AllShort(tokens) {
      var q :| 0 <= q < |tokens| && |tokens[q]| >= 7;
      FirstWindow(tokens[q], Standard);
      WindowIsCandidate(h, tokens, Standard, PlainText, q, Line1(tokens[q][..7]));
      assert CliHash(h, Standard, PlainText, Line1(tokens[q][..7])) in FirstOccurrences(all);
    }
  }

  // Slices of a document.

  lemma StrideSum(stride: nat, i: nat, k: nat)
    requires stride >= 1 && i % stride == 0 && OnStride(stride, 0, k)
    ensures OnStride(stride, 0, i + k)
  {
    var a, b := i / stride, k / stride;
    assert i + k == (a + b) * stride + 0 by {
      assert i == a * stride && k == b * stride;
      Distribute(a, b, stride);
    }
    QuotientUnique(i + k, stride, a + b, 0);
  }

  lemma Distribute(a: int, b: int, m: int)
    ensures (a + b) * m == a * m + b * m
  {
  }

  lemma SliceOfSlice(words: seq<string>, i: nat, j: nat, a: nat, b: nat)
    requires i <= j <= |words| && a <= b <= j - i
    ensures words[i..j][a..b] == words[i + a..i + b]
  {
    var x, y := words[i..j][a..b], words[i + a..i + b];
    assert |x| == |y|;
    forall k | 0 <= k < b - a ensures x[k] == y[k] {
      assert x[k] == words[i..j][a + k];
    }
  }

  /** A window of a slice is a window of the paragraph, when the slice starts on a stride. */
  lemma SliceWindows(paragraph: seq<string>, i: nat, j: nat, window: nat, stride: nat, text: string)
    requires i <= j <= |paragraph| && stride >= 1 && window >= 1 && i % stride == 0
    requires text in Windows(paragraph[i..j], window, stride, 0)
    ensures text in Windows(paragraph, window, stride, 0)
  {
    hide Windows, Line1, OnStride;
    WindowsAre(paragraph[i..j], window, stride, 0, text);
    WindowsAre(paragraph, window, stride, 0, text);
    var k: nat :| IsWindowAt(paragraph[i..j], window, stride, 0, k, text);
    StrideSum(stride, i, k);
    SliceOfSlice(paragraph, i, j, k, k + window);
    assert IsWindowAt(paragraph, window, stride, 0, i + k, text);
  }

  /** The payload hash that the library computes for a shingle, in hexadecimal. */
  function LibraryHash(h: HashFn, preset: Preset, m: Method, text: string): Option<HexHash> {
    match Payload(preset, m, text) case None => None case Some(bytes) => Some(Hex.ToHex(h(bytes)))
  }

  /** The hash is one of a document shingled with this preset under this method. */
  ghost predicate InDocument(h: HashFn, paragraphs: seq<seq<string>>, preset: Preset, m: Method, x: HexHash) {
    exists text :: text in ShingleTexts(paragraphs, preset, |paragraphs|) && LibraryHash(h, preset, m, text) == Some(x)
  }

  /** Every window of a slice that starts on a stride gives a candidate that is a hash of the document. */
  lemma SliceMatches(h: HashFn, document: seq<seq<string>>, p: nat, i: nat, j: nat,
                     tokens: seq<seq<string>>, q: nat, preset: Preset, m: Method, text: string)
    requires p < |document| && i <= j <= |document[p]| && i % Stride(preset) == 0
    requires q < |tokens| && tokens[q] == document[p][i..j]
    requires text in Windows(document[p][i..j], Window(preset), Stride(preset), 0)
    requires Payload(preset, m, text).Some?
    ensures CliHash(h, preset, m, text) in AllHashes(h, tokens, |PRESETS|)
    ensures InDocument(h, document, preset, m, CliHash(h, preset, m, text))
  {
    WindowPositive(preset);
    hide Windows, ShingleTexts, AllHashes, CliPayload, Payload, Window, Stride, Hex.ToHex;
    WindowIsCandidate(h, tokens, preset, m, q, text);
    SliceWindows(document[p], i, j, Window(preset), Stride(preset), text);
    ShinglesAre(document, preset, |document|, text);
    PayloadsAgree(preset, m, text);
    assert LibraryHash(h, preset, m, text) == Some(CliHash(h, preset, m, text));
  }

  lemma WindowPositive(preset: Preset)
    ensures Window(preset) >= 4
  {
  }

  lemma WindowAt(words: seq<string>, preset: Preset, a: nat)
    requires a + Window(preset) <= |words| && a % Stride(preset) == 0
    ensures Line1(words[a..a + Window(preset)]) in Windows(words, Window(preset), Stride(preset), 0)
  {
    WindowPositive(preset);
    hide Line1, Windows, Window;
    var text := Line1(words[a..a + Window(preset)]);
    assert IsWindowAt(words, Window(preset), Stride(preset), 0, a, text);
    WindowsAre(words, Window(preset), Stride(preset), 0, text);
  }

  lemma StandardWindow()
    ensures Window(Standard) == 7 && Stride(Standard) == 1
  {
  }

  /**
    Seven consecutive words that a passage shares with one paragraph of the document, wherever they stand in
    either: under every method the candidates hold a hash of the document shingled with the standard preset.
    */
  lemma SevenWordsMatch(h: HashFn, document: seq<seq<string>>, p: nat, i: nat,
                        tokens: seq<seq<string>>, q: nat, a: nat, m: Method)
    requires p < |document| && i + 7 <= |document[p]| && q < |tokens| && a + 7 <= |tokens[q]|
    requires tokens[q][a..a + 7] == document[p][i..i + 7]
    requires Payload(Standard, m, Line1(document[p][i..i + 7])).Some?
    ensures Candidates(h, tokens).Ok?
    ensures exists x :: x in Candidates(h, tokens).value && InDocument(h, document, Standard, m, x)
  {
    hide Windows, AllHashes, Payload, CliPayload, Line1, Candidates, ShingleTexts, Hex.ToHex, Window, Stride;
    StandardWindow();
    var text := Line1(document[p][i..i + 7]);
    WindowAt(tokens[q], Standard, a);
    WindowAt(document[p], Standard, i);
    WindowIsCandidate(h, tokens, Standard, m, q, text);
    ShinglesAre(document, Standard, |document|, text);
    PayloadsAgree(Standard, m, text);
    assert LibraryHash(h, Standard, m, text) == Some(CliHash(h, Standard, m, text));
    CandidatesExactly(h, tokens);
  }

  // From raw texts.

  function DocumentOf(fold: Normalizer.Fold, raw: string): seq<seq<string>> {
    TokenizeNormalized(Normalizer.Normalized(fold, raw))
  }

  /** On a text that both normalise alike the CLI sees the paragraphs that the library sees. */
  lemma SameTokens(fold: Normalizer.Fold, text: string)
    requires Agreement.IsCommonText(Normalizer.Prepared(fold(text))) && DocumentOf(fold, text) != []
    ensures CliTokensOf(fold, text) == DocumentOf(fold, text)
  {
    hide Normalizer.Normalized, CliNormalizer.CliNormalized, Agreement.IsCommonText, Normalizer.Prepared;
    Agreement.AgreeExactly(fold, text);
  }

  /**
    From raw document to raw passage, whatever the line breaks, punctuation and other paragraphs around them:
    when both have seven consecutive words of one paragraph in common, the CLI finds a hash of the document.
    */
  lemma PassageVerifies(fold: Normalizer.Fold, h: HashFn, raw: string, text: string,
                        p: nat, i: nat, q: nat, a: nat, m: Method)
    requires Agreement.IsCommonText(Normalizer.Prepared(fold(text)))
    requires var document, passage := DocumentOf(fold, raw), DocumentOf(fold, text);
             && p < |document| && i + 7 <= |document[p]| && q < |passage| && a + 7 <= |passage[q]|
             && passage[q][a..a + 7] == document[p][i..i + 7]
             && Payload(Standard, m, Line1(document[p][i..i + 7])).Some?
    ensures var candidates := Candidates(h, CliTokensOf(fold, text));
            && candidates.Ok?
            && exists x :: x in candidates.value && InDocument(h, DocumentOf(fold, raw), Standard, m, x)
  {
    hide DocumentOf, Line1, Payload, InDocument, Candidates, CliTokensOf, Normalizer.Prepared, Agreement.IsCommonText;
    SameTokens(fold, text);
    SevenWordsMatch(h, DocumentOf(fold, raw), p, i, CliTokensOf(fold, text), q, a, m);
  }

  // The converse.

  lemma {:induction false} CliFieldsCons(first: Bytes, bs: seq<Bytes>)
    ensures CliFields([first] + bs) == CliField(first) + CliFields(bs)
    decreases |bs|
  {
    hide CliField, CliFields;
    NoFields();
    if bs == [] {
      CliFieldsSnoc([], first);
      assert [first] + bs == [] + [first];
      assert [] + CliField(first) == CliField(first) + [];
    } else {
      var front, last := bs[..|bs| - 1], bs[|bs| - 1];
      CliFieldsCons(first, front);
      CliFieldsSnoc([first] + front, last);
      CliFieldsSnoc(front, last);
      assert bs == front + [last];
      assert [first] + bs == ([first] + front) + [last];
      Regroup(CliField(first), CliFields(front), CliField(last));
    }
  }

  lemma Regroup(a: Bytes, b: Bytes, c: Bytes)
    ensures (a + b) + c == a + (b + c)
  {
  }

  /** Whatever the lengths, equal payloads of the CLI and the library are for the same preset, method and text. */
  lemma CliPayloadDecides(p: Preset, m: Method, text: string, p': Preset, m': Method, text': string)
    requires Payload(p', m', text').Some? && CliPayload(p, m, text) == Payload(p', m', text').value
    ensures p == p' && m == m' && text == text'
  {
    var a, b := EachBytes(PayloadTexts(p, m, text)), EachBytes(PayloadTexts(p', m', text'));
    hide Fields, CliFields, TextBytes, PresetName, MethodName;
    assert CliFields(a) == CliPayload(p, m, text)[1..] == Fields(b);
    NamesFit(p, m);
    assert a == a[..5] + [a[5]];
    FrontFits(a[..5], a[5], b);
    assert a[1] == b[1] && a[4] == b[4] && a[5] == b[5];
    TextBytesInjective(PresetName(p), PresetName(p'));
    TextBytesInjective(MethodName(m), MethodName(m'));
    TextBytesInjective(text, text');
    NamesDiffer(p, p', m, m');
  }

  /** Short fields first: the last one may be of any length. */
  lemma {:induction false} FrontFits(front: seq<Bytes>, last: Bytes, b: seq<Bytes>)
    requires AllFit(front) && AllFit(b) && |b| == |front| + 1
    requires CliFields(front + [last]) == Fields(b)
    ensures front + [last] == b
    decreases |front|
  {
    hide U32be, Fields, CliFields;
    if front == [] {
      assert front + [last] == [last] && b == [b[0]] + [];
      LastFits(last, b);
    } else {
      assert front + [last] == [front[0]] + (front[1..] + [last]);
      CliFieldsCons(front[0], front[1..] + [last]);
      FieldsFirst(b);
      assert |front[0]| % U32_RANGE == |front[0]|;
      FieldsSeparate(front[0], b[0], CliFields(front[1..] + [last]), Fields(b[1..]));
      FrontFits(front[1..], last, b[1..]);
      assert b == [b[0]] + b[1..];
    }
  }

  lemma FieldsFirst(b: seq<Bytes>)
    requires AllFit(b) && b != []
    ensures Fields(b) == Field(b[0]) + Fields(b[1..])
  {
    hide Field;
  }

  lemma LastFits(last: Bytes, b: seq<Bytes>)
    requires AllFit(b) && |b| == 1 && CliFields([last]) == Fields(b)
    ensures [last] == b
  {
    hide CliFields, Fields;
    NoFields();
    CliFieldsSnoc([], last);
    assert [] + [last] == [last] && [] + CliField(last) == CliField(last);
    FieldsFirst(b);
    assert b[1..] == [] && Field(b[0]) + [] == Field(b[0]);
    SameTail(last, b[0]);
  }

  lemma SameTail(x: Bytes, y: Bytes)
    requires |y| <= MAX_LENGTH && CliField(x) == Field(y)
    ensures x == y
  {
    hide U32be;
    assert CliField(x)[4..] == x && Field(y)[4..] == y;
  }

  lemma NamesFit(p: Preset, m: Method)
    ensures AllFit(EachBytes(PayloadTexts(p, m, ""))[..5])
    ensures forall text :: EachBytes(PayloadTexts(p, m, text))[..5] == EachBytes(PayloadTexts(p, m, ""))[..5]
  {
    hide TextBytes;
    forall i | 0 <= i < 5 ensures |EachBytes(PayloadTexts(p, m, ""))[..5][i]| <= MAX_LENGTH {
      ShortText(PayloadTexts(p, m, "")[i]);
    }
  }

  lemma ShortText(s: string)
    requires |s| <= 100
    ensures |TextBytes(s)| <= MAX_LENGTH
  {
    Utf16Length(s);
    JsStrings.Utf8Length(Utf16(s));
  }

  lemma {:induction false} Utf16Length(s: string)
    ensures |Utf16(s)| <= 2 * |s|
  {
    if s != "" {
      hide Units;
      Utf16Length(s[1..]);
    }
  }

  /** An equal hash means the same preset, method and window, or the two payloads collide. */
  lemma EqualHashDecides(h: HashFn, p: Preset, m: Method, text: string, p': Preset, m': Method, text': string)
    requires LibraryHash(h, p', m', text') == Some(CliHash(h, p, m, text))
    ensures (p == p' && m == m' && text == text')
            || Collides(h, CliPayload(p, m, text), Payload(p', m', text').value)
  {
    hide CliPayload, Payload, Hex.ToHex, Hex.FromHex;
    Hex.HexRoundTrip(h(CliPayload(p, m, text)));
    Hex.HexRoundTrip(h(Payload(p', m', text').value));
    if CliPayload(p, m, text) == Payload(p', m', text').value {
      CliPayloadDecides(p, m, text, p', m', text');
    }
  }

  /** The candidate comes from this window of the passage. */
  predicate Origin(h: HashFn, tokens: seq<seq<string>>, x: HexHash, preset: Preset, m: Method, q: nat, text: string) {
    q < |tokens| && text in Windows(tokens[q], Window(preset), Stride(preset), 0) && x == CliHash(h, preset, m, text)
  }

  ghost predicate HasOrigin(h: HashFn, tokens: seq<seq<string>>, x: HexHash) {
    exists preset, m, q, text :: Origin(h, tokens, x, preset, m, q, text)
  }

  lemma {:induction false} HashFrom(h: HashFn, preset: Preset, m: Method, texts: seq<string>, x: HexHash)
    requires x in HashesOf(h, preset, m, texts)
    ensures exists text :: text in texts && x == CliHash(h, preset, m, text)
  {
    hide CliHash;
    if x == CliHash(h, preset, m, texts[0]) {
      assert texts[0] in texts;
    } else {
      HashFrom(h, preset, m, texts[1..], x);
      var text :| text in texts[1..] && x == CliHash(h, preset, m, text);
      assert text in texts;
    }
  }

  lemma {:induction false} TextHashFrom(h: HashFn, preset: Preset, m: Method, tokens: seq<seq<string>>, n: nat, x: HexHash)
    requires n <= |tokens| && x in TextHashes(h, preset, m, tokens, n)
    ensures HasOrigin(h, tokens, x)
    decreases n
  {
    hide CliHash, Windows, HashesOf, Window, Stride;
    if x in TextHashes(h, preset, m, tokens, n - 1) {
      TextHashFrom(h, preset, m, tokens, n - 1, x);
    } else {
      HashFrom(h, preset, m, Windows(tokens[n - 1], Window(preset), Stride(preset), 0), x);
      var text :| text in Windows(tokens[n - 1], Window(preset), Stride(preset), 0) && x == CliHash(h, preset, m, text);
      assert Origin(h, tokens, x, preset, m, n - 1, text);
    }
  }

  lemma {:induction false} MethodHashFrom(h: HashFn, preset: Preset, tokens: seq<seq<string>>, n: nat, x: HexHash)
    requires n <= |METHODS| && x in MethodHashes(h, preset, tokens, n)
    ensures HasOrigin(h, tokens, x)
    decreases n
  {
    hide TextHashes, HasOrigin;
    if x in MethodHashes(h, preset, tokens, n - 1) {
      MethodHashFrom(h, preset, tokens, n - 1, x);
    } else {
      TextHashFrom(h, preset, METHODS[n - 1], tokens, |tokens|, x);
    }
  }

  lemma {:induction false} HashFromWindow(h: HashFn, tokens: seq<seq<string>>, n: nat, x: HexHash)
    requires n <= |PRESETS| && x in AllHashes(h, tokens, n)
    ensures HasOrigin(h, tokens, x)
    decreases n
  {
    hide MethodHashes, HasOrigin;
    if x in AllHashes(h, tokens, n - 1) {
      HashFromWindow(h, tokens, n - 1, x);
    } else {
      MethodHashFrom(h, PRESETS[n - 1], tokens, |METHODS|, x);
    }
  }

  /** Equal window texts are equal windows: words have no spaces. */
  lemma SameTextSameTokens(brk: Breaker, words: seq<string>, words': seq<string>)
    requires brk(' ') && AreWords(brk, words) && AreWords(brk, words') && Line1(words) == Line1(words')
    ensures words == words'
  {
    hide WordsOf, AreWords, Line1;
    WordsOfJoined(brk, words);
    WordsOfJoined(brk, words');
  }

  /** A window of some text: its preset and method, its paragraph, and the word that it starts with. */
  datatype Place = Place(preset: Preset, m: Method, paragraph: nat, start: nat)

  predicate IsPlace(paragraphs: seq<seq<string>>, w: Place) {
    && w.paragraph < |paragraphs| && w.start % Stride(w.preset) == 0
    && w.start + Window(w.preset) <= |paragraphs[w.paragraph]|
  }

  function WordsAt(paragraphs: seq<seq<string>>, w: Place): seq<string>
    requires IsPlace(paragraphs, w)
  {
    paragraphs[w.paragraph][w.start..w.start + Window(w.preset)]
  }

  /** The payload that the CLI hashes for a window of the passage, and the library for one of the document. */
  function CliPayloadAt(tokens: seq<seq<string>>, w: Place): Bytes
    requires IsPlace(tokens, w)
  {
    CliPayload(w.preset, w.m, Line1(WordsAt(tokens, w)))
  }

  function PayloadAt(document: seq<seq<string>>, w: Place): Option<Bytes>
    requires IsPlace(document, w)
  {
    Payload(w.preset, w.m, Line1(WordsAt(document, w)))
  }

  /** The same preset, method and words; or else different payloads, which have one hash. */
  predicate SameOrCollides(h: HashFn, tokens: seq<seq<string>>, w: Place, document: seq<seq<string>>, w': Place) {
    && IsPlace(tokens, w) && IsPlace(document, w') && PayloadAt(document, w').Some?
    && ((w.preset == w'.preset && w.m == w'.m && WordsAt(tokens, w) == WordsAt(document, w'))
        || Collides(h, CliPayloadAt(tokens, w), PayloadAt(document, w').value))
  }

  predicate EachAreWords(paragraphs: seq<seq<string>>) {
    forall p :: 0 <= p < |paragraphs| ==> AreWords(IsSpace, paragraphs[p])
  }

  lemma TokensAreWords(parts: seq<string>)
    ensures EachAreWords(EachWords(parts))
  {
    hide WordsOf, AreWords;
    forall i | 0 <= i < |parts| ensures AreWords(IsSpace, WordsOf(IsSpace, parts[i])) {
      WordsAreWords(IsSpace, parts[i]);
    }
  }

  lemma TextsHaveWords(fold: Normalizer.Fold, raw: string)
    ensures EachAreWords(DocumentOf(fold, raw)) && EachAreWords(CliTokensOf(fold, raw))
  {
    hide EachAreWords, Normalizer.Normalized, CliNormalizer.CliNormalized, SplitBreaks, EachWords;
    TokensAreWords(SplitBreaks(Normalizer.Normalized(fold, raw)));
    TokensAreWords(SplitBreaks(CliNormalizer.CliNormalized(fold, raw)));
    NoParagraphs();
  }

  lemma NoParagraphs()
    ensures EachAreWords([])
  {
  }

  lemma SliceWords(brk: Breaker, words: seq<string>, i: nat, j: nat)
    requires AreWords(brk, words) && i <= j <= |words|
    ensures AreWords(brk, words[i..j])
  {
  }

  lemma WordsAtAreWords(paragraphs: seq<seq<string>>, w: Place)
    requires EachAreWords(paragraphs) && IsPlace(paragraphs, w)
    ensures AreWords(IsSpace, WordsAt(paragraphs, w))
  {
    hide AreWords, Window, Stride;
    SliceWords(IsSpace, paragraphs[w.paragraph], w.start, w.start + Window(w.preset));
  }

  /** Where a window stands. */
  lemma PlaceOf(paragraphs: seq<seq<string>>, preset: Preset, m: Method, q: nat, text: string) returns (w: Place)
    requires q < |paragraphs| && text in Windows(paragraphs[q], Window(preset), Stride(preset), 0)
    ensures w.preset == preset && w.m == m && IsPlace(paragraphs, w) && Line1(WordsAt(paragraphs, w)) == text
  {
    WindowPositive(preset);
    hide Windows, Line1, Window, Stride;
    WindowsAre(paragraphs[q], Window(preset), Stride(preset), 0, text);
    var k: nat :| IsWindowAt(paragraphs[q], Window(preset), Stride(preset), 0, k, text);
    w := Place(preset, m, q, k);
  }

  lemma OriginPlace(h: HashFn, tokens: seq<seq<string>>, x: HexHash) returns (w: Place)
    requires HasOrigin(h, tokens, x)
    ensures IsPlace(tokens, w) && x == CliHash(h, w.preset, w.m, Line1(WordsAt(tokens, w)))
  {
    hide Windows, Window, Stride, CliHash, IsPlace, WordsAt, Line1;
    var p, n, q, t :| Origin(h, tokens, x, p, n, q, t);
    w := PlaceOf(tokens, p, n, q, t);
  }

  lemma DocumentPlace(h: HashFn, document: seq<seq<string>>, preset: Preset, m: Method, x: HexHash) returns (w: Place)
    requires InDocument(h, document, preset, m, x)
    ensures IsPlace(document, w) && w.preset == preset && w.m == m
    ensures LibraryHash(h, preset, m, Line1(WordsAt(document, w))) == Some(x)
  {
    hide Windows, Window, Stride, LibraryHash, IsPlace, WordsAt, Line1, ShingleTexts;
    var text :| text in ShingleTexts(document, preset, |document|) && LibraryHash(h, preset, m, text) == Some(x);
    ShinglesAre(document, preset, |document|, text);
    var p :| 0 <= p < |document| && text in Windows(document[p], Window(preset), Stride(preset), 0);
    w := PlaceOf(document, preset, m, p, text);
  }

  /** Windows with one hash are the same window, or their payloads collide. */
  lemma EqualHashSameWindow(h: HashFn, tokens: seq<seq<string>>, w: Place, document: seq<seq<string>>, w': Place)
    requires EachAreWords(tokens) && EachAreWords(document) && IsPlace(tokens, w) && IsPlace(document, w')
    requires LibraryHash(h, w'.preset, w'.m, Line1(WordsAt(document, w'))) ==
             Some(CliHash(h, w.preset, w.m, Line1(WordsAt(tokens, w))))
    ensures SameOrCollides(h, tokens, w, document, w')
  {
    hide EachAreWords, IsPlace, WordsAt, Line1, CliPayload, Payload, CliHash, Hex.ToHex;
    var words, words' := WordsAt(tokens, w), WordsAt(document, w');
    EqualHashDecides(h, w.preset, w.m, Line1(words), w'.preset, w'.m, Line1(words'));
    if Line1(words) == Line1(words') {
      WordsAtAreWords(tokens, w);
      WordsAtAreWords(document, w');
      SameTextSameTokens(IsSpace, words, words');
    }
  }

  /**
    A candidate that is a hash of the document, under some preset and method: the passage has a window of the
    document, word for word and under that preset and method, or the payloads of two such windows collide.
    */
  lemma MatchMeans(fold: Normalizer.Fold, h: HashFn, raw: string, text: string, x: HexHash, preset: Preset, m: Method)
    requires Candidates(h, CliTokensOf(fold, text)).Ok? && x in Candidates(h, CliTokensOf(fold, text)).value
    requires InDocument(h, DocumentOf(fold, raw), preset, m, x)
    ensures exists w: Place, w': Place ::
              && SameOrCollides(h, CliTokensOf(fold, text), w, DocumentOf(fold, raw), w')
              && w'.preset == preset && w'.m == m
              && CliHash(h, w.preset, w.m, Line1(WordsAt(CliTokensOf(fold, text), w))) == x
  {
    hide Candidates, AllHashes, CliTokensOf, DocumentOf, CliHash, LibraryHash, InDocument, HasOrigin, SameOrCollides,
      IsPlace, WordsAt, Line1, EachAreWords;
    var tokens, document := CliTokensOf(fold, text), DocumentOf(fold, raw);
    CandidatesExactly(h, tokens);
    HashFromWindow(h, tokens, |PRESETS|, x);
    var w := OriginPlace(h, tokens, x);
    var w' := DocumentPlace(h, document, preset, m, x);
    TextsHaveWords(fold, text);
    TextsHaveWords(fold, raw);
    EqualHashSameWindow(h, tokens, w, document, w');
  }

  // Every preset.

  /** The words of a window, and how far apart windows start. */
  function WindowWords(preset: Preset): nat {
    match preset case Standard => 7 case Broad => 12 case Sensitive => 4
  }

  function WindowStride(preset: Preset): (r: nat)
    ensures r >= 1
  {
    match preset case Standard => 1 case Broad => 3 case Sensitive => 1
  }

  lemma WindowsOf(preset: Preset)
    ensures Window(preset) == WindowWords(preset) && Stride(preset) == WindowStride(preset)
  {
  }

  /**
    The words of one window that the passage shares with one paragraph of the document, at positions where
    windows start: 7 anywhere for standard, 12 at multiples of 3 for broad, 4 anywhere for sensitive. When there
    are candidates at all, they hold a hash of the document shingled with that preset.
    */
  lemma WindowWordsMatch(h: HashFn, document: seq<seq<string>>, p: nat, i: nat,
                         tokens: seq<seq<string>>, q: nat, a: nat, preset: Preset, m: Method)
    requires var n, s := WindowWords(preset), WindowStride(preset);
             && p < |document| && i + n <= |document[p]| && i % s == 0
             && q < |tokens| && a + n <= |tokens[q]| && a % s == 0
             && tokens[q][a..a + n] == document[p][i..i + n]
             && Payload(preset, m, Line1(document[p][i..i + n])).Some?
    ensures Candidates(h, tokens).Ok? ==>
              exists x :: x in Candidates(h, tokens).value && InDocument(h, document, preset, m, x)
  {
    hide Windows, AllHashes, Payload, CliPayload, Line1, Candidates, ShingleTexts, Hex.ToHex, Window, Stride, WindowWords, WindowStride;
    WindowsOf(preset);
    var n := WindowWords(preset);
    var text := Line1(document[p][i..i + n]);
    WindowAt(tokens[q], preset, a);
    WindowAt(document[p], preset, i);
    WindowIsCandidate(h, tokens, preset, m, q, text);
    ShinglesAre(document, preset, |document|, text);
    PayloadsAgree(preset, m, text);
    assert LibraryHash(h, preset, m, text) == Some(CliHash(h, preset, m, text));
    CandidatesExactly(h, tokens);
  }

  /** There are no candidates exactly when every paragraph has fewer than seven words. */
  lemma TooShortExactly(h: HashFn, tokens: seq<seq<string>>)
    ensures Candidates(h, tokens) == Err(PassageTooShort) <==> forall q :: 0 <= q < |tokens| ==> |tokens[q]| < 7
    ensures Candidates(h, tokens).Err? ==> Candidates(h, tokens) == Err(PassageTooShort)
  {
    hide AllHashes, FirstOccurrences, Candidates;
    CandidatesExactly(h, tokens);
  }

  // The order of candidates.

  /** Position i holds x for the first time. */
  predicate FirstAt<T(==)>(s: seq<T>, x: T, i: nat) {
    i < |s| && s[i] == x && x !in s[..i]
  }

  /** Candidates keep the order in which they come up for the first time. */
  lemma {:induction false} FirstInOrder<T>(s: seq<T>, i: nat, j: nat, a: nat, b: nat)
    requires i < j < |FirstOccurrences(s)|
    requires FirstAt(s, FirstOccurrences(s)[i], a) && FirstAt(s, FirstOccurrences(s)[j], b)
    ensures a < b
    decreases |s|
  {
    var front, last, r := s[..|s| - 1], s[|s| - 1], FirstOccurrences(s);
    FirstKeeps(front, r[i]);
    FirstKeeps(front, r[j]);
    if j < |FirstOccurrences(front)| {
      FirstAtFront(s, r[i], a);
      FirstAtFront(s, r[j], b);
      FirstInOrder(front, i, j, a, b);
    } else {
      FirstAtFront(s, r[i], a);
    }
  }

  lemma FirstAtFront<T>(s: seq<T>, x: T, i: nat)
    requires s != [] && x in s[..|s| - 1] && FirstAt(s, x, i)
    ensures FirstAt(s[..|s| - 1], x, i)
  {
    assert i < |s| - 1;
    assert s[..|s| - 1][..i] == s[..i];
  }

  /** The hashes of one preset: method by method. */
  function PresetHashes(h: HashFn, preset: Preset, tokens: seq<seq<string>>): seq<HexHash> {
    TextHashes(h, preset, PlainText, tokens, |tokens|) + TextHashes(h, preset, PdfTextLayer, tokens, |tokens|)
    + TextHashes(h, preset, OcrTesseract, tokens, |tokens|)
  }

  /** Standard windows come first, then broad, then sensitive ones. */
  lemma PresetOrder(h: HashFn, tokens: seq<seq<string>>)
    ensures Candidates(h, tokens).Ok? ==>
              Candidates(h, tokens).value ==
              FirstOccurrences(PresetHashes(h, Standard, tokens) + PresetHashes(h, Broad, tokens) + PresetHashes(h, Sensitive, tokens))
  {
    hide FirstOccurrences, TextHashes;
    MethodOrder(h, Standard, tokens);
    MethodOrder(h, Broad, tokens);
    MethodOrder(h, Sensitive, tokens);
    hide MethodHashes;
    assert AllHashes(h, tokens, 0) == [];
    assert AllHashes(h, tokens, 1) == PresetHashes(h, Standard, tokens);
    assert AllHashes(h, tokens, 2) == PresetHashes(h, Standard, tokens) + PresetHashes(h, Broad, tokens);
  }

  lemma MethodOrder(h: HashFn, preset: Preset, tokens: seq<seq<string>>)
    ensures MethodHashes(h, preset, tokens, 3) == PresetHashes(h, preset, tokens)
  {
    hide TextHashes;
    assert MethodHashes(h, preset, tokens, 0) == [];
    assert MethodHashes(h, preset, tokens, 1) == TextHashes(h, preset, PlainText, tokens, |tokens|);
  }
}
