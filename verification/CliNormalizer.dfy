/** The CLI's own normalisation, and exactly when it agrees with the library's. */
module CliNormalizer {
  import opened Words
  import opened Paragraphs
  import opened Tokenizer
  import opened Normalizer
  import opened NormalForm

  const BYTE_ORDER_MARK: char := '\U{FEFF}'
  const NEXT_LINE: char := '\U{0085}'

  /** Unicode's White_Space, as Rust splits by it. */
  predicate IsRustSpace(c: char) {
    '\t' <= c <= '\r' || c == ' ' || c == NEXT_LINE || c == '\U{00A0}' || c == '\U{1680}' || '\U{2000}' <= c <= '\U{200A}'
    || c == '\U{2028}' || c == '\U{2029}' || c == '\U{202F}' || c == '\U{205F}' || c == '\U{3000}'
  }

  predicate IsCliBreak(c: char) {
    c == '\n' || IsPunctuation(c) || IsRustSpace(c)
  }

  /** s.replace([a, b], to) */
  function ReplaceEither(s: string, a: char, b: char, to: string): string {
    if s == "" then "" else (if s[0] == a || s[0] == b then to else [s[0]]) + ReplaceEither(s[1..], a, b, to)
  }

  lemma {:induction false} EitherIsSubstitute(s: string, a: char, b: char, to: string)
    ensures ReplaceEither(s, a, b, to) == Substitute([(a, to), (b, to)], s)
  {
    if s != "" {
      EitherIsSubstitute(s[1..], a, b, to);
      var table := [(a, to), (b, to)];
      assert table[1..] == [(b, to)];
      assert Mapped([(b, to)], s[0]) == if s[0] == b then to else [s[0]];
      assert Mapped(table, s[0]) == if s[0] == a || s[0] == b then to else [s[0]];
    }
  }

  function CliCleaned(s: string): string {
    Join(WordsOf(IsRustSpace, Spaced(s)), " ")
  }

  function CliCleanedParts(parts: seq<string>): seq<string>
    decreases |parts|
  {
    if parts == [] then []
    else
      var last := CliCleaned(parts[|parts| - 1]);
      CliCleanedParts(parts[..|parts| - 1]) + if last == "" then [] else [last]
  }

  /** Form feeds become paragraph breaks before hyphens are looked at. */
  function CliText(prepared: string): string {
    Join(CliCleanedParts(SplitParagraphs(Dehyphenate(FormFeeds(prepared)))), BREAK)
  }

  function CliNormalized(fold: Fold, text: string): string {
    CliText(Prepared(fold(text)))
  }

  // The chain of replacements.

  lemma SubstituteMore(done: Table, more: Table, s: string, out: string)
    requires ToAscii(done) && ToAscii(more) && out == Substitute(done, s)
    ensures Substitute(more, out) == Substitute(done + more, s) && ToAscii(done + more)
  {
    SubstituteTwice(done, more, s);
  }

  method NormalizeForShingling(fold: Fold, text: string) returns (normalized: string)
    ensures normalized == CliNormalized(fold, text)
  {
    hide Substitute, Replace, ReplaceEither, Dehyphenate, SplitParagraphs, CliCleanedParts, Join, ToAscii;
    TablesToAscii();
    var s := fold(text);
    normalized := ReplaceSmart(s);
    normalized := ReplaceLigatures(normalized);
    SubstituteTwice(SMART_PUNCTUATION, LIGATURES, s);
    normalized := Replace(normalized, SOFT_HYPHEN, "");
    normalized := Replace(normalized, FORM_FEED, BREAK);
    normalized := Dehyphenate(normalized);
    var paragraphs := SplitParagraphs(normalized);
    normalized := Join(CliCleanedParts(paragraphs), BREAK);
  }

  lemma PiecesToAscii()
    ensures ToAscii(SMART_PUNCTUATION[..2]) && ToAscii(SMART_PUNCTUATION[2..4]) && ToAscii(SMART_PUNCTUATION[4..6])
    ensures ToAscii(SMART_PUNCTUATION[6..7])
    ensures forall i :: 0 <= i < |LIGATURES| ==> ToAscii([LIGATURES[i]])
  {
    TablesToAscii();
  }

  method ReplaceSmart(s: string) returns (out: string)
    ensures out == Substitute(SMART_PUNCTUATION, s)
  {
    hide Substitute, Replace, ReplaceEither, ToAscii;
    PiecesToAscii();
    var t := SMART_PUNCTUATION;
    assert t[..2] == [('\U{2018}', "'"), ('\U{2019}', "'")] && t[2..4] == [('\U{201C}', "\""), ('\U{201D}', "\"")];
    assert t[4..6] == [('\U{2013}', "-"), ('\U{2014}', "-")] && t[6..7] == [('\U{2026}', "...")];
    EitherIsSubstitute(s, '\U{2018}', '\U{2019}', "'");
    out := ReplaceEither(s, '\U{2018}', '\U{2019}', "'");
    EitherIsSubstitute(out, '\U{201C}', '\U{201D}', "\"");
    SubstituteMore(t[..2], t[2..4], s, out);
    out := ReplaceEither(out, '\U{201C}', '\U{201D}', "\"");
    EitherIsSubstitute(out, '\U{2013}', '\U{2014}', "-");
    SubstituteMore(t[..2] + t[2..4], t[4..6], s, out);
    out := ReplaceEither(out, '\U{2013}', '\U{2014}', "-");
    ReplaceIsSubstitute(out, '\U{2026}', "...");
    SubstituteMore(t[..2] + t[2..4] + t[4..6], t[6..7], s, out);
    out := Replace(out, '\U{2026}', "...");
    assert t[..2] + t[2..4] + t[4..6] + t[6..7] == t;
  }

  method ReplaceLigatures(s: string) returns (out: string)
    ensures out == Substitute(LIGATURES, s)
  {
    hide Substitute, Replace, ToAscii;
    PiecesToAscii();
    var t := LIGATURES;
    ReplaceIsSubstitute(s, '\U{FB00}', "ff");
    out := Replace(s, '\U{FB00}', "ff");
    ReplaceIsSubstitute(out, '\U{FB01}', "fi");
    SubstituteMore([t[0]], [t[1]], s, out);
    out := Replace(out, '\U{FB01}', "fi");
    ReplaceIsSubstitute(out, '\U{FB02}', "fl");
    SubstituteMore([t[0]] + [t[1]], [t[2]], s, out);
    out := Replace(out, '\U{FB02}', "fl");
    ReplaceIsSubstitute(out, '\U{FB03}', "ffi");
    SubstituteMore([t[0]] + [t[1]] + [t[2]], [t[3]], s, out);
    out := Replace(out, '\U{FB03}', "ffi");
    ReplaceIsSubstitute(out, '\U{FB04}', "ffl");
    SubstituteMore([t[0]] + [t[1]] + [t[2]] + [t[3]], [t[4]], s, out);
    out := Replace(out, '\U{FB04}', "ffl");
    assert [t[0]] + [t[1]] + [t[2]] + [t[3]] + [t[4]] == t;
  }

  // The CLI's text as one scan.

  lemma CliBreaksAtBlanks()
    ensures BreaksAtBlanks(IsCliBreak) && BreaksAtSpace(IsCliBreak)
  {
  }

  lemma {:induction false} SpacedLine(s: string)
    ensures LineOf(IsRustSpace, Spaced(s)) == LineOf(IsCliBreak, s)
    decreases |s|
  {
    if s != "" {
      hide IsPunctuation;
      SpacedLine(s[..|s| - 1]);
      assert Spaced(s)[..|s| - 1] == Spaced(s[..|s| - 1]);
    }
  }

  lemma {:induction false} CliPartsAreLines(parts: seq<string>)
    ensures CliCleanedParts(parts) == Lines(PartWords(IsCliBreak, parts))
    decreases |parts|
  {
    if parts != [] {
      hide LineOf, Line1, Spaced, AreWords;
      var front, last := parts[..|parts| - 1], parts[|parts| - 1];
      CliPartsAreLines(front);
      SpacedLine(last);
      WordsAreWords(IsCliBreak, last);
      LineIsEmpty(IsCliBreak, WordsOf(IsCliBreak, last));
      LinesSnoc(PartWords(IsCliBreak, front), WordsOf(IsCliBreak, last));
    }
  }

  lemma CliTextIsRendered(prepared: string)
    ensures CliText(prepared) == Render(ParagraphsOf(IsCliBreak, Dehyphenate(FormFeeds(prepared))))
  {
    hide SplitParagraphs, CliCleanedParts, Join, Lines, PartWords, FormFeeds, Dehyphenate, ScanFrom;
    var text := Dehyphenate(FormFeeds(prepared));
    CliBreaksAtBlanks();
    CliPartsAreLines(SplitParagraphs(text));
    SplitThenWords(IsCliBreak, text);
  }

  /** The CLI's tokens: what its scan finds, or one empty paragraph when it finds nothing. */
  lemma CliTokens(prepared: string)
    ensures var paragraphs := ParagraphsOf(IsCliBreak, Dehyphenate(FormFeeds(prepared)));
            && AreParagraphs(IsCliBreak, paragraphs)
            && CliTokenizeNormalized(CliText(prepared)) == if paragraphs == [] then [[]] else paragraphs
  {
    hide CliText, ParagraphsOf, AreParagraphs, CliTokenizeNormalized, Render, FormFeeds, Dehyphenate;
    var text := Dehyphenate(FormFeeds(prepared));
    CliTextIsRendered(prepared);
    CliBreaksAtBlanks();
    ParagraphsAreOk(IsCliBreak, text);
    TokensRejoin(IsCliBreak, ParagraphsOf(IsCliBreak, text));
    EmptyTokens();
  }

  lemma EmptyTokens()
    ensures CliTokenizeNormalized("") == [[]]
  {
    assert EachWords([""]) == [WordsOf(IsSpace, "")] + EachWords([]);
  }
}
