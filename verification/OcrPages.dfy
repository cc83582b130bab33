/** OCR pages joined by form feeds, and why their paragraphs do not mix. */
module OcrPages {
  import opened Words
  import opened Paragraphs
  import opened Tokenizer
  import opened Normalizer
  import opened NormalForm
  import opened Agreement
  import opened SecondPass
  import CliNormalizer
  import opened Shingles
  import Sorting

  datatype Page = Page(pageNumber: int, text: string, failed: bool)

  const PAGE_BREAK: string := [FORM_FEED]

  predicate Before(a: Page, b: Page) {
    a.pageNumber < b.pageNumber
  }

  /** A failed page keeps its place with an empty text. */
  function PageText(page: Page): string {
    if page.failed then "" else page.text
  }

  function PageTexts(pages: seq<Page>): (r: seq<string>)
    ensures |r| == |pages| && forall i :: 0 <= i < |r| ==> r[i] == PageText(pages[i])
  {
    if pages == [] then [] else [PageText(pages[0])] + PageTexts(pages[1..])
  }

  function InOrder(pages: seq<Page>): seq<Page> {
    Sorting.Sort(Before, pages)
  }

  function CombinedText(pages: seq<Page>): string {
    Join(PageTexts(InOrder(pages)), PAGE_BREAK)
  }

  /** Neither composing nor lowercasing reaches across a form feed, or makes something of nothing. */
  ghost predicate FoldsPageByPage(fold: Fold) {
    fold("") == "" && forall a, b :: fold(a + PAGE_BREAK + b) == fold(a) + PAGE_BREAK + fold(b)
  }

  /** The paragraphs of a raw text. */
  function TokensOf(fold: Fold, raw: string): seq<seq<string>> {
    TokenizeNormalized(Normalized(fold, raw))
  }

  /** The paragraphs of each text, one after another. */
  function EachTokens(fold: Fold, texts: seq<string>): seq<seq<string>>
    decreases |texts|
  {
    if texts == [] then [] else EachTokens(fold, texts[..|texts| - 1]) + TokensOf(fold, texts[|texts| - 1])
  }

  lemma {:induction false} ReplaceSum(a: string, b: string, from: char, to: string)
    ensures Replace(a + b, from, to) == Replace(a, from, to) + Replace(b, from, to)
  {
    if a == "" {
      assert a + b == b;
    } else {
      hide Replace;
      var rest := a[1..];
      ReplaceSum(rest, b, from, to);
      ReplaceCons(a[0], rest, from, to);
      ReplaceCons(a[0], rest + b, from, to);
      NormalForm.Regroup(if a[0] == from then to else [a[0]], Replace(rest, from, to), Replace(b, from, to));
      NormalForm.Regroup([a[0]], rest, b);
      assert a == [a[0]] + rest;
    }
  }

  /** Preparing works character by character. */
  lemma PreparedApart(a: string, b: string)
    ensures Prepared(a + PAGE_BREAK + b) == Prepared(a) + PAGE_BREAK + Prepared(b)
  {
    TablesToAscii();
    var table: Table := SMART_PUNCTUATION + LIGATURES;
    assert ToAscii(table);
    assert IsAscii(PAGE_BREAK);
    hide Substitute, Replace, ToAscii;
    AsciiStays(table, PAGE_BREAK);
    SubstituteSum(table, a + PAGE_BREAK, b);
    SubstituteSum(table, a, PAGE_BREAK);
    var x, y := Substitute(table, a), Substitute(table, b);
    ReplaceSum(x + PAGE_BREAK, y, SOFT_HYPHEN, "");
    ReplaceSum(x, PAGE_BREAK, SOFT_HYPHEN, "");
    BreakStays();
  }

  lemma BreakStays()
    ensures Replace(PAGE_BREAK, SOFT_HYPHEN, "") == PAGE_BREAK
    ensures FormFeeds(PAGE_BREAK) == BREAK
  {
    ReplaceCons(FORM_FEED, "", SOFT_HYPHEN, "");
    ReplaceCons(FORM_FEED, "", FORM_FEED, BREAK);
    assert [FORM_FEED] + "" == PAGE_BREAK;
  }

  lemma {:induction false} SkipTabsApart(a: string, b: string)
    ensures SkipTabs(a + PAGE_BREAK + b) == SkipTabs(a) + PAGE_BREAK + b
  {
    if a != "" && (a[0] == ' ' || a[0] == '\t') {
      SkipTabsApart(a[1..], b);
      assert (a + PAGE_BREAK + b)[1..] == a[1..] + PAGE_BREAK + b;
    } else {
      assert (a + PAGE_BREAK + b)[0] == if a == "" then FORM_FEED else a[0];
    }
  }

  lemma DehyphenateApartAt(c: char, rest: string, b: string)
    requires c != '-' || rest == "" || rest[0] != '\n'
    requires Dehyphenate(rest + PAGE_BREAK + b) == Dehyphenate(rest) + PAGE_BREAK + Dehyphenate(b)
    ensures Dehyphenate([c] + rest + PAGE_BREAK + b) == Dehyphenate([c] + rest) + PAGE_BREAK + Dehyphenate(b)
  {
    hide Dehyphenate;
    var tail := rest + PAGE_BREAK + b;
    assert [c] + rest + PAGE_BREAK + b == [c] + tail;
    assert tail[0] == if rest == "" then FORM_FEED else rest[0];
    DehyphenatePlain(c, rest);
    DehyphenatePlain(c, tail);
    assert [c] + (Dehyphenate(rest) + PAGE_BREAK + Dehyphenate(b)) == ([c] + Dehyphenate(rest)) + PAGE_BREAK + Dehyphenate(b);
  }

  lemma NothingApart(b: string)
    ensures Dehyphenate("" + PAGE_BREAK + b) == Dehyphenate("") + PAGE_BREAK + Dehyphenate(b)
  {
    assert Dehyphenate("") == "";
    hide Dehyphenate;
    assert "" + PAGE_BREAK + b == [FORM_FEED] + b;
    DehyphenatePlain(FORM_FEED, b);
  }

  /** In the library a line-end hyphen is looked for before form feeds become newlines, so not across one. */
  lemma {:induction false} DehyphenateApart(a: string, b: string)
    ensures Dehyphenate(a + PAGE_BREAK + b) == Dehyphenate(a) + PAGE_BREAK + Dehyphenate(b)
    decreases |a|
  {
    hide Dehyphenate, SkipTabs;
    if a == "" {
      NothingApart(b);
    } else if |a| >= 2 && a[0] == '-' && a[1] == '\n' {
      var rest := a[2..];
      assert a == "-\n" + rest && a + PAGE_BREAK + b == "-\n" + (rest + PAGE_BREAK + b);
      DehyphenateBreak(rest);
      DehyphenateBreak(rest + PAGE_BREAK + b);
      SkipTabsApart(rest, b);
      DehyphenateApart(SkipTabs(rest), b);
    } else {
      DehyphenateApart(a[1..], b);
      assert a == [a[0]] + a[1..];
      DehyphenateApartAt(a[0], a[1..], b);
    }
  }

  lemma FormFeedsApart(a: string, b: string)
    ensures FormFeeds(a + PAGE_BREAK + b) == FormFeeds(a) + BREAK + FormFeeds(b)
  {
    hide Replace;
    ReplaceSum(a + PAGE_BREAK, b, FORM_FEED, BREAK);
    ReplaceSum(a, PAGE_BREAK, FORM_FEED, BREAK);
    BreakStays();
  }

  /** Two texts with a form feed between them have their own paragraphs, one text's after the other's. */
  lemma TokensApart(fold: Fold, a: string, b: string)
    requires FoldsPageByPage(fold)
    ensures TokensOf(fold, a + PAGE_BREAK + b) == TokensOf(fold, a) + TokensOf(fold, b)
  {
    assert BREAK == "\n\n";
    hide Prepared, Dehyphenate, Replace, FormFeeds, ParagraphsOf, NormalText, TokenizeNormalized, AreParagraphs, Render;
    var x, y := Prepared(fold(a)), Prepared(fold(b));
    PreparedApart(fold(a), fold(b));
    DehyphenateApart(x, y);
    FormFeedsApart(Dehyphenate(x), Dehyphenate(y));
    JsBreaksAtBlanks();
    ApartByBlankLine(IsJsBreak, FormFeeds(Dehyphenate(x)), FormFeeds(Dehyphenate(y)));
    NormalTextIsNormal(x);
    NormalTextIsNormal(y);
    NormalTextIsNormal(x + PAGE_BREAK + y);
  }

  lemma NoTokens(fold: Fold)
    requires FoldsPageByPage(fold)
    ensures TokensOf(fold, Join([], PAGE_BREAK)) == [] && EachTokens(fold, []) == []
  {
    assert fold("") == "" && Prepared("") == "" && Join([], PAGE_BREAK) == "";
    hide Prepared, TokenizeNormalized, FoldsPageByPage, NormalText;
    NormalTextIsNormal("");
    assert Dehyphenate("") == "" && FormFeeds("") == "";
  }

  lemma {:induction false} TokensOfJoined(fold: Fold, texts: seq<string>)
    requires FoldsPageByPage(fold)
    ensures TokensOf(fold, Join(texts, PAGE_BREAK)) == EachTokens(fold, texts)
    decreases |texts|
  {
    hide TokensOf, FoldsPageByPage;
    if texts == [] {
      NoTokens(fold);
    } else {
      var front, last := texts[..|texts| - 1], texts[|texts| - 1];
      TokensOfJoined(fold, front);
      JoinSnoc(front, last, PAGE_BREAK);
      assert texts == front + [last];
      if front == [] {
        assert [] + TokensOf(fold, last) == TokensOf(fold, last);
      } else {
        TokensApart(fold, Join(front, PAGE_BREAK), last);
      }
    }
  }

  /** The paragraphs of a scanned document are those of its pages, in page order: none spans two pages. */
  lemma PagesDoNotMix(fold: Fold, pages: seq<Page>)
    requires FoldsPageByPage(fold)
    ensures TokensOf(fold, CombinedText(pages)) == EachTokens(fold, PageTexts(InOrder(pages)))
  {
    hide TokensOf, EachTokens, FoldsPageByPage;
    TokensOfJoined(fold, PageTexts(InOrder(pages)));
  }

  /** The order in which pages arrive does not matter when their numbers differ. */
  lemma ArrivalOrderIrrelevant(pages: seq<Page>, pages': seq<Page>)
    requires multiset(pages) == multiset(pages')
    requires forall a, b :: a in pages && b in pages && a.pageNumber == b.pageNumber ==> a == b
    ensures CombinedText(pages) == CombinedText(pages')
  {
    Sorting.SortPermuted(Before, pages, pages');
  }

  // A hyphen at the end of a page.

  /** Reading a word goes on with the line. */
  lemma {:induction false} ScanWord(brk: Breaker, start: Scan, word: string)
    requires BreaksAtBlanks(brk) && IsWord(brk, word)
    ensures ScanFrom(brk, start, word) ==
            Scan(start.paragraphs, start.line.(current := start.line.current + word), 0)
    decreases |word|
  {
    var front, last := word[..|word| - 1], word[|word| - 1];
    NewlineIsBlank();
    assert !IsBlank(last) && last != '\n';
    hide IsBlank;
    assert front + [last] == word;
    if front == "" {
      assert ScanFrom(brk, start, front) == start;
    } else {
      ScanWord(brk, start, front);
    }
  }

  lemma TwoLines(brk: Breaker, a: string, b: string)
    requires BreaksAtBlanks(brk) && IsWord(brk, a) && IsWord(brk, b)
    ensures ParagraphsOf(brk, a + "\n" + b) == [[a, b]]
  {
    NewlineIsBlank();
    hide ScanFrom, IsBlank, AllWord;
    ScanOn(brk, NOTHING, a + "\n", b);
    ScanOn(brk, NOTHING, a, "\n");
    ScanWord(brk, NOTHING, a);
    assert "" + a == a && "" + b == b && [] + [a] == [a];
    ScanNewline(brk, Scan([], Line([], a), 0));
    ScanWord(brk, Scan([], Line([a], ""), 1), b);
    assert [a] + [b] == [a, b] && [] + [[a, b]] == [[a, b]];
  }

  lemma ScanNewline(brk: Breaker, s: Scan)
    requires brk('\n')
    ensures ScanFrom(brk, s, "\n") == Feed(brk, s, '\n')
  {
    hide Feed;
    var newline := "\n";
    assert newline[..0] == "";
  }

  /** A hyphen that ends the first line takes the line break with it. */
  lemma {:induction false} DehyphenateFirstLine(a: string, rest: string)
    requires NoNewline(a)
    ensures Dehyphenate(a + ("-\n" + rest)) == a + Dehyphenate(SkipTabs(rest))
  {
    hide Dehyphenate, SkipTabs;
    var after := "-\n" + rest;
    DehyphenateBreak(rest);
    if a == "" {
      assert a + after == after;
    } else {
      var tail := a[1..] + after;
      assert a == [a[0]] + a[1..] && a + after == [a[0]] + tail;
      DehyphenateFirstLine(a[1..], rest);
      assert tail[0] != '\n';
      DehyphenatePlain(a[0], tail);
    }
  }

  lemma PlainPageEnd(a: string, b: string)
    requires IsPlain(a) && IsPlain(b)
    ensures IsPlain(a + "-" + PAGE_BREAK + b)
  {
    TablesToAscii();
    var table: Table := SMART_PUNCTUATION + LIGATURES;
    assert ToAscii(table);
    AsciiNotInTable(table, '-');
    AsciiNotInTable(table, FORM_FEED);
    hide InTable;
  }

  lemma {:induction false} NoHyphensIn(s: string)
    requires '\n' !in s
    ensures HyphensBefore('\n', s) == 0
  {
    if |s| >= 2 {
      assert s == [s[0]] + s[1..];
      assert s[1] != '\n';
      NoHyphensIn(s[1..]);
    }
  }

  /** The line passes leave a text without line breaks alone. */
  lemma NoBreaks(s: string)
    requires '\n' !in s && FORM_FEED !in s
    ensures Dehyphenate(s) == s && FormFeeds(s) == s
  {
    hide *;
    NoHyphensIn(s);
    NoHyphensToTake(s);
    NoFormFeeds(s);
  }

  lemma WordHasNoBreaks(brk: Breaker, word: string)
    requires BreaksAtBlanks(brk) && IsWord(brk, word)
    ensures '\n' !in word && FORM_FEED !in word
  {
    NewlineIsBlank();
    assert IsBlank(FORM_FEED);
    hide IsBlank;
  }

  lemma LibraryLinesAtPageEnd(first: string, b: string)
    requires IsWord(IsJsBreak, first) && IsWord(IsJsBreak, b)
    ensures FormFeeds(Dehyphenate(first + PAGE_BREAK + b)) == first + BREAK + b
  {
    hide *;
    JsBreaksAtBlanks();
    WordHasNoBreaks(IsJsBreak, first);
    WordHasNoBreaks(IsJsBreak, b);
    NoBreaks(first);
    NoBreaks(b);
    DehyphenateApart(first, b);
    FormFeedsApart(first, b);
  }

  lemma TwoParagraphsAtPageEnd(first: string, b: string)
    requires IsWord(IsJsBreak, first) && IsWord(IsJsBreak, b)
    ensures ParagraphsOf(IsJsBreak, first + BREAK + b) == [[first], [b]]
  {
    assert BREAK == "\n\n";
    hide *;
    JsBreaksAtBlanks();
    ApartByBlankLine(IsJsBreak, first, b);
    OneWord(IsJsBreak, first);
    OneWord(IsJsBreak, b);
    assert [[first]] + [[b]] == [[first], [b]];
  }

  /** The library keeps the pages apart. */
  lemma LibraryAtPageEnd(first: string, b: string)
    requires IsWord(IsJsBreak, first) && IsWord(IsJsBreak, b)
    ensures NormalText(first + PAGE_BREAK + b) == first + BREAK + b
  {
    hide *;
    NormalTextIsRendered(first + PAGE_BREAK + b);
    LibraryLinesAtPageEnd(first, b);
    TwoParagraphsAtPageEnd(first, b);
    RenderTwo(first, b);
  }

  lemma NewlineFirst(b: string)
    requires Dehyphenate(b) == b
    ensures Dehyphenate(SkipTabs(['\n'] + b)) == ['\n'] + b
  {
    hide Dehyphenate;
    DehyphenatePlain('\n', b);
  }

  lemma HyphenThenBreak(a: string, b: string)
    ensures (a + "-") + BREAK + b == a + ("-\n" + (['\n'] + b))
    ensures a + (['\n'] + b) == a + "\n" + b
  {
  }

  lemma CliLinesAtPageEnd(a: string, b: string)
    requires NoNewline(a) && FORM_FEED !in a && '\n' !in b && FORM_FEED !in b
    ensures Dehyphenate(FormFeeds((a + "-") + PAGE_BREAK + b)) == a + "\n" + b
  {
    assert FORM_FEED !in a + "-";
    hide *;
    FormFeedsApart(a + "-", b);
    NoFormFeeds(a + "-");
    NoBreaks(b);
    HyphenThenBreak(a, b);
    DehyphenateFirstLine(a, ['\n'] + b);
    NewlineFirst(b);
  }

  lemma RenderLine(a: string, b: string)
    ensures Render([[a, b]]) == a + " " + b
  {
    assert Lines([[a, b]]) == [Line1([a, b])];
    assert [a, b] == [a] + [b];
    JoinSnoc([a], b, " ");
  }

  /** The CLI reads the two words as one line. */
  lemma CliAtPageEnd(a: string, b: string)
    requires IsWord(CliNormalizer.IsCliBreak, a) && IsWord(CliNormalizer.IsCliBreak, b)
    ensures CliNormalizer.CliText((a + "-") + PAGE_BREAK + b) == a + " " + b
  {
    hide CliNormalizer.IsCliBreak, CliNormalizer.CliText, Render, ParagraphsOf, FormFeeds, Dehyphenate, AllWord;
    CliNormalizer.CliBreaksAtBlanks();
    WordHasNoBreaks(CliNormalizer.IsCliBreak, a);
    WordHasNoBreaks(CliNormalizer.IsCliBreak, b);
    CliLinesAtPageEnd(a, b);
    CliNormalizer.CliTextIsRendered((a + "-") + PAGE_BREAK + b);
    TwoLines(CliNormalizer.IsCliBreak, a, b);
    RenderLine(a, b);
  }

  /**
    The texts on which the library and the CLI differ: after a hyphen at the end of a page the library
    starts a new paragraph, and the CLI goes on with the line.
    */
  lemma HyphenAtPageEnd(fold: Fold, text: string, a: string, b: string)
    requires IsWord(IsJsBreak, a + "-") && IsWord(IsJsBreak, b) && IsPlain(a) && IsPlain(b)
    requires IsWord(CliNormalizer.IsCliBreak, a) && IsWord(CliNormalizer.IsCliBreak, b)
    requires fold(text) == (a + "-") + PAGE_BREAK + b
    ensures Normalized(fold, text) == (a + "-") + BREAK + b
    ensures CliNormalizer.CliNormalized(fold, text) == a + " " + b
  {
    hide NormalText, CliNormalizer.CliText, Prepared, IsPlain, IsWord;
    PlainPageEnd(a, b);
    PreparedIsPlain(fold(text));
    LibraryAtPageEnd(a + "-", b);
    CliAtPageEnd(a, b);
  }

  // Shingles.

  /** The shingle texts of each page, one after another. */
  function EachShingles(fold: Fold, texts: seq<string>, preset: Preset): seq<string>
    decreases |texts|
  {
    if texts == [] then []
    else
      var last := TokensOf(fold, texts[|texts| - 1]);
      EachShingles(fold, texts[..|texts| - 1], preset) + ShingleTexts(last, preset, |last|)
  }

  lemma {:induction false} ShinglesSum(a: seq<seq<string>>, b: seq<seq<string>>, preset: Preset, n: nat)
    requires n <= |b|
    ensures ShingleTexts(a + b, preset, |a| + n) == ShingleTexts(a, preset, |a|) + ShingleTexts(b, preset, n)
    decreases n
  {
    hide Windows;
    if n == 0 {
      FrontShingles(a, b, preset, |a|);
      assert ShingleTexts(a, preset, |a|) + [] == ShingleTexts(a, preset, |a|);
    } else {
      ShinglesSum(a, b, preset, n - 1);
      assert (a + b)[|a| + n - 1] == b[n - 1];
    }
  }

  lemma {:induction false} FrontShingles(a: seq<seq<string>>, b: seq<seq<string>>, preset: Preset, n: nat)
    requires n <= |a|
    ensures ShingleTexts(a + b, preset, n) == ShingleTexts(a, preset, n)
    decreases n
  {
    hide Windows;
    if n > 0 {
      FrontShingles(a, b, preset, n - 1);
    }
  }

  lemma {:induction false} ShinglesOfEach(fold: Fold, texts: seq<string>, preset: Preset)
    ensures var tokens := EachTokens(fold, texts);
            ShingleTexts(tokens, preset, |tokens|) == EachShingles(fold, texts, preset)
    decreases |texts|
  {
    hide TokensOf;
    if texts != [] {
      var front, last := texts[..|texts| - 1], TokensOf(fold, texts[|texts| - 1]);
      ShinglesOfEach(fold, front, preset);
      ShinglesSum(EachTokens(fold, front), last, preset, |last|);
    }
  }

  /** No shingle spans two pages: the document's shingles are its pages' shingles. */
  lemma NoShingleSpansPages(fold: Fold, pages: seq<Page>, preset: Preset)
    requires FoldsPageByPage(fold)
    ensures var tokens := TokensOf(fold, CombinedText(pages));
            ShingleTexts(tokens, preset, |tokens|) == EachShingles(fold, PageTexts(InOrder(pages)), preset)
  {
    hide TokensOf, EachTokens, EachShingles, ShingleTexts, FoldsPageByPage, InOrder;
    PagesDoNotMix(fold, pages);
    ShinglesOfEach(fold, PageTexts(InOrder(pages)), preset);
  }

  // The order of pages, and pages that failed.

  /** Pages stand in the order of their numbers, each as often as it was given. */
  lemma PagesInOrder(pages: seq<Page>, i: nat, j: nat)
    requires i < j < |InOrder(pages)|
    ensures InOrder(pages)[i].pageNumber <= InOrder(pages)[j].pageNumber
    ensures multiset(InOrder(pages)) == multiset(pages)
  {
    PageOrder();
    Sorting.SortSorts(Before, pages);
    Sorting.SortKeeps(Before, pages);
    assert !Before(InOrder(pages)[j], InOrder(pages)[i]);
  }

  lemma PageOrder()
    ensures Sorting.StrictOrder(Before)
  {
  }

  /** A page that failed has no paragraphs, whatever its text; another one those of its text. */
  lemma FailedPageIsEmpty(fold: Fold, page: Page)
    requires FoldsPageByPage(fold)
    ensures TokensOf(fold, PageText(page)) == if page.failed then [] else TokensOf(fold, page.text)
  {
    NoTokens(fold);
    hide TokensOf, FoldsPageByPage;
    assert Join([], PAGE_BREAK) == "";
  }
}
