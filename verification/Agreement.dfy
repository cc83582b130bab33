/** Exactly when the CLI and the library normalise a text alike. */
module Agreement {
  import opened Words
  import opened Paragraphs
  import opened Tokenizer
  import opened Normalizer
  import opened NormalForm
  import opened CliNormalizer

  /** How often a hyphen stands right before c. */
  function HyphensBefore(c: char, s: string): nat {
    if |s| < 2 then 0 else (if s[0] == '-' && s[1] == c then 1 else 0) + HyphensBefore(c, s[1..])
  }

  // Form feeds and line-end hyphens.

  lemma ReplaceCons(c: char, s: string, from: char, to: string)
    ensures Replace([c] + s, from, to) == (if c == from then to else [c]) + Replace(s, from, to)
  {
    assert ([c] + s)[1..] == s;
  }

  lemma {:induction false} SkipTabsFormFeeds(s: string)
    ensures SkipTabs(FormFeeds(s)) == FormFeeds(SkipTabs(s))
  {
    if s != "" {
      ReplaceCons(s[0], s[1..], FORM_FEED, BREAK);
      assert s == [s[0]] + s[1..];
      if s[0] == ' ' || s[0] == '\t' {
        SkipTabsFormFeeds(s[1..]);
        assert FormFeeds(s)[1..] == FormFeeds(s[1..]);
      }
    }
  }

  lemma DehyphenatePlain(c: char, s: string)
    requires c != '-' || s == "" || s[0] != '\n'
    ensures Dehyphenate([c] + s) == [c] + Dehyphenate(s)
  {
    assert ([c] + s)[1..] == s;
  }

  lemma DehyphenateBreak(s: string)
    ensures Dehyphenate("-\n" + s) == Dehyphenate(SkipTabs(s))
  {
    assert ("-\n" + s)[2..] == s;
  }

  lemma DehyphenateNewlines(s: string)
    ensures Dehyphenate(BREAK + s) == BREAK + Dehyphenate(s)
  {
    hide Dehyphenate;
    assert BREAK + s == ['\n'] + (['\n'] + s);
    DehyphenatePlain('\n', ['\n'] + s);
    DehyphenatePlain('\n', s);
    assert ['\n'] + (['\n'] + Dehyphenate(s)) == BREAK + Dehyphenate(s);
  }

  lemma {:induction false} SkipTabsHyphens(c: char, s: string)
    requires c != ' ' && c != '\t'
    ensures HyphensBefore(c, SkipTabs(s)) == HyphensBefore(c, s)
  {
    if s != "" && (s[0] == ' ' || s[0] == '\t') {
      SkipTabsHyphens(c, s[1..]);
    }
  }

  /** The order of the two passes matters only for a hyphen right before a form feed. */
  lemma {:induction false} PassesCommute(s: string)
    requires HyphensBefore(FORM_FEED, s) == 0
    ensures Dehyphenate(FormFeeds(s)) == FormFeeds(Dehyphenate(s))
    decreases |s|
  {
    if s != "" {
      var c, rest := s[0], s[1..];
      assert s == [c] + rest;
      if c == '-' && rest != "" && rest[0] == '\n' {
        CommuteAtBreak(s);
      } else {
        assert HyphensBefore(FORM_FEED, rest) == 0;
        PassesCommute(rest);
        CommuteElsewhere(c, rest);
      }
    }
  }

  lemma {:induction false} CommuteAtBreak(s: string)
    requires |s| >= 2 && s[0] == '-' && s[1] == '\n' && HyphensBefore(FORM_FEED, s) == 0
    ensures Dehyphenate(FormFeeds(s)) == FormFeeds(Dehyphenate(s))
    decreases |s|, 0
  {
    var rest := s[2..];
    assert s == "-\n" + rest;
    assert s[1..][1..] == rest;
    assert HyphensBefore(FORM_FEED, rest) == 0;
    SkipTabsHyphens(FORM_FEED, rest);
    assert s == ['-'] + (['\n'] + rest);
    ReplaceCons('-', ['\n'] + rest, FORM_FEED, BREAK);
    ReplaceCons('\n', rest, FORM_FEED, BREAK);
    assert FormFeeds(s) == "-\n" + FormFeeds(rest);
    hide Dehyphenate, SkipTabs, Replace, HyphensBefore;
    DehyphenateBreak(rest);
    DehyphenateBreak(FormFeeds(rest));
    SkipTabsFormFeeds(rest);
    PassesCommute(SkipTabs(rest));
  }

  lemma CommuteElsewhere(c: char, rest: string)
    requires Dehyphenate(FormFeeds(rest)) == FormFeeds(Dehyphenate(rest))
    requires !(c == '-' && rest != "" && (rest[0] == '\n' || rest[0] == FORM_FEED))
    ensures Dehyphenate(FormFeeds([c] + rest)) == FormFeeds(Dehyphenate([c] + rest))
  {
    hide Dehyphenate, Replace;
    ReplaceCons(c, rest, FORM_FEED, BREAK);
    DehyphenatePlain(c, rest);
    ReplaceCons(c, Dehyphenate(rest), FORM_FEED, BREAK);
    if c == FORM_FEED {
      DehyphenateNewlines(FormFeeds(rest));
    } else {
      FormFeedsStart(rest);
      DehyphenatePlain(c, FormFeeds(rest));
    }
  }

  lemma FormFeedsStart(s: string)
    ensures FormFeeds(s) == "" <==> s == ""
    ensures s != "" && s[0] != FORM_FEED ==> FormFeeds(s)[0] == s[0]
  {
  }

  // Counting.

  lemma CountCons(c: char, first: char, s: string)
    ensures Count(c, [first] + s) == (if first == c then 1 else 0) + Count(c, s)
  {
    hide Count;
    CountSum(c, [first], s);
    CountSnoc(c, "", first);
    NothingToCount(c);
    assert "" + [first] == [first];
  }

  lemma {:induction false} SkipTabsCounts(c: char, s: string)
    requires c != ' ' && c != '\t'
    ensures Count(c, SkipTabs(s)) == Count(c, s)
  {
    if s != "" && (s[0] == ' ' || s[0] == '\t') {
      hide Count;
      SkipTabsCounts(c, s[1..]);
      CountCons(c, s[0], s[1..]);
      assert s == [s[0]] + s[1..];
    }
  }

  /** Dehyphenating takes away the hyphens that end a line, and no other character but breaks and blanks. */
  lemma {:induction false} DehyphenateCounts(c: char, s: string)
    requires c != ' ' && c != '\t' && c != '\n'
    ensures Count(c, Dehyphenate(s)) + (if c == '-' then HyphensBefore('\n', s) else 0) == Count(c, s)
    decreases |s|
  {
    if |s| >= 2 {
      hide Count;
      var rest := s[1..];
      assert s == [s[0]] + rest;
      CountCons(c, s[0], rest);
      if s[0] == '-' && s[1] == '\n' {
        var after := s[2..];
        assert rest == ['\n'] + after && rest[1..] == after;
        CountCons(c, '\n', after);
        SkipTabsCounts(c, after);
        SkipTabsHyphens('\n', after);
        DehyphenateCounts(c, SkipTabs(after));
      } else {
        DehyphenateCounts(c, rest);
        CountCons(c, s[0], Dehyphenate(rest));
      }
    }
  }

  lemma {:induction false} FormFeedsCount(c: char, s: string)
    requires c != FORM_FEED && c != '\n'
    ensures Count(c, FormFeeds(s)) == Count(c, s)
  {
    if s != "" {
      hide Count;
      FormFeedsCount(c, s[1..]);
      CountCons(c, s[0], s[1..]);
      assert s == [s[0]] + s[1..];
      if s[0] == FORM_FEED {
        CountSum(c, BREAK, FormFeeds(s[1..]));
        BreakCounts(c);
      } else {
        CountCons(c, s[0], FormFeeds(s[1..]));
      }
    }
  }

  lemma BreakCounts(c: char)
    requires c != '\n'
    ensures Count(c, BREAK) == 0
  {
    assert BREAK == "\n" + ['\n'] && "\n" == "" + ['\n'];
    CountSnoc(c, "\n", '\n');
    CountSnoc(c, "", '\n');
  }

  /** Hyphens before a newline once form feeds are newlines. */
  lemma {:induction false} FormFeedsHyphens(s: string)
    ensures HyphensBefore('\n', FormFeeds(s)) == HyphensBefore('\n', s) + HyphensBefore(FORM_FEED, s)
  {
    if |s| == 1 {
      assert s == [s[0]] + "";
      ReplaceCons(s[0], "", FORM_FEED, BREAK);
      assert FormFeeds(s) == if s[0] == FORM_FEED then BREAK else [s[0]];
      assert BREAK[1..] == "\n";
    } else if |s| >= 2 {
      var rest := s[1..];
      FormFeedsHyphens(rest);
      FormFeedsStart(rest);
      var text := FormFeeds(rest);
      if s[0] == FORM_FEED {
        assert FormFeeds(s) == BREAK + text;
        assert (BREAK + text)[1..] == ['\n'] + text && (['\n'] + text)[1..] == text;
      } else {
        assert FormFeeds(s) == [s[0]] + text;
        assert ([s[0]] + text)[1..] == text;
        assert rest[0] == FORM_FEED ==> text[0] == '\n';
      }
    }
  }

  // Agreement.

  /** Nothing on which the two differ. */
  predicate IsCommonText(prepared: string) {
    HyphensBefore(FORM_FEED, prepared) == 0 && BYTE_ORDER_MARK !in prepared && NEXT_LINE !in prepared
  }

  lemma {:induction false} CountIn(c: char, s: string)
    ensures Count(c, s) == 0 <==> c !in s
    decreases |s|
  {
    if s != "" {
      CountIn(c, s[..|s| - 1]);
      assert s == s[..|s| - 1] + [s[|s| - 1]];
    }
  }

  lemma LibraryCounts(prepared: string, c: char)
    requires !IsJsBreak(c)
    ensures Count(c, NormalText(prepared)) + (if c == '-' then HyphensBefore('\n', prepared) else 0) == Count(c, prepared)
  {
    BlanksBreak(c);
    hide IsJsBreak, Count, CountParagraphs, Dehyphenate, Replace, NormalText, ParagraphsOf, Render;
    JsBreaksAtBlanks();
    var text := FormFeeds(Dehyphenate(prepared));
    NormalTextIsRendered(prepared);
    CountRendered(c, ParagraphsOf(IsJsBreak, text));
    ParagraphsCount(IsJsBreak, text, c);
    FormFeedsCount(c, Dehyphenate(prepared));
    DehyphenateCounts(c, prepared);
  }

  lemma CliCounts(prepared: string, c: char)
    requires !IsCliBreak(c)
    ensures Count(c, CliText(prepared))
            + (if c == '-' then HyphensBefore('\n', prepared) + HyphensBefore(FORM_FEED, prepared) else 0)
            == Count(c, prepared)
  {
    BlanksBreak(c);
    hide IsCliBreak, Count, CountParagraphs, Dehyphenate, Replace, CliText, ParagraphsOf, Render;
    CliBreaksAtBlanks();
    var text := Dehyphenate(FormFeeds(prepared));
    CliTextIsRendered(prepared);
    CountRendered(c, ParagraphsOf(IsCliBreak, text));
    ParagraphsCount(IsCliBreak, text, c);
    DehyphenateCounts(c, FormFeeds(prepared));
    FormFeedsCount(c, prepared);
    FormFeedsHyphens(prepared);
  }

  lemma BlanksBreak(c: char)
    ensures IsBlank(c) ==> IsJsBreak(c) && IsCliBreak(c)
    ensures c == ' ' || c == '\n' || c == '\t' || c == FORM_FEED ==> IsBlank(c)
  {
  }

  /** A break of the library's is in no word of its text. */
  lemma LibraryDropsBreaks(prepared: string, c: char)
    requires IsJsBreak(c) && c != ' ' && c != '\n'
    ensures Count(c, NormalText(prepared)) == 0
  {
    hide IsJsBreak, NormalText, ParagraphsOf, Render, Count, CountParagraphs, AreParagraphs, Dehyphenate, Replace;
    var text := FormFeeds(Dehyphenate(prepared));
    NormalTextIsRendered(prepared);
    ParagraphsAreOk(IsJsBreak, text);
    CountRendered(c, ParagraphsOf(IsJsBreak, text));
    NotInParagraphs(IsJsBreak, ParagraphsOf(IsJsBreak, text), c);
  }

  lemma CliDropsBreaks(prepared: string, c: char)
    requires IsCliBreak(c) && c != ' ' && c != '\n'
    ensures Count(c, CliText(prepared)) == 0
  {
    hide IsCliBreak, CliText, ParagraphsOf, Render, Count, CountParagraphs, AreParagraphs, Dehyphenate, Replace;
    var text := Dehyphenate(FormFeeds(prepared));
    CliTextIsRendered(prepared);
    ParagraphsAreOk(IsCliBreak, text);
    CountRendered(c, ParagraphsOf(IsCliBreak, text));
    NotInParagraphs(IsCliBreak, ParagraphsOf(IsCliBreak, text), c);
  }

  lemma {:induction false} NotInWords(brk: Breaker, words: seq<string>, c: char)
    requires AreWords(brk, words) && brk(c)
    ensures CountWords(c, words) == 0
    decreases |words|
  {
    if words != [] {
      hide Count;
      NotInWords(brk, words[..|words| - 1], c);
      var last := words[|words| - 1];
      assert IsWord(brk, last);
      assert c !in last;
      CountIn(c, last);
    }
  }

  lemma {:induction false} NotInParagraphs(brk: Breaker, paragraphs: seq<seq<string>>, c: char)
    requires AreParagraphs(brk, paragraphs) && brk(c)
    ensures CountParagraphs(c, paragraphs) == 0
    decreases |paragraphs|
  {
    if paragraphs != [] {
      hide AreWords, CountWords;
      NotInParagraphs(brk, paragraphs[..|paragraphs| - 1], c);
      assert AreWords(brk, paragraphs[|paragraphs| - 1]);
      NotInWords(brk, paragraphs[|paragraphs| - 1], c);
    }
  }

  lemma SameBreaks(c: char)
    requires c != BYTE_ORDER_MARK && c != NEXT_LINE
    ensures IsJsBreak(c) <==> IsCliBreak(c)
  {
    hide IsPunctuation;
  }

  lemma CommonTextAgrees(prepared: string)
    requires IsCommonText(prepared)
    ensures CliText(prepared) == NormalText(prepared)
  {
    hide NormalText, CliText, ScanFrom, Render, Count, Dehyphenate, Replace, HyphensBefore, IsJsBreak, IsCliBreak;
    var text := FormFeeds(Dehyphenate(prepared));
    PassesCommute(prepared);
    NormalTextIsRendered(prepared);
    CliTextIsRendered(prepared);
    Keeps(BYTE_ORDER_MARK, prepared);
    Keeps(NEXT_LINE, prepared);
    forall i | 0 <= i < |text| ensures IsJsBreak(text[i]) == IsCliBreak(text[i]) {
      SameBreaks(text[i]);
    }
    SameScan(IsJsBreak, IsCliBreak, text);
  }

  lemma Keeps(c: char, prepared: string)
    requires c == BYTE_ORDER_MARK || c == NEXT_LINE
    ensures c in prepared <==> c in FormFeeds(Dehyphenate(prepared))
  {
    hide Count, Dehyphenate, Replace;
    CountIn(c, prepared);
    CountIn(c, FormFeeds(Dehyphenate(prepared)));
    FormFeedsCount(c, Dehyphenate(prepared));
    DehyphenateCounts(c, prepared);
  }

  lemma PunctuationRange(c: char)
    requires IsPunctuation(c)
    ensures '!' <= c <= '~' && c != '-'
  {
  }

  lemma SpecialBreaks()
    ensures IsJsBreak(BYTE_ORDER_MARK) && !IsCliBreak(BYTE_ORDER_MARK)
    ensures !IsJsBreak(NEXT_LINE) && IsCliBreak(NEXT_LINE)
    ensures !IsJsBreak('-') && !IsCliBreak('-')
  {
    forall c | IsPunctuation(c) ensures '!' <= c <= '~' && c != '-' {
      PunctuationRange(c);
    }
    hide IsPunctuation;
  }

  /**
    The CLI and the library normalise a text alike exactly when its prepared form has no hyphen right
    before a form feed, no U+FEFF (white space for JavaScript alone) and no U+0085 (white space for Rust alone).
    */
  lemma AgreeExactly(fold: Fold, text: string)
    ensures CliNormalized(fold, text) == Normalized(fold, text) <==> IsCommonText(Prepared(fold(text)))
  {
    hide NormalText, CliText, Count, HyphensBefore, IsJsBreak, IsCliBreak, Prepared;
    SpecialBreaks();
    var prepared := Prepared(fold(text));
    if IsCommonText(prepared) {
      CommonTextAgrees(prepared);
    } else if BYTE_ORDER_MARK in prepared {
      LibraryDropsBreaks(prepared, BYTE_ORDER_MARK);
      CliCounts(prepared, BYTE_ORDER_MARK);
      CountIn(BYTE_ORDER_MARK, prepared);
    } else if NEXT_LINE in prepared {
      CliDropsBreaks(prepared, NEXT_LINE);
      LibraryCounts(prepared, NEXT_LINE);
      CountIn(NEXT_LINE, prepared);
    } else {
      LibraryCounts(prepared, '-');
      CliCounts(prepared, '-');
    }
  }
}
