/** Normalising normalised text. */
module SecondPass {
  import opened Words
  import opened Paragraphs
  import opened Tokenizer
  import opened Normalizer
  import opened NormalForm
  import opened Agreement

  /** A text without newlines is one line of words. */
  lemma {:induction false} ScanLine(brk: Breaker, s: string)
    requires NoNewline(s)
    ensures var scan := ScanFrom(brk, NOTHING, s); scan.paragraphs == [] && scan.line == LineOf(brk, s)
    decreases |s|
  {
    if s != "" {
      hide FeedLine;
      assert s[|s| - 1] != '\n';
      ScanLine(brk, s[..|s| - 1]);
    }
  }

  lemma OneLine(brk: Breaker, words: seq<string>)
    requires BreaksAtSpace(brk) && AreWords(brk, words) && words != []
    ensures ParagraphsOf(brk, Line1(words)) == [words]
  {
    hide AreWords, NoNewline, LineOf, ScanFrom;
    LineHasNoNewline(brk, words);
    ScanLine(brk, Line1(words));
    WordsOfJoined(brk, words);
  }

  /** Scanning rendered paragraphs finds them again. */
  lemma {:induction false} ScanRendered(brk: Breaker, paragraphs: seq<seq<string>>)
    requires BreaksAtBlanks(brk) && BreaksAtSpace(brk) && AreParagraphs(brk, paragraphs)
    ensures ParagraphsOf(brk, Render(paragraphs)) == paragraphs
    decreases |paragraphs|
  {
    hide AreWords, Line1, ParagraphsOf;
    if paragraphs == [] {
      NothingScanned(brk);
    } else {
      var front, last := paragraphs[..|paragraphs| - 1], paragraphs[|paragraphs| - 1];
      assert AreWords(brk, last) && last != [];
      OneLine(brk, last);
      assert paragraphs == front + [last];
      if front == [] {
        assert Lines(paragraphs) == [] + [Line1(last)];
      } else {
        ScanRendered(brk, front);
        JoinSnoc(Lines(front), Line1(last), BREAK);
        ApartByBlankLine(brk, Render(front), Line1(last));
      }
    }
  }

  lemma NothingScanned(brk: Breaker)
    ensures ParagraphsOf(brk, Render([])) == []
  {
  }

  lemma {:induction false} NoHyphensToTake(s: string)
    requires HyphensBefore('\n', s) == 0
    ensures Dehyphenate(s) == s
  {
    if |s| >= 2 {
      assert s[1..][0] == s[1];
      NoHyphensToTake(s[1..]);
    }
  }

  lemma {:induction false} NoFormFeeds(s: string)
    requires FORM_FEED !in s
    ensures FormFeeds(s) == s
  {
    if s != "" {
      assert s[0] != FORM_FEED;
      NoFormFeeds(s[1..]);
    }
  }

  /** A rendered text is left alone by the line passes when no paragraph but the last ends in a hyphen. */
  lemma RenderedAgain(paragraphs: seq<seq<string>>)
    requires AreParagraphs(IsJsBreak, paragraphs)
    ensures var s := Render(paragraphs); HyphensBefore('\n', s) == 0 ==> NormalText(s) == s
  {
    hide NormalText, ParagraphsOf, Render, AreParagraphs, Count, HyphensBefore, Dehyphenate, Replace, IsJsBreak, CountParagraphs;
    var s := Render(paragraphs);
    if HyphensBefore('\n', s) == 0 {
      FeedsBreak();
      CountRendered(FORM_FEED, paragraphs);
      NotInParagraphs(IsJsBreak, paragraphs, FORM_FEED);
      CountIn(FORM_FEED, s);
      NoHyphensToTake(s);
      NoFormFeeds(s);
      NormalTextIsRendered(s);
      JsBreaksAtBlanks();
      ScanRendered(IsJsBreak, paragraphs);
    }
  }

  // Characters that the first pass takes away for good.

  predicate InTable(table: Table, c: char) {
    exists i :: 0 <= i < |table| && table[i].0 == c
  }

  /** What the tables replace or the soft hyphen pass removes. */
  predicate IsReplaced(c: char) {
    c == SOFT_HYPHEN || InTable(SMART_PUNCTUATION + LIGATURES, c)
  }

  predicate IsPlain(s: string) {
    forall i :: 0 <= i < |s| ==> !IsReplaced(s[i])
  }

  lemma InTableStep(table: Table, c: char)
    requires table != []
    ensures InTable(table, c) <==> table[0].0 == c || InTable(table[1..], c)
  {
    forall i | 0 <= i < |table| - 1 ensures table[1..][i] == table[i + 1] {
    }
    assert InTable(table[1..], c) <==> exists i :: 1 <= i < |table| && table[i].0 == c by {
      if i :| 1 <= i < |table| && table[i].0 == c {
        assert table[1..][i - 1].0 == c;
      }
    }
  }

  lemma {:induction false} MappedMeans(table: Table, c: char)
    requires ToAscii(table)
    ensures !InTable(table, c) ==> Mapped(table, c) == [c]
    ensures InTable(table, c) ==> IsAscii(Mapped(table, c))
    decreases |table|
  {
    if table != [] {
      MappedMeans(table[1..], c);
      InTableStep(table, c);
      hide InTable;
    }
  }

  lemma AsciiNotInTable(table: Table, c: char)
    requires ToAscii(table) && c < '\U{0080}'
    ensures !InTable(table, c)
  {
  }

  lemma {:induction false} SubstitutedIsMapped(table: Table, s: string)
    requires ToAscii(table)
    ensures forall i :: 0 <= i < |Substitute(table, s)| ==> !InTable(table, Substitute(table, s)[i])
    ensures (forall i :: 0 <= i < |s| ==> !InTable(table, s[i])) ==> Substitute(table, s) == s
  {
    if s != "" {
      hide ToAscii, InTable;
      SubstitutedIsMapped(table, s[1..]);
      MappedMeans(table, s[0]);
      var first := Mapped(table, s[0]);
      forall i | 0 <= i < |first| ensures !InTable(table, first[i]) {
        if InTable(table, s[0]) {
          AsciiNotInTable(table, first[i]);
        }
      }
    }
  }

  lemma {:induction false} ReplacedIsGone(s: string, from: char)
    ensures forall i :: 0 <= i < |Replace(s, from, "")| ==> Replace(s, from, "")[i] in s && Replace(s, from, "")[i] != from
    ensures from !in s ==> Replace(s, from, "") == s
  {
    if s != "" {
      ReplacedIsGone(s[1..], from);
      assert s == [s[0]] + s[1..];
      var rest := Replace(s[1..], from, "");
      assert Replace(s, from, "") == (if s[0] == from then "" else [s[0]]) + rest;
    }
  }

  /** Preparing a text replaces every such character, and does nothing else. */
  lemma PreparedIsPlain(s: string)
    ensures IsPlain(Prepared(s))
    ensures IsPlain(s) ==> Prepared(s) == s
  {
    TablesToAscii();
    var table: Table := SMART_PUNCTUATION + LIGATURES;
    assert ToAscii(table);
    hide Substitute, Replace, ToAscii, InTable;
    SubstitutedIsMapped(table, s);
    ReplacedIsGone(Substitute(table, s), SOFT_HYPHEN);
  }

  lemma ReplacedIsInk(c: char)
    requires IsReplaced(c)
    ensures !IsJsBreak(c) && c != '-'
  {
    assert c >= '\U{0080}' && c != '\U{FEFF}';
    if IsPunctuation(c) {
      PunctuationRange(c);
    }
    hide IsPunctuation;
  }

  /** The line passes bring none of them back. */
  lemma NormalStaysPlain(prepared: string)
    requires IsPlain(prepared)
    ensures IsPlain(NormalText(prepared))
  {
    hide NormalText, IsReplaced, Count, HyphensBefore, IsJsBreak;
    var s := NormalText(prepared);
    forall i | 0 <= i < |s| ensures !IsReplaced(s[i]) {
      if IsReplaced(s[i]) {
        ReplacedIsInk(s[i]);
        LibraryCounts(prepared, s[i]);
        CountIn(s[i], s);
        CountIn(s[i], prepared);
      }
    }
  }

  /**
    Folding a text keeps its paragraphs and words apart, makes no new hyphens and none of the characters
    that are replaced: it changes letters only.
    */
  ghost predicate ChangesLettersOnly(fold: Fold, s: string) {
    && IsPlain(fold(s)) && Count('-', fold(s)) == Count('-', s)
    && exists paragraphs :: AreParagraphs(IsJsBreak, paragraphs) && fold(s) == Render(paragraphs)
  }

  lemma NormalizedIsStable(fold: Fold, raw: string)
    requires fold(Normalized(fold, raw)) == Normalized(fold, raw)
    ensures ChangesLettersOnly(fold, Normalized(fold, raw))
  {
    hide NormalText, Prepared, Count, ParagraphsOf, Render, AreParagraphs, IsJsBreak, IsPlain, Dehyphenate, Replace;
    var prepared := Prepared(fold(raw));
    PreparedIsPlain(fold(raw));
    NormalStaysPlain(prepared);
    NormalTextIsRendered(prepared);
    JsBreaksAtBlanks();
    ParagraphsAreOk(IsJsBreak, FormFeeds(Dehyphenate(prepared)));
  }

  /**
    Normalising is not idempotent. A second pass over the normalised text changes nothing exactly when
    folding leaves that text alone and no paragraph but the last ends in a hyphen.
    */
  lemma SecondPassExactly(fold: Fold, raw: string)
    ensures var once := Normalized(fold, raw);
            fold(once) == once ==>
              (Normalized(fold, once) == once <==> HyphensBefore('\n', once) == 0)
    ensures var once := Normalized(fold, raw);
            ChangesLettersOnly(fold, once) ==>
              (Normalized(fold, once) == once <==> fold(once) == once && HyphensBefore('\n', once) == 0)
  {
    hide Normalized, ChangesLettersOnly, HyphensBefore;
    var once := Normalized(fold, raw);
    if fold(once) == once {
      NormalizedIsStable(fold, raw);
    }
    if ChangesLettersOnly(fold, once) {
      SecondPassOver(fold, once);
    }
  }

  lemma SecondPassOver(fold: Fold, once: string)
    requires ChangesLettersOnly(fold, once)
    ensures Normalized(fold, once) == once <==> fold(once) == once && HyphensBefore('\n', once) == 0
  {
    hide NormalText, Prepared, Count, Render, AreParagraphs, IsJsBreak, IsPlain, HyphensBefore;
    var s := fold(once);
    PreparedIsPlain(s);
    var paragraphs :| AreParagraphs(IsJsBreak, paragraphs) && s == Render(paragraphs);
    RenderedAgain(paragraphs);
    SpecialBreaks();
    LibraryCounts(s, '-');
  }

  lemma FeedsBreak()
    ensures IsJsBreak(FORM_FEED) && FORM_FEED != ' ' && FORM_FEED != '\n'
  {
  }

  predicate HyphenAt(c: char, s: string, i: nat) {
    i + 1 < |s| && s[i] == '-' && s[i + 1] == c
  }

  lemma {:induction false} HyphensBeforeMeans(c: char, s: string)
    ensures HyphensBefore(c, s) == 0 <==> forall i: nat :: !HyphenAt(c, s, i)
  {
    if |s| >= 2 {
      var rest := s[1..];
      HyphensBeforeMeans(c, rest);
      forall i: nat ensures HyphenAt(c, rest, i) <==> HyphenAt(c, s, i + 1) {
      }
      forall i: nat | i > 0 ensures HyphenAt(c, s, i) <==> HyphenAt(c, rest, i - 1) {
      }
      assert HyphenAt(c, s, 0) <==> s[0] == '-' && s[1] == c;
    }
  }

  lemma OneWord(brk: Breaker, a: string)
    requires BreaksAtSpace(brk) && IsWord(brk, a)
    ensures ParagraphsOf(brk, a) == [[a]]
  {
    OneLine(brk, [a]);
    assert Line1([a]) == a;
  }

  lemma WordLine(brk: Breaker, a: string)
    requires brk('\t') && IsWord(brk, a)
    ensures LineOf(brk, a + "\t") == Line([a], "")
  {
    hide LineOf, AllWord;
    EmptyLine(brk);
    LineWord(brk, "", a);
    assert "" + a == a;
    assert a + "\t" == a + ['\t'];
    LineSnoc(brk, a, '\t');
    assert [] + [a] == [a];
  }

  lemma WordThenTab(brk: Breaker, a: string)
    requires brk('\t') && brk('\n') && IsWord(brk, a)
    ensures ParagraphsOf(brk, a + "\t") == [[a]]
  {
    assert NoNewline(a + "\t");
    hide LineOf, ScanFrom, NoNewline, IsWord, AllWord;
    ScanLine(brk, a + "\t");
    WordLine(brk, a);
    assert [] + [[a]] == [[a]];
  }

  lemma RenderTwo(a: string, b: string)
    ensures Render([[a], [b]]) == a + BREAK + b
  {
    var lines := Lines([[a], [b]]);
    assert lines == [a] + [b] by {
      assert Line1([a]) == a && Line1([b]) == b;
    }
    JoinSnoc([a], b, BREAK);
    assert Join([a], BREAK) == a;
  }

  /** A hyphen before a tab does not end a line. */
  lemma NoHyphenBreaks(a: string, b: string)
    requires IsWord(IsJsBreak, a) && IsWord(IsJsBreak, b)
    ensures HyphensBefore('\n', a + "\t" + BREAK + b) == 0
    ensures FORM_FEED !in a + "\t" + BREAK + b
  {
    assert IsJsBreak('\n') && IsJsBreak(FORM_FEED);
    hide IsJsBreak;
    var s := a + "\t" + BREAK + b;
    HyphensBeforeMeans('\n', s);
    forall i: nat ensures !HyphenAt('\n', s, i) {
      if i + 1 < |s| && s[i + 1] == '\n' {
        assert i + 1 == |a| + 1 || i + 1 == |a| + 2;
      }
    }
  }

  lemma HyphenBreaks(a: string, b: string)
    requires a != "" && a[|a| - 1] == '-'
    ensures HyphensBefore('\n', a + BREAK + b) != 0
  {
    HyphensBeforeMeans('\n', a + BREAK + b);
    assert HyphenAt('\n', a + BREAK + b, |a| - 1);
  }

  lemma TabBreaks()
    ensures IsJsBreak('\t') && IsJsBreak('\n')
  {
  }

  lemma TwoParagraphs(a: string, b: string)
    requires IsWord(IsJsBreak, a) && IsWord(IsJsBreak, b)
    ensures ParagraphsOf(IsJsBreak, a + "\t" + BREAK + b) == [[a], [b]]
  {
    assert BREAK == "\n\n";
    hide *;
    TabBreaks();
    JsBreaksAtBlanks();
    WordThenTab(IsJsBreak, a);
    OneWord(IsJsBreak, b);
    ApartByBlankLine(IsJsBreak, a + "\t", b);
    assert [[a]] + [[b]] == [[a], [b]];
  }

  lemma FirstPassKeeps(a: string, b: string)
    requires IsWord(IsJsBreak, a) && IsWord(IsJsBreak, b)
    ensures NormalText(a + "\t" + BREAK + b) == a + BREAK + b
  {
    hide *;
    var prepared := a + "\t" + BREAK + b;
    NoHyphenBreaks(a, b);
    NoHyphensToTake(prepared);
    NoFormFeeds(prepared);
    NormalTextIsRendered(prepared);
    TwoParagraphs(a, b);
    RenderTwo(a, b);
  }

  lemma WordsArePlain(a: string, b: string)
    requires IsPlain(a) && IsPlain(b)
    ensures IsPlain(a + "\t" + BREAK + b)
  {
    var tables := SMART_PUNCTUATION + LIGATURES;
    TablesToAscii();
    assert ToAscii(tables);
    hide SMART_PUNCTUATION, LIGATURES;
    AsciiNotInTable(tables, '\t');
    AsciiNotInTable(tables, '\n');
    hide InTable;
  }

  /** The failing family: a hyphen before blanks ends a paragraph on the first pass and is taken away on the second. */
  lemma HyphenLostOnSecondPass(fold: Fold, raw: string, a: string, b: string)
    requires IsWord(IsJsBreak, a) && IsPlain(a) && a[|a| - 1] == '-' && IsWord(IsJsBreak, b) && IsPlain(b)
    requires fold(raw) == a + "\t" + BREAK + b && fold(a + BREAK + b) == a + BREAK + b
    ensures Normalized(fold, raw) == a + BREAK + b && Normalized(fold, a + BREAK + b) != a + BREAK + b
  {
    hide NormalText, IsJsBreak, HyphensBefore, AllWord, IsPlain, Prepared;
    FirstPassKeeps(a, b);
    WordsArePlain(a, b);
    PreparedIsPlain(fold(raw));
    HyphenBreaks(a, b);
    SecondPassExactly(fold, raw);
  }

  lemma WordStays(a: string)
    requires IsWord(IsJsBreak, a) && HyphensBefore('\n', a) == 0
    ensures NormalText(a) == a
  {
    hide NormalText, IsJsBreak, AllWord, HyphensBefore;
    assert AreWords(IsJsBreak, [a]);
    RenderedAgain([[a]]);
    assert Lines([[a]]) == [a] by {
      assert Line1([a]) == a;
    }
  }

  lemma LetterIsInk()
    ensures !IsPunctuation('j')
  {
  }

  lemma CaronInk(c: char)
    requires c == 'j' || c == '\U{030C}' || c == '\U{01F0}'
    ensures !IsJsBreak(c) && !IsReplaced(c)
  {
    LetterIsInk();
    if IsPunctuation(c) {
      PunctuationRange(c);
    }
    hide IsPunctuation;
  }

  lemma CaronWord(a: string)
    requires a != "" && forall i :: 0 <= i < |a| ==> a[i] == 'j' || a[i] == '\U{030C}' || a[i] == '\U{01F0}'
    ensures IsWord(IsJsBreak, a) && IsPlain(a) && HyphensBefore('\n', a) == 0
  {
    forall i | 0 <= i < |a| ensures !IsJsBreak(a[i]) && !IsReplaced(a[i]) {
      CaronInk(a[i]);
    }
    hide IsJsBreak, IsReplaced, HyphensBefore;
    HyphensBeforeMeans('\n', a);
  }

  /**
    Folding again may compose: a capital J with a caron has no composed form, its small letter has one.
    The premises are what NFC and lowercasing make of the two texts.
    */
  lemma CaronComposedOnSecondPass(fold: Fold)
    requires fold("J\U{030C}") == "j\U{030C}" && fold("j\U{030C}") == "\U{01F0}"
    ensures Normalized(fold, "J\U{030C}") == "j\U{030C}"
    ensures Normalized(fold, "j\U{030C}") == "\U{01F0}"
  {
    hide NormalText, IsWord, IsPlain, Prepared, HyphensBefore;
    CaronWord("j\U{030C}");
    CaronWord("\U{01F0}");
    PreparedIsPlain("j\U{030C}");
    PreparedIsPlain("\U{01F0}");
    WordStays("j\U{030C}");
    WordStays("\U{01F0}");
  }
}
