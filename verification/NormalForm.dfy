/** Normalised text is rendered paragraphs of words. */
module NormalForm {
  import opened Words
  import opened Paragraphs
  import opened Tokenizer
  import opened Normalizer

  /** What ends a word for the library. */
  predicate IsJsBreak(c: char) {
    c == '\n' || IsPunctuation(c) || IsJsSpace(c)
  }

  lemma JsBreaksAtBlanks()
    ensures BreaksAtBlanks(IsJsBreak) && BreaksAtSpace(IsJsBreak)
  {
  }

  lemma SpacedBreaks(s: string, i: nat)
    requires i < |s|
    ensures IsJsSpace(Spaced(s)[i]) <==> IsJsBreak(s[i])
    ensures !IsJsBreak(s[i]) ==> Spaced(s)[i] == s[i]
  {
    assert IsJsSpace(' ') && IsJsSpace('\n');
  }

  lemma LineCurrent(brk: Breaker, s: string)
    ensures LineOf(brk, s).current == "" <==> s == "" || brk(s[|s| - 1])
  {
  }

  function Lead(brk: Breaker, s: string): string {
    if s != "" && brk(s[0]) then " " else ""
  }

  function Trail(line: Line): string {
    if line.current == "" && line.words != [] then " " else ""
  }

  /** A line as collapsing leaves it, with a space for a break before its next word. */
  function Inner(line: Line): string {
    Line1(Flush(line).words) + Trail(line)
  }

  lemma InnerBreak(brk: Breaker, line: Line, c: char)
    requires brk(c)
    ensures Inner(FeedLine(brk, line, c)) == Inner(line) + if line.current == "" then "" else " "
  {
    hide Join;
  }

  lemma InnerInk(brk: Breaker, line: Line, c: char)
    requires !brk(c)
    ensures Inner(FeedLine(brk, line, c)) == Inner(line) + [c]
  {
    hide Join;
    var words := line.words;
    JoinSnoc(words, line.current + [c], " ");
    JoinSnoc(words, line.current, " ");
    JoinNothing(" ");
    if line.current == "" {
      assert "" + [c] == [c];
      assert Line1(words) + " " + [c] == (Line1(words) + " ") + [c];
    } else if words == [] {
      assert line.current + [c] + "" == line.current + "" + [c];
    } else {
      assert Line1(words) + " " + (line.current + [c]) == (Line1(words) + " " + line.current) + [c];
    }
  }

  lemma JoinNothing(glue: string)
    ensures Join([], glue) == ""
  {
  }

  /** What collapsing makes of a text. */
  predicate Shaped(s: string) {
    Collapse(IsJsSpace, Spaced(s)) == Lead(IsJsBreak, s) + Inner(LineOf(IsJsBreak, s))
  }

  lemma Regroup(a: string, b: string, c: string)
    ensures (a + b) + c == a + (b + c)
  {
  }

  lemma ShapedInk(s: string)
    requires s != "" && Shaped(s[..|s| - 1]) && !IsJsBreak(s[|s| - 1])
    ensures Shaped(s)
  {
    hide Collapse, Spaced, IsJsBreak, Inner, LineOf, FeedLine, Lead;
    var front, last := s[..|s| - 1], s[|s| - 1];
    var line := LineOf(IsJsBreak, front);
    CollapseStep(s);
    assert s == front + [last];
    LineSnoc(IsJsBreak, front, last);
    InnerInk(IsJsBreak, line, last);
    FirstInk(s);
    Regroup(Lead(IsJsBreak, s), Inner(line), [last]);
  }

  lemma ShapedBreak(s: string)
    requires |s| > 1 && Shaped(s[..|s| - 1]) && IsJsBreak(s[|s| - 1])
    ensures Shaped(s)
  {
    hide Collapse, Spaced, IsJsBreak, Inner, LineOf, FeedLine, Lead;
    var front, last := s[..|s| - 1], s[|s| - 1];
    var line := LineOf(IsJsBreak, front);
    CollapseStep(s);
    assert s == front + [last];
    LineSnoc(IsJsBreak, front, last);
    LineCurrent(IsJsBreak, front);
    InnerBreak(IsJsBreak, line, last);
    FirstBreak(s);
    Regroup(Lead(IsJsBreak, s), Inner(line), if line.current == "" then "" else " ");
  }

  lemma ShapedFirstBreak(s: string)
    requires |s| == 1 && IsJsBreak(s[0])
    ensures Shaped(s)
  {
    JoinNothing(" ");
    SpacedBreaks(s, 0);
    assert Spaced(s)[..0] == "" && s[..0] == "";
    assert Collapse(IsJsSpace, Spaced(s)) == "" + " ";
    assert LineOf(IsJsBreak, s) == NO_LINE;
  }

  lemma {:induction false} CollapseShape(s: string)
    ensures Shaped(s)
    decreases |s|
  {
    if s == "" {
      JoinNothing(" ");
    } else {
      hide Shaped, IsJsBreak;
      CollapseShape(s[..|s| - 1]);
      if !IsJsBreak(s[|s| - 1]) {
        ShapedInk(s);
      } else if |s| > 1 {
        ShapedBreak(s);
      } else {
        ShapedFirstBreak(s);
      }
    }
  }

  lemma CollapseStep(s: string)
    requires s != ""
    ensures var front, last := s[..|s| - 1], s[|s| - 1];
            Collapse(IsJsSpace, Spaced(s)) ==
            Collapse(IsJsSpace, Spaced(front))
            + if !IsJsBreak(last) then [last] else if front != "" && IsJsBreak(front[|front| - 1]) then "" else " "
  {
    var front := s[..|s| - 1];
    assert Spaced(s)[..|s| - 1] == Spaced(front);
    SpacedBreaks(s, |s| - 1);
    if front != "" {
      SpacedBreaks(front, |front| - 1);
    }
  }

  /** The first break makes the leading space. */
  lemma FirstBreak(s: string)
    requires s != "" && IsJsBreak(s[|s| - 1])
    ensures var front := s[..|s| - 1];
            front != "" ==> Lead(IsJsBreak, s) == Lead(IsJsBreak, front)
  {
  }

  lemma FirstInk(s: string)
    requires s != "" && !IsJsBreak(s[|s| - 1])
    ensures Lead(IsJsBreak, s) == Lead(IsJsBreak, s[..|s| - 1])
  {
  }

  // Trimming.

  lemma {:induction false} LineEnds(brk: Breaker, words: seq<string>)
    requires AreWords(brk, words) && words != []
    ensures var line := Line1(words); line != "" && !brk(line[0]) && !brk(line[|line| - 1])
    decreases |words|
  {
    var last := words[|words| - 1];
    assert IsWord(brk, last);
    assert !brk(last[0]) && !brk(last[|last| - 1]);
    if |words| > 1 {
      LineEnds(brk, words[..|words| - 1]);
    }
  }

  lemma TrimAround(lead: string, line: string, trail: string)
    requires lead == "" || lead == " "
    requires trail == "" || trail == " "
    requires line != "" && !IsJsSpace(line[0]) && !IsJsSpace(line[|line| - 1])
    ensures TrimEnd(IsJsSpace, TrimStart(IsJsSpace, lead + (line + trail))) == line
  {
    var s := line + trail;
    assert IsJsSpace(' ');
    assert TrimStart(IsJsSpace, lead + s) == s by {
      assert lead == " " ==> (lead + s)[1..] == s;
      assert lead == "" ==> lead + s == s;
    }
    assert TrimEnd(IsJsSpace, s) == line by {
      assert trail == " " ==> s[..|s| - 1] == line;
      assert trail == "" ==> s == line;
    }
  }

  lemma TrimBlank(s: string)
    requires s == "" || s == " "
    ensures TrimEnd(IsJsSpace, TrimStart(IsJsSpace, s)) == ""
  {
    assert IsJsSpace(' ');
  }

  /** A cleaned part is its words with single spaces between them. */
  lemma CleanedIsLine(s: string)
    ensures Cleaned(s) == Line1(WordsOf(IsJsBreak, s))
  {
    hide Collapse, Spaced, LineOf, Join, TrimStart, TrimEnd, AreWords;
    CollapseShape(s);
    WordsAreWords(IsJsBreak, s);
    var words := WordsOf(IsJsBreak, s);
    if words == [] {
      JoinNothing(" ");
      NoTrail(LineOf(IsJsBreak, s));
      TrimBlank(Lead(IsJsBreak, s) + "");
      assert "" + "" == "";
    } else {
      LineEnds(IsJsBreak, words);
      TrimAround(Lead(IsJsBreak, s), Line1(words), Trail(LineOf(IsJsBreak, s)));
    }
  }

  lemma NoTrail(line: Line)
    requires Flush(line).words == []
    ensures Trail(line) == ""
  {
  }

  lemma {:induction false} PartsAreLines(parts: seq<string>)
    ensures CleanedParts(parts) == Lines(PartWords(IsJsBreak, parts))
    decreases |parts|
  {
    if parts != [] {
      hide Cleaned, WordsOf, Line1;
      var front, last := parts[..|parts| - 1], parts[|parts| - 1];
      PartsAreLines(front);
      CleanedIsLine(last);
      WordsAreWords(IsJsBreak, last);
      LineIsEmpty(IsJsBreak, WordsOf(IsJsBreak, last));
      LinesSnoc(PartWords(IsJsBreak, front), WordsOf(IsJsBreak, last));
    }
  }

  lemma LineIsEmpty(brk: Breaker, words: seq<string>)
    requires AreWords(brk, words)
    ensures Line1(words) == "" <==> words == []
  {
    hide AreWords;
    JoinNothing(" ");
    if words != [] {
      LineEnds(brk, words);
    }
  }

  lemma LinesSnoc(paragraphs: seq<seq<string>>, last: seq<string>)
    ensures Lines(paragraphs + [last]) == Lines(paragraphs) + [Line1(last)]
  {
    assert (paragraphs + [last])[..|paragraphs|] == paragraphs;
  }

  /** The passes together: one scan of the text, rendered. */
  lemma NormalTextIsRendered(prepared: string)
    ensures NormalText(prepared) == Render(ParagraphsOf(IsJsBreak, FormFeeds(Dehyphenate(prepared))))
  {
    hide SplitParagraphs, CleanedParts, Join, Lines, PartWords, FormFeeds, Dehyphenate, ScanFrom;
    var text := FormFeeds(Dehyphenate(prepared));
    JsBreaksAtBlanks();
    PartsAreLines(SplitParagraphs(text));
    SplitThenWords(IsJsBreak, text);
  }

  /**
    Normalised text is in normal form: paragraphs that are not empty, of words without spaces, newlines
    or punctuation but the hyphen; and tokenising gives back what rendering puts together.
    */
  lemma NormalTextIsNormal(prepared: string)
    ensures var paragraphs := TokenizeNormalized(NormalText(prepared));
            && AreParagraphs(IsJsBreak, paragraphs)
            && Render(paragraphs) == NormalText(prepared)
            && paragraphs == ParagraphsOf(IsJsBreak, FormFeeds(Dehyphenate(prepared)))
  {
    hide NormalText, ParagraphsOf, AreParagraphs, TokenizeNormalized, Render, FormFeeds, Dehyphenate;
    var text := FormFeeds(Dehyphenate(prepared));
    NormalTextIsRendered(prepared);
    JsBreaksAtBlanks();
    ParagraphsAreOk(IsJsBreak, text);
    TokensRejoin(IsJsBreak, ParagraphsOf(IsJsBreak, text));
  }
}
