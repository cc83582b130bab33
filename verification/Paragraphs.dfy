/** Splitting a text into paragraphs of words, in one scan and as rendered text. */
module Paragraphs {
  import opened Words

  const VERTICAL_TAB: char := '\U{000B}'
  const FORM_FEED: char := '\U{000C}'

  /** The characters that may stand in a paragraph break. */
  predicate IsBlank(c: char) {
    c == '\n' || c == ' ' || c == '\t' || c == '\r' || c == VERTICAL_TAB || c == FORM_FEED
  }

  function Newlines(s: string): nat
    decreases |s|
  {
    if s == "" then 0 else Newlines(s[..|s| - 1]) + if s[|s| - 1] == '\n' then 1 else 0
  }

  // Splitting as the expression for paragraph breaks does it.

  /** The parts already split off, the part being read, and the blanks after it. */
  datatype Cutting = Cutting(parts: seq<string>, current: string, blanks: string)

  function Cut(k: Cutting, c: char): Cutting {
    if IsBlank(c) then k.(blanks := k.blanks + [c])
    else if Newlines(k.blanks) >= 2 then Cutting(k.parts + [k.current], [c], "")
    else k.(current := k.current + k.blanks + [c], blanks := "")
  }

  function CuttingOf(s: string): Cutting
    decreases |s|
  {
    if s == "" then Cutting([], "", "") else Cut(CuttingOf(s[..|s| - 1]), s[|s| - 1])
  }

  /** The text between maximal runs of blanks with two or more newlines. */
  function SplitParagraphs(s: string): seq<string> {
    var k := CuttingOf(s);
    if Newlines(k.blanks) >= 2 then k.parts + [k.current, ""] else k.parts + [k.current + k.blanks]
  }

  // The same in one scan.

  /** Paragraphs closed so far, the line being read, and the newlines in the blanks just read. */
  datatype Scan = Scan(paragraphs: seq<seq<string>>, line: Line, newlines: nat)

  function Close(paragraphs: seq<seq<string>>, words: seq<string>): seq<seq<string>> {
    if words == [] then paragraphs else paragraphs + [words]
  }

  function Feed(brk: Breaker, s: Scan, c: char): Scan {
    var line := FeedLine(brk, s.line, c);
    if c == '\n' then
      if s.newlines >= 1 then Scan(Close(s.paragraphs, line.words), NO_LINE, s.newlines + 1)
      else Scan(s.paragraphs, line, 1)
    else if IsBlank(c) then s.(line := line)
    else Scan(s.paragraphs, line, 0)
  }

  function ScanFrom(brk: Breaker, start: Scan, s: string): Scan
    decreases |s|
  {
    if s == "" then start else Feed(brk, ScanFrom(brk, start, s[..|s| - 1]), s[|s| - 1])
  }

  const NOTHING := Scan([], NO_LINE, 0)

  function Finish(s: Scan): seq<seq<string>> {
    Close(s.paragraphs, Flush(s.line).words)
  }

  function ParagraphsOf(brk: Breaker, s: string): seq<seq<string>> {
    Finish(ScanFrom(brk, NOTHING, s))
  }

  /** The words of each part, without the parts that have none. */
  function PartWords(brk: Breaker, parts: seq<string>): seq<seq<string>>
    decreases |parts|
  {
    if parts == [] then [] else Close(PartWords(brk, parts[..|parts| - 1]), WordsOf(brk, parts[|parts| - 1]))
  }

  ghost predicate BreaksAtBlanks(brk: Breaker) {
    forall c :: IsBlank(c) ==> brk(c)
  }

  lemma PartSnoc(brk: Breaker, parts: seq<string>, last: string)
    ensures PartWords(brk, parts + [last]) == Close(PartWords(brk, parts), WordsOf(brk, last))
  {
    hide WordsOf;
    assert (parts + [last])[..|parts|] == parts;
  }

  predicate AllBlank(s: string) {
    forall i :: 0 <= i < |s| ==> IsBlank(s[i])
  }

  /** Blanks after a line only end its last word. */
  lemma {:induction false} LineBlanks(brk: Breaker, s: string, blanks: string)
    requires BreaksAtBlanks(brk) && AllBlank(blanks)
    ensures LineOf(brk, s + blanks) == if blanks == "" then LineOf(brk, s) else Flush(LineOf(brk, s))
    decreases |blanks|
  {
    if blanks == "" {
      assert s + blanks == s;
    } else {
      hide LineOf, IsBlank;
      var front, last := blanks[..|blanks| - 1], blanks[|blanks| - 1];
      LineBlanks(brk, s, front);
      LineSnoc(brk, s + front, last);
      AppendLast(s, blanks);
      assert brk(last);
    }
  }

  /** How the scan and the splitting go together, after the same text. */
  ghost predicate InStep(brk: Breaker, k: Cutting, s: Scan) {
    && AllBlank(k.blanks)
    && s.newlines == Newlines(k.blanks)
    && (s.newlines < 2 ==> s.paragraphs == PartWords(brk, k.parts) && s.line == LineOf(brk, k.current + k.blanks))
    && (s.newlines >= 2 ==> s.paragraphs == PartWords(brk, k.parts + [k.current]) && s.line == NO_LINE)
  }

  lemma NewlinesSnoc(s: string, c: char)
    ensures Newlines(s + [c]) == Newlines(s) + if c == '\n' then 1 else 0
  {
    assert (s + [c])[..|s|] == s;
  }

  lemma BlankStep(brk: Breaker, k: Cutting, s: Scan, c: char)
    requires BreaksAtBlanks(brk) && InStep(brk, k, s) && IsBlank(c)
    ensures InStep(brk, Cut(k, c), Feed(brk, s, c))
  {
    hide LineOf, Newlines, PartWords, IsBlank;
    assert brk(c);
    NewlinesSnoc(k.blanks, c);
    assert k.current + (k.blanks + [c]) == (k.current + k.blanks) + [c];
    LineSnoc(brk, k.current + k.blanks, c);
    assert c == '\n' ==> IsBlank(c);
    if c == '\n' && s.newlines == 1 {
      LineBlanks(brk, k.current, k.blanks);
      PartSnoc(brk, k.parts, k.current);
    }
    assert Newlines(k.blanks) >= 2 && c == '\n' ==> FeedLine(brk, s.line, c).words == [];
  }

  lemma InkStep(brk: Breaker, k: Cutting, s: Scan, c: char)
    requires BreaksAtBlanks(brk) && InStep(brk, k, s) && !IsBlank(c)
    ensures InStep(brk, Cut(k, c), Feed(brk, s, c))
  {
    hide LineOf, Newlines, PartWords;
    NoNewlines();
    if Newlines(k.blanks) >= 2 {
      LineSnoc(brk, "", c);
      assert "" + [c] == [c] && [c] + "" == [c];
      EmptyLine(brk);
    } else {
      LineSnoc(brk, k.current + k.blanks, c);
      assert k.current + k.blanks + [c] + "" == (k.current + k.blanks) + [c];
    }
  }

  lemma NoNewlines()
    ensures Newlines("") == 0
  {
  }

  lemma EmptyLine(brk: Breaker)
    ensures LineOf(brk, "") == NO_LINE
  {
  }

  lemma {:induction false} ScanFollows(brk: Breaker, s: string)
    requires BreaksAtBlanks(brk)
    ensures InStep(brk, CuttingOf(s), ScanFrom(brk, NOTHING, s))
    decreases |s|
  {
    if s == "" {
      assert "" + "" == "";
    } else {
      hide InStep, Cut, Feed;
      var front, last := s[..|s| - 1], s[|s| - 1];
      ScanFollows(brk, front);
      if IsBlank(last) {
        BlankStep(brk, CuttingOf(front), ScanFrom(brk, NOTHING, front), last);
      } else {
        InkStep(brk, CuttingOf(front), ScanFrom(brk, NOTHING, front), last);
      }
    }
  }

  /** Splitting first and finding the words of each part is the same as one scan. */
  lemma SplitThenWords(brk: Breaker, s: string)
    requires BreaksAtBlanks(brk)
    ensures PartWords(brk, SplitParagraphs(s)) == ParagraphsOf(brk, s)
  {
    hide LineOf, Newlines, PartWords, CuttingOf, ScanFrom;
    ScanFollows(brk, s);
    var k := CuttingOf(s);
    PartSnoc(brk, k.parts, k.current + k.blanks);
    PartSnoc(brk, k.parts + [k.current], "");
    assert k.parts + [k.current, ""] == k.parts + [k.current] + [""];
    EmptyLine(brk);
  }

  // What a scan produces.

  ghost predicate ScanOk(brk: Breaker, s: Scan) {
    AreParagraphs(brk, s.paragraphs) && LineOk(brk, s.line)
  }

  lemma CloseOk(brk: Breaker, paragraphs: seq<seq<string>>, words: seq<string>)
    requires AreParagraphs(brk, paragraphs) && AreWords(brk, words)
    ensures AreParagraphs(brk, Close(paragraphs, words))
  {
    hide AreWords;
  }

  lemma FeedScanOk(brk: Breaker, s: Scan, c: char)
    requires ScanOk(brk, s)
    ensures ScanOk(brk, Feed(brk, s, c))
  {
    hide AreParagraphs, FeedLine;
    FeedOk(brk, s.line, c);
    CloseOk(brk, s.paragraphs, FeedLine(brk, s.line, c).words);
    NoLineOk(brk);
  }

  lemma {:induction false} ScanIsOk(brk: Breaker, start: Scan, s: string)
    requires ScanOk(brk, start)
    ensures ScanOk(brk, ScanFrom(brk, start, s))
    decreases |s|
  {
    hide ScanOk, Feed;
    if s != "" {
      ScanIsOk(brk, start, s[..|s| - 1]);
      FeedScanOk(brk, ScanFrom(brk, start, s[..|s| - 1]), s[|s| - 1]);
    }
  }

  lemma ParagraphsAreOk(brk: Breaker, s: string)
    ensures AreParagraphs(brk, ParagraphsOf(brk, s))
  {
    hide ScanFrom;
    NoLineOk(brk);
    ScanIsOk(brk, NOTHING, s);
    var scan := ScanFrom(brk, NOTHING, s);
    FlushOk(brk, scan.line);
    CloseOk(brk, scan.paragraphs, Flush(scan.line).words);
  }

  // Texts one after another.

  lemma {:induction false} ScanOn(brk: Breaker, start: Scan, a: string, b: string)
    ensures ScanFrom(brk, start, a + b) == ScanFrom(brk, ScanFrom(brk, start, a), b)
    decreases |b|
  {
    if b == "" {
      assert a + b == a;
    } else {
      hide Feed;
      ScanOn(brk, start, a, b[..|b| - 1]);
      AppendLast(a, b);
      assert (a + b)[..|a + b| - 1] == a + b[..|b| - 1];
    }
  }

  /** Between paragraphs only the newlines just read may differ; the paragraphs already closed stay in front. */
  predicate Later(first: seq<seq<string>>, s: Scan, t: Scan) {
    && s.paragraphs == first + t.paragraphs
    && s.line == t.line
    && (s.newlines == t.newlines || (s.line == NO_LINE && s.newlines >= 2))
  }

  lemma FeedLater(brk: Breaker, first: seq<seq<string>>, s: Scan, t: Scan, c: char)
    requires BreaksAtBlanks(brk) && Later(first, s, t)
    ensures Later(first, Feed(brk, s, c), Feed(brk, t, c))
  {
    assert IsBlank(c) ==> brk(c);
    hide IsBlank;
    assert c == '\n' ==> IsBlank(c) by { NewlineIsBlank(); }
    var words := FeedLine(brk, s.line, c).words;
    assert first + t.paragraphs + [words] == first + (t.paragraphs + [words]);
  }

  lemma NewlineIsBlank()
    ensures IsBlank('\n') && IsBlank(' ')
  {
  }

  lemma {:induction false} ScanLater(brk: Breaker, first: seq<seq<string>>, s: Scan, t: Scan, text: string)
    requires BreaksAtBlanks(brk) && Later(first, s, t)
    ensures Later(first, ScanFrom(brk, s, text), ScanFrom(brk, t, text))
    decreases |text|
  {
    if text != "" {
      hide Later, Feed, IsBlank;
      var front, last := text[..|text| - 1], text[|text| - 1];
      ScanLater(brk, first, s, t, front);
      FeedLater(brk, first, ScanFrom(brk, s, front), ScanFrom(brk, t, front), last);
    }
  }

  /** A blank line closes the paragraph, whatever came before. */
  lemma BlankLineCloses(brk: Breaker, s: Scan)
    requires BreaksAtBlanks(brk)
    ensures var t := ScanFrom(brk, s, "\n\n");
            t.paragraphs == Finish(s) && t.line == NO_LINE && t.newlines >= 2
  {
    NewlineIsBlank();
    var b := "\n\n";
    assert b[..1] == "\n" && b[..1][..0] == "";
    var s1 := Feed(brk, s, '\n');
    assert ScanFrom(brk, s, b[..1]) == s1;
    assert ScanFrom(brk, s, b) == Feed(brk, s1, '\n');
    assert Flush(Flush(s.line)) == Flush(s.line);
  }

  /** Texts with a blank line between them do not share paragraphs. */
  lemma ApartByBlankLine(brk: Breaker, a: string, b: string)
    requires BreaksAtBlanks(brk)
    ensures ParagraphsOf(brk, a + "\n\n" + b) == ParagraphsOf(brk, a) + ParagraphsOf(brk, b)
  {
    hide ScanFrom, IsBlank;
    ScanOn(brk, NOTHING, a + "\n\n", b);
    ScanOn(brk, NOTHING, a, "\n\n");
    var closed := ScanFrom(brk, ScanFrom(brk, NOTHING, a), "\n\n");
    BlankLineCloses(brk, ScanFrom(brk, NOTHING, a));
    var first := ParagraphsOf(brk, a);
    assert first + [] == first;
    assert Later(first, closed, NOTHING);
    ScanLater(brk, first, closed, NOTHING, b);
    var s, t := ScanFrom(brk, closed, b), ScanFrom(brk, NOTHING, b);
    assert first + t.paragraphs + [Flush(t.line).words] == first + (t.paragraphs + [Flush(t.line).words]);
  }

  // Only the characters present matter.

  lemma {:induction false} SameScan(brk: Breaker, brk': Breaker, s: string)
    requires forall i :: 0 <= i < |s| ==> brk(s[i]) == brk'(s[i])
    ensures ScanFrom(brk, NOTHING, s) == ScanFrom(brk', NOTHING, s)
    decreases |s|
  {
    if s != "" {
      SameScan(brk, brk', s[..|s| - 1]);
    }
  }

  // Counting characters.

  function Count(c: char, s: string): nat
    decreases |s|
  {
    if s == "" then 0 else Count(c, s[..|s| - 1]) + if s[|s| - 1] == c then 1 else 0
  }

  function CountWords(c: char, words: seq<string>): nat
    decreases |words|
  {
    if words == [] then 0 else CountWords(c, words[..|words| - 1]) + Count(c, words[|words| - 1])
  }

  function CountParagraphs(c: char, paragraphs: seq<seq<string>>): nat
    decreases |paragraphs|
  {
    if paragraphs == [] then 0
    else CountParagraphs(c, paragraphs[..|paragraphs| - 1]) + CountWords(c, paragraphs[|paragraphs| - 1])
  }

  lemma CountSnoc(c: char, s: string, last: char)
    ensures Count(c, s + [last]) == Count(c, s) + if last == c then 1 else 0
  {
    assert (s + [last])[..|s|] == s;
  }

  lemma CountWordsSnoc(c: char, words: seq<string>, last: string)
    ensures CountWords(c, words + [last]) == CountWords(c, words) + Count(c, last)
  {
    hide Count;
    assert (words + [last])[..|words|] == words;
  }

  lemma CountParagraphsSnoc(c: char, paragraphs: seq<seq<string>>, last: seq<string>)
    ensures CountParagraphs(c, paragraphs + [last]) == CountParagraphs(c, paragraphs) + CountWords(c, last)
  {
    hide CountWords;
    assert (paragraphs + [last])[..|paragraphs|] == paragraphs;
  }

  function CountLine(c: char, line: Line): nat {
    CountWords(c, line.words) + Count(c, line.current)
  }

  lemma NothingToCount(c: char)
    ensures Count(c, "") == 0 && CountWords(c, []) == 0 && CountParagraphs(c, []) == 0
  {
  }

  lemma FlushCounts(c: char, line: Line)
    ensures CountLine(c, Flush(line)) == CountLine(c, line) == CountWords(c, Flush(line).words)
  {
    hide Count, CountWords;
    NothingToCount(c);
    CountWordsSnoc(c, line.words, line.current);
  }

  lemma CloseCounts(c: char, paragraphs: seq<seq<string>>, words: seq<string>)
    ensures CountParagraphs(c, Close(paragraphs, words)) == CountParagraphs(c, paragraphs) + CountWords(c, words)
  {
    hide CountParagraphs, CountWords;
    NothingToCount(c);
    CountParagraphsSnoc(c, paragraphs, words);
  }

  lemma FeedLineCounts(brk: Breaker, line: Line, last: char, c: char)
    requires !brk(c)
    ensures CountLine(c, FeedLine(brk, line, last)) == CountLine(c, line) + if last == c then 1 else 0
    ensures brk(last) ==> CountWords(c, FeedLine(brk, line, last).words) == CountLine(c, FeedLine(brk, line, last))
  {
    hide Count, CountWords, Flush;
    FlushCounts(c, line);
    FlushCounts(c, Flush(line));
    FlushTwice(line);
    CountSnoc(c, line.current, last);
  }

  lemma FlushTwice(line: Line)
    ensures Flush(Flush(line)) == Flush(line)
  {
  }

  lemma FeedCounts(brk: Breaker, s: Scan, last: char, c: char)
    requires BreaksAtBlanks(brk) && !brk(c)
    ensures var t := Feed(brk, s, last);
            CountParagraphs(c, t.paragraphs) + CountLine(c, t.line)
            == CountParagraphs(c, s.paragraphs) + CountLine(c, s.line) + if last == c then 1 else 0
  {
    NewlineIsBlank();
    assert IsBlank(last) ==> brk(last);
    hide Count, CountWords, CountParagraphs, CountLine, FeedLine, Close, IsBlank, BreaksAtBlanks;
    FeedLineCounts(brk, s.line, last, c);
    if last == '\n' && s.newlines >= 1 {
      CloseCounts(c, s.paragraphs, FeedLine(brk, s.line, last).words);
      EmptyLineCounts(c);
    }
  }

  lemma EmptyLineCounts(c: char)
    ensures CountLine(c, NO_LINE) == 0
  {
    NothingToCount(c);
  }

  /** No character of a word is lost or made up. */
  lemma {:induction false} ScanCounts(brk: Breaker, s: string, c: char)
    requires BreaksAtBlanks(brk) && !brk(c)
    ensures var t := ScanFrom(brk, NOTHING, s);
            CountParagraphs(c, t.paragraphs) + CountLine(c, t.line) == Count(c, s)
    decreases |s|
  {
    if s != "" {
      hide Feed, CountParagraphs, CountLine, IsBlank;
      var front, last := s[..|s| - 1], s[|s| - 1];
      ScanCounts(brk, front, c);
      FeedCounts(brk, ScanFrom(brk, NOTHING, front), last, c);
    }
  }

  lemma ParagraphsCount(brk: Breaker, s: string, c: char)
    requires BreaksAtBlanks(brk) && !brk(c)
    ensures CountParagraphs(c, ParagraphsOf(brk, s)) == Count(c, s)
  {
    hide ScanFrom, CountParagraphs, CountWords, Count, Flush, Close, IsBlank;
    ScanCounts(brk, s, c);
    var t := ScanFrom(brk, NOTHING, s);
    FlushCounts(c, t.line);
    CloseCounts(c, t.paragraphs, Flush(t.line).words);
  }

  lemma {:induction false} CountSum(c: char, a: string, b: string)
    ensures Count(c, a + b) == Count(c, a) + Count(c, b)
    decreases |b|
  {
    if b == "" {
      assert a + b == a;
    } else {
      CountSum(c, a, b[..|b| - 1]);
      AppendLast(a, b);
      CountSnoc(c, a + b[..|b| - 1], b[|b| - 1]);
    }
  }

  lemma {:induction false} CountJoin(c: char, parts: seq<string>, glue: string)
    requires Count(c, glue) == 0
    ensures Count(c, Join(parts, glue)) == CountWords(c, parts)
    decreases |parts|
  {
    if |parts| == 1 {
      assert parts[..0] == [];
      NothingToCount(c);
    } else if |parts| > 1 {
      hide Count;
      var front, last := parts[..|parts| - 1], parts[|parts| - 1];
      CountJoin(c, front, glue);
      CountSum(c, Join(front, glue) + glue, last);
      CountSum(c, Join(front, glue), glue);
    }
  }

  lemma {:induction false} CountRendered(c: char, paragraphs: seq<seq<string>>)
    requires c != ' ' && c != '\n'
    ensures Count(c, Render(paragraphs)) == CountParagraphs(c, paragraphs)
  {
    hide Count, Lines, CountWords;
    GlueCounts(c);
    CountJoin(c, Lines(paragraphs), "\n\n");
    CountLines(c, paragraphs);
  }

  lemma GlueCounts(c: char)
    requires c != ' ' && c != '\n'
    ensures Count(c, " ") == 0 && Count(c, "\n\n") == 0
  {
    CountSnoc(c, "", ' ');
    CountSnoc(c, "", '\n');
    CountSnoc(c, "\n", '\n');
    assert "" + [' '] == " " && "" + ['\n'] == "\n" && "\n" + ['\n'] == "\n\n";
  }

  lemma {:induction false} CountLines(c: char, paragraphs: seq<seq<string>>)
    requires c != ' ' && c != '\n'
    ensures CountWords(c, Lines(paragraphs)) == CountParagraphs(c, paragraphs)
    decreases |paragraphs|
  {
    if paragraphs != [] {
      hide Count, Join;
      var front, last := paragraphs[..|paragraphs| - 1], paragraphs[|paragraphs| - 1];
      CountLines(c, front);
      GlueCounts(c);
      CountJoin(c, last, " ");
      CountWordsSnoc(c, Lines(front), Line1(last));
    }
  }
}
