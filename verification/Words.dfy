/** Words, paragraphs and the scan that finds both. */
module Words {

  /** The characters that end a word. */
  type Breaker = char -> bool

  /** A line read so far: its finished words and the one being read. */
  datatype Line = Line(words: seq<string>, current: string)

  const NO_LINE := Line([], "")

  function Flush(line: Line): Line {
    if line.current == "" then line else Line(line.words + [line.current], "")
  }

  function FeedLine(brk: Breaker, line: Line, c: char): Line {
    if brk(c) then Flush(line) else line.(current := line.current + [c])
  }

  function LineOf(brk: Breaker, s: string): Line
    decreases |s|
  {
    if s == "" then NO_LINE else FeedLine(brk, LineOf(brk, s[..|s| - 1]), s[|s| - 1])
  }

  /** The maximal runs of characters that are not breakers. */
  function WordsOf(brk: Breaker, s: string): seq<string> {
    Flush(LineOf(brk, s)).words
  }

  function Join(parts: seq<string>, glue: string): string {
    if parts == [] then ""
    else if |parts| == 1 then parts[0]
    else Join(parts[..|parts| - 1], glue) + glue + parts[|parts| - 1]
  }

  function Line1(words: seq<string>): string {
    Join(words, " ")
  }

  function Lines(paragraphs: seq<seq<string>>): (r: seq<string>)
    ensures |r| == |paragraphs| && forall i :: 0 <= i < |r| ==> r[i] == Line1(paragraphs[i])
  {
    if paragraphs == [] then []
    else Lines(paragraphs[..|paragraphs| - 1]) + [Line1(paragraphs[|paragraphs| - 1])]
  }

  /** Words joined by single spaces, paragraphs by blank lines. */
  function Render(paragraphs: seq<seq<string>>): string {
    Join(Lines(paragraphs), "\n\n")
  }

  predicate AllWord(brk: Breaker, s: string) {
    forall i :: 0 <= i < |s| ==> !brk(s[i])
  }

  /** A word is not empty and has no breakers. */
  predicate IsWord(brk: Breaker, s: string) {
    s != "" && AllWord(brk, s)
  }

  predicate AreWords(brk: Breaker, words: seq<string>) {
    forall i :: 0 <= i < |words| ==> IsWord(brk, words[i])
  }

  /** Paragraphs are not empty and consist of words. */
  predicate AreParagraphs(brk: Breaker, paragraphs: seq<seq<string>>) {
    forall i :: 0 <= i < |paragraphs| ==> paragraphs[i] != [] && AreWords(brk, paragraphs[i])
  }

  predicate LineOk(brk: Breaker, line: Line) {
    AreWords(brk, line.words) && AllWord(brk, line.current)
  }

  lemma FlushOk(brk: Breaker, line: Line)
    requires LineOk(brk, line)
    ensures LineOk(brk, Flush(line)) && Flush(line).current == ""
  {
  }

  lemma FeedOk(brk: Breaker, line: Line, c: char)
    requires LineOk(brk, line)
    ensures LineOk(brk, FeedLine(brk, line, c))
  {
    FlushOk(brk, line);
  }

  lemma {:induction false} LineOfOk(brk: Breaker, s: string)
    ensures LineOk(brk, LineOf(brk, s))
    decreases |s|
  {
    hide LineOk, FeedLine;
    if s == "" {
      NoLineOk(brk);
    } else {
      LineOfOk(brk, s[..|s| - 1]);
      FeedOk(brk, LineOf(brk, s[..|s| - 1]), s[|s| - 1]);
    }
  }

  lemma NoLineOk(brk: Breaker)
    ensures LineOk(brk, NO_LINE)
  {
  }

  lemma WordsAreWords(brk: Breaker, s: string)
    ensures AreWords(brk, WordsOf(brk, s))
  {
    LineOfOk(brk, s);
    FlushOk(brk, LineOf(brk, s));
  }

  // Lines of words read back.

  lemma JoinSnoc(parts: seq<string>, last: string, glue: string)
    ensures Join(parts + [last], glue) == if parts == [] then last else Join(parts, glue) + glue + last
  {
    assert (parts + [last])[..|parts|] == parts;
  }

  lemma LineSnoc(brk: Breaker, s: string, c: char)
    ensures LineOf(brk, s + [c]) == FeedLine(brk, LineOf(brk, s), c)
  {
    hide FeedLine;
    assert (s + [c])[..|s|] == s;
  }

  lemma AppendLast(s: string, word: string)
    requires word != ""
    ensures s + word == (s + word[..|word| - 1]) + [word[|word| - 1]]
  {
  }

  /** Reading a word after a line. */
  lemma {:induction false} LineWord(brk: Breaker, s: string, word: string)
    requires AllWord(brk, word)
    ensures LineOf(brk, s + word) == LineOf(brk, s).(current := LineOf(brk, s).current + word)
    decreases |word|
  {
    if word == "" {
      assert s + word == s;
      assert LineOf(brk, s).current + "" == LineOf(brk, s).current;
    } else {
      var front, last := word[..|word| - 1], word[|word| - 1];
      hide LineOf;
      LineWord(brk, s, front);
      LineSnoc(brk, s + front, last);
      AppendLast(s, word);
      AppendLast(LineOf(brk, s).current, word);
    }
  }

  /** Words joined by a breaker read back as those words. */
  lemma {:induction false} JoinedLine(brk: Breaker, words: seq<string>)
    requires AreWords(brk, words) && brk(' ')
    ensures Flush(LineOf(brk, Line1(words))) == Line(words, "")
    ensures words != [] ==> LineOf(brk, Line1(words)) == Line(words[..|words| - 1], words[|words| - 1])
  {
    if words == [] {
      assert Line1(words) == "" && LineOf(brk, "") == NO_LINE;
    } else {
      var front, last := words[..|words| - 1], words[|words| - 1];
      assert IsWord(brk, last);
      FirstLine(brk);
      hide LineOf, Join, AllWord;
      JoinedLine(brk, front);
      assert words == front + [last];
      JoinSnoc(front, last, " ");
      assert "" + last == last;
      if front == [] {
        LineWord(brk, "", last);
      } else {
        LineSnoc(brk, Line1(front), ' ');
        LineWord(brk, Line1(front) + " ", last);
      }
    }
  }

  lemma FirstLine(brk: Breaker)
    ensures LineOf(brk, "") == NO_LINE
  {
  }

  lemma WordsOfJoined(brk: Breaker, words: seq<string>)
    requires AreWords(brk, words) && brk(' ')
    ensures WordsOf(brk, Line1(words)) == words
  {
    JoinedLine(brk, words);
  }
}
