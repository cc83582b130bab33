/** Tokenising normalised text, in the library and in the CLI. */
module Tokenizer {
  import opened Words

  const BREAK := "\n\n"

  /** s.split("\n\n"). */
  function SplitBreaks(s: string): (r: seq<string>)
    ensures r != []
    decreases |s|
  {
    if s == "" then [""]
    else if |s| >= 2 && s[..2] == BREAK then [""] + SplitBreaks(s[2..])
    else
      var rest := SplitBreaks(s[1..]);
      [[s[0]] + rest[0]] + rest[1..]
  }

  predicate IsSpace(c: char) {
    c == ' '
  }

  function EachWords(parts: seq<string>): (r: seq<seq<string>>)
    ensures |r| == |parts| && forall i :: 0 <= i < |r| ==> r[i] == WordsOf(IsSpace, parts[i])
  {
    if parts == [] then [] else [WordsOf(IsSpace, parts[0])] + EachWords(parts[1..])
  }

  /** The library: the empty text has no paragraphs. */
  function TokenizeNormalized(s: string): seq<seq<string>> {
    if s == "" then [] else EachWords(SplitBreaks(s))
  }

  /** The CLI: the empty text has one paragraph without tokens. */
  function CliTokenizeNormalized(s: string): seq<seq<string>> {
    EachWords(SplitBreaks(s))
  }

  predicate NoNewline(s: string) {
    forall i :: 0 <= i < |s| ==> s[i] != '\n'
  }

  lemma {:induction false} OnePart(p: string)
    requires NoNewline(p)
    ensures SplitBreaks(p) == [p]
  {
    if p != "" {
      OnePart(p[1..]);
      assert p == [p[0]] + p[1..];
    }
  }

  lemma {:induction false} FirstPart(p: string, rest: string)
    requires NoNewline(p)
    ensures SplitBreaks(p + BREAK + rest) == [p] + SplitBreaks(rest)
  {
    var s := p + BREAK + rest;
    if p == "" {
      assert s == BREAK + rest;
      assert s[..2] == BREAK && s[2..] == rest;
    } else {
      assert s[0] == p[0];
      assert s[1..] == p[1..] + BREAK + rest;
      FirstPart(p[1..], rest);
      assert p == [p[0]] + p[1..];
    }
  }

  /** Joining from the front. */
  lemma {:induction false} JoinCons(first: string, parts: seq<string>)
    requires parts != []
    ensures Join([first] + parts, BREAK) == first + BREAK + Join(parts, BREAK)
    decreases |parts|
  {
    hide Join;
    if |parts| == 1 {
      JoinSnoc([first], parts[0], BREAK);
      JoinSnoc([], first, BREAK);
      JoinSnoc([], parts[0], BREAK);
      assert parts == [] + [parts[0]] && [first] == [] + [first];
      assert [first] + parts == [first] + [parts[0]];
    } else {
      var front, last := parts[..|parts| - 1], parts[|parts| - 1];
      JoinCons(first, front);
      JoinSnoc([first] + front, last, BREAK);
      JoinSnoc(front, last, BREAK);
      assert parts == front + [last];
      assert [first] + parts == ([first] + front) + [last];
      Regroup(first, Join(front, BREAK), last);
    }
  }

  lemma Regroup(a: string, b: string, c: string)
    ensures (a + BREAK + b) + BREAK + c == a + BREAK + (b + BREAK + c)
  {
  }

  /** Splitting undoes joining when no part has a newline. */
  lemma {:induction false} SplitJoined(parts: seq<string>)
    requires parts != [] && forall i :: 0 <= i < |parts| ==> NoNewline(parts[i])
    ensures SplitBreaks(Join(parts, BREAK)) == parts
    decreases |parts|
  {
    hide NoNewline, SplitBreaks;
    if |parts| == 1 {
      OnePart(parts[0]);
    } else {
      SplitJoined(parts[1..]);
      JoinCons(parts[0], parts[1..]);
      FirstPart(parts[0], Join(parts[1..], BREAK));
      assert parts == [parts[0]] + parts[1..];
    }
  }

  /** A word breaks at spaces and newlines at least. */
  ghost predicate BreaksAtSpace(brk: Breaker) {
    brk(' ') && brk('\n')
  }

  lemma {:induction false} LineHasNoNewline(brk: Breaker, words: seq<string>)
    requires BreaksAtSpace(brk) && AreWords(brk, words)
    ensures NoNewline(Line1(words))
    decreases |words|
  {
    if |words| == 1 {
      assert IsWord(brk, words[0]);
    } else if |words| > 1 {
      var front, last := words[..|words| - 1], words[|words| - 1];
      LineHasNoNewline(brk, front);
      assert IsWord(brk, last);
    }
  }

  lemma SpaceWords(brk: Breaker, words: seq<string>)
    requires BreaksAtSpace(brk) && AreWords(brk, words)
    ensures AreWords(IsSpace, words)
  {
    forall i | 0 <= i < |words| ensures IsWord(IsSpace, words[i]) {
      assert IsWord(brk, words[i]);
    }
  }

  lemma LineIsNotEmpty(brk: Breaker, words: seq<string>)
    requires AreWords(brk, words) && words != []
    ensures Line1(words) != ""
  {
    assert IsWord(brk, words[|words| - 1]);
  }

  /** Rendered paragraphs are tokenised back into themselves. */
  lemma TokensRejoin(brk: Breaker, paragraphs: seq<seq<string>>)
    requires BreaksAtSpace(brk) && AreParagraphs(brk, paragraphs)
    ensures TokenizeNormalized(Render(paragraphs)) == paragraphs
    ensures paragraphs != [] ==> CliTokenizeNormalized(Render(paragraphs)) == paragraphs
    ensures Render(paragraphs) == "" <==> paragraphs == []
  {
    hide AreParagraphs, Lines, SplitBreaks, WordsOf, NoNewline, Line1;
    if paragraphs == [] {
      NothingRendered();
    } else {
      forall i | 0 <= i < |paragraphs|
        ensures NoNewline(Lines(paragraphs)[i]) && WordsOf(IsSpace, Lines(paragraphs)[i]) == paragraphs[i]
      {
        LineTokens(brk, paragraphs, i);
      }
      SplitJoined(Lines(paragraphs));
      RenderedIsNotEmpty(brk, paragraphs);
    }
  }

  lemma NothingRendered()
    ensures Render([]) == ""
  {
  }

  lemma LineTokens(brk: Breaker, paragraphs: seq<seq<string>>, i: nat)
    requires BreaksAtSpace(brk) && AreParagraphs(brk, paragraphs) && i < |paragraphs|
    ensures NoNewline(Lines(paragraphs)[i]) && WordsOf(IsSpace, Lines(paragraphs)[i]) == paragraphs[i]
  {
    hide AreWords, NoNewline, WordsOf;
    assert paragraphs[i] != [] && AreWords(brk, paragraphs[i]);
    LineHasNoNewline(brk, paragraphs[i]);
    SpaceWords(brk, paragraphs[i]);
    WordsOfJoined(IsSpace, paragraphs[i]);
  }

  lemma RenderedIsNotEmpty(brk: Breaker, paragraphs: seq<seq<string>>)
    requires AreParagraphs(brk, paragraphs) && paragraphs != []
    ensures Render(paragraphs) != ""
  {
    hide AreWords, Line1;
    var last := paragraphs[|paragraphs| - 1];
    assert AreWords(brk, last);
    LineIsNotEmpty(brk, last);
    assert Lines(paragraphs)[|paragraphs| - 1] == Line1(last);
  }
}
