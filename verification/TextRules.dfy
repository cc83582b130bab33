/** What the normaliser does to single characters and to words on two lines. */
module TextRules {
  import opened Words
  import opened Paragraphs
  import opened Tokenizer
  import opened Normalizer
  import opened NormalForm
  import opened Agreement
  import opened SecondPass
  import opened OcrPages

  // Characters.

  /** What a character is prepared to. */
  function PreparedTo(c: char): string {
    match c as int
    case 0x2018 => "'"
    case 0x2019 => "'"
    case 0x201C => "\""
    case 0x201D => "\""
    case 0x2013 => "-"
    case 0x2014 => "-"
    case 0x2026 => "..."
    case 0xFB00 => "ff"
    case 0xFB01 => "fi"
    case 0xFB02 => "fl"
    case 0xFB03 => "ffi"
    case 0xFB04 => "ffl"
    case 0x00AD => ""
    case _ => [c]
  }

  lemma MapStep(from: char, to: string, rest: Table, c: char)
    ensures Mapped([(from, to)] + rest, c) == if from == c then to else Mapped(rest, c)
  {
    assert ([(from, to)] + rest)[1..] == rest;
  }

  lemma SmartIs(c: char, more: Table)
    ensures Mapped(SMART_PUNCTUATION + more, c) ==
            match c as int
            case 0x2018 => "'"
            case 0x2019 => "'"
            case 0x201C => "\""
            case 0x201D => "\""
            case 0x2013 => "-"
            case 0x2014 => "-"
            case 0x2026 => "..."
            case _ => Mapped(more, c)
  {
    var t := SMART_PUNCTUATION;
    assert t == [('\U{2018}', "'"), ('\U{2019}', "'"), ('\U{201C}', "\""), ('\U{201D}', "\""),
                 ('\U{2013}', "-"), ('\U{2014}', "-"), ('\U{2026}', "...")];
    hide Mapped, SMART_PUNCTUATION;
    var t6: Table := [('\U{2026}', "...")] + more;
    var t5: Table := [('\U{2014}', "-")] + t6;
    var t4: Table := [('\U{2013}', "-")] + t5;
    var t3: Table := [('\U{201D}', "\"")] + t4;
    var t2: Table := [('\U{201C}', "\"")] + t3;
    var t1: Table := [('\U{2019}', "'")] + t2;
    assert t + more == [('\U{2018}', "'")] + t1;
    MapStep('\U{2018}', "'", t1, c);
    MapStep('\U{2019}', "'", t2, c);
    MapStep('\U{201C}', "\"", t3, c);
    MapStep('\U{201D}', "\"", t4, c);
    MapStep('\U{2013}', "-", t5, c);
    MapStep('\U{2014}', "-", t6, c);
    MapStep('\U{2026}', "...", more, c);
  }

  lemma LigatureIs(c: char)
    ensures Mapped(LIGATURES, c) ==
            match c as int
            case 0xFB00 => "ff"
            case 0xFB01 => "fi"
            case 0xFB02 => "fl"
            case 0xFB03 => "ffi"
            case 0xFB04 => "ffl"
            case _ => [c]
  {
    var t := LIGATURES;
    assert t[1..][1..] == t[2..] && t[2..][1..] == t[3..] && t[3..][1..] == t[4..] && t[4..][1..] == t[5..] && t[5..] == [];
  }

  lemma {:induction false} NoSoftHyphen(s: string)
    requires SOFT_HYPHEN !in s
    ensures Replace(s, SOFT_HYPHEN, "") == s
  {
    ReplacedIsGone(s, SOFT_HYPHEN);
  }

  /** Each character is prepared by itself. */
  lemma CharacterPrepared(c: char)
    ensures Prepared([c]) == PreparedTo(c)
  {
    SmartIs(c, LIGATURES);
    LigatureIs(c);
    var table: Table := SMART_PUNCTUATION + LIGATURES;
    assert Substitute(table, [c]) == Mapped(table, c) by {
      assert [c][1..] == "" && Mapped(table, c) + "" == Mapped(table, c);
    }
    assert SOFT_HYPHEN as int == 0x00AD;
    assert Mapped(table, c) == if c == SOFT_HYPHEN then [c] else PreparedTo(c);
    hide Substitute, SMART_PUNCTUATION, LIGATURES, Mapped;
    if c == SOFT_HYPHEN {
      ReplaceAlone(c);
    } else {
      PreparedHasNone(c);
      NoSoftHyphen(PreparedTo(c));
    }
  }

  lemma ReplaceAlone(c: char)
    ensures Replace([c], c, "") == ""
  {
    assert [c][1..] == "";
  }

  lemma PreparedHasNone(c: char)
    requires c as int != 0x00AD
    ensures SOFT_HYPHEN !in PreparedTo(c)
  {
  }

  lemma PreparedSum(a: string, b: string)
    ensures Prepared(a + b) == Prepared(a) + Prepared(b)
  {
    hide Substitute, Replace;
    var table: Table := SMART_PUNCTUATION + LIGATURES;
    SubstituteSum(table, a, b);
    ReplaceSum(Substitute(table, a), Substitute(table, b), SOFT_HYPHEN, "");
  }

  predicate IsLetterOrDigit(c: char) {
    'a' <= c <= 'z' || 'A' <= c <= 'Z' || '0' <= c <= '9'
  }

  /** Punctuation is what ASCII prints apart from letters, digits, the space and the hyphen. */
  lemma PunctuationIs(c: char)
    ensures IsPunctuation(c) <==> '!' <= c <= '~' && !IsLetterOrDigit(c) && c != '-'
  {
    if IsPunctuation(c) {
      OnlyPunctuation(c);
    }
    if '!' <= c <= '~' && !IsLetterOrDigit(c) && c != '-' {
      AllPunctuation(c);
    }
    hide IsPunctuation;
  }

  lemma OnlyPunctuation(c: char)
    requires IsPunctuation(c)
    ensures '!' <= c <= '~' && !IsLetterOrDigit(c) && c != '-'
  {
  }

  lemma AllPunctuation(c: char)
    requires '!' <= c <= '~' && !IsLetterOrDigit(c) && c != '-'
    ensures IsPunctuation(c)
  {
    hide IsPunctuation;
    if c <= '/' {
      LowPunctuation(c);
    } else if c <= '@' {
      MiddlePunctuation(c);
    } else {
      HighPunctuation(c);
    }
  }

  lemma LowPunctuation(c: char)
    requires '!' <= c <= '/' && c != '-'
    ensures IsPunctuation(c)
  {
    var p := "!\"#$%&'()*+,./:;<=>?@[\\]^_`{|}~";
    assert p[if c <= ',' then c as int - '!' as int else c as int - '.' as int + 12] == c;
  }

  lemma MiddlePunctuation(c: char)
    requires ':' <= c <= '@'
    ensures IsPunctuation(c)
  {
    var p := "!\"#$%&'()*+,./:;<=>?@[\\]^_`{|}~";
    assert p[c as int - ':' as int + 14] == c;
  }

  lemma HighPunctuation(c: char)
    requires '[' <= c <= '`' || '{' <= c <= '~'
    ensures IsPunctuation(c)
  {
    var p := "!\"#$%&'()*+,./:;<=>?@[\\]^_`{|}~";
    assert p[if c <= '`' then c as int - '[' as int + 21 else c as int - '{' as int + 27] == c;
  }

  /** JavaScript's white space by its code points. */
  lemma SpacesAre(c: char)
    ensures var n := c as int;
            IsJsSpace(c) <==>
            9 <= n <= 13 || n == 32 || n == 160 || n == 5760 || 8192 <= n <= 8202 || n == 8232 || n == 8233 || n == 8239
            || n == 8287 || n == 12288 || n == 65279
  {
  }

  // Words on two lines.

  predicate AreTabs(s: string) {
    forall i :: 0 <= i < |s| ==> s[i] == ' ' || s[i] == '\t'
  }

  lemma {:induction false} TabsSkipped(blanks: string, b: string)
    requires AreTabs(blanks) && (b != "" ==> b[0] != ' ' && b[0] != '\t')
    ensures SkipTabs(blanks + b) == b
  {
    if blanks == "" {
      assert blanks + b == b;
    } else {
      assert (blanks + b)[1..] == blanks[1..] + b;
      TabsSkipped(blanks[1..], b);
    }
  }

  lemma WordsAreNoTabs(a: string, b: string)
    requires IsWord(IsJsBreak, a) && IsWord(IsJsBreak, b)
    ensures IsWord(IsJsBreak, a + b) && b[0] != ' ' && b[0] != '\t' && NoNewline(a)
  {
    JsBreaksAtBlanks();
    NewlineIsBlank();
    assert IsBlank('\t');
    hide IsJsBreak, IsBlank;
  }

  /** A word divided at the end of a line is made whole, whatever blanks stand before its second part. */
  lemma DividedWordJoined(a: string, b: string, blanks: string)
    requires IsWord(IsJsBreak, a) && IsWord(IsJsBreak, b) && AreTabs(blanks)
    ensures NormalText(a + ("-\n" + (blanks + b))) == a + b
  {
    hide *;
    WordsAreNoTabs(a, b);
    var prepared := a + ("-\n" + (blanks + b));
    DehyphenateFirstLine(a, blanks + b);
    TabsSkipped(blanks, b);
    JsBreaksAtBlanks();
    WordHasNoBreaks(IsJsBreak, b);
    NoBreaks(b);
    WordHasNoBreaks(IsJsBreak, a + b);
    NoBreaks(a + b);
    NormalTextIsRendered(prepared);
    OneWord(IsJsBreak, a + b);
    RenderOne(a + b);
  }

  lemma RenderOne(a: string)
    ensures Render([[a]]) == a
  {
    assert Line1([a]) == a;
    assert Lines([[a]]) == [a];
  }

  /** Other words on two lines get a space between them. */
  lemma LinesJoined(a: string, b: string)
    requires IsWord(IsJsBreak, a) && IsWord(IsJsBreak, b) && a[|a| - 1] != '-'
    ensures NormalText(a + "\n" + b) == a + " " + b
  {
    assert a != "";
    hide *;
    JsBreaksAtBlanks();
    WordHasNoBreaks(IsJsBreak, a);
    WordHasNoBreaks(IsJsBreak, b);
    OneNewline(a, b);
    NoHyphensToTake(a + "\n" + b);
    NoFormFeeds(a + "\n" + b);
    NormalTextIsRendered(a + "\n" + b);
    TwoLines(IsJsBreak, a, b);
    RenderLine(a, b);
  }

  lemma OneNewline(a: string, b: string)
    requires '\n' !in a && '\n' !in b && FORM_FEED !in a && FORM_FEED !in b && a != "" && a[|a| - 1] != '-'
    ensures HyphensBefore('\n', a + "\n" + b) == 0 && FORM_FEED !in a + "\n" + b
  {
    hide HyphensBefore;
    var s := a + "\n" + b;
    HyphensBeforeMeans('\n', s);
    forall i: nat ensures !HyphenAt('\n', s, i) {
      assert i + 1 < |a| ==> s[i + 1] == a[i + 1] && a[i + 1] in a;
      assert |a| < i + 1 < |s| ==> s[i + 1] == b[i - |a|] && b[i - |a|] in b;
    }
    assert FORM_FEED !in "\n";
  }

  /** Blanks as they may stand in a blank line. */
  predicate AreLineBlanks(s: string) {
    forall i :: 0 <= i < |s| ==> s[i] == ' ' || s[i] == '\t' || s[i] == '\r' || s[i] == '\U{000B}'
  }

  lemma {:induction false} ScanLineBlanks(brk: Breaker, s: Scan, blanks: string)
    requires BreaksAtBlanks(brk) && AreLineBlanks(blanks) && s.line.current == ""
    ensures ScanFrom(brk, s, blanks) == s
    decreases |blanks|
  {
    if blanks != "" {
      ScanLineBlanks(brk, s, blanks[..|blanks| - 1]);
      var c := blanks[|blanks| - 1];
      assert IsBlank(c) && c != '\n';
    }
  }

  /** After a word and a newline. */
  lemma FirstLine(brk: Breaker, a: string)
    requires BreaksAtBlanks(brk) && IsWord(brk, a)
    ensures ScanFrom(brk, NOTHING, a + "\n") == Scan([], Line([a], ""), 1)
  {
    NewlineIsBlank();
    hide ScanFrom, IsBlank, AllWord;
    ScanOn(brk, NOTHING, a, "\n");
    ScanWord(brk, NOTHING, a);
    assert "" + a == a && [] + [a] == [a];
    ScanNewline(brk, Scan([], Line([], a), 0));
  }

  /** The last word closes the text. */
  lemma LastWord(brk: Breaker, s: Scan, b: string)
    requires BreaksAtBlanks(brk) && IsWord(brk, b) && s.line.current == ""
    ensures Finish(ScanFrom(brk, s, b)) == s.paragraphs + [s.line.words + [b]]
  {
    hide ScanFrom, IsBlank, AllWord;
    ScanWord(brk, s, b);
    assert "" + b == b;
  }

  /** A blank line, with or without blanks on it, parts two paragraphs. */
  lemma BlankLineParts(a: string, blanks: string, b: string)
    requires IsWord(IsJsBreak, a) && IsWord(IsJsBreak, b) && AreLineBlanks(blanks)
    ensures ParagraphsOf(IsJsBreak, a + "\n" + blanks + "\n" + b) == [[a], [b]]
  {
    JsBreaksAtBlanks();
    NewlineIsBlank();
    hide ScanFrom, IsBlank, IsJsBreak, IsWord, AreLineBlanks, BreaksAtBlanks, Finish;
    var brk := IsJsBreak;
    var start := Scan([], Line([a], ""), 1);
    ScanOn(brk, NOTHING, a + "\n" + blanks + "\n", b);
    ScanOn(brk, NOTHING, a + "\n" + blanks, "\n");
    ScanOn(brk, NOTHING, a + "\n", blanks);
    FirstLine(brk, a);
    ScanLineBlanks(brk, start, blanks);
    ScanNewline(brk, start);
    SecondNewline(brk, a);
    LastWord(brk, Scan([[a]], NO_LINE, 2), b);
    var none: seq<string> := [];
    assert none + [b] == [b] && [[a]] + [[b]] == [[a], [b]];
  }

  lemma SecondNewline(brk: Breaker, a: string)
    requires brk('\n')
    ensures Feed(brk, Scan([], Line([a], ""), 1), '\n') == Scan([[a]], NO_LINE, 2)
    ensures Feed(brk, Scan([], Line([a], ""), 0), '\n') == Scan([], Line([a], ""), 1)
  {
    assert [] + [[a]] == [[a]];
  }

  lemma AfterOtherSpace(brk: Breaker, a: string, c: char)
    requires BreaksAtBlanks(brk) && IsWord(brk, a) && brk(c) && !IsBlank(c)
    ensures ScanFrom(brk, NOTHING, a + "\n" + [c]) == Scan([], Line([a], ""), 0)
  {
    NewlineIsBlank();
    assert c != '\n';
    hide ScanFrom, IsBlank, IsWord, BreaksAtBlanks;
    var line := Line([a], "");
    ScanOn(brk, NOTHING, a + "\n", [c]);
    FirstLine(brk, a);
    ScanOne(brk, Scan([], line, 1), c);
    assert Feed(brk, Scan([], line, 1), c) == Scan([], line, 0);
  }

  lemma OtherSpaceIs(c: char)
    requires IsJsSpace(c) && !(9 <= c as int <= 13) && c != ' '
    ensures IsJsBreak(c) && !IsBlank(c)
  {
  }

  /** Other white space, such as a no-break space, is no blank of a blank line: the words around it stay together. */
  lemma OtherSpaceKeepsTogether(a: string, c: char, b: string)
    requires IsWord(IsJsBreak, a) && IsWord(IsJsBreak, b) && IsJsSpace(c) && !(9 <= c as int <= 13) && c != ' '
    ensures ParagraphsOf(IsJsBreak, a + "\n" + [c] + "\n" + b) == [[a, b]]
  {
    hide ScanFrom, IsBlank, IsJsBreak, IsWord, BreaksAtBlanks, IsJsSpace, Finish, Feed;
    JsBreaksAtBlanks();
    TabBreaks();
    OtherSpaceIs(c);
    var brk := IsJsBreak;
    var first := a + "\n" + [c];
    ScanOn(brk, NOTHING, first + "\n", b);
    ScanOn(brk, NOTHING, first, "\n");
    AfterOtherSpace(brk, a, c);
    ScanNewline(brk, Scan([], Line([a], ""), 0));
    SecondNewline(brk, a);
    LastWord(brk, Scan([], Line([a], ""), 1), b);
    assert [a] + [b] == [a, b] && [] + [[a, b]] == [[a, b]];
  }

  lemma ScanOne(brk: Breaker, s: Scan, c: char)
    ensures ScanFrom(brk, s, [c]) == Feed(brk, s, c)
  {
    hide Feed;
    assert [c][..0] == "";
  }
}
