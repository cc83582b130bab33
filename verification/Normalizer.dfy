/** The shingling library's text normalisation, pass by pass. */
module Normalizer {
  import opened Words
  import opened Paragraphs
  import opened Tokenizer

  /** NFC followed by lowercasing, as the platform does them. */
  type Fold = string -> string

  type Table = seq<(char, string)>

  const SMART_PUNCTUATION: Table := [
    ('\U{2018}', "'"), ('\U{2019}', "'"), ('\U{201C}', "\""), ('\U{201D}', "\""),
    ('\U{2013}', "-"), ('\U{2014}', "-"), ('\U{2026}', "...")]

  const LIGATURES: Table := [
    ('\U{FB00}', "ff"), ('\U{FB01}', "fi"), ('\U{FB02}', "fl"), ('\U{FB03}', "ffi"), ('\U{FB04}', "ffl")]

  const SOFT_HYPHEN: char := '\U{00AD}'

  // Replacing characters.

  /** s.split(from).join(to) */
  function Replace(s: string, from: char, to: string): string {
    if s == "" then "" else (if s[0] == from then to else [s[0]]) + Replace(s[1..], from, to)
  }

  function Mapped(table: Table, c: char): string
    decreases |table|
  {
    if table == [] then [c] else if table[0].0 == c then table[0].1 else Mapped(table[1..], c)
  }

  /** Every character is replaced once, by its entry in the table. */
  function Substitute(table: Table, s: string): string {
    if s == "" then "" else Mapped(table, s[0]) + Substitute(table, s[1..])
  }

  predicate IsAscii(s: string) {
    forall i :: 0 <= i < |s| ==> s[i] < '\U{0080}'
  }

  /** Characters beyond ASCII become ASCII. */
  predicate ToAscii(table: Table) {
    forall i :: 0 <= i < |table| ==> table[i].0 >= '\U{0080}' && IsAscii(table[i].1)
  }

  lemma {:induction false} SubstituteSum(table: Table, a: string, b: string)
    ensures Substitute(table, a + b) == Substitute(table, a) + Substitute(table, b)
  {
    hide Mapped;
    if a == "" {
      assert a + b == b;
    } else {
      SubstituteSum(table, a[1..], b);
      assert (a + b)[0] == a[0] && (a + b)[1..] == a[1..] + b;
      Regroup(Mapped(table, a[0]), Substitute(table, a[1..]), Substitute(table, b));
    }
  }

  lemma {:induction false} AsciiStays(table: Table, s: string)
    requires ToAscii(table) && IsAscii(s)
    ensures Substitute(table, s) == s
  {
    if s != "" {
      AsciiUnmapped(table, s[0]);
      AsciiStays(table, s[1..]);
    }
  }

  lemma {:induction false} AsciiUnmapped(table: Table, c: char)
    requires ToAscii(table) && c < '\U{0080}'
    ensures Mapped(table, c) == [c]
    decreases |table|
  {
    if table != [] {
      AsciiUnmapped(table[1..], c);
    }
  }

  lemma {:induction false} MappedTwice(table: Table, more: Table, c: char)
    requires ToAscii(table) && ToAscii(more)
    ensures Substitute(more, Mapped(table, c)) == Mapped(table + more, c)
    decreases |table|
  {
    if table == [] {
      assert table + more == more;
      assert [c][1..] == "";
      assert Mapped(more, c) + "" == Mapped(more, c);
    } else if table[0].0 == c {
      AsciiStays(more, table[0].1);
    } else {
      MappedTwice(table[1..], more, c);
      assert (table + more)[1..] == table[1..] + more;
    }
  }

  /** One table after another is both at once. */
  lemma {:induction false} SubstituteTwice(table: Table, more: Table, s: string)
    requires ToAscii(table) && ToAscii(more)
    ensures Substitute(more, Substitute(table, s)) == Substitute(table + more, s)
  {
    if s != "" {
      hide ToAscii;
      MappedTwice(table, more, s[0]);
      SubstituteSum(more, Mapped(table, s[0]), Substitute(table, s[1..]));
      SubstituteTwice(table, more, s[1..]);
    }
  }

  lemma {:induction false} ReplaceIsSubstitute(s: string, from: char, to: string)
    ensures Replace(s, from, to) == Substitute([(from, to)], s)
  {
    if s != "" {
      ReplaceIsSubstitute(s[1..], from, to);
      assert Mapped([(from, to)], s[0]) == if s[0] == from then to else [s[0]];
    }
  }

  /** Replacing entry by entry is one substitution, for tables that map to ASCII. */
  method ReplaceMap(s: string, table: Table) returns (out: string)
    requires ToAscii(table)
    ensures out == Substitute(table, s)
  {
    out := s;
    NothingMapped(s);
    for i := 0 to |table|
      invariant out == Substitute(table[..i], s)
    {
      ghost var before, entry: Table := table[..i], [table[i]];
      ReplaceIsSubstitute(out, table[i].0, table[i].1);
      SubstituteTwice(before, entry, s);
      assert table[..i + 1] == before + entry;
      out := Replace(out, table[i].0, table[i].1);
    }
    assert table[..|table|] == table;
  }

  lemma {:induction false} NothingMapped(s: string)
    ensures Substitute([], s) == s
  {
    if s != "" {
      NothingMapped(s[1..]);
    }
  }

  function Prepared(s: string): string {
    Replace(Substitute(SMART_PUNCTUATION + LIGATURES, s), SOFT_HYPHEN, "")
  }

  lemma TablesToAscii()
    ensures ToAscii(SMART_PUNCTUATION) && ToAscii(LIGATURES)
  {
  }

  // Line breaks.

  function SkipTabs(s: string): (r: string)
    ensures |r| <= |s|
  {
    if s != "" && (s[0] == ' ' || s[0] == '\t') then SkipTabs(s[1..]) else s
  }

  /** A hyphen at the end of a line goes, with the line break and the blanks after it. */
  function Dehyphenate(s: string): string
    decreases |s|
  {
    if |s| < 2 then s
    else if s[0] == '-' && s[1] == '\n' then Dehyphenate(SkipTabs(s[2..]))
    else [s[0]] + Dehyphenate(s[1..])
  }

  function FormFeeds(s: string): string {
    Replace(s, FORM_FEED, BREAK)
  }

  // Paragraphs.

  predicate IsPunctuation(c: char) {
    c in "!\"#$%&'()*+,./:;<=>?@[\\]^_`{|}~"
  }

  /** JavaScript's white space, as \s and trim know it. */
  predicate IsJsSpace(c: char) {
    '\t' <= c <= '\r' || c == ' ' || c == '\U{00A0}' || c == '\U{1680}' || '\U{2000}' <= c <= '\U{200A}'
    || c == '\U{2028}' || c == '\U{2029}' || c == '\U{202F}' || c == '\U{205F}' || c == '\U{3000}' || c == '\U{FEFF}'
  }

  /** Newlines and punctuation become spaces. */
  function Spaced(s: string): (r: string)
    ensures |r| == |s| && forall i :: 0 <= i < |s| ==> r[i] == if s[i] == '\n' || IsPunctuation(s[i]) then ' ' else s[i]
  {
    if s == "" then ""
    else
      var last := s[|s| - 1];
      Spaced(s[..|s| - 1]) + [if last == '\n' || IsPunctuation(last) then ' ' else last]
  }

  /** Runs of white space become one space. */
  function Collapse(space: Breaker, s: string): string
    decreases |s|
  {
    if s == "" then ""
    else
      var front, last := s[..|s| - 1], s[|s| - 1];
      Collapse(space, front)
      + if !space(last) then [last] else if front != "" && space(front[|front| - 1]) then "" else " "
  }

  function TrimStart(space: Breaker, s: string): string {
    if s != "" && space(s[0]) then TrimStart(space, s[1..]) else s
  }

  function TrimEnd(space: Breaker, s: string): string
    decreases |s|
  {
    if s != "" && space(s[|s| - 1]) then TrimEnd(space, s[..|s| - 1]) else s
  }

  function Cleaned(s: string): string {
    TrimEnd(IsJsSpace, TrimStart(IsJsSpace, Collapse(IsJsSpace, Spaced(s))))
  }

  /** The parts that are not empty once cleaned. */
  function CleanedParts(parts: seq<string>): seq<string>
    decreases |parts|
  {
    if parts == [] then []
    else
      var last := Cleaned(parts[|parts| - 1]);
      CleanedParts(parts[..|parts| - 1]) + if last == "" then [] else [last]
  }

  /** What becomes of a prepared text. */
  function NormalText(prepared: string): string {
    Join(CleanedParts(SplitParagraphs(FormFeeds(Dehyphenate(prepared)))), BREAK)
  }

  function Normalized(fold: Fold, raw: string): string {
    NormalText(Prepared(fold(raw)))
  }

  method NormalizeForShingling(fold: Fold, raw: string) returns (normalized: string)
    ensures normalized == Normalized(fold, raw)
  {
    hide Substitute, Replace, Dehyphenate, SplitParagraphs, CleanedParts, Join;
    TablesToAscii();
    var s := fold(raw);
    SubstituteTwice(SMART_PUNCTUATION, LIGATURES, s);
    s := ReplaceMap(s, SMART_PUNCTUATION);
    s := ReplaceMap(s, LIGATURES);
    s := Replace(s, SOFT_HYPHEN, "");
    s := Dehyphenate(s);
    s := Replace(s, FORM_FEED, BREAK);
    var paragraphs := SplitParagraphs(s);
    normalized := Join(CleanedParts(paragraphs), BREAK);
  }
}
