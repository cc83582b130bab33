/** A reader for canonical text, and what it shows about the serialiser. */
module JsonReader {
  import opened Bytes
  import opened JsStrings
  import opened Json
  import opened JsonText
  import opened CanonicalJson
  import Sorting

  function ReadValue(s: JsString): (r: Read<Json>)
    ensures r.Some? ==> |r.value.1| < |s|
    decreases |s|, 1
  {
    if s == [] then None
    else if Lit("null") <= s then Some((Null, s[4..]))
    else if Lit("true") <= s then Some((Bool(true), s[4..]))
    else if Lit("false") <= s then Some((Bool(false), s[5..]))
    else if s[0] == QUOTE then
      match ReadQuoted(s[1..])
      case None => None
      case Some((text, rest)) => Some((Str(text), rest))
    else if s[0] == OPEN_BRACKET then
      if |s| > 1 && s[1] == CLOSE_BRACKET then Some((Arr([]), s[2..]))
      else
        match ReadItems(s[1..])
        case None => None
        case Some((items, rest)) => Some((Arr(items), rest))
    else if s[0] == OPEN_BRACE then
      if |s| > 1 && s[1] == CLOSE_BRACE then Some((Obj([]), s[2..]))
      else
        match ReadMembers(s[1..])
        case None => None
        case Some((fields, rest)) => Some((Obj(fields), rest))
    else
      match ReadDecimal(s)
      case None => None
      case Some((n, rest)) => Some((Num(Integer(n)), rest))
  }

  /** One or more items up to the closing bracket. */
  function ReadItems(s: JsString): (r: Read<seq<Json>>)
    ensures r.Some? ==> |r.value.1| < |s|
    decreases |s|, 2
  {
    match ReadValue(s)
    case None => None
    case Some((first, rest)) =>
      if rest != [] && rest[0] == CLOSE_BRACKET then Some(([first], rest[1..]))
      else if rest != [] && rest[0] == COMMA then
        match ReadItems(rest[1..])
        case None => None
        case Some((items, end)) => Some(([first] + items, end))
      else None
  }

  function ReadMember(s: JsString): (r: Read<Field>)
    ensures r.Some? ==> |r.value.1| < |s|
    decreases |s|, 2
  {
    if s == [] || s[0] != QUOTE then None
    else
      match ReadQuoted(s[1..])
      case None => None
      case Some((name, rest)) =>
        if rest == [] || rest[0] != COLON then None
        else
          match ReadValue(rest[1..])
          case None => None
          case Some((value, end)) => Some((Field(name, value), end))
  }

  /** One or more members up to the closing brace. */
  function ReadMembers(s: JsString): (r: Read<seq<Field>>)
    ensures r.Some? ==> |r.value.1| < |s|
    decreases |s|, 3
  {
    match ReadMember(s)
    case None => None
    case Some((first, rest)) =>
      if rest != [] && rest[0] == CLOSE_BRACE then Some(([first], rest[1..]))
      else if rest != [] && rest[0] == COMMA then
        match ReadMembers(rest[1..])
        case None => None
        case Some((fields, end)) => Some(([first] + fields, end))
      else None
  }

  /** Reads a whole text. */
  function Parse(s: JsString): Option<Json> {
    var r := ReadValue(s);
    if r.Some? && r.value.1 == [] then Some(r.value.0) else None
  }

  /** Values that plain text represents faithfully. */
  predicate Readable(v: Json) {
    match v
    case Undefined => false
    case Other => false
    case Num(n) => n.Integer?
    case Arr(items) => forall i :: 0 <= i < |items| ==> Readable(items[i])
    case Obj(fields) => forall i :: 0 <= i < |fields| ==> Readable(fields[i].value)
    case _ => true
  }

  lemma {:induction false} FirstUnit(v: Json)
    requires Readable(v)
    ensures Write(v) != [] && Write(v)[0] != CLOSE_BRACKET && Write(v)[0] != CLOSE_BRACE
  {
  }

  lemma {:induction false} ReadLiteral(v: Json, rest: JsString)
    requires v.Null? || v.Bool?
    ensures ReadValue(Write(v) + rest) == Some((v, rest))
  {
    var s := Write(v) + rest;
    assert s[|Write(v)|..] == rest;
    assert Write(v) <= s;
    if v == Bool(true) {
      assert s[0] != Lit("null")[0];
    } else if v == Bool(false) {
      assert s[0] != Lit("null")[0] && s[0] != Lit("true")[0];
    }
  }

  lemma NotLiteral(s: JsString)
    requires s != [] && (s[0] < 0x61 || s[0] == OPEN_BRACE)
    ensures !(Lit("null") <= s) && !(Lit("true") <= s) && !(Lit("false") <= s)
  {
    assert Lit("null")[0] == 0x6E && Lit("true")[0] == 0x74 && Lit("false")[0] == 0x66;
  }

  lemma {:induction false} ReadString(text: JsString, rest: JsString)
    ensures ReadValue(Quoted(text) + rest) == Some((Str(text), rest))
  {
    var s := Quoted(text) + rest;
    NotLiteral(s);
    assert s[1..] == Escape(text) + [QUOTE] + rest;
    ReadEscaped(text, rest);
  }

  lemma {:induction false} ReadNumber(n: int, rest: JsString)
    requires !StartsWithDigit(rest)
    ensures ReadValue(Decimal(n) + rest) == Some((Num(Integer(n)), rest))
  {
    var s := Decimal(n) + rest;
    assert s[0] == Decimal(n)[0];
    NotLiteral(s);
    ReadDecimalBack(n, rest);
  }

  lemma {:induction false} ReadArray(items: seq<Json>, text: JsString, rest: JsString)
    requires items == [] ==> text == []
    requires items != [] ==> text != [] && text[0] != CLOSE_BRACKET
    requires items != [] ==> ReadItems(text + [CLOSE_BRACKET] + rest) == Some((items, rest))
    ensures ReadValue([OPEN_BRACKET] + text + [CLOSE_BRACKET] + rest) == Some((Arr(items), rest))
  {
    hide ReadItems;
    var s := [OPEN_BRACKET] + text + [CLOSE_BRACKET] + rest;
    NotLiteral(s);
    assert s[1..] == text + [CLOSE_BRACKET] + rest;
    if items == [] {
      assert s[2..] == rest;
    }
  }

  lemma {:induction false} ReadObject(fields: seq<Field>, text: JsString, rest: JsString)
    requires fields == [] ==> text == []
    requires fields != [] ==> text != [] && text[0] != CLOSE_BRACE
    requires fields != [] ==> ReadMembers(text + [CLOSE_BRACE] + rest) == Some((fields, rest))
    ensures ReadValue([OPEN_BRACE] + text + [CLOSE_BRACE] + rest) == Some((Obj(fields), rest))
  {
    hide ReadMembers;
    var s := [OPEN_BRACE] + text + [CLOSE_BRACE] + rest;
    NotLiteral(s);
    assert s[1..] == text + [CLOSE_BRACE] + rest;
    if fields == [] {
      assert s[2..] == rest;
    }
  }

  lemma {:induction false} LastItem(s: JsString, first: Json, rest: JsString)
    requires ReadValue(s) == Some((first, [CLOSE_BRACKET] + rest))
    ensures ReadItems(s) == Some(([first], rest))
  {
    hide ReadValue;
    assert ([CLOSE_BRACKET] + rest)[1..] == rest;
  }

  lemma {:induction false} NextItem(s: JsString, first: Json, more: JsString, items: seq<Json>, rest: JsString)
    requires ReadValue(s) == Some((first, [COMMA] + more))
    requires ReadItems(more) == Some((items, rest))
    ensures ReadItems(s) == Some(([first] + items, rest))
  {
    hide ReadValue;
    assert ([COMMA] + more)[1..] == more;
  }

  lemma {:induction false} LastMember(s: JsString, first: Field, rest: JsString)
    requires ReadMember(s) == Some((first, [CLOSE_BRACE] + rest))
    ensures ReadMembers(s) == Some(([first], rest))
  {
    hide ReadMember;
    assert ([CLOSE_BRACE] + rest)[1..] == rest;
  }

  lemma {:induction false} NextMember(s: JsString, first: Field, more: JsString, fields: seq<Field>, rest: JsString)
    requires ReadMember(s) == Some((first, [COMMA] + more))
    requires ReadMembers(more) == Some((fields, rest))
    ensures ReadMembers(s) == Some(([first] + fields, rest))
  {
    hide ReadMember;
    assert ([COMMA] + more)[1..] == more;
  }

  lemma {:induction false} OneMember(s: JsString, name: JsString, value: Json, text: JsString, rest: JsString)
    requires s == [QUOTE] + (Escape(name) + [QUOTE] + ([COLON] + text))
    requires ReadValue(text) == Some((value, rest))
    ensures ReadMember(s) == Some((Field(name, value), rest))
  {
    hide ReadValue;
    ReadEscaped(name, [COLON] + text);
    assert s[1..] == Escape(name) + [QUOTE] + ([COLON] + text);
    assert ([COLON] + text)[1..] == text;
  }

  /** Plain text is read back, whatever follows it. */
  lemma {:induction false} ReadBack(v: Json, rest: JsString)
    requires Readable(v) && !StartsWithDigit(rest)
    ensures ReadValue(Write(v) + rest) == Some((v, rest))
    decreases v, 2
  {
    hide ReadValue;
    match v
    case Null => ReadLiteral(v, rest);
    case Bool(b) => ReadLiteral(v, rest);
    case Num(n) => ReadNumber(n.n, rest);
    case Str(s) => ReadString(s, rest);
    case Arr(items) =>
      if items != [] {
        FirstUnit(items[0]);
        ReadItemsBack(items, rest);
      }
      ReadArray(items, WriteItems(items), rest);
    case Obj(fields) =>
      if fields != [] {
        MembersStartQuoted(fields);
        ReadMembersBack(fields, rest);
      }
      ReadObject(fields, WriteMembers(fields), rest);
  }

  lemma {:induction false} ItemsText(items: seq<Json>, s: JsString, rest: JsString)
    requires items != [] && s == WriteItems(items) + [CLOSE_BRACKET] + rest
    ensures |items| == 1 ==> s == Write(items[0]) + ([CLOSE_BRACKET] + rest)
    ensures |items| > 1 ==> s == Write(items[0]) + ([COMMA] + (WriteItems(items[1..]) + [CLOSE_BRACKET] + rest))
  {
    hide Write;
  }

  lemma {:induction false} ReadItemsBack(items: seq<Json>, rest: JsString)
    requires items != [] && forall i :: 0 <= i < |items| ==> Readable(items[i])
    ensures ReadItems(WriteItems(items) + [CLOSE_BRACKET] + rest) == Some((items, rest))
    decreases items, 1
  {
    var s := WriteItems(items) + [CLOSE_BRACKET] + rest;
    ItemsText(items, s, rest);
    hide ReadValue, ReadItems, WriteItems, Write;
    if |items| == 1 {
      ReadBack(items[0], [CLOSE_BRACKET] + rest);
      LastItem(s, items[0], rest);
      assert items == [items[0]];
    } else {
      var more := WriteItems(items[1..]) + [CLOSE_BRACKET] + rest;
      ReadBack(items[0], [COMMA] + more);
      ReadItemsBack(items[1..], rest);
      NextItem(s, items[0], more, items[1..], rest);
      assert items == [items[0]] + items[1..];
    }
  }

  lemma {:induction false} MembersText(fields: seq<Field>, s: JsString, rest: JsString)
    requires fields != [] && s == WriteMembers(fields) + [CLOSE_BRACE] + rest
    ensures |fields| == 1 ==> s == WriteMember(fields[0]) + ([CLOSE_BRACE] + rest)
    ensures |fields| > 1 ==>
            s == WriteMember(fields[0]) + ([COMMA] + (WriteMembers(fields[1..]) + [CLOSE_BRACE] + rest))
  {
    hide WriteMember;
  }

  lemma {:induction false} ReadMembersBack(fields: seq<Field>, rest: JsString)
    requires fields != [] && forall i :: 0 <= i < |fields| ==> Readable(fields[i].value)
    ensures ReadMembers(WriteMembers(fields) + [CLOSE_BRACE] + rest) == Some((fields, rest))
    decreases fields, 1
  {
    var s := WriteMembers(fields) + [CLOSE_BRACE] + rest;
    MembersText(fields, s, rest);
    hide ReadValue, ReadMember, ReadMembers, WriteMembers, WriteMember, Write;
    if |fields| == 1 {
      ReadMemberBack(fields[0], [CLOSE_BRACE] + rest);
      LastMember(s, fields[0], rest);
      assert fields == [fields[0]];
    } else {
      var more := WriteMembers(fields[1..]) + [CLOSE_BRACE] + rest;
      ReadMemberBack(fields[0], [COMMA] + more);
      ReadMembersBack(fields[1..], rest);
      NextMember(s, fields[0], more, fields[1..], rest);
      assert fields == [fields[0]] + fields[1..];
    }
  }

  lemma {:induction false} ReadMemberBack(field: Field, rest: JsString)
    requires Readable(field.value) && !StartsWithDigit(rest)
    ensures ReadMember(WriteMember(field) + rest) == Some((field, rest))
    decreases field, 3
  {
    hide ReadValue, ReadMember;
    var text := Write(field.value) + rest;
    ReadBack(field.value, rest);
    assert WriteMember(field) + rest == [QUOTE] + (Escape(field.name) + [QUOTE] + ([COLON] + text));
    OneMember(WriteMember(field) + rest, field.name, field.value, text, rest);
  }

  lemma {:induction false} MembersStartQuoted(fields: seq<Field>)
    requires fields != []
    ensures WriteMembers(fields) != [] && WriteMembers(fields)[0] == QUOTE
  {
    assert WriteMember(fields[0])[0] == QUOTE;
  }

  // What the reader shows about the serialiser.

  lemma {:induction false} NormalReadable(v: Json)
    requires Serialisable(v)
    ensures Readable(Normal(v))
  {
    match v
    case Arr(items) =>
      forall i | 0 <= i < |items| ensures Readable(NormalItems(items)[i]) {
        NormalReadable(items[i]);
      }
    case Obj(fields) =>
      var normal := NormalFields(fields);
      forall i | 0 <= i < |fields| ensures Readable(normal[i].value) {
        NormalReadable(fields[i].value);
      }
      SortedReadable(normal);
      assert Normal(v) == Obj(Sorting.Sort(FieldLess, normal));
    case _ =>
  }

  lemma {:induction false} SortedReadable(fields: seq<Field>)
    requires forall i :: 0 <= i < |fields| ==> Readable(fields[i].value)
    ensures var sorted := Sorting.Sort(FieldLess, fields);
            forall i :: 0 <= i < |sorted| ==> Readable(sorted[i].value)
  {
    var sorted := Sorting.Sort(FieldLess, fields);
    Sorting.SortKeeps(FieldLess, fields);
    Sorting.SameElements(fields, sorted);
    forall i | 0 <= i < |sorted| ensures Readable(sorted[i].value) {
      assert sorted[i] in fields;
    }
  }

  /** Parsing recovers every serialisable value, with its names sorted. */
  lemma RoundTrip(v: Json)
    requires Serialisable(v)
    ensures Canonicalize(v).Ok? && Parse(Canonicalize(v).value) == Some(Normal(v))
  {
    CanonicalizeWrites(v);
    NormalReadable(v);
    ReadBack(Normal(v), []);
    assert Write(Normal(v)) + [] == Write(Normal(v));
  }

  /** Two values have the same canonical text exactly when they are the same but for key order. */
  lemma CanonicalTextDecides(v: Json, w: Json)
    requires Serialisable(v) && Serialisable(w) && HasDistinctNames(v) && HasDistinctNames(w)
    ensures Canonicalize(v) == Canonicalize(w) <==> SameValue(v, w)
  {
    CanonicalizeWrites(v);
    CanonicalizeWrites(w);
    RoundTrip(v);
    RoundTrip(w);
    NormalDecides(v, w);
  }

  // The text has no lone surrogates, so its bytes determine it.

  lemma {:induction false} WriteWellFormed(v: Json)
    ensures WellFormed(Write(v))
    decreases v, 1
  {
    match v
    case Null => PlainUnits(Write(v));
    case Bool(b) => PlainUnits(Write(v));
    case Num(Integer(n)) => PlainUnits(Write(v));
    case Str(s) => QuotedWellFormed(s);
    case Arr(items) =>
      ItemsWellFormed(items);
      Enclosed(OPEN_BRACKET, WriteItems(items), CLOSE_BRACKET);
    case Obj(fields) =>
      MembersWellFormed(fields);
      Enclosed(OPEN_BRACE, WriteMembers(fields), CLOSE_BRACE);
    case _ =>
  }

  lemma {:induction false} Enclosed(open: Unit, text: JsString, close: Unit)
    requires WellFormed(text) && open < 0x80 && close < 0x80
    ensures WellFormed([open] + text + [close])
  {
    PlainUnits([open]);
    PlainUnits([close]);
    WellFormedAppend([open], text);
    WellFormedAppend([open] + text, [close]);
  }

  lemma {:induction false} ItemsWellFormed(items: seq<Json>)
    ensures WellFormed(WriteItems(items))
    decreases items, 0
  {
    if items != [] {
      WriteWellFormed(items[0]);
      if |items| > 1 {
        ItemsWellFormed(items[1..]);
        Separated(Write(items[0]), COMMA, WriteItems(items[1..]));
      }
    }
  }

  lemma {:induction false} Separated(first: JsString, mark: Unit, rest: JsString)
    requires WellFormed(first) && WellFormed(rest) && mark < 0x80
    ensures WellFormed(first + [mark] + rest)
  {
    PlainUnits([mark]);
    WellFormedAppend(first, [mark]);
    WellFormedAppend(first + [mark], rest);
  }

  lemma {:induction false} MembersWellFormed(fields: seq<Field>)
    ensures WellFormed(WriteMembers(fields))
    decreases fields, 0
  {
    if fields != [] {
      QuotedWellFormed(fields[0].name);
      WriteWellFormed(fields[0].value);
      Separated(Quoted(fields[0].name), COLON, Write(fields[0].value));
      if |fields| > 1 {
        MembersWellFormed(fields[1..]);
        Separated(WriteMember(fields[0]), COMMA, WriteMembers(fields[1..]));
      }
    }
  }

  /** The canonical bytes determine the value, up to key order. */
  lemma CanonicalBytesDecide(v: Json, w: Json)
    requires Serialisable(v) && Serialisable(w) && HasDistinctNames(v) && HasDistinctNames(w)
    ensures CanonicalBytes(v) == CanonicalBytes(w) <==> SameValue(v, w)
  {
    CanonicalizeWrites(v);
    CanonicalizeWrites(w);
    CanonicalTextDecides(v, w);
    WriteWellFormed(Normal(v));
    WriteWellFormed(Normal(w));
    Utf8RoundTrip(Write(Normal(v)));
    Utf8RoundTrip(Write(Normal(w)));
  }

  // What a reader finds under a name.

  function ParseBytes(b: Bytes): Option<Json> {
    match FromUtf8(b) case None => None case Some(text) => Parse(text)
  }

  /** The canonical bytes are read as the value with its names sorted. */
  lemma BytesParse(v: Json)
    requires Serialisable(v)
    ensures CanonicalBytes(v).Ok? && ParseBytes(CanonicalBytes(v).value) == Some(Normal(v))
  {
    hide Normal, Canonicalize, Write, Parse, Utf8, FromUtf8, WellFormed, Serialisable;
    RoundTrip(v);
    CanonicalizeWrites(v);
    WriteWellFormed(Normal(v));
    Utf8RoundTrip(Write(Normal(v)));
  }

  lemma {:induction false} LookupIn(fields: seq<Field>, x: Field)
    requires DistinctNames(fields) && x in fields
    ensures Lookup(fields, x.name) == x.value
    decreases |fields|
  {
    if fields[0] != x {
      assert fields == [fields[0]] + fields[1..];
      var i :| 0 <= i < |fields| && fields[i] == x;
      assert fields[0].name != fields[i].name;
      LookupIn(fields[1..], x);
    }
  }

  lemma {:induction false} LookupAbsent(fields: seq<Field>, name: JsString)
    requires forall x :: x in fields ==> x.name != name
    ensures Lookup(fields, name) == Undefined
    decreases |fields|
  {
    if fields != [] {
      assert fields[0] in fields && forall x :: x in fields[1..] ==> x in fields;
      LookupAbsent(fields[1..], name);
    }
  }

  predicate Names(fields: seq<Field>, name: JsString) {
    exists x :: x in fields && x.name == name
  }

  /** Sorting keeps the fields, each with its value sorted. */
  lemma NormalObject(fields: seq<Field>)
    requires DistinctNames(fields)
    ensures var v := Normal(Obj(fields));
            && v.Obj? && DistinctNames(v.fields)
            && forall y :: y in v.fields <==> y in NormalFields(fields)
  {
    var normal := NormalFields(fields);
    assert Normal(Obj(fields)) == Obj(Sorting.Sort(FieldLess, normal));
    hide Normal, FieldLess;
    NormalNames(fields);
    SortedNames(normal);
    Sorting.SortKeeps(FieldLess, normal);
    Sorting.SameElements(normal, Sorting.Sort(FieldLess, normal));
  }

  /** Reading a property of the sorted object is reading it before. */
  lemma LookupNormal(fields: seq<Field>, name: JsString)
    requires DistinctNames(fields)
    ensures Lookup(Normal(Obj(fields)).fields, name) == Normal(Lookup(fields, name))
  {
    NormalUndefined();
    hide Normal, Lookup, DistinctNames;
    NormalObject(fields);
    var normal, sorted := NormalFields(fields), Normal(Obj(fields)).fields;
    if Names(fields, name) {
      var x :| x in fields && x.name == name;
      LookupIn(fields, x);
      var i :| 0 <= i < |fields| && fields[i] == x;
      assert normal[i] in normal;
      LookupIn(sorted, normal[i]);
    } else {
      LookupAbsent(fields, name);
      forall y | y in sorted ensures y.name != name {
        var i :| 0 <= i < |normal| && normal[i] == y;
        assert fields[i] in fields;
      }
      LookupAbsent(sorted, name);
    }
  }

  lemma NormalUndefined()
    ensures Normal(Undefined) == Undefined
  {
  }

  lemma SortedNames(fields: seq<Field>)
    requires DistinctNames(fields)
    ensures DistinctNames(Sorting.Sort(FieldLess, fields))
  {
    FieldOrder(fields);
    Sorting.SortKeeps(FieldLess, fields);
    var sorted := Sorting.Sort(FieldLess, fields);
    Sorting.DistinctPermuted(fields, sorted);
    Sorting.SameElements(fields, sorted);
    hide FieldLess;
    forall i, j | 0 <= i < j < |sorted| ensures sorted[i].name != sorted[j].name {
      assert sorted[i] in fields && sorted[j] in fields && sorted[i] != sorted[j];
      var k :| 0 <= k < |fields| && fields[k] == sorted[i];
      var l :| 0 <= l < |fields| && fields[l] == sorted[j];
      assert k != l;
    }
  }

  /** What a reader of the canonical bytes of an object finds under each name. */
  lemma PropertiesRead(fields: seq<Field>, name: JsString)
    requires Serialisable(Obj(fields)) && DistinctNames(fields)
    ensures CanonicalBytes(Obj(fields)).Ok?
    ensures var v := ParseBytes(CanonicalBytes(Obj(fields)).value);
            v.Some? && v.value.Obj? && Lookup(v.value.fields, name) == Normal(Lookup(fields, name))
  {
    BytesParse(Obj(fields));
    LookupNormal(fields, name);
    hide CanonicalBytes, ParseBytes, Lookup;
  }
}
