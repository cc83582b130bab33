/** The RFC 8785 serialiser, restricted to safe integers. */
module CanonicalJson {
  import opened Bytes
  import opened JsStrings
  import opened Json
  import opened JsonText
  import Lexicographic
  import Sorting

  const COMMA: Unit := 0x2C
  const COLON: Unit := 0x3A
  const OPEN_BRACKET: Unit := 0x5B
  const CLOSE_BRACKET: Unit := 0x5D
  const OPEN_BRACE: Unit := 0x7B
  const CLOSE_BRACE: Unit := 0x7D

  const MAX_SAFE_INTEGER: int := 0x1F_FFFF_FFFF_FFFF

  datatype JsonError = Unserialisable | NonFiniteNumber | UnsafeNumber

  type Text = Result<JsString, JsonError>

  type Part = (JsString, Text)

  predicate IsSafe(n: int) {
    -MAX_SAFE_INTEGER <= n <= MAX_SAFE_INTEGER
  }

  predicate PartLess(a: Part, b: Part) {
    JsStrings.Less(a.0, b.0)
  }

  predicate FieldLess(a: Field, b: Field) {
    JsStrings.Less(a.name, b.name)
  }

  /** Names are sorted by code units; the first failing value, in that order, decides the error. */
  function Canonicalize(v: Json): Text {
    match v
    case Undefined => Err(Unserialisable)
    case Null => Ok(Lit("null"))
    case Bool(b) => Ok(if b then Lit("true") else Lit("false"))
    case Num(NonFinite) => Err(NonFiniteNumber)
    case Num(Fraction) => Err(UnsafeNumber)
    case Num(NegativeZero) => Ok(Lit("0"))
    case Num(Integer(n)) => if IsSafe(n) then Ok(Decimal(n)) else Err(UnsafeNumber)
    case Str(s) => Ok(Quoted(s))
    case Arr(items) =>
      (match CanonicalItems(items)
       case Err(e) => Err(e)
       case Ok(text) => Ok([OPEN_BRACKET] + text + [CLOSE_BRACKET]))
    case Obj(fields) =>
      (match JoinParts(Sorting.Sort(PartLess, Parts(fields)))
       case Err(e) => Err(e)
       case Ok(text) => Ok([OPEN_BRACE] + text + [CLOSE_BRACE]))
    case Other => Err(Unserialisable)
  }

  function CanonicalItems(items: seq<Json>): Text {
    if items == [] then Ok([])
    else
      match (Canonicalize(items[0]), CanonicalItems(items[1..]))
      case (Err(e), _) => Err(e)
      case (_, Err(e)) => Err(e)
      case (Ok(first), Ok(rest)) => Ok(if |items| == 1 then first else first + [COMMA] + rest)
  }

  function Parts(fields: seq<Field>): (r: seq<Part>)
    ensures |r| == |fields|
  {
    if fields == [] then [] else [(fields[0].name, Canonicalize(fields[0].value))] + Parts(fields[1..])
  }

  function JoinParts(parts: seq<Part>): Text
    decreases |parts|
  {
    if parts == [] then Ok([])
    else
      match (parts[0].1, JoinParts(parts[1..]))
      case (Err(e), _) => Err(e)
      case (_, Err(e)) => Err(e)
      case (Ok(first), Ok(rest)) =>
        var member := Quoted(parts[0].0) + [COLON] + first;
        Ok(if |parts| == 1 then member else member + [COMMA] + rest)
  }

  /** TextEncoder over the canonical string. */
  function CanonicalBytes(v: Json): Result<Bytes, JsonError> {
    match Canonicalize(v)
    case Err(e) => Err(e)
    case Ok(text) => Ok(Utf8(text))
  }

  predicate Serialisable(v: Json) {
    match v
    case Undefined => false
    case Other => false
    case Num(n) => n.NegativeZero? || (n.Integer? && IsSafe(n.n))
    case Arr(items) => forall i :: 0 <= i < |items| ==> Serialisable(items[i])
    case Obj(fields) => forall i :: 0 <= i < |fields| ==> Serialisable(fields[i].value)
    case _ => true
  }

  // The same value with names sorted at every depth and no negative zero.

  function Normal(v: Json): Json {
    match v
    case Num(NegativeZero) => Num(Integer(0))
    case Arr(items) => Arr(NormalItems(items))
    case Obj(fields) => Obj(Sorting.Sort(FieldLess, NormalFields(fields)))
    case _ => v
  }

  function NormalItems(items: seq<Json>): (r: seq<Json>)
    ensures |r| == |items|
    ensures forall i :: 0 <= i < |items| ==> r[i] == Normal(items[i])
  {
    if items == [] then [] else [Normal(items[0])] + NormalItems(items[1..])
  }

  function NormalFields(fields: seq<Field>): (r: seq<Field>)
    ensures |r| == |fields|
    ensures forall i :: 0 <= i < |fields| ==> r[i] == Field(fields[i].name, Normal(fields[i].value))
  {
    if fields == [] then [] else [Field(fields[0].name, Normal(fields[0].value))] + NormalFields(fields[1..])
  }

  // Plain serialisation, in the order the fields stand.

  function Write(v: Json): JsString {
    match v
    case Null => Lit("null")
    case Bool(b) => if b then Lit("true") else Lit("false")
    case Num(Integer(n)) => Decimal(n)
    case Str(s) => Quoted(s)
    case Arr(items) => [OPEN_BRACKET] + WriteItems(items) + [CLOSE_BRACKET]
    case Obj(fields) => [OPEN_BRACE] + WriteMembers(fields) + [CLOSE_BRACE]
    case _ => []
  }

  function WriteItems(items: seq<Json>): JsString {
    if items == [] then []
    else if |items| == 1 then Write(items[0])
    else Write(items[0]) + [COMMA] + WriteItems(items[1..])
  }

  function WriteMember(field: Field): JsString {
    Quoted(field.name) + [COLON] + Write(field.value)
  }

  function WriteMembers(fields: seq<Field>): JsString {
    if fields == [] then []
    else if |fields| == 1 then WriteMember(fields[0])
    else WriteMember(fields[0]) + [COMMA] + WriteMembers(fields[1..])
  }

  function PartOf(field: Field): Part {
    (field.name, Ok(Write(field.value)))
  }

  lemma {:induction false} JoinWritten(fields: seq<Field>)
    ensures JoinParts(Sorting.MapSeq(PartOf, fields)) == Ok(WriteMembers(fields))
    decreases |fields|
  {
    var parts := Sorting.MapSeq(PartOf, fields);
    if fields != [] {
      JoinWritten(fields[1..]);
      assert parts[1..] == Sorting.MapSeq(PartOf, fields[1..]);
    }
  }

  lemma SortedParts(fields: seq<Field>)
    ensures Sorting.Sort(PartLess, Sorting.MapSeq(PartOf, fields)) == Sorting.MapSeq(PartOf, Sorting.Sort(FieldLess, fields))
  {
    Sorting.SortMap(PartOf, FieldLess, PartLess, fields);
  }

  lemma {:induction false} FailingPart(parts: seq<Part>, part: Part)
    requires part in parts && part.1.Err?
    ensures JoinParts(parts).Err?
    decreases |parts|
  {
    if parts[0] != part {
      assert parts == [parts[0]] + parts[1..];
      FailingPart(parts[1..], part);
    }
  }

  /** What is serialised is the plain text of the sorted value; nothing else is. */
  lemma {:induction false} CanonicalizeWrites(v: Json)
    ensures Canonicalize(v).Ok? <==> Serialisable(v)
    ensures Serialisable(v) ==> Canonicalize(v) == Ok(Write(Normal(v)))
    decreases v, 1
  {
    match v
    case Arr(items) =>
      ItemsWrite(items);
    case Obj(fields) =>
      PartsWrite(fields);
      ObjectWrites(fields);
    case Num(NegativeZero) =>
      assert Lit("0") == Decimal(0);
    case _ =>
  }

  lemma {:induction false} ObjectWrites(fields: seq<Field>)
    requires forall i :: 0 <= i < |fields| ==> PartWrites(Parts(fields)[i], fields[i])
    ensures Canonicalize(Obj(fields)).Ok? <==> Serialisable(Obj(fields))
    ensures Serialisable(Obj(fields)) ==> Canonicalize(Obj(fields)) == Ok(Write(Normal(Obj(fields))))
  {
    if Serialisable(Obj(fields)) {
      PartsAreWritten(fields);
    } else {
      var i :| 0 <= i < |fields| && !Serialisable(fields[i].value);
      BadFieldFails(fields, i);
    }
  }

  lemma {:induction false} PartsAreWritten(fields: seq<Field>)
    requires forall i :: 0 <= i < |fields| ==> PartWrites(Parts(fields)[i], fields[i]) && Serialisable(fields[i].value)
    ensures JoinParts(Sorting.Sort(PartLess, Parts(fields))) ==
            Ok(WriteMembers(Sorting.Sort(FieldLess, NormalFields(fields))))
  {
    hide Write, Normal, Serialisable;
    var normal := NormalFields(fields);
    assert Parts(fields) == Sorting.MapSeq(PartOf, normal);
    SortedParts(normal);
    JoinWritten(Sorting.Sort(FieldLess, normal));
  }

  lemma {:induction false} BadFieldFails(fields: seq<Field>, i: nat)
    requires i < |fields| && Parts(fields)[i].1.Err?
    ensures JoinParts(Sorting.Sort(PartLess, Parts(fields))).Err?
  {
    var parts := Parts(fields);
    var sorted := Sorting.Sort(PartLess, parts);
    Sorting.SortKeeps(PartLess, parts);
    Sorting.SameElements(parts, sorted);
    assert parts[i] in sorted;
    FailingPart(sorted, parts[i]);
  }

  predicate PartWrites(part: Part, field: Field) {
    && part.0 == field.name
    && (part.1.Ok? <==> Serialisable(field.value))
    && (Serialisable(field.value) ==> part.1 == Ok(Write(Normal(field.value))))
  }

  lemma {:induction false} ItemsWrite(items: seq<Json>)
    ensures CanonicalItems(items).Ok? <==> forall i :: 0 <= i < |items| ==> Serialisable(items[i])
    ensures CanonicalItems(items).Ok? ==> CanonicalItems(items) == Ok(WriteItems(NormalItems(items)))
    decreases items, 0
  {
    if items != [] {
      CanonicalizeWrites(items[0]);
      ItemsWrite(items[1..]);
      assert NormalItems(items)[1..] == NormalItems(items[1..]);
      assert items == [items[0]] + items[1..];
    }
  }

  lemma {:induction false} PartsWrite(fields: seq<Field>)
    ensures forall i :: 0 <= i < |fields| ==> PartWrites(Parts(fields)[i], fields[i])
    decreases fields, 0
  {
    if fields != [] {
      CanonicalizeWrites(fields[0].value);
      PartsWrite(fields[1..]);
      forall i | 0 <= i < |fields| ensures PartWrites(Parts(fields)[i], fields[i]) {
        assert i > 0 ==> Parts(fields)[i] == Parts(fields[1..])[i - 1];
      }
    }
  }

  // Key order.

  /** Equal but for the order of names, at every depth, and the sign of zero. */
  predicate SameValue(v: Json, w: Json) {
    match (v, w)
    case (Arr(a), Arr(b)) => |a| == |b| && forall i :: 0 <= i < |a| ==> SameValue(a[i], b[i])
    case (Obj(f), Obj(g)) =>
      |f| == |g| && forall i :: 0 <= i < |f| ==> SameIn(f[i], g)
    case (Num(m), Num(n)) => ZeroUnsigned(m) == ZeroUnsigned(n)
    case _ => v == w
  }

  predicate SameIn(a: Field, fields: seq<Field>) {
    exists j :: 0 <= j < |fields| && a.name == fields[j].name && SameValue(a.value, fields[j].value)
  }

  function ZeroUnsigned(n: Number): Number {
    if n.NegativeZero? then Integer(0) else n
  }

  lemma FieldOrder(fields: seq<Field>)
    requires DistinctNames(fields)
    ensures Sorting.StrictOrder(FieldLess) && Sorting.NoTies(FieldLess, fields) && Sorting.Distinct(fields)
  {
    JsStrings.IsStrictOrder();
    forall x, y, z
      ensures !FieldLess(x, x)
      ensures FieldLess(x, y) && FieldLess(y, z) ==> FieldLess(x, z)
      ensures FieldLess(x, z) ==> FieldLess(x, y) || FieldLess(y, z)
    {
      assert !JsStrings.Less(x.name, x.name);
    }
    forall x, y | x in fields && y in fields ensures x == y || FieldLess(x, y) || FieldLess(y, x) {
      Lexicographic.Connected(x.name, y.name);
    }
  }

  lemma NormalNames(fields: seq<Field>)
    requires DistinctNames(fields)
    ensures DistinctNames(NormalFields(fields))
  {
  }

  lemma {:induction false} SameFieldsSort(f: seq<Field>, g: seq<Field>)
    requires DistinctNames(f) && DistinctNames(g) && |f| == |g|
    requires forall x :: x in f ==> x in g
    ensures Sorting.Sort(FieldLess, f) == Sorting.Sort(FieldLess, g)
  {
    FieldOrder(f);
    FieldOrder(g);
    Sorting.DistinctWithin(f, g);
    Sorting.SortPermuted(FieldLess, f, g);
  }

  lemma {:induction false} SortedFieldsSame(f: seq<Field>, g: seq<Field>)
    requires Sorting.Sort(FieldLess, f) == Sorting.Sort(FieldLess, g)
    ensures |f| == |g| && forall x :: x in f ==> x in g
  {
    Sorting.SortKeeps(FieldLess, f);
    Sorting.SortKeeps(FieldLess, g);
    Sorting.SameElements(f, g);
  }

  /** Two values have one sorted form exactly when they are the same but for key order. */
  lemma {:induction false} NormalDecides(v: Json, w: Json)
    requires HasDistinctNames(v) && HasDistinctNames(w)
    ensures SameValue(v, w) <==> Normal(v) == Normal(w)
    decreases v
  {
    match (v, w)
    case (Arr(a), Arr(b)) =>
      forall i | 0 <= i < |a| && i < |b| ensures SameValue(a[i], b[i]) <==> Normal(a[i]) == Normal(b[i]) {
        NormalDecides(a[i], b[i]);
      }
      ItemsDecide(a, b);
    case (Obj(f), Obj(g)) =>
      forall i | 0 <= i < |f| ensures SameIn(f[i], g) <==> MatchIn(f[i], g) {
        forall j | 0 <= j < |g| ensures SameValue(f[i].value, g[j].value) <==> Normal(f[i].value) == Normal(g[j].value) {
          NormalDecides(f[i].value, g[j].value);
        }
      }
      FieldsDecide(f, g);
    case _ =>
  }

  lemma {:induction false} ItemsDecide(a: seq<Json>, b: seq<Json>)
    requires forall i :: 0 <= i < |a| && i < |b| ==> (SameValue(a[i], b[i]) <==> Normal(a[i]) == Normal(b[i]))
    ensures SameValue(Arr(a), Arr(b)) <==> Normal(Arr(a)) == Normal(Arr(b))
  {
    var x, y := NormalItems(a), NormalItems(b);
    assert |a| == |b| ==> (x == y <==> forall i :: 0 <= i < |a| ==> x[i] == y[i]);
  }

  predicate MatchIn(a: Field, fields: seq<Field>) {
    exists j :: 0 <= j < |fields| && a.name == fields[j].name && Normal(a.value) == Normal(fields[j].value)
  }

  lemma {:induction false} MatchedFieldsSort(f: seq<Field>, g: seq<Field>)
    requires DistinctNames(f) && DistinctNames(g) && |f| == |g|
    requires forall i :: 0 <= i < |f| ==> MatchIn(f[i], g)
    ensures Sorting.Sort(FieldLess, NormalFields(f)) == Sorting.Sort(FieldLess, NormalFields(g))
  {
    hide Normal;
    var x, y := NormalFields(f), NormalFields(g);
    NormalNames(f);
    NormalNames(g);
    forall z | z in x ensures z in y {
      var i :| 0 <= i < |x| && x[i] == z;
      assert MatchIn(f[i], g);
      var j :| 0 <= j < |g| && f[i].name == g[j].name && Normal(f[i].value) == Normal(g[j].value);
      assert y[j] == z;
    }
    SameFieldsSort(x, y);
  }

  lemma {:induction false} SortedFieldsMatch(f: seq<Field>, g: seq<Field>)
    requires Sorting.Sort(FieldLess, NormalFields(f)) == Sorting.Sort(FieldLess, NormalFields(g))
    ensures |f| == |g|
    ensures forall i :: 0 <= i < |f| ==> MatchIn(f[i], g)
  {
    hide Normal;
    var x, y := NormalFields(f), NormalFields(g);
    SortedFieldsSame(x, y);
    forall i | 0 <= i < |f| ensures MatchIn(f[i], g) {
      assert x[i] in y;
      var j :| 0 <= j < |y| && y[j] == x[i];
    }
  }

  lemma {:induction false} FieldsDecide(f: seq<Field>, g: seq<Field>)
    requires DistinctNames(f) && DistinctNames(g)
    requires forall i :: 0 <= i < |f| ==> (SameIn(f[i], g) <==> MatchIn(f[i], g))
    ensures SameValue(Obj(f), Obj(g)) <==> Normal(Obj(f)) == Normal(Obj(g))
  {
    hide MatchIn;
    if SameValue(Obj(f), Obj(g)) {
      MatchedFieldsSort(f, g);
    }
    if Normal(Obj(f)) == Normal(Obj(g)) {
      SortedFieldsMatch(f, g);
    }
  }

  // The order of names, the range of numbers, and the errors.

  /** In the text of an object names stand in the order of their code units. */
  lemma NamesAscend(fields: seq<Field>, i: nat, j: nat)
    requires DistinctNames(fields) && i < j < |fields|
    ensures Normal(Obj(fields)).Obj? && |Normal(Obj(fields)).fields| == |fields|
    ensures Lexicographic.Precedes(Normal(Obj(fields)).fields[i].name, Normal(Obj(fields)).fields[j].name)
  {
    var normal := NormalFields(fields);
    NormalNames(fields);
    FieldOrder(normal);
    Sorting.SortKeeps(FieldLess, normal);
    Sorting.SortSorts(FieldLess, normal);
    var sorted := Sorting.Sort(FieldLess, normal);
    Sorting.DistinctPermuted(normal, sorted);
    Sorting.SameElements(normal, sorted);
    hide Normal, JsStrings.Less;
    assert sorted[i] in normal && sorted[j] in normal && sorted[i] != sorted[j];
    assert !FieldLess(sorted[j], sorted[i]);
    LessMeansPrecedes(sorted[i], sorted[j]);
  }

  lemma LessMeansPrecedes(a: Field, b: Field)
    requires FieldLess(a, b)
    ensures Lexicographic.Precedes(a.name, b.name)
  {
    Lexicographic.LessMeans(a.name, b.name);
  }

  /** Integers are serialised exactly from -9007199254740991 to 9007199254740991. */
  lemma IntegersExactly(n: int)
    ensures Canonicalize(Num(Integer(n))) ==
            if -9007199254740991 <= n <= 9007199254740991 then Ok(Decimal(n)) else Err(UnsafeNumber)
  {
    hide Decimal;
  }

  /** Why a value that is no array or object is refused. */
  lemma RefusedScalars(v: Json)
    requires !v.Arr? && !v.Obj?
    ensures Canonicalize(v) == Err(Unserialisable) <==> v.Undefined? || v.Other?
    ensures Canonicalize(v) == Err(NonFiniteNumber) <==> v == Num(NonFinite)
    ensures Canonicalize(v) == Err(UnsafeNumber) <==>
            v.Num? && (v.number.Fraction? || (v.number.Integer? && !(-9007199254740991 <= v.number.n <= 9007199254740991)))
  {
    hide Decimal, Quoted;
  }

  /** The first item that is refused decides for an array. */
  lemma {:induction false} FirstRefusedItem(items: seq<Json>, i: nat, e: JsonError)
    requires i < |items| && Canonicalize(items[i]) == Err(e)
    requires forall j :: 0 <= j < i ==> Canonicalize(items[j]).Ok?
    ensures Canonicalize(Arr(items)) == Err(e) && CanonicalItems(items) == Err(e)
    decreases |items|
  {
    if i > 0 {
      FirstRefusedItem(items[1..], i - 1, e);
    }
  }

  /** For an object it is the first in the order of names. */
  lemma FirstRefusedField(fields: seq<Field>, i: nat, e: JsonError)
    requires var sorted := Sorting.Sort(FieldLess, fields);
             && i < |sorted| && Canonicalize(sorted[i].value) == Err(e)
             && forall j :: 0 <= j < i ==> Canonicalize(sorted[j].value).Ok?
    ensures Canonicalize(Obj(fields)) == Err(e)
  {
    hide Canonicalize;
    var sorted := Sorting.Sort(FieldLess, fields);
    PartsSort(fields);
    PartsMap(sorted);
    FirstRefusedPart(Parts(sorted), i, e);
    ObjectText(fields);
  }

  lemma ObjectText(fields: seq<Field>)
    ensures JoinParts(Sorting.Sort(PartLess, Parts(fields))).Err? ==>
              Canonicalize(Obj(fields)) == Err(JoinParts(Sorting.Sort(PartLess, Parts(fields))).error)
  {
  }

  function PartFor(field: Field): Part {
    (field.name, Canonicalize(field.value))
  }

  lemma PartsSort(fields: seq<Field>)
    ensures Sorting.Sort(PartLess, Parts(fields)) == Parts(Sorting.Sort(FieldLess, fields))
  {
    PartsMap(fields);
    PartsMap(Sorting.Sort(FieldLess, fields));
    hide Canonicalize, Parts;
    Sorting.SortMap(PartFor, FieldLess, PartLess, fields);
  }

  lemma {:induction false} PartsMap(fields: seq<Field>)
    ensures Parts(fields) == Sorting.MapSeq(PartFor, fields)
    decreases |fields|
  {
    hide Canonicalize;
    if fields != [] {
      PartsMap(fields[1..]);
      assert Sorting.MapSeq(PartFor, fields)[1..] == Sorting.MapSeq(PartFor, fields[1..]);
    }
  }

  lemma {:induction false} FirstRefusedPart(parts: seq<Part>, i: nat, e: JsonError)
    requires i < |parts| && parts[i].1 == Err(e) && forall j :: 0 <= j < i ==> parts[j].1.Ok?
    ensures JoinParts(parts) == Err(e)
    decreases |parts|
  {
    if i > 0 {
      FirstRefusedPart(parts[1..], i - 1, e);
    }
  }
}
