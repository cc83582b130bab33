/** The CLI's canonical JSON: names stand in the order of their UTF-8 bytes. */
module CliJson {
  import opened Bytes
  import opened JsStrings
  import opened Json
  import opened CanonicalJson
  import opened JsonReader
  import ByteOrder
  import Lexicographic
  import Sorting

  predicate NameLess(a: Field, b: Field) {
    ByteOrder.Less(Utf8(a.name), Utf8(b.name))
  }

  /** The value with its names in byte order, at every depth. */
  function Ordered(v: Json): Json {
    match v
    case Arr(items) => Arr(OrderedItems(items))
    case Obj(fields) => Obj(Sorting.Sort(NameLess, OrderedFields(fields)))
    case _ => v
  }

  function OrderedItems(items: seq<Json>): (r: seq<Json>)
    ensures |r| == |items|
    ensures forall i :: 0 <= i < |items| ==> r[i] == Ordered(items[i])
  {
    if items == [] then [] else [Ordered(items[0])] + OrderedItems(items[1..])
  }

  function OrderedFields(fields: seq<Field>): (r: seq<Field>)
    ensures |r| == |fields|
    ensures forall i :: 0 <= i < |fields| ==> r[i] == Field(fields[i].name, Ordered(fields[i].value))
  {
    if fields == [] then [] else [Field(fields[0].name, Ordered(fields[0].value))] + OrderedFields(fields[1..])
  }

  /** The bytes that the CLI hashes for a value whose numbers are integers. */
  function CliBytes(v: Json): Bytes {
    Utf8(Write(Ordered(v)))
  }

  /** Names are Unicode texts, at every depth. */
  predicate HasTextNames(v: Json) {
    match v
    case Arr(items) => forall i :: 0 <= i < |items| ==> HasTextNames(items[i])
    case Obj(fields) =>
      forall i :: 0 <= i < |fields| ==> WellFormed(fields[i].name) && HasTextNames(fields[i].value)
    case _ => true
  }

  predicate TextNames(fields: seq<Field>) {
    forall i :: 0 <= i < |fields| ==> WellFormed(fields[i].name)
  }

  lemma NameOrder(fields: seq<Field>)
    requires DistinctNames(fields) && TextNames(fields)
    ensures Sorting.StrictOrder(NameLess) && Sorting.NoTies(NameLess, fields)
  {
    hide Utf8, ByteOrder.Less, WellFormed, Lexicographic.Less;
    ByteOrder.IsStrictOrder();
    ByteOrder.IsConnected();
    NamesAreOrdered();
    forall x, y | x in fields && y in fields ensures x == y || NameLess(x, y) || NameLess(y, x) {
      Utf8RoundTrip(x.name);
      Utf8RoundTrip(y.name);
      assert Utf8(x.name) == Utf8(y.name) || NameLess(x, y) || NameLess(y, x);
    }
  }

  lemma NamesAreOrdered()
    requires Sorting.StrictOrder(ByteOrder.Less)
    ensures Sorting.StrictOrder(NameLess)
  {
    hide Utf8, ByteOrder.Less, Lexicographic.Less;
    forall x: Field, y: Field, z: Field
      ensures !NameLess(x, x) && (NameLess(x, y) && NameLess(y, z) ==> NameLess(x, z))
              && (NameLess(x, z) ==> NameLess(x, y) || NameLess(y, z))
    {
      var a, b, c := Utf8(x.name), Utf8(y.name), Utf8(z.name);
      assert !ByteOrder.Less(a, a) && (ByteOrder.Less(a, b) && ByteOrder.Less(b, c) ==> ByteOrder.Less(a, c))
             && (ByteOrder.Less(a, c) ==> ByteOrder.Less(a, b) || ByteOrder.Less(b, c));
    }
  }

  // Sorting one way and then the other.

  function NormalField(x: Field): Field {
    Field(x.name, Normal(x.value))
  }

  function OrderedField(x: Field): Field {
    Field(x.name, Ordered(x.value))
  }

  lemma NormalFieldsMap(fields: seq<Field>)
    ensures NormalFields(fields) == Sorting.MapSeq(NormalField, fields)
  {
    hide Normal;
  }

  lemma OrderedFieldsMap(fields: seq<Field>)
    ensures OrderedFields(fields) == Sorting.MapSeq(OrderedField, fields)
  {
    hide Ordered;
  }

  /** Fields that are mapped and shuffled sort as before. */
  lemma ShuffledSort(less: (Field, Field) -> bool, fields: seq<Field>, shuffled: seq<Field>, f: Field -> Field, mapped: seq<Field>)
    requires multiset(shuffled) == multiset(fields) && Sorting.MapSeq(f, fields) == mapped
    requires Sorting.StrictOrder(less) && Sorting.NoTies(less, mapped)
    ensures Sorting.Sort(less, Sorting.MapSeq(f, shuffled)) == Sorting.Sort(less, mapped)
  {
    Sorting.MapPermuted(f, fields, shuffled);
    Sorting.SortPermuted(less, mapped, Sorting.MapSeq(f, shuffled));
  }

  lemma {:induction false} NormalOfOrdered(v: Json)
    requires HasDistinctNames(v)
    ensures Normal(Ordered(v)) == Normal(v)
    decreases v
  {
    match v
    case Arr(items) =>
      forall i | 0 <= i < |items| ensures Normal(Ordered(items[i])) == Normal(items[i]) {
        NormalOfOrdered(items[i]);
      }
      ItemsOfOrdered(items);
    case Obj(fields) =>
      forall i | 0 <= i < |fields| ensures Normal(Ordered(fields[i].value)) == Normal(fields[i].value) {
        NormalOfOrdered(fields[i].value);
      }
      FieldsOfOrdered(fields);
    case _ =>
  }

  lemma ItemsOfOrdered(items: seq<Json>)
    requires forall i :: 0 <= i < |items| ==> Normal(Ordered(items[i])) == Normal(items[i])
    ensures NormalItems(OrderedItems(items)) == NormalItems(items)
  {
    hide Normal, Ordered;
  }

  lemma FieldsOfOrdered(fields: seq<Field>)
    requires DistinctNames(fields)
    requires forall i :: 0 <= i < |fields| ==> Normal(Ordered(fields[i].value)) == Normal(fields[i].value)
    ensures Normal(Ordered(Obj(fields))) == Normal(Obj(fields))
  {
    var ordered := OrderedFields(fields);
    var sorted := Sorting.Sort(NameLess, ordered);
    assert Normal(Ordered(Obj(fields))) == Obj(Sorting.Sort(FieldLess, NormalFields(sorted)));
    hide Normal, Ordered, NameLess, FieldLess;
    Sorting.SortKeeps(NameLess, ordered);
    assert NormalFields(ordered) == NormalFields(fields);
    NormalNames(fields);
    FieldOrder(NormalFields(fields));
    NormalFieldsMap(ordered);
    NormalFieldsMap(sorted);
    ShuffledSort(FieldLess, ordered, sorted, NormalField, NormalFields(fields));
  }

  lemma {:induction false} OrderedOfNormal(v: Json)
    requires HasDistinctNames(v) && HasTextNames(v) && Readable(v)
    ensures Ordered(Normal(v)) == Ordered(v)
    decreases v
  {
    match v
    case Arr(items) =>
      forall i | 0 <= i < |items| ensures Ordered(Normal(items[i])) == Ordered(items[i]) {
        OrderedOfNormal(items[i]);
      }
      ItemsOfNormal(items);
    case Obj(fields) =>
      forall i | 0 <= i < |fields| ensures Ordered(Normal(fields[i].value)) == Ordered(fields[i].value) {
        OrderedOfNormal(fields[i].value);
      }
      FieldsOfNormal(fields);
    case _ =>
  }

  lemma ItemsOfNormal(items: seq<Json>)
    requires forall i :: 0 <= i < |items| ==> Ordered(Normal(items[i])) == Ordered(items[i])
    ensures OrderedItems(NormalItems(items)) == OrderedItems(items)
  {
    hide Normal, Ordered;
  }

  lemma OrderedObject(fields: seq<Field>)
    ensures Ordered(Obj(fields)) == Obj(Sorting.Sort(NameLess, OrderedFields(fields)))
  {
  }

  lemma OrderedAgain(fields: seq<Field>)
    ensures Ordered(Normal(Obj(fields))) == Obj(Sorting.Sort(NameLess, OrderedFields(Sorting.Sort(FieldLess, NormalFields(fields)))))
  {
  }

  lemma FieldsOfNormal(fields: seq<Field>)
    requires DistinctNames(fields) && TextNames(fields)
    requires forall i :: 0 <= i < |fields| ==> Ordered(Normal(fields[i].value)) == Ordered(fields[i].value)
    ensures Ordered(Normal(Obj(fields))) == Ordered(Obj(fields))
  {
    hide Normal, Ordered, NameLess, FieldLess, WellFormed, Sorting.Sort;
    OrderedObject(fields);
    OrderedAgain(fields);
    var normal := NormalFields(fields);
    var sorted := Sorting.Sort(FieldLess, normal);
    Sorting.SortKeeps(FieldLess, normal);
    assert OrderedFields(normal) == OrderedFields(fields);
    assert DistinctNames(OrderedFields(fields)) && TextNames(OrderedFields(fields));
    NameOrder(OrderedFields(fields));
    OrderedFieldsMap(normal);
    OrderedFieldsMap(sorted);
    ShuffledSort(NameLess, normal, sorted, OrderedField, OrderedFields(fields));
  }

  // The text is read back.

  lemma {:induction false} OrderedReadable(v: Json)
    requires Readable(v)
    ensures Readable(Ordered(v))
    decreases v
  {
    match v
    case Arr(items) =>
      forall i | 0 <= i < |items| ensures Readable(OrderedItems(items)[i]) {
        OrderedReadable(items[i]);
      }
    case Obj(fields) =>
      var ordered := OrderedFields(fields);
      forall i | 0 <= i < |fields| ensures Readable(ordered[i].value) {
        OrderedReadable(fields[i].value);
      }
      ShuffledReadable(ordered);
    case _ =>
  }

  lemma ShuffledReadable(fields: seq<Field>)
    requires forall i :: 0 <= i < |fields| ==> Readable(fields[i].value)
    ensures Readable(Obj(Sorting.Sort(NameLess, fields)))
  {
    var sorted := Sorting.Sort(NameLess, fields);
    Sorting.SortKeeps(NameLess, fields);
    Sorting.SameElements(fields, sorted);
    forall i | 0 <= i < |sorted| ensures Readable(sorted[i].value) {
      assert sorted[i] in fields;
    }
  }

  /** The bytes tell the value, but for the order of names. */
  lemma BytesTellOrdered(v: Json, w: Json)
    requires Readable(v) && Readable(w) && CliBytes(v) == CliBytes(w)
    ensures Ordered(v) == Ordered(w)
  {
    hide Ordered, Write, Utf8, Readable, WellFormed, FromUtf8;
    var a, b := Ordered(v), Ordered(w);
    WriteWellFormed(a);
    WriteWellFormed(b);
    Utf8RoundTrip(Write(a));
    Utf8RoundTrip(Write(b));
    OrderedReadable(v);
    OrderedReadable(w);
    ReadBack(a, []);
    ReadBack(b, []);
    assert Write(a) + [] == Write(b) + [];
  }

  /** The CLI hashes the same bytes for two values exactly when they are the same but for key order. */
  lemma CliBytesDecide(v: Json, w: Json)
    requires Readable(v) && HasDistinctNames(v) && HasTextNames(v)
    requires Readable(w) && HasDistinctNames(w) && HasTextNames(w)
    ensures CliBytes(v) == CliBytes(w) <==> SameValue(v, w)
  {
    hide *;
    NormalDecides(v, w);
    NormalOfOrdered(v);
    NormalOfOrdered(w);
    OrderedOfNormal(v);
    OrderedOfNormal(w);
    if CliBytes(v) == CliBytes(w) {
      BytesTellOrdered(v, w);
    }
    if Ordered(v) == Ordered(w) {
      SameOrderedSameBytes(v, w);
    }
  }

  lemma SameOrderedSameBytes(v: Json, w: Json)
    requires Ordered(v) == Ordered(w)
    ensures CliBytes(v) == CliBytes(w)
  {
  }

  // Agreement with the library.

  /** Names are ASCII, at every depth. */
  predicate HasAsciiNames(v: Json) {
    match v
    case Arr(items) => forall i :: 0 <= i < |items| ==> HasAsciiNames(items[i])
    case Obj(fields) =>
      forall i :: 0 <= i < |fields| ==> IsAsciiName(fields[i].name) && HasAsciiNames(fields[i].value)
    case _ => true
  }

  predicate IsAsciiName(name: JsString) {
    forall i :: 0 <= i < |name| ==> name[i] < 0x80
  }

  lemma AsciiOrdersAgree(x: Field, y: Field)
    requires IsAsciiName(x.name) && IsAsciiName(y.name)
    ensures NameLess(x, y) == FieldLess(x, y)
  {
    hide Utf8, Lexicographic.Less;
    Utf8OfAscii(x.name);
    Utf8OfAscii(y.name);
  }

  lemma {:induction false} InsertAgrees(x: Field, s: seq<Field>)
    requires IsAsciiName(x.name) && forall i :: 0 <= i < |s| ==> IsAsciiName(s[i].name)
    ensures Sorting.Insert(NameLess, x, s) == Sorting.Insert(FieldLess, x, s)
    decreases |s|
  {
    hide NameLess, FieldLess, IsAsciiName;
    if s != [] {
      AsciiOrdersAgree(s[0], x);
      InsertAgrees(x, s[1..]);
    }
  }

  lemma {:induction false} SortAgrees(s: seq<Field>)
    requires forall i :: 0 <= i < |s| ==> IsAsciiName(s[i].name)
    ensures Sorting.Sort(NameLess, s) == Sorting.Sort(FieldLess, s)
    decreases |s|
  {
    hide NameLess, FieldLess, IsAsciiName, Sorting.Insert;
    if s != [] {
      SortAgrees(s[1..]);
      var rest := Sorting.Sort(FieldLess, s[1..]);
      Sorting.SortKeeps(FieldLess, s[1..]);
      Sorting.SameElements(s[1..], rest);
      forall i | 0 <= i < |rest| ensures IsAsciiName(rest[i].name) {
        assert rest[i] in s[1..];
      }
      InsertAgrees(s[0], rest);
    }
  }

  lemma {:induction false} OrderedIsNormal(v: Json)
    requires Readable(v) && HasAsciiNames(v)
    ensures Ordered(v) == Normal(v)
    decreases v
  {
    match v
    case Arr(items) =>
      forall i | 0 <= i < |items| ensures OrderedItems(items)[i] == NormalItems(items)[i] {
        OrderedIsNormal(items[i]);
      }
    case Obj(fields) =>
      forall i | 0 <= i < |fields| ensures OrderedFields(fields)[i] == NormalFields(fields)[i] {
        OrderedIsNormal(fields[i].value);
      }
      assert OrderedFields(fields) == NormalFields(fields);
      SortAgrees(OrderedFields(fields));
    case _ =>
  }

  /** On values with ASCII names and safe integers the CLI and the library write the same bytes. */
  lemma CanonicalFormsAgree(v: Json)
    requires Serialisable(v) && Readable(v) && HasAsciiNames(v)
    ensures CanonicalBytes(v) == Ok(CliBytes(v))
  {
    hide Ordered, Normal, Write, Utf8, Readable, HasAsciiNames, Serialisable, Canonicalize;
    CanonicalizeWrites(v);
    OrderedIsNormal(v);
  }

  /** In the text of an object names stand in the order of their UTF-8 bytes. */
  lemma NamesAscend(fields: seq<Field>, i: nat, j: nat)
    requires DistinctNames(fields) && TextNames(fields) && i < j < |fields|
    ensures Ordered(Obj(fields)).Obj? && |Ordered(Obj(fields)).fields| == |fields|
    ensures Lexicographic.Precedes(Utf8(Ordered(Obj(fields)).fields[i].name), Utf8(Ordered(Obj(fields)).fields[j].name))
  {
    var ordered := OrderedFields(fields);
    assert DistinctNames(ordered) && TextNames(ordered);
    NameOrder(ordered);
    hide Ordered, Utf8, WellFormed, ByteOrder.Less, Lexicographic.Less;
    Sorting.SortKeeps(NameLess, ordered);
    Sorting.SortSorts(NameLess, ordered);
    var sorted := Sorting.Sort(NameLess, ordered);
    FieldsAreDistinct(ordered);
    Sorting.DistinctPermuted(ordered, sorted);
    Sorting.SameElements(ordered, sorted);
    assert sorted[i] in ordered && sorted[j] in ordered && sorted[i] != sorted[j];
    assert NameLess(sorted[i], sorted[j]);
    NameLessMeans(sorted[i], sorted[j]);
    OrderedIs(fields);
  }

  lemma FieldsAreDistinct(fields: seq<Field>)
    requires DistinctNames(fields)
    ensures Sorting.Distinct(fields)
  {
  }

  lemma OrderedIs(fields: seq<Field>)
    ensures Ordered(Obj(fields)) == Obj(Sorting.Sort(NameLess, OrderedFields(fields)))
  {
  }

  lemma NameLessMeans(a: Field, b: Field)
    requires NameLess(a, b)
    ensures Lexicographic.Precedes(Utf8(a.name), Utf8(b.name))
  {
    hide Utf8;
    Lexicographic.LessMeans(Utf8(a.name), Utf8(b.name));
  }
}
