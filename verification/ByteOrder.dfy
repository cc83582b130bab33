/** Byte strings in lexicographic order. */
module ByteOrder {
  import opened Bytes
  import Lexicographic
  import Sorting

  predicate Less(a: Bytes, b: Bytes) {
    Lexicographic.Less(a, b)
  }

  lemma IsStrictOrder()
    ensures Sorting.StrictOrder(Less)
  {
    forall x: Bytes, y: Bytes, z: Bytes ensures !Less(x, x) && (Less(x, y) && Less(y, z) ==> Less(x, z)) && (Less(x, z) ==> Less(x, y) || Less(y, z)) {
      Lexicographic.Irreflexive(x);
      Lexicographic.Connected(x, y);
      if Less(x, y) && Less(y, z) { Lexicographic.Transitive(x, y, z); }
      if Less(x, z) && Less(y, x) { Lexicographic.Transitive(y, x, z); }
    }
  }

  lemma IsConnected()
    ensures Sorting.Connected<Bytes>(Less)
  {
    forall x: Bytes, y: Bytes ensures x == y || Less(x, y) || Less(y, x) {
      Lexicographic.Connected(x, y);
    }
  }

  lemma NeverTies(s: seq<Bytes>)
    ensures Sorting.NoTies(Less, s)
  {
    forall x: Bytes, y: Bytes ensures x == y || Less(x, y) || Less(y, x) {
      Lexicographic.Connected(x, y);
    }
  }

  /** A negative, zero or positive result, as a comparison function returns it. */
  method Compare(a: Bytes, b: Bytes) returns (order: int)
    ensures order < 0 <==> Less(a, b)
    ensures order == 0 <==> a == b
    ensures order > 0 <==> Less(b, a)
  {
    var min := if |a| <= |b| then |a| else |b|;
    var i := 0;
    while i < min
      invariant 0 <= i <= min
      invariant a[..i] == b[..i]
    {
      var x: int, y: int := a[i], b[i];
      if x != y {
        Lexicographic.DecidedAt(a, b, i);
        return x - y;
      }
      assert a[..i + 1] == a[..i] + [a[i]] && b[..i + 1] == b[..i] + [b[i]];
      i := i + 1;
    }
    Lexicographic.DecidedAt(a, b, min);
    order := |a| - |b|;
  }
}
