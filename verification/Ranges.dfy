/** Where one sequence stands inside another. */
module Ranges {

  /** The elements x stand in b from i on. */
  predicate Has<T(==)>(b: seq<T>, i: nat, x: seq<T>) {
    i + |x| <= |b| && b[i..i + |x|] == x
  }

  lemma HasSplit<T>(b: seq<T>, i: nat, x: seq<T>, y: seq<T>)
    requires Has(b, i, x + y)
    ensures Has(b, i, x) && Has(b, i + |x|, y)
  {
    var z := x + y;
    assert z[..|x|] == x && z[|x|..] == y;
    assert b[i..i + |z|][..|x|] == b[i..i + |x|];
    assert b[i..i + |z|][|x|..] == b[i + |x|..i + |z|];
  }

  lemma HasInFront<T>(x: seq<T>, y: seq<T>, i: nat, z: seq<T>)
    requires Has(x, i, z)
    ensures Has(x + y, i, z)
  {
    assert (x + y)[i..i + |z|] == x[i..i + |z|];
  }

  lemma HasAtEnd<T>(x: seq<T>, y: seq<T>)
    ensures Has(x + y, |x|, y)
  {
  }

  lemma HasShifted<T>(x: seq<T>, y: seq<T>, i: nat, z: seq<T>)
    requires Has(y, i, z)
    ensures Has(x + y, |x| + i, z)
  {
    assert (x + y)[|x| + i..|x| + i + |z|] == y[i..i + |z|];
  }

  /** Overwriting part of a sequence. */
  function Patch<T>(b: seq<T>, i: nat, x: seq<T>): (r: seq<T>)
    requires i + |x| <= |b|
    ensures |r| == |b|
  {
    b[..i] + x + b[i + |x|..]
  }

  lemma PatchHas<T>(b: seq<T>, i: nat, x: seq<T>)
    requires i + |x| <= |b|
    ensures Has(Patch(b, i, x), i, x)
  {
  }

  lemma PatchKeeps<T>(b: seq<T>, i: nat, x: seq<T>, j: nat, y: seq<T>)
    requires i + |x| <= |b| && Has(b, j, y) && (j + |y| <= i || i + |x| <= j)
    ensures Has(Patch(b, i, x), j, y)
  {
    assert Patch(b, i, x)[j..j + |y|] == b[j..j + |y|];
  }

  /** The later of two patches of one place is the one that stays. */
  lemma PatchTwice<T>(b: seq<T>, i: nat, x: seq<T>, y: seq<T>)
    requires i + |x| <= |b| && |x| == |y|
    ensures Patch(Patch(b, i, x), i, y) == Patch(b, i, y)
  {
  }

  lemma PatchSame<T>(b: seq<T>, i: nat, x: seq<T>)
    requires Has(b, i, x)
    ensures Patch(b, i, x) == b
  {
  }
}
