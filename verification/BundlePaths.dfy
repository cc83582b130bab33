/** The CLI's check of the paths in a bundle. */
module BundlePaths {
  import opened Bytes
  import opened Words

  datatype PathError = NotRelative | NotSafe | Empty

  const SLASH := '/'

  /** One more character: a slash starts a new part, anything else goes on with the last one. */
  function Grown(parts: seq<string>, c: char): (r: seq<string>)
    requires parts != []
    ensures r != []
  {
    if c == SLASH then parts + [""] else parts[..|parts| - 1] + [parts[|parts| - 1] + [c]]
  }

  /** The parts between slashes. */
  function Split(path: string): (r: seq<string>)
    ensures r != []
    decreases |path|
  {
    if path == "" then [""] else Grown(Split(path[..|path| - 1]), path[|path| - 1])
  }

  /** Parts that name something: neither empty nor the current directory. */
  function Kept(parts: seq<string>): seq<string>
    decreases |parts|
  {
    if parts == [] then []
    else
      var last := parts[|parts| - 1];
      Kept(parts[..|parts| - 1]) + if last == "" || last == "." then [] else [last]
  }

  predicate IsAbsolute(path: string) {
    path != "" && path[0] == SLASH
  }

  predicate GoesUp(path: string) {
    ".." in Split(path)
  }

  /** The path without empty parts and current directories; it must stay below the directory it is used in. */
  function SafePath(path: string): Result<string, PathError> {
    if IsAbsolute(path) then Err(NotRelative)
    else if GoesUp(path) then Err(NotSafe)
    else
      var kept := Kept(Split(path));
      if kept == [] then Err(Empty) else Ok(Join(kept, "/"))
  }

  lemma SplitSnoc(path: string, c: char)
    ensures Split(path + [c]) == Grown(Split(path), c)
  {
    assert (path + [c])[..|path|] == path;
  }

  lemma GrownAfter(first: seq<string>, parts: seq<string>, c: char)
    requires parts != []
    ensures Grown(first + parts, c) == first + Grown(parts, c)
  {
    assert (first + parts)[..|first + parts| - 1] == first + parts[..|parts| - 1];
  }

  /** Splitting a path after a slash goes on with new parts. */
  lemma {:induction false} SplitAround(a: string, b: string)
    ensures Split(a + [SLASH] + b) == Split(a) + Split(b)
    decreases |b|
  {
    if b == "" {
      SplitSnoc(a, SLASH);
      assert a + [SLASH] + b == a + [SLASH];
    } else {
      hide Split, Grown;
      var front, last := b[..|b| - 1], b[|b| - 1];
      SplitAround(a, front);
      assert b == front + [last];
      assert a + [SLASH] + b == (a + [SLASH] + front) + [last];
      SplitSnoc(a + [SLASH] + front, last);
      SplitSnoc(front, last);
      GrownAfter(Split(a), Split(front), last);
    }
  }

  lemma {:induction false} SplitPlain(part: string)
    requires SLASH !in part
    ensures Split(part) == [part]
    decreases |part|
  {
    if part != "" {
      SplitPlain(part[..|part| - 1]);
      assert part == part[..|part| - 1] + [part[|part| - 1]];
    }
  }

  predicate ArePlain(parts: seq<string>) {
    forall i :: 0 <= i < |parts| ==> SLASH !in parts[i]
  }

  lemma {:induction false} PartsArePlain(path: string)
    ensures ArePlain(Split(path))
    decreases |path|
  {
    if path != "" {
      PartsArePlain(path[..|path| - 1]);
    }
  }

  lemma {:induction false} PartsAreOf(path: string, i: nat, c: char)
    requires i < |Split(path)| && c in Split(path)[i]
    ensures c in path
    decreases |path|
  {
    if path != "" {
      var front := Split(path[..|path| - 1]);
      assert path == path[..|path| - 1] + [path[|path| - 1]];
      if i < |front| && c in front[i] {
        PartsAreOf(path[..|path| - 1], i, c);
      }
    }
  }

  lemma {:induction false} SplitJoined(parts: seq<string>)
    requires parts != [] && ArePlain(parts)
    ensures Split(Join(parts, "/")) == parts
    decreases |parts|
  {
    hide Split, Join;
    var front, last := parts[..|parts| - 1], parts[|parts| - 1];
    assert parts == front + [last];
    assert "/" == [SLASH];
    SplitPlain(last);
    JoinSnoc(front, last, "/");
    if front != [] {
      SplitJoined(front);
      SplitAround(Join(front, "/"), last);
    }
  }

  lemma {:induction false} KeptAre(parts: seq<string>, p: string)
    ensures p in Kept(parts) <==> p in parts && p != "" && p != "."
    decreases |parts|
  {
    if parts != [] {
      KeptAre(parts[..|parts| - 1], p);
      assert parts == parts[..|parts| - 1] + [parts[|parts| - 1]];
    }
  }

  lemma {:induction false} KeptAgain(parts: seq<string>)
    requires forall i :: 0 <= i < |parts| ==> parts[i] != "" && parts[i] != "."
    ensures Kept(parts) == parts
    decreases |parts|
  {
    if parts != [] {
      KeptAgain(parts[..|parts| - 1]);
    }
  }

  lemma KeptShape(path: string)
    ensures var kept := Kept(Split(path));
            ArePlain(kept) && forall i :: 0 <= i < |kept| ==> kept[i] != "" && kept[i] != "." && kept[i] in Split(path)
  {
    PartsArePlain(path);
    var kept := Kept(Split(path));
    forall i | 0 <= i < |kept| ensures SLASH !in kept[i] && kept[i] != "" && kept[i] != "." && kept[i] in Split(path) {
      KeptAre(Split(path), kept[i]);
    }
  }

  lemma {:induction false} JoinedFrom(parts: seq<string>, c: char)
    requires c in Join(parts, "/")
    ensures c == SLASH || exists i :: 0 <= i < |parts| && c in parts[i]
    decreases |parts|
  {
    if |parts| > 1 {
      var front := parts[..|parts| - 1];
      if c in Join(front, "/") {
        JoinedFrom(front, c);
      } else if c !in "/" {
        assert c in parts[|parts| - 1];
      }
    }
  }

  lemma {:induction false} JoinStarts(parts: seq<string>)
    requires parts != [] && parts[0] != ""
    ensures Join(parts, "/") != "" && Join(parts, "/")[0] == parts[0][0]
    decreases |parts|
  {
    if |parts| > 1 {
      JoinStarts(parts[..|parts| - 1]);
    }
  }

  /** What the check returns is relative, and the check returns it again; its characters come from the path. */
  lemma SafePathIsStable(path: string)
    requires SafePath(path).Ok?
    ensures var safe := SafePath(path).value;
            && safe != "" && safe[0] != SLASH && SafePath(safe) == Ok(safe)
            && forall c :: c in safe ==> c == SLASH || c in path
  {
    hide Split, Kept, Join, ArePlain;
    var kept := Kept(Split(path));
    KeptShape(path);
    JoinStarts(kept);
    assert SLASH !in kept[0] by {
      FirstIsPlain(kept);
    }
    SplitJoined(kept);
    KeptAgain(kept);
    var safe := Join(kept, "/");
    forall c | c in safe ensures c == SLASH || c in path {
      JoinedFrom(kept, c);
      if c != SLASH {
        var i :| 0 <= i < |kept| && c in kept[i];
        var j :| 0 <= j < |Split(path)| && Split(path)[j] == kept[i];
        PartsAreOf(path, j, c);
      }
    }
  }

  lemma FirstIsPlain(parts: seq<string>)
    requires parts != [] && ArePlain(parts)
    ensures SLASH !in parts[0]
  {
  }

  /** A path of three plain names is refused exactly when the second one goes up. */
  lemma ThreeNames(a: string, b: string, c: string)
    requires SLASH !in a && SLASH !in b && SLASH !in c
    requires a != "" && b != "" && |c| > 2 && a != "." && a != ".."
    ensures Split(a + "/" + b + "/" + c) == [a, b, c]
    ensures SafePath(a + "/" + b + "/" + c) ==
            if b == ".." then Err(NotSafe) else Ok(if b == "." then a + "/" + c else a + "/" + b + "/" + c)
  {
    hide Split, Kept, Join;
    assert "/" == [SLASH];
    var path := a + "/" + b + "/" + c;
    SplitPlain(a);
    SplitPlain(b);
    SplitPlain(c);
    SplitAround(a, b);
    SplitAround(a + "/" + b, c);
    assert Split(path) == [a, b, c];
    assert !IsAbsolute(path);
    assert ".." in [a, b, c] <==> b == "..";
    KeptNames(a, b, c);
    if b == "." {
      JoinTwo(a, c);
    } else {
      JoinTwo(a, b);
      JoinSnoc([a, b], c, "/");
      assert [a, b] + [c] == [a, b, c];
    }
  }

  lemma JoinTwo(a: string, b: string)
    ensures Join([a, b], "/") == a + "/" + b
  {
    JoinSnoc([a], b, "/");
    assert [a] + [b] == [a, b];
  }

  lemma KeptNames(a: string, b: string, c: string)
    requires a != "" && b != "" && |c| > 2 && a != "."
    ensures Kept([a, b, c]) == if b == "." then [a, c] else [a, b, c]
  {
    assert [a, b, c][..2] == [a, b] && [a, b][..1] == [a] && [a][..0] == [];
    assert Kept([]) == [];
    assert Kept([a]) == [a];
  }

  // Which paths are refused.

  /** Absolute paths, then paths that go up anywhere, then paths that name nothing. */
  lemma SafePathExactly(path: string)
    ensures SafePath(path) == Err(NotRelative) <==> path != "" && path[0] == '/'
    ensures SafePath(path) == Err(NotSafe) <==> !(path != "" && path[0] == '/') && ".." in Split(path)
    ensures SafePath(path) == Err(Empty) <==>
            !(path != "" && path[0] == '/') && ".." !in Split(path) && NamesNothing(Split(path))
  {
    NothingKept(Split(path));
    hide Split, Kept, NamesNothing, Join;
  }

  predicate NamesNothing(parts: seq<string>) {
    forall p :: p in parts ==> p == "" || p == "."
  }

  lemma NothingKept(parts: seq<string>)
    ensures Kept(parts) == [] <==> NamesNothing(parts)
  {
    hide Kept;
    if Kept(parts) != [] {
      KeptAre(parts, Kept(parts)[0]);
      assert Kept(parts)[0] in parts;
    }
    if !NamesNothing(parts) {
      var p :| p in parts && p != "" && p != ".";
      KeptAre(parts, p);
      assert p in Kept(parts);
    }
  }

  /** What is kept: the parts that name something, in order, with single slashes between them. */
  lemma SafePathJoins(path: string)
    requires SafePath(path).Ok?
    ensures exists kept: seq<string> :: SafePath(path).value == Join(kept, "/") && Subsequence(kept, Split(path))
  {
    KeptInOrder(Split(path));
    hide Split, Kept, Join;
  }

  /** The parts of one list that are neither empty nor a dot are the parts of the other. */
  ghost predicate Subsequence(kept: seq<string>, parts: seq<string>)
    decreases |parts|
  {
    if parts == [] then kept == []
    else
      var front, last := parts[..|parts| - 1], parts[|parts| - 1];
      if last == "" || last == "." then Subsequence(kept, front)
      else kept != [] && kept[|kept| - 1] == last && Subsequence(kept[..|kept| - 1], front)
  }

  lemma {:induction false} KeptInOrder(parts: seq<string>)
    ensures Subsequence(Kept(parts), parts)
    decreases |parts|
  {
    if parts != [] {
      var front, last := parts[..|parts| - 1], parts[|parts| - 1];
      KeptInOrder(front);
      if last != "" && last != "." {
        assert Kept(parts) == Kept(front) + [last];
        assert Kept(parts)[..|Kept(parts)| - 1] == Kept(front);
      } else {
        assert Kept(parts) == Kept(front);
      }
    }
  }
}
