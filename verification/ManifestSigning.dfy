/** The digest that signs a manifest, and what it binds. */
module ManifestSigning {
  import opened Bytes
  import opened JsStrings
  import opened Json
  import opened CanonicalJson
  import opened JsonReader
  import Sorting

  const SIGNATURES: JsString := Lit("signatures")

  datatype SigningDigest = SigningDigest(canonicalBytes: Bytes, digest: Digest)

  /** The manifest with its signatures emptied. */
  function ForSigning(manifest: seq<Field>): seq<Field> {
    Put(manifest, SIGNATURES, Arr([]))
  }

  function BuildSigningDigest(h: HashFn, manifest: seq<Field>): Result<SigningDigest, JsonError> {
    match CanonicalBytes(Obj(ForSigning(manifest)))
    case Err(e) => Err(e)
    case Ok(bytes) => Ok(SigningDigest(bytes, h(bytes)))
  }

  // Objects compared name by name.

  lemma {:induction false} LookupAt(fields: seq<Field>, i: nat)
    requires DistinctNames(fields) && i < |fields|
    ensures Lookup(fields, fields[i].name) == fields[i].value
    decreases |fields|
  {
    if i != 0 {
      assert fields[0].name != fields[i].name;
      LookupAt(fields[1..], i - 1);
    }
  }

  lemma {:induction false} LookupFound(fields: seq<Field>, name: JsString)
    ensures Lookup(fields, name) != Undefined ==>
              exists i :: 0 <= i < |fields| && fields[i].name == name && fields[i].value == Lookup(fields, name)
    ensures (forall i :: 0 <= i < |fields| ==> fields[i].name != name) ==> Lookup(fields, name) == Undefined
    decreases |fields|
  {
    if fields != [] && fields[0].name != name {
      LookupFound(fields[1..], name);
      if Lookup(fields, name) != Undefined {
        var i :| 0 <= i < |fields[1..]| && fields[1..][i].name == name && fields[1..][i].value == Lookup(fields, name);
        assert fields[i + 1] == fields[1..][i];
      }
    }
  }

  ghost predicate SameUnder(f: seq<Field>, g: seq<Field>, name: JsString) {
    SameValue(Lookup(f, name), Lookup(g, name))
  }

  lemma {:induction false} SameSymmetric(f: seq<Field>, g: seq<Field>)
    requires HasDistinctNames(Obj(f)) && HasDistinctNames(Obj(g))
    ensures SameValue(Obj(f), Obj(g)) <==> SameValue(Obj(g), Obj(f))
  {
    NormalDecides(Obj(f), Obj(g));
    NormalDecides(Obj(g), Obj(f));
  }

  lemma {:induction false} SameAtNames(f: seq<Field>, g: seq<Field>, i: nat)
    requires DistinctNames(f) && DistinctNames(g) && SameValue(Obj(f), Obj(g)) && i < |f|
    ensures SameUnder(f, g, f[i].name)
  {
    assert SameIn(f[i], g);
    var j :| 0 <= j < |g| && f[i].name == g[j].name && SameValue(f[i].value, g[j].value);
    LookupAt(f, i);
    LookupAt(g, j);
  }

  predicate HasName(fields: seq<Field>, name: JsString) {
    exists i :: 0 <= i < |fields| && fields[i].name == name
  }

  lemma {:induction false} SameObjectSameUnder(f: seq<Field>, g: seq<Field>, name: JsString)
    requires HasDistinctNames(Obj(f)) && HasDistinctNames(Obj(g)) && SameValue(Obj(f), Obj(g))
    ensures SameUnder(f, g, name)
  {
    if HasName(f, name) {
      var i :| 0 <= i < |f| && f[i].name == name;
      SameAtNames(f, g, i);
    } else {
      SameSymmetric(f, g);
      forall j | 0 <= j < |g| ensures HasName(f, g[j].name) {
        assert SameIn(g[j], f);
      }
      LookupFound(f, name);
      LookupFound(g, name);
    }
  }

  // Emptying the signatures touches no other name.

  lemma {:induction false} LookupPut(fields: seq<Field>, name: JsString, v: Json, other: JsString)
    ensures Lookup(Put(fields, name, v), other) == if other == name then v else Lookup(fields, other)
    decreases |fields|
  {
    if fields != [] && fields[0].name != name {
      LookupPut(fields[1..], name, v, other);
    }
  }

  lemma {:induction false} PutNames(fields: seq<Field>, name: JsString, v: Json)
    ensures forall x :: x in Put(fields, name, v) ==> x in fields || x == Field(name, v)
    ensures DistinctNames(fields) ==> DistinctNames(Put(fields, name, v))
    decreases |fields|
  {
    if fields != [] && fields[0].name != name {
      var rest := Put(fields[1..], name, v);
      PutNames(fields[1..], name, v);
      forall j | 0 <= j < |rest| && DistinctNames(fields) ensures rest[j].name != fields[0].name {
        assert rest[j] in rest;
        if rest[j] in fields[1..] {
          var k :| 0 <= k < |fields[1..]| && fields[1..][k] == rest[j];
          assert fields[k + 1] == rest[j];
        }
      }
    }
  }

  lemma {:induction false} PutKeeps(fields: seq<Field>, name: JsString, v: Json, x: Field)
    requires DistinctNames(fields)
    ensures x in Put(fields, name, v) <==> (x in fields && x.name != name) || x == Field(name, v)
    decreases |fields|
  {
    if fields != [] {
      var rest := fields[1..];
      assert fields == [fields[0]] + rest;
      if fields[0].name == name {
        assert x in rest ==> x.name != name by {
          if x in rest {
            var i :| 0 <= i < |rest| && rest[i] == x;
            assert fields[i + 1] == x;
          }
        }
      } else {
        PutKeeps(rest, name, v, x);
      }
    }
  }

  /** An object as JavaScript has them, whatever its signatures are: no name comes twice, at any depth. */
  predicate IsManifest(manifest: seq<Field>) {
    DistinctNames(manifest)
    && forall i :: 0 <= i < |manifest| && manifest[i].name != SIGNATURES ==> HasDistinctNames(manifest[i].value)
  }

  /** Every field but the signatures can be serialised. */
  predicate IsSignable(manifest: seq<Field>) {
    forall i :: 0 <= i < |manifest| && manifest[i].name != SIGNATURES ==> Serialisable(manifest[i].value)
  }

  lemma ForSigningShape(manifest: seq<Field>)
    requires IsManifest(manifest)
    ensures HasDistinctNames(Obj(ForSigning(manifest)))
    ensures Serialisable(Obj(ForSigning(manifest))) <==> IsSignable(manifest)
  {
    hide Put, DistinctNames;
    PutNames(manifest, SIGNATURES, Arr([]));
    var signed := ForSigning(manifest);
    forall x: Field ensures x in signed <==> (x in manifest && x.name != SIGNATURES) || x == Field(SIGNATURES, Arr([])) {
      PutKeeps(manifest, SIGNATURES, Arr([]), x);
    }
    forall i | 0 <= i < |signed| ensures HasDistinctNames(signed[i].value) {
      assert signed[i] in signed;
    }
    if IsSignable(manifest) {
      forall i | 0 <= i < |signed| ensures Serialisable(signed[i].value) {
        assert signed[i] in signed;
      }
    }
    if Serialisable(Obj(signed)) {
      forall i | 0 <= i < |manifest| && manifest[i].name != SIGNATURES ensures Serialisable(manifest[i].value) {
        assert manifest[i] in signed;
      }
    }
  }

  /** A digest is available exactly for manifests whose fields, signatures apart, can be serialised. */
  lemma SigningSucceeds(h: HashFn, manifest: seq<Field>)
    requires IsManifest(manifest)
    ensures BuildSigningDigest(h, manifest).Ok? <==> IsSignable(manifest)
  {
    ForSigningShape(manifest);
    CanonicalizeWrites(Obj(ForSigning(manifest)));
  }

  /** Equal digests mean equal fields, signatures apart, or the two canonical byte strings collide. */
  lemma DigestBindsFields(h: HashFn, a: seq<Field>, b: seq<Field>, name: JsString)
    requires IsManifest(a) && IsManifest(b)
    requires BuildSigningDigest(h, a).Ok? && BuildSigningDigest(h, b).Ok?
    requires BuildSigningDigest(h, a).value.digest == BuildSigningDigest(h, b).value.digest
    requires name != SIGNATURES
    ensures SameUnder(a, b, name)
            || Collides(h, BuildSigningDigest(h, a).value.canonicalBytes, BuildSigningDigest(h, b).value.canonicalBytes)
  {
    var bytes, bytes' := BuildSigningDigest(h, a).value.canonicalBytes, BuildSigningDigest(h, b).value.canonicalBytes;
    if bytes == bytes' {
      ForSigningShape(a);
      ForSigningShape(b);
      SigningSucceeds(h, a);
      SigningSucceeds(h, b);
      CanonicalBytesDecide(Obj(ForSigning(a)), Obj(ForSigning(b)));
      SameObjectSameUnder(ForSigning(a), ForSigning(b), name);
      LookupPut(a, SIGNATURES, Arr([]), name);
      LookupPut(b, SIGNATURES, Arr([]), name);
    }
  }

  // The converse: signatures and key order do not reach the digest.

  lemma {:induction false} UnderMatches(f: seq<Field>, g: seq<Field>, i: nat)
    requires DistinctNames(f) && i < |f| && f[i].value != Undefined
    requires SameUnder(f, g, f[i].name)
    ensures SameIn(f[i], g)
  {
    LookupAt(f, i);
    LookupFound(g, f[i].name);
  }

  function Names(fields: seq<Field>): seq<JsString> {
    seq(|fields|, i requires 0 <= i < |fields| => fields[i].name)
  }

  lemma {:induction false} NamesWithin(f: seq<Field>, g: seq<Field>)
    requires DistinctNames(f)
    requires forall i :: 0 <= i < |f| ==> SameIn(f[i], g)
    ensures |f| <= |g|
  {
    forall x | x in Names(f) ensures x in Names(g) {
      var i :| 0 <= i < |f| && f[i].name == x;
      assert SameIn(f[i], g);
      var j :| 0 <= j < |g| && f[i].name == g[j].name && SameValue(f[i].value, g[j].value);
      assert Names(g)[j] == x;
    }
    NoLonger(Names(f), Names(g));
  }

  lemma {:induction false} NoLonger(s: seq<JsString>, t: seq<JsString>)
    requires Sorting.Distinct(s) && forall x :: x in s ==> x in t
    ensures |s| <= |t|
  {
    Sorting.DistinctCounts(s);
    assert multiset(s) <= multiset(t) by {
      forall x | x in multiset(s) ensures multiset(s)[x] <= multiset(t)[x] {
        assert x in s && x in t;
      }
    }
    assert |multiset(t) - multiset(s)| == |multiset(t)| - |multiset(s)|;
  }

  lemma {:induction false} SameUnderAllSameObject(f: seq<Field>, g: seq<Field>)
    requires DistinctNames(f) && DistinctNames(g)
    requires forall i :: 0 <= i < |f| ==> f[i].value != Undefined
    requires forall j :: 0 <= j < |g| ==> g[j].value != Undefined
    requires forall name :: SameUnder(f, g, name) && SameUnder(g, f, name)
    ensures SameValue(Obj(f), Obj(g))
  {
    forall i | 0 <= i < |f| ensures SameIn(f[i], g) {
      UnderMatches(f, g, i);
    }
    forall j | 0 <= j < |g| ensures SameIn(g[j], f) {
      UnderMatches(g, f, j);
    }
    NamesWithin(f, g);
    NamesWithin(g, f);
  }

  lemma {:induction false} SerialisableDefined(fields: seq<Field>)
    requires Serialisable(Obj(fields))
    ensures forall i :: 0 <= i < |fields| ==> fields[i].value != Undefined
  {
    forall i | 0 <= i < |fields| ensures fields[i].value != Undefined {
      assert Serialisable(fields[i].value);
    }
  }

  lemma {:induction false} SameForSigning(a: seq<Field>, b: seq<Field>, name: JsString)
    requires name != SIGNATURES ==> SameUnder(a, b, name)
    ensures SameUnder(ForSigning(a), ForSigning(b), name)
  {
    LookupPut(a, SIGNATURES, Arr([]), name);
    LookupPut(b, SIGNATURES, Arr([]), name);
  }

  /** Manifests that agree under every name but signatures have one digest. */
  lemma DigestIgnoresSignatures(h: HashFn, a: seq<Field>, b: seq<Field>)
    requires IsManifest(a) && IsManifest(b) && IsSignable(a) && IsSignable(b)
    requires forall name :: name != SIGNATURES ==> SameUnder(a, b, name) && SameUnder(b, a, name)
    ensures BuildSigningDigest(h, a) == BuildSigningDigest(h, b)
  {
    var f, g := ForSigning(a), ForSigning(b);
    ForSigningShape(a);
    ForSigningShape(b);
    SerialisableDefined(f);
    SerialisableDefined(g);
    forall name ensures SameUnder(f, g, name) && SameUnder(g, f, name) {
      if name != SIGNATURES {
        assert SameUnder(a, b, name) && SameUnder(b, a, name);
      }
      SameForSigning(a, b, name);
      SameForSigning(b, a, name);
    }
    SameUnderAllSameObject(f, g);
    CanonicalBytesDecide(Obj(f), Obj(g));
  }

  // What is signed, as a reader finds it.

  /** The bytes that are signed are the manifest's fields, with an empty list under "signatures". */
  lemma SignedBytesRead(h: HashFn, manifest: seq<Field>, name: JsString)
    requires IsManifest(manifest) && BuildSigningDigest(h, manifest).Ok?
    ensures var signing := BuildSigningDigest(h, manifest).value;
            var v := ParseBytes(signing.canonicalBytes);
            && signing.digest == h(signing.canonicalBytes)
            && v.Some? && v.value.Obj?
            && Lookup(v.value.fields, name) == if name == Lit("signatures") then Arr([]) else Normal(Lookup(manifest, name))
  {
    hide CanonicalBytes, ParseBytes, Lookup, Put, Serialisable, HasDistinctNames, Normal;
    SigningSucceeds(h, manifest);
    ForSigningShape(manifest);
    SignedNames(manifest);
    PropertiesRead(ForSigning(manifest), name);
    LookupPut(manifest, SIGNATURES, Arr([]), name);
    NormalOfNothing();
  }

  lemma SignedNames(manifest: seq<Field>)
    requires HasDistinctNames(Obj(ForSigning(manifest)))
    ensures DistinctNames(ForSigning(manifest))
  {
  }

  lemma NormalOfNothing()
    ensures Normal(Arr([])) == Arr([])
  {
  }
}
