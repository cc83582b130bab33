/** What the root of an accepted manifest binds, and what a matching package proves against it. */
module ManifestBinding {
  import opened Bytes
  import opened JsStrings
  import opened Json
  import opened LeafHash
  import opened Manifest
  import opened ManifestValidator
  import opened TreeBinding
  import ByteOrder
  import Hex
  import LevelTree
  import Merkle
  import Rfc6962
  import Sorting

  /** A leaf as its type and the bytes of its payload hash. */
  datatype Member = Member(leafType: JsString, payloadHash: Bytes)

  predicate Typed(leaf: Leaf) {
    leaf.LeafObject? && KnownType(leaf.leafType) && IsHexText(leaf.payloadHash)
  }

  function MemberOf(leaf: Leaf): Member
    requires Typed(leaf)
  {
    Member(leaf.leafType.s, Hex.FromHex(leaf.payloadHash.s))
  }

  function InputOf(member: Member): LeafInput {
    LeafInput(PROTOCOL_VERSION, member.leafType, HASH_ALGORITHM, member.payloadHash)
  }

  predicate Encodable(member: Member) {
    IsLeafType(member.leafType) && |member.payloadHash| == 32
  }

  function InputBytes(member: Member): Bytes
    requires Encodable(member)
  {
    ConstantsFit(InputOf(member));
    Encoding(InputOf(member))
  }

  function Members(leaves: seq<Leaf>): (r: seq<Member>)
    requires forall i :: 0 <= i < |leaves| ==> Typed(leaves[i])
    ensures |r| == |leaves| && forall i :: 0 <= i < |r| ==> Encodable(r[i])
  {
    seq(|leaves|, i requires 0 <= i < |leaves| => Encoded(leaves[i]))
  }

  function Encoded(leaf: Leaf): (r: Member)
    requires Typed(leaf)
    ensures Encodable(r)
  {
    Hex.StrictRoundTrip(leaf.payloadHash.s);
    MemberOf(leaf)
  }

  function AllInputs(members: seq<Member>): (r: seq<Bytes>)
    requires forall i :: 0 <= i < |members| ==> Encodable(members[i])
    ensures |r| == |members| && forall i :: 0 <= i < |r| ==> r[i] == InputBytes(members[i])
  {
    seq(|members|, i requires 0 <= i < |members| => InputBytes(members[i]))
  }

  lemma InputStartsWithZero(member: Member)
    requires Encodable(member)
    ensures IsLeafInput(InputBytes(member))
  {
    ConstantsFit(InputOf(member));
  }

  lemma InputsInjective(a: Member, b: Member)
    requires Encodable(a) && Encodable(b) && InputBytes(a) == InputBytes(b)
    ensures a == b
  {
    ConstantsFit(InputOf(a));
    ConstantsFit(InputOf(b));
    InputInjective(InputOf(a), InputOf(b));
  }

  lemma AllInputsInjective(a: seq<Member>, b: seq<Member>)
    requires forall i :: 0 <= i < |a| ==> Encodable(a[i])
    requires forall i :: 0 <= i < |b| ==> Encodable(b[i])
    requires AllInputs(a) == AllInputs(b)
    ensures a == b
  {
    hide InputBytes;
    forall i | 0 <= i < |a| ensures a[i] == b[i] {
      assert AllInputs(a)[i] == AllInputs(b)[i];
      InputsInjective(a[i], b[i]);
    }
  }

  lemma GoodLeafTyped(h: HashFn, leaf: Leaf)
    requires GoodLeaf(h, leaf)
    ensures Typed(leaf) && leaf.leafHash.Str?
    ensures leaf.leafHash.s == Hex.ToHex(h(InputBytes(Encoded(leaf))))
    ensures Hex.FromHex(leaf.leafHash.s) == h(InputBytes(Encoded(leaf)))
  {
    Hex.HexRoundTrip(h(InputBytes(Encoded(leaf))));
  }

  /** The leaf bytes of good leaves are the digests of their inputs. */
  lemma LeafBytesAreHashes(h: HashFn, leaves: seq<Leaf>)
    requires GoodLeaves(h, leaves)
    ensures AllHashesHex(leaves) && forall i :: 0 <= i < |leaves| ==> Typed(leaves[i])
    ensures LeafBytes(leaves) == Hashes(h, AllInputs(Members(leaves)))
  {
    GoodLeavesHex(h, leaves);
    hide RecomputedHash, InputBytes, Encoded;
    forall i | 0 <= i < |leaves| ensures Typed(leaves[i]) {
      GoodLeafTyped(h, leaves[i]);
    }
    var inputs := AllInputs(Members(leaves));
    forall i | 0 <= i < |leaves| ensures LeafBytes(leaves)[i] == Hashes(h, inputs)[i] {
      GoodLeafTyped(h, leaves[i]);
    }
  }

  lemma {:induction false} HashTextsAt(leaves: seq<Leaf>, n: nat, i: nat)
    requires i < n <= |leaves|
    ensures HashTexts(leaves, n)[i] == HashText(leaves[i])
    decreases n
  {
    if i < n - 1 {
      HashTextsAt(leaves, n - 1, i);
    }
  }

  lemma LeafBytesAscend(h: HashFn, leaves: seq<Leaf>)
    requires GoodLeaves(h, leaves) && AllHashesHex(leaves)
    ensures Sorting.Ascending<Bytes>(ByteOrder.Less, LeafBytes(leaves))
  {
    var texts, bytes := HashTexts(leaves, |leaves|), LeafBytes(leaves);
    forall i, j | 0 <= i < j < |leaves| ensures ByteOrder.Less(bytes[i], bytes[j]) {
      HashTextsAt(leaves, |leaves|, i);
      HashTextsAt(leaves, |leaves|, j);
      assert JsStrings.Less(texts[i], texts[j]);
      Hex.StrictRoundTrip(leaves[i].leafHash.s);
      Hex.StrictRoundTrip(leaves[j].leafHash.s);
      Hex.HexOrder(bytes[i], bytes[j]);
    }
  }

  function RootText(m: Value): Json
    requires m.Object?
  {
    Text(m.texts, MerkleRoot)
  }

  lemma MembersInputs(members: seq<Member>)
    requires members != [] && forall i :: 0 <= i < |members| ==> Encodable(members[i])
    ensures LeafInputs(AllInputs(members))
  {
    hide InputBytes;
    var inputs := AllInputs(members);
    forall x | x in inputs ensures IsLeafInput(x) {
      var i :| 0 <= i < |inputs| && inputs[i] == x;
      InputStartsWithZero(members[i]);
    }
  }

  lemma RootOfHashes(h: HashFn, inputs: seq<Bytes>)
    requires inputs != [] && Sorting.Ascending<Bytes>(ByteOrder.Less, Hashes(h, inputs))
    ensures Merkle.MerkleRoot(h, Hashes(h, inputs)) == Ok(RootOver(h, inputs))
  {
    hide Merkle.SortedLeaves, LevelTree.Root, Rfc6962.TreeHash, ByteOrder.Less;
    var hashes: seq<Bytes> := Hashes(h, inputs);
    Merkle.AscendingAccepted(hashes);
    Rfc6962.RootIsTreeHash(Merkle.JoinBy(h), Hashes(h, inputs));
  }

  lemma GoodLeavesRoot(h: HashFn, leaves: seq<Leaf>)
    requires GoodLeaves(h, leaves) && leaves != []
    ensures AllHashesHex(leaves) && forall i :: 0 <= i < |leaves| ==> Typed(leaves[i])
    ensures LeafInputs(AllInputs(Members(leaves)))
    ensures Merkle.MerkleRoot(h, LeafBytes(leaves)) == Ok(RootOver(h, AllInputs(Members(leaves))))
  {
    LeafBytesAreHashes(h, leaves);
    LeafBytesAscend(h, leaves);
    hide *;
    MembersInputs(Members(leaves));
    RootOfHashes(h, AllInputs(Members(leaves)));
  }

  /** The declared root of an accepted manifest is the RFC 6962 root over its members' inputs. */
  lemma AcceptedRoot(h: HashFn, parses: Timestamps, m: Value)
    requires Accepted(h, parses, m)
    ensures forall i :: 0 <= i < |m.leafSet.leaves| ==> Typed(m.leafSet.leaves[i])
    ensures LeafInputs(AllInputs(Members(m.leafSet.leaves)))
    ensures RootText(m).Str?
    ensures RootText(m).s == Hex.ToHex(RootOver(h, AllInputs(Members(m.leafSet.leaves))))
    ensures Hex.FromHex(RootText(m).s) == RootOver(h, AllInputs(Members(m.leafSet.leaves)))
  {
    hide GoodHeader, GoodTo, GoodCounts, GoodSignature, InputBytes, RootOver, Merkle.MerkleRoot;
    GoodLeavesRoot(h, m.leafSet.leaves);
    Hex.HexRoundTrip(RootOver(h, AllInputs(Members(m.leafSet.leaves))));
  }

  /** Two accepted manifests with one root hold the same members in the same order, or a collision is named. */
  lemma RootBinding(h: HashFn, parses: Timestamps, m: Value, m': Value)
    requires Accepted(h, parses, m) && Accepted(h, parses, m')
    requires RootText(m) == RootText(m')
    ensures forall i :: 0 <= i < |m.leafSet.leaves| ==> Typed(m.leafSet.leaves[i])
    ensures forall i :: 0 <= i < |m'.leafSet.leaves| ==> Typed(m'.leafSet.leaves[i])
    ensures var a, b := AllInputs(Members(m.leafSet.leaves)), AllInputs(Members(m'.leafSet.leaves));
            a != [] && b != [] &&
            match TreeCollision(h, a, b)
            case None => Members(m.leafSet.leaves) == Members(m'.leafSet.leaves)
            case Some(pair) => Witnesses(h, pair, HashedForRoot(h, a), HashedForRoot(h, b))
  {
    AcceptedRoot(h, parses, m);
    AcceptedRoot(h, parses, m');
    hide GoodHeader, GoodTo, GoodCounts, GoodSignature, GoodRoot, InputBytes, RootOver, HashedForRoot, TreeCollision;
    var a, b := AllInputs(Members(m.leafSet.leaves)), AllInputs(Members(m'.leafSet.leaves));
    RootBinds(h, a, b);
    if TreeCollision(h, a, b).None? {
      AllInputsInjective(Members(m.leafSet.leaves), Members(m'.leafSet.leaves));
    }
  }
}
