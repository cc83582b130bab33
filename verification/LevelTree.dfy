/** Trees built level by level over any kind of node: pairs are joined, an odd last node is carried up. */
module LevelTree {
  import opened Bytes

  datatype Position = Left | Right | OtherPosition

  datatype Step<+T> = Step(sibling: T, position: Position)

  type Join<!T> = (T, T) -> T

  function NextLevel<T>(join: Join<T>, level: seq<T>): (next: seq<T>)
    ensures |next| == (|level| + 1) / 2
    decreases |level|
  {
    if |level| < 2 then level else [join(level[0], level[1])] + NextLevel(join, level[2..])
  }

  lemma {:induction false} NextLevelAt<T>(join: Join<T>, level: seq<T>, i: nat)
    requires 2 * i < |level|
    ensures NextLevel(join, level)[i] ==
            if 2 * i + 1 < |level| then join(level[2 * i], level[2 * i + 1]) else level[2 * i]
    decreases i
  {
    if i != 0 {
      NextLevelAt(join, level[2..], i - 1);
    }
  }

  function Root<T>(join: Join<T>, level: seq<T>): T
    requires level != []
    decreases |level|
  {
    if |level| == 1 then level[0] else Root(join, NextLevel(join, level))
  }

  predicate Promoted(n: nat, idx: nat) {
    idx == n - 1 && n % 2 == 1
  }

  /** What one level contributes to the proof for the node at idx. */
  function LevelStep<T>(level: seq<T>, idx: nat): seq<Step<T>>
    requires idx < |level|
  {
    if Promoted(|level|, idx) then []
    else if idx % 2 == 0 then [Step(level[idx + 1], Right)]
    else [Step(level[idx - 1], Left)]
  }

  function Proof<T>(join: Join<T>, level: seq<T>, idx: nat): seq<Step<T>>
    requires idx < |level|
    decreases |level|
  {
    if |level| == 1 then [] else LevelStep(level, idx) + Proof(join, NextLevel(join, level), idx / 2)
  }

  function Apply<T>(join: Join<T>, current: T, step: Step<T>): T {
    if step.position == Left then join(step.sibling, current) else join(current, step.sibling)
  }

  /** The node that a list of steps leads to. */
  function Climb<T>(join: Join<T>, current: T, steps: seq<Step<T>>): T
    decreases |steps|
  {
    if steps == [] then current else Climb(join, Apply(join, current, steps[0]), steps[1..])
  }

  lemma {:induction false} ClimbAppend<T>(join: Join<T>, current: T, p: seq<Step<T>>, q: seq<Step<T>>)
    ensures Climb(join, current, p + q) == Climb(join, Climb(join, current, p), q)
    decreases |p|
  {
    if p == [] {
      assert p + q == q;
    } else {
      assert (p + q)[1..] == p[1..] + q;
      ClimbAppend(join, Apply(join, current, p[0]), p[1..], q);
    }
  }

  lemma LevelStepMeaning<T>(join: Join<T>, level: seq<T>, idx: nat, parent: T)
    requires idx < |level| && parent == NextLevel(join, level)[idx / 2]
    ensures if Promoted(|level|, idx) then LevelStep(level, idx) == [] && parent == level[idx]
            else |LevelStep(level, idx)| == 1 && parent == Apply(join, level[idx], LevelStep(level, idx)[0])
  {
    hide NextLevel;
    NextLevelAt(join, level, idx / 2);
  }

  lemma LevelStepClimbs<T>(join: Join<T>, level: seq<T>, idx: nat)
    requires idx < |level|
    ensures Climb(join, level[idx], LevelStep(level, idx)) == NextLevel(join, level)[idx / 2]
  {
    LevelStepMeaning(join, level, idx, NextLevel(join, level)[idx / 2]);
    hide LevelStep, NextLevel, Apply, Promoted;
  }

  /** The proof for a node climbs to the root. */
  lemma {:induction false} ProofReachesRoot<T>(join: Join<T>, level: seq<T>, idx: nat)
    requires idx < |level|
    ensures Climb(join, level[idx], Proof(join, level, idx)) == Root(join, level)
    ensures forall step :: step in Proof(join, level, idx) ==> step.position != OtherPosition
    decreases |level|
  {
    if |level| > 1 {
      var next := NextLevel(join, level);
      LevelStepClimbs(join, level, idx);
      ClimbAppend(join, level[idx], LevelStep(level, idx), Proof(join, next, idx / 2));
      ProofReachesRoot(join, next, idx / 2);
    }
  }

  // Proof length.

  /** The number of levels above n nodes. */
  function CeilLog2(n: nat): nat
    requires n >= 1
  {
    if n == 1 then 0 else 1 + CeilLog2((n + 1) / 2)
  }

  /** CeilLog2 is the least k with n <= 2^k. */
  lemma {:induction false} CeilLog2Meaning(n: nat)
    requires n >= 1
    ensures n <= Pow2(CeilLog2(n))
    ensures n > 1 ==> Pow2(CeilLog2(n) - 1) < n
  {
    if n > 1 {
      CeilLog2Meaning((n + 1) / 2);
    }
  }

  /** How many times the node at idx is carried up unpaired. */
  function Promotions(n: nat, idx: nat): nat
    requires idx < n
    decreases n
  {
    if n == 1 then 0 else (if Promoted(n, idx) then 1 else 0) + Promotions((n + 1) / 2, idx / 2)
  }

  /** A proof has one step for each level, less those at which its node is carried up. */
  lemma {:induction false} ProofLength<T>(join: Join<T>, level: seq<T>, idx: nat)
    requires idx < |level|
    ensures |Proof(join, level, idx)| == CeilLog2(|level|) - Promotions(|level|, idx)
    decreases |level|
  {
    if |level| > 1 {
      ProofLength(join, NextLevel(join, level), idx / 2);
    }
  }
}
