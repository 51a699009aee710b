/**
  The pure part of the fractal: how the tree is laid out in one flat array
  per level, which fixed direction and rotation each slot gets, and what one
  node's per-frame step computes from its parent.
 */
module FractalLayout {
  import opened Geometry

  /** Children per node: one per entry of `Directions`. */
  const BranchFactor: nat := 5

  /** One `FractalPart`. `direction` and `rotation` are fixed by the node's
      slot; `spinAngle` accumulates; `worldPosition` and `worldRotation` are
      recomputed every frame. */
  datatype Part = Part(
    direction: Vec,
    worldPosition: Vec,
    rotation: Quat,
    worldRotation: Quat,
    spinAngle: real)

  /** The all-zero part a newly allocated (cleared) native array holds. */
  const ClearedPart: Part := Part(Origin, Origin, Zero, Zero, 0.0)

  /** The static `directions` table: up, right, left, forward, back. */
  const Directions: seq<Vec> := [Up, Right, Left, Forward, Back]

  /** The static `rotations` table, angles in multiples of pi. */
  const Rotations: seq<Quat> := [Identity, RotateZ(-0.5), RotateZ(0.5), RotateX(0.5), RotateX(-0.5)]

  /** Number of nodes on level `level`: the array length `OnEnable` allocates,
      1 for the root and five times the previous level below it. */
  function LevelSize(level: nat): (n: nat)
    ensures n >= 1
  {
    if level == 0 then 1 else BranchFactor * LevelSize(level - 1)
  }

  /** Nodes on levels 0 .. depth-1 together. */
  function NodeCount(depth: nat): nat
  {
    if depth == 0 then 0 else NodeCount(depth - 1) + LevelSize(depth - 1)
  }

  /** A tree of `depth` levels holds (5^depth - 1) / 4 nodes. */
  lemma {:induction false} NodeCountClosedForm(depth: nat)
    ensures 4 * NodeCount(depth) == LevelSize(depth) - 1
    ensures NodeCount(depth) == (LevelSize(depth) - 1) / 4
  {
    if depth > 0 {
      NodeCountClosedForm(depth - 1);
    }
  }

  /** Index, in the previous level, of the parent of node `i`. */
  function Parent(i: nat): nat
  {
    i / BranchFactor
  }

  /** The slot of node `i` among its parent's children. */
  function Slot(i: nat): (s: nat)
    ensures s < BranchFactor
  {
    i % BranchFactor
  }

  /** The parent of every node of a level below the root exists. */
  lemma ParentInRange(level: nat, i: nat)
    requires level >= 1 && i < LevelSize(level)
    ensures Parent(i) < LevelSize(level - 1)
  {
  }

  /** Index of the child in slot `c` of node `p`. */
  function Child(p: nat, c: nat): nat
  {
    BranchFactor * p + c
  }

  /** Every node of level `level - 1` has exactly five children on `level`:
      the child in slot c is node 5p+c, it lies on the level, and its parent
      is p and its slot c; no other node of the level has parent p. */
  lemma ChildrenOfParent(level: nat, p: nat)
    requires level >= 1 && p < LevelSize(level - 1)
    ensures forall c :: 0 <= c < BranchFactor ==>
              Child(p, c) < LevelSize(level) && Parent(Child(p, c)) == p && Slot(Child(p, c)) == c
    ensures (set i | 0 <= i < LevelSize(level) && Parent(i) == p)
            == {Child(p, 0), Child(p, 1), Child(p, 2), Child(p, 3), Child(p, 4)}
    ensures |set i | 0 <= i < LevelSize(level) && Parent(i) == p| == BranchFactor
  {
    var children := set i | 0 <= i < LevelSize(level) && Parent(i) == p;
    var block := {Child(p, 0), Child(p, 1), Child(p, 2), Child(p, 3), Child(p, 4)};
    assert 5 * p + 4 < LevelSize(level);
    forall i | i in children ensures i in block {
      assert 5 * p <= i < 5 * p + 5;
    }
    forall i | i in block ensures i in children {
      assert i / 5 == p;
    }
    assert children == block;
  }

  /** The part `CreatePart(childIndex)` builds: the slot's direction and
      rotation, every other field cleared (so `spinAngle` starts at 0). */
  function CreatePart(childIndex: nat): (r: Part)
    requires childIndex < BranchFactor
    ensures r.direction == Directions[childIndex] && r.rotation == Rotations[childIndex]
    ensures r.spinAngle == 0.0 && r.worldPosition == Origin && r.worldRotation == Zero
  {
    ClearedPart.(direction := Directions[childIndex], rotation := Rotations[childIndex])
  }

  /** The per-frame step of the root: spin, then orient and place it by the
      owning object's transform. */
  function AdvanceRoot(root: Part, spinAngleDelta: real, objectRotation: Quat, objectPosition: Vec): (r: Part)
    ensures r.spinAngle == root.spinAngle + spinAngleDelta
    ensures r.direction == root.direction && r.rotation == root.rotation
    ensures r.worldPosition == objectPosition
  {
    var spin := root.spinAngle + spinAngleDelta;
    root.(spinAngle := spin,
          worldRotation := Mul(objectRotation, Mul(root.rotation, RotateY(spin))),
          worldPosition := objectPosition)
  }

  /** The per-frame step of one node below the root (`Execute(i)`): it reads
      its own part and its parent's, already advanced this frame, and nothing
      else. */
  function Advance(parent: Part, part: Part, spinAngleDelta: real, scale: real): (r: Part)
    ensures r.spinAngle == part.spinAngle + spinAngleDelta
    ensures r.direction == part.direction && r.rotation == part.rotation
  {
    var spin := part.spinAngle + spinAngleDelta;
    part.(spinAngle := spin,
          worldRotation := Mul(parent.worldRotation, Mul(part.rotation, RotateY(spin))),
          worldPosition := Add(parent.worldPosition, Rotate(parent.worldRotation, Scale(1.5 * scale, part.direction))))
  }

  /** The instance matrix of a part drawn at `scale`. */
  function Pack(part: Part, scale: real): Matrix
  {
    Trs(part.worldRotation, scale, part.worldPosition)
  }

  /** Uniform scale of level `level`: the object's scale, halved once per
      level, as `Update` computes it. */
  function LevelScale(objectScale: real, level: nat): real
  {
    if level == 0 then objectScale else LevelScale(objectScale, level - 1) * 0.5
  }

  function Pow2(n: nat): (p: nat)
    ensures p >= 1
  {
    if n == 0 then 1 else 2 * Pow2(n - 1)
  }

  /** Level `level` is drawn at objectScale / 2^level. */
  lemma {:induction false} LevelScaleHalves(objectScale: real, level: nat)
    ensures LevelScale(objectScale, level) == objectScale / Pow2(level) as real
  {
    if level > 0 {
      LevelScaleHalves(objectScale, level - 1);
      assert Pow2(level) as real == 2.0 * Pow2(level - 1) as real;
    }
  }

  /** One whole level advanced from its (already advanced) parent level: the
      result of the level's job, whatever order its indices run in. */
  function AdvanceLevel(parents: seq<Part>, level: seq<Part>, spinAngleDelta: real, scale: real): (r: seq<Part>)
    requires |level| <= BranchFactor * |parents|
    ensures |r| == |level|
    ensures forall i :: 0 <= i < |r| ==>
              && r[i].spinAngle == level[i].spinAngle + spinAngleDelta
              && r[i].direction == level[i].direction
              && r[i].rotation == level[i].rotation
  {
    seq(|level|, i requires 0 <= i < |level| => Advance(parents[Parent(i)], level[i], spinAngleDelta, scale))
  }

  /** The matrices of a level drawn at `scale`. */
  function PackLevel(level: seq<Part>, scale: real): seq<Matrix>
  {
    seq(|level|, i requires 0 <= i < |level| => Pack(level[i], scale))
  }

  /** Every node of a level carries its slot's direction and rotation. */
  ghost predicate Slotted(level: seq<Part>)
  {
    forall i :: 0 <= i < |level| ==>
      level[i].direction == Directions[Slot(i)] && level[i].rotation == Rotations[Slot(i)]
  }

  /** A level as created holds its slots, and advancing it keeps them: the
      fixed fields are never touched by a frame. */
  lemma AdvanceLevelKeepsSlots(parents: seq<Part>, level: seq<Part>, spinAngleDelta: real, scale: real)
    requires |level| <= BranchFactor * |parents|
    requires Slotted(level)
    ensures Slotted(AdvanceLevel(parents, level, spinAngleDelta, scale))
  {
  }

  /** Running `Execute(i)` alone on a level. */
  function StepAt(parents: seq<Part>, level: seq<Part>, spinAngleDelta: real, scale: real, i: nat): seq<Part>
    requires |level| <= BranchFactor * |parents| && i < |level|
  {
    level[i := Advance(parents[Parent(i)], level[i], spinAngleDelta, scale)]
  }

  ghost predicate IndicesBelow(order: seq<nat>, n: nat)
  {
    forall j :: 0 <= j < |order| ==> order[j] < n
  }

  /** No element occurs twice in `s`. */
  ghost predicate Distinct<T>(s: seq<T>)
  {
    forall i, j :: 0 <= i < j < |s| ==> s[i] != s[j]
  }

  /** `order` runs every index below `n` exactly once. */
  ghost predicate IsIndexPermutation(order: seq<nat>, n: nat)
  {
    IndicesBelow(order, n) && Distinct(order) && forall i :: 0 <= i < n ==> i in order
  }

  /** Running `Execute` for the indices of `order`, one after another. */
  function RunInOrder(parents: seq<Part>, level: seq<Part>, spinAngleDelta: real, scale: real, order: seq<nat>): (r: seq<Part>)
    requires |level| <= BranchFactor * |parents| && IndicesBelow(order, |level|)
    ensures |r| == |level|
    decreases |order|
  {
    if order == [] then level
    else RunInOrder(parents, StepAt(parents, level, spinAngleDelta, scale, order[0]), spinAngleDelta, scale, order[1..])
  }

  /** After a run in which no index repeats, a node has been advanced exactly
      when its index was run, and from its own original value. */
  lemma {:induction false} RunInOrderAt(parents: seq<Part>, level: seq<Part>, spinAngleDelta: real, scale: real, order: seq<nat>, k: nat)
    requires |level| <= BranchFactor * |parents| && IndicesBelow(order, |level|) && Distinct(order)
    requires k < |level|
    ensures RunInOrder(parents, level, spinAngleDelta, scale, order)[k]
            == if k in order then Advance(parents[Parent(k)], level[k], spinAngleDelta, scale) else level[k]
    decreases |order|
  {
    if order != [] {
      var next := StepAt(parents, level, spinAngleDelta, scale, order[0]);
      var rest := order[1..];
      assert IndicesBelow(rest, |next|);
      assert Distinct(rest);
      RunInOrderAt(parents, next, spinAngleDelta, scale, rest, k);
      if k in rest {
        var j :| 0 <= j < |rest| && rest[j] == k;
        assert order[j + 1] == k;
        assert order[0] != k;
      }
      assert k in order <==> k == order[0] || k in rest;
    }
  }

  /** The level's result does not depend on the order its indices run in:
      every order that runs each index once gives `AdvanceLevel`. */
  lemma AnyOrderGivesSameLevel(parents: seq<Part>, level: seq<Part>, spinAngleDelta: real, scale: real, order: seq<nat>)
    requires |level| <= BranchFactor * |parents|
    requires IsIndexPermutation(order, |level|)
    ensures RunInOrder(parents, level, spinAngleDelta, scale, order) == AdvanceLevel(parents, level, spinAngleDelta, scale)
  {
    var r := RunInOrder(parents, level, spinAngleDelta, scale, order);
    var s := AdvanceLevel(parents, level, spinAngleDelta, scale);
    forall k | 0 <= k < |level| ensures r[k] == s[k] {
      RunInOrderAt(parents, level, spinAngleDelta, scale, order, k);
    }
  }
}
