/**
  The `Fractal` component: one native array of parts, one of matrices and
  one instance buffer per level, allocated on enable, advanced level by level
  every frame, and released on disable.

  The level jobs run here one after another, index by index; the result is
  the one any parallel schedule gives (`FractalLayout.AnyOrderGivesSameLevel`).
 */
module FractalTree {
  import opened Geometry
  import opened FractalLayout

  /** The arguments of one `UpdateFractalLevelJob`: the level's parent array
      (read only), its own parts and its matrices (written). */
  datatype UpdateFractalLevelJob = UpdateFractalLevelJob(
    spinAngleDelta: real,
    scale: real,
    parents: array<Part>,
    parts: array<Part>,
    matrices: array<Matrix>)
  {
    /** The job reads a different array from the one it writes, and every
        index it runs has a parent and a matrix slot. */
    ghost predicate WellFormed()
    {
      && parents != parts
      && parts.Length <= BranchFactor * parents.Length
      && matrices.Length == parts.Length
    }
  }

  /** `Execute(i)`: advance node `i` from its parent, write its part and its
      matrix, and touch no other cell. */
  method Execute(job: UpdateFractalLevelJob, i: nat)
    requires job.WellFormed() && i < job.parts.Length
    modifies job.parts, job.matrices
    ensures job.parts[i] == Advance(job.parents[Parent(i)], old(job.parts[i]), job.spinAngleDelta, job.scale)
    ensures job.matrices[i] == Pack(job.parts[i], job.scale)
    ensures forall k :: 0 <= k < job.parts.Length && k != i ==>
              job.parts[k] == old(job.parts[k]) && job.matrices[k] == old(job.matrices[k])
  {
    var parent := job.parents[i / 5];
    var part := job.parts[i];
    part := Advance(parent, part, job.spinAngleDelta, job.scale);
    job.parts[i] := part;
    job.matrices[i] := Pack(part, job.scale);
  }

  /** The job run over every index of its level. */
  method RunLevelJob(job: UpdateFractalLevelJob)
    requires job.WellFormed()
    modifies job.parts, job.matrices
    ensures job.parts[..] == AdvanceLevel(job.parents[..], old(job.parts[..]), job.spinAngleDelta, job.scale)
    ensures job.matrices[..] == PackLevel(job.parts[..], job.scale)
  {
    for i := 0 to job.parts.Length
      invariant forall k :: 0 <= k < i ==>
                  job.parts[k] == Advance(job.parents[Parent(k)], old(job.parts[k]), job.spinAngleDelta, job.scale)
                  && job.matrices[k] == Pack(job.parts[k], job.scale)
      invariant forall k :: i <= k < job.parts.Length ==> job.parts[k] == old(job.parts[k])
    {
      Execute(job, i);
    }
  }

  /** A `JobHandle`: `Completed` is `default(JobHandle)`, and `Scheduled(l, d)`
      is the job of level `l`, which may start only once `d` has finished. */
  datatype JobHandle = Completed | Scheduled(level: nat, dependency: JobHandle)

  /** The levels of a handle's jobs, in the only order the dependencies allow. */
  function RunOrder(handle: JobHandle): seq<nat>
  {
    match handle
    case Completed => []
    case Scheduled(level, dependency) => RunOrder(dependency) + [level]
  }

  /** Writes a whole source array into a buffer of the same size. */
  method SetData(buffer: array<Matrix>, source: array<Matrix>)
    requires buffer.Length == source.Length
    modifies buffer
    ensures buffer[..] == old(source[..])
  {
    forall k | 0 <= k < buffer.Length {
      buffer[k] := source[k];
    }
  }

  /** Level `level` of each sequence has 5^level cells. */
  ghost predicate LevelSized<T>(arrays: seq<array<T>>)
  {
    forall level :: 0 <= level < |arrays| ==> arrays[level].Length == LevelSize(level)
  }

  /** The arrays of a tree of |parts| levels: three per level, each of the
      level's size, no array shared between levels, and no buffer shared with
      the matrices. */
  ghost predicate Layout(parts: seq<array<Part>>, matrices: seq<array<Matrix>>, buffers: seq<array<Matrix>>)
  {
    && |matrices| == |parts| && |buffers| == |parts|
    && LevelSized(parts) && LevelSized(matrices) && LevelSized(buffers)
    && Distinct(parts) && Distinct(matrices) && Distinct(buffers)
    && (forall l, m :: 0 <= l < |matrices| && 0 <= m < |buffers| ==> matrices[l] != buffers[m])
  }

  /** Adding a level of three new arrays of the next level's size keeps the
      layout. */
  lemma LayoutSnoc(parts: seq<array<Part>>, matrices: seq<array<Matrix>>, buffers: seq<array<Matrix>>,
                   p: array<Part>, m: array<Matrix>, b: array<Matrix>)
    requires Layout(parts, matrices, buffers)
    requires p.Length == LevelSize(|parts|) && m.Length == LevelSize(|parts|) && b.Length == LevelSize(|parts|)
    requires p !in parts && m !in matrices && m !in buffers && b !in buffers && b !in matrices && m != b
    ensures Layout(parts + [p], matrices + [m], buffers + [b])
  {
  }

  /** Every array of the levels. */
  ghost function Footprint(parts: seq<array<Part>>, matrices: seq<array<Matrix>>, buffers: seq<array<Matrix>>): set<object>
  {
    (set l | 0 <= l < |parts| :: parts[l] as object)
    + (set l | 0 <= l < |matrices| :: matrices[l] as object)
    + (set l | 0 <= l < |buffers| :: buffers[l] as object)
  }

  /** The footprint of the first i + 1 levels is that of the first i plus
      level i's three arrays. */
  lemma FootprintSnoc(parts: seq<array<Part>>, matrices: seq<array<Matrix>>, buffers: seq<array<Matrix>>, i: nat)
    requires i < |parts| && |matrices| == |parts| && |buffers| == |parts|
    ensures Footprint(parts[..i + 1], matrices[..i + 1], buffers[..i + 1])
            == Footprint(parts[..i], matrices[..i], buffers[..i]) + {buffers[i] as object, parts[i] as object, matrices[i] as object}
  {
    var p, m, b := parts[..i + 1], matrices[..i + 1], buffers[..i + 1];
    assert p[i] == parts[i] && m[i] == matrices[i] && b[i] == buffers[i];
    assert forall l :: 0 <= l < i ==> p[l] == parts[..i][l] && m[l] == matrices[..i][l] && b[l] == buffers[..i][l];
  }

  /** A freshly allocated array of parts: every cell cleared. */
  ghost predicate ClearedParts(parts: array<Part>)
    reads parts
  {
    forall k :: 0 <= k < parts.Length ==> parts[k] == ClearedPart
  }

  /** A freshly allocated array of matrices: every cell cleared. */
  ghost predicate ClearedMatrices(matrices: array<Matrix>)
    reads matrices
  {
    forall k :: 0 <= k < matrices.Length ==> matrices[k] == Cleared
  }

  /** The three cleared arrays of one level of `length` cells. */
  method AllocateLevel(length: nat) returns (p: array<Part>, m: array<Matrix>, b: array<Matrix>)
    ensures fresh(p) && fresh(m) && fresh(b) && m != b
    ensures p.Length == length && m.Length == length && b.Length == length
    ensures ClearedParts(p) && ClearedMatrices(m) && ClearedMatrices(b)
  {
    p := new Part[length](_ => ClearedPart);
    m := new Matrix[length](_ => Cleared);
    b := new Matrix[length](_ => Cleared);
  }

  /** The first loop of `OnEnable`: per level, one cleared array of parts,
      one of matrices and one buffer, each of 5^level cells. */
  method AllocateLevels(depth: nat) returns (parts: seq<array<Part>>, matrices: seq<array<Matrix>>, buffers: seq<array<Matrix>>)
    ensures |parts| == depth && Layout(parts, matrices, buffers)
    ensures fresh(Footprint(parts, matrices, buffers))
    ensures forall level :: 0 <= level < depth ==>
              fresh(parts[level]) && fresh(matrices[level]) && fresh(buffers[level])
    ensures forall level :: 0 <= level < depth ==>
              ClearedParts(parts[level]) && ClearedMatrices(matrices[level]) && ClearedMatrices(buffers[level])
  {
    parts, matrices, buffers := [], [], [];
    var i, length := 0, 1;
    while i < depth
      invariant 0 <= i <= depth && length == LevelSize(i)
      invariant |parts| == i && Layout(parts, matrices, buffers)
      invariant forall level :: 0 <= level < i ==>
                  fresh(parts[level]) && fresh(matrices[level]) && fresh(buffers[level])
      invariant forall level :: 0 <= level < i ==> ClearedParts(parts[level])
      invariant forall level :: 0 <= level < i ==> ClearedMatrices(matrices[level])
      invariant forall level :: 0 <= level < i ==> ClearedMatrices(buffers[level])
    {
      var p, m, b := AllocateLevel(length);
      LayoutSnoc(parts, matrices, buffers, p, m, b);
      parts, matrices, buffers := parts + [p], matrices + [m], buffers + [b];
      i, length := i + 1, length * BranchFactor;
    }
  }

  /** Every node of a level holds `CreatePart` of its slot. */
  ghost predicate SlotsCreated(levelParts: array<Part>)
    reads levelParts
  {
    forall i :: 0 <= i < levelParts.Length ==> levelParts[i] == CreatePart(Slot(i))
  }

  /** Sets every node of a level below the root to `CreatePart` of its slot,
      five children at a time (the inner loops of `OnEnable`). */
  method FillLevel(levelParts: array<Part>, level: nat)
    requires level >= 1 && levelParts.Length == LevelSize(level)
    modifies levelParts
    ensures SlotsCreated(levelParts)
  {
    var fpi := 0;
    while fpi < levelParts.Length
      invariant 0 <= fpi <= levelParts.Length && fpi % 5 == 0
      invariant forall i :: 0 <= i < fpi ==> levelParts[i] == CreatePart(Slot(i))
    {
      for ci := 0 to 5
        invariant forall i :: 0 <= i < fpi + ci ==> levelParts[i] == CreatePart(Slot(i))
      {
        levelParts[fpi + ci] := CreatePart(ci);
      }
      fpi := fpi + 5;
    }
  }

  /** The second half of `OnEnable`: the root from slot 0, then every level
      below it, slot by slot. */
  method FillLevels(parts: seq<array<Part>>)
    requires |parts| >= 1 && LevelSized(parts) && Distinct(parts)
    modifies set level | 0 <= level < |parts| :: parts[level]
    ensures forall level :: 0 <= level < |parts| ==> SlotsCreated(parts[level])
  {
    parts[0][0] := CreatePart(0);
    assert SlotsCreated(parts[0]);
    var li := 1;
    while li < |parts|
      invariant 1 <= li <= |parts|
      invariant forall level :: 0 <= level < li ==> SlotsCreated(parts[level])
    {
      FillLevel(parts[li], li);
      li := li + 1;
    }
  }

  /** The contents of a sequence of arrays. */
  ghost function Snapshot(arrays: seq<array<Part>>): (r: seq<seq<Part>>)
    reads set l | 0 <= l < |arrays| :: arrays[l]
    ensures |r| == |arrays| && forall l :: 0 <= l < |arrays| ==> r[l] == arrays[l][..]
  {
    seq(|arrays|, l requires 0 <= l < |arrays| reads if 0 <= l < |arrays| then {arrays[l]} else {} => arrays[l][..])
  }

  /** `level` and `mats` hold what the level's job computes from `parents`
      and the level's earlier contents `before`. */
  ghost predicate LevelAdvanced(parents: array<Part>, level: array<Part>, mats: array<Matrix>,
                                before: seq<Part>, spinAngleDelta: real, scale: real)
    reads parents, level, mats
  {
    && |before| == level.Length <= BranchFactor * parents.Length
    && mats.Length == level.Length
    && level[..] == AdvanceLevel(parents[..], before, spinAngleDelta, scale)
    && mats[..] == PackLevel(level[..], scale)
  }

  /** One level's job, built as `Update` builds it: parents from the level
      above, parts and matrices of this level. */
  method ScheduleLevel(parts: seq<array<Part>>, matrices: seq<array<Matrix>>, li: nat, spinAngleDelta: real, scale: real)
    requires 1 <= li < |parts| && |matrices| == |parts|
    requires LevelSized(parts) && LevelSized(matrices) && Distinct(parts)
    modifies parts[li], matrices[li]
    ensures LevelAdvanced(parts[li - 1], parts[li], matrices[li], old(parts[li][..]), spinAngleDelta, scale)
  {
    var job := UpdateFractalLevelJob(spinAngleDelta, scale, parts[li - 1], parts[li], matrices[li]);
    RunLevelJob(job);
  }

  /** The job loop of `Update`: levels 1 .. n-1 in ascending order, each job
      scheduled after (and reading) the level before it, at half the previous
      level's scale. Level 0 is left as it is. */
  method AdvanceLevels(parts: seq<array<Part>>, matrices: seq<array<Matrix>>, spinAngleDelta: real, objectScale: real)
    returns (jobHandle: JobHandle)
    requires |parts| >= 1 && |matrices| == |parts|
    requires LevelSized(parts) && LevelSized(matrices) && Distinct(parts) && Distinct(matrices)
    modifies (set level | 0 <= level < |parts| :: parts[level]), (set level | 0 <= level < |matrices| :: matrices[level])
    ensures parts[0][..] == old(parts[0][..]) && matrices[0][..] == old(matrices[0][..])
    ensures forall level :: 1 <= level < |parts| ==>
              LevelAdvanced(parts[level - 1], parts[level], matrices[level], old(parts[level][..]),
                            spinAngleDelta, LevelScale(objectScale, level))
    ensures RunOrder(jobHandle) == seq(|parts| - 1, k => k + 1)
  {
    ghost var before := Snapshot(parts);
    var scale := objectScale;
    jobHandle := Completed;
    var li := 1;
    while li < |parts|
      invariant 1 <= li <= |parts|
      invariant scale == LevelScale(objectScale, li - 1)
      invariant RunOrder(jobHandle) == seq(li - 1, k => k + 1)
      invariant parts[0][..] == before[0] && matrices[0][..] == old(matrices[0][..])
      invariant forall level :: 1 <= level < li ==>
                  LevelAdvanced(parts[level - 1], parts[level], matrices[level], before[level],
                                spinAngleDelta, LevelScale(objectScale, level))
      invariant forall level :: li <= level < |parts| ==> parts[level][..] == before[level]
    {
      scale := scale * 0.5;
      ScheduleLevel(parts, matrices, li, spinAngleDelta, scale);
      jobHandle := Scheduled(li, jobHandle);
      li := li + 1;
    }
  }

  /** The buffer loop of `Update`: every level's matrices into its buffer. */
  method CopyBuffers(buffers: seq<array<Matrix>>, matrices: seq<array<Matrix>>)
    requires |buffers| == |matrices|
    requires forall level :: 0 <= level < |buffers| ==> buffers[level].Length == matrices[level].Length
    requires Distinct(buffers)
    requires forall l, m :: 0 <= l < |matrices| && 0 <= m < |buffers| ==> matrices[l] != buffers[m]
    modifies set level | 0 <= level < |buffers| :: buffers[level]
    ensures forall level :: 0 <= level < |buffers| ==> buffers[level][..] == matrices[level][..]
  {
    for i := 0 to |buffers|
      invariant forall level :: 0 <= level < i ==> buffers[level][..] == matrices[level][..]
    {
      SetData(buffers[i], matrices[i]);
    }
  }

  class Fractal {
    /** The configured depth (an inspector field). */
    var depth: int
    /** The component's `enabled` flag. */
    var enabled: bool
    /** `parts != null`: the arrays below are allocated. */
    var live: bool
    var parts: seq<array<Part>>
    var matrices: seq<array<Matrix>>
    var matricesBuffers: seq<array<Matrix>>
    /** Every array the component owns. */
    ghost var Repr: set<object>
    /** Every array released so far (`Release` on the buffers, `Dispose` on
        the native arrays). */
    ghost var released: set<object>

    /** Every level's three arrays have that level's size and are separate
        objects; nothing is held while not allocated. */
    ghost predicate Valid()
      reads this
    {
      if live then
        && |parts| >= 1
        && Layout(parts, matrices, matricesBuffers)
        && Repr == Footprint(parts, matrices, matricesBuffers)
        && Repr !! released
      else
        parts == [] && matrices == [] && matricesBuffers == [] && Repr == {}
    }

    /** The state right after `OnEnable`: every node holds `CreatePart` of its
        slot (the root slot 0), every matrix and buffer is cleared. */
    ghost predicate Initialized()
      requires Valid()
      reads this, Repr
    {
      && live
      && (forall level :: 0 <= level < |parts| ==> SlotsCreated(parts[level]))
      && (forall level :: 0 <= level < |matrices| ==> ClearedMatrices(matrices[level]))
      && (forall level :: 0 <= level < |matricesBuffers| ==> ClearedMatrices(matricesBuffers[level]))
    }

    constructor (depth: int)
      ensures Valid() && !live && !enabled && this.depth == depth && released == {}
    {
      this.depth := depth;
      enabled := false;
      live := false;
      parts, matrices, matricesBuffers := [], [], [];
      Repr := {};
      released := {};
    }

    /** `OnEnable`: allocate `depth` levels of 5^level nodes each and give
        every node its slot's direction and rotation. Levels already held are
        not released first: they are neither owned nor released afterwards. */
    method OnEnable()
      requires depth >= 1
      modifies this
      ensures Valid() && Initialized() && fresh(Repr)
      ensures |parts| == depth
      ensures depth == old(depth) && enabled == old(enabled)
      ensures released == old(released) && old(Repr) !! Repr
    {
      var newParts, newMatrices, newBuffers := AllocateLevels(depth);
      FillLevels(newParts);
      parts, matrices, matricesBuffers := newParts, newMatrices, newBuffers;
      live := true;
      Repr := Footprint(parts, matrices, matricesBuffers);
    }

    /** `OnDisable`: release every level's buffer, parts and matrices, then
        drop the three arrays. */
    method OnDisable()
      requires Valid() && live
      modifies this
      ensures Valid() && !live
      ensures released == old(released) + old(Repr)
      ensures depth == old(depth) && enabled == old(enabled)
    {
      for i := 0 to |matricesBuffers|
        modifies this`released
        invariant released == old(released) + Footprint(parts[..i], matrices[..i], matricesBuffers[..i])
      {
        FootprintSnoc(parts, matrices, matricesBuffers, i);
        released := released + {matricesBuffers[i] as object, parts[i] as object, matrices[i] as object};
      }
      assert parts[..|parts|] == parts && matrices[..|matrices|] == matrices;
      assert matricesBuffers[..|matricesBuffers|] == matricesBuffers;
      parts, matrices, matricesBuffers := [], [], [];
      live := false;
      Repr := {};
    }

    /** `OnValidate`: after a configuration change, rebuild (disable, then
        enable) exactly when the arrays exist and the component is enabled;
        otherwise change nothing. */
    method OnValidate()
      requires Valid()
      requires live && enabled ==> depth >= 1
      modifies this
      ensures Valid()
      ensures depth == old(depth) && enabled == old(enabled)
      ensures old(live) && enabled ==>
                Initialized() && fresh(Repr) && |parts| == depth && released == old(released) + old(Repr)
      ensures !(old(live) && enabled) ==>
                live == old(live) && parts == old(parts) && matrices == old(matrices)
                && matricesBuffers == old(matricesBuffers) && Repr == old(Repr) && released == old(released)
    {
      if live && enabled {
        OnDisable();
        OnEnable();
      }
    }

    /** `Update`: advance the root from the object's transform, then levels
        1 .. n-1 in ascending order, each from its parent level as already
        advanced this frame, and finally copy every level's matrices into its
        buffer. `deltaTime` is the frame time; `rotation`, `position` and
        `lossyScale` are the object's transform. The returned handle is the
        chain of level jobs the frame scheduled. */
    method Update(deltaTime: real, rotation: Quat, position: Vec, lossyScale: real) returns (jobHandle: JobHandle)
      requires Valid() && live
      modifies Repr
      ensures parts[0][..] == [AdvanceRoot(old(parts[0][0]), 0.125 * deltaTime, rotation, position)]
      ensures matrices[0][..] == [Pack(parts[0][0], lossyScale)]
      ensures forall level :: 1 <= level < |parts| ==>
                LevelAdvanced(parts[level - 1], parts[level], matrices[level], old(parts[level][..]),
                              0.125 * deltaTime, LevelScale(lossyScale, level))
      ensures forall level :: 0 <= level < |parts| ==> matricesBuffers[level][..] == matrices[level][..]
      ensures RunOrder(jobHandle) == seq(|parts| - 1, k => k + 1)
    {
      var spinAngleDelta := 0.125 * deltaTime;

      var rootPart := parts[0][0];
      rootPart := AdvanceRoot(rootPart, spinAngleDelta, rotation, position);
      parts[0][0] := rootPart;
      var objectScale := lossyScale;
      matrices[0][0] := Pack(rootPart, objectScale);

      jobHandle := AdvanceLevels(parts, matrices, spinAngleDelta, objectScale);
      CopyBuffers(matricesBuffers, matrices);
    }
  }
}
