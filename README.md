# Fractal tree and destructible cube wall

A Dafny model of two Unity components and proofs about them.

**`Fractal`** draws a tree of cubes.
- Each level of the tree is one flat native array of parts, five times as long as the level above. Each level also has an array of instance matrices and a compute buffer.
- Node `i` of a level hangs below node `i / 5` of the previous level. Its slot `i mod 5` fixes its direction and its rotation.
- Every frame the root is advanced from the object's transform. Then levels 1 .. depth-1 are advanced in ascending order, one job per level. Each node reads only its parent and writes only its own part and matrix.
- Finally every level's matrices are copied into its buffer.
- The component allocates its arrays on enable, releases them on disable, and rebuilds them when its configuration is validated.

The model is split across three files:
- `geometry.dfy` holds symbolic terms for quaternions, vectors and matrices.
- `fractal_layout.dfy` holds the pure per-level layout and the per-node step.
- `fractal.dfy` holds the job, the level loops and the `Fractal` class.

**`CubeWall`** keeps a `dimensions.x × dimensions.y` grid of `CubeData` cells.
- Each cell has an alive flag, its coordinate, a world position and a health.
- The wall also keeps two parallel lists, the alive cells (`_aliveCube`) and their positions (`_positionList`). `UpdateBuffer` rebuilds both from the grid in x-major order and copies the positions into the instance buffer.
- Cells die through three operations:
  - `BreakCubeAt` breaks one cell;
  - `DamageCubeAt` lowers one cell's health and kills the cell at zero or below;
  - `RandomBreakCube` removes `amount` random list entries and kills their cells.
- An impact damages the disc of cells around a grid coordinate.
- A dirty flag makes the next `Update` rebuild the lists once.

`cube_cells.dfy` holds the cell values, the compaction and the impact disc. `cube_wall.dfy` holds the `CubeWall` class.

Floating-point values are modelled as follows:
- Positions, health, damage and scale are reals.
- Rotations, directions and matrices are uninterpreted terms.
- Angles are in multiples of pi: `RotateZ(-0.5)` stands for `quaternion.RotateZ(-0.5f * PI)`, and the per-frame spin is `0.125 * deltaTime`.

The engine supplies four inputs, which are parameters here:
- the frame time;
- the object's rotation, position and scale;
- the random draws of `RandomBreakCube`;
- the grid coordinate an impact falls on.

## Model

| member | source | states |
|---|---|---|
| FractalLayout.LevelSize | Assets/_Src/Scripts/Fractal/Fractal.cs:82 | the array length allocated for a level is at least 1 (1 for the root, five times the level above below it) |
| FractalLayout.NodeCountClosedForm | Assets/_Src/Scripts/Fractal/Fractal.cs:77-86 | the `depth` levels together hold (5^depth - 1) / 4 nodes |
| FractalLayout.Slot | Assets/_Src/Scripts/Fractal/Fractal.cs:93-96 | the slot `i mod 5` of a node always indexes the five-entry direction and rotation tables |
| FractalLayout.ParentInRange | Assets/_Src/Scripts/Fractal/Fractal.cs:145 | for every node of a level >= 1, the parent index `i / 5` lies inside the previous level |
| FractalLayout.ChildrenOfParent | Assets/_Src/Scripts/Fractal/Fractal.cs:145 | every node of the previous level has exactly five children, nodes 5p .. 5p+4, each in range and with slot c; no other node maps to it |
| FractalLayout.CreatePart | Assets/_Src/Scripts/Fractal/Fractal.cs:121-126 | a created part has its slot's direction and rotation from the static tables, zero spin and cleared world fields |
| FractalLayout.AdvanceRoot | Assets/_Src/Scripts/Fractal/Fractal.cs:44-48 | the root's spin grows by the frame's delta, its direction and rotation are kept, and it is placed at the object's position |
| FractalLayout.Advance | Assets/_Src/Scripts/Fractal/Fractal.cs:145-152 | a node's spin grows by the frame's delta and its direction and rotation are kept |
| FractalLayout.LevelScaleHalves | Assets/_Src/Scripts/Fractal/Fractal.cs:53-56 | the scale of level li is objectScale / 2^li |
| FractalLayout.AdvanceLevel | Assets/_Src/Scripts/Fractal/Fractal.cs:144-152 | a level's job keeps its length and adds the same spin delta to every node, changing no direction or rotation |
| FractalLayout.AdvanceLevelKeepsSlots | Assets/_Src/Scripts/Fractal/Fractal.cs:148-152 | a level whose nodes carry their slots' fixed fields still does after a frame |
| FractalLayout.RunInOrderAt | Assets/_Src/Scripts/Fractal/Fractal.cs:144-156 | after running any sequence of distinct indices one by one, a node has been advanced from its own original value exactly when its index was run |
| FractalLayout.AnyOrderGivesSameLevel | Assets/_Src/Scripts/Fractal/Fractal.cs:144-156 | every order that runs each index of a level exactly once gives the same level as the job, so the result does not depend on the schedule |
| FractalTree.Execute | Assets/_Src/Scripts/Fractal/Fractal.cs:144-156 | `Execute(i)` writes node i advanced from parent i/5 and its matrix, and leaves every other part and matrix unchanged |
| FractalTree.RunLevelJob | Assets/_Src/Scripts/Fractal/Fractal.cs:57-63 | running the job over all indices of a level leaves the level equal to `AdvanceLevel` of its old contents and the matrices equal to their packing |
| FractalTree.AllocateLevel | Assets/_Src/Scripts/Fractal/Fractal.cs:83-85 | one level's parts, matrices and buffer are new, of the given length, and cleared |
| FractalTree.AllocateLevels | Assets/_Src/Scripts/Fractal/Fractal.cs:77-86 | `depth` levels, where level i's three arrays have 5^i cells; every array is new, cleared and shared with no other level or role |
| FractalTree.FillLevel | Assets/_Src/Scripts/Fractal/Fractal.cs:90-98 | every node j of a level below the root holds `CreatePart(j mod 5)` |
| FractalTree.FillLevels | Assets/_Src/Scripts/Fractal/Fractal.cs:88-98 | the root holds `CreatePart(0)` and every node of every level holds `CreatePart` of its slot |
| FractalTree.ScheduleLevel | Assets/_Src/Scripts/Fractal/Fractal.cs:57-63 | the job of level li reads level li-1 and leaves level li and its matrices advanced from level li's old contents |
| FractalTree.AdvanceLevels | Assets/_Src/Scripts/Fractal/Fractal.cs:53-65 | levels 1 .. n-1 are each advanced from their parent level as already advanced this frame, at the halved scale; level 0 is untouched; the handle chain runs levels 1, 2, .. n-1 in that order |
| FractalTree.SetData | Assets/_Src/Scripts/Fractal/Fractal.cs:70 | a buffer receives the whole matrix array |
| FractalTree.CopyBuffers | Assets/_Src/Scripts/Fractal/Fractal.cs:68-73 | after the loop every level's buffer equals its matrices |
| FractalTree.Fractal.OnEnable | Assets/_Src/Scripts/Fractal/Fractal.cs:76-101 | exactly `depth` levels are allocated, all new; every node holds its slot's created part; matrices and buffers are cleared; nothing is released, so levels held before are neither owned nor released afterwards |
| FractalTree.Fractal.OnDisable | Assets/_Src/Scripts/Fractal/Fractal.cs:103-112 | every level's buffer, parts and matrices join the released arrays, exactly those and no others, and the three arrays are dropped |
| FractalTree.Fractal.OnValidate | Assets/_Src/Scripts/Fractal/Fractal.cs:114-119 | the component is rebuilt exactly when its arrays exist and it is enabled, releasing every old level; otherwise nothing changes and nothing is released |
| FractalTree.Fractal.Update | Assets/_Src/Scripts/Fractal/Fractal.cs:41-73 | the root is advanced from the transform and packed at the object's scale; then every level is advanced from its parent level of this frame at objectScale halved per level; the jobs run in ascending level order before any buffer is written; every buffer ends up equal to its matrices |
| CubeCells.CellPositionInjective | Assets/_Src/Scripts/MineCubeOpti/CubeWall.cs:69-75 | with a non-zero cube scale two cells are placed at the same position iff they are the same cell; with scale 0 every cell sits at the object's position |
| CubeCells.Broken | Assets/_Src/Scripts/MineCubeOpti/CubeWall.cs:161-162 | a broken cell is dead and keeps its coordinate, position and health |
| CubeCells.BrokenIdempotent | Assets/_Src/Scripts/MineCubeOpti/CubeWall.cs:160-165 | breaking twice is breaking once, and breaking a dead cell changes nothing |
| CubeCells.Damaged | Assets/_Src/Scripts/MineCubeOpti/CubeWall.cs:168-173 | damage lowers health by exactly d; the cell is alive afterwards iff it was alive and its new health is above zero; coordinate and position are kept |
| CubeCells.DamageNeverRevives | Assets/_Src/Scripts/MineCubeOpti/CubeWall.cs:167-175 | damage never makes a dead cell alive, and a cell that survives had more health than the hit |
| CubeCells.Positions | Assets/_Src/Scripts/MineCubeOpti/CubeWall.cs:132-133 | the position list is as long as the cell list and entry k is cell k's world position |
| CubeCells.PositionsSnoc | Assets/_Src/Scripts/MineCubeOpti/CubeWall.cs:132-133 | appending a cell appends its position |
| CubeCells.ColumnFacts | Assets/_Src/Scripts/MineCubeOpti/CubeWall.cs:129-135 | one column's pass lists exactly its alive cells, each the grid's cell at its own coordinate, in increasing y |
| CubeCells.ColumnsSound | Assets/_Src/Scripts/MineCubeOpti/CubeWall.cs:128-136 | every entry after `cols` columns is an alive grid cell at its own coordinate in those columns, and there are at most cols × rows entries |
| CubeCells.ColumnComplete | Assets/_Src/Scripts/MineCubeOpti/CubeWall.cs:129-135 | every alive cell of the scanned rows of one column is listed |
| CubeCells.ColumnsComplete | Assets/_Src/Scripts/MineCubeOpti/CubeWall.cs:128-136 | every alive cell of the first `cols` columns is listed |
| CubeCells.ColumnsOrdered | Assets/_Src/Scripts/MineCubeOpti/CubeWall.cs:128-136 | the entries run in strictly increasing x-major order, so none is listed twice |
| CubeCells.AliveCellsExact | Assets/_Src/Scripts/MineCubeOpti/CubeWall.cs:125-136 | the rebuilt list holds exactly the alive grid cells, each once, x outer and y inner, and fits the one-entry-per-cell buffer |
| CubeCells.AliveCellsEmptyIff | Assets/_Src/Scripts/MineCubeOpti/CubeWall.cs:119-136 | the rebuilt list is empty iff no grid cell is alive |
| CubeCells.Removals | Assets/_Src/Scripts/MineCubeOpti/CubeWall.cs:147-150 | `amount` removals at valid drawn indices leave |list| - amount entries and remove `amount` entries |
| CubeCells.RemovalsPermutes | Assets/_Src/Scripts/MineCubeOpti/CubeWall.cs:147-150 | the entries left and the entries removed are together the original list, as a multiset |
| CubeCells.ImpactIsDisc | Assets/_Src/Scripts/MineCubeOpti/CubeWall.cs:188-195 | the loop's square bounds add nothing to the distance test: for size >= 0 the impact reaches exactly the grid cells with dx² + dy² <= size², and for size < 0 none |
| CubeCells.FinalDamageBounds | Assets/_Src/Scripts/MineCubeOpti/CubeWall.cs:197 | inside the disc the falloff (corrected at size 0) lies between 0 and `damage`, gives the full damage at the center and none at the rim |
| CubeCells.ZeroSizeFalloffMakesCubeImmortal | Assets/_Src/Scripts/MineCubeOpti/CubeWall.cs:197 | as written, a size-0 impact with falloff deals NaN damage, and the center cell then stays alive under any series of later hits |
| CubeCells.NaNStaysAlive | Assets/_Src/Scripts/MineCubeOpti/CubeWall.cs:169-173 | a cell with NaN health is never marked dead by `DamageCubeAt` |
| CubeCells.ZeroSizeFalloffCorrected | Assets/_Src/Scripts/MineCubeOpti/CubeWall.cs:197 | corrected, a size-0 impact deals the full damage, so a center cell with no more health than that dies |
| CubeWalls.CubeWall.OnEnable | Assets/_Src/Scripts/MineCubeOpti/CubeWall.cs:59-90 | a new grid of the configured size and a new buffer of one entry per cell; every cell alive at its own coordinate and position with full health; then the lists are rebuilt |
| CubeWalls.CubeWall.FillGrid | Assets/_Src/Scripts/MineCubeOpti/CubeWall.cs:69-82 | every cell is written alive at its own coordinate and position with full health; the list gets one entry per cell, every entry is the grid's cell at its own coordinate and every cell is listed |
| CubeWalls.CubeWall.FillRow | Assets/_Src/Scripts/MineCubeOpti/CubeWall.cs:70-81 | one pass of the outer loop writes row y and appends each of its cells, keeping every listed entry equal to its written cell and every written cell listed |
| CubeWalls.CubeWall.OnDisable | Assets/_Src/Scripts/MineCubeOpti/CubeWall.cs:92-95 | the buffer is released and the position list dropped; nothing else changes |
| CubeWalls.CubeWall.DestroyWall | Assets/_Src/Scripts/MineCubeOpti/CubeWall.cs:113-117 | the position list is dropped and the wall is destroyed |
| CubeWalls.CubeWall.UpdateBuffer | Assets/_Src/Scripts/MineCubeOpti/CubeWall.cs:119-139 | with an empty list the wall is destroyed and the buffer left alone; otherwise both lists are the x-major alive cells and their positions, the buffer starts with those positions, and its tail is untouched |
| CubeWalls.CubeWall.RebuildLists | Assets/_Src/Scripts/MineCubeOpti/CubeWall.cs:125-136 | the two cleared lists are refilled to the alive cells of the grid and their positions |
| CubeWalls.CubeWall.CollectColumn | Assets/_Src/Scripts/MineCubeOpti/CubeWall.cs:129-135 | one pass of the inner loop appends column x's alive cells and their positions |
| CubeWalls.CubeWall.SetData | Assets/_Src/Scripts/MineCubeOpti/CubeWall.cs:138 | the list goes to the front of the buffer and the rest of the buffer is unchanged |
| CubeWalls.CubeWall.RandomBreakCube | Assets/_Src/Scripts/MineCubeOpti/CubeWall.cs:141-158 | with no more than `amount` positions the wall is destroyed and no cell changes; otherwise exactly the drawn entries are removed, each removed entry's grid cell is broken, every other cell is unchanged, and a rebuild is requested |
| CubeWalls.CubeWall.RemoveAndBreak | Assets/_Src/Scripts/MineCubeOpti/CubeWall.cs:148-154 | one drawn entry is removed from the list and the grid's current cell at its coordinate is broken; no other cell changes |
| CubeWalls.CubeWall.BreakCubeAt | Assets/_Src/Scripts/MineCubeOpti/CubeWall.cs:160-165 | only cell (x, y) becomes dead, no health changes, and a rebuild is requested |
| CubeWalls.CubeWall.DamageCubeAt | Assets/_Src/Scripts/MineCubeOpti/CubeWall.cs:167-175 | only cell (x, y) is damaged; a rebuild is requested exactly when the hit takes its health to zero or below |
| CubeWalls.CubeWall.ImpactAt | Assets/_Src/Scripts/MineCubeOpti/CubeWall.cs:188-200 | exactly the grid cells of the disc around the center are damaged, each once, by the falloff for its distance (plain `damage` without falloff); every other cell is unchanged; a rebuild is requested iff some hit kills |
| CubeWalls.CubeWall.ImpactColumn | Assets/_Src/Scripts/MineCubeOpti/CubeWall.cs:189-199 | one pass of the outer loop damages exactly the disc cells of column offset x, each once |
| CubeWalls.CubeWall.VisitOffset | Assets/_Src/Scripts/MineCubeOpti/CubeWall.cs:190-198 | an offset outside the disc or the grid is skipped; otherwise its one cell is damaged |
| CubeWalls.CubeWall.Update | Assets/_Src/Scripts/MineCubeOpti/CubeWall.cs:49-56 | a pending rebuild runs exactly once and clears the flag; without one the lists and buffer are unchanged; the instance count drawn is the position list's length, 0 when it is null or empty |

## Left out

- Rendering and GPU plumbing are not modelled: `Graphics.DrawMeshInstancedProcedural`, `MaterialPropertyBlock`, shader property ids, `Bounds`, colours and the buffer stride. These are engine calls. Compute buffers are arrays that are written. A `CubeWall`'s disposed buffer is its `bufferReleased` flag, and the arrays a `Fractal` has released (`Release` and `Dispose`) are its ghost `released` set.
- The Burst job system is not modelled as parallel: `ScheduleParallel`, the batch size of 5 and `JobHandle.Complete`. Each level's job runs sequentially, index by index. `AnyOrderGivesSameLevel` shows the level's result does not depend on that order, and the handle chain is a `JobHandle` value whose run order is proved.
- Quaternion, float3 and float3x4 arithmetic is not evaluated. It is kept as uninterpreted terms, so the model says nothing about numeric rotation or position values, or about float rounding of spin and scale.
- `GetBounds`, `Bounds.Contains`, `InverseTransformPoint` and `FromLocalPointToCoordinates` are not modelled. These are floating-point geometry, so the impact starts from the grid coordinate the hit falls on.
- Input polling (`Input.GetKey`, the `toDelete` list) is not modelled. `CubeWalls.CubeWall.Update` covers the dirty-flag logic that follows it.
- `Random.Range` is not modelled. Its draws are the `picks` parameter.
- `OnDrawGizmos`, the `totalCube` field and the `OnWallFullyDestroyed` event are not modelled. `Destroy(gameObject)` is the `destroyed` flag.
- Inspector fields are fixed: `dimensions`, `cubeScale` and `cubesHealth` are constants of a wall, and `depth` is a field of the fractal.
- `x * x + y * y` and `size * size` are unbounded integers: 32-bit overflow for very large sizes is not modelled.
- FractalTree.Fractal.OnEnable: requires depth >= 1. With depth 0 the source writes `parts[0][0]` of an empty array and throws. The inspector range is 1 .. 8.
- FractalTree.Fractal.OnDisable: requires the arrays to exist. On a never-enabled component the source dereferences null and throws. So release is not a safe no-op there.
- FractalTree.Fractal.OnEnable: does not release arrays that are already allocated. The source does not release first either, so an enable while enabled leaks the old levels: they leave `Repr` without joining `released`. The model follows the code.
- CubeWalls.CubeWall.OnEnable: requires both dimensions to be at least 1: a negative size throws when the grid is allocated, and a zero size makes the `new ComputeBuffer(0, ...)` at Assets/_Src/Scripts/MineCubeOpti/CubeWall.cs:64 throw before any cell is written or the lists are rebuilt.
- CubeWalls.CubeWall.UpdateBuffer: requires a position list whenever the alive list is non-empty. Without one the source throws a null dereference. This is reachable within one frame: a destroying `RandomBreakCube` followed by a requested rebuild.
- CubeWalls.CubeWall.RandomBreakCube: requires a position list, because the source dereferences it. It also requires the draws to be valid indices, as `Random.Range(0, Count)` always is. That needs at least `amount` listed entries, which the source has whenever the two lists are as long as each other.
- CubeWalls.CubeWall.ImpactAt: uses the corrected falloff, which deals the full damage at size 0, where the source computes NaN damage that leaves the cell alive and requests no rebuild. The as-written behaviour is `CubeCells.ZeroSizeFalloffMakesCubeImmortal`; see Findings.
- CubeWalls.CubeWall.ImpactColumn: uses the corrected size-0 falloff, as `CubeWalls.CubeWall.ImpactAt` does; the as-written behaviour is `CubeCells.ZeroSizeFalloffMakesCubeImmortal`.
- CubeWalls.CubeWall.VisitOffset: damages its cell by the corrected size-0 falloff (`CubeCells.FinalDamage`), not the as-written NaN; the as-written behaviour is `CubeCells.ZeroSizeFalloffMakesCubeImmortal`.
- CubeWalls.CubeWall.BreakCubeAt and CubeWalls.CubeWall.DamageCubeAt: require (x, y) on the grid. Out of range, the source throws.

## Findings

| source | as written | input that shows it | evidently intended | confidence | as-written member | corrected member |
|---|---|---|---|---|---|---|
| Assets/_Src/Scripts/MineCubeOpti/CubeWall.cs:197 | with `reduceDamageWithDistance`, the falloff divides `(float)(x*x+y*y)` by `size*size`; at size 0 that is 0f/0 = NaN, `Mathf.Lerp` passes NaN through its clamp, the center cell's health becomes NaN and `health <= 0` is never true again | `ImpactAtWorldPosition(p, damage, 0, true)` on any cell: it never dies, however much damage follows | a size-0 impact hits only the center and deals the full `damage` | not executed | CubeCells.ZeroSizeFalloffMakesCubeImmortal | CubeCells.ZeroSizeFalloffCorrected |
