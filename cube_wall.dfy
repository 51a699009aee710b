/**
  The `CubeWall` component: a dimensions.x x dimensions.y grid of cells
  overwritten in place, the list of alive cells and the list of their
  positions rebuilt from it, the instance buffer the positions are copied
  into, and the dirty flag that asks the next frame for a rebuild.
 */
module CubeWalls {
  import opened CubeCells

  class CubeWall {
    /** The grid size (an inspector field). */
    const dimensions: Int2
    const cubeScale: real
    /** The health every cell starts with. */
    const cubesHealth: real

    /** `_cubeDataArray2d`, indexed [x, y]. */
    var grid: array2?<CubeData>
    /** `_positionsBuffer`: one position per cell of the grid. */
    var positionsBuffer: array?<Vec3>
    /** Whether `_positionsBuffer` has been disposed. */
    var bufferReleased: bool
    /** `_aliveCube`. */
    var aliveCube: seq<CubeData>
    /** `_positionList`; `None` is null. */
    var positionList: Option<seq<Vec3>>
    /** `_updateBuffer`: rebuild the lists on the next frame. */
    var updateBuffer: bool
    /** `OnWallFullyDestroyed` has been raised and the object's destruction
        requested. */
    var destroyed: bool

    /** The grid has the configured size and every cell its own coordinate;
        every listed cell lies on the grid; the position list only exists
        while the buffer, of one entry per cell, is live. */
    ghost predicate Valid()
      reads this, grid
    {
      && grid != null && grid.Length0 == dimensions.x && grid.Length1 == dimensions.y
      && CoordinatesMatch(grid)
      && positionsBuffer != null && positionsBuffer.Length == dimensions.x * dimensions.y
      && (forall k :: 0 <= k < |aliveCube| ==> InGrid(grid, aliveCube[k].coordinate.x, aliveCube[k].coordinate.y))
      && (positionList.Some? ==> !bufferReleased)
    }

    /** The state a rebuild leaves: `_aliveCube` lists every alive cell in
        x-major order, `_positionList` their positions, and the buffer starts
        with those positions. */
    ghost predicate Rebuilt()
      requires Valid()
      reads this, grid, positionsBuffer
    {
      && aliveCube == AliveCells(grid)
      && positionList == Some(Positions(aliveCube))
      && |aliveCube| <= positionsBuffer.Length
      && positionsBuffer[..|aliveCube|] == Positions(aliveCube)
    }

    constructor (dimensions: Int2, cubeScale: real, cubesHealth: real)
      ensures this.dimensions == dimensions && this.cubeScale == cubeScale && this.cubesHealth == cubesHealth
      ensures grid == null && positionsBuffer == null && positionList == None
      ensures aliveCube == [] && !updateBuffer && !destroyed && !bufferReleased
    {
      this.dimensions := dimensions;
      this.cubeScale := cubeScale;
      this.cubesHealth := cubesHealth;
      grid := null;
      positionsBuffer := null;
      bufferReleased := false;
      aliveCube := [];
      positionList := None;
      updateBuffer := false;
      destroyed := false;
    }

    /** The cell `OnEnable` writes at (x, y): alive at its own coordinate
        and position, with full health. */
    function InitialCell(origin: Vec3, x: int, y: int): CubeData
    {
      CubeData(true, Int2(x, y), CellPosition(origin, dimensions.x, cubeScale, x, y), cubesHealth)
    }

    /** `OnEnable`: a fresh buffer and grid, every cell alive at its own
        coordinate and position with full health, listed row by row; then a
        rebuild, which lists every cell again, x-major. `origin` is the
        object's position. */
    method OnEnable(origin: Vec3)
      requires dimensions.x >= 1 && dimensions.y >= 1
      modifies this
      ensures Valid() && fresh(grid) && fresh(positionsBuffer)
      ensures forall x, y :: InGrid(grid, x, y) ==> grid[x, y] == InitialCell(origin, x, y)
      ensures Rebuilt() && destroyed == old(destroyed)
      ensures updateBuffer == old(updateBuffer)
    {
      var size := dimensions.x * dimensions.y;
      positionsBuffer := new Vec3[size](_ => Vec3(0.0, 0.0, 0.0));
      bufferReleased := false;
      positionList := Some([]);
      aliveCube := [];
      var cells := new CubeData[dimensions.x, dimensions.y];
      FillGrid(cells, origin);
      grid := cells;
      assert InGrid(grid, 0, 0);
      assert cells[0, 0] in aliveCube;
      UpdateBuffer();
    }

    /** The row-by-row loops of `OnEnable`: every cell written alive at its
        own coordinate and position with full health, and each appended to
        `_aliveCube` as it is written, so the list holds exactly the cells. */
    method FillGrid(cells: array2<CubeData>, origin: Vec3)
      requires cells.Length0 == dimensions.x && cells.Length1 == dimensions.y
      requires aliveCube == []
      modifies this`aliveCube, cells
      ensures |aliveCube| == dimensions.x * dimensions.y
      ensures forall x, y :: InGrid(cells, x, y) ==> cells[x, y] == InitialCell(origin, x, y)
      ensures forall k :: 0 <= k < |aliveCube| ==>
                && InGrid(cells, aliveCube[k].coordinate.x, aliveCube[k].coordinate.y)
                && aliveCube[k] == cells[aliveCube[k].coordinate.x, aliveCube[k].coordinate.y]
      ensures forall x, y :: InGrid(cells, x, y) ==> cells[x, y] in aliveCube
    {
      for y := 0 to dimensions.y
        invariant |aliveCube| == y * dimensions.x
        invariant forall a, b :: 0 <= a < dimensions.x && 0 <= b < y ==> cells[a, b] == InitialCell(origin, a, b)
        invariant forall k :: 0 <= k < |aliveCube| ==>
                    && InGrid(cells, aliveCube[k].coordinate.x, aliveCube[k].coordinate.y)
                    && aliveCube[k].coordinate.y < y
                    && aliveCube[k] == InitialCell(origin, aliveCube[k].coordinate.x, aliveCube[k].coordinate.y)
        invariant forall a, b :: 0 <= a < dimensions.x && 0 <= b < y ==> InitialCell(origin, a, b) in aliveCube
      {
        FillRow(cells, origin, y);
      }
    }

    /** One pass of the outer loop of `OnEnable`: row y written cell by
        cell, each cell appended to `_aliveCube`. */
    method FillRow(cells: array2<CubeData>, origin: Vec3, y: int)
      requires cells.Length0 == dimensions.x && cells.Length1 == dimensions.y && 0 <= y < dimensions.y
      requires |aliveCube| == y * dimensions.x
      requires forall a, b :: 0 <= a < dimensions.x && 0 <= b < y ==> cells[a, b] == InitialCell(origin, a, b)
      requires forall k :: 0 <= k < |aliveCube| ==>
                 && InGrid(cells, aliveCube[k].coordinate.x, aliveCube[k].coordinate.y)
                 && aliveCube[k].coordinate.y < y
                 && aliveCube[k] == InitialCell(origin, aliveCube[k].coordinate.x, aliveCube[k].coordinate.y)
      requires forall a, b :: 0 <= a < dimensions.x && 0 <= b < y ==> InitialCell(origin, a, b) in aliveCube
      modifies this`aliveCube, cells
      ensures |aliveCube| == (y + 1) * dimensions.x
      ensures forall a, b :: 0 <= a < dimensions.x && 0 <= b < y + 1 ==> cells[a, b] == InitialCell(origin, a, b)
      ensures forall k :: 0 <= k < |aliveCube| ==>
                && InGrid(cells, aliveCube[k].coordinate.x, aliveCube[k].coordinate.y)
                && aliveCube[k].coordinate.y < y + 1
                && aliveCube[k] == InitialCell(origin, aliveCube[k].coordinate.x, aliveCube[k].coordinate.y)
      ensures forall a, b :: 0 <= a < dimensions.x && 0 <= b < y + 1 ==> InitialCell(origin, a, b) in aliveCube
    {
      for x := 0 to dimensions.x
        invariant |aliveCube| == y * dimensions.x + x
        invariant forall a, b :: 0 <= a < dimensions.x && 0 <= b < y ==> cells[a, b] == InitialCell(origin, a, b)
        invariant forall a :: 0 <= a < x ==> cells[a, y] == InitialCell(origin, a, y)
        invariant forall k :: 0 <= k < |aliveCube| ==>
                    && InGrid(cells, aliveCube[k].coordinate.x, aliveCube[k].coordinate.y)
                    && aliveCube[k].coordinate.y < y + 1
                    && aliveCube[k] == InitialCell(origin, aliveCube[k].coordinate.x, aliveCube[k].coordinate.y)
        invariant forall a, b :: 0 <= a < dimensions.x && 0 <= b < y ==> InitialCell(origin, a, b) in aliveCube
        invariant forall a :: 0 <= a < x ==> InitialCell(origin, a, y) in aliveCube
      {
        var cube := InitialCell(origin, x, y);
        cells[x, y] := cube;
        aliveCube := aliveCube + [cube];
      }
    }

    /** `OnDisable`: dispose of the buffer and drop the position list. */
    method OnDisable()
      requires Valid()
      modifies this
      ensures Valid() && bufferReleased && positionList == None
      ensures aliveCube == old(aliveCube) && updateBuffer == old(updateBuffer) && destroyed == old(destroyed)
      ensures grid == old(grid) && positionsBuffer == old(positionsBuffer)
    {
      bufferReleased := true;
      positionList := None;
    }

    /** `DestroyWall`: drop the position list, raise the event and ask for
        the object's destruction. */
    method DestroyWall()
      modifies this`positionList, this`destroyed
      ensures positionList == None && destroyed
    {
      positionList := None;
      destroyed := true;
    }

    /** `UpdateBuffer`: with no listed cell, destroy the wall; otherwise
        rebuild both lists from the grid, x-major, and copy the positions to
        the front of the buffer. A non-empty list with no position list is a
        null dereference in the component. */
    method UpdateBuffer()
      requires Valid()
      requires aliveCube != [] ==> positionList.Some?
      modifies this`aliveCube, this`positionList, this`destroyed, positionsBuffer
      ensures Valid() && positionsBuffer == old(positionsBuffer)
      ensures old(aliveCube) == [] ==>
                aliveCube == [] && positionList == None && destroyed && positionsBuffer[..] == old(positionsBuffer[..])
      ensures old(aliveCube) != [] ==>
                && Rebuilt() && destroyed == old(destroyed) && |aliveCube| <= positionsBuffer.Length
                && positionsBuffer[|aliveCube|..] == old(positionsBuffer[..])[|aliveCube|..]
    {
      if |aliveCube| == 0 {
        DestroyWall();
        return;
      }

      RebuildLists();
      AliveCellsExact(grid);
      SetData(positionList.value);
    }

    /** The nested loops of `UpdateBuffer`: both lists cleared, then every
        alive cell and its position appended, column by column. */
    method RebuildLists()
      requires grid != null
      modifies this`aliveCube, this`positionList
      ensures aliveCube == AliveCells(grid) && positionList == Some(Positions(aliveCube))
    {
      positionList := Some([]);
      aliveCube := [];

      var g := grid;
      for x := 0 to g.Length0
        invariant aliveCube == AliveInColumns(g, x)
        invariant positionList == Some(Positions(aliveCube))
      {
        CollectColumn(g, x);
      }
    }

    /** One pass of the inner loop of `UpdateBuffer`: the alive cells of
        column `x`, bottom to top, and their positions appended to the
        lists. */
    method CollectColumn(g: array2<CubeData>, x: int)
      requires 0 <= x < g.Length0
      requires aliveCube == AliveInColumns(g, x) && positionList == Some(Positions(aliveCube))
      modifies this`aliveCube, this`positionList
      ensures aliveCube == AliveInColumns(g, x + 1) && positionList == Some(Positions(aliveCube))
    {
      for y := 0 to g.Length1
        invariant aliveCube == AliveInColumns(g, x) + AliveInColumn(g, x, y)
        invariant positionList == Some(Positions(aliveCube))
      {
        var cd := g[x, y];
        if cd.alive {
          PositionsSnoc(aliveCube, cd);
          positionList := Some(positionList.value + [cd.worldPosition]);
          aliveCube := aliveCube + [cd];
        }
      }
    }

    /** `ComputeBuffer.SetData` with a list: its entries to the front of the
        buffer, the rest untouched. */
    method SetData(list: seq<Vec3>)
      requires positionsBuffer != null && |list| <= positionsBuffer.Length
      modifies positionsBuffer
      ensures positionsBuffer[..|list|] == list
      ensures positionsBuffer[|list|..] == old(positionsBuffer[|list|..])
    {
      forall k | 0 <= k < |list| {
        positionsBuffer[k] := list[k];
      }
    }

    /** `RandomBreakCube(amount)`: when the position list has no more than
        `amount` entries, destroy the wall and touch no cell; otherwise
        remove `amount` listed entries, at the drawn indices `picks`, mark
        each removed entry's cell dead, and ask for a rebuild. */
    method RandomBreakCube(amount: int, picks: seq<int>)
      requires Valid() && positionList.Some?
      requires |positionList.value| > amount ==>
                 |picks| == (if amount < 0 then 0 else amount) && ValidPicks(picks, |aliveCube|)
      modifies this`aliveCube, this`positionList, this`destroyed, this`updateBuffer, grid
      ensures Valid()
      ensures |old(positionList).value| <= amount ==>
                && positionList == None && destroyed
                && aliveCube == old(aliveCube) && updateBuffer == old(updateBuffer)
                && forall x, y :: InGrid(grid, x, y) ==> grid[x, y] == old(grid[x, y])
      ensures |old(positionList).value| > amount ==>
                && aliveCube == Removals(old(aliveCube), picks).0
                && positionList == old(positionList) && destroyed == old(destroyed) && updateBuffer
                && forall x, y :: InGrid(grid, x, y) ==>
                     grid[x, y] == if Int2(x, y) in Coordinates(Removals(old(aliveCube), picks).1)
                                   then Broken(old(grid[x, y])) else old(grid[x, y])
    {
      if |positionList.value| <= amount {
        DestroyWall();
        return;
      }

      var i := 0;
      while i < amount
        modifies this`aliveCube, grid
        invariant 0 <= i <= |picks| && (i < amount ==> i < |picks|)
        invariant ValidPicks(picks[..i], |old(aliveCube)|)
        invariant Valid()
        invariant aliveCube == Removals(old(aliveCube), picks[..i]).0
        invariant forall x, y :: InGrid(grid, x, y) ==>
                    grid[x, y] == if Int2(x, y) in Coordinates(Removals(old(aliveCube), picks[..i]).1)
                                  then Broken(old(grid[x, y])) else old(grid[x, y])
      {
        ghost var removedBefore := Removals(old(aliveCube), picks[..i]).1;
        assert picks[..i + 1][..i] == picks[..i];
        var randomIndex := picks[i];
        ghost var listed := aliveCube[randomIndex];
        assert Removals(old(aliveCube), picks[..i + 1]).1 == removedBefore + [listed];
        label BeforeBreak:
        RemoveAndBreak(randomIndex);
        CoordinatesSnoc(removedBefore, listed);
        forall x, y | InGrid(grid, x, y)
          ensures grid[x, y] == if Int2(x, y) in Coordinates(removedBefore + [listed])
                                then Broken(old(grid[x, y])) else old(grid[x, y])
        {
          if Int2(x, y) != listed.coordinate {
            assert grid[x, y] == old@BeforeBreak(grid[x, y]);
          }
        }
        i := i + 1;
      }
      assert picks[..i] == picks;

      updateBuffer := true;
    }

    /** One pass of the break loop: remove the listed entry at `randomIndex`,
        and mark dead the grid cell at that entry's coordinate (the cell as
        the grid holds it now, not the possibly stale listed copy). */
    method RemoveAndBreak(randomIndex: int)
      requires Valid() && 0 <= randomIndex < |aliveCube|
      modifies this`aliveCube, grid
      ensures Valid()
      ensures aliveCube == old(aliveCube[..randomIndex] + aliveCube[randomIndex + 1..])
      ensures forall x, y :: InGrid(grid, x, y) ==>
                grid[x, y] == if Int2(x, y) == old(aliveCube[randomIndex].coordinate)
                              then Broken(old(grid[x, y])) else old(grid[x, y])
    {
      var cube := aliveCube[randomIndex];
      aliveCube := aliveCube[..randomIndex] + aliveCube[randomIndex + 1..];

      cube := grid[cube.coordinate.x, cube.coordinate.y];
      cube := cube.(alive := false);
      grid[cube.coordinate.x, cube.coordinate.y] := cube;
    }

    /** `BreakCubeAt(x, y)`: mark that one cell dead and ask for a rebuild;
        no other cell changes. */
    method BreakCubeAt(x: int, y: int)
      requires Valid() && InGrid(grid, x, y)
      modifies this`updateBuffer, grid
      ensures Valid() && updateBuffer
      ensures grid[x, y] == Broken(old(grid[x, y]))
      ensures forall a, b :: InGrid(grid, a, b) && (a, b) != (x, y) ==> grid[a, b] == old(grid[a, b])
    {
      var cube := grid[x, y];
      cube := cube.(alive := false);
      updateBuffer := true;
      grid[cube.coordinate.x, cube.coordinate.y] := cube;
    }

    /** `DamageCubeAt(x, y, damage)`: lower that one cell's health; when it
        falls to zero or below, mark the cell dead and ask for a rebuild. No
        other cell changes. */
    method DamageCubeAt(x: int, y: int, damage: real)
      requires Valid() && InGrid(grid, x, y)
      modifies this`updateBuffer, grid
      ensures Valid()
      ensures grid[x, y] == Damaged(old(grid[x, y]), damage)
      ensures updateBuffer == (old(updateBuffer) || Kills(old(grid[x, y]), damage))
      ensures forall a, b :: InGrid(grid, a, b) && (a, b) != (x, y) ==> grid[a, b] == old(grid[a, b])
    {
      var cube := grid[x, y];
      cube := cube.(health := cube.health - damage);
      if cube.health <= 0.0 {
        cube := cube.(alive := false);
        updateBuffer := true;
      }
      grid[cube.coordinate.x, cube.coordinate.y] := cube;
    }

    /** The damage the impact deals to cell (a, b). */
    function ImpactDamage(center: Int2, damage: real, size: int, reduceDamageWithDistance: bool, a: int, b: int): real
    {
      var dx, dy := a - center.x, b - center.y;
      FinalDamage(damage, size, dx * dx + dy * dy, reduceDamageWithDistance)
    }

    /** The loop of `ImpactAtWorldPosition`, from the grid coordinate the
        hit point falls on: every offset of the square [-size, size]^2 that
        lies within distance `size` and on the grid damages its cell once. */
    method ImpactAt(center: Int2, damage: real, size: int, reduceDamageWithDistance: bool)
      requires Valid()
      modifies this`updateBuffer, grid
      ensures Valid()
      ensures forall a, b :: InGrid(grid, a, b) ==>
                grid[a, b] == if InImpact(center, size, dimensions.x, dimensions.y, a, b)
                              then Damaged(old(grid[a, b]), ImpactDamage(center, damage, size, reduceDamageWithDistance, a, b))
                              else old(grid[a, b])
      ensures updateBuffer <==>
                old(updateBuffer) ||
                exists a, b :: InImpact(center, size, dimensions.x, dimensions.y, a, b)
                               && Kills(old(grid[a, b]), ImpactDamage(center, damage, size, reduceDamageWithDistance, a, b))
    {
      var x := -size;
      while x <= size
        invariant -size <= x && (size >= 0 ==> x <= size + 1)
        invariant Valid()
        invariant forall a, b :: InGrid(grid, a, b) ==>
                    grid[a, b] == if InImpact(center, size, dimensions.x, dimensions.y, a, b) && a - center.x < x
                                  then Damaged(old(grid[a, b]), ImpactDamage(center, damage, size, reduceDamageWithDistance, a, b))
                                  else old(grid[a, b])
        invariant updateBuffer <==>
                    old(updateBuffer) ||
                    exists a, b :: InImpact(center, size, dimensions.x, dimensions.y, a, b) && a - center.x < x
                                   && Kills(old(grid[a, b]), ImpactDamage(center, damage, size, reduceDamageWithDistance, a, b))
      {
        ImpactColumn(center, damage, size, reduceDamageWithDistance, x);
        x := x + 1;
      }
    }

    /** The inner loop of the impact, for the column at offset `x`: every
        offset y of [-size, size] within distance `size` whose cell lies on
        the grid damages that cell once; nothing outside the column changes. */
    method ImpactColumn(center: Int2, damage: real, size: int, reduceDamageWithDistance: bool, x: int)
      requires Valid() && -size <= x <= size
      modifies this`updateBuffer, grid
      ensures Valid()
      ensures forall a, b :: InGrid(grid, a, b) ==>
                grid[a, b] == if a - center.x == x && InImpact(center, size, dimensions.x, dimensions.y, a, b)
                              then Damaged(old(grid[a, b]), ImpactDamage(center, damage, size, reduceDamageWithDistance, a, b))
                              else old(grid[a, b])
      ensures updateBuffer <==>
                old(updateBuffer) ||
                exists a, b :: a - center.x == x && InImpact(center, size, dimensions.x, dimensions.y, a, b)
                               && Kills(old(grid[a, b]), ImpactDamage(center, damage, size, reduceDamageWithDistance, a, b))
    {
      var y := -size;
      while y <= size
        invariant -size <= y <= size + 1
        invariant Valid()
        invariant forall a, b :: InGrid(grid, a, b) ==>
                    grid[a, b] == if a - center.x == x && b - center.y < y && InImpact(center, size, dimensions.x, dimensions.y, a, b)
                                  then Damaged(old(grid[a, b]), ImpactDamage(center, damage, size, reduceDamageWithDistance, a, b))
                                  else old(grid[a, b])
        invariant updateBuffer <==>
                    old(updateBuffer) ||
                    exists a, b :: a - center.x == x && b - center.y < y
                                   && InImpact(center, size, dimensions.x, dimensions.y, a, b)
                                   && Kills(old(grid[a, b]), ImpactDamage(center, damage, size, reduceDamageWithDistance, a, b))
      {
        label Visit:
        VisitOffset(center, damage, size, reduceDamageWithDistance, x, y);
        var a0, b0 := center.x + x, center.y + y;
        forall a, b | InGrid(grid, a, b)
          ensures grid[a, b] == if a - center.x == x && b - center.y < y + 1 && InImpact(center, size, dimensions.x, dimensions.y, a, b)
                                then Damaged(old(grid[a, b]), ImpactDamage(center, damage, size, reduceDamageWithDistance, a, b))
                                else old(grid[a, b])
        {
          if (a, b) == (a0, b0) {
            assert b - center.y == y;
          } else {
            assert grid[a, b] == old@Visit(grid[a, b]);
          }
        }
        ghost var hitsHere := InGrid(grid, a0, b0) && InImpact(center, size, dimensions.x, dimensions.y, a0, b0)
                              && Kills(old(grid[a0, b0]), ImpactDamage(center, damage, size, reduceDamageWithDistance, a0, b0));
        ghost var before := exists a, b :: a - center.x == x && b - center.y < y
                                           && InImpact(center, size, dimensions.x, dimensions.y, a, b)
                                           && Kills(old(grid[a, b]), ImpactDamage(center, damage, size, reduceDamageWithDistance, a, b));
        assert updateBuffer <==> old(updateBuffer) || before || hitsHere;
        y := y + 1;
        if hitsHere {
          assert InGrid(grid, a0, b0) && a0 - center.x == x && b0 - center.y < y;
        }
      }
    }

    /** One pass of the inner loop: offset (x, y) skipped when it lies
        outside the disc or its cell outside the grid, otherwise that cell
        damaged by the falloff for its distance. */
    method VisitOffset(center: Int2, damage: real, size: int, reduceDamageWithDistance: bool, x: int, y: int)
      requires Valid() && -size <= x <= size && -size <= y <= size
      modifies this`updateBuffer, grid
      ensures Valid()
      ensures InGrid(grid, center.x + x, center.y + y) ==>
                grid[center.x + x, center.y + y]
                == if InImpact(center, size, dimensions.x, dimensions.y, center.x + x, center.y + y)
                   then Damaged(old(grid[center.x + x, center.y + y]),
                                ImpactDamage(center, damage, size, reduceDamageWithDistance, center.x + x, center.y + y))
                   else old(grid[center.x + x, center.y + y])
      ensures forall a, b :: InGrid(grid, a, b) && (a, b) != (center.x + x, center.y + y) ==> grid[a, b] == old(grid[a, b])
      ensures updateBuffer <==>
                || old(updateBuffer)
                || (&& InGrid(grid, center.x + x, center.y + y)
                    && InImpact(center, size, dimensions.x, dimensions.y, center.x + x, center.y + y)
                    && Kills(old(grid[center.x + x, center.y + y]),
                             ImpactDamage(center, damage, size, reduceDamageWithDistance, center.x + x, center.y + y)))
    {
      if x * x + y * y > size * size {
        return;
      }
      if center.x + x < 0 || center.x + x >= dimensions.x || center.y + y < 0 || center.y + y >= dimensions.y {
        return;
      }

      var finalDamage := FinalDamage(damage, size, x * x + y * y, reduceDamageWithDistance);
      DamageCubeAt(center.x + x, center.y + y, finalDamage);
    }

    /** `Update`, after its input polling: a pending rebuild runs exactly
        once and clears the flag; the returned count is the number of
        instances drawn, 0 when the position list is null or empty (no draw
        call). */
    method Update() returns (drawnInstances: nat)
      requires Valid()
      requires updateBuffer && aliveCube != [] ==> positionList.Some?
      modifies this`aliveCube, this`positionList, this`destroyed, this`updateBuffer, positionsBuffer
      ensures Valid() && !updateBuffer
      ensures old(updateBuffer) && old(aliveCube) == [] ==> aliveCube == [] && positionList == None && destroyed
      ensures old(updateBuffer) && old(aliveCube) != [] ==> Rebuilt() && destroyed == old(destroyed)
      ensures !old(updateBuffer) ==>
                && aliveCube == old(aliveCube) && positionList == old(positionList) && destroyed == old(destroyed)
                && positionsBuffer[..] == old(positionsBuffer[..])
      ensures drawnInstances == if positionList.None? then 0 else |positionList.value|
    {
      if updateBuffer {
        updateBuffer := false;
        UpdateBuffer();
      }
      if positionList.None? || |positionList.value| <= 0 {
        return 0;
      }
      drawnInstances := |positionList.value|;
    }
  }
}
