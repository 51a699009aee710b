/**
  The values of the destructible cube wall: one `CubeData` record per grid
  cell, the x-major list of the cells still alive, the entries a run of
  random breaks removes, and the disc of cells an impact reaches.
 */
module CubeCells {

  datatype Option<T> = None | Some(value: T)

  /** A `Vector2Int`. */
  datatype Int2 = Int2(x: int, y: int)

  /** A `Vector3`, as three reals. */
  datatype Vec3 = Vec3(x: real, y: real, z: real)

  /** One cell of the wall. */
  datatype CubeData = CubeData(alive: bool, coordinate: Int2, worldPosition: Vec3, health: real)

  /** Where `OnEnable` places cell (x, y): the object's position plus
      (x - dimX/2, y, 0) times the cube scale. */
  function CellPosition(origin: Vec3, dimX: int, cubeScale: real, x: int, y: int): Vec3
  {
    var offset := dimX as real * 0.5;
    Vec3(origin.x + (x as real - offset) * cubeScale, origin.y + y as real * cubeScale, origin.z)
  }

  /** With a non-zero cube scale, distinct cells are drawn at distinct
      positions; with scale 0 every cell is drawn at the object's position. */
  lemma CellPositionInjective(origin: Vec3, dimX: int, cubeScale: real, x: int, y: int, x2: int, y2: int)
    ensures cubeScale != 0.0 ==>
              (CellPosition(origin, dimX, cubeScale, x, y) == CellPosition(origin, dimX, cubeScale, x2, y2)
               <==> x == x2 && y == y2)
    ensures cubeScale == 0.0 ==> CellPosition(origin, dimX, cubeScale, x, y) == origin
  {
    var offset := dimX as real * 0.5;
    if cubeScale != 0.0 && CellPosition(origin, dimX, cubeScale, x, y) == CellPosition(origin, dimX, cubeScale, x2, y2) {
      assert (x as real - offset) * cubeScale == (x2 as real - offset) * cubeScale;
      assert (x as real - x2 as real) * cubeScale == 0.0;
      assert y as real * cubeScale == y2 as real * cubeScale;
      assert (y as real - y2 as real) * cubeScale == 0.0;
    }
  }

  /** A cell as `BreakCubeAt` leaves it: dead, everything else as it was. */
  function Broken(c: CubeData): (r: CubeData)
    ensures !r.alive
    ensures r.coordinate == c.coordinate && r.worldPosition == c.worldPosition && r.health == c.health
  {
    c.(alive := false)
  }

  /** Breaking is idempotent: a dead cell broken again is unchanged. */
  lemma BrokenIdempotent(c: CubeData)
    ensures Broken(Broken(c)) == Broken(c)
    ensures !c.alive ==> Broken(c) == c
  {
  }

  /** Whether `DamageCubeAt` kills the cell: its health after the hit is at
      most zero (whether or not it was alive before). */
  predicate Kills(c: CubeData, damage: real)
  {
    c.health - damage <= 0.0
  }

  /** A cell as `DamageCubeAt` leaves it: health lowered by `damage`, marked
      dead when that health is at most zero, never brought back to life. */
  function Damaged(c: CubeData, damage: real): (r: CubeData)
    ensures r.health == c.health - damage
    ensures r.alive <==> c.alive && !Kills(c, damage)
    ensures r.coordinate == c.coordinate && r.worldPosition == c.worldPosition
  {
    var hit := c.(health := c.health - damage);
    if hit.health <= 0.0 then hit.(alive := false) else hit
  }

  /** A cell no longer alive stays dead whatever damage it takes, and a cell
      that survives a hit had more health than the hit took. */
  lemma DamageNeverRevives(c: CubeData, damage: real)
    ensures !c.alive ==> !Damaged(c, damage).alive
    ensures Damaged(c, damage).alive ==> c.alive && c.health > damage
  {
  }

  // ---------------------------------------------------------------------
  // The grid and its x-major compaction.

  /** (x, y) lies on a grid of `g`'s dimensions. */
  predicate InGrid<T>(g: array2<T>, x: int, y: int)
  {
    0 <= x < g.Length0 && 0 <= y < g.Length1
  }

  /** Every cell records its own grid coordinate. */
  ghost predicate CoordinatesMatch(g: array2<CubeData>)
    reads g
  {
    forall x, y :: 0 <= x < g.Length0 && 0 <= y < g.Length1 ==> g[x, y].coordinate == Int2(x, y)
  }

  /** `a` comes strictly before `b` in x-major order (x outer, y inner). */
  predicate XMajorBefore(a: Int2, b: Int2)
  {
    a.x < b.x || (a.x == b.x && a.y < b.y)
  }

  /** The alive cells of the first `rows` rows of column `x`, in order. */
  function AliveInColumn(g: array2<CubeData>, x: nat, rows: nat): seq<CubeData>
    requires x < g.Length0 && rows <= g.Length1
    reads g
  {
    if rows == 0 then []
    else AliveInColumn(g, x, rows - 1) + (if g[x, rows - 1].alive then [g[x, rows - 1]] else [])
  }

  /** The alive cells of the first `cols` columns, column by column. */
  function AliveInColumns(g: array2<CubeData>, cols: nat): seq<CubeData>
    requires cols <= g.Length0
    reads g
  {
    if cols == 0 then [] else AliveInColumns(g, cols - 1) + AliveInColumn(g, cols - 1, g.Length1)
  }

  /** What `UpdateBuffer` rebuilds `_aliveCube` to: every alive cell, x-major. */
  function AliveCells(g: array2<CubeData>): seq<CubeData>
    reads g
  {
    AliveInColumns(g, g.Length0)
  }

  /** The `_positionList` that goes with a list of cells. */
  function Positions(cells: seq<CubeData>): (r: seq<Vec3>)
    ensures |r| == |cells|
    ensures forall k :: 0 <= k < |r| ==> r[k] == cells[k].worldPosition
  {
    seq(|cells|, k requires 0 <= k < |cells| => cells[k].worldPosition)
  }

  /** Appending a cell appends its position. */
  lemma PositionsSnoc(cells: seq<CubeData>, c: CubeData)
    ensures Positions(cells + [c]) == Positions(cells) + [c.worldPosition]
  {
    assert Positions(cells + [c])[..|cells|] == Positions(cells);
  }

  /** Column `x` up to `rows`: every entry is the alive cell at its own
      coordinate in that column, below `rows`; every such alive cell is
      there; the entries run in increasing y. */
  lemma {:induction false} ColumnFacts(g: array2<CubeData>, x: nat, rows: nat)
    requires x < g.Length0 && rows <= g.Length1 && CoordinatesMatch(g)
    ensures var s := AliveInColumn(g, x, rows);
      && |s| <= rows
      && (forall k :: 0 <= k < |s| ==>
            && s[k].alive && s[k].coordinate.x == x && 0 <= s[k].coordinate.y < rows
            && s[k] == g[x, s[k].coordinate.y])
      && (forall y :: 0 <= y < rows && g[x, y].alive ==> g[x, y] in s)
      && (forall j, k :: 0 <= j < k < |s| ==> s[j].coordinate.y < s[k].coordinate.y)
  {
    if rows > 0 {
      ColumnFacts(g, x, rows - 1);
    }
  }

  /** The first `cols` columns: every entry is the alive cell at its own
      coordinate, in those columns; there are at most cols * rows of them. */
  lemma {:induction false} ColumnsSound(g: array2<CubeData>, cols: nat)
    requires cols <= g.Length0 && CoordinatesMatch(g)
    ensures var s := AliveInColumns(g, cols);
      && |s| <= cols * g.Length1
      && (forall k :: 0 <= k < |s| ==>
            && s[k].alive && 0 <= s[k].coordinate.x < cols && 0 <= s[k].coordinate.y < g.Length1
            && s[k] == g[s[k].coordinate.x, s[k].coordinate.y])
  {
    if cols > 0 {
      ColumnsSound(g, cols - 1);
      ColumnFacts(g, cols - 1, g.Length1);
      var front := AliveInColumns(g, cols - 1);
      var column := AliveInColumn(g, cols - 1, g.Length1);
      var s := front + column;
      assert (cols - 1) * g.Length1 + g.Length1 == cols * g.Length1;
      forall k | 0 <= k < |s|
        ensures && s[k].alive && 0 <= s[k].coordinate.x < cols && 0 <= s[k].coordinate.y < g.Length1
                && s[k] == g[s[k].coordinate.x, s[k].coordinate.y]
      {
        if k >= |front| {
          assert s[k] == column[k - |front|];
        }
      }
    }
  }

  /** Every alive cell of the first `rows` rows of column `x` is listed. */
  lemma {:induction false} ColumnComplete(g: array2<CubeData>, x: nat, rows: nat)
    requires x < g.Length0 && rows <= g.Length1
    ensures forall y :: 0 <= y < rows && g[x, y].alive ==> g[x, y] in AliveInColumn(g, x, rows)
  {
    if rows > 0 {
      ColumnComplete(g, x, rows - 1);
    }
  }

  /** Every alive cell of the first `cols` columns is listed. */
  lemma {:induction false} ColumnsComplete(g: array2<CubeData>, cols: nat)
    requires cols <= g.Length0
    ensures forall x, y :: 0 <= x < cols && 0 <= y < g.Length1 && g[x, y].alive ==> g[x, y] in AliveInColumns(g, cols)
  {
    if cols > 0 {
      ColumnsComplete(g, cols - 1);
      ColumnComplete(g, cols - 1, g.Length1);
      var front := AliveInColumns(g, cols - 1);
      var column := AliveInColumn(g, cols - 1, g.Length1);
      assert AliveInColumns(g, cols) == front + column;
      forall x, y | 0 <= x < cols && 0 <= y < g.Length1 && g[x, y].alive
        ensures g[x, y] in front + column
      {
        if x < cols - 1 {
          assert g[x, y] in front;
        } else {
          assert g[x, y] in column;
        }
      }
    }
  }

  /** Cells of earlier columns, in x-major order, followed by the cells of
      column c in increasing y, stay in x-major order. */
  lemma OrderedConcat(front: seq<CubeData>, column: seq<CubeData>, c: int)
    requires forall j, k :: 0 <= j < k < |front| ==> XMajorBefore(front[j].coordinate, front[k].coordinate)
    requires forall k :: 0 <= k < |front| ==> front[k].coordinate.x < c
    requires forall k :: 0 <= k < |column| ==> column[k].coordinate.x == c
    requires forall j, k :: 0 <= j < k < |column| ==> column[j].coordinate.y < column[k].coordinate.y
    ensures var s := front + column;
      forall j, k :: 0 <= j < k < |s| ==> XMajorBefore(s[j].coordinate, s[k].coordinate)
  {
    var s := front + column;
    forall j, k | 0 <= j < k < |s|
      ensures XMajorBefore(s[j].coordinate, s[k].coordinate)
    {
      if k < |front| {
        assert s[j] == front[j] && s[k] == front[k];
      } else if j < |front| {
        assert s[j] == front[j] && s[k] == column[k - |front|];
      } else {
        assert s[j] == column[j - |front|] && s[k] == column[k - |front|];
      }
    }
  }

  /** The entries of the first `cols` columns run in strictly increasing
      x-major order. */
  lemma {:induction false} ColumnsOrdered(g: array2<CubeData>, cols: nat)
    requires cols <= g.Length0 && CoordinatesMatch(g)
    ensures var s := AliveInColumns(g, cols);
      forall j, k :: 0 <= j < k < |s| ==> XMajorBefore(s[j].coordinate, s[k].coordinate)
  {
    if cols > 0 {
      ColumnsOrdered(g, cols - 1);
      ColumnsSound(g, cols - 1);
      ColumnFacts(g, cols - 1, g.Length1);
      OrderedConcat(AliveInColumns(g, cols - 1), AliveInColumn(g, cols - 1, g.Length1), cols - 1);
    }
  }

  /** `AliveCells` holds exactly the alive cells of the grid, each once, in
      x-major order, and fits in a buffer of one entry per cell. */
  lemma AliveCellsExact(g: array2<CubeData>)
    requires CoordinatesMatch(g)
    ensures var s := AliveCells(g);
      && |s| <= g.Length0 * g.Length1
      && (forall k :: 0 <= k < |s| ==>
            && s[k].alive && InGrid(g, s[k].coordinate.x, s[k].coordinate.y)
            && s[k] == g[s[k].coordinate.x, s[k].coordinate.y])
      && (forall x, y :: InGrid(g, x, y) && g[x, y].alive ==> g[x, y] in s)
      && (forall j, k :: 0 <= j < k < |s| ==> XMajorBefore(s[j].coordinate, s[k].coordinate))
  {
    ColumnsSound(g, g.Length0);
    ColumnsComplete(g, g.Length0);
    ColumnsOrdered(g, g.Length0);
  }

  /** A grid with no alive cell compacts to the empty list, and a grid
      with one compacts to a non-empty one. */
  lemma AliveCellsEmptyIff(g: array2<CubeData>)
    requires CoordinatesMatch(g)
    ensures AliveCells(g) == [] <==> forall x, y :: InGrid(g, x, y) ==> !g[x, y].alive
  {
    AliveCellsExact(g);
    if AliveCells(g) != [] {
      var c := AliveCells(g)[0];
      assert InGrid(g, c.coordinate.x, c.coordinate.y) && g[c.coordinate.x, c.coordinate.y].alive;
    }
  }

  // ---------------------------------------------------------------------
  // Random breaks.

  /** Each draw of `Random.Range(0, _aliveCube.Count)` in the break loop:
      the i-th lies below the list's length after i removals. */
  predicate ValidPicks(picks: seq<int>, n: nat)
  {
    forall i :: 0 <= i < |picks| ==> 0 <= picks[i] < n - i
  }

  /** The list left after removing, one after another, the entries at
      `picks` (each `RemoveAt` of the loop), and the entries removed. */
  function Removals<T>(s: seq<T>, picks: seq<int>): (r: (seq<T>, seq<T>))
    requires ValidPicks(picks, |s|)
    ensures |r.0| == |s| - |picks| && |r.1| == |picks|
    decreases |picks|
  {
    if picks == [] then (s, [])
    else
      var before := Removals(s, picks[..|picks| - 1]);
      var p := picks[|picks| - 1];
      (before.0[..p] + before.0[p + 1..], before.1 + [before.0[p]])
  }

  /** The removals lose nothing and invent nothing: what is left and what
      was removed together are the original list, as a multiset. */
  lemma {:induction false} RemovalsPermutes<T>(s: seq<T>, picks: seq<int>)
    requires ValidPicks(picks, |s|)
    ensures multiset(Removals(s, picks).0) + multiset(Removals(s, picks).1) == multiset(s)
    decreases |picks|
  {
    if picks != [] {
      var front := picks[..|picks| - 1];
      RemovalsPermutes(s, front);
      var before := Removals(s, front);
      var p := picks[|picks| - 1];
      assert before.0 == before.0[..p] + [before.0[p]] + before.0[p + 1..];
    }
  }

  /** The coordinates of a list of cells. */
  function Coordinates(cells: seq<CubeData>): (r: set<Int2>)
    ensures forall k :: 0 <= k < |cells| ==> cells[k].coordinate in r
    ensures forall c :: c in r ==> exists k :: 0 <= k < |cells| && cells[k].coordinate == c
  {
    set k | 0 <= k < |cells| :: cells[k].coordinate
  }

  /** Appending a cell adds its coordinate. */
  lemma CoordinatesSnoc(cells: seq<CubeData>, c: CubeData)
    ensures Coordinates(cells + [c]) == Coordinates(cells) + {c.coordinate}
  {
    var s := cells + [c];
    forall p | p in Coordinates(s) ensures p in Coordinates(cells) + {c.coordinate} {
      var k :| 0 <= k < |s| && s[k].coordinate == p;
      if k < |cells| {
        assert cells[k].coordinate == p;
      }
    }
    forall p | p in Coordinates(cells) + {c.coordinate} ensures p in Coordinates(s) {
      if p in Coordinates(cells) {
        var k :| 0 <= k < |cells| && cells[k].coordinate == p;
        assert s[k] == cells[k];
      } else {
        assert s[|cells|] == c;
      }
    }
  }

  // ---------------------------------------------------------------------
  // Impacts.

  /** Cell (a, b) is visited by the impact loop around `center`: its offset
      lies in the square [-size, size]^2, within distance `size` of the
      center, and the cell lies on a dimX x dimY grid. */
  predicate InImpact(center: Int2, size: int, dimX: int, dimY: int, a: int, b: int)
  {
    var dx, dy := a - center.x, b - center.y;
    && -size <= dx <= size && -size <= dy <= size
    && dx * dx + dy * dy <= size * size
    && 0 <= a < dimX && 0 <= b < dimY
  }

  lemma SquareGrows(a: int, b: int)
    requires 0 <= a < b
    ensures a * a < b * b
  {
  }

  lemma SquareBound(d: int, e: int, size: int)
    requires size >= 0 && d * d + e * e <= size * size
    ensures -size <= d <= size
  {
    if d > size {
      SquareGrows(size, d);
      assert false;
    } else if d < -size {
      SquareGrows(size, -d);
      assert false;
    }
  }

  /** The square test of the loop bounds adds nothing to the distance test:
      for size >= 0 an impact reaches exactly the grid cells of the closed
      disc of radius `size`, and for size < 0 it reaches no cell. */
  lemma ImpactIsDisc(center: Int2, size: int, dimX: int, dimY: int, a: int, b: int)
    ensures size >= 0 ==>
              (InImpact(center, size, dimX, dimY, a, b) <==>
                 && (a - center.x) * (a - center.x) + (b - center.y) * (b - center.y) <= size * size
                 && 0 <= a < dimX && 0 <= b < dimY)
    ensures size < 0 ==> !InImpact(center, size, dimX, dimY, a, b)
  {
    var dx, dy := a - center.x, b - center.y;
    if size >= 0 && dx * dx + dy * dy <= size * size {
      SquareBound(dx, dy, size);
      SquareBound(dy, dx, size);
    }
  }

  /** `Mathf.Lerp`: the parameter clamped to [0, 1]. */
  function Lerp(a: real, b: real, t: real): real
  {
    var c := if t < 0.0 then 0.0 else if t > 1.0 then 1.0 else t;
    a + (b - a) * c
  }

  /** The damage a visited cell takes, at squared distance `dist2` from the
      center: `damage` itself, or with `reduceDamageWithDistance`, `damage`
      scaled down linearly in the squared distance, to zero at the rim. At
      size 0 only the center is visited and it takes the full `damage`. */
  function FinalDamage(damage: real, size: int, dist2: nat, reduceDamageWithDistance: bool): real
  {
    if !reduceDamageWithDistance then damage
    else if size == 0 then damage
    else Lerp(0.0, damage, 1.0 - dist2 as real / (size * size) as real)
  }

  /** Inside the disc the falloff never amplifies and never heals: a
      non-negative damage stays between 0 and `damage`, the center takes
      all of it and the rim none. */
  lemma FinalDamageBounds(damage: real, size: int, dist2: nat, reduceDamageWithDistance: bool)
    requires damage >= 0.0 && dist2 <= size * size
    ensures 0.0 <= FinalDamage(damage, size, dist2, reduceDamageWithDistance) <= damage
    ensures dist2 == 0 ==> FinalDamage(damage, size, dist2, reduceDamageWithDistance) == damage
    ensures reduceDamageWithDistance && size != 0 && dist2 == size * size ==>
              FinalDamage(damage, size, dist2, reduceDamageWithDistance) == 0.0
  {
    if reduceDamageWithDistance && size != 0 {
      var s2 := (size * size) as real;
      assert s2 > 0.0;
      assert 0.0 <= dist2 as real / s2 <= 1.0;
    }
  }

  // ---------------------------------------------------------------------
  // The falloff as written, at size 0.

  /** A single-precision result of the falloff: a number, or NaN. */
  datatype Single = Finite(value: real) | NaN

  /** `(float)dist2 / (size * size)` as written: 0f / 0 is NaN. Inside the
      disc a zero divisor only meets a zero dividend. */
  function SquaredRatioAsWritten(dist2: nat, size: int): Single
    requires dist2 <= size * size
  {
    if size * size == 0 then NaN else Finite(dist2 as real / (size * size) as real)
  }

  /** The falloff as written: `Mathf.Lerp(0, damage, 1 - ratio)`. A NaN
      parameter passes through the clamp (both comparisons are false) and
      makes the result NaN. */
  function FinalDamageAsWritten(damage: real, size: int, dist2: nat, reduceDamageWithDistance: bool): Single
    requires dist2 <= size * size
  {
    if !reduceDamageWithDistance then Finite(damage)
    else match SquaredRatioAsWritten(dist2, size)
      case NaN => NaN
      case Finite(q) => Finite(Lerp(0.0, damage, 1.0 - q))
  }

  /** A cell's health and alive flag after `DamageCubeAt` with a
      single-precision damage: NaN health never compares `<= 0`. */
  function DamagedAsWritten(health: Single, alive: bool, damage: Single): (Single, bool)
  {
    var h := match (health, damage)
      case (Finite(a), Finite(d)) => Finite(a - d)
      case _ => NaN;
    (h, alive && !(h.Finite? && h.value <= 0.0))
  }

  /** Health and alive flag after a series of hits. */
  function DamagedManyAsWritten(health: Single, alive: bool, hits: seq<Single>): (Single, bool)
    decreases |hits|
  {
    if hits == [] then (health, alive)
    else
      var next := DamagedAsWritten(health, alive, hits[0]);
      DamagedManyAsWritten(next.0, next.1, hits[1..])
  }

  /** As written, a size-0 impact with `reduceDamageWithDistance` gives the
      center cell NaN health, and after that no series of hits, however
      large, marks it dead. */
  lemma {:induction false} ZeroSizeFalloffMakesCubeImmortal(health: real, damage: real, later: seq<Single>)
    ensures FinalDamageAsWritten(damage, 0, 0, true) == NaN
    ensures DamagedManyAsWritten(Finite(health), true, [FinalDamageAsWritten(damage, 0, 0, true)] + later) == (NaN, true)
  {
    var hits := [FinalDamageAsWritten(damage, 0, 0, true)] + later;
    assert hits[1..] == later;
    NaNStaysAlive(later);
  }

  lemma {:induction false} NaNStaysAlive(hits: seq<Single>)
    ensures DamagedManyAsWritten(NaN, true, hits) == (NaN, true)
    decreases |hits|
  {
    if hits != [] {
      NaNStaysAlive(hits[1..]);
    }
  }

  /** Corrected, the same impact deals the full damage to the center, so a
      center cell with no more health than the damage dies. */
  lemma ZeroSizeFalloffCorrected(c: CubeData, damage: real)
    requires c.alive && c.health <= damage
    ensures FinalDamage(damage, 0, 0, true) == damage
    ensures !Damaged(c, FinalDamage(damage, 0, 0, true)).alive
  {
  }
}
