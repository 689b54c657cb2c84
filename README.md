# Tile-grid core, modelled in Dafny

This project models the integer core of a small Rust tile-grid library that places square, hexagonal and triangular tiles in a Bevy scene. It has three parts.

- **Coordinate algebra** (`coordinates.dfy`).
  - `SquareCoord` uses Manhattan distance.
  - `HexCoord` uses axial coordinates with the derived cube coordinate `s = -q - r`. It has cube distance and a six-entry neighbour list.
  - `TriangleCoord` has `q`, `r` and a `side`, and a weighted distance.
  - Each type has `ZERO`, `magnitude` (the trait default `distance(self, ZERO)`), structural equality, and, where the library defines them, `+`, `-` and `scalar_multiply`.
- **Tile meshes** (`primitives.dfy`).
  - `to_mesh` for `Triangles`, `Squares` and `Hexes` is modelled as imperative builders. Each builder is proved equal to a reference tile (`TriangleTile`, `SquareTile`, `HexTile`).
  - A mesh is a record of positions, normals and a triangle-list index buffer.
  - `corner_pos` is modelled with sine and cosine as a parameter (`SinCos`, angles in whole degrees). What is proved is therefore the structure of each mesh: counts, index buffers, normals, where each vertex comes from, and that every vertex lies in the chosen plane.
- **Grid configurations** (`grids.dfy`).
  - `GridConfig::to_mesh` delegates to the primitive.
  - `GridConfig<Triangles>::to_grid` and `GridConfig<Squares>::to_grid` are nested loops, proved equal to a column-by-column sweep. Lemmas about the sweep give its length, the position of every cell, and how often each coordinate occurs.

Rust `i32` and `u32` are mathematical `int` and `nat`. `f32` is `real`.

## Model

| member | source | states |
|---|---|---|
| IntMath.Halve | src/grids/coordinates.rs:211 | the integer halving used by the hex distance: `2h <= n < 2h + 2` |
| IntMath.HalveIsDivision | src/grids/coordinates.rs:211 | `Halve(n)` is exactly Rust's `n / 2` on non-negative `n` |
| SquareCoords.Eq | src/grids/coordinates.rs:159-162 | field-by-field `eq` holds iff the two coordinates are the same value |
| SquareCoords.Magnitude | src/grids/coordinates.rs:20-22 | the default `magnitude` (distance to `ZERO`) is `|q| + |r|` |
| SquareCoords.DistanceIsManhattan | src/grids/coordinates.rs:141-144 | `distance(a, b) = |a.q - b.q| + |a.r - b.r|` |
| SquareCoords.DistanceExample | src/grids/coordinates.rs:141-144 | the distance from (0, 0) to (3, -2) is 5 |
| SquareCoords.DistanceSymmetric | src/grids/coordinates.rs:141-144 | `distance(a, b) = distance(b, a)` |
| SquareCoords.DistanceZeroIffEqual | src/grids/coordinates.rs:141-144 | distance is 0 exactly when `eq` holds |
| SquareCoords.DistanceTriangleInequality | src/grids/coordinates.rs:141-144 | `distance(a, c) <= distance(a, b) + distance(b, c)` |
| SquareCoords.MagnitudeZeroIffOrigin | src/grids/coordinates.rs:20-22 | `magnitude(a) = distance(a, ZERO)`, and it is 0 only at the origin |
| SquareCoords.DistanceTranslationInvariant | src/grids/coordinates.rs:141-144 | the distance is the magnitude of `b - a`, and it is unchanged when both points move by the same `t` |
| SquareCoords.AddSubInverse | src/grids/coordinates.rs:164-183 | `(a + b) - b = a` and `(a - b) + b = a`; both act on each field alone |
| SquareCoords.ScalarMultiplySmall | src/grids/coordinates.rs:150-155 | multiplying by 0 gives `ZERO`, by 1 gives `a`, by 2 gives `a + a` |
| SquareCoords.ScalarMultiplyLinear | src/grids/coordinates.rs:150-155 | `scalar_multiply` distributes over `+` in the scalar and in the coordinate |
| SquareCoords.MagnitudeHomogeneous | src/grids/coordinates.rs:150-155 | scaling by `k` scales the magnitude by `|k|` |
| HexCoords.Eq | src/grids/coordinates.rs:235-238 | field-by-field `eq` holds iff the two coordinates are the same value |
| HexCoords.Distance | src/grids/coordinates.rs:207-212 | twice the distance is exactly `|dq| + |dr| + |ds|`, so the `/ 2` drops nothing |
| HexCoords.Magnitude | src/grids/coordinates.rs:20-22 | twice the magnitude is `|q| + |r| + |s|` |
| HexCoords.MagnitudeIsMax | src/grids/coordinates.rs:20-22 | the magnitude is the largest of `|q|`, `|r|`, `|s|` |
| HexCoords.DistanceIsMaxDelta | src/grids/coordinates.rs:207-212 | the distance is the largest of the three absolute cube differences |
| HexCoords.DistanceSymmetric | src/grids/coordinates.rs:207-212 | `distance(a, b) = distance(b, a)` |
| HexCoords.DistanceZeroIffEqual | src/grids/coordinates.rs:207-212 | distance is 0 exactly when `eq` holds |
| HexCoords.DistanceTriangleInequality | src/grids/coordinates.rs:207-212 | `distance(a, c) <= distance(a, b) + distance(b, c)` |
| HexCoords.MagnitudeIsDistanceFromOrigin | src/grids/coordinates.rs:20-22 | `magnitude(a) = distance(a, ZERO)` with `ZERO = (0, 0)` |
| HexCoords.MagnitudeZeroIffOrigin | src/grids/coordinates.rs:205 | the magnitude is 0 exactly when `q = 0` and `r = 0` |
| HexCoords.DistanceIsMagnitudeOfDifference | src/grids/coordinates.rs:207-212 | `distance(a, b) = magnitude(b - a)` |
| HexCoords.DistanceTranslationInvariant | src/grids/coordinates.rs:207-212 | moving both points by the same `t` keeps their distance |
| HexCoords.AddSubInverse | src/grids/coordinates.rs:240-259 | `(a + b) - b = a` and `(a - b) + b = a`; field-wise; `s` is additive |
| HexCoords.ScalarMultiplySmall | src/grids/coordinates.rs:226-231 | multiplying by 0 gives `ZERO`, by 1 gives `a`, by 2 gives `a + a` |
| HexCoords.ScalarMultiplyLinear | src/grids/coordinates.rs:226-231 | `scalar_multiply` distributes over `+` in the scalar and in the coordinate |
| HexCoords.ScaleS | src/grids/coordinates.rs:226-231 | the derived `s` of a scaled coordinate is `s · k` |
| HexCoords.MagnitudeHomogeneous | src/grids/coordinates.rs:226-231 | scaling by `k` scales the magnitude by `|k|` |
| HexCoords.Neighbours | src/grids/coordinates.rs:214-224 | the loop over the offset table returns `self + offset` for each offset, in table order |
| HexCoords.NeighboursAtUnitDistance | src/grids/coordinates.rs:214-224 | six neighbours, each at distance 1, pairwise distinct |
| HexCoords.NeighboursComplete | src/grids/coordinates.rs:214-224 | a coordinate is in the list iff it is at distance 1 |
| HexCoords.NeighboursCyclicOrder | src/grids/coordinates.rs:215 | entries next to each other in the table (cyclically) are adjacent; entries further apart are at distance 2 |
| HexCoords.NeighboursOfOrigin | src/grids/coordinates.rs:215 | the neighbours of `ZERO` are the offsets `(1,0),(1,-1),(0,-1),(-1,0),(-1,1),(0,1)` in order |
| TriangleCoords.Eq | src/grids/coordinates.rs:89-93 | `eq` on all three fields holds iff the coordinates are the same value |
| TriangleCoords.Magnitude | src/grids/coordinates.rs:68-77 | the magnitude is `2(|q| + |r|) + |side|` |
| TriangleCoords.DistanceSymmetric | src/grids/coordinates.rs:74-77 | `distance(a, b) = distance(b, a)` |
| TriangleCoords.DistanceZeroIffEqual | src/grids/coordinates.rs:74-77 | distance is 0 exactly when `eq` holds |
| TriangleCoords.DistanceTriangleInequality | src/grids/coordinates.rs:74-77 | `distance(a, c) <= distance(a, b) + distance(b, c)` |
| TriangleCoords.MagnitudeZeroIffOrigin | src/grids/coordinates.rs:68-72 | `magnitude(a) = distance(a, ZERO)`, and it is 0 only at `(0, 0, 0)` |
| TriangleCoords.DistanceParityIsSide | src/grids/coordinates.rs:74-77 | for sides 0/1, the distance is odd iff the sides differ, and half of it is the cell Manhattan distance |
| Primitives.HexOffset | src/grids/primitives.rs:106-109 | corner 0 is at 30 degrees for `PointyUp` and at 0 for `FlatUp` |
| Primitives.CornerPos | src/grids/primitives.rs:148-163 | `corner_pos` never leaves the plane: its dot product with the plane normal is 0 |
| Primitives.Corners | src/grids/primitives.rs:148-163 | the first `n` corners, entry `i` being `corner_pos(i, …)` |
| Primitives.FanIndices | src/grids/primitives.rs:114-120 | after `n` steps the buffer holds `3n` indices and triple `i` is `(0, i+1, i+2)`, or `(0, 6, 1)` for `i = 5` |
| Primitives.TrianglesToMesh | src/grids/primitives.rs:23-50 | the builder's loop yields exactly the reference triangle tile |
| Primitives.SquaresToMesh | src/grids/primitives.rs:70-88 | the builder's loop yields exactly the reference square tile |
| Primitives.HexesToMesh | src/grids/primitives.rs:102-133 | the builder's loop, with its `i < 5` branch, yields exactly the reference hexagon tile |
| Primitives.TriangleTileShape | src/grids/primitives.rs:23-50 | 4 positions (3 corners at step 120 and offset 90, plus the midpoint of corners 1 and 2); indices `[0,1,3,0,3,2]`; 4 normals; well formed, facing the plane, in the plane |
| Primitives.SquareTileShape | src/grids/primitives.rs:70-88 | 4 corners at step 90 and offset 45; indices `[0,1,2,0,2,3]`; 4 normals; well formed, facing the plane, in the plane |
| Primitives.HexTileShape | src/grids/primitives.rs:102-133 | 7 positions (the origin, then 6 corners at step 60); the 18-index fan; 7 normals; well formed, facing the plane, in the plane |
| Primitives.HexFanIndices | src/grids/primitives.rs:110-121 | the fan buffer is `[0,1,2, 0,2,3, 0,3,4, 0,4,5, 0,5,6, 0,6,1]` |
| Primitives.HexFanSharing | src/grids/primitives.rs:110-121 | the centre is in all 6 triangles, each corner 1..6 in exactly 2, and no other vertex in any |
| Primitives.CornerOnCircle | src/grids/primitives.rs:148-163 | when `sin² + cos² = 1`, each corner is at distance `size` from the origin |
| Primitives.XZIsTurnedXY | src/grids/primitives.rs:151-162 | the XZ placement `(size·cos, 0, -size·sin)` is the XY placement `(size·cos, size·sin, 0)` turned a quarter turn about X, and so is the normal |
| Primitives.TurnKeepsWinding | src/grids/primitives.rs:151-162 | that turn preserves cross products, so a triangle's winding relative to the normal is the same in both planes |
| Grids.TriangleConfigToMesh | src/grids/mod.rs:15-17 | the configuration's mesh is its primitive's tile |
| Grids.SquareConfigToMesh | src/grids/mod.rs:39-41 | the configuration's mesh is its primitive's tile |
| Grids.HexConfigToMesh | src/grids/mod.rs:61-63 | the configuration's mesh is its primitive's tile |
| Grids.TriangleConfigToGrid | src/grids/mod.rs:18-36 | returns the `to_mesh` tile and, from the nested loops, the column-by-column sweep of `(i, j, 0), (i, j, 1)` |
| Grids.SquareConfigToGrid | src/grids/mod.rs:42-58 | returns the `to_mesh` tile and, from the nested loops, the column-by-column sweep of `(i, j), (i, j)` |
| Grids.SweepLength | src/grids/mod.rs:20-34 | two entries per cell give `2·w·h` coordinates; the list is empty iff `w = 0` or `h = 0` |
| Grids.SweepAt | src/grids/mod.rs:21-22 | cell `(i, j)`'s two entries sit at `2(i·h + j)` and `2(i·h + j) + 1` (q outer, r inner) |
| Grids.TriangleGridOrder | src/grids/mod.rs:21-33 | entry `2(i·h + j)` is `(i, j, 0)` and the next one is `(i, j, 1)` |
| Grids.TriangleGridExactlyOnce | src/grids/mod.rs:21-33 | each `(q, r, side)` with `q < w`, `r < h`, `side ∈ {0, 1}` occurs exactly once; nothing else occurs |
| Grids.TriangleGridMembership | src/grids/mod.rs:21-33 | a coordinate is listed iff it lies within the grid bounds with side 0 or 1 |
| Grids.SquareGridOrder | src/grids/mod.rs:45-55 | entries `2(i·h + j)` and `2(i·h + j) + 1` are both `(i, j)` |
| Grids.SquareGridExactlyTwice | src/grids/mod.rs:45-55 | each `(q, r)` with `q < w`, `r < h` occurs exactly twice; nothing else occurs |
| Grids.SquareGridMembership | src/grids/mod.rs:45-55 | a coordinate is listed iff it lies within the grid bounds |
| Grids.OccurrencesMembership | src/grids/mod.rs:20-34 | the counting used above is the multiset multiplicity, and it is positive iff the element is in the list |

## Left out

- Overflow: `i32` arithmetic and the `as u32` / `as i32` casts are modelled on unbounded integers. Rust would panic or wrap on overflow, and none of that is modelled.
- Grids.TriangleConfigToGrid: does not model the wrap-around of `i as i32` for a width or height above 2^31 - 1. The same applies to Grids.SquareConfigToGrid.
- TriangleCoords.Distance: the library's `Sub` for triangles is `todo!()`, so `distance` as written would panic. The model uses the component-wise difference (`Delta`) that `distance` evidently expects.
- TriangleCoords.Distance: `side` is an `i8` in the library. Here it is an unbounded integer.
- HexCoords.Distance: the `/ 2` is written as `Halve`. `Halve` is proved equal to integer division by `HalveIsDivision`.
- HexCoords.MagnitudeZeroIffOrigin: states the origin case field by field (`q = 0 and r = 0`) rather than as equality with `ZERO`. The two are equivalent by `HexCoords.Eq`.
- `todo!()` stubs have no behaviour to state, so they are not modelled:
  - triangle `neighbours`, `scalar_multiply`, `Add` and `Sub`;
  - square `neighbours`;
  - `GridPrimitive::to_grid` on all three primitives;
  - `GridConfig<Hexes>::to_grid`;
  - `HexCoord::to_world_pos`;
  - the empty test.
- `TriangleCoord::to_world_pos` and `SquareCoord::to_world_pos`: these are floating-point placements with no exact contract.
- Values of `corner_pos`: sine and cosine are a parameter (`SinCos`). Degree-to-radian conversion is folded into it, since every angle used is a whole number of degrees. Floating-point rounding is not modelled.
- Bevy types and wiring are not modelled:
  - `Mesh`, `Indices` and `PrimitiveTopology` are represented by the three-sequence `Mesh` record;
  - the `GridMap` resource, the `GridPlugin` constructors and `Plugin::build` are not modelled.
- The `dbg!` print in the hexagon builder, the `Hash` and `Debug` derives, and the triangle neighbour-counting mode: the mode is stored in `Triangles` but never read.
- `src/main.rs` is not part of this model: it is application start-up, camera, lights and spawning.
- Grid contents: a square grid lists each cell twice in a row, and a triangle grid lists side 0 and then side 1 of each cell. The model states both exactly as the code does.
