// The grid configurations: each hands out its primitive's tile mesh, and
// the triangle and square configurations enumerate a width x height grid
// of coordinates, column by column (q outer, r inner), two per cell.

module Grids {
  import opened Primitives
  import opened TriangleCoords
  import opened SquareCoords

  /** `GridConfig<T>`: a configuration wrapping one tile primitive. */
  datatype GridConfig<P> = GridConfig(primitive: P)

  // ---------------------------------------------------------------------
  // `to_mesh`: each configuration delegates to its primitive.

  method TriangleConfigToMesh(config: GridConfig<Triangles>, sinCos: SinCos) returns (m: Mesh)
    ensures m == TriangleTile(config.primitive, sinCos)
  {
    m := TrianglesToMesh(config.primitive, sinCos);
  }

  method SquareConfigToMesh(config: GridConfig<Squares>, sinCos: SinCos) returns (m: Mesh)
    ensures m == SquareTile(config.primitive, sinCos)
  {
    m := SquaresToMesh(config.primitive, sinCos);
  }

  method HexConfigToMesh(config: GridConfig<Hexes>, sinCos: SinCos) returns (m: Mesh)
    ensures m == HexTile(config.primitive, sinCos)
  {
    m := HexesToMesh(config.primitive, sinCos);
  }

  // ---------------------------------------------------------------------
  // The order of enumeration, shared by both enumerators: for each column
  // q in 0..w, for each row r in 0..h, the entries `cell(q, r)`.

  /** Column `i`, rows 0..h. */
  function Column<T>(i: nat, h: nat, cell: (int, int) -> seq<T>): seq<T>
  {
    if h == 0 then [] else Column(i, h - 1, cell) + cell(i, h - 1)
  }

  /** Columns 0..w. */
  function Sweep<T>(w: nat, h: nat, cell: (int, int) -> seq<T>): seq<T>
  {
    if w == 0 then [] else Sweep(w - 1, h, cell) + Column(w - 1, h, cell)
  }

  /** What the triangle enumerator pushes for cell (i, j): side 0, then side 1. */
  function TriangleCell(i: int, j: int): seq<TriangleCoord>
  {
    [TriangleCoord(i, j, 0), TriangleCoord(i, j, 1)]
  }

  /** What the square enumerator pushes for cell (i, j): the same coordinate twice. */
  function SquareCell(i: int, j: int): seq<SquareCoord>
  {
    [SquareCoord(i, j), SquareCoord(i, j)]
  }

  // ---------------------------------------------------------------------
  // `to_grid`.

  /** `GridConfig<Triangles>::to_grid`. */
  method TriangleConfigToGrid(config: GridConfig<Triangles>, width: nat, height: nat, sinCos: SinCos)
    returns (mesh: Mesh, coordinates: seq<TriangleCoord>)
    ensures mesh == TriangleTile(config.primitive, sinCos)
    ensures coordinates == Sweep(width, height, TriangleCell)
  {
    mesh := TriangleConfigToMesh(config, sinCos);
    coordinates := [];
    for i := 0 to width
      invariant coordinates == Sweep(i, height, TriangleCell)
    {
      for j := 0 to height
        invariant coordinates == Sweep(i, height, TriangleCell) + Column(i, j, TriangleCell)
      {
        coordinates := coordinates + [TriangleCoord(i, j, 0)];
        coordinates := coordinates + [TriangleCoord(i, j, 1)];
      }
    }
  }

  /** `GridConfig<Squares>::to_grid`. */
  method SquareConfigToGrid(config: GridConfig<Squares>, width: nat, height: nat, sinCos: SinCos)
    returns (mesh: Mesh, coordinates: seq<SquareCoord>)
    ensures mesh == SquareTile(config.primitive, sinCos)
    ensures coordinates == Sweep(width, height, SquareCell)
  {
    mesh := SquareConfigToMesh(config, sinCos);
    coordinates := [];
    for i := 0 to width
      invariant coordinates == Sweep(i, height, SquareCell)
    {
      for j := 0 to height
        invariant coordinates == Sweep(i, height, SquareCell) + Column(i, j, SquareCell)
      {
        coordinates := coordinates + [SquareCoord(i, j)];
        coordinates := coordinates + [SquareCoord(i, j)];
      }
    }
  }

  // ---------------------------------------------------------------------
  // Length and order of the enumeration.

  lemma MulStep(w: int, h: int)
    ensures (w - 1) * h + h == w * h
  {
  }

  lemma MulMono(a: int, b: int, h: int)
    requires a <= b && h >= 0
    ensures a * h <= b * h
  {
  }

  lemma {:induction false} ColumnAt<T>(i: nat, h: nat, cell: (int, int) -> seq<T>, j: nat)
    requires forall a, b :: |cell(a, b)| == 2
    requires j < h
    ensures |Column(i, h, cell)| == 2 * h
    ensures Column(i, h, cell)[2 * j] == cell(i, j)[0]
    ensures Column(i, h, cell)[2 * j + 1] == cell(i, j)[1]
    decreases h
  {
    if j < h - 1 {
      ColumnAt(i, h - 1, cell, j);
    } else if h > 1 {
      ColumnAt(i, h - 1, cell, 0);
    }
  }

  /** With two entries per cell, a w x h sweep has 2·w·h entries; it is
      empty exactly when w or h is 0. */
  lemma {:induction false} SweepLength<T>(w: nat, h: nat, cell: (int, int) -> seq<T>)
    requires forall a, b :: |cell(a, b)| == 2
    ensures |Sweep(w, h, cell)| == 2 * (w * h)
    ensures Sweep(w, h, cell) == [] <==> w == 0 || h == 0
    decreases w
  {
    if w > 0 {
      SweepLength(w - 1, h, cell);
      if h > 0 {
        ColumnAt(w - 1, h, cell, 0);
      }
      MulStep(w, h);
      if h > 0 {
        MulMono(1, w, h);
      }
    }
  }

  /** The entries of cell (i, j) sit at positions 2·(i·h + j) and
      2·(i·h + j) + 1: columns in order, rows in order within a column. */
  lemma {:induction false} SweepAt<T>(w: nat, h: nat, cell: (int, int) -> seq<T>, i: nat, j: nat)
    requires forall a, b :: |cell(a, b)| == 2
    requires i < w && j < h
    ensures 2 * (i * h + j) + 1 < |Sweep(w, h, cell)|
    ensures Sweep(w, h, cell)[2 * (i * h + j)] == cell(i, j)[0]
    ensures Sweep(w, h, cell)[2 * (i * h + j) + 1] == cell(i, j)[1]
    decreases w
  {
    assert Sweep(w, h, cell) == Sweep(w - 1, h, cell) + Column(w - 1, h, cell);
    ColumnAt(w - 1, h, cell, j);
    if i < w - 1 {
      SweepAt(w - 1, h, cell, i, j);
    } else {
      SweepLength(w - 1, h, cell);
      assert 2 * (i * h + j) == |Sweep(w - 1, h, cell)| + 2 * j;
    }
  }

  // ---------------------------------------------------------------------
  // Counting occurrences.

  /** How many times `x` occurs in `s`. */
  function Occurrences<T(==)>(s: seq<T>, x: T): nat
  {
    if s == [] then 0 else (if s[0] == x then 1 else 0) + Occurrences(s[1..], x)
  }

  /** `Occurrences` is the multiplicity of `x` in the multiset of `s`, so it
      is positive exactly for the elements of `s`. */
  lemma {:induction false} OccurrencesMembership<T>(s: seq<T>, x: T)
    ensures Occurrences(s, x) == multiset(s)[x]
    ensures Occurrences(s, x) > 0 <==> x in s
  {
    if s != [] {
      OccurrencesMembership(s[1..], x);
      assert s == [s[0]] + s[1..];
      assert multiset(s) == multiset{s[0]} + multiset(s[1..]);
    }
  }

  lemma {:induction false} OccurrencesAppend<T>(a: seq<T>, b: seq<T>, x: T)
    ensures Occurrences(a + b, x) == Occurrences(a, x) + Occurrences(b, x)
  {
    if a == [] {
      assert a + b == b;
    } else {
      assert (a + b)[1..] == a[1..] + b;
      OccurrencesAppend(a[1..], b, x);
    }
  }

  lemma OccurrencesPair<T>(a: T, b: T, x: T)
    ensures Occurrences([a, b], x) == (if a == x then 1 else 0) + (if b == x then 1 else 0)
  {
    assert [a, b][1..] == [b];
    assert [b][1..] == [];
    assert Occurrences([b], x) == (if b == x then 1 else 0) + Occurrences([], x);
  }

  // ---------------------------------------------------------------------
  // The triangle grid.

  predicate InTriangleGrid(c: TriangleCoord, w: nat, h: nat)
  {
    0 <= c.q < w && 0 <= c.r < h && (c.side == 0 || c.side == 1)
  }

  /** The triangle enumeration puts (i, j, 0) at position 2·(i·h + j),
      followed by (i, j, 1). */
  lemma TriangleGridOrder(w: nat, h: nat, i: nat, j: nat)
    requires i < w && j < h
    ensures 2 * (i * h + j) + 1 < |Sweep(w, h, TriangleCell)|
    ensures Sweep(w, h, TriangleCell)[2 * (i * h + j)] == TriangleCoord(i, j, 0)
    ensures Sweep(w, h, TriangleCell)[2 * (i * h + j) + 1] == TriangleCoord(i, j, 1)
  {
    SweepAt(w, h, TriangleCell, i, j);
  }

  lemma {:induction false} TriangleColumnCount(i: nat, h: nat, c: TriangleCoord)
    ensures Occurrences(Column(i, h, TriangleCell), c)
         == if c.q == i && 0 <= c.r < h && (c.side == 0 || c.side == 1) then 1 else 0
    decreases h
  {
    if h > 0 {
      TriangleColumnCount(i, h - 1, c);
      OccurrencesAppend(Column(i, h - 1, TriangleCell), TriangleCell(i, h - 1), c);
      OccurrencesPair(TriangleCoord(i, h - 1, 0), TriangleCoord(i, h - 1, 1), c);
    }
  }

  /** Every triangle of the w x h grid with side 0 or 1 appears exactly
      once, and nothing else appears: no duplicates, nothing out of bounds. */
  lemma {:induction false} TriangleGridExactlyOnce(w: nat, h: nat, c: TriangleCoord)
    ensures Occurrences(Sweep(w, h, TriangleCell), c) == if InTriangleGrid(c, w, h) then 1 else 0
    decreases w
  {
    if w > 0 {
      TriangleGridExactlyOnce(w - 1, h, c);
      TriangleColumnCount(w - 1, h, c);
      OccurrencesAppend(Sweep(w - 1, h, TriangleCell), Column(w - 1, h, TriangleCell), c);
    }
  }

  // ---------------------------------------------------------------------
  // The square grid.

  predicate InSquareGrid(c: SquareCoord, w: nat, h: nat)
  {
    0 <= c.q < w && 0 <= c.r < h
  }

  /** The square enumeration puts (i, j) at both positions 2·(i·h + j)
      and 2·(i·h + j) + 1. */
  lemma SquareGridOrder(w: nat, h: nat, i: nat, j: nat)
    requires i < w && j < h
    ensures 2 * (i * h + j) + 1 < |Sweep(w, h, SquareCell)|
    ensures Sweep(w, h, SquareCell)[2 * (i * h + j)] == SquareCoord(i, j)
    ensures Sweep(w, h, SquareCell)[2 * (i * h + j) + 1] == SquareCoord(i, j)
  {
    SweepAt(w, h, SquareCell, i, j);
  }

  lemma {:induction false} SquareColumnCount(i: nat, h: nat, c: SquareCoord)
    ensures Occurrences(Column(i, h, SquareCell), c) == if c.q == i && 0 <= c.r < h then 2 else 0
    decreases h
  {
    if h > 0 {
      SquareColumnCount(i, h - 1, c);
      OccurrencesAppend(Column(i, h - 1, SquareCell), SquareCell(i, h - 1), c);
      OccurrencesPair(SquareCoord(i, h - 1), SquareCoord(i, h - 1), c);
    }
  }

  /** Every cell of the w x h grid appears exactly twice, and nothing else
      appears. */
  lemma {:induction false} SquareGridExactlyTwice(w: nat, h: nat, c: SquareCoord)
    ensures Occurrences(Sweep(w, h, SquareCell), c) == if InSquareGrid(c, w, h) then 2 else 0
    decreases w
  {
    if w > 0 {
      SquareGridExactlyTwice(w - 1, h, c);
      SquareColumnCount(w - 1, h, c);
      OccurrencesAppend(Sweep(w - 1, h, SquareCell), Column(w - 1, h, SquareCell), c);
    }
  }

  /** The triangle enumeration lists exactly the triangles of the grid. */
  lemma TriangleGridMembership(w: nat, h: nat, c: TriangleCoord)
    ensures c in Sweep(w, h, TriangleCell) <==> InTriangleGrid(c, w, h)
  {
    TriangleGridExactlyOnce(w, h, c);
    OccurrencesMembership(Sweep(w, h, TriangleCell), c);
  }

  /** The square enumeration lists exactly the cells of the grid. */
  lemma SquareGridMembership(w: nat, h: nat, c: SquareCoord)
    ensures c in Sweep(w, h, SquareCell) <==> InSquareGrid(c, w, h)
  {
    SquareGridExactlyTwice(w, h, c);
    OccurrencesMembership(Sweep(w, h, SquareCell), c);
  }
}
