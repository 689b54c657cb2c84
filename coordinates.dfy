// Integer coordinate algebra of the three tile shapes: square, hexagon
// (axial) and triangle. The source's `i32` fields are modelled as
// mathematical integers and its `u32` distances as `nat`.

/** Absolute value and maximum, shared by the three distance formulas. */
module IntMath {

  function Abs(x: int): (r: nat)
    ensures r == x || r == -x
  {
    if x < 0 then -x else x
  }

  /** Integer halving of a non-negative number, rounding down; the lemma
      below shows it is `n / 2`. It is written by recursion so that proofs
      about its callers see only its linear contract. */
  function Halve(n: nat): (h: nat)
    ensures 2 * h <= n < 2 * h + 2
  {
    if n < 2 then 0 else Halve(n - 2) + 1
  }

  lemma {:induction false} HalveIsDivision(n: nat)
    ensures Halve(n) == n / 2
    decreases n
  {
    if n >= 2 {
      HalveIsDivision(n - 2);
      assert (n - 2) / 2 + 1 == n / 2;
    }
  }

  function Max(a: int, b: int): (m: int)
    ensures m >= a && m >= b && (m == a || m == b)
  {
    if a < b then b else a
  }

  /** Sums of three absolute values agree when the terms agree up to sign. */
  lemma AbsSumUpToSign(x: int, y: int, z: int, x': int, y': int, z': int)
    requires x' == x || x' == -x
    requires y' == y || y' == -y
    requires z' == z || z' == -z
    ensures Abs(x') + Abs(y') + Abs(z') == Abs(x) + Abs(y) + Abs(z)
  {
  }

  /** Half a sum of three absolute values is zero only when all three are. */
  lemma HalfSumZero(h: int, x: int, y: int, z: int)
    requires 2 * h == Abs(x) + Abs(y) + Abs(z)
    ensures h == 0 <==> x == 0 && y == 0 && z == 0
  {
  }

  /** Halves of sums of three absolute values obey the triangle
      inequality when the terms add up component by component. */
  lemma HalfSumTriangle(h1: int, x1: int, y1: int, z1: int,
                        h2: int, x2: int, y2: int, z2: int,
                        h3: int, x3: int, y3: int, z3: int)
    requires 2 * h1 == Abs(x1) + Abs(y1) + Abs(z1)
    requires 2 * h2 == Abs(x2) + Abs(y2) + Abs(z2)
    requires 2 * h3 == Abs(x3) + Abs(y3) + Abs(z3)
    requires x3 == x1 + x2 && y3 == y1 + y2 && z3 == z1 + z2
    ensures h3 <= h1 + h2
  {
    AbsAdd(x1, x2, x3);
    AbsAdd(y1, y2, y3);
    AbsAdd(z1, z2, z3);
  }

  /** The triangle inequality for 2·(|x| + |y|) + |z|. */
  lemma WeightedSumTriangle(x1: int, y1: int, z1: int, x2: int, y2: int, z2: int,
                            x3: int, y3: int, z3: int)
    requires x3 == x1 + x2 && y3 == y1 + y2 && z3 == z1 + z2
    ensures (Abs(x3) + Abs(y3)) * 2 + Abs(z3)
         <= (Abs(x1) + Abs(y1)) * 2 + Abs(z1) + ((Abs(x2) + Abs(y2)) * 2 + Abs(z2))
  {
    AbsAdd(x1, x2, x3);
    AbsAdd(y1, y2, y3);
    AbsAdd(z1, z2, z3);
  }

  /** |x + y| <= |x| + |y|. */
  lemma AbsAdd(x: int, y: int, sum: int)
    requires sum == x + y
    ensures Abs(sum) <= Abs(x) + Abs(y)
  {
  }

  /** (x + y) * z == x * z + y * z, with the factor on either side. */
  lemma Distribute(x: int, y: int, z: int)
    ensures x * z + y * z == z * (x + y)
  {
  }

  /** (-x - y) * k == -(x * k) - (y * k). */
  lemma NegateDistribute(x: int, y: int, k: int)
    ensures (-x - y) * k == -(x * k) - (y * k)
  {
  }

  /** |k * x| == |k| * |x|. */
  lemma AbsMul(k: int, x: int)
    ensures Abs(k * x) == Abs(k) * Abs(x)
  {
    if k < 0 && x >= 0 {
      assert k * x == -((-k) * x);
    } else if k >= 0 && x < 0 {
      assert k * x == -(k * (-x));
    } else if k < 0 && x < 0 {
      assert k * x == (-k) * (-x);
    }
  }
}

/** `SquareCoord` and its `Coords` implementation. */
module SquareCoords {
  import opened IntMath

  /** A square cell: column `q`, row `r`. */
  datatype SquareCoord = SquareCoord(q: int, r: int)

  /** `Coords::ZERO`, the origin. */
  const Zero: SquareCoord := SquareCoord(0, 0)

  /** `PartialEq::eq`, field by field. */
  function Eq(a: SquareCoord, b: SquareCoord): (e: bool)
    ensures e <==> a == b
  {
    a.q == b.q && a.r == b.r
  }

  function Add(a: SquareCoord, b: SquareCoord): SquareCoord
  {
    SquareCoord(a.q + b.q, a.r + b.r)
  }

  function Sub(a: SquareCoord, b: SquareCoord): SquareCoord
  {
    SquareCoord(a.q - b.q, a.r - b.r)
  }

  function ScalarMultiply(a: SquareCoord, scalar: int): SquareCoord
  {
    SquareCoord(a.q * scalar, a.r * scalar)
  }

  /** `distance(self, other)`: the source subtracts `self` from `other`
      and sums the absolute components. */
  function Distance(a: SquareCoord, other: SquareCoord): nat
  {
    var dist := Sub(other, a);
    Abs(dist.q) + Abs(dist.r)
  }

  /** The trait's default `magnitude`: distance to `ZERO`. */
  function Magnitude(a: SquareCoord): (m: nat)
    ensures m == Abs(a.q) + Abs(a.r)
  {
    Distance(a, Zero)
  }

  /** The distance is the Manhattan distance |dq| + |dr|. */
  lemma DistanceIsManhattan(a: SquareCoord, b: SquareCoord)
    ensures Distance(a, b) == Abs(a.q - b.q) + Abs(a.r - b.r)
  {
  }

  lemma DistanceExample()
    ensures Distance(Zero, SquareCoord(3, -2)) == 5
  {
  }

  lemma DistanceSymmetric(a: SquareCoord, b: SquareCoord)
    ensures Distance(a, b) == Distance(b, a)
  {
  }

  /** Identity of indiscernibles, against the source's own `eq`. */
  lemma DistanceZeroIffEqual(a: SquareCoord, b: SquareCoord)
    ensures Distance(a, b) == 0 <==> Eq(a, b)
  {
  }

  lemma DistanceTriangleInequality(a: SquareCoord, b: SquareCoord, c: SquareCoord)
    ensures Distance(a, c) <= Distance(a, b) + Distance(b, c)
  {
    AbsAdd(b.q - a.q, c.q - b.q, c.q - a.q);
    AbsAdd(b.r - a.r, c.r - b.r, c.r - a.r);
  }

  /** `magnitude(a) == distance(a, ZERO)`, and only the origin has magnitude 0. */
  lemma MagnitudeZeroIffOrigin(a: SquareCoord)
    ensures Magnitude(a) == Distance(a, Zero)
    ensures Magnitude(a) == 0 <==> a == Zero
  {
  }

  /** The distance from `a` to `b` is the magnitude of `b - a`, and it does
      not change when both are moved by the same vector. */
  lemma DistanceTranslationInvariant(a: SquareCoord, b: SquareCoord, t: SquareCoord)
    ensures Distance(a, b) == Magnitude(Sub(b, a))
    ensures Distance(Add(a, t), Add(b, t)) == Distance(a, b)
  {
  }

  /** Subtraction undoes addition for a fixed right operand (both ways),
      and both act on each field independently. */
  lemma AddSubInverse(a: SquareCoord, b: SquareCoord)
    ensures Sub(Add(a, b), b) == a
    ensures Add(Sub(a, b), b) == a
    ensures Add(a, b).q == a.q + b.q && Add(a, b).r == a.r + b.r
    ensures Sub(a, b).q == a.q - b.q && Sub(a, b).r == a.r - b.r
  {
  }

  /** `scalar_multiply` by 0, 1 and 2. */
  lemma ScalarMultiplySmall(a: SquareCoord)
    ensures ScalarMultiply(a, 0) == Zero
    ensures ScalarMultiply(a, 1) == a
    ensures ScalarMultiply(a, 2) == Add(a, a)
  {
  }

  /** `scalar_multiply` distributes over `add` in both arguments. */
  lemma ScalarMultiplyLinear(a: SquareCoord, b: SquareCoord, m: int, n: int)
    ensures ScalarMultiply(a, m + n) == Add(ScalarMultiply(a, m), ScalarMultiply(a, n))
    ensures ScalarMultiply(Add(a, b), m) == Add(ScalarMultiply(a, m), ScalarMultiply(b, m))
  {
    assert a.q * (m + n) == a.q * m + a.q * n;
    assert a.r * (m + n) == a.r * m + a.r * n;
    assert (a.q + b.q) * m == a.q * m + b.q * m;
    assert (a.r + b.r) * m == a.r * m + b.r * m;
  }

  /** Scaling a coordinate by k scales its magnitude by |k|. */
  lemma MagnitudeHomogeneous(a: SquareCoord, k: int)
    ensures Magnitude(ScalarMultiply(a, k)) == Abs(k) * Magnitude(a)
  {
    var b := ScalarMultiply(a, k);
    assert b.q == a.q * k && b.r == a.r * k;
    AbsMul(a.q, k);
    AbsMul(a.r, k);
    assert Magnitude(b) == Abs(a.q) * Abs(k) + Abs(a.r) * Abs(k);
    Distribute(Abs(a.q), Abs(a.r), Abs(k));
  }
}

/** `HexCoord` in axial coordinates and its `Coords` implementation. */
module HexCoords {
  import opened IntMath

  /** A hexagon in axial coordinates; the third cube coordinate is derived. */
  datatype HexCoord = HexCoord(q: int, r: int)

  /** The cube coordinate `s = -q - r`, never stored. */
  function S(a: HexCoord): int
  {
    -a.q - a.r
  }

  const Zero: HexCoord := HexCoord(0, 0)

  function Eq(a: HexCoord, b: HexCoord): (e: bool)
    ensures e <==> a == b
  {
    a.q == b.q && a.r == b.r
  }

  function Add(a: HexCoord, b: HexCoord): HexCoord
  {
    HexCoord(a.q + b.q, a.r + b.r)
  }

  function Sub(a: HexCoord, b: HexCoord): HexCoord
  {
    HexCoord(a.q - b.q, a.r - b.r)
  }

  function ScalarMultiply(a: HexCoord, scalar: int): HexCoord
  {
    HexCoord(a.q * scalar, a.r * scalar)
  }

  /** Cube distance: half the sum of the three absolute cube deltas. The
      halving is exact: the sum is always even because the deltas add up
      to zero. */
  function Distance(a: HexCoord, other: HexCoord): (d: nat)
    ensures 2 * d == Abs(other.q - a.q) + Abs(other.r - a.r) + Abs(S(other) - S(a))
  {
    var s := S(a);
    var otherS := S(other);
    var dist := Sub(other, a);
    Halve(Abs(dist.q) + Abs(dist.r) + Abs(otherS - s))
  }

  function Magnitude(a: HexCoord): (m: nat)
    ensures 2 * m == Abs(a.q) + Abs(a.r) + Abs(S(a))
  {
    AbsSumUpToSign(a.q, a.r, S(a), Zero.q - a.q, Zero.r - a.r, S(Zero) - S(a));
    Distance(a, Zero)
  }

  /** The magnitude is the largest absolute cube coordinate. */
  lemma MagnitudeIsMax(a: HexCoord)
    ensures Magnitude(a) == Max(Max(Abs(a.q), Abs(a.r)), Abs(S(a)))
  {
    HalfSumIsMax(a.q, a.r, S(a));
  }

  /** Three integers adding up to zero: the sum of their absolute values is
      twice the largest of them. */
  lemma HalfSumIsMax(x: int, y: int, z: int)
    requires x + y + z == 0
    ensures Abs(x) + Abs(y) + Abs(z) == 2 * Max(Max(Abs(x), Abs(y)), Abs(z))
  {
    if x >= 0 && y >= 0 {
      assert Abs(z) == x + y;
    } else if x < 0 && y < 0 {
      assert Abs(z) == -x - y;
    } else if x >= 0 {
      if z >= 0 { assert Abs(y) == x + z; } else { assert Abs(x) == -y - z; }
    } else {
      if z >= 0 { assert Abs(x) == y + z; } else { assert Abs(y) == -x - z; }
    }
  }

  /** The cube distance is the largest of the three absolute cube deltas. */
  lemma DistanceIsMaxDelta(a: HexCoord, b: HexCoord)
    ensures Distance(a, b) == Max(Max(Abs(b.q - a.q), Abs(b.r - a.r)), Abs(S(b) - S(a)))
  {
    HalfSumIsMax(b.q - a.q, b.r - a.r, S(b) - S(a));
  }

  lemma DistanceSymmetric(a: HexCoord, b: HexCoord)
    ensures Distance(a, b) == Distance(b, a)
  {
  }

  lemma DistanceZeroIffEqual(a: HexCoord, b: HexCoord)
    ensures Distance(a, b) == 0 <==> Eq(a, b)
  {
  }

  lemma DistanceTriangleInequality(a: HexCoord, b: HexCoord, c: HexCoord)
    ensures Distance(a, c) <= Distance(a, b) + Distance(b, c)
  {
    HalfSumTriangle(Distance(a, b), b.q - a.q, b.r - a.r, S(b) - S(a),
                    Distance(b, c), c.q - b.q, c.r - b.r, S(c) - S(b),
                    Distance(a, c), c.q - a.q, c.r - a.r, S(c) - S(a));
  }

  /** `magnitude` is the distance from the origin. */
  lemma MagnitudeIsDistanceFromOrigin(a: HexCoord)
    ensures Magnitude(a) == Distance(a, Zero)
  {
  }

  lemma MagnitudeZeroIffOrigin(a: HexCoord)
    ensures Magnitude(a) == 0 <==> a.q == 0 && a.r == 0
  {
    var m, s := Magnitude(a), S(a);
    assert 2 * m == Abs(a.q) + Abs(a.r) + Abs(s);
    HalfSumZero(m, a.q, a.r, s);
    assert s == 0 <== a.q == 0 && a.r == 0;
  }

  /** The distance from `a` to `b` is the magnitude of `b - a`. */
  lemma DistanceIsMagnitudeOfDifference(a: HexCoord, b: HexCoord)
    ensures Distance(a, b) == Magnitude(Sub(b, a))
  {
    var d := Sub(b, a);
    AbsSumUpToSign(d.q, d.r, S(d), b.q - a.q, b.r - a.r, S(b) - S(a));
  }

  /** Moving both coordinates by the same vector keeps their distance. */
  lemma DistanceTranslationInvariant(a: HexCoord, b: HexCoord, t: HexCoord)
    ensures Distance(Add(a, t), Add(b, t)) == Distance(a, b)
  {
    var a', b' := Add(a, t), Add(b, t);
    AbsSumUpToSign(b.q - a.q, b.r - a.r, S(b) - S(a), b'.q - a'.q, b'.r - a'.r, S(b') - S(a'));
  }

  lemma AddSubInverse(a: HexCoord, b: HexCoord)
    ensures Sub(Add(a, b), b) == a
    ensures Add(Sub(a, b), b) == a
    ensures Add(a, b).q == a.q + b.q && Add(a, b).r == a.r + b.r
    ensures Sub(a, b).q == a.q - b.q && Sub(a, b).r == a.r - b.r
    ensures S(Add(a, b)) == S(a) + S(b)
  {
  }

  lemma ScalarMultiplySmall(a: HexCoord)
    ensures ScalarMultiply(a, 0) == Zero
    ensures ScalarMultiply(a, 1) == a
    ensures ScalarMultiply(a, 2) == Add(a, a)
  {
  }

  lemma ScalarMultiplyLinear(a: HexCoord, b: HexCoord, m: int, n: int)
    ensures ScalarMultiply(a, m + n) == Add(ScalarMultiply(a, m), ScalarMultiply(a, n))
    ensures ScalarMultiply(Add(a, b), m) == Add(ScalarMultiply(a, m), ScalarMultiply(b, m))
  {
    assert a.q * (m + n) == a.q * m + a.q * n;
    assert a.r * (m + n) == a.r * m + a.r * n;
    assert (a.q + b.q) * m == a.q * m + b.q * m;
    assert (a.r + b.r) * m == a.r * m + b.r * m;
  }

  lemma MagnitudeHomogeneous(a: HexCoord, k: int)
    ensures Magnitude(ScalarMultiply(a, k)) == Abs(k) * Magnitude(a)
  {
    var b := ScalarMultiply(a, k);
    var x, y, z, m := Abs(a.q), Abs(a.r), Abs(S(a)), Abs(k);
    var ma, mb := Magnitude(a), Magnitude(b);
    assert Abs(b.q) == x * m by { AbsMul(a.q, k); }
    assert Abs(b.r) == y * m by { AbsMul(a.r, k); }
    assert Abs(S(b)) == z * m by {
      ScaleS(a, k);
      AbsMul(S(a), k);
    }
    ScaleHalfSum(x, y, z, m, ma);
  }

  /** The derived coordinate scales with the stored ones. */
  lemma ScaleS(a: HexCoord, k: int)
    ensures S(ScalarMultiply(a, k)) == S(a) * k
  {
    NegateDistribute(a.q, a.r, k);
  }

  /** Arithmetic step of `MagnitudeHomogeneous`. */
  lemma ScaleHalfSum(x: int, y: int, z: int, m: int, h: int)
    requires x + y + z == 2 * h
    ensures x * m + y * m + z * m == 2 * (m * h)
  {
    calc {
      x * m + y * m + z * m;
      (x + y + z) * m;
      (2 * h) * m;
      2 * (m * h);
    }
  }

  /** The offset table of `neighbours`, in its cyclic order. */
  const Offsets: seq<(int, int)> := [(1, 0), (1, -1), (0, -1), (-1, 0), (-1, 1), (0, 1)]

  /** The six neighbours of `c`, written out as a reference for `Neighbours`. */
  function NeighbourList(c: HexCoord): seq<HexCoord>
  {
    [HexCoord(c.q + 1, c.r), HexCoord(c.q + 1, c.r - 1), HexCoord(c.q, c.r - 1),
     HexCoord(c.q - 1, c.r), HexCoord(c.q - 1, c.r + 1), HexCoord(c.q, c.r + 1)]
  }

  /** `neighbours`: push `self + offset` for each offset of the table. */
  method Neighbours(c: HexCoord) returns (n: seq<HexCoord>)
    ensures n == NeighbourList(c)
  {
    n := [];
    for i := 0 to |Offsets|
      invariant n == NeighbourList(c)[..i]
    {
      var (dq, dr) := Offsets[i];
      n := n + [HexCoord(c.q + dq, c.r + dr)];
    }
  }

  /** There are exactly six neighbours, each at distance 1, pairwise distinct. */
  lemma NeighboursAtUnitDistance(c: HexCoord)
    ensures |NeighbourList(c)| == 6
    ensures forall k :: 0 <= k < 6 ==> Distance(c, NeighbourList(c)[k]) == 1
    ensures forall j, k :: 0 <= j < k < 6 ==> NeighbourList(c)[j] != NeighbourList(c)[k]
  {
  }

  /** The list holds every coordinate at distance 1 and nothing else. */
  lemma NeighboursComplete(c: HexCoord, x: HexCoord)
    ensures x in NeighbourList(c) <==> Distance(c, x) == 1
  {
    var n := NeighbourList(c);
    if Distance(c, x) == 1 {
      var dq, dr := x.q - c.q, x.r - c.r;
      assert Abs(dq) + Abs(dr) + Abs(dq + dr) == 2;
      if dq == 1 {
        assert dr == 0 || dr == -1;
        assert x == n[0] || x == n[1];
      } else if dq == 0 {
        assert dr == -1 || dr == 1;
        assert x == n[2] || x == n[5];
      } else {
        assert dq == -1 && (dr == 0 || dr == 1);
        assert x == n[3] || x == n[4];
      }
    }
  }

  /** How far apart entries `j` and `k` of a six-entry ring are when the
      ring is walked in either direction. */
  function RingGap(j: int, k: int): (g: nat)
    ensures g <= 3
  {
    var d := (k - j) % 6;
    if d <= 3 then d else 6 - d
  }

  /** The list is in cyclic order: entries next to each other in the ring
      (the last next to the first) are adjacent hexagons, and entries two or
      three steps apart are at distance 2. */
  lemma NeighboursCyclicOrder(c: HexCoord)
    ensures forall j, k :: 0 <= j < 6 && 0 <= k < 6 ==>
      Distance(NeighbourList(c)[j], NeighbourList(c)[k]) == if RingGap(j, k) <= 1 then RingGap(j, k) else 2
  {
  }

  /** The neighbours of the origin are the offset table itself, in order. */
  lemma NeighboursOfOrigin()
    ensures NeighbourList(Zero) == [HexCoord(1, 0), HexCoord(1, -1), HexCoord(0, -1),
                                    HexCoord(-1, 0), HexCoord(-1, 1), HexCoord(0, 1)]
  {
  }
}

/** `TriangleCoord` and the parts of its `Coords` implementation that the
    source defines: `ZERO`, `distance`, `magnitude` and `eq`. */
module TriangleCoords {
  import opened IntMath

  /** A triangle: cell `(q, r)` and `side` (an `i8`; 0 or 1 in every
      coordinate the grid enumerator produces). */
  datatype TriangleCoord = TriangleCoord(q: int, r: int, side: int)

  const Zero: TriangleCoord := TriangleCoord(0, 0, 0)

  function Eq(a: TriangleCoord, b: TriangleCoord): (e: bool)
    ensures e <==> a == b
  {
    a.q == b.q && a.r == b.r && a.side == b.side
  }

  /** The component-wise difference `other - self` that `distance` needs
      (the source's own `Sub` for triangles is unfinished). */
  function Delta(other: TriangleCoord, a: TriangleCoord): TriangleCoord
  {
    TriangleCoord(other.q - a.q, other.r - a.r, other.side - a.side)
  }

  /** `distance`: two per step in `q` or `r`, plus the side difference. */
  function Distance(a: TriangleCoord, other: TriangleCoord): nat
  {
    var dist := Delta(other, a);
    (Abs(dist.q) + Abs(dist.r)) * 2 + Abs(dist.side)
  }

  function Magnitude(a: TriangleCoord): (m: nat)
    ensures m == 2 * (Abs(a.q) + Abs(a.r)) + Abs(a.side)
  {
    Distance(a, Zero)
  }

  lemma DistanceSymmetric(a: TriangleCoord, b: TriangleCoord)
    ensures Distance(a, b) == Distance(b, a)
  {
  }

  lemma DistanceZeroIffEqual(a: TriangleCoord, b: TriangleCoord)
    ensures Distance(a, b) == 0 <==> Eq(a, b)
  {
  }

  lemma DistanceTriangleInequality(a: TriangleCoord, b: TriangleCoord, c: TriangleCoord)
    ensures Distance(a, c) <= Distance(a, b) + Distance(b, c)
  {
    var ab, bc, ac := Delta(b, a), Delta(c, b), Delta(c, a);
    WeightedSumTriangle(ab.q, ab.r, ab.side, bc.q, bc.r, bc.side, ac.q, ac.r, ac.side);
  }

  lemma MagnitudeZeroIffOrigin(a: TriangleCoord)
    ensures Magnitude(a) == Distance(a, Zero)
    ensures Magnitude(a) == 0 <==> a == Zero
  {
  }

  /** For sides 0 and 1 the side term is a 0/1 penalty, so the distance is
      odd exactly when the two triangles have different sides. */
  lemma DistanceParityIsSide(a: TriangleCoord, b: TriangleCoord)
    requires a.side == 0 || a.side == 1
    requires b.side == 0 || b.side == 1
    ensures Distance(a, b) % 2 == (if a.side == b.side then 0 else 1)
    ensures Distance(a, b) / 2 == Abs(b.q - a.q) + Abs(b.r - a.r)
  {
  }
}
