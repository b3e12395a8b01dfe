/** Positions on the maze grid, the lattice of room centres the generator carves
    between, and walks through sets of cells.

    A cell is a column `x` and a row `y`; the generator's grid is indexed
    `[y, x]`, row 0 at the top. */
module Geometry {

  datatype Cell = Cell(x: int, y: int)

  /** Where carving starts; also the cell next to the entrance. */
  const Start := Cell(1, 1)

  /** The entrance on the left border. */
  const Entrance := Cell(0, 1)

  /** The exit on the right border, and the interior cell next to it. */
  function Exit(width: int, height: int): Cell { Cell(width - 1, height - 2) }
  function ExitInner(width: int, height: int): Cell { Cell(width - 2, height - 2) }

  /** The four offsets to the neighbouring room centres, in the order they are
      tried: up, right, down, left. */
  const Directions: seq<Cell> := [Cell(0, -2), Cell(2, 0), Cell(0, 2), Cell(-2, 0)]

  function Offset(c: Cell, d: Cell): Cell { Cell(c.x + d.x, c.y + d.y) }

  /** The index in Directions of the offset that leads from `c` to `n`, or 4
      when `n` is not two cells away from `c` along a row or a column. */
  function DirectionOf(c: Cell, n: Cell): nat
  {
    if n == Cell(c.x, c.y - 2) then 0
    else if n == Cell(c.x + 2, c.y) then 1
    else if n == Cell(c.x, c.y + 2) then 2
    else if n == Cell(c.x - 2, c.y) then 3
    else 4
  }

  /** DirectionOf inverts Offset on Directions. */
  lemma DirectionOfOffset(c: Cell, k: nat)
    requires k < |Directions|
    ensures DirectionOf(c, Offset(c, Directions[k])) == k
  {
  }

  /** `n` is a neighbouring room centre of `c`. */
  predicate IsStep(c: Cell, n: Cell) { DirectionOf(c, n) < 4 }

  /** `a` and `b` share a side. */
  predicate Adjacent(a: Cell, b: Cell)
  {
    (a.x == b.x && (a.y == b.y + 1 || b.y == a.y + 1)) ||
    (a.y == b.y && (a.x == b.x + 1 || b.x == a.x + 1))
  }

  predicate Odd(n: int) { n % 2 == 1 }

  predicate InGrid(width: int, height: int, c: Cell) { 0 <= c.x < width && 0 <= c.y < height }

  /** Inside the border: `[1, width-2] x [1, height-2]`. */
  predicate Interior(width: int, height: int, c: Cell) { 1 <= c.x <= width - 2 && 1 <= c.y <= height - 2 }

  predicate OnBorder(width: int, height: int, c: Cell) { InGrid(width, height, c) && !Interior(width, height, c) }

  /** A room centre: an interior cell whose coordinates are both odd. */
  predicate InLattice(width: int, height: int, c: Cell) { Interior(width, height, c) && Odd(c.x) && Odd(c.y) }

  ghost function Lattice(width: int, height: int): (l: set<Cell>)
    ensures forall c :: c in l <==> InLattice(width, height, c)
  {
    set x, y | 1 <= x <= width - 2 && 1 <= y <= height - 2 && Odd(x) && Odd(y) :: Cell(x, y)
  }

  /** The cells `(x, y)` with `1 <= x <= n` and `x` odd. */
  ghost function RowCentres(n: int, y: int): (r: set<Cell>)
    ensures forall c :: c in r <==> 1 <= c.x <= n && Odd(c.x) && c.y == y
    ensures n >= 0 ==> |r| == (n + 1) / 2
    decreases n
  {
    if n < 1 then {} else if Odd(n) then RowCentres(n - 1, y) + {Cell(n, y)} else RowCentres(n - 1, y)
  }

  /** The cells `(x, y)` with `1 <= x <= n`, `1 <= y <= m` and both odd. */
  ghost function BlockCentres(n: int, m: int): (b: set<Cell>)
    requires n >= 0
    ensures forall c :: c in b <==> 1 <= c.x <= n && 1 <= c.y <= m && Odd(c.x) && Odd(c.y)
    ensures m >= 0 ==> |b| == ((n + 1) / 2) * ((m + 1) / 2)
    decreases m
  {
    if m < 1 then {}
    else if Odd(m) then
      var b := BlockCentres(n, m - 1);
      var r := RowCentres(n, m);
      var k, j := (n + 1) / 2, (m + 1) / 2;
      assert m / 2 == j - 1;
      assert b * r == {};
      MulSucc(k, j - 1);
      b + r
    else
      assert m / 2 == (m + 1) / 2;
      BlockCentres(n, m - 1)
  }

  lemma MulSucc(a: int, b: int)
    ensures a * (b + 1) == a * b + a
  {
  }

  /** A `height x width` grid has `(width-1)/2` room-centre columns and
      `(height-1)/2` room-centre rows. */
  lemma LatticeSize(width: int, height: int)
    requires 2 <= width && 2 <= height
    ensures |Lattice(width, height)| == ((width - 1) / 2) * ((height - 1) / 2)
  {
    assert Lattice(width, height) == BlockCentres(width - 2, height - 2);
  }

  /** The cell knocked out between a room centre and a neighbouring one. The
      source divides with floating point; the difference is always -2, 0 or 2,
      so the quotient is exact. */
  function Midpoint(c: Cell, n: Cell): (m: Cell)
    requires IsStep(c, n)
    ensures 2 * (m.x - c.x) == n.x - c.x && 2 * (m.y - c.y) == n.y - c.y
    ensures Adjacent(c, m) && Adjacent(m, n) && m != c && m != n
  {
    Cell(c.x + (n.x - c.x) / 2, c.y + (n.y - c.y) / 2)
  }

  /** A passage cell has exactly one odd coordinate; it joins the room centres
      on either side of it along its even axis. */
  predicate Mixed(p: Cell) { Odd(p.x) != Odd(p.y) }

  function Before(p: Cell): Cell { if Odd(p.x) then Cell(p.x, p.y - 1) else Cell(p.x - 1, p.y) }
  function After(p: Cell): Cell { if Odd(p.x) then Cell(p.x, p.y + 1) else Cell(p.x + 1, p.y) }

  /** `p` is the wall cell between two room centres. */
  predicate IsPassage(width: int, height: int, p: Cell)
  {
    Mixed(p) && InLattice(width, height, Before(p)) && InLattice(width, height, After(p))
  }

  /** Stepping from a room centre stays on the odd lattice. */
  lemma StepKeepsParity(c: Cell, n: Cell)
    requires Odd(c.x) && Odd(c.y) && IsStep(c, n)
    ensures Odd(n.x) && Odd(n.y)
  {
  }

  /** The midpoint between two neighbouring room centres is a passage, and it
      joins exactly those two centres. */
  lemma MidpointIsPassage(width: int, height: int, c: Cell, n: Cell)
    requires InLattice(width, height, c) && InLattice(width, height, n) && IsStep(c, n)
    ensures IsPassage(width, height, Midpoint(c, n))
    ensures (Before(Midpoint(c, n)) == c && After(Midpoint(c, n)) == n) ||
            (Before(Midpoint(c, n)) == n && After(Midpoint(c, n)) == c)
  {
  }

  /** A passage lies inside the border. */
  lemma PassageIsInterior(width: int, height: int, p: Cell)
    requires IsPassage(width, height, p)
    ensures Interior(width, height, p) && !InLattice(width, height, p)
  {
  }

  // ---------------------------------------------------------------------------
  // Walks

  /** A non-empty sequence of cells, each sharing a side with the next. */
  ghost predicate IsWalk(p: seq<Cell>)
  {
    |p| > 0 && forall i, j :: 0 <= i < j < |p| && j == i + 1 ==> Adjacent(p[i], p[j])
  }

  /** `p` is a walk from `a` to `b` through cells of `s` only. */
  ghost predicate Connects(p: seq<Cell>, s: set<Cell>, a: Cell, b: Cell)
  {
    IsWalk(p) && p[0] == a && p[|p| - 1] == b && forall i :: 0 <= i < |p| ==> p[i] in s
  }

  /** A walk can be extended by a cell next to its far end. */
  lemma {:induction false} ExtendWalk(p: seq<Cell>, s: set<Cell>, a: Cell, b: Cell, c: Cell, t: set<Cell>)
    requires Connects(p, s, a, b) && Adjacent(b, c) && s <= t && c in t
    ensures Connects(p + [c], t, a, c)
  {
    var q := p + [c];
    forall i, j | 0 <= i < j < |q| && j == i + 1 ensures Adjacent(q[i], q[j]) {
      if j < |p| {
        assert q[i] == p[i] && q[j] == p[j];
      }
    }
  }

  /** A walk through `s` is a walk through every superset of `s`. */
  lemma WalkInSuperset(p: seq<Cell>, s: set<Cell>, t: set<Cell>, a: Cell, b: Cell)
    requires Connects(p, s, a, b) && s <= t
    ensures Connects(p, t, a, b)
  {
  }

  // ---------------------------------------------------------------------------
  // Coverage of the lattice

  /** A set of room centres that holds the start and is closed under stepping to
      neighbouring room centres holds every room centre: the lattice is
      connected by steps. */
  lemma {:induction false} ClosedSetCoversLattice(width: int, height: int, s: set<Cell>, c: Cell)
    requires Start in s
    requires forall a, b :: a in s && IsStep(a, b) && InLattice(width, height, b) ==> b in s
    requires InLattice(width, height, c)
    ensures c in s
    decreases c.x + c.y
  {
    if c.x > 1 {
      var a := Cell(c.x - 2, c.y);
      ClosedSetCoversLattice(width, height, s, a);
      assert IsStep(a, c);
    } else if c.y > 1 {
      var a := Cell(c.x, c.y - 2);
      ClosedSetCoversLattice(width, height, s, a);
      assert IsStep(a, c);
    }
  }

  // ---------------------------------------------------------------------------
  // The cell next to the exit

  /** When at least one dimension is odd, the cell next to the exit is a room
      centre (both odd) or shares a side with the room centre above it (only
      `width` odd) or to its left (only `height` odd). */
  function ExitApproach(width: int, height: int): (a: Cell)
    requires 3 <= width && 3 <= height && (Odd(width) || Odd(height))
    ensures InLattice(width, height, a)
    ensures a == ExitInner(width, height) || Adjacent(a, ExitInner(width, height))
  {
    if Odd(width) && Odd(height) then
      assert Odd(width - 2) && Odd(height - 2);
      ExitInner(width, height)
    else if Odd(width) then
      assert Odd(width - 2) && Odd(height - 3) && height >= 4;
      Cell(width - 2, height - 3)
    else
      assert Odd(width - 3) && Odd(height - 2) && width >= 4;
      Cell(width - 3, height - 2)
  }

  // ---------------------------------------------------------------------------
  // The exit when both dimensions are even

  /** With both dimensions even, `width-2` and `height-2` are even, so no room
      centre lies in the last interior column or row. */
  lemma LatticeInsideWhenEven(width: int, height: int, c: Cell)
    requires !Odd(width) && !Odd(height) && InLattice(width, height, c)
    ensures 1 <= c.x <= width - 3 && 1 <= c.y <= height - 3
  {
    assert c.x != width - 2 && c.y != height - 2;
  }

  /** When `width` and `height` are both even, the last lattice column is
      `width-3` and the last lattice row `height-3`. If every cell of `s` other
      than the entrance, the exit and the cell next to the exit lies in
      `[1, width-3] x [1, height-3]`, no walk through `s` that starts at the
      start cell ever reaches the exit or the cell next to it. */
  lemma {:induction false} ExitCutOff(width: int, height: int, s: set<Cell>, p: seq<Cell>)
    requires !Odd(width) && !Odd(height) && width >= 4 && height >= 4
    requires forall c :: c in s ==>
      c == Entrance || c == Exit(width, height) || c == ExitInner(width, height) ||
      (1 <= c.x <= width - 3 && 1 <= c.y <= height - 3)
    requires |p| > 0 && Connects(p, s, Start, p[|p| - 1])
    ensures forall i :: 0 <= i < |p| ==> p[i] != Exit(width, height) && p[i] != ExitInner(width, height)
    decreases |p|
  {
    if |p| > 1 {
      var q := p[..|p| - 1];
      assert |q| > 0 && Connects(q, s, Start, q[|q| - 1]) by {
        forall i, j | 0 <= i < j < |q| && j == i + 1 ensures Adjacent(q[i], q[j]) {
          assert q[i] == p[i] && q[j] == p[j];
        }
      }
      ExitCutOff(width, height, s, q);
      var k := |p| - 1;
      assert Adjacent(p[k - 1], p[k]);
      assert p[k - 1] == q[k - 1];
    }
  }
}
