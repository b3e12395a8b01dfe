/** The maze generator: randomized depth-first backtracking over the lattice of
    odd-coordinate room centres of a `height x width` grid of walls. */
module Mazes {
  import opened Geometry
  import opened Carving

  /** Cell values, as the generator stores them. */
  const Wall := 1
  const Path := 0

  /** `c` lies on `g` and is open. */
  ghost predicate IsOpen(g: array2<int>, c: Cell)
    reads g
  {
    0 <= c.y < g.Length0 && 0 <= c.x < g.Length1 && g[c.y, c.x] == Path
  }

  /** `c` lies on `g` and is a wall. */
  ghost predicate IsWallAt(g: array2<int>, c: Cell)
    reads g
  {
    0 <= c.y < g.Length0 && 0 <= c.x < g.Length1 && g[c.y, c.x] == Wall
  }

  /** `g` has `height` rows of `width` cells, each a wall or open. */
  ghost predicate IsMazeGrid(g: array2<int>, width: int, height: int)
    reads g
  {
    g.Length0 == height && g.Length1 == width &&
    forall y, x :: 0 <= y < height && 0 <= x < width ==> g[y, x] == Wall || g[y, x] == Path
  }

  /** `p` is a walk through open cells of `g` from the start cell. */
  ghost predicate IsOpenWalkFromStart(g: array2<int>, p: seq<Cell>)
    reads g
  {
    IsWalk(p) && p[0] == Start && forall i :: 0 <= i < |p| ==> IsOpen(g, p[i])
  }

  class MazeGenerator {
    const width: int
    const height: int
    var maze: array2<int>

    constructor (width: int, height: int)
      ensures this.width == width && this.height == height
      ensures maze.Length0 == 0 && maze.Length1 == 0
    {
      this.width := width;
      this.height := height;
      maze := new int[0, 0];
    }

    /** The room centres two cells up, right, down and left of `(x, y)`, in that
        order, that lie inside the border and are still walls. */
    method GetUnvisitedNeighbors(x: int, y: int) returns (neighbors: seq<Cell>)
      requires maze.Length0 == height && maze.Length1 == width
      ensures |neighbors| <= |Directions|
      ensures forall n :: n in neighbors ==>
        IsStep(Cell(x, y), n) && Interior(width, height, n) && IsWallAt(maze, n)
      ensures forall n :: IsStep(Cell(x, y), n) && Interior(width, height, n) && IsWallAt(maze, n) ==>
        n in neighbors
      ensures forall i, j :: 0 <= i < j < |neighbors| ==>
        DirectionOf(Cell(x, y), neighbors[i]) < DirectionOf(Cell(x, y), neighbors[j])
    {
      neighbors := [];
      for k := 0 to |Directions|
        invariant |neighbors| <= k
        invariant forall n :: n in neighbors ==>
          DirectionOf(Cell(x, y), n) < k && Interior(width, height, n) && IsWallAt(maze, n)
        invariant forall n :: DirectionOf(Cell(x, y), n) < k && Interior(width, height, n) && IsWallAt(maze, n) ==>
          n in neighbors
        invariant forall i, j :: 0 <= i < j < |neighbors| ==>
          DirectionOf(Cell(x, y), neighbors[i]) < DirectionOf(Cell(x, y), neighbors[j])
      {
        var dir := Directions[k];
        var newX := x + dir.x;
        var newY := y + dir.y;
        DirectionOfOffset(Cell(x, y), k);
        if newX >= 1 && newX < width - 1 &&
           newY >= 1 && newY < height - 1 &&
           maze[newY, newX] == Wall
        {
          neighbors := neighbors + [Cell(newX, newY)];
        }
      }
    }

    /** A fresh `height x width` grid of walls. */
    method FillWithWalls()
      requires 0 <= width && 0 <= height
      modifies this
      ensures fresh(maze) && maze.Length0 == height && maze.Length1 == width
      ensures forall y, x :: 0 <= y < height && 0 <= x < width ==> maze[y, x] == Wall
    {
      var grid := new int[height, width];
      for y := 0 to height
        invariant forall i, j :: 0 <= i < y && 0 <= j < width ==> grid[i, j] == Wall
      {
        for x := 0 to width
          invariant forall i, j :: 0 <= i < y && 0 <= j < width ==> grid[i, j] == Wall
          invariant forall j :: 0 <= j < x ==> grid[y, j] == Wall
        {
          grid[y, x] := Wall;
        }
      }
      maze := grid;
    }

    /** `maze` is `height x width`, holds only walls and open cells, and the
        open cells are exactly `carved`. */
    ghost predicate Shows(carved: set<Cell>)
      reads this, maze
    {
      maze.Length0 == height && maze.Length1 == width &&
      (forall c :: c in carved ==> InGrid(width, height, c)) &&
      forall y, x :: 0 <= y < height && 0 <= x < width ==>
        (maze[y, x] == Wall || maze[y, x] == Path) &&
        (maze[y, x] == Path <==> Cell(x, y) in carved)
    }

    /** Opens the cell `c` of the grid, whether it was open or not, and changes
        nothing else. */
    method Open(c: Cell, ghost carved: set<Cell>)
      requires Shows(carved) && InGrid(width, height, c)
      modifies maze
      ensures Shows(carved + {c})
      ensures forall y, x :: 0 <= y < height && 0 <= x < width ==>
        maze[y, x] == if Cell(x, y) == c then Path else old(maze[y, x])
    {
      maze[c.y, c.x] := Path;
    }

    /** One carving step: opens the room centre `next` and the wall cell between
        it and `current`, both of them walls until now, and changes nothing
        else. */
    method CarveStep(current: Cell, next: Cell, ghost carved: set<Cell>)
      requires IsStep(current, next)
      requires Interior(width, height, next) && Interior(width, height, Midpoint(current, next))
      requires Shows(carved) && next !in carved && Midpoint(current, next) !in carved
      modifies maze
      ensures Shows(carved + {Midpoint(current, next), next})
      ensures old(IsWallAt(maze, next)) && old(IsWallAt(maze, Midpoint(current, next)))
      ensures forall y, x :: 0 <= y < height && 0 <= x < width ==>
        maze[y, x] == if Cell(x, y) == next || Cell(x, y) == Midpoint(current, next) then Path else old(maze[y, x])
    {
      var wallX := current.x + (next.x - current.x) / 2;
      var wallY := current.y + (next.y - current.y) / 2;
      maze[next.y, next.x] := Path;
      maze[wallY, wallX] := Path;
    }

    /** A wall is not among the cells `maze` shows open. */
    lemma WallIsNotCarved(carved: set<Cell>, n: Cell)
      requires Shows(carved) && IsWallAt(maze, n)
      ensures n !in carved
    {
    }

    /** When GetUnvisitedNeighbors finds nothing around `c`, every neighbouring
        room centre inside the border is open. */
    lemma NoWallNeighbourIsCarved(carved: set<Cell>, c: Cell, neighbors: seq<Cell>)
      requires Shows(carved) && neighbors == []
      requires forall n :: IsStep(c, n) && Interior(width, height, n) && IsWallAt(maze, n) ==> n in neighbors
      ensures forall b :: IsStep(c, b) && InLattice(width, height, b) ==> b in carved
    {
      forall b | IsStep(c, b) && InLattice(width, height, b) ensures b in carved {
        assert !IsWallAt(maze, b);
      }
    }

    /** The carving loop. Starting from an all-wall grid it opens every room
        centre and, between them, `draws` passages that join each newly reached
        centre to the one it was reached from. `rand(k)` is the `k`-th random
        draw; it picks neighbour `rand(k) % |neighbors|`.

        `visited` are the open room centres, `passages` the open cells between
        them, and `route` gives a walk from the start through open cells to
        every open cell. */
    method CarvePassages(rand: nat -> nat)
      returns (draws: nat, ghost visited: set<Cell>, ghost passages: set<Cell>, ghost route: map<Cell, seq<Cell>>)
      requires 3 <= width && 3 <= height
      requires maze.Length0 == height && maze.Length1 == width
      requires forall y, x :: 0 <= y < height && 0 <= x < width ==> maze[y, x] == Wall
      modifies maze
      ensures visited == Lattice(width, height)
      ensures TreeShape(width, height, visited, passages, draws)
      ensures Shows(visited + passages)
      ensures Routed(route, visited + passages)
    {
      var stack := [Start];
      maze[Start.y, Start.x] := Path;
      visited, passages := {Start}, {};
      ghost var carved := {Start};
      route := map[Start := [Start]];
      draws := 0;
      Initial(width, height);
      while |stack| > 0
        invariant carved == visited + passages
        invariant Shows(carved)
        invariant Invariant(width, height, stack, visited, passages, route, draws)
        decreases |Lattice(width, height) - visited|, |stack|
      {
        var current := stack[|stack| - 1];
        var neighbors := GetUnvisitedNeighbors(current.x, current.y);
        if |neighbors| > 0 {
          var next := neighbors[rand(draws) % |neighbors|];
          ghost var mid := Midpoint(current, next);
          WallIsNotCarved(carved, next);
          PushKeepsInvariant(width, height, stack, visited, passages, route, draws, next);
          CarveStep(current, next, carved);
          stack := stack + [next];
          draws := draws + 1;
          visited, passages := visited + {next}, passages + {mid};
          route := route[mid := route[current] + [mid]][next := route[current] + [mid, next]];
          carved := carved + {mid, next};
        } else {
          NoWallNeighbourIsCarved(carved, current, neighbors);
          PopKeepsWhole(width, height, stack, visited, passages, route, draws);
          stack := stack[..|stack| - 1];
        }
      }
      EmptyStackCoversLattice(width, height, visited, passages, draws);
    }
  
    /** When the open cells inside the border are all that `open` holds besides
        the entrance and the exit, those two are the only open border cells. */
    lemma BorderOpenings(open: set<Cell>)
      requires Shows(open) && Entrance in open && Exit(width, height) in open
      requires forall c :: c in open ==> c == Entrance || c == Exit(width, height) || Interior(width, height, c)
      ensures forall c :: OnBorder(width, height, c) ==>
        (IsOpen(maze, c) <==> c == Entrance || c == Exit(width, height))
    {
    }

    /** Every carved cell, reached from the start by a walk through carved
        cells, is reached by a walk through open cells of `maze` once `maze`
        shows a superset of the carved cells as open. */
    lemma CarvedReachable(open: set<Cell>, carved: set<Cell>, route: map<Cell, seq<Cell>>)
      requires Shows(open) && carved <= open && Routed(route, carved)
      ensures forall c :: c in carved ==> exists p :: IsOpenWalkFromStart(maze, p) && p[|p| - 1] == c
    {
      forall c | c in carved ensures exists p :: IsOpenWalkFromStart(maze, p) && p[|p| - 1] == c {
        assert IsOpenWalkFromStart(maze, route[c]);
      }
    }

    /** If every cell of `open` can be reached from the start through `open`,
        and `open` is what `maze` shows, every open cell of `maze` can be
        reached from the start through open cells. */
    lemma OpenCellsReachable(open: set<Cell>)
      requires Shows(open)
      requires forall c :: c in open ==> exists p :: Connects(p, open, Start, c)
      ensures forall c :: IsOpen(maze, c) ==> exists p :: IsOpenWalkFromStart(maze, p) && p[|p| - 1] == c
    {
      forall c | IsOpen(maze, c) ensures exists p :: IsOpenWalkFromStart(maze, p) && p[|p| - 1] == c {
        assert c in open;
        var p :| Connects(p, open, Start, c);
        assert IsOpenWalkFromStart(maze, p);
      }
    }

    /** With both dimensions even and every open cell other than the entrance,
        the exit and the cell next to the exit in `[1, width-3] x [1, height-3]`,
        no walk through open cells from the start reaches the exit. */
    lemma ExitUnreachable(open: set<Cell>)
      requires Shows(open) && !Odd(width) && !Odd(height) && 4 <= width && 4 <= height
      requires forall c :: c in open ==>
        c == Entrance || c == Exit(width, height) || c == ExitInner(width, height) ||
        (1 <= c.x <= width - 3 && 1 <= c.y <= height - 3)
      ensures forall p :: IsOpenWalkFromStart(maze, p) ==>
        forall i :: 0 <= i < |p| ==> p[i] != Exit(width, height) && p[i] != ExitInner(width, height)
    {
      forall p | IsOpenWalkFromStart(maze, p)
        ensures forall i :: 0 <= i < |p| ==> p[i] != Exit(width, height) && p[i] != ExitInner(width, height)
      {
        assert Connects(p, open, Start, p[|p| - 1]);
        ExitCutOff(width, height, open, p);
      }
    }

    /** Builds a new maze into `maze` and returns it: a `height x width` grid of
        walls (1) and open cells (0) whose open cells are the room centres, the
        `draws` passages the carving opened between them, and the entrance and
        exit with the cells next to them. The border is wall except for the
        entrance and the exit. When `width` or `height` is odd every open cell,
        the exit among them, can be reached from the start; when both are even
        the exit cannot. */
    method Generate(rand: nat -> nat) returns (grid: array2<int>, ghost passages: set<Cell>, ghost draws: nat)
      requires 3 <= width && 3 <= height
      modifies this
      ensures grid == maze && fresh(maze)
      ensures IsMazeGrid(maze, width, height)
      ensures Shows(WithEnds(width, height, Lattice(width, height) + passages))
      ensures TreeShape(width, height, Lattice(width, height), passages, draws)
      ensures |Lattice(width, height) + passages| == 1 + 2 * draws
      ensures draws + 1 == ((width - 1) / 2) * ((height - 1) / 2)
      ensures forall c :: OnBorder(width, height, c) ==>
        (IsOpen(maze, c) <==> c == Entrance || c == Exit(width, height))
      ensures IsOpen(maze, Entrance) && IsOpen(maze, Start)
      ensures IsOpen(maze, Exit(width, height)) && IsOpen(maze, ExitInner(width, height))
      ensures forall c :: c in Lattice(width, height) + passages ==>
        exists p :: IsOpenWalkFromStart(maze, p) && p[|p| - 1] == c
      ensures Odd(width) || Odd(height) ==>
        forall c :: IsOpen(maze, c) ==> exists p :: IsOpenWalkFromStart(maze, p) && p[|p| - 1] == c
      ensures !Odd(width) && !Odd(height) ==>
        forall p :: IsOpenWalkFromStart(maze, p) ==> forall i :: 0 <= i < |p| ==> p[i] != Exit(width, height)
    {
      FillWithWalls();
      ghost var visited, route;
      draws, visited, passages, route := CarvePassages(rand);
      ghost var carved := visited + passages;
      ghost var open := WithEnds(width, height, carved);
      CarvedIsInterior(width, height, visited, passages, draws);
      CarvedCount(width, height, visited, passages, draws);
      LatticeSize(width, height);

      Open(Entrance, carved);
      Open(Exit(width, height), carved + {Entrance});
      Open(Start, carved + {Entrance} + {Exit(width, height)});
      Open(ExitInner(width, height), carved + {Entrance} + {Exit(width, height)} + {Start});
      OpenedEnds(width, height, carved);
      grid := maze;
      BorderOpenings(open);
      CarvedReachable(open, carved, route);
      if Odd(width) || Odd(height) {
        EndsReachable(width, height, visited, passages, route, draws);
        OpenCellsReachable(open);
      } else {
        CarvedInsideWhenEven(width, height, visited, passages, draws);
        ExitUnreachable(open);
      }
    }
  }
}
