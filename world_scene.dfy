/** The one caller of the generator: the game scene asks for a new 20 x 15
    maze whenever one is needed. */
module WorldScene {
  import opened Geometry
  import opened Mazes

  /** The maze size the game uses, in cells. */
  const MazeWidth := 20
  const MazeHeight := 15

  /** A new generator for the game's size, and the maze it builds. The height
      is odd, so the exit `(19, 13)` can be reached from the start. The carving
      draws 62 random numbers, one per passage of the tree over the 63 room
      centres. */
  method GenerateNewMaze(rand: nat -> nat) returns (maze: array2<int>, ghost draws: nat)
    ensures IsMazeGrid(maze, MazeWidth, MazeHeight)
    ensures forall c :: OnBorder(MazeWidth, MazeHeight, c) ==> (IsOpen(maze, c) <==> c == Cell(0, 1) || c == Cell(19, 13))
    ensures IsOpen(maze, Cell(1, 1)) && IsOpen(maze, Cell(18, 13))
    ensures forall c :: IsOpen(maze, c) ==> exists p :: IsOpenWalkFromStart(maze, p) && p[|p| - 1] == c
    ensures exists p :: IsOpenWalkFromStart(maze, p) && p[|p| - 1] == Cell(19, 13)
    ensures draws == 62
  {
    var generator := new MazeGenerator(MazeWidth, MazeHeight);
    ghost var passages;
    assert generator.width == MazeWidth && generator.height == MazeHeight;
    assert Odd(generator.height);
    assert ((generator.width - 1) / 2) * ((generator.height - 1) / 2) == 63;
    assert Exit(generator.width, generator.height) == Cell(19, 13);
    maze, passages, draws := generator.Generate(rand);
  }
}
