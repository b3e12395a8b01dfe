# Maze generator — a verified model

This project models the maze generator of a small top-down dungeon game, in
Dafny. The generator works on a `height x width` grid of walls (`1`) and open
cells (`0`), indexed `[row][column]`. It carves a maze by randomized
depth-first backtracking over the lattice of "room centres": the cells whose
coordinates are both odd.

1. It fills the grid with walls.
2. It opens `(1, 1)` and pushes it on a stack.
3. While the stack is not empty, it looks at the top. The top's neighbouring
   room centres are the cells two steps up, right, down and left of it, in
   that order. If some of them lie inside the border and are still walls, it
   picks one at random. It opens that cell and the wall cell between the two,
   then pushes the chosen cell. Otherwise it pops the top.
4. Finally it forces open the entrance `(0, 1)`, the exit
   `(width-1, height-2)` and the interior cell next to each.

The game asks for a 20 x 15 maze.

Layout:

- `geometry.dfy` (module `Geometry`) holds the cells, the four directions,
  the lattice of room centres and passages, and walks.
  - It proves that the lattice is connected by steps.
  - It gives the lattice's size, `((width-1)/2) * ((height-1)/2)`.
  - It proves that the exit is cut off when both dimensions are even.
- `carving.dfy` (module `Carving`) holds the state of the carving loop as
  values: the stack, the open room centres (`visited`), the open passages and
  a walk to every open cell.
  - It defines the invariants the loop keeps.
  - It has one lemma per way a push or a pop keeps them.
  - It has the lemmas about the finished grid.
- `maze_generator.dfy` (module `Mazes`) has the class `MazeGenerator`, with
  the fields `width`, `height` and `maze` (an `array2<int>`).
  - Its methods follow the source's `generate`. `FillWithWalls` is the wall
    fill. `CarvePassages` is the `while` loop, with its stack held in a local
    sequence. `CarveStep` is one push, and `Open` is a single cell write.
  - `GetUnvisitedNeighbors` is the neighbour scan.
- `world_scene.dfy` (module `WorldScene`) is the game's one call of the
  generator, at 20 x 15.

The random pick from the neighbour list is a parameter: `rand(k)` is the
`k`-th number drawn, and the `k`-th push takes neighbour
`rand(k) % |neighbors|`. Every property below holds for every `rand`. That
covers every sequence of picks the random source could make.

## Model

| member | source | states |
|---|---|---|
| `Mazes.MazeGenerator.constructor` | js/MazeGenerator.js:2-6 | stores `width` and `height`; `maze` starts as an empty grid |
| `Mazes.MazeGenerator.GetUnvisitedNeighbors` | js/MazeGenerator.js:57-78 | it returns at most 4 cells and changes nothing (no `modifies` clause). A cell is returned if and only if it is two cells up, right, down or left of `(x, y)`, lies in `[1, width-2] x [1, height-2]`, and is still a wall. The cells come in that order of directions |
| `Mazes.MazeGenerator.FillWithWalls` | js/MazeGenerator.js:10-16 | `maze` becomes a new `height x width` grid, every cell a wall |
| `Mazes.MazeGenerator.Open` | js/MazeGenerator.js:47-52 | one write: the cell becomes open and no other cell changes, so the open cells grow by exactly that cell |
| `Mazes.MazeGenerator.CarveStep` | js/MazeGenerator.js:33-38 | exactly two cells change: the chosen neighbour and the wall cell between it and the top. Both were walls before and are open after. Every other cell keeps its value, and the open cells grow by exactly those two |
| `Mazes.MazeGenerator.WallIsNotCarved` | js/MazeGenerator.js:70-73 | a cell the neighbour scan finds to be a wall has not been opened yet |
| `Mazes.MazeGenerator.NoWallNeighbourIsCarved` | js/MazeGenerator.js:28-30 | when the scan returns nothing, every neighbouring room centre of the top is already open |
| `Mazes.MazeGenerator.CarvePassages` | js/MazeGenerator.js:18-44 | the loop terminates (lexicographic measure: room centres still walls, then stack length). On exit every room centre is open. The open cells are the room centres plus `draws` passages, with `draws + 1` room centres. Each passage joins two room centres, and every open cell has a walk of open cells from `(1, 1)` |
| `Mazes.MazeGenerator.BorderOpenings` | js/MazeGenerator.js:47-48 | when every open cell other than the entrance and the exit is inside the border, those two are the only open border cells |
| `Mazes.MazeGenerator.OpenCellsReachable` | js/MazeGenerator.js:47-52 | if every cell of the open set has a walk to it from `(1, 1)`, then every open cell of `maze` has a walk of open cells from `(1, 1)` |
| `Mazes.MazeGenerator.ExitUnreachable` | js/MazeGenerator.js:47-52 | with both dimensions even, no walk of open cells from `(1, 1)` reaches the exit or the cell next to it |
| `Mazes.MazeGenerator.Generate` | js/MazeGenerator.js:8-55 | it returns `maze` itself, a new `height x width` grid of 0s and 1s.<br>The open cells are exactly the room centres, the passages, the entrance, the exit and the cell next to it. They form a spanning tree plus the forced cells, with `1 + 2 * draws` carved cells and `draws + 1 == ((width-1)/2) * ((height-1)/2)`.<br>The entrance and the exit are the only open border cells, and `(0,1)`, `(1,1)`, `(width-1,height-2)` and `(width-2,height-2)` are open.<br>At every size every carved cell (room centre or passage) is reachable from `(1,1)` through open cells. Together with the count, this makes the carving a spanning tree.<br>When `width` or `height` is odd, every open cell is reachable from `(1,1)`; when both are even, the exit is not |
| `Mazes.MazeGenerator.CarvedReachable` | js/MazeGenerator.js:37-40 | the walks the carving recorded stay walks through open cells of the finished grid, so every carved cell is reachable from `(1,1)` |
| `Carving.Initial` | js/MazeGenerator.js:19-24 | the state right after `(1, 1)` is opened and pushed satisfies all four loop invariants |
| `Carving.PushOpensTwoWalls` | js/MazeGenerator.js:31-38 | the chosen neighbour is a room centre. The cell between it and the top is an interior passage, neither was open before, and they are different cells |
| `Carving.PushKeepsTree` | js/MazeGenerator.js:37-40 | after a push there is still exactly one more open room centre than passages, every passage still joins two open room centres, and the number of room centres not yet open drops |
| `Carving.PushKeepsStack` | js/MazeGenerator.js:40 | after a push the stack still starts at `(1, 1)` and holds distinct open room centres, each a step from the one below with the passage between them open |
| `Carving.PushKeepsFinished` | js/MazeGenerator.js:40 | a push keeps "every open room centre off the stack has no closed neighbouring room centre" |
| `Carving.PushKeepsRoutes` | js/MazeGenerator.js:37-38 | after a push both new cells are reached by extending the top's walk, so every open cell still has a walk from `(1, 1)` through open cells |
| `Carving.PushKeepsInvariant` | js/MazeGenerator.js:30-40 | a push of a closed neighbouring room centre keeps the whole loop invariant and lowers the first component of the termination measure |
| `Carving.PopKeepsInvariant` | js/MazeGenerator.js:41-42 | popping a top with no closed neighbouring room centre keeps the stack shape and the "finished" property |
| `Carving.PopKeepsWhole` | js/MazeGenerator.js:41-42 | a pop keeps the whole loop invariant |
| `Carving.EmptyStackCoversLattice` | js/MazeGenerator.js:26-44 | when the stack is empty, the open room centres are the whole lattice |
| `Carving.CarvedCount` | js/MazeGenerator.js:37-38 | room centres and passages are distinct cells, so carving opens `1 + 2 * draws` cells |
| `Carving.CarvedIsInterior` | js/MazeGenerator.js:70-71 | every carved cell lies in `[1, width-2] x [1, height-2]`, so the loop never opens a border cell |
| `Carving.CarvedInsideWhenEven` | js/MazeGenerator.js:70-71 | with both dimensions even, every carved cell lies in `[1, width-3] x [1, height-3]` |
| `Carving.OpenedEnds` | js/MazeGenerator.js:47-52 | the four forcing writes, one after the other, open exactly the carved cells plus the entrance, the exit and the cell next to the exit (`(1, 1)` is already carved) |
| `Carving.EndsReachable` | js/MazeGenerator.js:47-52 | with `width` or `height` odd, each cell of that set has a walk from `(1, 1)` through the set |
| `Geometry.DirectionOfOffset` | js/MazeGenerator.js:59-64 | the four offsets are distinct and come in the order up, right, down, left |
| `Geometry.Midpoint` | js/MazeGenerator.js:34-35 | the wall cell computed between two neighbouring room centres is an exact integer cell, halfway between them, and adjacent to both |
| `Geometry.StepKeepsParity` | js/MazeGenerator.js:66-68 | a step of two from a room centre lands on odd coordinates again |
| `Geometry.MidpointIsPassage` | js/MazeGenerator.js:34-35 | the cell between two room centres has one odd coordinate and joins exactly those two centres |
| `Geometry.PassageIsInterior` | js/MazeGenerator.js:34-38 | a passage lies inside the border and is not a room centre |
| `Geometry.ClosedSetCoversLattice` | js/MazeGenerator.js:26-44 | a set that holds `(1, 1)` and is closed under steps between room centres holds every room centre |
| `Geometry.LatticeSize` | js/MazeGenerator.js:70-71 | a `height x width` grid has `((width-1)/2) * ((height-1)/2)` room centres |
| `Geometry.ExitApproach` | js/MazeGenerator.js:52 | with `width` or `height` odd, the cell next to the exit is a room centre or shares a side with one |
| `Geometry.LatticeInsideWhenEven` | js/MazeGenerator.js:70-71 | with both dimensions even, no room centre lies in the last interior column or row |
| `Geometry.ExitCutOff` | js/MazeGenerator.js:47-52 | with both dimensions even and the open cells confined to `[1, width-3] x [1, height-3]` plus the forced cells, no walk from `(1, 1)` reaches the exit or the cell next to it |
| `WorldScene.GenerateNewMaze` | js/WorldScene.js:25-27 | the game's 20 x 15 maze, with the sizes taken from js/WorldScene.js lines 16-17.<br>It is made of 0s and 1s, and `(0,1)` and `(19,13)` are its only open border cells. `(1,1)` and `(18,13)` are open.<br>Every open cell, the exit among them, is reachable from `(1,1)`, and the carving draws 62 random numbers |

## Left out

- The game scene in js/WorldScene.js is left out apart from its call of the
  generator. That excludes rendering, sprites and physics, the UI and the
  health bar, keyboard input, the exit check and random encounters. All of it
  is engine input and output.
- `Phaser.Utils.Array.GetRandom` is a library call. It is replaced by the
  caller-supplied `rand`, and no probability distribution is modelled.
- Generator dimensions: the source never checks them and raises no error
  for small sizes. The model requires `width >= 3 && height >= 3`. The
  source's writes stay on the grid from 2 x 2 up. At width or height 2,
  though, the start `(1, 1)` lies on the border, so it is no room centre
  and the border claims fail. At width 2 and height 3, for example, the exit
  is `(1, 1)` and the cell next to it is the entrance `(0, 1)`.
- Connectivity when both dimensions are even: the source does not deliver
  it. The cell next to the exit then has no carved neighbour.
  `Mazes.MazeGenerator.Generate` and `Geometry.ExitCutOff` prove that the exit
  cannot be reached in that case. The game's 20 x 15 size is not affected.
- Determinism: the result depends only on `width`, `height` and `rand`. This
  holds by construction, because `Generate` starts from a freshly allocated
  grid and reads nothing else. It is not stated as a lemma, since Dafny
  cannot relate two runs of a method.
- Mazes.MazeGenerator.Generate: acyclicity is stated as the spanning-tree
  count together with connectivity. No lemma says that removing a passage
  disconnects the two room centres it joins.
