/** The state of the carving loop as values — the stack of room centres, the
    open room centres, the open passages and, for the proofs, a walk to every
    open cell — with the invariants the loop keeps and the lemmas saying that a
    push and a pop keep them. */
module Carving {
  import opened Geometry

  /** The open room centres and passages form a tree rooted at the start: every
      passage joins two open room centres, and there is one passage fewer than
      there are open room centres (`draws` is the number of pushes so far). */
  ghost predicate TreeShape(width: int, height: int, visited: set<Cell>, passages: set<Cell>, draws: nat)
  {
    Start in visited &&
    (forall c :: c in visited ==> InLattice(width, height, c)) &&
    (forall p :: p in passages ==> IsPassage(width, height, p) && Before(p) in visited && After(p) in visited) &&
    |visited| == 1 + draws && |passages| == draws
  }

  /** The stack is a path in that tree from the start: distinct open room
      centres, each a step from the one below it, with the passage between the
      two open. */
  ghost predicate StackShape(stack: seq<Cell>, visited: set<Cell>, passages: set<Cell>)
  {
    (|stack| > 0 ==> stack[0] == Start) &&
    (forall i :: 0 <= i < |stack| ==> stack[i] in visited) &&
    (forall i, j :: 0 <= i < j < |stack| ==> stack[i] != stack[j]) &&
    (forall i, j :: 0 <= i < j < |stack| && j == i + 1 ==>
       IsStep(stack[i], stack[j]) && Midpoint(stack[i], stack[j]) in passages)
  }

  /** A room centre that has left the stack has no neighbouring room centre
      that is still a wall. */
  ghost predicate Finished(width: int, height: int, stack: seq<Cell>, visited: set<Cell>)
  {
    forall a, b :: a in visited && a !in stack && IsStep(a, b) && InLattice(width, height, b) ==> b in visited
  }

  /** `route` holds, for every open cell, a walk from the start to it through
      open cells. */
  ghost predicate Routed(route: map<Cell, seq<Cell>>, carved: set<Cell>)
  {
    forall c :: c in carved ==> c in route && Connects(route[c], carved, Start, c)
  }

  /** The state right after the start cell is opened and pushed. */
  lemma Initial(width: int, height: int)
    requires 3 <= width && 3 <= height
    ensures TreeShape(width, height, {Start}, {}, 0)
    ensures StackShape([Start], {Start}, {})
    ensures Finished(width, height, [Start], {Start})
    ensures Routed(map[Start := [Start]], {Start})
  {
  }

  /** What a push opens: the chosen neighbour `next` of the top `current` is a
      room centre, and the midpoint between them is a passage; neither was open
      before, and they are different cells. */
  lemma PushOpensTwoWalls(width: int, height: int, visited: set<Cell>, passages: set<Cell>, draws: nat,
                          current: Cell, next: Cell)
    requires TreeShape(width, height, visited, passages, draws)
    requires current in visited && IsStep(current, next) && Interior(width, height, next)
    requires next !in visited + passages
    ensures InLattice(width, height, next)
    ensures IsPassage(width, height, Midpoint(current, next)) && Interior(width, height, Midpoint(current, next))
    ensures Midpoint(current, next) !in visited + passages
    ensures Midpoint(current, next) != next
  {
    StepKeepsParity(current, next);
    var mid := Midpoint(current, next);
    MidpointIsPassage(width, height, current, next);
    PassageIsInterior(width, height, mid);
  }

  lemma PushKeepsTree(width: int, height: int, visited: set<Cell>, passages: set<Cell>, draws: nat,
                      current: Cell, next: Cell)
    requires TreeShape(width, height, visited, passages, draws)
    requires current in visited && IsStep(current, next) && Interior(width, height, next)
    requires next !in visited + passages
    ensures TreeShape(width, height, visited + {next}, passages + {Midpoint(current, next)}, draws + 1)
    ensures |Lattice(width, height) - (visited + {next})| < |Lattice(width, height) - visited|
  {
    PushOpensTwoWalls(width, height, visited, passages, draws, current, next);
    var mid := Midpoint(current, next);
    MidpointIsPassage(width, height, current, next);
    assert Lattice(width, height) - (visited + {next}) == (Lattice(width, height) - visited) - {next};
  }

  lemma PushKeepsStack(stack: seq<Cell>, visited: set<Cell>, passages: set<Cell>, next: Cell, mid: Cell)
    requires StackShape(stack, visited, passages) && |stack| > 0
    requires IsStep(stack[|stack| - 1], next) && mid == Midpoint(stack[|stack| - 1], next)
    requires next !in visited
    ensures StackShape(stack + [next], visited + {next}, passages + {mid})
  {
    var s := stack + [next];
    forall i, j | 0 <= i < j < |s| ensures s[i] != s[j] {
      if j < |stack| {
        assert s[i] == stack[i] && s[j] == stack[j];
      } else {
        assert s[i] == stack[i] && stack[i] in visited;
      }
    }
    forall i, j | 0 <= i < j < |s| && j == i + 1
      ensures IsStep(s[i], s[j]) && Midpoint(s[i], s[j]) in passages + {mid}
    {
      if j < |stack| {
        assert s[i] == stack[i] && s[j] == stack[j];
      }
    }
  }

  lemma PushKeepsFinished(width: int, height: int, stack: seq<Cell>, visited: set<Cell>, next: Cell)
    requires Finished(width, height, stack, visited)
    ensures Finished(width, height, stack + [next], visited + {next})
  {
    forall a, b | a in visited + {next} && a !in stack + [next] && IsStep(a, b) && InLattice(width, height, b)
      ensures b in visited + {next}
    {
      assert a != next;
    }
  }

  lemma PushKeepsRoutes(route: map<Cell, seq<Cell>>, carved: set<Cell>, current: Cell, mid: Cell, next: Cell)
    requires Routed(route, carved) && current in carved
    requires Adjacent(current, mid) && Adjacent(mid, next)
    ensures Routed(route[mid := route[current] + [mid]][next := route[current] + [mid, next]], carved + {mid, next})
  {
    var route' := route[mid := route[current] + [mid]][next := route[current] + [mid, next]];
    var carved' := carved + {mid, next};
    forall c | c in carved'
      ensures c in route' && Connects(route'[c], carved', Start, c)
    {
      if c == next {
        ExtendWalk(route[current], carved, Start, current, mid, carved');
        ExtendWalk(route[current] + [mid], carved', Start, mid, next, carved');
        assert route[current] + [mid] + [next] == route'[next];
      } else if c == mid {
        ExtendWalk(route[current], carved, Start, current, mid, carved');
      } else {
        WalkInSuperset(route[c], carved, carved', Start, c);
      }
    }
  }

  /** A pop removes a top that has no neighbouring room centre left to open. */
  lemma PopKeepsInvariant(width: int, height: int, stack: seq<Cell>, visited: set<Cell>, passages: set<Cell>)
    requires StackShape(stack, visited, passages) && |stack| > 0
    requires Finished(width, height, stack, visited)
    requires forall b :: IsStep(stack[|stack| - 1], b) && InLattice(width, height, b) ==> b in visited
    ensures StackShape(stack[..|stack| - 1], visited, passages)
    ensures Finished(width, height, stack[..|stack| - 1], visited)
  {
    var s := stack[..|stack| - 1];
    forall a, b | a in visited && a !in s && IsStep(a, b) && InLattice(width, height, b)
      ensures b in visited
    {
      assert stack == s + [stack[|stack| - 1]];
    }
    forall i, j | 0 <= i < j < |s| && j == i + 1
      ensures IsStep(s[i], s[j]) && Midpoint(s[i], s[j]) in passages
    {
      assert s[i] == stack[i] && s[j] == stack[j];
    }
  }

  /** When the stack is empty every room centre is open. */
  lemma EmptyStackCoversLattice(width: int, height: int, visited: set<Cell>, passages: set<Cell>, draws: nat)
    requires TreeShape(width, height, visited, passages, draws)
    requires Finished(width, height, [], visited)
    ensures visited == Lattice(width, height)
  {
    forall c | c in Lattice(width, height) ensures c in visited {
      ClosedSetCoversLattice(width, height, visited, c);
    }
  }

  /** All of the above, for the state of the carving loop. */
  ghost predicate Invariant(width: int, height: int, stack: seq<Cell>, visited: set<Cell>, passages: set<Cell>,
                            route: map<Cell, seq<Cell>>, draws: nat)
  {
    TreeShape(width, height, visited, passages, draws) &&
    StackShape(stack, visited, passages) &&
    Finished(width, height, stack, visited) &&
    Routed(route, visited + passages)
  }

  /** A push of a neighbouring room centre `next` of the top that is not yet
      open keeps the invariant, and lowers the number of room centres not yet
      open. */
  lemma PushKeepsInvariant(width: int, height: int, stack: seq<Cell>, visited: set<Cell>, passages: set<Cell>,
                           route: map<Cell, seq<Cell>>, draws: nat, next: Cell)
    requires Invariant(width, height, stack, visited, passages, route, draws) && |stack| > 0
    requires IsStep(stack[|stack| - 1], next) && Interior(width, height, next)
    requires next !in visited + passages
    ensures InLattice(width, height, next)
    ensures Interior(width, height, Midpoint(stack[|stack| - 1], next))
    ensures Midpoint(stack[|stack| - 1], next) !in visited + passages && Midpoint(stack[|stack| - 1], next) != next
    ensures Invariant(width, height, stack + [next], visited + {next}, passages + {Midpoint(stack[|stack| - 1], next)},
                      route[Midpoint(stack[|stack| - 1], next) := route[stack[|stack| - 1]] + [Midpoint(stack[|stack| - 1], next)]]
                           [next := route[stack[|stack| - 1]] + [Midpoint(stack[|stack| - 1], next), next]],
                      draws + 1)
    ensures |Lattice(width, height) - (visited + {next})| < |Lattice(width, height) - visited|
    ensures visited + {next} + (passages + {Midpoint(stack[|stack| - 1], next)}) ==
            visited + passages + {Midpoint(stack[|stack| - 1], next), next}
  {
    var current := stack[|stack| - 1];
    var mid := Midpoint(current, next);
    PushOpensTwoWalls(width, height, visited, passages, draws, current, next);
    PushKeepsTree(width, height, visited, passages, draws, current, next);
    PushKeepsStack(stack, visited, passages, next, mid);
    PushKeepsFinished(width, height, stack, visited, next);
    PushKeepsRoutes(route, visited + passages, current, mid, next);
    UnionOfTwo(visited, passages, mid, next);
  }

  lemma UnionOfTwo(visited: set<Cell>, passages: set<Cell>, mid: Cell, next: Cell)
    ensures visited + {next} + (passages + {mid}) == visited + passages + {mid, next}
  {
  }

  /** A pop of a top that has no neighbouring room centre left to open keeps
      the invariant. */
  lemma PopKeepsWhole(width: int, height: int, stack: seq<Cell>, visited: set<Cell>, passages: set<Cell>,
                      route: map<Cell, seq<Cell>>, draws: nat)
    requires Invariant(width, height, stack, visited, passages, route, draws) && |stack| > 0
    requires forall b :: IsStep(stack[|stack| - 1], b) && InLattice(width, height, b) ==> b in visited + passages
    ensures Invariant(width, height, stack[..|stack| - 1], visited, passages, route, draws)
  {
    forall b | IsStep(stack[|stack| - 1], b) && InLattice(width, height, b) ensures b in visited {
      assert b in visited + passages;
      if b in passages {
        PassageIsInterior(width, height, b);
      }
    }
    PopKeepsInvariant(width, height, stack, visited, passages);
  }

  // ---------------------------------------------------------------------------
  // After the loop

  /** Room centres and passages are different cells, so the carving opens
      `1 + 2 * draws` cells: the start and two per push. */
  lemma CarvedCount(width: int, height: int, visited: set<Cell>, passages: set<Cell>, draws: nat)
    requires TreeShape(width, height, visited, passages, draws)
    ensures |visited + passages| == 1 + 2 * draws
  {
    forall p | p in passages ensures p !in visited {
      PassageIsInterior(width, height, p);
    }
    assert visited * passages == {};
  }

  /** Every carved cell lies inside the border. */
  lemma CarvedIsInterior(width: int, height: int, visited: set<Cell>, passages: set<Cell>, draws: nat)
    requires TreeShape(width, height, visited, passages, draws)
    ensures forall c :: c in visited + passages ==> Interior(width, height, c)
  {
    forall c | c in passages ensures Interior(width, height, c) {
      PassageIsInterior(width, height, c);
    }
  }

  /** When both dimensions are even the last room-centre column is `width-3`
      and the last room-centre row `height-3`, so every carved cell lies in
      `[1, width-3] x [1, height-3]`. */
  lemma CarvedInsideWhenEven(width: int, height: int, visited: set<Cell>, passages: set<Cell>, draws: nat)
    requires TreeShape(width, height, visited, passages, draws)
    requires !Odd(width) && !Odd(height)
    ensures forall c :: c in visited + passages ==> 1 <= c.x <= width - 3 && 1 <= c.y <= height - 3
  {
    forall c | c in visited ensures 1 <= c.x <= width - 3 && 1 <= c.y <= height - 3 {
      LatticeInsideWhenEven(width, height, c);
    }
    forall c | c in passages ensures 1 <= c.x <= width - 3 && 1 <= c.y <= height - 3 {
      LatticeInsideWhenEven(width, height, Before(c));
      LatticeInsideWhenEven(width, height, After(c));
    }
  }

  /** The open cells after the entrance and the exit are forced open: the
      carved ones, the entrance, the exit and the cell next to the exit (the
      cell next to the entrance is the start, which is carved). */
  ghost function WithEnds(width: int, height: int, carved: set<Cell>): (o: set<Cell>)
    ensures carved <= o
    ensures forall c :: c in o <==>
      c in carved || c == Entrance || c == Exit(width, height) || c == ExitInner(width, height)
  {
    carved + {Entrance, Exit(width, height), ExitInner(width, height)}
  }

  /** Opening the entrance, the exit, the start and the cell next to the exit,
      one after the other, opens WithEnds. */
  lemma OpenedEnds(width: int, height: int, carved: set<Cell>)
    requires Start in carved
    ensures carved + {Entrance} + {Exit(width, height)} + {Start} + {ExitInner(width, height)} ==
            WithEnds(width, height, carved)
  {
  }

  /** When at least one dimension is odd, every open cell of the finished maze
      can be reached from the start through open cells: the cell next to the
      exit is a room centre or lies next to one. */
  lemma EndsReachable(width: int, height: int, visited: set<Cell>, passages: set<Cell>,
                      route: map<Cell, seq<Cell>>, draws: nat)
    requires 3 <= width && 3 <= height && (Odd(width) || Odd(height))
    requires visited == Lattice(width, height)
    requires TreeShape(width, height, visited, passages, draws)
    requires Routed(route, visited + passages)
    ensures forall c :: c in WithEnds(width, height, visited + passages) ==>
      exists p :: Connects(p, WithEnds(width, height, visited + passages), Start, c)
  {
    var carved := visited + passages;
    var o := WithEnds(width, height, carved);
    var inner := ExitInner(width, height);
    var a := ExitApproach(width, height);
    WalkInSuperset(route[a], carved, o, Start, a);
    var toInner := if a == inner then route[a] else route[a] + [inner];
    if a != inner {
      ExtendWalk(route[a], o, Start, a, inner, o);
    }
    ExtendWalk(toInner, o, Start, inner, Exit(width, height), o);
    WalkInSuperset(route[Start], carved, o, Start, Start);
    ExtendWalk(route[Start], o, Start, Start, Entrance, o);
    forall c | c in o ensures exists p :: Connects(p, o, Start, c) {
      if c in carved {
        WalkInSuperset(route[c], carved, o, Start, c);
      } else if c == Entrance {
        assert Connects(route[Start] + [Entrance], o, Start, c);
      } else if c == inner {
        assert Connects(toInner, o, Start, c);
      } else {
        assert Connects(toInner + [Exit(width, height)], o, Start, c);
      }
    }
  }
}
