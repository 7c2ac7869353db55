/** The 10 x 10 game grid as a value: the cell codes, positions, the four
    moves between neighbouring cells, paths that avoid obstacles, and the
    region of the grid a search from the player can reach. */
module Grid {

  const N: int := 10

  // Cell codes of the `int[][] grid`.
  const EMPTY: int := 0
  const PLAYER: int := 1
  const TREASURE: int := 2
  const OBSTACLE: int := 3

  /** A cell: `x` indexes the outer array (the row), `y` the inner one. */
  datatype Pos = Pos(x: int, y: int)

  predicate InBounds(x: int, y: int) { 0 <= x < N && 0 <= y < N }

  const AllCells: set<Pos> := set x, y | 0 <= x < N && 0 <= y < N :: Pos(x, y)

  lemma InAllCells(p: Pos)
    ensures p in AllCells <==> InBounds(p.x, p.y)
  {
    if InBounds(p.x, p.y) {
      assert Pos(p.x, p.y) in AllCells;
    }
  }

  /** The grid's contents, cell by cell. */
  type Board = map<Pos, int>

  predicate WellFormed(b: Board) { b.Keys == AllCells }

  /** The cells of `b` holding `code`. */
  function CellsWith(b: Board, code: int): set<Pos>
  {
    set p | p in b && b[p] == code
  }

  /** Every cell holds one of the four codes. */
  predicate CodesValid(b: Board)
  {
    forall p :: p in b ==> EMPTY <= b[p] <= OBSTACLE
  }

  /** The player leaves `from`, which becomes empty, for `to`, picking up the
      treasure there if there is one. */
  lemma PlayerMoves(b: Board, from: Pos, to: Pos)
    requires from in b && to in b && CellsWith(b, PLAYER) == {from}
    ensures var after := b[from := EMPTY][to := PLAYER];
            after.Keys == b.Keys &&
            CellsWith(after, PLAYER) == {to} &&
            CellsWith(after, TREASURE) == CellsWith(b, TREASURE) - {to} &&
            |CellsWith(after, TREASURE)| == |CellsWith(b, TREASURE)| - (if b[to] == TREASURE then 1 else 0) &&
            (CodesValid(b) ==> CodesValid(after))
  {
    var after := b[from := EMPTY][to := PLAYER];
    var before := CellsWith(b, TREASURE);
    forall p ensures p in CellsWith(after, PLAYER) <==> p == to {
      assert p in CellsWith(b, PLAYER) <==> p == from;
    }
    assert CellsWith(after, TREASURE) == before - {to};
    if b[to] == TREASURE {
      assert before == CellsWith(after, TREASURE) + {to};
    }
  }

  // ---------------------------------------------------------------------
  // Filling cells
  // ---------------------------------------------------------------------

  /** The grid after it has been cleared: every cell empty. */
  function Blank(): (b: Board)
    ensures WellFormed(b)
  {
    map p | p in AllCells :: EMPTY
  }

  lemma BlankCells()
    ensures CellsWith(Blank(), EMPTY) == AllCells
    ensures forall code :: code != EMPTY ==> CellsWith(Blank(), code) == {}
    ensures CodesValid(Blank())
  {
  }

  /** `b` with every cell of `S` set to `code`. */
  function Fill(b: Board, S: set<Pos>, code: int): Board
  {
    map p | p in b :: if p in S then code else b[p]
  }

  /** Writing one more cell extends the filled set. */
  lemma FillOne(b: Board, S: set<Pos>, code: int, p: Pos)
    requires p in b
    ensures Fill(b, S, code)[p := code] == Fill(b, S + {p}, code)
  {
  }

  /** Filling empty cells with another code takes them from the empty cells
      and adds them to the cells of that code; the cells of every other code
      stay as they were. */
  lemma FillEmpty(b: Board, S: set<Pos>, code: int)
    requires S <= CellsWith(b, EMPTY) && code != EMPTY
    ensures CellsWith(Fill(b, S, code), EMPTY) == CellsWith(b, EMPTY) - S
    ensures |CellsWith(Fill(b, S, code), EMPTY)| == |CellsWith(b, EMPTY)| - |S|
    ensures CellsWith(Fill(b, S, code), code) == CellsWith(b, code) + S
    ensures forall other :: other != EMPTY && other != code ==>
              CellsWith(Fill(b, S, code), other) == CellsWith(b, other)
    ensures CodesValid(b) && EMPTY <= code <= OBSTACLE ==> CodesValid(Fill(b, S, code))
  {
    FillEmptyCells(b, S, code);
    FillCodeCells(b, S, code);
    forall other | other != EMPTY && other != code
      ensures CellsWith(Fill(b, S, code), other) == CellsWith(b, other)
    {
      FillOtherCells(b, S, code, other);
    }
  }

  lemma FillEmptyCells(b: Board, S: set<Pos>, code: int)
    requires S <= CellsWith(b, EMPTY) && code != EMPTY
    ensures CellsWith(Fill(b, S, code), EMPTY) == CellsWith(b, EMPTY) - S
    ensures |CellsWith(Fill(b, S, code), EMPTY)| == |CellsWith(b, EMPTY)| - |S|
  {
    var empty := CellsWith(b, EMPTY);
    assert CellsWith(Fill(b, S, code), EMPTY) == empty - S;
    DifferenceSize(empty, S);
  }

  lemma FillCodeCells(b: Board, S: set<Pos>, code: int)
    requires S <= CellsWith(b, EMPTY) && code != EMPTY
    ensures CellsWith(Fill(b, S, code), code) == CellsWith(b, code) + S
  {
  }

  lemma FillOtherCells(b: Board, S: set<Pos>, code: int, other: int)
    requires S <= CellsWith(b, EMPTY) && other != EMPTY && other != code
    ensures CellsWith(Fill(b, S, code), other) == CellsWith(b, other)
  {
  }

  lemma SubsetSize<T>(A: set<T>, B: set<T>)
    requires A <= B
    ensures |A| <= |B|
  {
    assert B == A + (B - A);
  }

  lemma ProperSubsetSize<T>(A: set<T>, B: set<T>)
    requires A <= B && A != B
    ensures |A| < |B|
  {
    var b :| b in B && b !in A;
    assert B == A + (B - A) && b in B - A;
  }

  lemma DifferenceSize<T>(A: set<T>, B: set<T>)
    requires B <= A
    ensures |A - B| == |A| - |B|
  {
    assert A == (A - B) + B;
    assert (A - B) * B == {};
  }

  /** Writing a code on one empty cell is filling that cell. */
  lemma FillSingle(b: Board, p: Pos, code: int)
    requires p in b
    ensures b[p := code] == Fill(b, {p}, code)
  {
  }

  // ---------------------------------------------------------------------
  // Moves and paths
  // ---------------------------------------------------------------------

  /** The search's direction table: up, down, left, right. */
  const Directions: seq<(int, int)> := [(-1, 0), (1, 0), (0, -1), (0, 1)]

  function Step(p: Pos, k: nat): Pos
    requires k < |Directions|
  {
    Pos(p.x + Directions[k].0, p.y + Directions[k].1)
  }

  function Neighbors(p: Pos): seq<Pos>
  {
    [Step(p, 0), Step(p, 1), Step(p, 2), Step(p, 3)]
  }

  /** A cell inside the grid that does not hold an obstacle. */
  predicate Open(b: Board, p: Pos)
  {
    p in b && b[p] != OBSTACLE
  }

  /** One move of a path: to a neighbouring open cell. */
  ghost predicate Link(b: Board, from: Pos, to: Pos)
  {
    to in Neighbors(from) && Open(b, to)
  }

  /** The move in direction `k` is a link exactly when its target is on the
      grid and holds no obstacle. */
  lemma LinkStep(b: Board, c: Pos, k: nat)
    requires k < |Directions|
    ensures Link(b, c, Step(c, k)) <==> Open(b, Step(c, k))
  {
    assert Step(c, k) in Neighbors(c);
  }

  /** A walk over the grid; the cell it starts from may hold anything, as in
      the search, which starts at the player whatever the cell holds. */
  ghost predicate IsPath(b: Board, path: seq<Pos>)
  {
    |path| > 0 && path[0] in b &&
    forall i :: 0 < i < |path| ==> Link(b, path[i - 1], path[i])
  }

  ghost predicate Reachable(b: Board, s: Pos, t: Pos)
  {
    exists path :: IsPath(b, path) && path[0] == s && path[|path| - 1] == t
  }

  /** The cells reachable from `s`: the player's obstacle-free connected
      region. */
  ghost function Region(b: Board, s: Pos): set<Pos>
  {
    set p | p in b && Reachable(b, s, p)
  }

  /** The treasure cells among `S`. */
  ghost function TreasuresIn(b: Board, S: set<Pos>): set<Pos>
  {
    set p | p in S && p in b && b[p] == TREASURE
  }

  /** Adding one cell to `S` adds one treasure exactly when the cell holds
      one. */
  lemma TreasuresInAdd(b: Board, S: set<Pos>, c: Pos)
    requires c !in S
    ensures |TreasuresIn(b, S + {c})| == |TreasuresIn(b, S)| + if c in b && b[c] == TREASURE then 1 else 0
  {
    if c in b && b[c] == TREASURE {
      assert TreasuresIn(b, S + {c}) == TreasuresIn(b, S) + {c};
    } else {
      assert TreasuresIn(b, S + {c}) == TreasuresIn(b, S);
    }
  }

  predicate Distinct(s: seq<Pos>)
  {
    forall i, j :: 0 <= i < j < |s| ==> s[i] != s[j]
  }

  /** `p` comes before `q` in row-major order: an earlier row, or the same
      row and an earlier column. */
  predicate Before(p: Pos, q: Pos)
  {
    p.x < q.x || (p.x == q.x && p.y < q.y)
  }

  /** The cells are listed in strictly increasing row-major order. */
  predicate RowMajor(s: seq<Pos>)
  {
    forall i, j :: 0 <= i < j < |s| ==> Before(s[i], s[j])
  }

  /** The treasures the search from `s` finds. */
  ghost function ReachableTreasures(b: Board, s: Pos): set<Pos>
  {
    TreasuresIn(b, Region(b, s))
  }

  ghost predicate TreasuresConnected(b: Board, s: Pos)
  {
    CellsWith(b, TREASURE) <= Region(b, s)
  }

  /** No move leads out of `S`. */
  ghost predicate Closed(b: Board, S: set<Pos>)
  {
    forall c, d :: c in S && Link(b, c, d) ==> d in S
  }

  // ---------------------------------------------------------------------
  // Reachability
  // ---------------------------------------------------------------------

  lemma ReachableStart(b: Board, s: Pos)
    requires s in b
    ensures Reachable(b, s, s)
  {
    assert IsPath(b, [s]);
  }

  /** A move from a reachable cell reaches its target. */
  lemma ReachableStep(b: Board, s: Pos, c: Pos, d: Pos)
    requires Reachable(b, s, c) && Link(b, c, d)
    ensures Reachable(b, s, d)
  {
    var path :| IsPath(b, path) && path[0] == s && path[|path| - 1] == c;
    var longer := path + [d];
    assert forall i :: 0 <= i < |path| ==> longer[i] == path[i];
    assert IsPath(b, longer);
  }

  lemma {:induction false} PathStaysInside(b: Board, path: seq<Pos>, S: set<Pos>, n: nat)
    requires IsPath(b, path) && path[0] in S && Closed(b, S)
    requires n < |path|
    ensures path[n] in S
  {
    if n > 0 {
      PathStaysInside(b, path, S, n - 1);
      assert Link(b, path[n - 1], path[n]);
    }
  }

  /** A set that holds the start and that no move leaves holds every cell
      reachable from the start. */
  lemma ClosedHoldsRegion(b: Board, s: Pos, S: set<Pos>)
    requires s in S && Closed(b, S)
    ensures Region(b, s) <= S
  {
    forall t | t in Region(b, s) ensures t in S {
      var path :| IsPath(b, path) && path[0] == s && path[|path| - 1] == t;
      PathStaysInside(b, path, S, |path| - 1);
    }
  }

  function Distance(s: Pos, t: Pos): nat
  {
    (if t.x < s.x then s.x - t.x else t.x - s.x) + (if t.y < s.y then s.y - t.y else t.y - s.y)
  }

  /** Without obstacles every cell can be reached: walk along the row, then
      along the column. */
  lemma {:induction false} ObstacleFreeReach(b: Board, s: Pos, t: Pos)
    requires WellFormed(b) && s in b && t in b
    requires CellsWith(b, OBSTACLE) == {}
    ensures Reachable(b, s, t)
    decreases Distance(s, t)
  {
    InAllCells(s);
    InAllCells(t);
    if t == s {
      ReachableStart(b, s);
    } else {
      var u, k;
      if t.x > s.x {
        u, k := Pos(t.x - 1, t.y), 1;
      } else if t.x < s.x {
        u, k := Pos(t.x + 1, t.y), 0;
      } else if t.y > s.y {
        u, k := Pos(t.x, t.y - 1), 3;
      } else {
        u, k := Pos(t.x, t.y + 1), 2;
      }
      InAllCells(u);
      ObstacleFreeReach(b, s, u);
      assert t !in CellsWith(b, OBSTACLE);
      assert t == Step(u, k) && t in Neighbors(u);
      ReachableStep(b, s, u, t);
    }
  }

  lemma ObstacleFreeRegion(b: Board, s: Pos)
    requires WellFormed(b) && s in b
    requires CellsWith(b, OBSTACLE) == {}
    ensures Region(b, s) == AllCells
  {
    forall t | t in AllCells ensures t in Region(b, s) {
      ObstacleFreeReach(b, s, t);
    }
  }

  // ---------------------------------------------------------------------
  // Breadth-first search
  // ---------------------------------------------------------------------

  /** What holds between two rounds of a breadth-first search from `start`:
      `seen` are the cells ever queued, `done` those already taken off the
      queue; every seen cell is reachable, and every move from a done cell
      leads to a seen one. */
  ghost predicate SearchState(b: Board, start: Pos, seen: set<Pos>, done: set<Pos>, queue: seq<Pos>)
  {
    start in seen && seen <= AllCells &&
    (forall p :: p in seen <==> p in done || p in queue) &&
    (forall p :: p in queue ==> p !in done) &&
    Distinct(queue) &&
    (forall p :: p in seen ==> Reachable(b, start, p)) &&
    (forall c, d :: c in done && Link(b, c, d) ==> d in seen)
  }

  lemma SearchStart(b: Board, start: Pos)
    requires start in b && WellFormed(b)
    ensures SearchState(b, start, {start}, {}, [start])
  {
    ReachableStart(b, start);
  }

  /** One round: the head of the queue is done, and the cells queued in
      this round are exactly its unseen open neighbours. */
  lemma SearchStep(b: Board, start: Pos, seen: set<Pos>, done: set<Pos>, queue: seq<Pos>,
                   seen': set<Pos>, queue': seq<Pos>)
    requires SearchState(b, start, seen, done, queue) && queue != []
    requires seen <= seen' <= AllCells
    requires forall p :: p in queue' <==> p in queue[1..] || p in seen' - seen
    requires Distinct(queue')
    requires forall p :: p in seen' - seen ==> Link(b, queue[0], p)
    requires forall d :: Link(b, queue[0], d) ==> d in seen'
    ensures SearchState(b, start, seen', done + {queue[0]}, queue')
    ensures |done + {queue[0]}| == |done| + 1 && |seen'| <= N * N
    ensures |TreasuresIn(b, done + {queue[0]})| ==
              |TreasuresIn(b, done)| + if queue[0] in b && b[queue[0]] == TREASURE then 1 else 0
  {
    var current := queue[0];
    TreasuresInAdd(b, done, current);
    AllCellsSize();
    SubsetSize(seen', AllCells);
    forall p | p in seen' ensures Reachable(b, start, p) {
      if p !in seen {
        ReachableStep(b, start, current, p);
      }
    }
    forall p ensures p in queue[1..] <==> p in queue && p != current {
      if p in queue && p != current {
        var i :| 0 <= i < |queue| && queue[i] == p;
        assert queue[1..][i - 1] == p;
      }
    }
  }

  /** When the queue is empty the seen cells are the region of `start`. */
  lemma SearchEnd(b: Board, start: Pos, seen: set<Pos>, done: set<Pos>)
    requires SearchState(b, start, seen, done, []) && WellFormed(b)
    ensures seen == done == Region(b, start)
  {
    assert seen == done;
    assert Closed(b, seen);
    ClosedHoldsRegion(b, start, seen);
  }

  // ---------------------------------------------------------------------
  // Adding obstacles
  // ---------------------------------------------------------------------

  /** `after` is `before` with some empty cells turned into obstacles. */
  ghost predicate AddsObstacles(before: Board, after: Board)
  {
    after.Keys == before.Keys &&
    forall p :: p in before ==> after[p] == before[p] || (before[p] == EMPTY && after[p] == OBSTACLE)
  }

  lemma AddsObstaclesKeepsOthers(before: Board, after: Board, code: int)
    requires AddsObstacles(before, after) && code != EMPTY && code != OBSTACLE
    ensures CellsWith(after, code) == CellsWith(before, code)
  {
  }

  /** More obstacles never make more cells reachable: a path that avoids the
      obstacles of `after` avoids those of `before`. */
  lemma AddedObstaclesShrinkRegion(before: Board, after: Board, s: Pos)
    requires AddsObstacles(before, after)
    ensures Region(after, s) <= Region(before, s)
  {
    forall t | t in Region(after, s) ensures t in Region(before, s) {
      var path :| IsPath(after, path) && path[0] == s && path[|path| - 1] == t;
      assert forall i :: 0 < i < |path| ==> Link(after, path[i - 1], path[i]);
      assert IsPath(before, path);
    }
  }

  /** Taking an obstacle away again never shrinks the region reachable from
      a cell. */
  lemma RemovedObstacleGrowsRegion(b: Board, c: Pos, s: Pos)
    requires c in b && b[c] == OBSTACLE
    ensures Region(b, s) <= Region(b[c := EMPTY], s)
  {
    AddedObstaclesShrinkRegion(b[c := EMPTY], b, s);
  }

  /** An empty cell whose obstacle would cut a treasure off still would
      after more obstacles have been added elsewhere. */
  lemma BlockingPersists(before: Board, after: Board, s: Pos, c: Pos)
    requires AddsObstacles(before, after)
    requires c in before && before[c] == EMPTY && after[c] == EMPTY
    requires !TreasuresConnected(before[c := OBSTACLE], s)
    ensures !TreasuresConnected(after[c := OBSTACLE], s)
  {
    var b1, b2 := before[c := OBSTACLE], after[c := OBSTACLE];
    assert AddsObstacles(b1, b2);
    AddedObstaclesShrinkRegion(b1, b2, s);
    AddsObstaclesKeepsOthers(b1, b2, TREASURE);
  }

  // ---------------------------------------------------------------------
  // Counting
  // ---------------------------------------------------------------------

  lemma SubsetSameSize<T>(A: set<T>, B: set<T>)
    requires A <= B && |A| == |B|
    ensures A == B
  {
    assert B == A + (B - A);
    assert A * (B - A) == {};
    assert |B - A| == 0;
  }

  /** Comparing the number of treasures found with the number of treasures
      on the board is the same as asking that every treasure be reachable. */
  lemma CountMeansConnected(b: Board, s: Pos)
    ensures |ReachableTreasures(b, s)| == |CellsWith(b, TREASURE)| <==> TreasuresConnected(b, s)
  {
    var found, all := ReachableTreasures(b, s), CellsWith(b, TREASURE);
    assert found <= all;
    if |found| == |all| {
      SubsetSameSize(found, all);
    }
    if TreasuresConnected(b, s) {
      assert found == all;
    }
  }

  function RowPart(x: int, m: nat): set<Pos>
  {
    set y | 0 <= y < m :: Pos(x, y)
  }

  function Rows(n: nat): set<Pos>
  {
    set x, y | 0 <= x < n && 0 <= y < N :: Pos(x, y)
  }

  lemma {:induction false} RowPartSize(x: int, m: nat)
    ensures |RowPart(x, m)| == m
  {
    if m > 0 {
      RowPartSize(x, m - 1);
      assert RowPart(x, m) == RowPart(x, m - 1) + {Pos(x, m - 1)};
    }
  }

  lemma {:induction false} RowsSize(n: nat)
    ensures |Rows(n)| == n * N
  {
    if n > 0 {
      RowsSize(n - 1);
      RowPartSize(n - 1, N);
      assert Rows(n) == Rows(n - 1) + RowPart(n - 1, N);
      assert Rows(n - 1) * RowPart(n - 1, N) == {};
    }
  }

  /** The grid has N * N cells. */
  lemma AllCellsSize()
    ensures |AllCells| == N * N
  {
    RowsSize(N);
    assert Rows(N) == AllCells;
  }
}
