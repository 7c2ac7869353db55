/** The game object: the grid it fills at random, the search that checks
    every treasure can be reached, the player's moves, and the high-score
    list it loads, extends and saves. */
module TreasureHunt {
  import opened JavaText
  import opened HighScores
  import opened Grid
  import opened Oracle

  /** Treasures placed on every new board. */
  const TREASURES: int := 7
  /** The obstacle target is `MIN_OBSTACLES + nextInt(OBSTACLE_SPREAD)`. */
  const MIN_OBSTACLES: int := 15
  const OBSTACLE_SPREAD: int := 15

  /** `list.remove(i)`: the element at `i` taken out, the others kept in
      order. */
  function RemoveAt(s: seq<Pos>, i: nat): (r: seq<Pos>)
    requires i < |s|
    ensures |r| == |s| - 1
    ensures forall j :: 0 <= j < |r| ==> r[j] == if j < i then s[j] else s[j + 1]
    ensures Distinct(s) ==> Distinct(r) && forall c :: c in r <==> c in s && c != s[i]
  {
    var r := s[..i] + s[i + 1..];
    assert forall j :: 0 <= j < |r| ==> r[j] == if j < i then s[j] else s[j + 1];
    assert forall c :: c in s && c != s[i] ==> c in r by {
      forall c | c in s && c != s[i] ensures c in r {
        var j :| 0 <= j < |s| && s[j] == c;
        assert r[if j < i then j else j - 1] == c;
      }
    }
    r
  }

  /** What a move did. */
  datatype MoveOutcome =
    | OutOfBounds
    | HitObstacle
    | Moved(foundTreasure: bool, won: bool)

  /** What the win dialog, the clock and the scores file supply when the
      last treasure is found: the seconds the timer measured, the name typed
      (`None` for a cancelled dialog) and the lines of the scores file. */
  datatype WinInput = WinInput(elapsedSeconds: int, playerName: Option<string>, storedScores: seq<string>)

  /** `playerName != null && !playerName.trim().isEmpty()`. */
  predicate NameGiven(name: Option<string>)
  {
    name.Some? && Trim(name.value) != []
  }

  /** The high-score list and the lines written after the status check, given
      the treasures left, the move count and the list before it. */
  function RecordWin(input: WinInput, remaining: int, moves: int, scores: seq<HighScore>)
    : (seq<HighScore>, Option<seq<string>>)
  {
    if remaining == 0 && NameGiven(input.playerName) then
      var entry := HighScore(input.playerName.value, ToInt32(input.elapsedSeconds), moves);
      var s := AddScore(LoadLines(input.storedScores), entry);
      (s, Some(FormatLines(s)))
    else
      (scores, None)
  }

  /** A score is recorded exactly when the game is won and a name was given.
      It is then added to the list read back from the file, with the time cut
      to an `int`; the list is sorted and all of it is written. Otherwise the
      list is left as it was and nothing is written. */
  lemma RecordWinProperties(input: WinInput, remaining: int, moves: int, scores: seq<HighScore>)
    ensures var (r, written) := RecordWin(input, remaining, moves, scores);
            (written.Some? <==> remaining == 0 && NameGiven(input.playerName)) &&
            (written.Some? ==>
               var entry := HighScore(input.playerName.value, ToInt32(input.elapsedSeconds), moves);
               Sorted(r) &&
               multiset(r) == multiset(LoadLines(input.storedScores)) + multiset{entry} &&
               written.value == FormatLines(r)) &&
            (written.None? ==> r == scores)
  {
  }

  /** What a move reads and writes, as a value: the grid's contents, the
      player's cell, the move count and the treasures left. */
  datatype Snapshot = Snapshot(board: Board, player: Pos, moves: int, remaining: int)

  /** A game between two moves: the player stands on the one player cell,
      the treasure count is the number of treasure cells, every cell holds
      one of the four codes, and the move count is an `int`. */
  ghost predicate Consistent(s: Snapshot)
  {
    WellFormed(s.board) &&
    CellsWith(s.board, PLAYER) == {s.player} &&
    |CellsWith(s.board, TREASURE)| == s.remaining &&
    CodesValid(s.board) &&
    IsInt32(s.moves)
  }

  /** The state change of one arrow key: nothing changes for a move off the
      grid or onto an obstacle; otherwise the player's old cell is emptied,
      a treasure on the new cell is collected, the player is put there and
      the move counted, with `int` wrap-around. */
  function Move(s: Snapshot, dx: int, dy: int): (Snapshot, MoveOutcome)
    requires WellFormed(s.board)
  {
    var to := Pos(s.player.x + dx, s.player.y + dy);
    InAllCells(to);
    if !InBounds(to.x, to.y) then (s, OutOfBounds)
    else if s.board[to] == OBSTACLE then (s, HitObstacle)
    else
      var cleared := s.board[s.player := EMPTY];
      var found := cleared[to] == TREASURE;
      var remaining := if found then s.remaining - 1 else s.remaining;
      (Snapshot(cleared[to := PLAYER], to, ToInt32(s.moves + 1), remaining), Moved(found, remaining == 0))
  }

  /** A move keeps the game consistent. A move off the grid or onto an
      obstacle changes nothing; any other move puts the player on its
      target, collects the treasure there if there is one, and wins exactly
      when no treasure is left on the grid. */
  lemma MoveProperties(s: Snapshot, dx: int, dy: int)
    requires Consistent(s)
    ensures var (s', outcome) := Move(s, dx, dy);
            var to := Pos(s.player.x + dx, s.player.y + dy);
            Consistent(s') &&
            (outcome == OutOfBounds <==> !InBounds(to.x, to.y)) &&
            (outcome == HitObstacle <==> InBounds(to.x, to.y) && s.board[to] == OBSTACLE) &&
            (!outcome.Moved? ==> s' == s) &&
            (outcome.Moved? ==>
               s'.player == to &&
               s'.board[s.player] == (if to == s.player then PLAYER else EMPTY) &&
               (forall p :: p in s.board && p != to && p != s.player ==> s'.board[p] == s.board[p]) &&
               outcome.foundTreasure == (s.board[to] == TREASURE) &&
               CellsWith(s'.board, TREASURE) == CellsWith(s.board, TREASURE) - {to} &&
               (outcome.won <==> CellsWith(s'.board, TREASURE) == {}) &&
               (IsInt32(s.moves + 1) ==> s'.moves == s.moves + 1))
  {
    var to := Pos(s.player.x + dx, s.player.y + dy);
    InAllCells(to);
    if InBounds(to.x, to.y) && s.board[to] != OBSTACLE {
      PlayerMoves(s.board, s.player, to);
      var s' := Move(s, dx, dy).0;
      assert s'.board == s.board[s.player := EMPTY][to := PLAYER];
    }
  }

  /** A move onto a free cell, spelled out. */
  lemma MoveTaken(s: Snapshot, dx: int, dy: int)
    requires WellFormed(s.board)
    requires InBounds(s.player.x + dx, s.player.y + dy) && s.board[Pos(s.player.x + dx, s.player.y + dy)] != OBSTACLE
    ensures var to := Pos(s.player.x + dx, s.player.y + dy);
            var cleared := s.board[s.player := EMPTY];
            var remaining := if cleared[to] == TREASURE then s.remaining - 1 else s.remaining;
            Move(s, dx, dy) ==
              (Snapshot(cleared[to := PLAYER], to, ToInt32(s.moves + 1), remaining), Moved(cleared[to] == TREASURE, remaining == 0))
  {
    InAllCells(Pos(s.player.x + dx, s.player.y + dy));
  }

  lemma MoveKeepsConsistent(s: Snapshot, dx: int, dy: int)
    requires Consistent(s)
    ensures Consistent(Move(s, dx, dy).0)
  {
    MoveProperties(s, dx, dy);
  }

  /** A running game. */
  class Game {
    const grid: array2<int>
    var playerX: int
    var playerY: int
    var moves: int
    var treasuresRemaining: int
    var timerStarted: bool
    var highScores: seq<HighScore>
    const random: Random

    /** The grid's contents as a value. */
    ghost var board: Board

    ghost predicate Valid()
      reads this`board, this`playerX, this`playerY, grid
    {
      grid.Length0 == N && grid.Length1 == N &&
      WellFormed(board) &&
      (forall i, j :: 0 <= i < N && 0 <= j < N ==> Pos(i, j) in board && grid[i, j] == board[Pos(i, j)]) &&
      InBounds(playerX, playerY)
    }

    function Player(): Pos
      reads this`playerX, this`playerY
    {
      Pos(playerX, playerY)
    }

    /** The fields a move reads and writes. */
    ghost function State(): Snapshot
      reads this`board, this`playerX, this`playerY, this`moves, this`treasuresRemaining
    {
      Snapshot(board, Player(), moves, treasuresRemaining)
    }

    /** Between two moves. */
    ghost predicate Playing()
      reads this`board, this`playerX, this`playerY, this`moves, this`treasuresRemaining, grid
    {
      Valid() && Consistent(State())
    }

    /** A newly generated board: a game in progress with no move made yet,
        seven treasures all reachable from the player, and fewer than
        `MIN_OBSTACLES + OBSTACLE_SPREAD` obstacles. */
    ghost predicate NewGame()
      reads this, grid
    {
      Playing() &&
      moves == 0 && !timerStarted && treasuresRemaining == TREASURES &&
      TreasuresConnected(board, Player()) &&
      |CellsWith(board, OBSTACLE)| < MIN_OBSTACLES + OBSTACLE_SPREAD
    }

    /** The constructor: the scores file is read, then the first board is
        generated. */
    constructor (random: Random, storedScores: seq<string>)
      requires Fair(random.tape)
      modifies random
      ensures this.random == random
      ensures NewGame()
      ensures highScores == LoadLines(storedScores)
    {
      this.random := random;
      grid := new int[N, N]((i, j) => EMPTY);
      board := map p | p in AllCells :: EMPTY;
      playerX, playerY := 0, 0;
      moves, treasuresRemaining := 0, 0;
      timerStarted := false;
      highScores := [];
      new;
      forall i, j | 0 <= i < N && 0 <= j < N ensures Pos(i, j) in board {
        InAllCells(Pos(i, j));
      }
      LoadHighScores(storedScores);
      InitializeGame();
    }

    /** The menu's Play button: a new board, then the scores file read
        again. */
    method Play(storedScores: seq<string>)
      requires Valid() && Fair(random.tape)
      modifies this`moves, this`treasuresRemaining, this`timerStarted, this`playerX, this`playerY,
        this`board, this`highScores, grid, random
      ensures NewGame()
      ensures highScores == LoadLines(storedScores)
    {
      InitializeGame();
      LoadHighScores(storedScores);
    }

    // -------------------------------------------------------------------
    // Generating a board
    // -------------------------------------------------------------------

    /** Clears the grid, then places the player, the treasures and the
        obstacles. */
    method InitializeGame()
      requires Valid() && Fair(random.tape)
      modifies this`moves, this`treasuresRemaining, this`timerStarted, this`playerX, this`playerY,
        this`board, grid, random
      ensures NewGame()
    {
      moves := 0;
      treasuresRemaining := 0;
      timerStarted := false;
      ClearGrid();
      PlacePlayer();
      ghost var player := Player();
      PlayerOnBlank(player);

      ghost var placed := PlaceTreasures();
      TreasuresOnBlank(player, placed);

      ghost var target, kept := PlaceObstacles();
      NewBoard(player, placed, kept);
      assert State() == Snapshot(board, player, 0, TREASURES);
      assert CellsWith(board, OBSTACLE) == kept;
    }

    /** Empties every cell of the grid. */
    method ClearGrid()
      requires Valid()
      modifies grid, this`board
      ensures Valid() && board == Blank()
    {
      for i := 0 to N
        invariant forall a, b :: 0 <= a < i && 0 <= b < N ==> grid[a, b] == EMPTY
      {
        for j := 0 to N
          invariant forall a, b :: 0 <= a < i && 0 <= b < N ==> grid[a, b] == EMPTY
          invariant forall b :: 0 <= b < j ==> grid[i, b] == EMPTY
        {
          grid[i, j] := EMPTY;
        }
      }
      board := Blank();
      forall i, j | 0 <= i < N && 0 <= j < N ensures Pos(i, j) in board {
        InAllCells(Pos(i, j));
      }
    }

    /** Puts the player on a random cell. */
    method PlacePlayer()
      requires Valid()
      modifies this`playerX, this`playerY, this`board, grid, random
      ensures Valid()
      ensures Player() == CellDrawn(random.tape, old(random.drawn), 0)
      ensures board == old(board)[Player() := PLAYER]
      ensures random.drawn == old(random.drawn) + 2
    {
      playerX := random.NextInt(N);
      playerY := random.NextInt(N);
      SetCell(playerX, playerY, PLAYER);
    }

    /** Draws cells until seven empty ones have received a treasure. A fair
        tape, which keeps drawing every cell, is enough for the loop to end
        once seven empty cells exist; it is not needed, since any tape whose
        draws name seven distinct empty cells ends it too. */
    method PlaceTreasures() returns (ghost placed: set<Pos>)
      requires Valid() && Fair(random.tape)
      requires |CellsWith(board, EMPTY)| >= TREASURES
      modifies this`treasuresRemaining, this`board, grid, random
      ensures Valid()
      ensures treasuresRemaining == TREASURES
      ensures |placed| == TREASURES && placed <= old(CellsWith(board, EMPTY))
      ensures board == Fill(old(board), placed, TREASURE)
    {
      var treasures := TREASURES;
      treasuresRemaining := treasures;
      placed := {};
      ghost var start := board;
      ghost var empty := CellsWith(start, EMPTY);
      // The next empty cell the tape will draw, `due` pairs of draws ahead.
      ghost var target, due := NextDrawn(random.tape, random.drawn, empty);
      while treasures > 0
        invariant Valid()
        invariant 0 <= treasures <= TREASURES && |placed| == TREASURES - treasures
        invariant placed <= empty
        invariant board == Fill(start, placed, TREASURE)
        invariant treasures > 0 ==>
                    target in empty - placed && CellDrawn(random.tape, random.drawn, due) == target
        invariant treasuresRemaining == TREASURES
        decreases treasures, due
      {
        ghost var drawnBefore := random.drawn;
        var cell := DrawTreasure();
        if cell.Some? {
          TreasurePlaced(start, placed, cell.value);
          placed := placed + {cell.value};
          treasures := treasures - 1;
          if treasures > 0 {
            StillEmpty(start, placed);
            target, due := NextDrawn(random.tape, random.drawn, empty - placed);
          }
        } else {
          TargetMissed(start, placed, target, CellDrawn(random.tape, drawnBefore, 0));
          DrawnLater(random.tape, drawnBefore, due);
          due := due - 1;
        }
      }
    }

    /** One round of the treasure loop: draws a cell and, when it is empty,
        puts a treasure there. */
    method DrawTreasure() returns (cell: Option<Pos>)
      requires Valid()
      modifies this`board, grid, random
      ensures Valid()
      ensures random.drawn == old(random.drawn) + 2
      ensures var drawn := CellDrawn(random.tape, old(random.drawn), 0);
              if drawn in old(CellsWith(board, EMPTY))
              then cell == Some(drawn) && board == old(board)[drawn := TREASURE]
              else cell == None && board == old(board)
    {
      var x := random.NextInt(N);
      var y := random.NextInt(N);
      InAllCells(Pos(x, y));
      if grid[x, y] == EMPTY {
        SetCell(x, y, TREASURE);
        cell := Some(Pos(x, y));
      } else {
        cell := None;
      }
    }

    /** The empty cells in row-major order, as `placeObstacles` collects
        them. */
    method EmptyCells() returns (cells: seq<Pos>)
      requires Valid()
      ensures Distinct(cells) && RowMajor(cells)
      ensures forall c :: c in cells <==> c in CellsWith(board, EMPTY)
    {
      ghost var empty := CellsWith(board, EMPTY);
      cells := [];
      forall p | p in AllCells ensures InBounds(p.x, p.y) {
        InAllCells(p);
      }
      for i := 0 to N
        invariant forall c :: c in cells <==> c in empty && c.x < i
        invariant RowMajor(cells)
      {
        for j := 0 to N
          invariant forall c :: c in cells <==> c in empty && (c.x < i || (c.x == i && c.y < j))
          invariant RowMajor(cells)
        {
          if grid[i, j] == EMPTY {
            cells := cells + [Pos(i, j)];
          }
        }
      }
    }

    /** Aims for `15 + nextInt(15)` obstacles: takes random empty cells one
        at a time, puts an obstacle there, and takes it away again when the
        search then misses a treasure. Ends when the target is met or every
        empty cell has been tried. Every obstacle kept was on an empty cell;
        if the treasures were connected to the player they still are; and
        when fewer obstacles than the target were kept, each other empty cell
        would have cut off a treasure. */
    method PlaceObstacles() returns (ghost target: int, ghost kept: set<Pos>)
      requires Valid()
      requires |CellsWith(board, TREASURE)| == treasuresRemaining
      modifies this`board, grid, random
      ensures Valid()
      ensures MIN_OBSTACLES <= target < MIN_OBSTACLES + OBSTACLE_SPREAD
      ensures kept <= old(CellsWith(board, EMPTY)) && |kept| <= target
      ensures board == Fill(old(board), kept, OBSTACLE)
      ensures TreasuresConnected(old(board), Player()) ==> TreasuresConnected(board, Player())
      ensures |kept| < target ==>
                forall c :: c in old(CellsWith(board, EMPTY)) - kept ==>
                  !TreasuresConnected(board[c := OBSTACLE], Player())
    {
      var spread := random.NextInt(OBSTACLE_SPREAD);
      var obstacles := MIN_OBSTACLES + spread;
      target := obstacles;
      ghost var start := board;
      ghost var player := Player();
      var emptyCells := EmptyCells();

      kept := {};
      ghost var rejected: set<Pos> := {};
      ObstacleSearchStart(start, player, emptyCells);
      while obstacles > 0 && |emptyCells| > 0
        invariant Valid() && Player() == player
        invariant |CellsWith(board, TREASURE)| == treasuresRemaining
        invariant 0 <= obstacles <= target && |kept| == target - obstacles
        invariant ObstacleSearch(start, player, emptyCells, kept, rejected)
        invariant board == Fill(start, kept, OBSTACLE)
        decreases |emptyCells|
      {
        var index := random.NextInt(|emptyCells|);
        var cell := emptyCells[index];
        ghost var remaining := emptyCells;
        SearchCellEmpty(start, player, remaining, kept, rejected, index);
        emptyCells := RemoveAt(emptyCells, index);
        var ok := TryObstacle(cell);
        if !ok {
          RejectStep(start, player, remaining, kept, rejected, index);
          rejected := rejected + {cell};
        } else {
          KeepStep(start, player, remaining, kept, rejected, index);
          obstacles := obstacles - 1;
          kept := kept + {cell};
        }
      }
      ObstacleSearchEnd(start, player, emptyCells, kept, rejected);
    }

    /** The body of the obstacle loop for one cell: an obstacle goes there,
        and is taken away again when the search then misses a treasure. */
    method TryObstacle(cell: Pos) returns (ok: bool)
      requires Valid() && cell in CellsWith(board, EMPTY)
      requires |CellsWith(board, TREASURE)| == treasuresRemaining
      modifies this`board, grid
      ensures Valid()
      ensures ok == TreasuresConnected(old(board)[cell := OBSTACLE], Player())
      ensures board == if ok then old(board)[cell := OBSTACLE] else old(board)
      ensures |CellsWith(board, TREASURE)| == treasuresRemaining
    {
      ghost var before := board;
      InAllCells(cell);
      SetCell(cell.x, cell.y, OBSTACLE);
      ObstacleOnEmpty(before, cell);
      ghost var dequeues;
      ok, dequeues := AllTreasuresReachable();
      CountMeansConnected(board, Player());
      if !ok {
        SetCell(cell.x, cell.y, EMPTY);
        assert board == before;
      }
    }

    // -------------------------------------------------------------------
    // The reachability search
    // -------------------------------------------------------------------

    /** Breadth-first search from the player over cells without obstacles,
        counting the treasures it meets. It finds exactly the treasures of
        the player's region, so the answer compares that number with the
        treasure count; each cell is taken from the queue at most once. */
    method AllTreasuresReachable() returns (ok: bool, ghost dequeues: nat)
      requires Valid()
      ensures ok == (|ReachableTreasures(board, Player())| == treasuresRemaining)
      ensures dequeues == |Region(board, Player())| <= N * N
    {
      var visited := new bool[N, N]((i, j) => false);
      var start := Pos(playerX, playerY);
      var queue: seq<Pos> := [start];
      visited[playerX, playerY] := true;
      // `seen` are the cells marked visited, `done` those taken from the
      // queue.
      ghost var seen: set<Pos> := {start};
      ghost var done: set<Pos> := {};
      var treasuresFound := 0;
      dequeues := 0;
      InAllCells(start);
      SearchStart(board, start);
      while queue != []
        invariant visited.Length0 == N && visited.Length1 == N
        invariant forall i, j :: 0 <= i < N && 0 <= j < N ==> (visited[i, j] <==> Pos(i, j) in seen)
        invariant SearchState(board, start, seen, done, queue)
        invariant treasuresFound == |TreasuresIn(board, done)|
        invariant dequeues == |done|
        invariant |seen| <= N * N
        decreases N * N - |seen|, |queue|
      {
        var current := queue[0];
        ghost var seen0, queue0 := seen, queue;
        queue := queue[1..];
        var x, y := current.x, current.y;
        InAllCells(current);
        assert grid[x, y] == board[current];
        if grid[x, y] == TREASURE {
          treasuresFound := treasuresFound + 1;
        }
        queue, seen := EnqueueNeighbors(visited, current, queue, seen);
        SearchStep(board, start, seen0, done, queue0, seen, queue);
        done := done + {current};
        dequeues := dequeues + 1;
      }
      SearchEnd(board, start, seen, done);
      AllCellsSize();
      SubsetSize(Region(board, start), AllCells);
      ok := treasuresFound == treasuresRemaining;
    }

    /** The search's loop over the four directions from `current`: every
        neighbour on the grid that is neither visited nor an obstacle is
        marked and joins the end of the queue. Afterwards every move from
        `current` leads to a marked cell. */
    method EnqueueNeighbors(visited: array2<bool>, current: Pos, queue: seq<Pos>, ghost seen: set<Pos>)
      returns (queue': seq<Pos>, ghost seen': set<Pos>)
      requires Valid() && visited.Length0 == N && visited.Length1 == N
      requires forall i, j :: 0 <= i < N && 0 <= j < N ==> (visited[i, j] <==> Pos(i, j) in seen)
      requires seen <= AllCells && current in seen
      requires Distinct(queue) && forall p :: p in queue ==> p in seen
      modifies visited
      ensures forall i, j :: 0 <= i < N && 0 <= j < N ==> (visited[i, j] <==> Pos(i, j) in seen')
      ensures seen <= seen' <= AllCells
      ensures forall p :: p in queue' <==> p in queue || p in seen' - seen
      ensures Distinct(queue')
      ensures forall p :: p in seen' - seen ==> Link(board, current, p)
      ensures forall d :: Link(board, current, d) ==> d in seen'
      ensures |seen'| > |seen| || (seen' == seen && queue' == queue)
    {
      queue', seen' := queue, seen;
      NeighborsStart(board, current, seen, queue);
      for k := 0 to |Directions|
        invariant forall i, j :: 0 <= i < N && 0 <= j < N ==> (visited[i, j] <==> Pos(i, j) in seen')
        invariant NeighborsQueued(board, current, seen, queue, seen', queue', k)
      {
        ghost var seen0, queue0 := seen', queue';
        queue', seen' := VisitNeighbor(visited, current, k, queue', seen');
        NeighborQueued(board, current, seen, queue, seen0, queue0, k, seen', queue');
      }
      NeighborsEnd(board, current, seen, queue, seen', queue');
    }

    /** One round of that loop: the neighbour in direction `k` is marked and
        queued when it is on the grid, not yet visited and not an
        obstacle. */
    method VisitNeighbor(visited: array2<bool>, current: Pos, k: nat, queue: seq<Pos>, ghost seen: set<Pos>)
      returns (queue': seq<Pos>, ghost seen': set<Pos>)
      requires Valid() && visited.Length0 == N && visited.Length1 == N && k < |Directions|
      requires forall i, j :: 0 <= i < N && 0 <= j < N ==> (visited[i, j] <==> Pos(i, j) in seen)
      requires seen <= AllCells
      requires forall p :: p in queue ==> p in seen
      modifies visited
      ensures forall i, j :: 0 <= i < N && 0 <= j < N ==> (visited[i, j] <==> Pos(i, j) in seen')
      ensures var next := Step(current, k);
              if Open(board, next) && next !in seen
              then seen' == seen + {next} && queue' == queue + [next] && Link(board, current, next)
              else seen' == seen && queue' == queue
    {
      queue', seen' := queue, seen;
      var newX := current.x + Directions[k].0;
      var newY := current.y + Directions[k].1;
      var next := Pos(newX, newY);
      InAllCells(next);
      if newX >= 0 && newX < N && newY >= 0 && newY < N && !visited[newX, newY] && grid[newX, newY] != OBSTACLE {
        visited[newX, newY] := true;
        queue' := queue + [next];
        LinkStep(board, current, k);
        seen' := seen + {next};
      }
    }

    // -------------------------------------------------------------------
    // Moving
    // -------------------------------------------------------------------

    /** One arrow key: starts the timer on the first move, refuses a move off
        the grid, ends the game on an obstacle (the replay that follows is not
        part of this model), and otherwise moves the player, collecting a
        treasure if there is one, counts the move and checks for a win. */
    method MovePlayer(dx: int, dy: int, input: WinInput) returns (outcome: MoveOutcome, written: Option<seq<string>>)
      requires Playing()
      modifies this`playerX, this`playerY, this`moves, this`treasuresRemaining, this`timerStarted,
        this`board, this`highScores, grid
      ensures Playing() && timerStarted
      ensures (State(), outcome) == Move(old(State()), dx, dy)
      ensures outcome.Moved? ==> (highScores, written) == RecordWin(input, treasuresRemaining, moves, old(highScores))
      ensures !outcome.Moved? ==> highScores == old(highScores) && written == None
    {
      ghost var s := State();
      ghost var next := Move(s, dx, dy);
      MoveKeepsConsistent(s, dx, dy);
      if !timerStarted {
        timerStarted := true;
      }
      var newX := playerX + dx;
      var newY := playerY + dy;
      InAllCells(Pos(newX, newY));
      if newX < 0 || newX >= N || newY < 0 || newY >= N {
        assert State() == s && next == (s, OutOfBounds);
        return OutOfBounds, None;
      }
      if grid[newX, newY] == OBSTACLE {
        assert State() == s && next == (s, HitObstacle);
        return HitObstacle, None;
      }
      assert State() == s;
      var found := Advance(dx, dy);
      ghost var moved := State();
      assert (moved, Moved(found, treasuresRemaining == 0)) == next;
      written := CheckGameStatus(input);
      outcome := Moved(found, treasuresRemaining == 0);
      assert State() == moved;
    }

    /** The part of a move onto a free cell that changes the grid: the old
        cell is emptied, a treasure on the new one is collected, the player
        is put there and the move counted. */
    method Advance(dx: int, dy: int) returns (found: bool)
      requires Valid()
      requires InBounds(playerX + dx, playerY + dy) && board[Pos(playerX + dx, playerY + dy)] != OBSTACLE
      modifies this`playerX, this`playerY, this`moves, this`treasuresRemaining, this`board, grid
      ensures Valid()
      ensures (State(), Moved(found, treasuresRemaining == 0)) == Move(old(State()), dx, dy)
    {
      ghost var s := State();
      var newX := playerX + dx;
      var newY := playerY + dy;
      ghost var to := Pos(newX, newY);
      MoveTaken(s, dx, dy);
      SetCell(playerX, playerY, EMPTY);
      ghost var cleared := board;
      playerX, playerY := newX, newY;
      InAllCells(to);
      found := grid[playerX, playerY] == TREASURE;
      assert found == (cleared[to] == TREASURE);
      if found {
        treasuresRemaining := treasuresRemaining - 1;
      }
      SetCell(playerX, playerY, PLAYER);
      moves := ToInt32(moves + 1);
      assert State() == Snapshot(cleared[to := PLAYER], to, ToInt32(s.moves + 1), treasuresRemaining);
      assert treasuresRemaining == if cleared[to] == TREASURE then s.remaining - 1 else s.remaining;
    }

    /** Writes one cell of the grid, keeping `board` in step. */
    method SetCell(x: int, y: int, code: int)
      requires Valid() && InBounds(x, y)
      modifies grid, this`board
      ensures Valid()
      ensures board == old(board)[Pos(x, y) := code]
    {
      InAllCells(Pos(x, y));
      grid[x, y] := code;
      board := board[Pos(x, y) := code];
    }

    /** After a move: when no treasure is left, the win is recorded as
        `RecordWin` says (the replay question that follows is not part of
        this model). */
    method CheckGameStatus(input: WinInput) returns (written: Option<seq<string>>)
      modifies this`highScores
      ensures (highScores, written) == RecordWin(input, treasuresRemaining, moves, old(highScores))
    {
      written := None;
      if treasuresRemaining == 0 {
        var playerName := input.playerName;
        if playerName.Some? && Trim(playerName.value) != [] {
          var lines := AddHighScore(input.storedScores, playerName.value, ToInt32(input.elapsedSeconds), moves);
          written := Some(lines);
        }
      }
    }

    // -------------------------------------------------------------------
    // High scores
    // -------------------------------------------------------------------

    /** Reads the scores file line by line; a line whose number does not
        parse ends the reading and keeps what was read before it. */
    method LoadHighScores(lines: seq<string>)
      modifies this`highScores
      ensures highScores == LoadLines(lines)
    {
      highScores := [];
      var i := 0;
      while i < |lines|
        invariant 0 <= i <= |lines|
        invariant highScores + LoadLines(lines[i..]) == LoadLines(lines)
        decreases |lines| - i
      {
        LoadNext(lines, i);
        match ParseLine(lines[i]) {
          case Skipped =>
          case Parsed(h) =>
            AppendAssoc(highScores, [h], LoadLines(lines[i + 1..]));
            highScores := highScores + [h];
          case NumberFormatError =>
            assert highScores + [] == highScores;
            break;
        }
        i := i + 1;
      }
    }

    /** Reloads the file, appends the new entry, sorts and saves. */
    method AddHighScore(storedScores: seq<string>, name: string, time: int, movesMade: int)
      returns (written: seq<string>)
      modifies this`highScores
      ensures highScores == AddScore(LoadLines(storedScores), HighScore(name, time, movesMade))
      ensures written == FormatLines(highScores)
    {
      LoadHighScores(storedScores);
      highScores := highScores + [HighScore(name, time, movesMade)];
      highScores := Sort(highScores);
      written := SaveHighScores();
    }

    /** The lines of the scores file, one per entry in list order. */
    method SaveHighScores() returns (lines: seq<string>)
      ensures lines == FormatLines(highScores)
    {
      var scores := highScores;
      lines := [];
      for i := 0 to |scores|
        invariant lines == FormatLines(scores[..i])
      {
        var line := FormatLine(scores[i]);
        FormatLinesStep(scores, i);
        lines := lines + [line];
      }
      assert scores[..|scores|] == scores;
    }
  }

  /** A treasure on a cell that is still empty after `placed` were filled
      is a new one. */
  lemma TreasurePlaced(start: Board, placed: set<Pos>, c: Pos)
    requires c in CellsWith(Fill(start, placed, TREASURE), EMPTY)
    ensures c in CellsWith(start, EMPTY) && c !in placed
    ensures Fill(start, placed, TREASURE)[c := TREASURE] == Fill(start, placed + {c}, TREASURE)
    ensures |placed + {c}| == |placed| + 1
  {
    FillOne(start, placed, TREASURE, c);
  }

  /** Fewer treasures placed than there were empty cells leaves an empty
      cell of the grid to draw. */
  lemma StillEmpty(start: Board, placed: set<Pos>)
    requires WellFormed(start)
    requires placed <= CellsWith(start, EMPTY) && |placed| < |CellsWith(start, EMPTY)|
    ensures CellsWith(start, EMPTY) - placed != {}
    ensures CellsWith(start, EMPTY) - placed <= AllCells
  {
    DifferenceSize(CellsWith(start, EMPTY), placed);
  }

  /** A drawn cell that is not empty is not the empty cell aimed at. */
  lemma TargetMissed(start: Board, placed: set<Pos>, target: Pos, drawn: Pos)
    requires target in CellsWith(start, EMPTY) - placed
    requires drawn !in CellsWith(Fill(start, placed, TREASURE), EMPTY)
    ensures drawn != target
  {
  }

  /** An obstacle on an empty cell leaves the treasures where they were. */
  lemma ObstacleOnEmpty(b: Board, cell: Pos)
    requires cell in CellsWith(b, EMPTY)
    ensures CellsWith(b[cell := OBSTACLE], TREASURE) == CellsWith(b, TREASURE)
    ensures b[cell := OBSTACLE][cell := EMPTY] == b
  {
  }

  /** What holds between two rounds of the obstacle loop started on board
      `start`: every empty cell of `start` is still to be tried, kept or
      rejected; the kept ones are obstacles and have kept the treasures
      connected; each rejected one would cut a treasure off. */
  ghost predicate ObstacleSearch(start: Board, player: Pos, remaining: seq<Pos>, kept: set<Pos>, rejected: set<Pos>)
  {
    var board := Fill(start, kept, OBSTACLE);
    Distinct(remaining) &&
    (forall c :: c in CellsWith(start, EMPTY) <==> c in remaining || c in kept || c in rejected) &&
    kept !! rejected &&
    (forall c :: c in remaining ==> c !in kept && c !in rejected) &&
    (TreasuresConnected(start, player) ==> TreasuresConnected(board, player)) &&
    (forall c :: c in rejected ==> !TreasuresConnected(board[c := OBSTACLE], player))
  }

  lemma ObstacleSearchStart(start: Board, player: Pos, remaining: seq<Pos>)
    requires Distinct(remaining) && forall c :: c in remaining <==> c in CellsWith(start, EMPTY)
    ensures ObstacleSearch(start, player, remaining, {}, {})
  {
    assert Fill(start, {}, OBSTACLE) == start;
  }

  /** What holds after the directions before `k` have been looked at from
      `current`: the cells marked since are open neighbours, queued once
      each, and every open neighbour looked at is marked. */
  ghost predicate NeighborsQueued(b: Board, current: Pos, seen: set<Pos>, queue: seq<Pos>,
                                  seen': set<Pos>, queue': seq<Pos>, k: nat)
  {
    seen <= seen' <= AllCells &&
    (forall p :: p in queue' <==> p in queue || p in seen' - seen) &&
    Distinct(queue') && (forall p :: p in queue' ==> p in seen') &&
    (forall p :: p in seen' - seen ==> Link(b, current, p)) &&
    (forall m :: 0 <= m < k && m < |Directions| ==> Step(current, m) in seen' || !Open(b, Step(current, m))) &&
    (seen' == seen ==> queue' == queue)
  }

  lemma NeighborsStart(b: Board, current: Pos, seen: set<Pos>, queue: seq<Pos>)
    requires seen <= AllCells && Distinct(queue) && forall p :: p in queue ==> p in seen
    ensures NeighborsQueued(b, current, seen, queue, seen, queue, 0)
  {
  }

  /** Direction `k` adds its cell when it is open and unmarked. */
  lemma NeighborQueued(b: Board, current: Pos, seen: set<Pos>, queue: seq<Pos>,
                       seen0: set<Pos>, queue0: seq<Pos>, k: nat, seen1: set<Pos>, queue1: seq<Pos>)
    requires NeighborsQueued(b, current, seen, queue, seen0, queue0, k) && k < |Directions|
    requires seen1 <= AllCells
    requires var next := Step(current, k);
             if Open(b, next) && next !in seen0
             then seen1 == seen0 + {next} && queue1 == queue0 + [next] && Link(b, current, next)
             else seen1 == seen0 && queue1 == queue0
    ensures NeighborsQueued(b, current, seen, queue, seen1, queue1, k + 1)
  {
  }

  /** After the four directions every move from `current` ends on a marked
      cell, and a round that marked nothing left the queue alone. */
  lemma NeighborsEnd(b: Board, current: Pos, seen: set<Pos>, queue: seq<Pos>, seen': set<Pos>, queue': seq<Pos>)
    requires NeighborsQueued(b, current, seen, queue, seen', queue', |Directions|)
    ensures forall d :: Link(b, current, d) ==> d in seen'
    ensures |seen'| > |seen| || (seen' == seen && queue' == queue)
  {
    forall d | Link(b, current, d) ensures d in seen' {
      var m :| 0 <= m < 4 && d == Step(current, m);
      LinkStep(b, current, m);
    }
    if seen' != seen {
      ProperSubsetSize(seen, seen');
    }
  }

  /** A cell still to be tried is empty on the current board. */
  lemma SearchCellEmpty(start: Board, player: Pos, remaining: seq<Pos>, kept: set<Pos>, rejected: set<Pos>, index: nat)
    requires ObstacleSearch(start, player, remaining, kept, rejected) && index < |remaining|
    ensures remaining[index] in CellsWith(Fill(start, kept, OBSTACLE), EMPTY)
  {
    assert remaining[index] in CellsWith(start, EMPTY);
  }

  /** A cell whose obstacle kept the treasures connected joins the kept
      ones; the cells rejected before still cut a treasure off, now that
      there are more obstacles. */
  lemma KeepStep(start: Board, player: Pos, remaining: seq<Pos>, kept: set<Pos>, rejected: set<Pos>, index: nat)
    requires ObstacleSearch(start, player, remaining, kept, rejected) && index < |remaining|
    requires TreasuresConnected(Fill(start, kept, OBSTACLE)[remaining[index] := OBSTACLE], player)
    ensures var cell := remaining[index];
            Fill(start, kept, OBSTACLE)[cell := OBSTACLE] == Fill(start, kept + {cell}, OBSTACLE) &&
            |kept + {cell}| == |kept| + 1 &&
            ObstacleSearch(start, player, RemoveAt(remaining, index), kept + {cell}, rejected)
  {
    var cell := remaining[index];
    var before, after := Fill(start, kept, OBSTACLE), Fill(start, kept + {cell}, OBSTACLE);
    FillOne(start, kept, OBSTACLE, cell);
    assert AddsObstacles(before, after);
    forall c | c in rejected ensures !TreasuresConnected(after[c := OBSTACLE], player) {
      BlockingPersists(before, after, player, c);
    }
  }

  /** A cell whose obstacle cut a treasure off joins the rejected ones. */
  lemma RejectStep(start: Board, player: Pos, remaining: seq<Pos>, kept: set<Pos>, rejected: set<Pos>, index: nat)
    requires ObstacleSearch(start, player, remaining, kept, rejected) && index < |remaining|
    requires !TreasuresConnected(Fill(start, kept, OBSTACLE)[remaining[index] := OBSTACLE], player)
    ensures ObstacleSearch(start, player, RemoveAt(remaining, index), kept, rejected + {remaining[index]})
  {
  }

  /** With no cell left to try, every empty cell not kept would cut a
      treasure off. */
  lemma ObstacleSearchEnd(start: Board, player: Pos, remaining: seq<Pos>, kept: set<Pos>, rejected: set<Pos>)
    requires ObstacleSearch(start, player, remaining, kept, rejected)
    ensures kept <= CellsWith(start, EMPTY)
    ensures remaining == [] ==>
              forall c :: c in CellsWith(start, EMPTY) - kept ==>
                !TreasuresConnected(Fill(start, kept, OBSTACLE)[c := OBSTACLE], player)
  {
  }

  /** The player on a cleared grid leaves room for the treasures. */
  lemma PlayerOnBlank(player: Pos)
    requires player in AllCells
    ensures |CellsWith(Blank()[player := PLAYER], EMPTY)| >= TREASURES
  {
    BlankCells();
    FillSingle(Blank(), player, PLAYER);
    FillEmpty(Blank(), {player}, PLAYER);
    AllCellsSize();
  }

  /** Seven treasures on empty cells of that grid: one player cell, seven
      treasure cells, no obstacle. */
  lemma TreasuresOnPlayerBoard(player: Pos, placed: set<Pos>)
    requires player in AllCells
    requires placed <= CellsWith(Blank()[player := PLAYER], EMPTY) && |placed| == TREASURES
    ensures var b := Fill(Blank()[player := PLAYER], placed, TREASURE);
            WellFormed(b) && CodesValid(b) &&
            CellsWith(b, PLAYER) == {player} &&
            |CellsWith(b, TREASURE)| == TREASURES &&
            CellsWith(b, OBSTACLE) == {}
  {
    var b1 := Blank()[player := PLAYER];
    BlankCells();
    FillSingle(Blank(), player, PLAYER);
    FillEmpty(Blank(), {player}, PLAYER);
    FillEmpty(b1, placed, TREASURE);
  }

  /** With no obstacle yet, every one of those treasures can be reached. */
  lemma TreasuresOnBlank(player: Pos, placed: set<Pos>)
    requires player in AllCells
    requires placed <= CellsWith(Blank()[player := PLAYER], EMPTY) && |placed| == TREASURES
    ensures var b := Fill(Blank()[player := PLAYER], placed, TREASURE);
            |CellsWith(b, TREASURE)| == TREASURES && TreasuresConnected(b, player)
  {
    TreasuresOnPlayerBoard(player, placed);
    ObstacleFreeRegion(Fill(Blank()[player := PLAYER], placed, TREASURE), player);
  }

  /** Obstacles on cells that are still empty complete a consistent game
      with no move made, whose obstacles are the ones placed. */
  lemma NewBoard(player: Pos, placed: set<Pos>, kept: set<Pos>)
    requires player in AllCells
    requires placed <= CellsWith(Blank()[player := PLAYER], EMPTY) && |placed| == TREASURES
    requires kept <= CellsWith(Fill(Blank()[player := PLAYER], placed, TREASURE), EMPTY)
    ensures var b := Fill(Fill(Blank()[player := PLAYER], placed, TREASURE), kept, OBSTACLE);
            Consistent(Snapshot(b, player, 0, TREASURES)) &&
            CellsWith(b, OBSTACLE) == kept
  {
    TreasuresOnPlayerBoard(player, placed);
    FillEmpty(Fill(Blank()[player := PLAYER], placed, TREASURE), kept, OBSTACLE);
  }
}
