# Treasure Hunt Adventure — a verified model of the game core

Treasure Hunt Adventure is a Swing game played on a 10 × 10 grid. Each cell
holds a code: 0 empty, 1 player, 2 treasure or 3 obstacle. A new board is
built in four steps:

- the grid is cleared;
- the player goes on a random cell;
- seven treasures go on random empty cells;
- the game aims for `15 + nextInt(15)` obstacles.

Each obstacle goes on a random empty cell. A breadth-first search then
checks whether it cut a treasure off, and if so the obstacle is taken away
again. The arrow keys move the player one cell:

- a move off the grid is refused;
- a move onto an obstacle ends the game;
- any other move collects the treasure on its target, if there is one.

When the last treasure is found and the player enters a non-blank name,
that name, the time and the move count go into a high-score list. The list lives in a text file with one
`name - T seconds, M moves` line per entry and is kept sorted by time, then
by moves.

The model has five modules, one per file:

- `JavaText` (`java_text.dfy`): the Java library behaviour the score file
  relies on.
  - `String.split` with a literal separator, `String.replace` and
    `String.trim`.
  - `Integer.parseInt` and `Integer.toString` in radix 10.
  - The `(int)` cast.
- `HighScores` (`high_scores.dfy`): the score record and the comparator.
  - The stable sort, modelled as insertion sort.
  - The line format and the parse of one line.
  - What the load loop keeps from a list of lines.
- `Grid` (`grid.dfy`): the board as a value, a `map` from cells to codes.
  - Moves, paths and the region reachable from a cell.
  - The invariant of the breadth-first search.
  - The effect of obstacles on reachability.
- `Oracle` (`oracle.dfy`): `java.util.Random` as a class that reads an
  arbitrary tape of numbers.
- `TreasureHunt` (`game.dfy`): the game object as a class.
  - It keeps the grid in an `array2<int>`, with a ghost `board` tied to it.
  - Board generation, the search and the moves are imperative methods,
    proved against the functions and predicates of `Grid`. So is loading
    and saving the scores.
  - A move is specified by the pure function `Move` on a `Snapshot` of the
    fields it touches. A win is specified by `RecordWin`.

## Model

| member | source | states |
|---|---|---|
| JavaText.ToInt32 | TreasureHuntAdventure.java:478 | the `(int)` cast of the elapsed `long` time: the result is an `int`, differs from the input by a multiple of 2^32, and is the input itself when that fits |
| JavaText.JoinPieces | TreasureHuntAdventure.java:496-501 | cutting a line at every occurrence of a separator, as `split` and `replace` scan it, loses nothing: gluing the pieces back with the separator gives the line |
| JavaText.DropTrailingEmpty | TreasureHuntAdventure.java:496-498 | `split` drops only empty trailing pieces: the result is a prefix of the pieces, ends in a non-empty piece, and everything dropped is empty |
| JavaText.SplitRejoins | TreasureHuntAdventure.java:496-498 | when no trailing piece is empty, `split` returns every piece, and gluing the parts back with the separator gives the line |
| JavaText.SplitNoMatch | TreasureHuntAdventure.java:496-497 | a line that lacks a character of the separator splits into one part, the line itself |
| JavaText.ReplaceSame | TreasureHuntAdventure.java:500-501 | `replace` changes only the occurrences of its target: replacing the target by itself gives the string back |
| JavaText.ReplaceRemovesUnit | TreasureHuntAdventure.java:500-501 | replacing a unit such as `" seconds"` by nothing, in a field that is a number followed by that unit, leaves exactly the number |
| JavaText.Trim | TreasureHuntAdventure.java:500-501 | `trim` keeps a middle part of the string; all it drops is characters up to the space, and the part kept neither starts nor ends with one |
| JavaText.IntToString | TreasureHuntAdventure.java:530 | `Integer.toString` writes a '-' exactly for a negative number, then decimal digits with no leading zero |
| JavaText.ParseIntRejects | TreasureHuntAdventure.java:500-501 | `Integer.parseInt` throws on any character that is neither a digit nor a leading sign |
| JavaText.ParseIntToString | TreasureHuntAdventure.java:500-501 | `Integer.parseInt` reads back every `int` that `Integer.toString` wrote |
| HighScores.Compare | TreasureHuntAdventure.java:515-521 | the comparator is negative exactly when the first entry has less time, or the same time and fewer moves; zero exactly when time and moves tie |
| HighScores.CompareIsTotalPreorder | TreasureHuntAdventure.java:515-521 | the comparator is antisymmetric in sign and transitive, so sorting by it is well defined |
| HighScores.Insert | TreasureHuntAdventure.java:515-521 | inserting an entry into a sorted list keeps it sorted and adds exactly that entry |
| HighScores.Sort | TreasureHuntAdventure.java:515-521 | the sort returns a sorted permutation of the list |
| HighScores.SortStable | TreasureHuntAdventure.java:515-521 | the sort is stable: entries with equal time and moves keep their relative order |
| HighScores.AddScore | TreasureHuntAdventure.java:512-524 | adding a score gives a sorted list that holds the loaded entries plus the new one, one longer |
| HighScores.FormatLines | TreasureHuntAdventure.java:529-532 | saving writes one line per entry, the i-th line being the i-th entry's |
| HighScores.FormatLinesAppend | TreasureHuntAdventure.java:527-536 | saving one more entry writes one more line, that entry's, at the end |
| HighScores.ParseLineFields | TreasureHuntAdventure.java:496-501 | a line `name - time, moves` whose name holds no '-', whose time and moves fields hold no '-' or ',', and whose moves field is non-empty splits into exactly those three fields |
| HighScores.LineWithoutSeparatorSkipped | TreasureHuntAdventure.java:496-497 | a line without a '-' gives one piece on the `" - "` split and is skipped |
| HighScores.ParseFormatLine | TreasureHuntAdventure.java:496-502 | the line written for an entry whose name has no '-' and no line break and whose numbers are non-negative parses back to that entry |
| HighScores.FormatLineFields | TreasureHuntAdventure.java:496-498 | the line written for an entry splits back into its name, its time field and its moves field |
| HighScores.FormatLineOneLine | TreasureHuntAdventure.java:530-531 | the line written for an entry whose name has no line break holds none, so `newLine` ends it and reading line by line gives it back whole |
| HighScores.LoadFormatLines | TreasureHuntAdventure.java:491-536 | loading the lines a save wrote gives back the saved list, for such entries |
| HighScores.LoadedFromLines | TreasureHuntAdventure.java:495-507 | every entry the load keeps was parsed from one of the file's lines |
| HighScores.LoadStopsAtError | TreasureHuntAdventure.java:500-507 | a line whose number does not parse ends the load: the list holds only what the lines before it gave |
| HighScores.LoadAppend | TreasureHuntAdventure.java:495-505 | before any bad number, loading works line by line: two blocks of lines load as each block in turn |
| Grid.BlankCells | TreasureHuntAdventure.java:244-248 | the cleared grid: every cell empty, none with another code |
| Grid.PlayerMoves | TreasureHuntAdventure.java:455-466 | emptying the player's cell and writing the player on the target leaves one player cell and removes only the collected treasure |
| Grid.FillEmpty | TreasureHuntAdventure.java:305-306 | writing a code on empty cells takes exactly those cells from the empty ones, adds them to that code's cells and leaves the other codes alone |
| Grid.ObstacleFreeRegion | TreasureHuntAdventure.java:338-365 | without obstacles, the search from any cell reaches every cell of the grid |
| Grid.SearchStep | TreasureHuntAdventure.java:347-365 | one round of the search keeps its invariant: queued and done cells are reachable, and every move from a done cell ends on a marked cell |
| Grid.SearchEnd | TreasureHuntAdventure.java:347-365 | when the queue runs empty, the cells dequeued are exactly the region reachable from the start |
| Grid.CountMeansConnected | TreasureHuntAdventure.java:367 | comparing the number of treasures found with the number on the board is the same as asking that every treasure be reachable |
| Grid.AddedObstaclesShrinkRegion | TreasureHuntAdventure.java:328-334 | more obstacles never make more cells reachable |
| Grid.RemovedObstacleGrowsRegion | TreasureHuntAdventure.java:330-331 | taking a rejected obstacle away again never shrinks the region reachable from any cell |
| Grid.BlockingPersists | TreasureHuntAdventure.java:326-335 | an empty cell whose obstacle would cut a treasure off still would after more obstacles are kept elsewhere |
| Grid.AllCellsSize | TreasureHuntAdventure.java:75-76 | the grid has N × N cells, which bounds the search |
| Oracle.Random.NextInt | TreasureHuntAdventure.java:293-294 | `nextInt(bound)` returns a number in [0, bound) and takes one draw |
| TreasureHunt.RemoveAt | TreasureHuntAdventure.java:327 | `remove(i)` takes out exactly the element at `i`: the list is one shorter, the elements before `i` stay put and the later ones shift left in order, and a list without duplicates stays free of them |
| TreasureHunt.RecordWinProperties | TreasureHuntAdventure.java:472-487 | a score is recorded exactly when no treasure is left and a non-blank name was given; it joins the reloaded list with the time cast to `int`, and the sorted list is written out in full; otherwise nothing changes |
| TreasureHunt.MoveProperties | TreasureHuntAdventure.java:428-469 | a move keeps the game consistent; a refused or fatal move changes nothing; any other move puts the player on the target, collects a treasure there, leaves other cells alone, and wins exactly when no treasure is left |
| TreasureHunt.KeepStep | TreasureHuntAdventure.java:326-334 | an obstacle that kept the treasures connected joins the kept ones, and the search invariant still holds |
| TreasureHunt.RejectStep | TreasureHuntAdventure.java:328-331 | an obstacle that cut a treasure off joins the rejected cells, and the search invariant still holds |
| TreasureHunt.ObstacleSearchEnd | TreasureHuntAdventure.java:326-335 | when every empty cell has been tried, each empty cell not kept would cut a treasure off |
| TreasureHunt.TreasuresOnBlank | TreasureHuntAdventure.java:240-310 | seven treasures on a cleared board with the player on it are seven treasure cells, all reachable from the player |
| TreasureHunt.NewBoard | TreasureHuntAdventure.java:240-336 | the generated board is a consistent game with no move made, and its obstacles are exactly the cells kept |
| TreasureHunt.Game.constructor | TreasureHuntAdventure.java:130-142 | the scores file is loaded, then a new game is generated |
| TreasureHunt.Game.Play | TreasureHuntAdventure.java:173-177 | the Play button generates a new game and reloads the scores file |
| TreasureHunt.Game.InitializeGame | TreasureHuntAdventure.java:240-252 | a new game has no move made and seven treasure cells, all reachable from the player, and fewer than 30 obstacles |
| TreasureHunt.Game.ClearGrid | TreasureHuntAdventure.java:244-248 | after clearing, every cell of the grid is empty |
| TreasureHunt.Game.PlacePlayer | TreasureHuntAdventure.java:292-296 | the player is put on the cell the next two draws name |
| TreasureHunt.Game.PlaceTreasures | TreasureHuntAdventure.java:299-310 | exactly seven cells that were empty now hold treasures, and nothing else changed |
| TreasureHunt.Game.DrawTreasure | TreasureHuntAdventure.java:303-308 | a drawn cell gets a treasure exactly when it is empty |
| TreasureHunt.Game.EmptyCells | TreasureHuntAdventure.java:315-324 | the collected list holds each empty cell once and nothing else, in row-major order, which fixes the cell each `remove(nextInt(size))` takes |
| TreasureHunt.Game.PlaceObstacles | TreasureHuntAdventure.java:313-336 | obstacles go only on empty cells, no more than the target; treasures connected before stay connected; if the target was not met, each other empty cell would cut a treasure off |
| TreasureHunt.Game.TryObstacle | TreasureHuntAdventure.java:327-334 | the obstacle stays exactly when, with it, every treasure is still reachable; otherwise the board is as before |
| TreasureHunt.Game.AllTreasuresReachable | TreasureHuntAdventure.java:338-368 | the search answers true exactly when it finds as many treasures as remain; it dequeues exactly the player's region, at most 100 cells |
| TreasureHunt.Game.EnqueueNeighbors | TreasureHuntAdventure.java:356-364 | after the four directions, every open neighbour is marked, and only open unmarked neighbours were queued, each once |
| TreasureHunt.Game.VisitNeighbor | TreasureHuntAdventure.java:357-363 | a neighbour is marked and queued exactly when it is on the grid, unmarked and not an obstacle |
| TreasureHunt.Game.MovePlayer | TreasureHuntAdventure.java:428-470 | the timer starts; the new state and outcome are those of `Move`; a win is recorded as `RecordWin` says |
| TreasureHunt.Game.Advance | TreasureHuntAdventure.java:455-467 | a move onto a free cell changes the grid, position, treasures and move count as `Move` says |
| TreasureHunt.Game.CheckGameStatus | TreasureHuntAdventure.java:472-487 | the status check records a win as `RecordWin` says |
| TreasureHunt.Game.LoadHighScores | TreasureHuntAdventure.java:491-509 | the list after loading is `LoadLines` of the file's lines |
| TreasureHunt.Game.AddHighScore | TreasureHuntAdventure.java:512-524 | the list becomes the reloaded entries plus the new one, sorted, and all of it is written |
| TreasureHunt.Game.SaveHighScores | TreasureHuntAdventure.java:527-536 | one line per entry, in list order, is written |

## Left out

- The Swing user interface is not modelled: the menu, the rules screen, the
  labels and the dialogs. A dialog's answer becomes an input (`WinInput`).
- The background music and the images are not modelled.
- The timer is not modelled. The elapsed seconds are an input to a move.
- File access is not modelled. The scores file is a list of lines in and a
  list of lines out. An `IOException` and `BufferedReader`'s line splitting
  are not part of this model.
- The replay question after a loss or a win (lines 445-451 and 480-486),
  `System.exit`, and the restart it leads to are not modelled. What happens
  after a losing or a winning move is outside this model; `Play` starts a
  new game.
- `displayHighScores` builds a message for a dialog and is not modelled.
- The distribution of `java.util.Random` is not modelled. Draws come from an
  arbitrary tape.
- TreasureHunt.Game.PlaceTreasures: requires a fair tape, one on which every
  cell is drawn again later. That is enough for the retry loop (lines
  302-309) to end, and `java.util.Random` is fair with probability one, but
  it is not necessary: the loop also ends on an unfair tape whose draws
  happen to name seven distinct empty cells, and such tapes are not covered.
- TreasureHunt.Game.InitializeGame: requires a fair tape, inherited from
  `PlaceTreasures`; unfair tapes on which the treasure loop still ends are
  not covered.
- TreasureHunt.Game.Play: requires a fair tape, inherited from
  `InitializeGame`, with the same gap.
- TreasureHunt.Game.constructor: requires a fair tape, inherited from
  `InitializeGame`, with the same gap.
- JavaText.ParseInt: accepts only ASCII digits. `Integer.parseInt` also
  accepts other Unicode decimal digits, which the format never writes.
- HighScores.ParseFormatLine: the round trip is proved only for names
  without '-' or a line break and for non-negative time and move counts. A
  name holding " - " or a line break does not read back; the restriction to
  non-negative numbers only keeps the proof simple.
- TreasureHunt.Game.AllTreasuresReachable: the bound on dequeues is a ghost
  out-parameter, since the Java search keeps no such count.
