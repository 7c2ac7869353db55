/** The high-score list: the record, the comparator the list is sorted with,
    the one-line text format the scores file holds and the parse that reads
    it back. */
module HighScores {
  import opened JavaText

  datatype HighScore = HighScore(name: string, time: int, moves: int)

  // ---------------------------------------------------------------------
  // Ordering
  // ---------------------------------------------------------------------

  /** `Integer.compare`. */
  function IntCompare(x: int, y: int): int
  {
    if x < y then -1 else if x == y then 0 else 1
  }

  /** The comparator handed to `List.sort`: time first, moves on a tie. */
  function Compare(a: HighScore, b: HighScore): (r: int)
    ensures r < 0 <==> a.time < b.time || (a.time == b.time && a.moves < b.moves)
    ensures r == 0 <==> a.time == b.time && a.moves == b.moves
    ensures -1 <= r <= 1
  {
    if a.time != b.time then IntCompare(a.time, b.time) else IntCompare(a.moves, b.moves)
  }

  /** The comparator is a total preorder: swapping the arguments flips the
      sign, and "not after" is transitive. */
  lemma CompareIsTotalPreorder(a: HighScore, b: HighScore, c: HighScore)
    ensures Compare(a, b) == -Compare(b, a)
    ensures Compare(a, b) <= 0 && Compare(b, c) <= 0 ==> Compare(a, c) <= 0
    ensures Compare(a, b) < 0 && Compare(b, c) <= 0 ==> Compare(a, c) < 0
    ensures Compare(a, b) <= 0 <==> NotAfter(a, b)
  {
  }

  predicate SameKey(a: HighScore, b: HighScore) { a.time == b.time && a.moves == b.moves }

  /** `a` may stand before `b`: the comparator does not put it after. */
  predicate NotAfter(a: HighScore, b: HighScore)
  {
    a.time < b.time || (a.time == b.time && a.moves <= b.moves)
  }

  /** Ascending by time, then by moves. */
  predicate Sorted(s: seq<HighScore>)
  {
    forall i, j :: 0 <= i < j < |s| ==> NotAfter(s[i], s[j])
  }

  /** Puts `h` after every entry that does not sort after it. */
  function Insert(sorted: seq<HighScore>, h: HighScore): (r: seq<HighScore>)
    ensures multiset(r) == multiset(sorted) + multiset{h}
    ensures Sorted(sorted) ==> Sorted(r)
  {
    if sorted == [] then [h]
    else if Compare(h, sorted[0]) < 0 then
      SortedFront(h, sorted);
      [h] + sorted
    else
      var rest := Insert(sorted[1..], h);
      assert sorted == [sorted[0]] + sorted[1..];
      SortedAfterFirst(sorted, h, rest);
      [sorted[0]] + rest
  }

  /** An entry that sorts before the first of a sorted list can go in front. */
  lemma SortedFront(h: HighScore, sorted: seq<HighScore>)
    requires sorted != [] && NotAfter(h, sorted[0])
    ensures Sorted(sorted) ==> Sorted([h] + sorted)
  {
    if Sorted(sorted) {
      forall x | x in sorted ensures NotAfter(h, x) {
        var j :| 0 <= j < |sorted| && sorted[j] == x;
        assert NotAfter(sorted[0], sorted[j]) || j == 0;
      }
      SortedCons(h, sorted);
    }
  }

  /** The first entry of a sorted list can stay in front of `rest` when
      `rest` is sorted and holds the others and `h`, which does not sort
      before it. */
  lemma SortedAfterFirst(sorted: seq<HighScore>, h: HighScore, rest: seq<HighScore>)
    requires sorted != [] && NotAfter(sorted[0], h)
    requires multiset(rest) == multiset(sorted[1..]) + multiset{h}
    requires Sorted(sorted) ==> Sorted(rest)
    ensures Sorted(sorted) ==> Sorted([sorted[0]] + rest)
  {
    if Sorted(sorted) {
      forall x | x in rest ensures NotAfter(sorted[0], x) {
        assert x in multiset(rest);
        if x != h {
          var j :| 0 <= j < |sorted[1..]| && sorted[1..][j] == x;
          assert NotAfter(sorted[0], sorted[j + 1]);
        }
      }
      SortedCons(sorted[0], rest);
    }
  }

  /** An entry that sorts before every entry of a sorted list can go in
      front of it. */
  lemma SortedCons(x: HighScore, s: seq<HighScore>)
    requires Sorted(s) && forall y :: y in s ==> NotAfter(x, y)
    ensures Sorted([x] + s)
  {
    forall i, j | 0 <= i < j < |s| + 1 ensures NotAfter(([x] + s)[i], ([x] + s)[j]) {
      if i == 0 {
        assert s[j - 1] in s;
      } else {
        assert ([x] + s)[i] == s[i - 1] && ([x] + s)[j] == s[j - 1];
      }
    }
  }

  /** `highScores.sort(...)`. Java's list sort is stable, and so is this
      insertion sort; a stable sort by this comparator has exactly one
      possible result. */
  function Sort(s: seq<HighScore>): (r: seq<HighScore>)
    ensures Sorted(r)
    ensures multiset(r) == multiset(s)
  {
    if s == [] then []
    else
      assert s == s[..|s| - 1] + [s[|s| - 1]];
      Insert(Sort(s[..|s| - 1]), s[|s| - 1])
  }

  /** The entries of `s` that tie with `k`, in their order in `s`. */
  function Ties(s: seq<HighScore>, k: HighScore): seq<HighScore>
  {
    if s == [] then []
    else (if SameKey(s[0], k) then [s[0]] else []) + Ties(s[1..], k)
  }

  lemma {:induction false} TiesAppend(s: seq<HighScore>, t: seq<HighScore>, k: HighScore)
    ensures Ties(s + t, k) == Ties(s, k) + Ties(t, k)
  {
    if s != [] {
      var head := if SameKey(s[0], k) then [s[0]] else [];
      assert (s + t)[0] == s[0];
      assert (s + t)[1..] == s[1..] + t;
      TiesAppend(s[1..], t, k);
      assert Ties(s + t, k) == head + (Ties(s[1..], k) + Ties(t, k));
      assert head + (Ties(s[1..], k) + Ties(t, k)) == (head + Ties(s[1..], k)) + Ties(t, k);
    } else {
      assert s + t == t;
    }
  }

  lemma {:induction false} NoTies(s: seq<HighScore>, k: HighScore)
    requires forall x :: x in s ==> !SameKey(x, k)
    ensures Ties(s, k) == []
  {
    if s != [] {
      NoTies(s[1..], k);
    }
  }

  /** Inserting keeps the entries that tie with `k` in order, with `h`
      after them when it ties too. */
  lemma {:induction false} InsertStable(sorted: seq<HighScore>, h: HighScore, k: HighScore)
    requires Sorted(sorted)
    ensures Ties(Insert(sorted, h), k) == Ties(sorted, k) + Ties([h], k)
  {
    if sorted == [] {
    } else if Compare(h, sorted[0]) < 0 {
      InsertFrontStable(sorted, h, k);
    } else {
      var rest := Insert(sorted[1..], h);
      InsertAfterFirst(sorted, h);
      SortedTail(sorted);
      InsertStable(sorted[1..], h, k);
      TiesStep(sorted[0], rest, sorted[1..], Ties([h], k), k);
      assert [sorted[0]] + sorted[1..] == sorted;
    }
  }

  lemma InsertAfterFirst(sorted: seq<HighScore>, h: HighScore)
    requires sorted != [] && Compare(h, sorted[0]) >= 0
    ensures Insert(sorted, h) == [sorted[0]] + Insert(sorted[1..], h)
  {
  }

  lemma SortedTail(s: seq<HighScore>)
    requires Sorted(s) && s != []
    ensures Sorted(s[1..])
  {
  }

  /** Putting the same entry in front of two lists with related ties keeps
      them related. */
  lemma TiesStep(x: HighScore, a: seq<HighScore>, b: seq<HighScore>, c: seq<HighScore>, k: HighScore)
    requires Ties(a, k) == Ties(b, k) + c
    ensures Ties([x] + a, k) == Ties([x] + b, k) + c
  {
    TiesFirst([x] + a, k);
    TiesFirst([x] + b, k);
    assert ([x] + a)[1..] == a;
    assert ([x] + b)[1..] == b;
  }

  /** The ties of a non-empty list: those of its first entry, then those of
      the rest. */
  lemma TiesFirst(s: seq<HighScore>, k: HighScore)
    requires s != []
    ensures Ties(s, k) == Ties([s[0]], k) + Ties(s[1..], k)
  {
    assert Ties([s[0]], k) == (if SameKey(s[0], k) then [s[0]] else []) + Ties([], k);
  }

  /** When `h` goes in front, no entry after it ties with it. */
  lemma InsertFrontStable(sorted: seq<HighScore>, h: HighScore, k: HighScore)
    requires Sorted(sorted) && sorted != [] && Compare(h, sorted[0]) < 0
    ensures Ties(Insert(sorted, h), k) == Ties(sorted, k) + Ties([h], k)
  {
    assert Insert(sorted, h) == [h] + sorted;
    TiesAppend([h], sorted, k);
    if SameKey(h, k) {
      forall x | x in sorted ensures !SameKey(x, k) {
        var i :| 0 <= i < |sorted| && sorted[i] == x;
        assert i == 0 || NotAfter(sorted[0], sorted[i]);
      }
      NoTies(sorted, k);
    } else {
      assert Ties([h], k) == [];
    }
  }

  /** Sorting keeps the relative order of entries with equal time and
      moves. */
  lemma {:induction false} SortStable(s: seq<HighScore>, k: HighScore)
    ensures Ties(Sort(s), k) == Ties(s, k)
  {
    if s != [] {
      var init, last := s[..|s| - 1], s[|s| - 1];
      SortStable(init, k);
      InsertStable(Sort(init), last, k);
      SortLast(s);
      TiesLast(s, k);
    }
  }

  lemma SortLast(s: seq<HighScore>)
    requires s != []
    ensures Sort(s) == Insert(Sort(s[..|s| - 1]), s[|s| - 1])
  {
  }

  /** The ties of a non-empty list: those before its last entry, then the
      last entry's. */
  lemma TiesLast(s: seq<HighScore>, k: HighScore)
    requires s != []
    ensures Ties(s, k) == Ties(s[..|s| - 1], k) + Ties([s[|s| - 1]], k)
  {
    assert s == s[..|s| - 1] + [s[|s| - 1]];
    TiesAppend(s[..|s| - 1], [s[|s| - 1]], k);
  }

  /** What `addHighScore` leaves in the list: the entries read back from the
      file, the new one appended, all sorted. */
  function AddScore(loaded: seq<HighScore>, h: HighScore): (r: seq<HighScore>)
    ensures Sorted(r)
    ensures multiset(r) == multiset(loaded) + multiset{h}
    ensures |r| == |loaded| + 1
  {
    var all := loaded + [h];
    assert multiset(all) == multiset(loaded) + multiset{h};
    var r := Sort(all);
    assert |r| == |multiset(r)| == |multiset(all)| == |all|;
    r
  }

  // ---------------------------------------------------------------------
  // One entry per line: "<name> - <time> seconds, <moves> moves"
  // ---------------------------------------------------------------------

  const NAME_SEPARATOR := " - "
  const FIELD_SEPARATOR := ", "
  const SECONDS_SUFFIX := " seconds"
  const MOVES_SUFFIX := " moves"

  /** The line `saveHighScores` writes for one entry. */
  function FormatLine(h: HighScore): string
  {
    h.name + NAME_SEPARATOR + IntToString(h.time) + SECONDS_SUFFIX + FIELD_SEPARATOR + IntToString(h.moves) + MOVES_SUFFIX
  }

  /** The lines `saveHighScores` writes, one per entry, in list order. */
  function FormatLines(scores: seq<HighScore>): (lines: seq<string>)
    ensures |lines| == |scores|
    ensures forall i :: 0 <= i < |scores| ==> lines[i] == FormatLine(scores[i])
  {
    if scores == [] then [] else [FormatLine(scores[0])] + FormatLines(scores[1..])
  }

  /** The lines of one more entry of a list: those before it, then its
      own. */
  lemma FormatLinesStep(scores: seq<HighScore>, i: nat)
    requires i < |scores|
    ensures FormatLines(scores[..i + 1]) == FormatLines(scores[..i]) + [FormatLine(scores[i])]
  {
    assert scores[..i + 1] == scores[..i] + [scores[i]];
    FormatLinesAppend(scores[..i], scores[i]);
  }

  /** One more entry adds its line at the end. */
  lemma {:induction false} FormatLinesAppend(scores: seq<HighScore>, h: HighScore)
    ensures FormatLines(scores + [h]) == FormatLines(scores) + [FormatLine(h)]
  {
    if scores != [] {
      assert (scores + [h])[1..] == scores[1..] + [h];
      FormatLinesAppend(scores[1..], h);
    }
  }

  /** What one line does to the load loop: ignored, one entry, or the
      `NumberFormatException` that ends the load. */
  datatype LineParse = Skipped | Parsed(score: HighScore) | NumberFormatError

  /** The two numeric fields of a line, each trimmed and stripped of its
      unit. */
  function ParseEntry(name: string, timeField: string, movesField: string): LineParse
  {
    var time := ParseInt(Replace(Trim(timeField), SECONDS_SUFFIX, ""));
    var moves := ParseInt(Replace(Trim(movesField), MOVES_SUFFIX, ""));
    if time.None? || moves.None? then NumberFormatError
    else Parsed(HighScore(name, time.value, moves.value))
  }

  /** One line of `loadHighScores`: split on " - ", then the second part on
      ", "; a split that does not give exactly two parts skips the line. */
  function ParseLine(line: string): LineParse
  {
    var parts := Split(line, NAME_SEPARATOR);
    if |parts| != 2 then Skipped
    else
      var details := Split(parts[1], FIELD_SEPARATOR);
      if |details| != 2 then Skipped
      else ParseEntry(parts[0], details[0], details[1])
  }

  /** The list `loadHighScores` builds: the entries of the lines in order,
      skipped lines left out, and nothing from the first line whose number
      does not parse onwards. */
  function LoadLines(lines: seq<string>): (scores: seq<HighScore>)
    ensures |scores| <= |lines|
  {
    if lines == [] then []
    else
      var rest := LoadLines(lines[1..]);
      match ParseLine(lines[0])
      case Skipped => rest
      case Parsed(h) => [h] + rest
      case NumberFormatError => []
  }

  // ---------------------------------------------------------------------
  // Properties of the format
  // ---------------------------------------------------------------------

  /** A line made of a name, " - ", a time field, ", " and a non-empty moves
      field, where only the separators contribute '-' and ',', splits into
      exactly those fields. */
  lemma ParseLineFields(name: string, timeField: string, movesField: string)
    requires '-' !in name && '-' !in timeField && '-' !in movesField
    requires ',' !in timeField && ',' !in movesField
    requires movesField != ""
    ensures ParseLine(name + NAME_SEPARATOR + (timeField + FIELD_SEPARATOR + movesField)) == ParseEntry(name, timeField, movesField)
  {
    var rest := timeField + FIELD_SEPARATOR + movesField;
    var line := name + NAME_SEPARATOR + rest;
    assert NAME_SEPARATOR[1] == '-' && NAME_SEPARATOR[..1] == " ";
    assert '-' !in rest;
    PiecesAfter(name, NAME_SEPARATOR, rest, 1);
    PiecesNone(rest, NAME_SEPARATOR, 1);
    assert Pieces(line, NAME_SEPARATOR) == [name, rest];
    assert Split(line, NAME_SEPARATOR) == [name, rest];
    assert FIELD_SEPARATOR[0] == ',' && FIELD_SEPARATOR[..0] == "";
    PiecesAfter(timeField, FIELD_SEPARATOR, movesField, 0);
    PiecesNone(movesField, FIELD_SEPARATOR, 0);
    assert Pieces(rest, FIELD_SEPARATOR) == [timeField, movesField];
    assert Split(rest, FIELD_SEPARATOR) == [timeField, movesField];
  }

  /** A number followed by its unit reads back as that number. */
  lemma NumberField(n: int, unit: string)
    requires 0 <= n <= MAX_INT
    requires |unit| > 1 && unit[0] == ' ' && !IsTrimmed(unit[|unit| - 1])
    ensures ParseInt(Replace(Trim(IntToString(n) + unit), unit, "")) == Some(n)
  {
    var digits := IntToString(n);
    var field := digits + unit;
    NatToStringChars(n);
    assert field[0] == digits[0] && field[|field| - 1] == unit[|unit| - 1];
    TrimUntouched(field);
    assert ' ' !in digits;
    assert unit[..0] == "";
    ReplaceRemovesUnit(digits, unit, 0);
    ParseIntToString(n);
  }

  /** The entries `saveHighScores` can write and `loadHighScores` reads back
      unchanged: no '-' in the name, and no line break, which would split the
      written line in two when the file is read back line by line; time and
      moves non-negative. */
  predicate Writable(h: HighScore)
  {
    '-' !in h.name && '\n' !in h.name && '\r' !in h.name &&
    0 <= h.time <= MAX_INT && 0 <= h.moves <= MAX_INT
  }

  /** Reading back a written line gives the entry that was written. */
  lemma ParseFormatLine(h: HighScore)
    requires Writable(h)
    ensures ParseLine(FormatLine(h)) == Parsed(h)
  {
    FormatLineFields(h);
    NumberField(h.time, SECONDS_SUFFIX);
    NumberField(h.moves, MOVES_SUFFIX);
  }

  /** A written line splits back into its name and its two fields. */
  lemma FormatLineFields(h: HighScore)
    requires Writable(h)
    ensures ParseLine(FormatLine(h)) ==
            ParseEntry(h.name, IntToString(h.time) + SECONDS_SUFFIX, IntToString(h.moves) + MOVES_SUFFIX)
  {
    var timeField, movesField := IntToString(h.time) + SECONDS_SUFFIX, IntToString(h.moves) + MOVES_SUFFIX;
    FormatLineShape(h);
    PlainField(h.time, SECONDS_SUFFIX);
    PlainField(h.moves, MOVES_SUFFIX);
    ParseLineFields(h.name, timeField, movesField);
  }

  /** The line written for a writable entry holds no line break, so it is
      read back as one line. */
  lemma FormatLineOneLine(h: HighScore)
    requires Writable(h)
    ensures '\n' !in FormatLine(h) && '\r' !in FormatLine(h)
  {
    FormatLineShape(h);
    PlainField(h.time, SECONDS_SUFFIX);
    PlainField(h.moves, MOVES_SUFFIX);
  }

  /** A number with its unit holds neither '-' nor ','. */
  lemma PlainField(n: nat, unit: string)
    requires unit == SECONDS_SUFFIX || unit == MOVES_SUFFIX
    ensures var field := IntToString(n) + unit;
            '-' !in field && ',' !in field && '\n' !in field && '\r' !in field && field != ""
  {
    var digits := IntToString(n);
    NatToStringChars(n);
    UnitPlain(unit);
    forall c | c in digits + unit
      ensures c in digits || c in unit
    {
    }
  }

  /** The units hold no '-', ',' or line break. */
  lemma UnitPlain(unit: string)
    requires unit == SECONDS_SUFFIX || unit == MOVES_SUFFIX
    ensures '-' !in unit && ',' !in unit && '\n' !in unit && '\r' !in unit
  {
  }

  /** A written line, grouped as the parse reads it: the name, then the
      time field and the moves field. */
  lemma FormatLineShape(h: HighScore)
    ensures FormatLine(h) ==
              h.name + NAME_SEPARATOR +
              ((IntToString(h.time) + SECONDS_SUFFIX) + FIELD_SEPARATOR + (IntToString(h.moves) + MOVES_SUFFIX))
  {
  }

  /** Loading the lines of a saved list gives the list back. */
  lemma {:induction false} LoadFormatLines(scores: seq<HighScore>)
    requires forall h :: h in scores ==> Writable(h)
    ensures LoadLines(FormatLines(scores)) == scores
  {
    if scores != [] {
      var lines := FormatLines(scores);
      ParseFormatLine(scores[0]);
      LoadParsedFirst(lines, scores[0]);
      LoadFormatLines(scores[1..]);
      assert scores == [scores[0]] + scores[1..];
    }
  }

  /** The lines from `i` on load as line `i` says: without it when it is
      skipped, with its entry in front when it parses, and to nothing when
      its number does not parse. */
  lemma LoadNext(lines: seq<string>, i: nat)
    requires i < |lines|
    ensures var rest := LoadLines(lines[i + 1..]);
            match ParseLine(lines[i])
            case Skipped => LoadLines(lines[i..]) == rest
            case Parsed(h) => LoadLines(lines[i..]) == [h] + rest
            case NumberFormatError => LoadLines(lines[i..]) == []
  {
    assert lines[i..][0] == lines[i] && lines[i..][1..] == lines[i + 1..];
  }

  /** Every loaded entry is the entry of one of the lines. */
  lemma {:induction false} LoadedFromLines(lines: seq<string>)
    ensures forall h :: h in LoadLines(lines) ==>
              exists i :: 0 <= i < |lines| && ParseLine(lines[i]) == Parsed(h)
  {
    if lines != [] {
      var rest := lines[1..];
      LoadedFromLines(rest);
      forall h | h in LoadLines(lines)
        ensures exists i :: 0 <= i < |lines| && ParseLine(lines[i]) == Parsed(h)
      {
        if ParseLine(lines[0]) == Parsed(h) {
          assert 0 < |lines|;
        } else {
          assert h in LoadLines(rest);
          var i :| 0 <= i < |rest| && ParseLine(rest[i]) == Parsed(h);
          assert lines[i + 1] == rest[i];
        }
      }
    }
  }

  /** A first line that parses puts its entry in front of the rest. */
  lemma LoadParsedFirst(lines: seq<string>, h: HighScore)
    requires lines != [] && ParseLine(lines[0]) == Parsed(h)
    ensures LoadLines(lines) == [h] + LoadLines(lines[1..])
  {
  }

  /** A line without a '-' never holds the name separator and is skipped. */
  lemma LineWithoutSeparatorSkipped(line: string)
    requires '-' !in line
    ensures ParseLine(line) == Skipped
  {
    PiecesNone(line, NAME_SEPARATOR, 1);
  }

  /** A line whose number does not parse ends the load: nothing from it or
      from any later line is kept. */
  lemma {:induction false} LoadStopsAtError(lines: seq<string>, k: nat)
    requires k < |lines| && ParseLine(lines[k]) == NumberFormatError
    ensures LoadLines(lines) == LoadLines(lines[..k])
  {
    if k > 0 {
      var rest, front := lines[1..], lines[..k];
      assert rest[k - 1] == lines[k];
      LoadStopsAtError(rest, k - 1);
      assert front[1..] == rest[..k - 1];
      LoadSameFirst(lines, front);
    } else {
      assert lines[..k] == [];
    }
  }

  /** Two line lists with the same first line load alike when the lines
      after it do. */
  lemma LoadSameFirst(a: seq<string>, b: seq<string>)
    requires a != [] && b != [] && a[0] == b[0]
    requires LoadLines(a[1..]) == LoadLines(b[1..])
    ensures LoadLines(a) == LoadLines(b)
  {
  }

  /** Loading is line by line: before any bad number, the entries of two
      blocks of lines are those of each block in turn. */
  lemma {:induction false} LoadAppend(a: seq<string>, b: seq<string>)
    requires forall i :: 0 <= i < |a| ==> ParseLine(a[i]) != NumberFormatError
    ensures LoadLines(a + b) == LoadLines(a) + LoadLines(b)
  {
    if a != [] {
      assert (a + b)[0] == a[0];
      assert (a + b)[1..] == a[1..] + b;
      LoadAppend(a[1..], b);
      assert ParseLine(a[0]) != NumberFormatError;
    } else {
      assert a + b == b;
    }
  }
}
