/**
 * The game's user-interface state: the board the player sees, the cell being edited,
 * the 18 groups and the current mode; the validator that writes the per-cell
 * validity flags, and the handlers for a click and a key press on a cell.
 */
module App {
  import Util
  import opened Cells
  import opened Str8tsRow
  import opened Str8tsBoard
  import Backtrack

  /** What a click or a key does. */
  datatype GameMode = None | EditBlackWhite | EditFixedNumbers | PlayEnterNumbers | PlayEnterSmallNumbers

  /** The modes in which a click selects a cell and a key enters a number. */
  predicate EditsNumbers(mode: GameMode)
  {
    mode == EditFixedNumbers || mode == PlayEnterNumbers || mode == PlayEnterSmallNumbers
  }

  /** Every cell carries its nine pencil marks. */
  predicate MarksSized(cells: Board)
  {
    forall k :: 0 <= k < |cells| ==> |cells[k].smallValues| == 9
  }

  /** The cell being edited is the one editingCellIndex names, and there is at most one. */
  predicate EditingTracked(cells: Board, editing: Util.Option<nat>)
  {
    (editing.Some? ==> editing.value < |cells|) &&
    forall k :: 0 <= k < |cells| ==> (cells[k].isEditing <==> editing == Util.Some(k))
  }

  /**
   * What the game keeps true between events: a well-formed board, nine pencil marks
   * per cell, the groups built from the board, and the editing cell tracked.
   */
  ghost predicate Consistent(cells: Board, rowsColumns: seq<Row>, editing: Util.Option<nat>)
  {
    WellFormedBoard(cells) && MarksSized(cells) && rowsColumns == Groups(cells) && EditingTracked(cells, editing)
  }

  // ---------------------------------------------------------------------------
  // validate_board
  // ---------------------------------------------------------------------------

  /** The groups of a board of digits fit the board and hold no number above nine. */
  lemma GroupsFitBoard(cells: Board)
    requires WellFormedBoard(cells)
    ensures forall g :: 0 <= g < 18 ==>
      RowFits(Groups(cells)[g], cells) && ValuesAtMostNine(Groups(cells)[g].rowCells, cells)
  {
    forall g | 0 <= g < 18
      ensures RowFits(Groups(cells)[g], cells) && ValuesAtMostNine(Groups(cells)[g].rowCells, cells)
    {
      GroupFits(cells, cells, g);
    }
  }

  /** What group g's validate reports on the board. */
  function Report(cells: Board, g: nat): Util.Option<Violations>
    requires WellFormedBoard(cells) && g < 18
  {
    GroupsFitBoard(cells);
    ValidateSpec(Groups(cells)[g], cells)
  }

  /** Index k lies in one of the lists. */
  predicate Listed(k: nat, lists: seq<seq<nat>>, n: nat)
    requires n <= |lists|
  {
    exists s :: 0 <= s < n && k in lists[s]
  }

  /** One of the first n groups lists cell k among the holders of a repeated digit. */
  predicate Repeated(cells: Board, k: nat, n: nat)
    requires WellFormedBoard(cells) && n <= 18
  {
    exists g :: 0 <= g < n && Report(cells, g).Some? &&
      Listed(k, Report(cells, g).value.duplicates, |Report(cells, g).value.duplicates|)
  }

  /** One of the first n groups lists cell k in an invalid straight. */
  predicate Stretched(cells: Board, k: nat, n: nat)
    requires WellFormedBoard(cells) && n <= 18
  {
    exists g :: 0 <= g < n && Report(cells, g).Some? &&
      Listed(k, Report(cells, g).value.invalidStraights, |Report(cells, g).value.invalidStraights|)
  }

  /** No group reports anything. */
  predicate AllGroupsValid(cells: Board)
    requires WellFormedBoard(cells)
  {
    forall g :: 0 <= g < 18 ==> Report(cells, g).None?
  }

  /** The board after validate_board: both flags of every cell recomputed, nothing else changed. */
  function Flagged(cells: Board): (r: Board)
    requires WellFormedBoard(cells)
    ensures |r| == |cells|
    ensures forall k :: 0 <= k < |cells| ==>
      r[k] == cells[k].(isValidInRow := r[k].isValidInRow, isValidInStraight := r[k].isValidInStraight)
  {
    seq(|cells|, k requires 0 <= k < |cells| =>
      cells[k].(isValidInRow := !Repeated(cells, k, 18), isValidInStraight := !Stretched(cells, k, 18)))
  }

  /** Every index a report lists names a cell of the board, and every list is non-empty. */
  lemma ReportInBounds(cells: Board, g: nat)
    requires WellFormedBoard(cells) && g < 18 && Report(cells, g).Some?
    ensures forall s :: 0 <= s < |Report(cells, g).value.duplicates| ==>
      |Report(cells, g).value.duplicates[s]| >= 2 && InBounds(Report(cells, g).value.duplicates[s], cells)
    ensures forall s :: 0 <= s < |Report(cells, g).value.invalidStraights| ==>
      Report(cells, g).value.invalidStraights[s] != [] && InBounds(Report(cells, g).value.invalidStraights[s], cells)
  {
    GroupsFitBoard(cells);
    ReportedListsInBounds(Groups(cells)[g], cells);
  }

  /**
   * Cell k is flagged invalid in its row exactly when some group holding it holds its
   * digit at another cell too.
   */
  lemma RowFlagMeaning(cells: Board, k: nat)
    requires WellFormedBoard(cells) && k < |cells|
    ensures !Flagged(cells)[k].isValidInRow <==>
      exists g :: 0 <= g < 18 && k in Groups(cells)[g].rowCells && cells[k].value > 0 &&
        |Occurrences(Groups(cells)[g].rowCells, cells, cells[k].value)| >= 2
  {
    GroupsFitBoard(cells);
    forall g | 0 <= g < 18
      ensures (Report(cells, g).Some? &&
        Listed(k, Report(cells, g).value.duplicates, |Report(cells, g).value.duplicates|)) <==>
        k in Groups(cells)[g].rowCells && cells[k].value > 0 &&
        |Occurrences(Groups(cells)[g].rowCells, cells, cells[k].value)| >= 2
    {
      DuplicateListedIff(Groups(cells)[g].rowCells, cells, k);
    }
  }

  /** Straight s of group g has filled digits spanning at least its length. */
  predicate TooWideAt(cells: Board, g: nat, s: nat)
    requires WellFormedBoard(cells) && g < 18 && s < |Groups(cells)[g].straights|
  {
    GroupsFitBoard(cells);
    StraightTooWide(Groups(cells)[g].straights[s], cells)
  }


  /** Cell k is flagged invalid in its straight exactly when some straight holding it is too wide. */
  lemma StraightFlagMeaning(cells: Board, k: nat)
    requires WellFormedBoard(cells) && k < |cells|
    ensures !Flagged(cells)[k].isValidInStraight <==>
      exists g, s :: 0 <= g < 18 && 0 <= s < |Groups(cells)[g].straights| &&
        k in Groups(cells)[g].straights[s] && TooWideAt(cells, g, s)
  {
    GroupsFitBoard(cells);
    forall g | 0 <= g < 18
      ensures (Report(cells, g).Some? &&
        Listed(k, Report(cells, g).value.invalidStraights, |Report(cells, g).value.invalidStraights|)) <==>
        exists s :: 0 <= s < |Groups(cells)[g].straights| &&
          k in Groups(cells)[g].straights[s] && TooWideAt(cells, g, s)
    {
      InvalidListedIff(Groups(cells)[g].straights, cells, k);
    }
  }

  /** A group that reports something names a cell the marking flags. */
  lemma ReportedCell(cells: Board, g: nat) returns (k: nat)
    requires WellFormedBoard(cells) && g < 18 && Report(cells, g).Some?
    ensures k < |cells| && (Repeated(cells, k, 18) || Stretched(cells, k, 18))
  {
    ReportInBounds(cells, g);
    var v := Report(cells, g).value;
    if |v.duplicates| > 0 {
      k := v.duplicates[0][0];
      assert Listed(k, v.duplicates, |v.duplicates|);
    } else {
      k := v.invalidStraights[0][0];
      assert Listed(k, v.invalidStraights, |v.invalidStraights|);
    }
  }

  /** Every cell keeps both validity flags. */
  predicate AllFlagsSet(cells: Board)
  {
    forall k :: 0 <= k < |cells| ==> cells[k].isValidInRow && cells[k].isValidInStraight
  }

  /** validate_board answers true exactly when every cell keeps both flags after the marking. */
  lemma FlagsAllSetIff(cells: Board)
    requires WellFormedBoard(cells)
    ensures AllFlagsSet(Flagged(cells)) <==> AllGroupsValid(cells)
  {
    if !AllGroupsValid(cells) {
      var g :| 0 <= g < 18 && Report(cells, g).Some?;
      var k := ReportedCell(cells, g);
      assert !(Flagged(cells)[k].isValidInRow && Flagged(cells)[k].isValidInStraight);
    }
  }

  /** Group g reports nothing exactly when it obeys both rules. */
  lemma GroupReportsNothingIff(cells: Board, g: nat)
    requires WellFormedBoard(cells) && g < 18
    ensures Report(cells, g).None? <==> ObeysRules(cells, g)
  {
    GroupsFitBoard(cells);
    var row := Groups(cells)[g];
    assert row.rowCells == GroupIndices(g);
    ValidateNoneIff(row, cells);
    assert Report(cells, g) == ValidateSpec(row, cells);
  }

  /**
   * validate_board answers true exactly when no row or column holds a digit twice and
   * the filled digits of every straight differ by less than its length.
   */
  lemma AllGroupsValidMeaning(cells: Board)
    requires WellFormedBoard(cells)
    ensures AllGroupsValid(cells) <==> forall g :: 0 <= g < 18 ==> ObeysRules(cells, g)
  {
    forall g | 0 <= g < 18
      ensures Report(cells, g).None? <==> ObeysRules(cells, g)
    {
      GroupReportsNothingIff(cells, g);
    }
  }

  /** The marking changes no value, colour, pencil mark or editing state. */
  lemma FlaggedKeepsState(cells: Board, rowsColumns: seq<Row>, editing: Util.Option<nat>)
    requires Consistent(cells, rowsColumns, editing)
    ensures Consistent(Flagged(cells), rowsColumns, editing)
  {
    GroupsByColour(Flagged(cells), cells);
  }

  /** Clearing isValidInRow at every index the lists hold. */
  method ClearRowFlags(data: Board, lists: seq<seq<nat>>) returns (r: Board)
    requires forall s, j :: 0 <= s < |lists| && 0 <= j < |lists[s]| ==> lists[s][j] < |data|
    ensures |r| == |data|
    ensures forall k :: 0 <= k < |data| ==>
      r[k] == data[k].(isValidInRow := data[k].isValidInRow && !Listed(k, lists, |lists|))
  {
    r := data;
    for s := 0 to |lists|
      invariant |r| == |data|
      invariant forall k :: 0 <= k < |data| ==>
        r[k] == data[k].(isValidInRow := data[k].isValidInRow && !Listed(k, lists, s))
    {
      var indices := lists[s];
      for j := 0 to |indices|
        invariant |r| == |data|
        invariant forall k :: 0 <= k < |data| ==>
          r[k] == data[k].(isValidInRow := data[k].isValidInRow && !Listed(k, lists, s) && k !in indices[..j])
      {
        assert indices[..j + 1] == indices[..j] + [indices[j]];
        var p := indices[j];
        r := r[p := r[p].(isValidInRow := false)];
      }
      assert indices[..|indices|] == indices;
      assert forall k :: Listed(k, lists, s + 1) <==> Listed(k, lists, s) || k in lists[s];
    }
  }

  /** Clearing isValidInStraight at every index the lists hold. */
  method ClearStraightFlags(data: Board, lists: seq<seq<nat>>) returns (r: Board)
    requires forall s, j :: 0 <= s < |lists| && 0 <= j < |lists[s]| ==> lists[s][j] < |data|
    ensures |r| == |data|
    ensures forall k :: 0 <= k < |data| ==>
      r[k] == data[k].(isValidInStraight := data[k].isValidInStraight && !Listed(k, lists, |lists|))
  {
    r := data;
    for s := 0 to |lists|
      invariant |r| == |data|
      invariant forall k :: 0 <= k < |data| ==>
        r[k] == data[k].(isValidInStraight := data[k].isValidInStraight && !Listed(k, lists, s))
    {
      var indices := lists[s];
      for j := 0 to |indices|
        invariant |r| == |data|
        invariant forall k :: 0 <= k < |data| ==>
          r[k] == data[k].(isValidInStraight := data[k].isValidInStraight && !Listed(k, lists, s) && k !in indices[..j])
      {
        assert indices[..j + 1] == indices[..j] + [indices[j]];
        var p := indices[j];
        r := r[p := r[p].(isValidInStraight := false)];
      }
      assert indices[..|indices|] == indices;
      assert forall k :: Listed(k, lists, s + 1) <==> Listed(k, lists, s) || k in lists[s];
    }
  }

  /** Taking in group g adds to the cells flagged exactly those its report lists. */
  lemma MarkStep(cells: Board, k: nat, g: nat)
    requires WellFormedBoard(cells) && g < 18
    ensures Repeated(cells, k, g + 1) <==> (Repeated(cells, k, g) ||
      (Report(cells, g).Some? && Listed(k, Report(cells, g).value.duplicates, |Report(cells, g).value.duplicates|)))
    ensures Stretched(cells, k, g + 1) <==> (Stretched(cells, k, g) ||
      (Report(cells, g).Some? && Listed(k, Report(cells, g).value.invalidStraights, |Report(cells, g).value.invalidStraights|)))
  {
  }

  /** Both flags of cell k as they stand once the first g groups are marked. */
  predicate MarkedUpTo(cellData: Board, current: Board, g: nat)
    requires WellFormedBoard(current) && g <= 18
  {
    |cellData| == BoardSize &&
    forall k :: 0 <= k < BoardSize ==>
      cellData[k] == current[k].(isValidInRow := !Repeated(current, k, g), isValidInStraight := !Stretched(current, k, g))
  }

  /** One pass of validate_board's group loop: group g's report clears the flags of the cells it lists. */
  method MarkGroup(current: Board, row: Row, g: nat, data: Board) returns (cellData: Board)
    requires WellFormedBoard(current) && g < 18 && row == Groups(current)[g]
    requires MarkedUpTo(data, current, g)
    ensures MarkedUpTo(cellData, current, g + 1)
  {
    GroupsFitBoard(current);
    cellData := data;
    var report := Validate(row, current);
    assert report == Report(current, g);
    if report.Some? {
      ReportInBounds(current, g);
      cellData := ClearRowFlags(cellData, report.value.duplicates);
      cellData := ClearStraightFlags(cellData, report.value.invalidStraights);
    }
    forall k: nat {
      MarkStep(current, k, g);
    }
  }

  /**
   * The loops of validate_board: a copy of the board with both flags set, then every
   * group's report clears the row flag of each index in its duplicate lists and the
   * straight flag of each index in its invalid straights.
   */
  method MarkInvalid(current: Board, rowsColumns: seq<Row>) returns (cellData: Board)
    requires WellFormedBoard(current) && rowsColumns == Groups(current)
    ensures cellData == Flagged(current)
  {
    cellData := seq(81, index requires 0 <= index < 81 =>
      current[index].(isValidInRow := true, isValidInStraight := true));
    for g := 0 to 18
      invariant MarkedUpTo(cellData, current, g)
    {
      cellData := MarkGroup(current, rowsColumns[g], g, cellData);
    }
  }

  /**
   * validate_board on a board and its groups: the marked board, which keeps the game's
   * invariant, and whether every cell kept both flags.
   */
  method ValidatedBoard(current: Board, rowsColumns: seq<Row>, editing: Util.Option<nat>)
    returns (cellData: Board, valid: bool)
    requires Consistent(current, rowsColumns, editing)
    ensures cellData == Flagged(current) && Consistent(cellData, rowsColumns, editing)
    ensures valid <==> AllGroupsValid(current)
  {
    cellData := MarkInvalid(current, rowsColumns);
    FlaggedKeepsState(current, rowsColumns, editing);
    FlagsAllSetIff(current);
    valid := forall k :: 0 <= k < 81 ==> cellData[k].isValidInRow && cellData[k].isValidInStraight;
    assert valid == AllFlagsSet(cellData);
  }

  /** is_complete: no white cell is empty. */
  predicate IsComplete(cells: Board)
    ensures WellFormedBoard(cells) ==>
      (IsComplete(cells) <==> forall k :: 0 <= k < |cells| && cells[k].isWhite ==> IsDigit(cells[k].value))
  {
    !exists k :: 0 <= k < |cells| && cells[k].value <= 0 && cells[k].isWhite
  }

  /** The validator's flags do not affect completeness. */
  lemma FlaggedComplete(cells: Board)
    requires WellFormedBoard(cells)
    ensures IsComplete(Flagged(cells)) == IsComplete(cells)
  {
    var r := Flagged(cells);
    assert forall k :: 0 <= k < |cells| ==> r[k].value == cells[k].value && r[k].isWhite == cells[k].isWhite;
  }

  /** Every board solve_backtrack returns is complete. */
  lemma SolvedBoardIsComplete(input: Board)
    requires WellFormedBoard(input)
    ensures var r := Backtrack.Classify(Backtrack.Solutions(input, input, 0));
      !r.None? ==> IsComplete(r.cells)
  {
    Backtrack.SolverResultComplete(input);
  }

  /**
   * When the pre-filled cells obey the rules, every board the search completes, and so
   * the board solve_backtrack returns, obeys them: no digit repeats in a row or column
   * and every straight's digits span less than its length.
   */
  lemma SolvedBoardObeysRules(input: Board)
    requires WellFormedBoard(input) && AllGroupsValid(input)
    ensures forall s :: s in Backtrack.Solutions(input, input, 0) ==> WellFormedBoard(s) && AllGroupsValid(s)
    ensures var r := Backtrack.Classify(Backtrack.Solutions(input, input, 0));
      !r.None? ==> WellFormedBoard(r.cells) && AllGroupsValid(r.cells)
  {
    Backtrack.InputCompatible(input);
    AllGroupsValidMeaning(input);
    Backtrack.SolutionsObeyRules(input, input, 0);
    forall s | s in Backtrack.Solutions(input, input, 0)
      ensures WellFormedBoard(s) && AllGroupsValid(s)
    {
      AllGroupsValidMeaning(s);
    }
  }

  // ---------------------------------------------------------------------------
  // Keys
  // ---------------------------------------------------------------------------

  predicate IsAsciiDigit(c: char)
  {
    '0' <= c <= '9'
  }

  predicate AllAsciiDigits(s: string)
  {
    forall i :: 0 <= i < |s| ==> IsAsciiDigit(s[i])
  }

  /** The number a string of decimal digits denotes. */
  function DecimalValue(s: string): nat
    requires AllAsciiDigits(s)
  {
    if s == [] then 0 else DecimalValue(s[..|s| - 1]) * 10 + (s[|s| - 1] as int - '0' as int)
  }

  /** The 32-bit integer a key's text parses to: an optional sign and at least one decimal digit. */
  function ParseInt(text: string): (r: Util.Option<int>)
    ensures r.Some? ==> -0x8000_0000 <= r.value < 0x8000_0000
    ensures r.Some? ==> exists j :: 0 <= j < |text| && IsAsciiDigit(text[j])
    ensures r.Some? && r.value < 0 ==> text[0] == '-'
  {
    var signed := |text| > 0 && (text[0] == '+' || text[0] == '-');
    var digits := if signed then text[1..] else text;
    if digits == [] || !AllAsciiDigits(digits) then Util.None
    else
      var magnitude := DecimalValue(digits);
      var v: int := if signed && text[0] == '-' then -(magnitude as int) else magnitude;
      if -0x8000_0000 <= v < 0x8000_0000 then Util.Some(v) else Util.None
  }

  /** The decimal digits of n, most significant first. */
  function Decimal(n: nat): (s: string)
    ensures s != [] && AllAsciiDigits(s)
  {
    var digit := ('0' as int + n % 10) as char;
    if n < 10 then [digit] else Decimal(n / 10) + [digit]
  }

  /** n written the usual way: a minus sign for negatives, then its digits. */
  function ShowInt(n: int): string
  {
    if n < 0 then "-" + Decimal(-n) else Decimal(n)
  }

  lemma {:induction false} DecimalRoundTrip(n: nat)
    ensures DecimalValue(Decimal(n)) == n
  {
    if n >= 10 {
      DecimalRoundTrip(n / 10);
      var s := Decimal(n);
      assert s[..|s| - 1] == Decimal(n / 10);
    }
  }

  /** Parsing undoes writing a number, for every 32-bit integer. */
  lemma ParseShowRoundTrip(n: int)
    requires -0x8000_0000 <= n < 0x8000_0000
    ensures ParseInt(ShowInt(n)) == Util.Some(n)
  {
    var text := ShowInt(n);
    if n < 0 {
      DecimalRoundTrip(-n);
      assert text[0] == '-' && text[1..] == Decimal(-n);
    } else {
      DecimalRoundTrip(n);
      assert text == Decimal(n) && IsAsciiDigit(text[0]);
    }
  }

  const Bell: string := [7 as char]
  const Delete: string := [127 as char]

  /** The value a key enters: a digit 1..9, Empty for U+0007 (BEL) or U+007F (DEL), else nothing. */
  function KeyValue(text: string): (r: Util.Option<int>)
    ensures r.Some? ==> ValidValue(r.value)
    ensures r == Util.Some(Empty) <==> text == Bell || text == Delete
  {
    assert !IsAsciiDigit(Bell[0]) && !IsAsciiDigit(Delete[0]);
    var parsed := ParseInt(text);
    if parsed.Some? then
      (if parsed.value >= 1 && parsed.value <= 9 then Util.Some(parsed.value) else Util.None)
    else if text == Bell || text == Delete then Util.Some(-1)
    else Util.None
  }

  /** The text of each digit enters that digit. */
  lemma KeyValueMeaning(d: int)
    requires IsDigit(d)
    ensures KeyValue(ShowInt(d)) == Util.Some(d)
  {
    ParseShowRoundTrip(d);
  }

  /** The clicked-on cell as a key changes it. */
  function KeyedCell(cell: Cell, mode: GameMode, val: int): (r: Cell)
    requires EditsNumbers(mode) && |cell.smallValues| == 9 && ValidValue(val)
    ensures r.isWhite == cell.isWhite && r.isValidInRow == cell.isValidInRow &&
      r.isValidInStraight == cell.isValidInStraight && |r.smallValues| == 9
    ensures ValidValue(cell.value) ==> ValidValue(r.value)
    ensures r.isEditing ==> cell.isEditing
  {
    if mode == EditFixedNumbers || mode == PlayEnterNumbers then
      cell.(value := val, isEditing := false, isFixed := mode == EditFixedNumbers && val > 0)
    else if val > 0 then
      cell.(smallValues := cell.smallValues[val - 1 := !cell.smallValues[val - 1]])
    else cell
  }

  /**
   * Entering a number writes the value, ends editing and fixes the cell exactly when
   * the mode is EditFixedNumbers and the value is a digit; entering a pencil mark flips
   * only that mark; delete does nothing to pencil marks.
   */
  lemma KeyedCellEffect(cell: Cell, mode: GameMode, val: int)
    requires EditsNumbers(mode) && |cell.smallValues| == 9 && ValidValue(val)
    ensures mode != PlayEnterSmallNumbers ==>
      var c := KeyedCell(cell, mode, val);
      c.value == val && !c.isEditing && (c.isFixed <==> mode == EditFixedNumbers && val > 0) &&
      c.smallValues == cell.smallValues
    ensures mode == PlayEnterSmallNumbers ==>
      var c := KeyedCell(cell, mode, val);
      c.value == cell.value && c.isEditing == cell.isEditing && c.isFixed == cell.isFixed &&
      forall d :: 0 <= d < 9 ==> c.smallValues[d] == (cell.smallValues[d] != (d == val - 1))
  {
  }

  /** The board after a key on editing cell p. */
  function Typed(cells: Board, mode: GameMode, p: nat, text: string): (r: Board)
    requires p < |cells| && EditsNumbers(mode) && |cells[p].smallValues| == 9
    ensures |r| == |cells|
    ensures forall k :: 0 <= k < |cells| && k != p ==> r[k] == cells[k]
    ensures WellFormedBoard(cells) && MarksSized(cells) ==> WellFormedBoard(r) && MarksSized(r)
    ensures r[p].isWhite == cells[p].isWhite
  {
    var key := KeyValue(text);
    if key.Some? then
      KeyedCellEffect(cells[p], mode, key.value);
      cells[p := KeyedCell(cells[p], mode, key.value)]
    else cells
  }

  /** The editing index after a key: a number entered in a number mode ends editing. */
  function TypedIndex(editing: Util.Option<nat>, mode: GameMode, text: string): Util.Option<nat>
  {
    if KeyValue(text).Some? && (mode == EditFixedNumbers || mode == PlayEnterNumbers) then Util.None
    else editing
  }

  /**
   * A key on the cell being edited keeps the board well formed, its colours (so its
   * groups) and the editing cell tracked.
   */
  lemma TypedKeepsState(cells: Board, editing: Util.Option<nat>, mode: GameMode, p: nat, text: string)
    requires WellFormedBoard(cells) && MarksSized(cells) && EditingTracked(cells, editing)
    requires p < |cells| && EditsNumbers(mode) && cells[p].isEditing
    ensures WellFormedBoard(Typed(cells, mode, p, text)) && MarksSized(Typed(cells, mode, p, text))
    ensures Groups(Typed(cells, mode, p, text)) == Groups(cells)
    ensures EditingTracked(Typed(cells, mode, p, text), TypedIndex(editing, mode, text))
  {
    var typed := Typed(cells, mode, p, text);
    GroupsByColour(typed, cells);
    if KeyValue(text).Some? {
      KeyedCellEffect(cells[p], mode, KeyValue(text).value);
    }
  }

  // ---------------------------------------------------------------------------
  // Clicks
  // ---------------------------------------------------------------------------

  /** The board after a click in EditBlackWhite: cell p changes colour, nothing else does. */
  function Toggled(cells: Board, p: nat): (r: Board)
    requires p < |cells|
    ensures |r| == |cells| && r[p].isWhite == !cells[p].isWhite
    ensures r[p] == cells[p].(isWhite := r[p].isWhite)
    ensures forall k :: 0 <= k < |cells| && k != p ==> r[k] == cells[k]
  {
    cells[p := cells[p].(isWhite := !cells[p].isWhite)]
  }

  /** Two clicks on the same cell in EditBlackWhite restore its colour. */
  lemma ToggledTwice(cells: Board, p: nat)
    requires p < |cells|
    ensures Toggled(Toggled(cells, p), p) == cells
  {
    assert Toggled(Toggled(cells, p), p)[p] == cells[p];
  }

  /** A colour change keeps the game's invariant once the groups are rebuilt from the new colours. */
  lemma ToggledKeepsState(cells: Board, rowsColumns: seq<Row>, editing: Util.Option<nat>, p: nat)
    requires Consistent(cells, rowsColumns, editing) && p < |cells|
    ensures Consistent(Toggled(cells, p), Groups(Toggled(cells, p)), editing)
  {
  }

  /** The cell stops being edited, if there is one. */
  function StopEditing(cells: Board, editing: Util.Option<nat>): (r: Board)
    requires editing.Some? ==> editing.value < |cells|
    ensures |r| == |cells|
    ensures forall k :: 0 <= k < |cells| ==> r[k] == cells[k].(isEditing := r[k].isEditing)
    ensures EditingTracked(cells, editing) ==> EditingTracked(r, Util.None)
  {
    if editing.Some? then cells[editing.value := cells[editing.value].(isEditing := false)] else cells
  }

  /** The clicked cell may enter editing: a white cell that is not fixed, or any cell in EditFixedNumbers. */
  predicate MayEdit(cell: Cell, mode: GameMode)
  {
    (!cell.isFixed && cell.isWhite) || mode == EditFixedNumbers
  }

  /** A click in a number mode, as written: the cell read before the reset is always written back. */
  function EditClickAsWritten(cells: Board, editing: Util.Option<nat>, mode: GameMode, p: nat): (r: (Board, Util.Option<nat>))
    requires p < |cells| && (editing.Some? ==> editing.value < |cells|)
    ensures |r.0| == |cells| && forall k :: 0 <= k < |cells| ==> r.0[k] == cells[k].(isEditing := r.0[k].isEditing)
    ensures r.1 == Util.Some(p) <==> MayEdit(cells[p], mode) && !cells[p].isEditing
    ensures r.1 != Util.Some(p) ==> r.1 == Util.None
    ensures r.0[p].isEditing <==> (if MayEdit(cells[p], mode) then !cells[p].isEditing else cells[p].isEditing)
  {
    var cell := cells[p];
    var reset := StopEditing(cells, editing);
    if MayEdit(cell, mode) then
      var cell' := cell.(isEditing := !cell.isEditing);
      (reset[p := cell'], if cell'.isEditing then Util.Some(p) else Util.None)
    else (reset[p := cell], Util.None)
  }

  /** A click in a number mode, corrected: the clicked cell is written back only when it may be edited. */
  function EditClick(cells: Board, editing: Util.Option<nat>, mode: GameMode, p: nat): (r: (Board, Util.Option<nat>))
    requires p < |cells| && (editing.Some? ==> editing.value < |cells|)
    ensures |r.0| == |cells| && forall k :: 0 <= k < |cells| ==> r.0[k] == cells[k].(isEditing := r.0[k].isEditing)
    ensures r.1 == Util.Some(p) <==> MayEdit(cells[p], mode) && !cells[p].isEditing
    ensures r.1 != Util.Some(p) ==> r.1 == Util.None
    ensures EditingTracked(cells, editing) ==> EditingTracked(r.0, r.1)
  {
    var cell := cells[p];
    var reset := StopEditing(cells, editing);
    if MayEdit(cell, mode) then
      var cell' := cell.(isEditing := !cell.isEditing);
      (reset[p := cell'], if cell'.isEditing then Util.Some(p) else Util.None)
    else (reset, Util.None)
  }

  /**
   * As written, clicking the cell being edited when it may not be edited (a fixed or a
   * black cell in a playing mode) leaves it editing while no index tracks it.
   */
  lemma StaleClickKeepsEditing(cells: Board, mode: GameMode, p: nat)
    requires p < |cells| && EditingTracked(cells, Util.Some(p)) && !MayEdit(cells[p], mode)
    ensures var (cells', editing') := EditClickAsWritten(cells, Util.Some(p), mode, p);
      cells'[p].isEditing && editing' == Util.None && !EditingTracked(cells', editing')
  {
  }

  /**
   * As written, after that stale click a click on another cell that may be edited
   * leaves two cells editing, and entering EditBlackWhite, which resets only the
   * tracked cell, leaves the untracked one editing.
   */
  lemma StaleClickTwoEditing(cells: Board, mode: GameMode, p: nat, q: nat)
    requires p < |cells| && q < |cells| && p != q && EditingTracked(cells, Util.Some(p))
    requires !MayEdit(cells[p], mode) && MayEdit(cells[q], mode)
    ensures var (cells', editing') := EditClickAsWritten(cells, Util.Some(p), mode, p);
      var (cells'', editing'') := EditClickAsWritten(cells', editing', mode, q);
      cells''[p].isEditing && cells''[q].isEditing && editing'' == Util.Some(q) &&
      StopEditing(cells'', editing'')[p].isEditing
  {
    var (cells', editing') := EditClickAsWritten(cells, Util.Some(p), mode, p);
    StaleClickKeepsEditing(cells, mode, p);
    assert !cells'[q].isEditing;
  }

  /**
   * A fixed cell can be the cell being edited: in EditFixedNumbers a click on any cell
   * not being edited makes it the tracked editing cell.
   */
  lemma FixedCellCanBeEdited(cells: Board, editing: Util.Option<nat>, p: nat)
    requires p < |cells| && EditingTracked(cells, editing) && !cells[p].isEditing
    ensures var (cells', editing') := EditClick(cells, editing, EditFixedNumbers, p);
      editing' == Util.Some(p) && cells'[p] == cells[p].(isEditing := true) && EditingTracked(cells', editing')
  {
  }

  // ---------------------------------------------------------------------------
  // set_mode
  // ---------------------------------------------------------------------------

  /** The name the user interface passes for each mode. */
  function ModeName(mode: GameMode): string
  {
    match mode
    case None => "none"
    case EditBlackWhite => "edit-black-white"
    case EditFixedNumbers => "edit-fixed-numbers"
    case PlayEnterNumbers => "play-enter-numbers"
    case PlayEnterSmallNumbers => "play-enter-small-numbers"
  }

  /** The mode a name selects; any other name makes set_mode panic. */
  function ModeNamed(name: string): (r: Util.Option<GameMode>)
    ensures r.Some? ==> ModeName(r.value) == name
    ensures r.None? ==> forall mode :: ModeName(mode) != name
  {
    if name == "edit-black-white" then Util.Some(EditBlackWhite)
    else if name == "edit-fixed-numbers" then Util.Some(EditFixedNumbers)
    else if name == "play-enter-numbers" then Util.Some(PlayEnterNumbers)
    else if name == "play-enter-small-numbers" then Util.Some(PlayEnterSmallNumbers)
    else if name == "none" then Util.Some(GameMode.None)
    else Util.None
  }

  /** Each mode is selected by its own name and by no other. */
  lemma ModeNamesRoundTrip(mode: GameMode, name: string)
    ensures ModeNamed(ModeName(mode)) == Util.Some(mode)
    ensures ModeNamed(name) == Util.Some(mode) ==> name == ModeName(mode)
  {
  }

  // ---------------------------------------------------------------------------
  // The state
  // ---------------------------------------------------------------------------

  class AppState {
    var cells: Board
    var editingCellIndex: Util.Option<nat>
    var rowsColumns: seq<Row>
    var mode: GameMode

    /**
     * A board of 81 cells holding digits or Empty with nine pencil marks each, the
     * groups built from it, and the editing cell tracked by its index.
     */
    ghost predicate Valid()
      reads this
    {
      Consistent(cells, rowsColumns, editingCellIndex)
    }

    /** The start of the game: the board shown, its groups built, then validated; no mode, nothing edited. */
    constructor (board: Board)
      requires WellFormedBoard(board) && MarksSized(board) && EditingTracked(board, Util.None)
      ensures Valid() && mode == GameMode.None && editingCellIndex == Util.None
      ensures cells == Flagged(board) && rowsColumns == Groups(board)
    {
      cells := board;
      editingCellIndex := Util.None;
      rowsColumns := [];
      mode := GameMode.None;
      new;
      rowsColumns := ComputeRowsColumns(cells);
      var _ := ValidateBoard();
    }

    /**
     * validate_board: every group's report clears the row flag of each index in its
     * duplicate lists and the straight flag of each index in its invalid straights,
     * all flags having been set first; the answer is whether every flag stayed set.
     */
    method ValidateBoard() returns (valid: bool)
      requires Valid()
      modifies this
      ensures Valid()
      ensures cells == Flagged(old(cells)) && editingCellIndex == old(editingCellIndex)
      ensures rowsColumns == old(rowsColumns) && mode == old(mode)
      ensures valid <==> AllGroupsValid(old(cells))
    {
      var cellData;
      cellData, valid := ValidatedBoard(cells, rowsColumns, editingCellIndex);
      cells := cellData;
    }

    /**
     * cell_clicked: in EditBlackWhite the cell changes colour, the groups are rebuilt
     * and the board revalidated; in a number mode the previous editing cell stops
     * editing and the clicked cell toggles editing when it may be edited; otherwise
     * nothing happens. The answer is always true.
     */
    method CellClicked(p: nat) returns (handled: bool)
      requires Valid() && p < BoardSize
      modifies this
      ensures Valid() && handled && mode == old(mode)
      ensures old(mode) == EditBlackWhite ==>
        cells == Flagged(Toggled(old(cells), p)) && rowsColumns == Groups(Toggled(old(cells), p)) &&
        editingCellIndex == old(editingCellIndex)
      ensures EditsNumbers(old(mode)) ==>
        (cells, editingCellIndex) == EditClick(old(cells), old(editingCellIndex), mode, p) &&
        rowsColumns == old(rowsColumns)
      ensures old(mode) == GameMode.None ==>
        cells == old(cells) && editingCellIndex == old(editingCellIndex) && rowsColumns == old(rowsColumns)
    {
      match mode {
        case EditBlackWhite =>
          CellClickedColour(p);
        case EditFixedNumbers =>
          CellClickedEditing(p);
        case PlayEnterNumbers =>
          CellClickedEditing(p);
        case PlayEnterSmallNumbers =>
          CellClickedEditing(p);
        case None =>
      }
      handled := true;
    }

    /** The EditBlackWhite arm of cell_clicked: the cell changes colour, the groups are rebuilt, the board revalidated. */
    method CellClickedColour(p: nat)
      requires Valid() && p < BoardSize
      modifies this
      ensures Valid() && mode == old(mode) && editingCellIndex == old(editingCellIndex)
      ensures cells == Flagged(Toggled(old(cells), p)) && rowsColumns == Groups(Toggled(old(cells), p))
    {
      var cell := cells[p];
      cell := cell.(isWhite := !cell.isWhite);
      ToggledKeepsState(cells, rowsColumns, editingCellIndex, p);
      cells := cells[p := cell];
      rowsColumns := ComputeRowsColumns(cells);
      var _ := ValidateBoard();
    }

    /** The number-mode arm of cell_clicked. */
    method CellClickedEditing(p: nat)
      requires Valid() && p < BoardSize && EditsNumbers(mode)
      modifies this
      ensures Valid() && mode == old(mode) && rowsColumns == old(rowsColumns)
      ensures (cells, editingCellIndex) == EditClick(old(cells), old(editingCellIndex), mode, p)
    {
      var cell := cells[p];
      ghost var before, tracked := cells, editingCellIndex;
      if editingCellIndex.Some? {
        var index := editingCellIndex.value;
        var editingCell := cells[index];
        editingCell := editingCell.(isEditing := false);
        cells := cells[index := editingCell];
        editingCellIndex := Util.None;
      }
      assert cells == StopEditing(before, tracked);
      if MayEdit(cell, mode) {
        cell := cell.(isEditing := !cell.isEditing);
        if cell.isEditing {
          editingCellIndex := Util.Some(p);
        }
        cells := cells[p := cell];
      }
      GroupsByColour(cells, before);
    }

    /**
     * cell_key_pressed: nothing happens and nothing is answered unless the mode enters
     * numbers and the cell is being edited; then the key's value is entered, the board
     * revalidated, and the answer is whether the board is now valid and complete.
     */
    method CellKeyPressed(p: nat, text: string) returns (solved: Util.Option<bool>)
      requires Valid() && p < BoardSize
      modifies this
      ensures Valid() && mode == old(mode) && rowsColumns == old(rowsColumns)
      ensures !(EditsNumbers(mode) && old(cells)[p].isEditing) ==>
        solved.None? && cells == old(cells) && editingCellIndex == old(editingCellIndex)
      ensures EditsNumbers(mode) && old(cells)[p].isEditing ==>
        var typed := Typed(old(cells), mode, p, text);
        cells == Flagged(typed) && editingCellIndex == TypedIndex(old(editingCellIndex), mode, text) &&
        solved == Util.Some(AllGroupsValid(typed) && IsComplete(typed))
    {
      if !EditsNumbers(mode) {
        return Util.None;
      }
      var cell := cells[p];
      if !cell.isEditing {
        return Util.None;
      }
      ghost var before, editing := cells, editingCellIndex;
      ghost var typed := Typed(cells, mode, p, text);
      var newValue := KeyValue(text);
      if newValue.Some? {
        var val := newValue.value;
        if mode == EditFixedNumbers || mode == PlayEnterNumbers {
          cell := cell.(value := val, isEditing := false, isFixed := mode == EditFixedNumbers && val > 0);
          editingCellIndex := Util.None;
        } else if mode == PlayEnterSmallNumbers && val > 0 {
          var smallNumbers := cell.smallValues;
          smallNumbers := smallNumbers[val - 1 := !smallNumbers[val - 1]];
          cell := cell.(smallValues := smallNumbers);
        }
        cells := cells[p := cell];
      }
      assert cells == typed;
      TypedKeepsState(before, editing, mode, p, text);
      var isValid := ValidateBoard();
      FlaggedComplete(typed);
      var isComplete := IsComplete(cells);
      solved := Util.Some(isValid && isComplete);
    }

    /** set_mode: switching to EditBlackWhite first ends editing; the other modes only switch. */
    method SetMode(name: string)
      requires Valid() && ModeNamed(name).Some?
      modifies this
      ensures Valid() && mode == ModeNamed(name).value && rowsColumns == old(rowsColumns)
      ensures mode == EditBlackWhite ==>
        cells == StopEditing(old(cells), old(editingCellIndex)) && editingCellIndex == Util.None
      ensures mode != EditBlackWhite ==> cells == old(cells) && editingCellIndex == old(editingCellIndex)
    {
      var newMode := ModeNamed(name).value;
      if newMode == EditBlackWhite {
        ghost var before := cells;
        if editingCellIndex.Some? {
          var index := editingCellIndex.value;
          var cell := cells[index];
          cell := cell.(isEditing := false);
          cells := cells[index := cell];
          editingCellIndex := Util.None;
        }
        GroupsByColour(cells, before);
      }
      mode := newMode;
    }
  }

  /**
   * An 81-cell board passes the load check cell by cell exactly when it is well-formed
   * and every cell has nine pencil marks: what the game saves loads again, and what
   * loads meets what the game state assumes of its board.
   */
  lemma LoadCheckMeaning(cells: Board)
    requires |cells| == BoardSize
    ensures (forall k :: 0 <= k < |cells| ==> LoadedCellAccepted(cells[k].value, cells[k].smallValues)) <==>
      WellFormedBoard(cells) && MarksSized(cells)
  {
  }
}
