# Str8ts rule engine, solver and game state in Dafny

This project models the core of a Str8ts game written in Rust. A Str8ts board has 81
cells in a 9×9 grid. A cell is white or black, holds a digit 1–9 or is empty (`-1`), may be
fixed, and carries nine pencil marks. Each of the nine rows and nine columns is a *group*.
Inside a group, a run of adjacent white cells is a *straight*: its digits must form a
set of consecutive numbers, and no digit may appear twice in a row or a column.

The model has six modules:

- `Util`: option type, flattening, distinctness, ascending order and subsequences.
- `Cells`: the cell record, the board and the load check on saved cells.
- `Str8tsRow` (`str8ts_row.rs`): one group. It covers how the straights are found
  (`Row::new`), how a group is validated (`validate`), the digits missing in a group
  (`missing_values_cells`), and which candidates keep a straight possible
  (`possible_straight_values_cells`). Each operation is a function or a loop method,
  proved against a reference definition. Examples of reference definitions are the
  maximal white runs, occurrence lists of each digit, and the range a straight may cover.
- `Str8tsBoard` (`str8ts_board.rs`): the 18 groups of a board (`compute_rows_columns`) and
  the candidates of a cell (`compute_possible_values`).
- `Backtrack` (`str8ts_board.rs`): `solve_backtrack`.
  - The source's iterative search with its two explicit stacks is modelled as a `while`
    loop.
  - The loop is proved to return what the recursive search `Solutions` specifies:
    - `Solutions` is the ordered list of every board the depth-first search completes.
    - The result is classified into none, one or several solutions.
  - Termination is proved with a lexicographic measure over the stacks.
  - Every board the solver returns is shown to fill exactly the empty white cells, with
    digits, and to leave everything else as it was.
  - When the pre-filled cells obey the rules, every board the solver returns obeys them
    too: no digit repeats in a row or column, and every straight spans less than its length.
- `App` (`main.rs`): the game state `AppState`.
  - Its fields are the board, the groups, the editing-cell index and the game mode.
  - Its event handlers are validation, clicks, key presses, mode changes, and startup.
  - The class invariant `Valid()` is: a well-formed board, groups rebuilt from the
    current colours, and at most one cell in editing mode, named by the index.
  - Every handler keeps `Valid()` as modelled. The click handler is modelled with the
    corrected click `App.EditClick`. The source's `cell_clicked`, modelled as
    `App.EditClickAsWritten`, can leave a cell editing that the index does not name
    (see Findings).
  - Two paths of the source outside the modelled handlers break the invariant as well.
    The reset button (main.rs:369-371) and `AppState::generate_puzzle` (main.rs:134-141)
    call `set_board` without rebuilding the groups. The reset also keeps
    `editing_cell_index` although no cell is editing afterwards.

Values are unbounded integers. The only place where the source's `i32` width matters is
parsing a key's text, and there it is written out (`App.ParseInt`).

## Model

| member | source | states |
|---|---|---|
| Str8tsRow.NewRow | str8ts_row.rs:12-18 | A new group keeps its cell list. Every straight is non-empty and holds only white cells of that list. |
| Str8tsRow.StraightsAreMaximalRuns | str8ts_row.rs:12-18 | A new group keeps its cell list. Its straights are exactly, and in order, the maximal runs of white cells in that list. Flattened, they give the white cells in order. Two adjacent white cells lie in the same straight. |
| Str8tsRow.StraightsAreSpans | str8ts_row.rs:13-17 | Splitting at black cells, dropping empty pieces and taking indices yields the index lists of the run scan `Spans`. |
| Str8tsRow.StraightsAreSlices | str8ts_row.rs:13-17 | Every straight is a contiguous slice of the group's cell list. |
| Str8tsRow.StraightsFlatten | str8ts_row.rs:13-17 | Concatenated, the straights are the group's white cells in order. |
| Str8tsRow.StraightsJoinNeighbours | str8ts_row.rs:13-17 | Two white cells next to each other in the group share a straight. |
| Str8tsRow.StraightMembership | str8ts_row.rs:13-17 | For a group without repeated indices, a cell lies in some straight iff it is in the group and white. It never lies in two straights. |
| Str8tsRow.Validate | str8ts_row.rs:22-58 | The counting loop, followed by the straight check `InvalidStraights` (the iterator chain at str8ts_row.rs:36-50), returns exactly the report `ValidateSpec`. That report holds the duplicate lists and the over-wide straights, or nothing when both are empty. |
| Str8tsRow.OccurrencesSound | str8ts_row.rs:24-31 | Every index in a digit's occurrence list is in the group and holds that digit. |
| Str8tsRow.OccurrencesComplete | str8ts_row.rs:24-31 | Every cell of the group holding the digit is in its occurrence list. |
| Str8tsRow.OccurrencesInOrder | str8ts_row.rs:24-31 | An occurrence list is a subsequence of the group, so it is in row order. |
| Str8tsRow.OccurrencesTwice | str8ts_row.rs:24-34 | A digit's list has two or more entries iff two different positions of the group hold it. |
| Str8tsRow.LongListsMember | str8ts_row.rs:32-34 | The kept lists are exactly the occurrence lists with more than one entry. |
| Str8tsRow.DuplicateEntry | str8ts_row.rs:24-34 | Each reported duplicate list is the ordered occurrence list of one digit 1–9 and has at least two entries. |
| Str8tsRow.DuplicateComplete | str8ts_row.rs:24-34 | Every digit that occurs twice or more has its list reported. |
| Str8tsRow.DuplicateListedIff | str8ts_row.rs:24-34 | A list is reported as duplicate iff it is the occurrence list of a digit occurring twice or more. |
| Str8tsRow.NoDuplicatesIff | str8ts_row.rs:24-34 | No duplicate list iff no digit appears at two positions of the group. |
| Str8tsRow.InvalidStraightsSubseq | str8ts_row.rs:37-50 | The reported straights keep the group's order of straights. |
| Str8tsRow.InvalidStraightsMember | str8ts_row.rs:37-50 | A straight is reported iff it is one of the group's straights, holds a digit, and its largest minus smallest digit is at least its length. |
| Str8tsRow.InvalidListedIff | str8ts_row.rs:37-50 | Same as the row above, stated over the report that `Validate` returns. |
| Str8tsRow.TooWideIff | str8ts_row.rs:40-48 | A straight is reported too wide iff two of its digits differ by its length or more. |
| Str8tsRow.NoInvalidStraightsIff | str8ts_row.rs:37-50 | No straight is reported iff in every straight any two digits differ by less than its length. |
| Str8tsRow.ValidateNoneIff | str8ts_row.rs:53-57 | `validate` returns nothing iff no digit repeats in the group and every straight's digits span less than its length. |
| Str8tsRow.ReportedListsInBounds | str8ts_row.rs:24-50 | Every reported index is a cell of the group and lies on the board. |
| Str8tsRow.MissingValuesCells | str8ts_row.rs:61-84 | The marking loop returns `MissingValues`. |
| Str8tsRow.MissingValuesMeaning | str8ts_row.rs:61-84 | The result is strictly ascending. v is in it iff v is a digit, v is absent from the group, and either no candidate list was given or v is a candidate. |
| Str8tsRow.DigitsWhereFacts | str8ts_row.rs:79-83 | Collecting unmarked digits gives an ascending list of exactly the unmarked digits. |
| Str8tsRow.FoundStraightIs | str8ts_row.rs:91-93 | When no other straight holds the cell, the lookup returns the straight that holds it. |
| Str8tsRow.FindStraight | str8ts_row.rs:91-93 | Finds a straight containing the cell iff one exists. The one returned contains the cell. |
| Str8tsRow.KeepFittingFacts | str8ts_row.rs:101-108 | Keeps candidate order. v is kept iff it is a candidate and lies strictly inside the filled range, or extends it on either side by less than the straight's length. |
| Str8tsRow.PossibleStraightValues | str8ts_row.rs:88-114 | The result is a subsequence of the candidates, so their order is kept. |
| Str8tsRow.PossibleStraightValuesMeaning | str8ts_row.rs:88-113 | The result is a subsequence of the candidates. With no digit in the straight, it is all the candidates. Otherwise v is kept iff it fits the straight's range, and the filled minimum and maximum are never kept. |
| Str8tsRow.SpanKeptByFit | str8ts_row.rs:101-108 | Writing a value that passes the straight's range filter into a straight whose digits span less than its length keeps that span below the length. |
| Str8tsRow.NoRepeatKept | str8ts_row.rs:61-84 | Writing a digit the group does not hold yet keeps the group free of repeated digits. |
| Str8tsBoard.GroupIndicesFacts | str8ts_board.rs:39-46 | Group g has 9 distinct indices below 81. Group g is row g for g < 9 and column g−9 otherwise. |
| Str8tsBoard.GroupsShape | str8ts_board.rs:37-48 | Groups 0–8 are the rows (9r+j) and groups 9–17 the columns (c+9j), each built by `Row::new` on the board. |
| Str8tsBoard.ComputeRowsColumns | str8ts_board.rs:37-48 | The two loops build exactly `Groups(cells)`. |
| Str8tsBoard.GroupByColour | str8ts_board.rs:37-48 | Each single group depends only on the cells' colours. |
| Str8tsBoard.GroupsByColour | str8ts_board.rs:37-48 | The groups depend only on the cells' colours, not on their values. |
| Str8tsBoard.MissingInBoth | str8ts_board.rs:55-61 | Ascending digits. v is in the list iff it appears neither in the cell's row nor in its column. |
| Str8tsBoard.PossibleValues | str8ts_board.rs:53-74 | At most nine ascending digits, a subsequence of those missing in both groups. For a black cell it is exactly that list. |
| Str8tsBoard.PossibleValuesWhite | str8ts_board.rs:63-71 | For a white cell, v is a candidate iff it is missing in both groups and both the row straight and the column straight still admit it. |
| Str8tsBoard.WhiteCellHasStraight | str8ts_board.rs:63-71 | A white cell lies in a straight of its row and of its column, so the lookups that would panic always succeed. |
| Str8tsBoard.GroupsReady | str8ts_board.rs:80-104 | Groups built once from the solver's input stay usable for every board with the same colours and values up to nine. |
| Str8tsBoard.CandidateIsAdmissible | str8ts_board.rs:53-74 | A candidate of a white cell is a digit. It is absent from the cell's row and column, and both straights through the cell admit it. |
| Str8tsBoard.StraightThrough | str8ts_board.rs:63-71 | A straight of a group that holds cell k belongs to k's row or column and is the straight the lookup finds. |
| Str8tsBoard.CandidateKeepsStraight | str8ts_board.rs:63-71 | Writing a candidate keeps each straight's digits spanning less than its length. |
| Str8tsBoard.CandidateKeepsRepeats | str8ts_board.rs:55-61 | Writing a candidate adds no repeated digit to any group. |
| Str8tsBoard.CandidateKeepsSpans | str8ts_board.rs:63-71 | Writing a candidate keeps every straight of a group within its length. |
| Str8tsBoard.CandidateKeepsGroup | str8ts_board.rs:53-74 | Writing a candidate into a cell keeps a group that obeyed both rules obeying them. |
| Str8tsBoard.CandidateKeepsRules | str8ts_board.rs:53-74 | Writing a candidate into a board where every group obeys both rules gives a board where every group still obeys them. |
| Backtrack.Classify | str8ts_board.rs:138-143 | None iff no solution, Unique iff one, Multiple iff two or more. The board carried is the first found. |
| Backtrack.CompatibleReady | str8ts_board.rs:101-107 | On every board the search reaches, computing a cell's candidates meets its preconditions. |
| Backtrack.StartSearch | str8ts_board.rs:80-89 | Empty stacks at cell 0 satisfy the search invariant, with all of `Solutions` still ahead. |
| Backtrack.AdvanceSkip | str8ts_board.rs:93-97 | Skipping a black or filled cell keeps the invariant and increases the termination measure. |
| Backtrack.AdvanceOpen | str8ts_board.rs:101-107 | Pushing the candidates of an empty white cell keeps the invariant and increases the measure. |
| Backtrack.AdvanceTry | str8ts_board.rs:111-114 | Trying the next candidate keeps the invariant and increases the measure. |
| Backtrack.AdvancePop | str8ts_board.rs:117-123 | Backtracking keeps the invariant and increases the measure. At cell 0 every solution has been found. |
| Backtrack.AdvanceRecord | str8ts_board.rs:127-129 | Recording a full board moves it from the pending solutions to the found ones. |
| Backtrack.TwoFound | str8ts_board.rs:88-143 | Stopping after two solutions already gives the answer for the whole list. |
| Backtrack.SolveBacktrack | str8ts_board.rs:78-144 | The solver returns `Classify` of the ordered list of completions the depth-first search defines. It terminates and never reaches the panic arm. |
| Backtrack.SolutionsComplete | str8ts_board.rs:91-128 | Every board the search completes from position k keeps the cells before k. From k on it gives each empty white cell a digit and changes nothing else. |
| Backtrack.BranchesComplete | str8ts_board.rs:108-115 | Every board completed by trying candidate digits for an empty white cell completes the board from that cell. |
| Backtrack.AssignKeepsGroupRules | str8ts_board.rs:101-114 | On a board the search reaches, giving the cell one of the candidates it pushed keeps every group obeying both rules. |
| Backtrack.SolutionsObeyRules | str8ts_board.rs:91-128 | Every board the search completes from a board that obeys the rules is well-formed and obeys them too. |
| Backtrack.BranchesObeyRules | str8ts_board.rs:108-115 | Completions reached by trying rule-keeping candidates for a cell all obey the rules. |
| Backtrack.SolverResultComplete | str8ts_board.rs:91-143 | A returned solution fills every empty white cell of the input with a digit and keeps all other cells. |
| App.Flagged | main.rs:146-173 | Validation changes only the two validity flags of each cell. |
| App.ClearRowFlags | main.rs:159-163 | After the loop, a cell's row flag is cleared iff it appears in a duplicate list. All else is unchanged. |
| App.ClearStraightFlags | main.rs:165-169 | After the loop, a cell's straight flag is cleared iff it appears in an invalid straight. All else is unchanged. |
| App.MarkGroup | main.rs:155-170 | One group's report marks its cells, extending the flags set so far by one group. |
| App.MarkInvalid | main.rs:146-171 | The loop over the 18 groups produces exactly the flagged board. |
| App.ValidatedBoard | main.rs:144-177 | Returns the flagged board, which still satisfies the game invariant. The result is true iff no group reports a violation. |
| App.RowFlagMeaning | main.rs:155-163 | A cell's row flag is cleared iff in some group it holds a digit that occurs there twice or more. |
| App.StraightFlagMeaning | main.rs:155-169 | A cell's straight flag is cleared iff one of the straights it belongs to is too wide. |
| App.ReportInBounds | main.rs:156-169 | Every index a report marks lies on the board, so the writes never go out of range. |
| App.ReportedCell | main.rs:156-169 | A group that reports something clears a flag of at least one cell. |
| App.FlagsAllSetIff | main.rs:176 | After validation every cell keeps both flags iff no group reports a violation, so the source's final all-flags test matches the group reports. |
| App.GroupReportsNothingIff | main.rs:156-157 | A group reports nothing iff no digit repeats in it and none of its straights is too wide. |
| App.AllGroupsValidMeaning | main.rs:155-176 | The board is valid iff all 18 groups obey the rules. |
| App.FlaggedKeepsState | main.rs:173 | Writing the flagged board back keeps the game invariant. |
| App.AppState.ValidateBoard | main.rs:144-177 | The board becomes `Flagged(board)`. The result is true iff no group reports a violation. Groups, mode and editing index are unchanged. |
| App.IsComplete | main.rs:262-264 | On a well-formed board, the board is complete iff every white cell holds a digit. |
| App.FlaggedComplete | main.rs:256-264 | Validation does not change whether the board is complete. |
| App.SolvedBoardIsComplete | main.rs:262-264 | Every board the solver returns has no empty white cell. |
| App.SolvedBoardObeysRules | str8ts_board.rs:78-144 | When the input board is well-formed and valid, every board the solver can return is well-formed and valid. |
| App.ParseInt | main.rs:229 | A parsed number fits in `i32`. The text contains a decimal digit, and a negative number starts with a minus sign. |
| App.DecimalRoundTrip | main.rs:229 | Reading back the decimal digits of n gives n. |
| App.ParseShowRoundTrip | main.rs:229 | Parsing the decimal text of any `i32` gives that number back. |
| App.KeyValue | main.rs:229-235 | A key yields only a valid value. It yields "empty" iff its text is U+0007 (BEL) or U+007F (DEL). |
| App.KeyValueMeaning | main.rs:229-230 | The decimal text of each digit 1–9 yields that digit. |
| App.KeyedCell | main.rs:239-252 | Entering a key keeps the cell's colour, both validity flags and nine pencil marks. It keeps a valid value valid, and never starts editing. |
| App.KeyedCellEffect | main.rs:237-252 | Entering a number sets the value, ends editing, and sets fixed iff the mode is EditFixedNumbers and the value is a digit. In PlayEnterSmallNumbers the key toggles exactly that digit's pencil mark and leaves value, editing and fixed alone. |
| App.Typed | main.rs:237-253 | A key press changes only the pressed cell, keeps its colour, and keeps the board well-formed. |
| App.TypedKeepsState | main.rs:237-253 | After a key press the groups are unchanged, and the editing index still names the only editing cell. |
| App.AppState.CellKeyPressed | main.rs:215-259 | Outside a number mode, or on a cell not being edited, nothing changes and the result is none. Otherwise the board becomes the typed board, validated. The result is `Some(valid && complete)`. |
| App.Toggled | main.rs:186-187 | Only the clicked cell changes, and only its colour flips. |
| App.ToggledTwice | main.rs:186-187 | Two colour clicks on the same cell restore the board. |
| App.ToggledKeepsState | main.rs:186-189 | A colour change keeps the invariant once the groups are rebuilt. |
| App.AppState.CellClickedColour | main.rs:185-190 | In EditBlackWhite mode the cell's colour flips, the groups are rebuilt from the new board, and the board is revalidated. |
| App.StopEditing | main.rs:193-199 | The cell being edited stops editing. Nothing else changes, and no cell is editing afterwards. |
| App.EditClickAsWritten | main.rs:180-208 | As written, a click in a number mode changes only editing marks. The clicked cell becomes the tracked editing cell iff it may be edited and was not being edited; otherwise nothing is tracked. The clicked cell's mark flips when it may be edited and otherwise keeps its old value. |
| App.EditClick | main.rs:180-208 | The corrected click changes only editing marks and selects the clicked cell under the same condition. When the index named the only editing cell before, it does so afterwards. |
| App.FixedCellCanBeEdited | main.rs:201-205 | In EditFixedNumbers a click on any cell not being edited selects it, fixed or not. |
| App.StaleClickKeepsEditing | main.rs:181-207 | As written, clicking the editing cell when it may not be edited leaves it editing with no index tracking it. |
| App.StaleClickTwoEditing | main.rs:181-207 | As written, after that stale click a click on another cell that may be edited leaves two cells editing. Entering EditBlackWhite then resets only the tracked one. |
| App.AppState.CellClickedEditing | main.rs:192-208 | A click in a number mode has the effect of `EditClick`, and the invariant holds afterwards. |
| App.AppState.CellClicked | main.rs:180-212 | Dispatches on the mode. In EditBlackWhite it toggles the colour and revalidates. In number modes it does the edit click. In mode None it does nothing. It always returns true. |
| App.ModeNamed | main.rs:268-284 | A recognised name selects the mode with that name. An unrecognised name names no mode. |
| App.ModeNamesRoundTrip | main.rs:268-283 | Each mode is selected by its own name and by no other. |
| App.AppState.SetMode | main.rs:267-285 | The mode becomes the one named. Entering EditBlackWhite stops editing. Any other mode leaves the board and editing index unchanged. |
| App.AppState.constructor | main.rs:296-315 | Startup shows the board, builds its groups and validates it, with no mode and no cell being edited. |
| App.LoadCheckMeaning | main.rs:96-99 | An 81-cell board passes the per-cell load check iff it is well-formed and every cell has nine pencil marks. So a saved game state loads again, and a loaded board meets what the game state requires of its board. |

## Left out

- `random_board`, `empty_board` and `generate_puzzle` are not modelled. They draw random numbers and floating-point probabilities, and `generate_puzzle` is unfinished in the source.
- `vec_or_vec_model.rs` is not modelled as a type. Its two variants wrap a plain vector or a user-interface model behind `get` and `set`. The modelled code only reads a board through it, so the board is modelled as `seq<Cell>`.
- `build.rs` and the user-interface description are not modelled. They generate the `Cell` record; the `Cell` fields that only drawing uses are not modelled.
- The savegame file I/O and JSON encoding (`save_to_file`, `load_from_file`) are not modelled. Only the per-cell acceptance test of `load_from_file` is modelled, as `Cells.LoadedCellAccepted`, with `App.LoadCheckMeaning`.
- The user-interface wiring is not modelled: callbacks, `Rc`/`RefCell` sharing, the "just solved" timer, console output, the reset and solve buttons, and `set_board`. `set_board` is modelled only as the assignment of the board. In the source, the reset button and `AppState::generate_puzzle` use `set_board` without `setup_rows_columns`, so they leave the groups out of date.
- The copy of a solution back into the user interface (`solve_puzzle`) is not modelled. Only `solve_backtrack` is.
- Backtrack.SolverResultComplete: does not prove the other direction. It does not show that the search lists every completion obeying the rules, so it does not show that None means "unsolvable".
- The casts of a cell index to `i8`, `i32` and `usize` are not modelled. The model takes the index as a natural number below 81, which all callers pass.
- App.AppState.SetMode: requires a known mode name. An unknown name makes the source panic.
- Str8tsRow.Validate: requires values of at most 9. A larger value makes the source panic on its occurrence table.
- Str8tsRow.MissingValuesCells: requires candidates to be digits 1–9. Other values make the source index out of range.
- Str8tsRow.MissingValuesCells: requires `ValuesAtMostNine`. A value above 9 makes the source index `values_present` out of range.
- Backtrack.SolveBacktrack: requires `WellFormedBoard`: values −1 or 1–9. The source treats any value of 0 or below as empty; the model does not cover values outside −1 and 1–9.
- Str8tsRow.PossibleStraightValuesMeaning: requires the cell to lie in a straight of the group. Otherwise the source's `expect` panics, and `Str8tsBoard.WhiteCellHasStraight` shows that every call the game makes meets this.
- App.AppState.CellClickedEditing: models the corrected click `App.EditClick`, not the source's `App.EditClickAsWritten` (see Findings).
- App.AppState.CellClicked: in number modes it models the corrected `App.EditClick`, not `App.EditClickAsWritten` (see Findings).

## Findings

| source | as written | input that shows it | evidently intended | confidence | as-written member | corrected member |
|---|---|---|---|---|---|---|
| main.rs:181-207 | `cell_clicked` copies the clicked cell before resetting the editing cell, then always writes that copy back. If the clicked cell is the editing cell and may not be edited in the current mode, the stale copy brings back `is_editing = true` while `editing_cell_index` is `None`. | In EditFixedNumbers, click a fixed cell p; it becomes the editing cell. Enter play-enter-numbers, which keeps the editing cell. Click p again: p stays editing and no index names it. Click another editable cell q: q becomes the tracked editing cell, so two cells are editing. Enter edit-black-white: it resets only q (main.rs:270-276), and p stays editing. | An ineligible click should leave the reset cell as reset, so that no cell stays editing untracked. | not executed | App.EditClickAsWritten, App.StaleClickKeepsEditing, App.StaleClickTwoEditing | App.EditClick |
