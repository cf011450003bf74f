/**
 * The board-level rule engine: the 18 groups (nine rows, then nine columns) and the
 * candidate digits of one cell.
 */
module Str8tsBoard {
  import opened Util
  import opened Cells
  import opened Str8tsRow

  /** Group g < 9 is row g; group 9 + c is column c. */
  function GroupIndices(g: nat): (r: seq<nat>)
    requires g < 18
    ensures |r| == 9
  {
    if g < 9 then seq(9, j => 9 * g + j) else seq(9, j => (g - 9) + 9 * j)
  }

  lemma GroupIndicesFacts(g: nat)
    requires g < 18
    ensures forall j :: 0 <= j < 9 ==> GroupIndices(g)[j] < 81
    ensures Distinct(GroupIndices(g))
    ensures forall k: nat :: k < 81 ==> (k in GroupIndices(g) <==> (g < 9 && k / 9 == g) || (g >= 9 && k % 9 == g - 9))
  {
    var r := GroupIndices(g);
    forall k: nat | k < 81
      ensures k in r <==> (g < 9 && k / 9 == g) || (g >= 9 && k % 9 == g - 9)
    {
      if g < 9 && k / 9 == g {
        assert r[k % 9] == k;
      }
      if g >= 9 && k % 9 == g - 9 {
        assert r[k / 9] == k;
      }
    }
  }

  /** The groups of a board: Row::new over each group's indices. */
  function Groups(board: Board): (gs: seq<Row>)
    requires |board| == BoardSize
    ensures |gs| == 18
  {
    seq(18, g requires 0 <= g < 18 => NewRow(GroupIndices(g), board))
  }

  /** Group r holds row r, 9r..9r+8, and group 9 + c holds column c, c, c+9, ..., c+72; each is Row::new of its indices. */
  lemma GroupsShape(cells: Board)
    requires |cells| == BoardSize
    ensures forall g :: 0 <= g < 18 ==> |Groups(cells)[g].rowCells| == 9
    ensures forall r, j :: 0 <= r < 9 && 0 <= j < 9 ==> Groups(cells)[r].rowCells[j] == 9 * r + j
    ensures forall c, j :: 9 <= c < 18 && 0 <= j < 9 ==> Groups(cells)[c].rowCells[j] == (c - 9) + 9 * j
    ensures forall g :: 0 <= g < 18 ==>
      InBounds(Groups(cells)[g].rowCells, cells) && Groups(cells)[g] == NewRow(Groups(cells)[g].rowCells, cells)
  {
    forall g | 0 <= g < 18
      ensures Groups(cells)[g].rowCells == GroupIndices(g)
    {
      StraightsAreMaximalRuns(GroupIndices(g), cells);
    }
  }

  /** compute_rows_columns: the nine rows, then the nine columns. */
  method ComputeRowsColumns(cells: Board) returns (rowsColumns: seq<Row>)
    requires |cells| == BoardSize
    ensures rowsColumns == Groups(cells)
  {
    rowsColumns := [];
    for row := 0 to 9
      invariant rowsColumns == Groups(cells)[..row]
    {
      var indices := seq(9, j => 9 * row + j);
      assert indices == GroupIndices(row);
      assert Groups(cells)[..row + 1] == Groups(cells)[..row] + [NewRow(indices, cells)];
      rowsColumns := rowsColumns + [NewRow(indices, cells)];
    }
    for column := 0 to 9
      invariant rowsColumns == Groups(cells)[..9 + column]
    {
      var indices := seq(9, j => column + 9 * j);
      assert indices == GroupIndices(9 + column);
      assert Groups(cells)[..9 + column + 1] == Groups(cells)[..9 + column] + [NewRow(indices, cells)];
      rowsColumns := rowsColumns + [NewRow(indices, cells)];
    }
  }

  /** The row and the column group of cell k. */
  function RowOf(k: nat): nat { k / 9 }
  function ColumnOf(k: nat): nat { 9 + k % 9 }

  /**
   * What compute_possible_values needs of the groups: 18 of them, every index they
   * hold names a cell, and the cell's own row and column hold no number above nine.
   */
  predicate GroupsUsable(cellIndex: nat, cells: Board, rowsColumns: seq<Row>)
  {
    cellIndex < |cells| && RowOf(cellIndex) < 18 && |rowsColumns| == 18 &&
    (forall g :: 0 <= g < 18 ==> RowFits(rowsColumns[g], cells)) &&
    ValuesAtMostNine(rowsColumns[RowOf(cellIndex)].rowCells, cells) &&
    ValuesAtMostNine(rowsColumns[ColumnOf(cellIndex)].rowCells, cells)
  }

  /** A white cell must lie in a straight of its row and of its column, or the source panics. */
  predicate InItsStraights(cellIndex: nat, cells: Board, rowsColumns: seq<Row>)
    requires cellIndex < |cells| && RowOf(cellIndex) < 18 && |rowsColumns| == 18
  {
    cells[cellIndex].isWhite ==>
      FindStraight(rowsColumns[RowOf(cellIndex)].straights, cellIndex).Some? &&
      FindStraight(rowsColumns[ColumnOf(cellIndex)].straights, cellIndex).Some?
  }

  /** The straight rule admits v in the given group's straight through cellIndex. */
  predicate StraightAdmits(row: Row, cellIndex: nat, v: int, cells: Board)
    requires RowFits(row, cells) && FindStraight(row.straights, cellIndex).Some?
  {
    PossibleStraightValuesMeaning(row, cellIndex, [], cells);
    var straight := StraightOf(row, cellIndex);
    var filled := FilledValues(straight, cells);
    filled == [] || Fits(v, Min(filled), Max(filled), |straight|)
  }

  lemma {:induction false} AscendingDigitsAtMostNine(r: seq<int>)
    requires StrictlyAscending(r) && AllDigits(r)
    ensures |r| <= 9
  {
    if r != [] {
      var j := 0;
      while j < |r| - 1
        invariant 0 <= j < |r| && r[j] >= r[0] + j
      {
        j := j + 1;
      }
    }
  }

  /** The digits missing from both the row and the column of a cell. */
  function MissingInBoth(cellIndex: nat, cells: Board, rowsColumns: seq<Row>): (r: seq<int>)
    requires GroupsUsable(cellIndex, cells, rowsColumns)
    ensures StrictlyAscending(r) && AllDigits(r)
    ensures forall v :: v in r <==>
      IsDigit(v) &&
      v !in ValuesOf(rowsColumns[RowOf(cellIndex)].rowCells, cells) &&
      v !in ValuesOf(rowsColumns[ColumnOf(cellIndex)].rowCells, cells)
  {
    var inRow := MissingValues(rowsColumns[RowOf(cellIndex)].rowCells, None, cells);
    MissingValuesMeaning(rowsColumns[RowOf(cellIndex)].rowCells, None, cells);
    MissingValuesMeaning(rowsColumns[ColumnOf(cellIndex)].rowCells, Some(inRow), cells);
    MissingValues(rowsColumns[ColumnOf(cellIndex)].rowCells, Some(inRow), cells)
  }

  /**
   * compute_possible_values: the digits missing from the cell's row and column and,
   * for a white cell, those the row's straight and then the column's straight keep.
   */
  function PossibleValues(cellIndex: nat, cells: Board, rowsColumns: seq<Row>): (r: seq<int>)
    requires GroupsUsable(cellIndex, cells, rowsColumns) && InItsStraights(cellIndex, cells, rowsColumns)
    ensures StrictlyAscending(r) && AllDigits(r) && |r| <= 9
    ensures IsSubseq(r, MissingInBoth(cellIndex, cells, rowsColumns))
    ensures !cells[cellIndex].isWhite ==> r == MissingInBoth(cellIndex, cells, rowsColumns)
  {
    var inBoth := MissingInBoth(cellIndex, cells, rowsColumns);
    if cells[cellIndex].isWhite then
      var row := rowsColumns[RowOf(cellIndex)];
      var column := rowsColumns[ColumnOf(cellIndex)];
      var afterRow := PossibleStraightValues(row, cellIndex, inBoth, cells);
      PossibleStraightValuesMeaning(row, cellIndex, inBoth, cells);
      SubseqAscending(afterRow, inBoth);
      SubseqMembers(afterRow, inBoth);
      var afterColumn := PossibleStraightValues(column, cellIndex, afterRow, cells);
      PossibleStraightValuesMeaning(column, cellIndex, afterRow, cells);
      SubseqAscending(afterColumn, afterRow);
      SubseqMembers(afterColumn, afterRow);
      SubseqTrans(afterColumn, afterRow, inBoth);
      AscendingDigitsAtMostNine(afterColumn);
      afterColumn
    else
      SubseqRefl(inBoth);
      AscendingDigitsAtMostNine(inBoth);
      inBoth
  }

  /**
   * A white cell's candidates are the digits its row and its column both lack that the
   * straight rule admits in its row's straight and in its column's straight.
   */
  lemma PossibleValuesWhite(cellIndex: nat, cells: Board, rowsColumns: seq<Row>)
    requires GroupsUsable(cellIndex, cells, rowsColumns) && InItsStraights(cellIndex, cells, rowsColumns)
    requires cells[cellIndex].isWhite
    ensures forall v :: v in PossibleValues(cellIndex, cells, rowsColumns) <==>
      v in MissingInBoth(cellIndex, cells, rowsColumns) &&
      StraightAdmits(rowsColumns[RowOf(cellIndex)], cellIndex, v, cells) &&
      StraightAdmits(rowsColumns[ColumnOf(cellIndex)], cellIndex, v, cells)
  {
    var inBoth := MissingInBoth(cellIndex, cells, rowsColumns);
    var row := rowsColumns[RowOf(cellIndex)];
    var column := rowsColumns[ColumnOf(cellIndex)];
    var afterRow := PossibleStraightValues(row, cellIndex, inBoth, cells);
    PossibleStraightValuesMeaning(row, cellIndex, inBoth, cells);
    PossibleStraightValuesMeaning(column, cellIndex, afterRow, cells);
    SubseqMembers(afterRow, inBoth);
    SubseqMembers(PossibleStraightValues(column, cellIndex, afterRow, cells), afterRow);
  }

  /** Every index a group of the input holds names a cell of any 81-cell board. */
  lemma GroupFits(input: Board, b: Board, g: nat)
    requires |input| == BoardSize && |b| == BoardSize && g < 18
    ensures RowFits(Groups(input)[g], b)
  {
    GroupIndicesFacts(g);
    var straights := Groups(input)[g].straights;
    forall s, j | 0 <= s < |straights| && 0 <= j < |straights[s]|
      ensures straights[s][j] < |b|
    {
      StraightMembership(GroupIndices(g), input, straights[s][j]);
    }
  }

  /** Every group of the input fits any 81-cell board. */
  lemma GroupsFitAll(input: Board, b: Board)
    requires |input| == BoardSize && |b| == BoardSize
    ensures forall g :: 0 <= g < 18 ==> RowFits(Groups(input)[g], b)
  {
    forall g | 0 <= g < 18
      ensures RowFits(Groups(input)[g], b)
    {
      GroupFits(input, b, g);
    }
  }

  /** A white cell lies in some straight of each group that holds it. */
  lemma WhiteCellHasStraight(input: Board, k: nat, g: nat)
    requires |input| == BoardSize && k < BoardSize && g < 18 && input[k].isWhite
    requires g == RowOf(k) || g == ColumnOf(k)
    ensures FindStraight(Groups(input)[g].straights, k).Some?
  {
    GroupIndicesFacts(g);
    StraightMembership(GroupIndices(g), input, k);
  }

  /**
   * The groups built from one board serve every board with the same colours and no
   * number above nine: each white cell lies in a straight of its row and its column.
   */
  lemma GroupsReady(input: Board, b: Board, k: nat)
    requires |input| == BoardSize && |b| == BoardSize && k < BoardSize
    requires forall j :: 0 <= j < BoardSize ==> b[j].isWhite == input[j].isWhite && b[j].value <= 9
    ensures GroupsUsable(k, b, Groups(input)) && InItsStraights(k, b, Groups(input))
  {
    GroupsFitAll(input, b);
    var groups := Groups(input);
    assert ValuesAtMostNine(groups[RowOf(k)].rowCells, b);
    assert ValuesAtMostNine(groups[ColumnOf(k)].rowCells, b);
    if b[k].isWhite {
      WhiteCellHasStraight(input, k, RowOf(k));
      WhiteCellHasStraight(input, k, ColumnOf(k));
    }
  }

  /** Each group depends on the colours of the cells only. */
  lemma GroupByColour(a: Board, b: Board, g: nat)
    requires |a| == BoardSize && |b| == BoardSize && g < 18
    requires forall k :: 0 <= k < BoardSize ==> a[k].isWhite == b[k].isWhite
    ensures Groups(a)[g] == Groups(b)[g]
  {
    GroupIndicesFacts(g);
    assert Tagged(GroupIndices(g), a) == Tagged(GroupIndices(g), b);
  }

  /** The groups depend on the colours of the cells only. */
  lemma GroupsByColour(a: Board, b: Board)
    requires |a| == BoardSize && |b| == BoardSize
    requires forall k :: 0 <= k < BoardSize ==> a[k].isWhite == b[k].isWhite
    ensures Groups(a) == Groups(b)
  {
    forall g | 0 <= g < 18
      ensures Groups(a)[g] == Groups(b)[g]
    {
      GroupByColour(a, b, g);
    }
  }

  /**
   * Group g (row g, or column g - 9) holds no digit twice, and the filled digits of each
   * of its straights differ by less than the straight's length.
   */
  predicate ObeysRules(cells: Board, g: nat)
    requires |cells| == BoardSize && g < 18
  {
    GroupFits(cells, cells, g);
    GroupIndicesFacts(g);
    NoRepeatedDigit(GroupIndices(g), cells) &&
    forall s :: 0 <= s < |Groups(cells)[g].straights| ==> SpanBelowLength(Groups(cells)[g].straights[s], cells)
  }

  /** Every row and every column obeys both rules. */
  predicate ObeysAllRules(cells: Board)
    requires |cells| == BoardSize
  {
    forall g :: 0 <= g < 18 ==> ObeysRules(cells, g)
  }

  /**
   * What a candidate v of the white cell k guarantees: a digit missing from k's row and
   * column, which the straight through k in each of them admits.
   */
  predicate Admissible(b: Board, k: nat, v: int)
    requires |b| == BoardSize && k < BoardSize
  {
    GroupFits(b, b, RowOf(k));
    GroupFits(b, b, ColumnOf(k));
    GroupIndicesFacts(RowOf(k));
    GroupIndicesFacts(ColumnOf(k));
    IsDigit(v) && b[k].isWhite &&
    v !in ValuesOf(GroupIndices(RowOf(k)), b) && v !in ValuesOf(GroupIndices(ColumnOf(k)), b) &&
    FindStraight(Groups(b)[RowOf(k)].straights, k).Some? && FindStraight(Groups(b)[ColumnOf(k)].straights, k).Some? &&
    StraightAdmits(Groups(b)[RowOf(k)], k, v, b) && StraightAdmits(Groups(b)[ColumnOf(k)], k, v, b)
  }

  /** Every value compute_possible_values offers for a white cell is admissible there. */
  lemma CandidateIsAdmissible(b: Board, k: nat, v: int)
    requires |b| == BoardSize && k < BoardSize && b[k].isWhite
    requires GroupsUsable(k, b, Groups(b)) && InItsStraights(k, b, Groups(b))
    requires v in PossibleValues(k, b, Groups(b))
    ensures Admissible(b, k, v)
  {
    var groups := Groups(b);
    GroupIndicesFacts(RowOf(k));
    GroupIndicesFacts(ColumnOf(k));
    assert groups[RowOf(k)].rowCells == GroupIndices(RowOf(k));
    assert groups[ColumnOf(k)].rowCells == GroupIndices(ColumnOf(k));
    SubseqMembers(PossibleValues(k, b, groups), MissingInBoth(k, b, groups));
    PossibleValuesWhite(k, b, groups);
  }

  /** Changing a cell's value keeps every cell's colour. */
  lemma ValueKeepsColours(b: Board, k: nat, v: int)
    requires k < |b|
    ensures forall j :: 0 <= j < |b| ==> b[k := b[k].(value := v)][j].isWhite == b[j].isWhite
  {
  }

  /** Group g obeys the rules on b' when b' has b's colours and b's group g obeys them on b'. */
  lemma ObeysRulesFrom(b: Board, b': Board, g: nat)
    requires |b| == BoardSize && |b'| == BoardSize && g < 18
    requires forall k :: 0 <= k < BoardSize ==> b[k].isWhite == b'[k].isWhite
    requires RowFits(Groups(b)[g], b') && Groups(b)[g].rowCells == GroupIndices(g)
    requires NoRepeatedDigit(GroupIndices(g), b')
    requires forall s :: 0 <= s < |Groups(b)[g].straights| ==> SpanBelowLength(Groups(b)[g].straights[s], b')
    ensures ObeysRules(b', g)
  {
    GroupByColour(b, b', g);
  }

  /** No digit appears twice on the cells of group g. */
  predicate DigitsDistinct(cells: Board, g: nat)
    requires |cells| == BoardSize && g < 18
  {
    GroupIndicesFacts(g);
    NoRepeatedDigit(GroupIndices(g), cells)
  }

  /** The filled digits on each straight of b's group g differ by less than its length on cells. */
  predicate StraightsFit(b: Board, cells: Board, g: nat)
    requires |b| == BoardSize && |cells| == BoardSize && g < 18
  {
    GroupFits(b, cells, g);
    forall s :: 0 <= s < |Groups(b)[g].straights| ==> SpanBelowLength(Groups(b)[g].straights[s], cells)
  }

  /** Group g obeys the rules after writing v into cell k when neither rule breaks on its cells. */
  lemma WriteKeepsRules(b: Board, k: nat, v: int, g: nat)
    requires |b| == BoardSize && k < BoardSize && g < 18
    requires DigitsDistinct(b[k := b[k].(value := v)], g) && StraightsFit(b, b[k := b[k].(value := v)], g)
    ensures ObeysRules(b[k := b[k].(value := v)], g)
  {
    var b' := b[k := b[k].(value := v)];
    ValueKeepsColours(b, k, v);
    GroupIndicesFacts(g);
    GroupFits(b, b', g);
    ObeysRulesFrom(b, b', g);
  }

  /** A straight of group g through cell k is the one the source finds, in k's row or column. */
  lemma StraightThrough(b: Board, k: nat, g: nat, s: nat)
    requires |b| == BoardSize && k < BoardSize && g < 18
    requires s < |Groups(b)[g].straights| && k in Groups(b)[g].straights[s]
    ensures g == RowOf(k) || g == ColumnOf(k)
    ensures FindStraight(Groups(b)[g].straights, k).Some? && StraightOf(Groups(b)[g], k) == Groups(b)[g].straights[s]
  {
    var row := Groups(b)[g];
    GroupIndicesFacts(g);
    assert row == NewRow(GroupIndices(g), b);
    StraightMembership(GroupIndices(g), b, k);
    FoundStraightIs(row.straights, k, s);
  }

  /**
   * An admissible value of cell k keeps straight s of group g within its length: it
   * fits the filled range of the one straight through k, and other straights do not
   * hold k.
   */
  lemma CandidateKeepsStraight(b: Board, k: nat, v: int, g: nat, s: nat)
    requires |b| == BoardSize && k < BoardSize && g < 18 && Admissible(b, k, v)
    requires RowFits(Groups(b)[g], b) && s < |Groups(b)[g].straights|
    requires SpanBelowLength(Groups(b)[g].straights[s], b)
    ensures SpanBelowLength(Groups(b)[g].straights[s], b[k := b[k].(value := v)])
  {
    var straight := Groups(b)[g].straights[s];
    if k in straight {
      StraightThrough(b, k, g, s);
      assert StraightAdmits(Groups(b)[g], k, v, b);
      SpanKeptByFit(straight, b, k, v);
    } else {
      SpanUnchanged(straight, b, k, v);
    }
  }

  /** An admissible value of cell k is missing from its row and column, so no group gains a repeated digit. */
  lemma CandidateKeepsRepeats(b: Board, k: nat, v: int, g: nat)
    requires |b| == BoardSize && k < BoardSize && g < 18 && Admissible(b, k, v) && ObeysRules(b, g)
    ensures DigitsDistinct(b[k := b[k].(value := v)], g)
  {
    GroupIndicesFacts(g);
    if k in GroupIndices(g) {
      assert g == RowOf(k) || g == ColumnOf(k);
    }
    NoRepeatKept(GroupIndices(g), b, k, v);
  }

  /** An admissible value of cell k keeps every straight of group g within its length. */
  lemma CandidateKeepsSpans(b: Board, k: nat, v: int, g: nat)
    requires |b| == BoardSize && k < BoardSize && g < 18 && Admissible(b, k, v) && ObeysRules(b, g)
    ensures StraightsFit(b, b[k := b[k].(value := v)], g)
  {
    GroupFits(b, b, g);
    GroupFits(b, b[k := b[k].(value := v)], g);
    forall s | 0 <= s < |Groups(b)[g].straights|
      ensures SpanBelowLength(Groups(b)[g].straights[s], b[k := b[k].(value := v)])
    {
      CandidateKeepsStraight(b, k, v, g, s);
    }
  }

  /** Writing an admissible value into cell k keeps group g obeying both rules. */
  lemma CandidateKeepsGroup(b: Board, b': Board, k: nat, v: int, g: nat)
    requires |b| == BoardSize && k < BoardSize && g < 18 && Admissible(b, k, v) && ObeysRules(b, g)
    requires b' == b[k := b[k].(value := v)]
    ensures ObeysRules(b', g)
  {
    CandidateKeepsRepeats(b, k, v, g);
    CandidateKeepsSpans(b, k, v, g);
    WriteKeepsRules(b, k, v, g);
  }

  /**
   * Giving the white cell k one of its candidates (compute_possible_values) keeps every
   * group obeying both rules.
   */
  lemma CandidateKeepsRules(b: Board, b': Board, k: nat, v: int)
    requires |b| == BoardSize && k < BoardSize && b[k].isWhite
    requires GroupsUsable(k, b, Groups(b)) && InItsStraights(k, b, Groups(b))
    requires v in PossibleValues(k, b, Groups(b)) && ObeysAllRules(b)
    requires b' == b[k := b[k].(value := v)]
    ensures ObeysAllRules(b')
  {
    CandidateIsAdmissible(b, k, v);
    forall g | 0 <= g < 18
      ensures ObeysRules(b', g)
    {
      CandidateKeepsGroup(b, b', k, v, g);
    }
  }
}
