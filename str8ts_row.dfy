/**
 * One row or one column of the grid (a "group"): its nine cell indices and the
 * straights (maximal runs of white cells) they split into, with the group-level
 * rule checks and candidate filters.
 */
module Str8tsRow {
  import opened Util
  import opened Cells

  datatype Row = Row(rowCells: seq<nat>, straights: seq<seq<nat>>)

  /** A group index together with the colour of its cell. */
  datatype TaggedCell = TaggedCell(index: nat, isWhite: bool)

  /** What `validate` reports: the index lists of repeated digits and the invalid straights. */
  datatype Violations = Violations(duplicates: seq<seq<nat>>, invalidStraights: seq<seq<nat>>)

  predicate InBounds(indices: seq<nat>, board: Board)
  {
    forall j :: 0 <= j < |indices| ==> indices[j] < |board|
  }

  /** Every index the group mentions names a cell of the board. */
  predicate RowFits(row: Row, board: Board)
  {
    InBounds(row.rowCells, board) &&
    forall s :: 0 <= s < |row.straights| ==> InBounds(row.straights[s], board)
  }

  /** No cell of the group holds a number above nine (the source indexes a nine-slot table by it). */
  predicate ValuesAtMostNine(indices: seq<nat>, board: Board)
    requires InBounds(indices, board)
  {
    forall j :: 0 <= j < |indices| ==> board[indices[j]].value <= 9
  }

  // ---------------------------------------------------------------------------
  // Row::new: splitting into straights
  // ---------------------------------------------------------------------------

  /** Each index paired with the colour of its cell. */
  function Tagged(rowCells: seq<nat>, board: Board): (p: seq<TaggedCell>)
    requires InBounds(rowCells, board)
    ensures |p| == |rowCells|
    ensures forall j :: 0 <= j < |p| ==> p[j] == TaggedCell(rowCells[j], board[rowCells[j]].isWhite)
  {
    seq(|rowCells|, j requires 0 <= j < |rowCells| => TaggedCell(rowCells[j], board[rowCells[j]].isWhite))
  }

  /** Slice splitting at every black element: separators are dropped, empty pieces kept. */
  function Split(p: seq<TaggedCell>): (parts: seq<seq<TaggedCell>>)
    ensures |parts| >= 1
  {
    if p == [] then [[]]
    else
      var rest := Split(p[1..]);
      if !p[0].isWhite then [[]] + rest else [[p[0]] + rest[0]] + rest[1..]
  }

  function NonEmpty(parts: seq<seq<TaggedCell>>): seq<seq<TaggedCell>>
  {
    if parts == [] then []
    else (if parts[0] != [] then [parts[0]] else []) + NonEmpty(parts[1..])
  }

  function Indices(part: seq<TaggedCell>): (r: seq<nat>)
    ensures |r| == |part| && forall j :: 0 <= j < |part| ==> r[j] == part[j].index
  {
    if part == [] then [] else [part[0].index] + Indices(part[1..])
  }

  function IndexLists(parts: seq<seq<TaggedCell>>): (r: seq<seq<nat>>)
    ensures |r| == |parts| && forall s :: 0 <= s < |parts| ==> r[s] == Indices(parts[s])
  {
    if parts == [] then [] else [Indices(parts[0])] + IndexLists(parts[1..])
  }

  /** Every piece of a split holds white elements of the sliced sequence only. */
  lemma {:induction false} SplitPartsWhite(p: seq<TaggedCell>)
    ensures forall s, j :: 0 <= s < |Split(p)| && 0 <= j < |Split(p)[s]| ==> Split(p)[s][j].isWhite && Split(p)[s][j] in p
  {
    if p != [] {
      SplitPartsWhite(p[1..]);
    }
  }

  /** Dropping the empty pieces keeps only pieces of the split, none of them empty. */
  lemma {:induction false} NonEmptyParts(parts: seq<seq<TaggedCell>>)
    ensures forall s :: 0 <= s < |NonEmpty(parts)| ==> NonEmpty(parts)[s] != [] && NonEmpty(parts)[s] in parts
  {
    if parts != [] {
      NonEmptyParts(parts[1..]);
    }
  }

  /** Every straight is a non-empty list of white cells of the group. */
  predicate StraightsOfWhiteCells(straights: seq<seq<nat>>, rowCells: seq<nat>, board: Board)
    requires InBounds(rowCells, board)
  {
    forall s, j :: 0 <= s < |straights| && 0 <= j < |straights[s]| ==>
      straights[s] != [] && straights[s][j] in rowCells && board[straights[s][j]].isWhite
  }

  /** Row::new: the group keeps its indices and records its straights. */
  function NewRow(rowCells: seq<nat>, board: Board): (r: Row)
    requires InBounds(rowCells, board)
    ensures r.rowCells == rowCells && StraightsOfWhiteCells(r.straights, rowCells, board)
  {
    SplitPartsWhite(Tagged(rowCells, board));
    NonEmptyParts(Split(Tagged(rowCells, board)));
    Row(rowCells, IndexLists(NonEmpty(Split(Tagged(rowCells, board)))))
  }

  /** The white cells of a group, in group order. */
  function WhiteCells(rowCells: seq<nat>, board: Board): seq<nat>
    requires InBounds(rowCells, board)
  {
    if rowCells == [] then []
    else (if board[rowCells[0]].isWhite then [rowCells[0]] else []) + WhiteCells(rowCells[1..], board)
  }

  /** The end of the white run starting at position i (i itself when p[i] is black or i is the end). */
  function RunEnd(p: seq<TaggedCell>, i: nat): (j: nat)
    requires i <= |p|
    ensures i <= j <= |p|
    ensures forall t :: i <= t < j ==> p[t].isWhite
    ensures j < |p| ==> !p[j].isWhite
    decreases |p| - i
  {
    if i == |p| || !p[i].isWhite then i else RunEnd(p, i + 1)
  }

  /** A half-open range of positions within a group. */
  datatype Span = Span(lo: nat, hi: nat)

  /**
   * Reference definition of the straights: scanning from position i, the ranges of
   * maximal white runs, left to right.
   */
  function Spans(p: seq<TaggedCell>, i: nat): (r: seq<Span>)
    requires i <= |p|
    ensures forall s :: 0 <= s < |r| ==> i <= r[s].lo < r[s].hi <= |p|
    decreases |p| - i
  {
    if i == |p| then []
    else if !p[i].isWhite then Spans(p, i + 1)
    else [Span(i, RunEnd(p, i))] + Spans(p, RunEnd(p, i))
  }

  predicate SpansWithin(p: seq<TaggedCell>, spans: seq<Span>)
  {
    forall s :: 0 <= s < |spans| ==> spans[s].lo <= spans[s].hi <= |p|
  }

  function SpanSlices(p: seq<TaggedCell>, spans: seq<Span>): (r: seq<seq<TaggedCell>>)
    requires SpansWithin(p, spans)
    ensures |r| == |spans| && forall s :: 0 <= s < |spans| ==> r[s] == p[spans[s].lo..spans[s].hi]
  {
    if spans == [] then [] else [p[spans[0].lo..spans[0].hi]] + SpanSlices(p, spans[1..])
  }

  lemma {:induction false} SplitAtRun(p: seq<TaggedCell>, i: nat)
    requires i <= |p|
    ensures Split(p[i..])[0] == p[i..RunEnd(p, i)]
    ensures RunEnd(p, i) == |p| ==> |Split(p[i..])| == 1
    ensures RunEnd(p, i) < |p| ==> Split(p[i..])[1..] == Split(p[RunEnd(p, i) + 1..])
    decreases |p| - i
  {
    if i < |p| {
      assert p[i..][0] == p[i] && p[i..][1..] == p[i + 1..];
      if p[i].isWhite {
        SplitAtRun(p, i + 1);
        assert [p[i]] + p[i + 1..RunEnd(p, i)] == p[i..RunEnd(p, i)];
      }
    }
  }

  lemma {:induction false} NonEmptyCons(x: seq<TaggedCell>, rest: seq<seq<TaggedCell>>)
    ensures NonEmpty([x] + rest) == (if x != [] then [x] else []) + NonEmpty(rest)
  {
    assert ([x] + rest)[0] == x && ([x] + rest)[1..] == rest;
  }

  lemma SpanSlicesCons(p: seq<TaggedCell>, sp: Span, rest: seq<Span>)
    requires sp.lo <= sp.hi <= |p| && SpansWithin(p, rest)
    ensures SpansWithin(p, [sp] + rest)
    ensures SpanSlices(p, [sp] + rest) == [p[sp.lo..sp.hi]] + SpanSlices(p, rest)
  {
    assert ([sp] + rest)[1..] == rest;
  }

  /** Splitting the suffix from position i at black cells yields exactly the reference runs. */
  lemma {:induction false} SplitIsSpans(p: seq<TaggedCell>, i: nat)
    requires i <= |p|
    ensures SpansWithin(p, Spans(p, i))
    ensures NonEmpty(Split(p[i..])) == SpanSlices(p, Spans(p, i))
    decreases |p| - i
  {
    if i == |p| {
      assert p[i..] == [];
    } else if !p[i].isWhite {
      SplitIsSpans(p, i + 1);
      SplitIsSpansBlack(p, i);
    } else if RunEnd(p, i) == |p| {
      SplitIsSpansLast(p, i);
    } else {
      SplitIsSpans(p, RunEnd(p, i) + 1);
      SplitIsSpansRun(p, i);
    }
  }

  /** The step of SplitIsSpans at a black cell: an empty part, dropped. */
  lemma {:induction false} SplitIsSpansBlack(p: seq<TaggedCell>, i: nat)
    requires i < |p| && !p[i].isWhite
    requires SpansWithin(p, Spans(p, i + 1))
    requires NonEmpty(Split(p[i + 1..])) == SpanSlices(p, Spans(p, i + 1))
    ensures SpansWithin(p, Spans(p, i))
    ensures NonEmpty(Split(p[i..])) == SpanSlices(p, Spans(p, i))
  {
    var parts := Split(p[i..]);
    SplitAtRun(p, i);
    assert parts == [parts[0]] + parts[1..];
    NonEmptyCons(parts[0], parts[1..]);
    assert parts[0] == [];
    assert parts[1..] == Split(p[i + 1..]);
    assert Spans(p, i) == Spans(p, i + 1);
  }

  /** The step of SplitIsSpans at a white run that reaches the end of the group. */
  lemma {:induction false} SplitIsSpansLast(p: seq<TaggedCell>, i: nat)
    requires i < |p| && p[i].isWhite && RunEnd(p, i) == |p|
    ensures SpansWithin(p, Spans(p, i))
    ensures NonEmpty(Split(p[i..])) == SpanSlices(p, Spans(p, i))
  {
    var parts := Split(p[i..]);
    var j := RunEnd(p, i);
    SplitAtRun(p, i);
    assert parts == [parts[0]] + parts[1..];
    NonEmptyCons(parts[0], parts[1..]);
    assert parts[0] == p[i..j] != [];
    assert parts[1..] == [];
    assert Spans(p, i) == [Span(i, j)] + Spans(p, j);
    assert Spans(p, j) == [];
    SpanSlicesCons(p, Span(i, j), []);
  }

  /** The step of SplitIsSpans at a white run that a black cell ends. */
  lemma {:induction false} SplitIsSpansRun(p: seq<TaggedCell>, i: nat)
    requires i < |p| && p[i].isWhite && RunEnd(p, i) < |p|
    requires SpansWithin(p, Spans(p, RunEnd(p, i) + 1))
    requires NonEmpty(Split(p[RunEnd(p, i) + 1..])) == SpanSlices(p, Spans(p, RunEnd(p, i) + 1))
    ensures SpansWithin(p, Spans(p, i))
    ensures NonEmpty(Split(p[i..])) == SpanSlices(p, Spans(p, i))
  {
    var parts := Split(p[i..]);
    var j := RunEnd(p, i);
    var tail := Spans(p, j + 1);
    assert Spans(p, j) == tail;
    assert Spans(p, i) == [Span(i, j)] + tail;
    SpanSlicesCons(p, Span(i, j), tail);
    SplitAtRun(p, i);
    var rest := parts[1..];
    assert parts == [parts[0]] + rest;
    assert parts[0] == p[i..j] != [];
    NonEmptyCons(parts[0], rest);
    assert NonEmpty(parts) == [p[i..j]] + NonEmpty(rest);
    assert NonEmpty(rest) == SpanSlices(p, tail);
  }

  /** A maximal white run: p[a..b] is all white and bounded by black cells or the ends. */
  ghost predicate IsMaximalRun(p: seq<TaggedCell>, a: int, b: int)
  {
    0 <= a < b <= |p| &&
    (forall j :: a <= j < b ==> p[j].isWhite) &&
    (a == 0 || !p[a - 1].isWhite) &&
    (b == |p| || !p[b].isWhite)
  }

  lemma {:induction false} SpansAreMaximal(p: seq<TaggedCell>, i: nat)
    requires i <= |p| && (i == 0 || !p[i - 1].isWhite)
    ensures forall s :: 0 <= s < |Spans(p, i)| ==> IsMaximalRun(p, Spans(p, i)[s].lo, Spans(p, i)[s].hi)
    decreases |p| - i
  {
    if i < |p| {
      if !p[i].isWhite {
        assert Spans(p, i) == Spans(p, i + 1);
        SpansAreMaximal(p, i + 1);
      } else {
        var j := RunEnd(p, i);
        var spans := Spans(p, i);
        assert spans == [Span(i, j)] + Spans(p, j);
        if j < |p| {
          assert Spans(p, j) == Spans(p, j + 1);
          SpansAreMaximal(p, j + 1);
        }
        forall s | 0 <= s < |spans|
          ensures IsMaximalRun(p, spans[s].lo, spans[s].hi)
        {
          if s > 0 {
            assert spans[s] == Spans(p, j)[s - 1];
          }
        }
      }
    }
  }

  function WhiteIndices(p: seq<TaggedCell>): seq<nat>
  {
    if p == [] then [] else (if p[0].isWhite then [p[0].index] else []) + WhiteIndices(p[1..])
  }

  lemma {:induction false} WhiteIndicesAppend(a: seq<TaggedCell>, b: seq<TaggedCell>)
    ensures WhiteIndices(a + b) == WhiteIndices(a) + WhiteIndices(b)
  {
    if a != [] {
      assert (a + b)[0] == a[0] && (a + b)[1..] == a[1..] + b;
      WhiteIndicesAppend(a[1..], b);
      var h := if a[0].isWhite then [a[0].index] else [];
      calc {
        WhiteIndices(a + b);
        h + WhiteIndices(a[1..] + b);
        h + (WhiteIndices(a[1..]) + WhiteIndices(b));
        (h + WhiteIndices(a[1..])) + WhiteIndices(b);
      }
    } else {
      assert a + b == b;
    }
  }

  lemma {:induction false} WhiteIndicesOfWhite(p: seq<TaggedCell>)
    requires forall j :: 0 <= j < |p| ==> p[j].isWhite
    ensures WhiteIndices(p) == Indices(p)
  {
    if p != [] {
      WhiteIndicesOfWhite(p[1..]);
    }
  }

  lemma IndexListsCons(x: seq<TaggedCell>, rest: seq<seq<TaggedCell>>)
    ensures IndexLists([x] + rest) == [Indices(x)] + IndexLists(rest)
  {
    assert ([x] + rest)[0] == x && ([x] + rest)[1..] == rest;
  }

  lemma {:induction false} SpansFlatten(p: seq<TaggedCell>, i: nat)
    requires i <= |p|
    ensures SpansWithin(p, Spans(p, i))
    ensures Flatten(IndexLists(SpanSlices(p, Spans(p, i)))) == WhiteIndices(p[i..])
    decreases |p| - i
  {
    if i < |p| {
      assert p[i..][0] == p[i] && p[i..][1..] == p[i + 1..];
      if !p[i].isWhite {
        assert Spans(p, i) == Spans(p, i + 1);
        assert WhiteIndices(p[i..]) == WhiteIndices(p[i + 1..]);
        SpansFlatten(p, i + 1);
      } else {
        SpansFlatten(p, RunEnd(p, i));
        SpansFlattenRun(p, i);
      }
    } else {
      assert p[i..] == [];
    }
  }

  /** The white indices from i on: those of an all-white run i..j, then those from j on. */
  lemma WhiteRunThen(p: seq<TaggedCell>, i: nat, j: nat)
    requires i <= j <= |p| && forall t :: i <= t < j ==> p[t].isWhite
    ensures WhiteIndices(p[i..]) == Indices(p[i..j]) + WhiteIndices(p[j..])
  {
    SliceSplit(p, i, j);
    WhiteIndicesAppend(p[i..j], p[j..]);
    var run := p[i..j];
    forall t | 0 <= t < |run|
      ensures run[t].isWhite
    {
      assert run[t] == p[i + t];
    }
    WhiteIndicesOfWhite(run);
  }

  /** The step of SpansFlatten at a white cell: its run, then the spans after the run. */
  lemma {:induction false} SpansFlattenRun(p: seq<TaggedCell>, i: nat)
    requires i < |p| && p[i].isWhite
    requires SpansWithin(p, Spans(p, RunEnd(p, i)))
    requires Flatten(IndexLists(SpanSlices(p, Spans(p, RunEnd(p, i))))) == WhiteIndices(p[RunEnd(p, i)..])
    ensures SpansWithin(p, Spans(p, i))
    ensures Flatten(IndexLists(SpanSlices(p, Spans(p, i)))) == WhiteIndices(p[i..])
  {
    var j := RunEnd(p, i);
    var later := Spans(p, j);
    assert Spans(p, i) == [Span(i, j)] + later;
    SpanSlicesCons(p, Span(i, j), later);
    IndexListsCons(p[i..j], SpanSlices(p, later));
    FlattenCons(Indices(p[i..j]), IndexLists(SpanSlices(p, later)));
    WhiteRunThen(p, i, j);
  }

  /** Two white neighbours at or after position i fall into one run. */
  lemma {:induction false} SpansAdjacent(p: seq<TaggedCell>, i: nat, j: nat)
    requires i <= j && j + 1 < |p| && p[j].isWhite && p[j + 1].isWhite
    ensures exists s :: 0 <= s < |Spans(p, i)| && Spans(p, i)[s].lo <= j && j + 1 < Spans(p, i)[s].hi
    decreases |p| - i
  {
    var spans := Spans(p, i);
    if !p[i].isWhite {
      SpansAdjacent(p, i + 1, j);
    } else {
      var e := RunEnd(p, i);
      if j + 1 < e {
        assert spans[0] == Span(i, e);
      } else {
        SpansAdjacent(p, e, j);
        var s :| 0 <= s < |Spans(p, e)| && Spans(p, e)[s].lo <= j && j + 1 < Spans(p, e)[s].hi;
        assert spans[s + 1] == Spans(p, e)[s];
      }
    }
  }

  lemma {:induction false} WhiteCellsAreWhiteIndices(rowCells: seq<nat>, board: Board)
    requires InBounds(rowCells, board)
    ensures WhiteIndices(Tagged(rowCells, board)) == WhiteCells(rowCells, board)
  {
    if rowCells != [] {
      assert Tagged(rowCells, board)[1..] == Tagged(rowCells[1..], board);
      WhiteCellsAreWhiteIndices(rowCells[1..], board);
    }
  }

  /** Two indices lie in one common straight. */
  ghost predicate ShareStraight(straights: seq<seq<nat>>, x: nat, y: nat)
  {
    exists s :: 0 <= s < |straights| && x in straights[s] && y in straights[s]
  }

  /** The straights of Row::new are the index lists of the reference runs. */
  lemma {:induction false} StraightsAreSpans(rowCells: seq<nat>, board: Board)
    requires InBounds(rowCells, board)
    ensures SpansWithin(Tagged(rowCells, board), Spans(Tagged(rowCells, board), 0))
    ensures NewRow(rowCells, board).straights ==
      IndexLists(SpanSlices(Tagged(rowCells, board), Spans(Tagged(rowCells, board), 0)))
  {
    var p := Tagged(rowCells, board);
    assert p[0..] == p;
    SplitIsSpans(p, 0);
  }

  lemma IndicesOfTaggedSlice(rowCells: seq<nat>, board: Board, lo: nat, hi: nat)
    requires InBounds(rowCells, board) && lo <= hi <= |rowCells|
    ensures Indices(Tagged(rowCells, board)[lo..hi]) == rowCells[lo..hi]
  {
    var slice := Tagged(rowCells, board)[lo..hi];
    forall j | 0 <= j < |slice|
      ensures Indices(slice)[j] == rowCells[lo..hi][j]
    {
      assert slice[j] == Tagged(rowCells, board)[lo + j];
    }
  }

  /** The s-th straight is the group's slice over the s-th reference run. */
  lemma StraightIsSlice(rowCells: seq<nat>, board: Board, s: nat)
    requires InBounds(rowCells, board) && s < |Spans(Tagged(rowCells, board), 0)|
    ensures |NewRow(rowCells, board).straights| == |Spans(Tagged(rowCells, board), 0)|
    ensures NewRow(rowCells, board).straights[s] ==
      rowCells[Spans(Tagged(rowCells, board), 0)[s].lo..Spans(Tagged(rowCells, board), 0)[s].hi]
  {
    var p := Tagged(rowCells, board);
    var spans := Spans(p, 0);
    StraightsAreSpans(rowCells, board);
    var slices := SpanSlices(p, spans);
    assert slices[s] == p[spans[s].lo..spans[s].hi];
    assert NewRow(rowCells, board).straights[s] == Indices(slices[s]);
    IndicesOfTaggedSlice(rowCells, board, spans[s].lo, spans[s].hi);
  }

  lemma {:induction false} StraightsAreSlices(rowCells: seq<nat>, board: Board)
    requires InBounds(rowCells, board)
    ensures |NewRow(rowCells, board).straights| == |Spans(Tagged(rowCells, board), 0)|
    ensures forall s :: 0 <= s < |NewRow(rowCells, board).straights| ==>
      var sp := Spans(Tagged(rowCells, board), 0)[s];
      IsMaximalRun(Tagged(rowCells, board), sp.lo, sp.hi) &&
      NewRow(rowCells, board).straights[s] == rowCells[sp.lo..sp.hi]
  {
    var p := Tagged(rowCells, board);
    var straights := NewRow(rowCells, board).straights;
    var spans := Spans(p, 0);
    StraightsAreSpans(rowCells, board);
    SpansAreMaximal(p, 0);
    forall s | 0 <= s < |straights|
      ensures straights[s] == rowCells[spans[s].lo..spans[s].hi]
    {
      StraightIsSlice(rowCells, board, s);
    }
  }

  lemma {:induction false} StraightsFlatten(rowCells: seq<nat>, board: Board)
    requires InBounds(rowCells, board)
    ensures Flatten(NewRow(rowCells, board).straights) == WhiteCells(rowCells, board)
  {
    var p := Tagged(rowCells, board);
    StraightsAreSpans(rowCells, board);
    SpansFlatten(p, 0);
    assert p[0..] == p;
    WhiteCellsAreWhiteIndices(rowCells, board);
  }

  lemma {:induction false} StraightsJoinNeighbours(rowCells: seq<nat>, board: Board, j: nat)
    requires InBounds(rowCells, board)
    requires j + 1 < |rowCells| && board[rowCells[j]].isWhite && board[rowCells[j + 1]].isWhite
    ensures ShareStraight(NewRow(rowCells, board).straights, rowCells[j], rowCells[j + 1])
  {
    var p := Tagged(rowCells, board);
    var straights := NewRow(rowCells, board).straights;
    var spans := Spans(p, 0);
    SpansAdjacent(p, 0, j);
    var s :| 0 <= s < |spans| && spans[s].lo <= j && j + 1 < spans[s].hi;
    StraightIsSlice(rowCells, board, s);
    var run := rowCells[spans[s].lo..spans[s].hi];
    assert run[j - spans[s].lo] == rowCells[j] && run[j + 1 - spans[s].lo] == rowCells[j + 1];
    assert rowCells[j] in straights[s] && rowCells[j + 1] in straights[s];
  }

  /**
   * Row::new keeps the indices and makes the straights exactly the maximal runs of
   * white cells, in group order: the s-th straight is the slice of the group over
   * the s-th maximal white run, their concatenation is the list of white cells,
   * and two white neighbours share a straight.
   */
  lemma {:induction false} StraightsAreMaximalRuns(rowCells: seq<nat>, board: Board)
    requires InBounds(rowCells, board)
    ensures NewRow(rowCells, board).rowCells == rowCells
    ensures |NewRow(rowCells, board).straights| == |Spans(Tagged(rowCells, board), 0)|
    ensures forall s :: 0 <= s < |NewRow(rowCells, board).straights| ==>
      var sp := Spans(Tagged(rowCells, board), 0)[s];
      IsMaximalRun(Tagged(rowCells, board), sp.lo, sp.hi) &&
      NewRow(rowCells, board).straights[s] == rowCells[sp.lo..sp.hi]
    ensures Flatten(NewRow(rowCells, board).straights) == WhiteCells(rowCells, board)
    ensures forall j :: 0 <= j < |rowCells| - 1 && board[rowCells[j]].isWhite && board[rowCells[j + 1]].isWhite ==>
      ShareStraight(NewRow(rowCells, board).straights, rowCells[j], rowCells[j + 1])
  {
    StraightsAreSlices(rowCells, board);
    StraightsFlatten(rowCells, board);
    forall j | 0 <= j < |rowCells| - 1 && board[rowCells[j]].isWhite && board[rowCells[j + 1]].isWhite
      ensures ShareStraight(NewRow(rowCells, board).straights, rowCells[j], rowCells[j + 1])
    {
      StraightsJoinNeighbours(rowCells, board, j);
    }
  }

  // ---------------------------------------------------------------------------
  // Row::validate
  // ---------------------------------------------------------------------------

  /** The indices of the group whose cell holds v, in group order. */
  function Occurrences(rc: seq<nat>, board: Board, v: int): seq<nat>
    requires InBounds(rc, board)
  {
    if rc == [] then []
    else
      var last := rc[|rc| - 1];
      Occurrences(rc[..|rc| - 1], board, v) + (if board[last].value == v then [last] else [])
  }

  lemma {:induction false} OccurrencesSound(rc: seq<nat>, board: Board, v: int, x: nat)
    requires InBounds(rc, board) && x in Occurrences(rc, board, v)
    ensures exists j :: 0 <= j < |rc| && rc[j] == x && board[x].value == v
  {
    var n := |rc| - 1;
    var init := rc[..n];
    assert Occurrences(rc, board, v) ==
      Occurrences(init, board, v) + (if board[rc[n]].value == v then [rc[n]] else []);
    if x in Occurrences(init, board, v) {
      OccurrencesSound(init, board, v, x);
      var j :| 0 <= j < |init| && init[j] == x && board[x].value == v;
      assert rc[j] == x;
    } else {
      assert rc[n] == x && board[x].value == v;
    }
  }

  lemma {:induction false} OccurrencesComplete(rc: seq<nat>, board: Board, v: int, j: nat)
    requires InBounds(rc, board) && j < |rc| && board[rc[j]].value == v
    ensures rc[j] in Occurrences(rc, board, v)
  {
    var n := |rc| - 1;
    var init := rc[..n];
    assert Occurrences(rc, board, v) ==
      Occurrences(init, board, v) + (if board[rc[n]].value == v then [rc[n]] else []);
    if j < n {
      assert init[j] == rc[j];
      OccurrencesComplete(init, board, v, j);
    }
  }

  lemma OccurrencesMember(rc: seq<nat>, board: Board, v: int, x: nat)
    requires InBounds(rc, board)
    ensures x in Occurrences(rc, board, v) <==> exists j :: 0 <= j < |rc| && rc[j] == x && board[x].value == v
  {
    if x in Occurrences(rc, board, v) {
      OccurrencesSound(rc, board, v, x);
    }
    if exists j :: 0 <= j < |rc| && rc[j] == x && board[x].value == v {
      var j :| 0 <= j < |rc| && rc[j] == x && board[x].value == v;
      OccurrencesComplete(rc, board, v, j);
    }
  }

  lemma {:induction false} OccurrencesInOrder(rc: seq<nat>, board: Board, v: int)
    requires InBounds(rc, board)
    ensures IsSubseq(Occurrences(rc, board, v), rc)
  {
    if rc == [] {
    } else {
      var init := rc[..|rc| - 1];
      OccurrencesInOrder(init, board, v);
      var last := rc[|rc| - 1];
      SubseqSnoc(Occurrences(init, board, v), init, last);
      assert init + [last] == rc;
      if board[last].value == v {
        assert Occurrences(rc, board, v) == Occurrences(init, board, v) + [last];
      } else {
        assert Occurrences(rc, board, v) == Occurrences(init, board, v) + [];
        assert Occurrences(init, board, v) + [] == Occurrences(init, board, v);
        assert IsSubseq(Occurrences(init, board, v), init + [last]);
      }
    }
  }

  lemma {:induction false} TwoPositionsTwoOccurrences(rc: seq<nat>, board: Board, v: int, a: nat, c: nat)
    requires InBounds(rc, board)
    requires a < c < |rc| && board[rc[a]].value == v && board[rc[c]].value == v
    ensures |Occurrences(rc, board, v)| >= 2
  {
    var n := |rc| - 1;
    var init := rc[..n];
    var occ := Occurrences(init, board, v);
    assert init[a] == rc[a];
    if c == n {
      OccurrencesMember(init, board, v, rc[a]);
      assert occ != [];
    } else {
      assert init[c] == rc[c];
      TwoPositionsTwoOccurrences(init, board, v, a, c);
    }
  }

  lemma {:induction false} TwoOccurrencesTwoPositions(rc: seq<nat>, board: Board, v: int)
    requires InBounds(rc, board) && |Occurrences(rc, board, v)| >= 2
    ensures exists a, c :: 0 <= a < c < |rc| && board[rc[a]].value == v && board[rc[c]].value == v
  {
    var n := |rc| - 1;
    var init := rc[..n];
    var occ := Occurrences(init, board, v);
    if board[rc[n]].value == v {
      assert occ != [];
      OccurrencesMember(init, board, v, occ[0]);
      var a :| 0 <= a < |init| && init[a] == occ[0] && board[occ[0]].value == v;
      assert rc[a] == init[a];
      assert board[rc[a]].value == v && board[rc[n]].value == v;
    } else {
      assert |occ| >= 2;
      TwoOccurrencesTwoPositions(init, board, v);
      var a, c :| 0 <= a < c < |init| && board[init[a]].value == v && board[init[c]].value == v;
      assert rc[a] == init[a] && rc[c] == init[c];
    }
  }

  /** Two distinct positions of the group hold v exactly when v occurs at least twice. */
  lemma OccurrencesTwice(rc: seq<nat>, board: Board, v: int)
    requires InBounds(rc, board)
    ensures |Occurrences(rc, board, v)| >= 2 <==>
      exists a, c :: 0 <= a < c < |rc| && board[rc[a]].value == v && board[rc[c]].value == v
  {
    if exists a, c :: 0 <= a < c < |rc| && board[rc[a]].value == v && board[rc[c]].value == v {
      var a, c :| 0 <= a < c < |rc| && board[rc[a]].value == v && board[rc[c]].value == v;
      TwoPositionsTwoOccurrences(rc, board, v, a, c);
    }
    if |Occurrences(rc, board, v)| >= 2 {
      TwoOccurrencesTwoPositions(rc, board, v);
    }
  }

  /** The lists holding more than one element, in order. */
  function LongLists(xs: seq<seq<nat>>): (r: seq<seq<nat>>)
  {
    if xs == [] then []
    else LongLists(xs[..|xs| - 1]) + (if |xs[|xs| - 1]| > 1 then [xs[|xs| - 1]] else [])
  }

  lemma {:induction false} LongListsMember(xs: seq<seq<nat>>, e: seq<nat>)
    ensures e in LongLists(xs) <==> e in xs && |e| > 1
  {
    if xs != [] {
      var init := xs[..|xs| - 1];
      LongListsMember(init, e);
      assert xs == init + [xs[|xs| - 1]];
    }
  }

  /** Per digit 1..9, the indices holding it. */
  function OccurrenceTable(rc: seq<nat>, board: Board): (t: seq<seq<nat>>)
    requires InBounds(rc, board)
    ensures |t| == 9
  {
    seq(9, d => Occurrences(rc, board, d + 1))
  }

  /** The duplicate lists: per digit that occurs more than once, its indices. */
  function DuplicateLists(rc: seq<nat>, board: Board): seq<seq<nat>>
    requires InBounds(rc, board)
  {
    LongLists(OccurrenceTable(rc, board))
  }

  /** The filled (positive) values of the cells at the given indices, in order. */
  function FilledValues(indices: seq<nat>, board: Board): seq<int>
    requires InBounds(indices, board)
  {
    if indices == [] then []
    else
      var v := board[indices[|indices| - 1]].value;
      FilledValues(indices[..|indices| - 1], board) + (if v > 0 then [v] else [])
  }

  lemma {:induction false} FilledValuesSound(indices: seq<nat>, board: Board, x: int)
    requires InBounds(indices, board) && x in FilledValues(indices, board)
    ensures x > 0 && exists j :: 0 <= j < |indices| && board[indices[j]].value == x
  {
    var n := |indices| - 1;
    var init := indices[..n];
    var v := board[indices[n]].value;
    assert FilledValues(indices, board) == FilledValues(init, board) + (if v > 0 then [v] else []);
    if x in FilledValues(init, board) {
      FilledValuesSound(init, board, x);
      var j :| 0 <= j < |init| && board[init[j]].value == x;
      assert indices[j] == init[j];
    } else {
      assert v == x > 0;
    }
  }

  lemma {:induction false} FilledValuesComplete(indices: seq<nat>, board: Board, j: nat)
    requires InBounds(indices, board) && j < |indices| && board[indices[j]].value > 0
    ensures board[indices[j]].value in FilledValues(indices, board)
  {
    var n := |indices| - 1;
    var init := indices[..n];
    var v := board[indices[n]].value;
    assert FilledValues(indices, board) == FilledValues(init, board) + (if v > 0 then [v] else []);
    if j < n {
      assert init[j] == indices[j];
      FilledValuesComplete(init, board, j);
    }
  }

  lemma FilledValuesMember(indices: seq<nat>, board: Board, x: int)
    requires InBounds(indices, board)
    ensures x in FilledValues(indices, board) <==> x > 0 && exists j :: 0 <= j < |indices| && board[indices[j]].value == x
  {
    if x in FilledValues(indices, board) {
      FilledValuesSound(indices, board, x);
    }
    if x > 0 && exists j :: 0 <= j < |indices| && board[indices[j]].value == x {
      var j :| 0 <= j < |indices| && board[indices[j]].value == x;
      FilledValuesComplete(indices, board, j);
    }
  }

  predicate StraightsInBounds(straights: seq<seq<nat>>, board: Board)
  {
    forall s :: 0 <= s < |straights| ==> InBounds(straights[s], board)
  }

  /** A straight is reported when it has a filled cell and its filled values span at least its length. */
  predicate StraightTooWide(straight: seq<nat>, board: Board)
    requires InBounds(straight, board)
  {
    var filled := FilledValues(straight, board);
    filled != [] && Max(filled) - Min(filled) >= |straight|
  }

  function InvalidStraights(straights: seq<seq<nat>>, board: Board): seq<seq<nat>>
    requires StraightsInBounds(straights, board)
  {
    if straights == [] then []
    else
      (if StraightTooWide(straights[0], board) then [straights[0]] else []) +
      InvalidStraights(straights[1..], board)
  }

  lemma {:induction false} InvalidStraightsSubseq(straights: seq<seq<nat>>, board: Board)
    requires StraightsInBounds(straights, board)
    ensures IsSubseq(InvalidStraights(straights, board), straights)
  {
    if straights != [] {
      var rest := straights[1..];
      InvalidStraightsSubseq(rest, board);
      var inv := InvalidStraights(rest, board);
      if StraightTooWide(straights[0], board) {
        assert InvalidStraights(straights, board) == [straights[0]] + inv;
        assert ([straights[0]] + inv)[0] == straights[0] && ([straights[0]] + inv)[1..] == inv;
      } else {
        assert InvalidStraights(straights, board) == inv;
        SubseqCons(inv, rest, straights[0]);
        assert [straights[0]] + rest == straights;
      }
    }
  }

  lemma {:induction false} InvalidStraightsMember(straights: seq<seq<nat>>, board: Board, e: seq<nat>)
    requires StraightsInBounds(straights, board)
    ensures IsSubseq(InvalidStraights(straights, board), straights)
    ensures e in InvalidStraights(straights, board) <==>
      exists s :: 0 <= s < |straights| && straights[s] == e && StraightTooWide(e, board)
  {
    InvalidStraightsSubseq(straights, board);
    if straights != [] {
      var rest := straights[1..];
      InvalidStraightsMember(rest, board, e);
      var head := if StraightTooWide(straights[0], board) then [straights[0]] else [];
      assert InvalidStraights(straights, board) == head + InvalidStraights(rest, board);
      if exists s :: 0 <= s < |straights| && straights[s] == e && StraightTooWide(e, board) {
        var s :| 0 <= s < |straights| && straights[s] == e && StraightTooWide(e, board);
        if s > 0 {
          assert rest[s - 1] == e;
        }
      }
      if exists s :: 0 <= s < |rest| && rest[s] == e && StraightTooWide(e, board) {
        var s :| 0 <= s < |rest| && rest[s] == e && StraightTooWide(e, board);
        assert straights[s + 1] == e;
      }
    }
  }

  /** What Row::validate returns: None when nothing is wrong, else both lists. */
  function ValidateSpec(row: Row, board: Board): Option<Violations>
    requires RowFits(row, board)
  {
    var duplicates := DuplicateLists(row.rowCells, board);
    var invalid := InvalidStraights(row.straights, board);
    if |duplicates| > 0 || |invalid| > 0 then Some(Violations(duplicates, invalid)) else None
  }

  /** The occurrences of each digit, gathered in one pass over the group as Row::validate does. */
  method Validate(row: Row, board: Board) returns (report: Option<Violations>)
    requires RowFits(row, board) && ValuesAtMostNine(row.rowCells, board)
    ensures report == ValidateSpec(row, board)
  {
    var rc := row.rowCells;
    var occurrences := new seq<nat>[9](_ => []);
    for k := 0 to |rc|
      invariant forall d :: 0 <= d < 9 ==> occurrences[d] == Occurrences(rc[..k], board, d + 1)
    {
      assert rc[..k + 1][..k] == rc[..k];
      var value := board[rc[k]].value;
      if value > 0 {
        occurrences[value - 1] := occurrences[value - 1] + [rc[k]];
      }
    }
    assert rc[..|rc|] == rc;
    assert occurrences[..] == OccurrenceTable(rc, board);
    var multiple := LongLists(occurrences[..]);
    var invalid := InvalidStraights(row.straights, board);
    if |multiple| > 0 || |invalid| > 0 {
      report := Some(Violations(multiple, invalid));
    } else {
      report := None;
    }
  }

  /** No filled digit appears at two positions of the group. */
  predicate NoRepeatedDigit(rc: seq<nat>, board: Board)
    requires InBounds(rc, board)
  {
    forall a, c :: 0 <= a < c < |rc| && board[rc[a]].value > 0 ==> board[rc[a]].value != board[rc[c]].value
  }

  /** Any two filled values of the straight differ by less than its length. */
  predicate SpanBelowLength(straight: seq<nat>, board: Board)
    requires InBounds(straight, board)
  {
    forall a, c ::
      (0 <= a < |straight| && 0 <= c < |straight| &&
       board[straight[a]].value > 0 && board[straight[c]].value > 0) ==>
      board[straight[a]].value - board[straight[c]].value < |straight|
  }

  /** Each entry of the first list of Row::validate holds at least two indices, all those of one digit. */
  lemma {:induction false} DuplicateEntry(rc: seq<nat>, board: Board, e: seq<nat>)
    requires InBounds(rc, board) && e in DuplicateLists(rc, board)
    ensures |e| >= 2 && exists d :: 1 <= d <= 9 && e == Occurrences(rc, board, d)
  {
    var table := OccurrenceTable(rc, board);
    LongListsMember(table, e);
    var t :| 0 <= t < 9 && table[t] == e;
    assert e == Occurrences(rc, board, t + 1);
  }

  /** Every digit held at two or more positions has its entry in the first list of Row::validate. */
  lemma {:induction false} DuplicateComplete(rc: seq<nat>, board: Board, d: int)
    requires InBounds(rc, board) && 1 <= d <= 9 && |Occurrences(rc, board, d)| >= 2
    ensures Occurrences(rc, board, d) in DuplicateLists(rc, board)
  {
    var table := OccurrenceTable(rc, board);
    assert table[d - 1] == Occurrences(rc, board, d);
    LongListsMember(table, Occurrences(rc, board, d));
  }

  lemma {:induction false} NoDuplicatesIff(rc: seq<nat>, board: Board)
    requires InBounds(rc, board) && ValuesAtMostNine(rc, board)
    ensures DuplicateLists(rc, board) == [] <==> NoRepeatedDigit(rc, board)
  {
    var dups := DuplicateLists(rc, board);
    var table := OccurrenceTable(rc, board);
    if dups != [] {
      var e := dups[0];
      LongListsMember(table, e);
      var t :| 0 <= t < 9 && table[t] == e;
      OccurrencesTwice(rc, board, t + 1);
      var a, c :| 0 <= a < c < |rc| && board[rc[a]].value == t + 1 && board[rc[c]].value == t + 1;
      assert !NoRepeatedDigit(rc, board);
    }
    if !NoRepeatedDigit(rc, board) {
      var a, c :| 0 <= a < c < |rc| && board[rc[a]].value > 0 && board[rc[a]].value == board[rc[c]].value;
      var v := board[rc[a]].value;
      assert v <= 9;
      OccurrencesTwice(rc, board, v);
      DuplicateComplete(rc, board, v);
      assert Occurrences(rc, board, v) in dups;
    }
  }

  lemma {:induction false} TooWideIff(straight: seq<nat>, board: Board)
    requires InBounds(straight, board)
    ensures StraightTooWide(straight, board) <==> !SpanBelowLength(straight, board)
  {
    var filled := FilledValues(straight, board);
    if StraightTooWide(straight, board) {
      var hi, lo := Max(filled), Min(filled);
      FilledValuesMember(straight, board, hi);
      FilledValuesMember(straight, board, lo);
      var a :| 0 <= a < |straight| && board[straight[a]].value == hi;
      var c :| 0 <= c < |straight| && board[straight[c]].value == lo;
      assert board[straight[a]].value - board[straight[c]].value >= |straight|;
    }
    if !SpanBelowLength(straight, board) {
      var a, c :| 0 <= a < |straight| && 0 <= c < |straight| &&
        board[straight[a]].value > 0 && board[straight[c]].value > 0 &&
        board[straight[a]].value - board[straight[c]].value >= |straight|;
      FilledValuesMember(straight, board, board[straight[a]].value);
      FilledValuesMember(straight, board, board[straight[c]].value);
      assert filled != [];
      assert Max(filled) >= board[straight[a]].value && Min(filled) <= board[straight[c]].value;
    }
  }

  /**
   * Giving cell k a value that fits the straight's filled range (as the candidate filter
   * of possible_straight_values_cells demands) keeps any two filled values of the
   * straight closer than its length.
   */
  lemma SpanKeptByFit(straight: seq<nat>, board: Board, k: nat, v: int)
    requires InBounds(straight, board) && k < |board| && SpanBelowLength(straight, board)
    requires FilledValues(straight, board) == [] ||
      Fits(v, Min(FilledValues(straight, board)), Max(FilledValues(straight, board)), |straight|)
    ensures SpanBelowLength(straight, board[k := board[k].(value := v)])
  {
    var board' := board[k := board[k].(value := v)];
    TooWideIff(straight, board);
    forall a, c | 0 <= a < |straight| && 0 <= c < |straight| &&
        board'[straight[a]].value > 0 && board'[straight[c]].value > 0
      ensures board'[straight[a]].value - board'[straight[c]].value < |straight|
    {
      if straight[a] != k {
        FilledValuesComplete(straight, board, a);
      }
      if straight[c] != k {
        FilledValuesComplete(straight, board, c);
      }
    }
  }

  /** Changing a cell outside the straight leaves its span as it was. */
  lemma SpanUnchanged(straight: seq<nat>, board: Board, k: nat, v: int)
    requires InBounds(straight, board) && k < |board| && k !in straight
    ensures SpanBelowLength(straight, board[k := board[k].(value := v)]) == SpanBelowLength(straight, board)
  {
    var board' := board[k := board[k].(value := v)];
    forall j | 0 <= j < |straight|
      ensures board'[straight[j]] == board[straight[j]]
    {
    }
  }

  /**
   * Giving cell k a value the group does not hold yet (as missing_values_cells offers)
   * keeps the group free of repeated digits.
   */
  lemma NoRepeatKept(rc: seq<nat>, board: Board, k: nat, v: int)
    requires InBounds(rc, board) && Distinct(rc) && k < |board| && NoRepeatedDigit(rc, board)
    requires k in rc ==> v !in ValuesOf(rc, board)
    ensures NoRepeatedDigit(rc, board[k := board[k].(value := v)])
  {
    var board' := board[k := board[k].(value := v)];
    var values := ValuesOf(rc, board);
    forall a, c | 0 <= a < c < |rc| && board'[rc[a]].value > 0
      ensures board'[rc[a]].value != board'[rc[c]].value
    {
      assert values[a] == board[rc[a]].value && values[c] == board[rc[c]].value;
    }
  }

  lemma {:induction false} NoInvalidStraightsIff(straights: seq<seq<nat>>, board: Board)
    requires StraightsInBounds(straights, board)
    ensures InvalidStraights(straights, board) == [] <==>
      forall s :: 0 <= s < |straights| ==> SpanBelowLength(straights[s], board)
  {
    var inv := InvalidStraights(straights, board);
    if inv != [] {
      InvalidStraightsMember(straights, board, inv[0]);
      var s :| 0 <= s < |straights| && straights[s] == inv[0] && StraightTooWide(inv[0], board);
      TooWideIff(straights[s], board);
    }
    if exists s :: 0 <= s < |straights| && !SpanBelowLength(straights[s], board) {
      var s :| 0 <= s < |straights| && !SpanBelowLength(straights[s], board);
      TooWideIff(straights[s], board);
      InvalidStraightsMember(straights, board, straights[s]);
      assert straights[s] in inv;
    }
  }

  /**
   * Row::validate reports nothing exactly when no filled digit repeats in the group
   * and every straight's filled values differ pairwise by less than its length.
   */
  lemma {:induction false} ValidateNoneIff(row: Row, board: Board)
    requires RowFits(row, board) && ValuesAtMostNine(row.rowCells, board)
    ensures ValidateSpec(row, board) == None <==>
      NoRepeatedDigit(row.rowCells, board) &&
      forall s :: 0 <= s < |row.straights| ==> SpanBelowLength(row.straights[s], board)
  {
    NoDuplicatesIff(row.rowCells, board);
    NoInvalidStraightsIff(row.straights, board);
  }

  /**
   * Index k is in one of the duplicate lists exactly when it belongs to the group and
   * holds a digit that two or more of the group's cells hold.
   */
  lemma {:induction false} DuplicateListedIff(rc: seq<nat>, board: Board, k: nat)
    requires InBounds(rc, board) && ValuesAtMostNine(rc, board) && k < |board|
    ensures (exists s :: 0 <= s < |DuplicateLists(rc, board)| && k in DuplicateLists(rc, board)[s]) <==>
      k in rc && board[k].value > 0 && |Occurrences(rc, board, board[k].value)| >= 2
  {
    var dups := DuplicateLists(rc, board);
    if exists s :: 0 <= s < |dups| && k in dups[s] {
      var s :| 0 <= s < |dups| && k in dups[s];
      assert dups[s] in dups;
      DuplicateEntry(rc, board, dups[s]);
      var d :| 1 <= d <= 9 && dups[s] == Occurrences(rc, board, d);
      OccurrencesSound(rc, board, d, k);
    }
    if k in rc && board[k].value > 0 && |Occurrences(rc, board, board[k].value)| >= 2 {
      var d := board[k].value;
      var j :| 0 <= j < |rc| && rc[j] == k;
      DuplicateComplete(rc, board, d);
      OccurrencesComplete(rc, board, d, j);
      var s :| 0 <= s < |dups| && dups[s] == Occurrences(rc, board, d);
    }
  }

  /** Index k is in one of the reported straights exactly when a straight holding it is too wide. */
  lemma {:induction false} InvalidListedIff(straights: seq<seq<nat>>, board: Board, k: nat)
    requires StraightsInBounds(straights, board)
    ensures (exists t :: 0 <= t < |InvalidStraights(straights, board)| && k in InvalidStraights(straights, board)[t]) <==>
      exists s :: 0 <= s < |straights| && k in straights[s] && StraightTooWide(straights[s], board)
  {
    var inv := InvalidStraights(straights, board);
    if exists t :: 0 <= t < |inv| && k in inv[t] {
      var t :| 0 <= t < |inv| && k in inv[t];
      assert inv[t] in inv;
      InvalidStraightsMember(straights, board, inv[t]);
    }
    if exists s :: 0 <= s < |straights| && k in straights[s] && StraightTooWide(straights[s], board) {
      var s :| 0 <= s < |straights| && k in straights[s] && StraightTooWide(straights[s], board);
      InvalidStraightsMember(straights, board, straights[s]);
      var t :| 0 <= t < |inv| && inv[t] == straights[s];
    }
  }

  /**
   * Every list validate reports is non-empty and names cells of the board: a
   * duplicate list holds at least two indices and an invalid straight a filled cell.
   */
  lemma {:induction false} ReportedListsInBounds(row: Row, board: Board)
    requires RowFits(row, board) && ValuesAtMostNine(row.rowCells, board)
    ensures forall s :: 0 <= s < |DuplicateLists(row.rowCells, board)| ==>
      |DuplicateLists(row.rowCells, board)[s]| >= 2 && InBounds(DuplicateLists(row.rowCells, board)[s], board)
    ensures forall s :: 0 <= s < |InvalidStraights(row.straights, board)| ==>
      InvalidStraights(row.straights, board)[s] != [] && InBounds(InvalidStraights(row.straights, board)[s], board)
  {
    var rc := row.rowCells;
    var dups := DuplicateLists(rc, board);
    forall s | 0 <= s < |dups|
      ensures |dups[s]| >= 2 && InBounds(dups[s], board)
    {
      var e := dups[s];
      assert e in dups;
      DuplicateEntry(rc, board, e);
      var d :| 1 <= d <= 9 && e == Occurrences(rc, board, d);
      forall j | 0 <= j < |e| ensures e[j] < |board| {
        assert e[j] in e;
        OccurrencesSound(rc, board, d, e[j]);
      }
    }
    var inv := InvalidStraights(row.straights, board);
    forall t | 0 <= t < |inv|
      ensures inv[t] != [] && InBounds(inv[t], board)
    {
      assert inv[t] in inv;
      InvalidStraightsMember(row.straights, board, inv[t]);
    }
  }

  // ---------------------------------------------------------------------------
  // Row::missing_values_cells
  // ---------------------------------------------------------------------------

  /** The values of the cells at the given indices, in order. */
  function ValuesOf(indices: seq<nat>, board: Board): (vs: seq<int>)
    requires InBounds(indices, board)
    ensures |vs| == |indices| && forall j :: 0 <= j < |indices| ==> vs[j] == board[indices[j]].value
  {
    seq(|indices|, j requires 0 <= j < |indices| => board[indices[j]].value)
  }

  /** The digits d (1-based positions) whose flag is set, ascending. */
  function DigitsWhere(flags: seq<bool>): seq<int>
  {
    if flags == [] then [] else DigitsWhere(flags[..|flags| - 1]) + (if flags[|flags| - 1] then [|flags|] else [])
  }

  lemma {:induction false} DigitsWhereFacts(flags: seq<bool>)
    ensures StrictlyAscending(DigitsWhere(flags))
    ensures forall v :: v in DigitsWhere(flags) <==> 1 <= v <= |flags| && flags[v - 1]
  {
    if flags != [] {
      var n := |flags|;
      var init := flags[..n - 1];
      DigitsWhereFacts(init);
      var pre := DigitsWhere(init);
      assert DigitsWhere(flags) == pre + (if flags[n - 1] then [n] else []);
      forall v
        ensures v in DigitsWhere(flags) <==> 1 <= v <= n && flags[v - 1]
      {
        if 1 <= v < n {
          assert init[v - 1] == flags[v - 1];
        }
      }
      if flags[n - 1] {
        AscendingSnoc(pre, n);
      }
    }
  }

  /** The digits held by no cell of the group and, when candidates are given, among them. */
  function MissingValues(rc: seq<nat>, candidates: Option<seq<int>>, board: Board): seq<int>
    requires InBounds(rc, board)
  {
    DigitsWhere(seq(9, d => (d + 1) !in ValuesOf(rc, board) && (candidates.None? || (d + 1) in candidates.value)))
  }

  predicate AllDigits(vs: seq<int>)
  {
    forall j :: 0 <= j < |vs| ==> IsDigit(vs[j])
  }

  /** Row::missing_values_cells: presence flags for the group and for the candidates, then the digits that qualify. */
  method MissingValuesCells(row: Row, candidates: Option<seq<int>>, board: Board) returns (r: seq<int>)
    requires InBounds(row.rowCells, board) && ValuesAtMostNine(row.rowCells, board)
    requires candidates.Some? ==> AllDigits(candidates.value)
    ensures r == MissingValues(row.rowCells, candidates, board)
  {
    var rc := row.rowCells;
    var valuesPresent := new bool[9](_ => false);
    var candidatesPresent := new bool[9](_ => false);
    for k := 0 to |rc|
      invariant forall d :: 0 <= d < 9 ==> valuesPresent[d] == ((d + 1) in ValuesOf(rc[..k], board))
      invariant forall d :: 0 <= d < 9 ==> !candidatesPresent[d]
    {
      assert ValuesOf(rc[..k + 1], board) == ValuesOf(rc[..k], board) + [board[rc[k]].value];
      var val := board[rc[k]].value;
      if val > 0 {
        valuesPresent[val - 1] := true;
      }
    }
    assert rc[..|rc|] == rc;
    if candidates.Some? {
      var values := candidates.value;
      for k := 0 to |values|
        invariant forall d :: 0 <= d < 9 ==> candidatesPresent[d] == ((d + 1) in values[..k])
        invariant forall d :: 0 <= d < 9 ==> valuesPresent[d] == ((d + 1) in ValuesOf(rc, board))
      {
        assert values[..k + 1] == values[..k] + [values[k]];
        candidatesPresent[values[k] - 1] := true;
      }
      assert values[..|values|] == values;
    }
    var keep := seq(9, d requires 0 <= d < 9 reads valuesPresent, candidatesPresent =>
      !valuesPresent[d] && (candidatesPresent[d] || candidates.None?));
    ghost var flags := seq(9, d => (d + 1) !in ValuesOf(rc, board) && (candidates.None? || (d + 1) in candidates.value));
    assert forall d :: 0 <= d < 9 ==> keep[d] == flags[d];
    assert keep == flags;
    r := DigitsWhere(keep);
  }

  /**
   * The result of missing_values_cells is ascending, and v is in it exactly when v is a
   * digit no cell of the group holds and, when candidates are given, one of them.
   */
  lemma {:induction false} MissingValuesMeaning(rc: seq<nat>, candidates: Option<seq<int>>, board: Board)
    requires InBounds(rc, board)
    ensures StrictlyAscending(MissingValues(rc, candidates, board))
    ensures forall v :: v in MissingValues(rc, candidates, board) <==>
      IsDigit(v) && v !in ValuesOf(rc, board) && (candidates.None? || v in candidates.value)
  {
    var flags := seq(9, d => (d + 1) !in ValuesOf(rc, board) && (candidates.None? || (d + 1) in candidates.value));
    DigitsWhereFacts(flags);
  }

  // ---------------------------------------------------------------------------
  // Straight membership and Row::possible_straight_values_cells
  // ---------------------------------------------------------------------------

  lemma {:induction false} WhiteCellsMember(rc: seq<nat>, board: Board, x: nat)
    requires InBounds(rc, board)
    ensures x in WhiteCells(rc, board) <==> x in rc && board[x].isWhite
  {
    if rc != [] {
      WhiteCellsMember(rc[1..], board, x);
      assert rc == [rc[0]] + rc[1..];
    }
  }

  lemma {:induction false} WhiteCellsDistinct(rc: seq<nat>, board: Board)
    requires InBounds(rc, board) && Distinct(rc)
    ensures Distinct(WhiteCells(rc, board))
  {
    if rc != [] {
      var rest := rc[1..];
      assert Distinct(rest) by {
        forall a, c | 0 <= a < c < |rest| ensures rest[a] != rest[c] {
          assert rest[a] == rc[a + 1] && rest[c] == rc[c + 1];
        }
      }
      WhiteCellsDistinct(rest, board);
      var w := WhiteCells(rest, board);
      WhiteCellsMember(rest, board, rc[0]);
      assert rc[0] !in rest by {
        forall c | 0 <= c < |rest| ensures rest[c] != rc[0] {
          assert rest[c] == rc[c + 1];
        }
      }
      var h := if board[rc[0]].isWhite then [rc[0]] else [];
      var all := h + w;
      forall a, c | 0 <= a < c < |all| ensures all[a] != all[c] {
        if a < |h| {
          assert all[a] == rc[0] && all[c] == w[c - |h|];
        } else {
          assert all[a] == w[a - |h|] && all[c] == w[c - |h|];
        }
      }
    }
  }

  /**
   * For a group without repeated indices, a white index of the group lies in exactly
   * one straight, and no other index lies in any.
   */
  lemma {:induction false} StraightMembership(rc: seq<nat>, board: Board, x: nat)
    requires InBounds(rc, board) && Distinct(rc)
    ensures (exists s :: 0 <= s < |NewRow(rc, board).straights| && x in NewRow(rc, board).straights[s]) <==>
      x in rc && board[x].isWhite
    ensures forall s1, s2 :: 0 <= s1 < s2 < |NewRow(rc, board).straights| && x in NewRow(rc, board).straights[s1] ==>
      x !in NewRow(rc, board).straights[s2]
  {
    var straights := NewRow(rc, board).straights;
    StraightsFlatten(rc, board);
    FlattenMember(straights, x);
    WhiteCellsMember(rc, board, x);
    WhiteCellsDistinct(rc, board);
    forall s1, s2 | 0 <= s1 < s2 < |straights| && x in straights[s1]
      ensures x !in straights[s2]
    {
      FlattenDistinctDisjoint(straights, x, s1, s2);
    }
  }

  /** The first straight containing index i (Iterator::find), if any. */
  function FindStraight(straights: seq<seq<nat>>, i: nat): (r: Option<seq<nat>>)
    ensures r.Some? <==> exists s :: 0 <= s < |straights| && i in straights[s]
    ensures r.Some? ==>
      i in r.value &&
      exists s :: 0 <= s < |straights| && straights[s] == r.value && forall t :: 0 <= t < s ==> i !in straights[t]
  {
    if straights == [] then None
    else if i in straights[0] then Some(straights[0])
    else
      var r := FindStraight(straights[1..], i);
      assert forall s :: 0 < s < |straights| ==> straights[s] == straights[1..][s - 1];
      if r.Some? then
        var s :| 0 <= s < |straights[1..]| && straights[1..][s] == r.value &&
          forall t :: 0 <= t < s ==> i !in straights[1..][t];
        assert straights[s + 1] == r.value && forall t :: 0 <= t < s + 1 ==> i !in straights[t];
        r
      else r
  }

  /** Adding v to filled values with minimum lo and maximum hi keeps them within a straight of length len. */
  predicate Fits(v: int, lo: int, hi: int, len: int)
  {
    (lo < v && v < hi) || (v < lo && hi - v < len) || (hi < v && v - lo < len)
  }

  function KeepFitting(candidates: seq<int>, lo: int, hi: int, len: int): (r: seq<int>)
  {
    if candidates == [] then []
    else (if Fits(candidates[0], lo, hi, len) then [candidates[0]] else []) + KeepFitting(candidates[1..], lo, hi, len)
  }

  lemma {:induction false} KeepFittingFacts(candidates: seq<int>, lo: int, hi: int, len: int)
    ensures IsSubseq(KeepFitting(candidates, lo, hi, len), candidates)
    ensures forall v :: v in KeepFitting(candidates, lo, hi, len) <==> v in candidates && Fits(v, lo, hi, len)
  {
    if candidates != [] {
      var rest := candidates[1..];
      KeepFittingFacts(rest, lo, hi, len);
      var kept := KeepFitting(rest, lo, hi, len);
      assert candidates == [candidates[0]] + rest;
      if Fits(candidates[0], lo, hi, len) {
        assert ([candidates[0]] + kept)[0] == candidates[0] && ([candidates[0]] + kept)[1..] == kept;
      } else {
        assert KeepFitting(candidates, lo, hi, len) == kept;
        SubseqCons(kept, rest, candidates[0]);
      }
    }
  }

  /** When no two straights share index i, the straight holding i is the one FindStraight returns. */
  lemma FoundStraightIs(straights: seq<seq<nat>>, i: nat, s: nat)
    requires s < |straights| && i in straights[s]
    requires forall s1, s2 :: 0 <= s1 < s2 < |straights| && i in straights[s1] ==> i !in straights[s2]
    ensures FindStraight(straights, i) == Some(straights[s])
  {
    var found := FindStraight(straights, i).value;
    var t :| 0 <= t < |straights| && straights[t] == found && forall u :: 0 <= u < t ==> i !in straights[u];
    if t < s {
      assert i in straights[t];
    }
  }

  /** The straight of the group holding cell i, as the source looks it up. */
  function StraightOf(row: Row, i: nat): seq<nat>
    requires FindStraight(row.straights, i).Some?
  {
    FindStraight(row.straights, i).value
  }

  /** Row::possible_straight_values_cells: the candidates that keep the cell's straight narrow enough. */
  function PossibleStraightValues(row: Row, i: nat, candidates: seq<int>, board: Board): (r: seq<int>)
    requires RowFits(row, board) && FindStraight(row.straights, i).Some?
    ensures IsSubseq(r, candidates)
  {
    var straight := StraightOf(row, i);
    assert InBounds(straight, board);
    var filled := FilledValues(straight, board);
    if filled == [] then SubseqRefl(candidates); candidates
    else KeepFittingFacts(candidates, Min(filled), Max(filled), |straight|); KeepFitting(candidates, Min(filled), Max(filled), |straight|)
  }

  /**
   * The result keeps the order of the candidates; an empty straight keeps them all;
   * otherwise v is kept exactly when it lies strictly between the filled minimum and
   * maximum or extends the span to less than the straight's length, so the current
   * minimum and maximum themselves are never kept.
   */
  lemma {:induction false} PossibleStraightValuesMeaning(row: Row, i: nat, candidates: seq<int>, board: Board)
    requires RowFits(row, board) && FindStraight(row.straights, i).Some?
    ensures IsSubseq(PossibleStraightValues(row, i, candidates, board), candidates)
    ensures InBounds(StraightOf(row, i), board)
    ensures FilledValues(StraightOf(row, i), board) == [] ==> PossibleStraightValues(row, i, candidates, board) == candidates
    ensures FilledValues(StraightOf(row, i), board) != [] ==>
      var filled := FilledValues(StraightOf(row, i), board);
      (forall v :: v in PossibleStraightValues(row, i, candidates, board) <==>
        v in candidates && Fits(v, Min(filled), Max(filled), |StraightOf(row, i)|)) &&
      Min(filled) !in PossibleStraightValues(row, i, candidates, board) &&
      Max(filled) !in PossibleStraightValues(row, i, candidates, board)
  {
    var straight := StraightOf(row, i);
    var filled := FilledValues(straight, board);
    if filled == [] {
      SubseqRefl(candidates);
    } else {
      KeepFittingFacts(candidates, Min(filled), Max(filled), |straight|);
    }
  }
}
