/**
 * The exhaustive solver: an iterative depth-first search over the empty white cells,
 * specified by the ordered list of all boards the search completes.
 */
module Backtrack {
  import opened Util
  import opened Cells
  import opened Str8tsRow
  import opened Str8tsBoard

  /** No solution, exactly one, or at least two (carrying the first found). */
  datatype Str8tsSolution = None | Unique(cells: Board) | Multiple(cells: Board)

  /** A cell the search fills: white and empty. Every other cell is skipped. */
  predicate NeedsValue(c: Cell)
  {
    c.isWhite && c.value <= 0
  }

  /** b differs from input at most in the value of cells, and every value is empty or a digit. */
  ghost predicate Compatible(input: Board, b: Board)
  {
    |input| == BoardSize && |b| == BoardSize &&
    forall j :: 0 <= j < BoardSize ==> b[j] == input[j].(value := b[j].value) && ValidValue(b[j].value)
  }

  /** Assign v to cell k. */
  function Assign(b: Board, k: nat, v: int): (b': Board)
    requires k < |b|
    ensures |b'| == |b| && b'[k].value == v && forall j :: 0 <= j < |b| && j != k ==> b'[j] == b[j]
  {
    b[k := b[k].(value := v)]
  }

  /** Writing a digit into a cell keeps the board compatible with the input and well formed. */
  lemma AssignCompatible(input: Board, b: Board, k: nat, v: int)
    requires Compatible(input, b) && k < BoardSize && IsDigit(v)
    ensures Compatible(input, Assign(b, k, v)) && WellFormedBoard(Assign(b, k, v))
  {
  }

  /** Giving the empty white cell k one of its candidates keeps every group obeying both rules. */
  lemma AssignKeepsGroupRules(input: Board, b: Board, k: nat, v: int)
    requires Compatible(input, b) && k < BoardSize && NeedsValue(b[k])
    requires GroupsUsable(k, b, Groups(input)) && InItsStraights(k, b, Groups(input))
    requires v in PossibleValues(k, b, Groups(input)) && ObeysAllRules(b)
    ensures ObeysAllRules(Assign(b, k, v))
  {
    GroupsByColour(input, b);
    CandidateKeepsRules(b, Assign(b, k, v), k, v);
  }

  lemma CompatibleReady(input: Board, b: Board, k: nat)
    requires Compatible(input, b) && k < BoardSize
    ensures GroupsUsable(k, b, Groups(input)) && InItsStraights(k, b, Groups(input))
  {
    forall j | 0 <= j < BoardSize
      ensures b[j].isWhite == input[j].isWhite && b[j].value <= 9
    {
      assert b[j] == input[j].(value := b[j].value);
    }
    GroupsReady(input, b, k);
  }

  /**
   * Every board the search completes from position k of b, in the order it finds them:
   * cells are visited in index order, and an empty white cell tries each candidate
   * computed on the current board, in ascending order.
   */
  ghost function Solutions(input: Board, b: Board, k: nat): seq<Board>
    requires Compatible(input, b) && k <= BoardSize
    decreases BoardSize - k, 2, 0
  {
    if k == BoardSize then [b]
    else if !NeedsValue(b[k]) then Solutions(input, b, k + 1)
    else SolutionsAtEmpty(input, b, k)
  }

  /** The boards completed from the empty white cell k: its candidates on b, in order. */
  ghost function SolutionsAtEmpty(input: Board, b: Board, k: nat): seq<Board>
    requires Compatible(input, b) && k < BoardSize && NeedsValue(b[k])
    decreases BoardSize - k, 1, 0
  {
    CompatibleReady(input, b, k);
    Branches(input, b, k, PossibleValues(k, b, Groups(input)))
  }

  /** The boards completed by giving cell k each of the candidates in turn. */
  ghost function Branches(input: Board, b: Board, k: nat, candidates: seq<int>): seq<Board>
    requires Compatible(input, b) && k < BoardSize && AllDigits(candidates)
    decreases BoardSize - k, 0, |candidates|
  {
    if candidates == [] then []
    else
      assert Compatible(input, Assign(b, k, candidates[0]));
      Solutions(input, Assign(b, k, candidates[0]), k + 1) + Branches(input, b, k, candidates[1..])
  }

  /** What solve_backtrack reports about a list of solutions. */
  function Classify(solutions: seq<Board>): (r: Str8tsSolution)
    ensures r.None? <==> |solutions| == 0
    ensures r.Unique? <==> |solutions| == 1
    ensures r.Multiple? <==> |solutions| >= 2
    ensures !r.None? ==> r.cells == solutions[0]
  {
    if |solutions| == 0 then Str8tsSolution.None
    else if |solutions| == 1 then Unique(solutions[0])
    else Multiple(solutions[0])
  }

  /**
   * s completes b from position k: cells before k are as in b, from k on every empty
   * white cell holds a digit and keeps its other fields, and every other cell is unchanged.
   */
  ghost predicate CompletedFrom(input: Board, b: Board, k: nat, s: Board)
    requires |b| == BoardSize
  {
    Compatible(input, s) &&
    (forall j :: 0 <= j < k && j < BoardSize ==> s[j] == b[j]) &&
    (forall j :: k <= j < BoardSize ==>
      if NeedsValue(b[j]) then s[j] == b[j].(value := s[j].value) && IsDigit(s[j].value) else s[j] == b[j])
  }

  /** Every board the search completes from position k of b completes b from k. */
  lemma {:induction false} SolutionsComplete(input: Board, b: Board, k: nat)
    requires Compatible(input, b) && k <= BoardSize
    ensures forall s :: s in Solutions(input, b, k) ==> CompletedFrom(input, b, k, s)
    decreases BoardSize - k, 2, 0
  {
    if k == BoardSize {
      assert Solutions(input, b, k) == [b];
    } else if !NeedsValue(b[k]) {
      SolutionsComplete(input, b, k + 1);
    } else {
      CompatibleReady(input, b, k);
      BranchesComplete(input, b, k, PossibleValues(k, b, Groups(input)));
    }
  }

  /** Every board completed by trying the candidates at the empty white cell k completes b from k. */
  lemma {:induction false} BranchesComplete(input: Board, b: Board, k: nat, candidates: seq<int>)
    requires Compatible(input, b) && k < BoardSize && AllDigits(candidates) && NeedsValue(b[k])
    ensures forall s :: s in Branches(input, b, k, candidates) ==> CompletedFrom(input, b, k, s)
    decreases BoardSize - k, 0, |candidates|
  {
    if candidates != [] {
      var next := Assign(b, k, candidates[0]);
      assert Compatible(input, next);
      SolutionsComplete(input, next, k + 1);
      BranchesComplete(input, b, k, candidates[1..]);
      forall s | s in Solutions(input, next, k + 1)
        ensures CompletedFrom(input, b, k, s)
      {
        assert s[k] == next[k];
      }
    }
  }

  /** Every board the search completes from a board obeying the rules obeys them. */
  lemma {:induction false} SolutionsObeyRules(input: Board, b: Board, k: nat)
    requires Compatible(input, b) && k <= BoardSize && ObeysAllRules(b)
    ensures forall s :: s in Solutions(input, b, k) ==> WellFormedBoard(s) && ObeysAllRules(s)
    decreases BoardSize - k, 2, 0
  {
    if k == BoardSize {
      assert Solutions(input, b, k) == [b];
    } else if !NeedsValue(b[k]) {
      SolutionsObeyRules(input, b, k + 1);
    } else {
      CompatibleReady(input, b, k);
      var candidates := PossibleValues(k, b, Groups(input));
      forall v | v in candidates
        ensures ObeysAllRules(Assign(b, k, v))
      {
        AssignKeepsGroupRules(input, b, k, v);
      }
      BranchesObeyRules(input, b, k, candidates);
    }
  }

  /**
   * Every board completed by trying candidates of the empty white cell k obeys the
   * rules, when each candidate written into k leaves a board obeying them.
   */
  lemma {:induction false} BranchesObeyRules(input: Board, b: Board, k: nat, candidates: seq<int>)
    requires Compatible(input, b) && k < BoardSize && AllDigits(candidates)
    requires forall v :: v in candidates ==> ObeysAllRules(Assign(b, k, v))
    ensures forall s :: s in Branches(input, b, k, candidates) ==> WellFormedBoard(s) && ObeysAllRules(s)
    decreases BoardSize - k, 0, |candidates|
  {
    if candidates != [] {
      var next := Assign(b, k, candidates[0]);
      AssignCompatible(input, b, k, candidates[0]);
      SolutionsObeyRules(input, next, k + 1);
      var rest := candidates[1..];
      assert AllDigits(rest) && forall v :: v in rest ==> v in candidates;
      BranchesObeyRules(input, b, k, rest);
    }
  }

  /**
   * A board solve_backtrack returns fills every empty white cell of the input with a
   * digit and leaves colours, fixed flags, black cells and pre-filled values as they were.
   */
  lemma SolverResultComplete(input: Board)
    requires WellFormedBoard(input)
    ensures var r := Classify(Solutions(input, input, 0));
      !r.None? ==> CompletedFrom(input, input, 0, r.cells)
  {
    InputCompatible(input);
    SolutionsComplete(input, input, 0);
  }

  // ---------------------------------------------------------------------------
  // The search stacks
  // ---------------------------------------------------------------------------

  /**
   * The two stacks with the board each level was opened on: level t, from the top
   * down, still has to try the candidates pvs[t][idx[t]..] on frames[t].
   */
  ghost predicate StacksWellFormed(input: Board, frames: seq<Board>, pvs: seq<seq<int>>, idx: seq<nat>)
  {
    |frames| == |pvs| == |idx| <= BoardSize &&
    forall t :: 0 <= t < |pvs| ==>
      Compatible(input, frames[t]) && AllDigits(pvs[t]) && |pvs[t]| <= 9 && idx[t] <= |pvs[t]|
  }

  /** The boards the open levels of the stacks will still complete, deepest level first. */
  ghost function Pending(input: Board, frames: seq<Board>, pvs: seq<seq<int>>, idx: seq<nat>): seq<Board>
    requires StacksWellFormed(input, frames, pvs, idx)
    decreases |pvs|
  {
    if pvs == [] then []
    else
      var t := |pvs| - 1;
      assert StacksWellFormed(input, frames[..t], pvs[..t], idx[..t]);
      Branches(input, frames[t], t, pvs[t][idx[t]..]) + Pending(input, frames[..t], pvs[..t], idx[..t])
  }

  /**
   * The state of solve_backtrack between steps. The cursor i is either one past the
   * top of the stacks (about to visit cell i) or at the top (about to try cell i's next
   * candidate). Cells above the stacks are as in the input; frame t holds the current
   * cells below t and the input's from t on; a level whose cursor is still 0 has its
   * cell as in the input; only empty white cells get candidates.
   */
  ghost predicate SearchState(input: Board, cells: Board, frames: seq<Board>, pvs: seq<seq<int>>, idx: seq<nat>, i: nat)
  {
    WellFormedBoard(input) && StacksWellFormed(input, frames, pvs, idx) &&
    (i == |pvs| || i + 1 == |pvs|) &&
    Compatible(input, cells) &&
    (forall j :: |pvs| <= j < BoardSize ==> cells[j] == input[j]) &&
    (forall t, j :: 0 <= t < |pvs| && 0 <= j < BoardSize ==> frames[t][j] == if j < t then cells[j] else input[j]) &&
    (forall t :: 0 <= t < |pvs| && idx[t] == 0 ==> cells[t] == input[t]) &&
    (forall t :: 0 <= t < |pvs| && |pvs[t]| > 0 ==> NeedsValue(input[t]))
  }

  /** The boards the search will still find from a state. */
  ghost function Remaining(input: Board, cells: Board, frames: seq<Board>, pvs: seq<seq<int>>, idx: seq<nat>, i: nat): seq<Board>
    requires StacksWellFormed(input, frames, pvs, idx) && Compatible(input, cells) && i <= BoardSize
  {
    (if i == |pvs| then Solutions(input, cells, i) else []) + Pending(input, frames, pvs, idx)
  }

  lemma InputCompatible(input: Board)
    requires WellFormedBoard(input)
    ensures Compatible(input, input)
  {
  }

  lemma PendingPush(input: Board, frames: seq<Board>, pvs: seq<seq<int>>, idx: seq<nat>, f: Board, p: seq<int>, c: nat)
    requires StacksWellFormed(input, frames, pvs, idx) && |pvs| < BoardSize
    requires Compatible(input, f) && AllDigits(p) && |p| <= 9 && c <= |p|
    ensures StacksWellFormed(input, frames + [f], pvs + [p], idx + [c])
    ensures Pending(input, frames + [f], pvs + [p], idx + [c]) ==
      Branches(input, f, |pvs|, p[c..]) + Pending(input, frames, pvs, idx)
  {
    var t := |pvs|;
    assert (frames + [f])[..t] == frames && (pvs + [p])[..t] == pvs && (idx + [c])[..t] == idx;
  }

  /** In the visiting position the board is the frame a new level opens on. */
  lemma VisitingFrame(input: Board, cells: Board, frames: seq<Board>, pvs: seq<seq<int>>, idx: seq<nat>, i: nat)
    requires SearchState(input, cells, frames, pvs, idx, i) && i == |pvs| && i < BoardSize
    ensures cells[i] == input[i]
    ensures forall j :: 0 <= j < BoardSize ==> cells[j] == if j < i then cells[j] else input[j]
  {
  }

  /** Visiting a cell that needs no value: open an empty level and move on. */
  lemma SkipStep(input: Board, cells: Board, frames: seq<Board>, pvs: seq<seq<int>>, idx: seq<nat>, i: nat)
    requires SearchState(input, cells, frames, pvs, idx, i)
    requires i == |pvs| && i < BoardSize && !NeedsValue(cells[i])
    ensures SearchState(input, cells, frames + [cells], pvs + [[]], idx + [0], i + 1)
  {
    VisitingFrame(input, cells, frames, pvs, idx, i);
    var empty: seq<int> := [];
    PendingPush(input, frames, pvs, idx, cells, empty, 0);
  }

  lemma SkipStepRemaining(input: Board, cells: Board, frames: seq<Board>, pvs: seq<seq<int>>, idx: seq<nat>, i: nat)
    requires SearchState(input, cells, frames, pvs, idx, i)
    requires i == |pvs| && i < BoardSize && !NeedsValue(cells[i])
    requires StacksWellFormed(input, frames + [cells], pvs + [[]], idx + [0])
    ensures Remaining(input, cells, frames + [cells], pvs + [[]], idx + [0], i + 1) ==
      Remaining(input, cells, frames, pvs, idx, i)
  {
    var empty: seq<int> := [];
    PendingPush(input, frames, pvs, idx, cells, empty, 0);
    assert empty[0..] == empty;
  }

  /** An empty white cell's solutions are those of its candidates, in order. */
  lemma SolutionsAtEmptyCell(input: Board, b: Board, k: nat)
    requires Compatible(input, b) && k < BoardSize && NeedsValue(b[k])
    ensures GroupsUsable(k, b, Groups(input)) && InItsStraights(k, b, Groups(input))
    ensures Solutions(input, b, k) == Branches(input, b, k, PossibleValues(k, b, Groups(input)))
  {
    CompatibleReady(input, b, k);
    assert Solutions(input, b, k) == SolutionsAtEmpty(input, b, k);
  }

  /** Visiting an empty white cell: open a level with its candidates on the current board. */
  lemma ComputeStep(input: Board, cells: Board, frames: seq<Board>, pvs: seq<seq<int>>, idx: seq<nat>, i: nat, pv: seq<int>)
    requires SearchState(input, cells, frames, pvs, idx, i)
    requires i == |pvs| && i < BoardSize && NeedsValue(cells[i])
    requires AllDigits(pv) && |pv| <= 9
    ensures SearchState(input, cells, frames + [cells], pvs + [pv], idx + [0], i)
  {
    VisitingFrame(input, cells, frames, pvs, idx, i);
    PendingPush(input, frames, pvs, idx, cells, pv, 0);
  }

  lemma ComputeStepRemaining(input: Board, cells: Board, frames: seq<Board>, pvs: seq<seq<int>>, idx: seq<nat>, i: nat, pv: seq<int>)
    requires SearchState(input, cells, frames, pvs, idx, i)
    requires i == |pvs| && i < BoardSize && NeedsValue(cells[i])
    requires AllDigits(pv) && |pv| <= 9
    requires Solutions(input, cells, i) == Branches(input, cells, i, pv)
    requires StacksWellFormed(input, frames + [cells], pvs + [pv], idx + [0])
    ensures Remaining(input, cells, frames + [cells], pvs + [pv], idx + [0], i) ==
      Remaining(input, cells, frames, pvs, idx, i)
  {
    PendingPush(input, frames, pvs, idx, cells, pv, 0);
    assert pv[0..] == pv;
    var pending := Pending(input, frames, pvs, idx);
    var pending' := Pending(input, frames + [cells], pvs + [pv], idx + [0]);
    assert pending' == Solutions(input, cells, i) + pending;
    assert Remaining(input, cells, frames + [cells], pvs + [pv], idx + [0], i) == [] + pending';
  }

  lemma PendingTop(input: Board, frames: seq<Board>, pvs: seq<seq<int>>, idx: seq<nat>)
    requires StacksWellFormed(input, frames, pvs, idx) && pvs != []
    ensures StacksWellFormed(input, frames[..|pvs| - 1], pvs[..|pvs| - 1], idx[..|pvs| - 1])
    ensures Pending(input, frames, pvs, idx) ==
      Branches(input, frames[|pvs| - 1], |pvs| - 1, pvs[|pvs| - 1][idx[|pvs| - 1]..]) +
      Pending(input, frames[..|pvs| - 1], pvs[..|pvs| - 1], idx[..|pvs| - 1])
  {
  }

  /** Trying the next candidate of the top level: write it into the cell and move on. */
  lemma TryStep(input: Board, cells: Board, frames: seq<Board>, pvs: seq<seq<int>>, idx: seq<nat>, i: nat)
    requires SearchState(input, cells, frames, pvs, idx, i)
    requires i + 1 == |pvs| && idx[i] < |pvs[i]|
    ensures SearchState(input, Assign(cells, i, pvs[i][idx[i]]), frames, pvs, idx[i := idx[i] + 1], i + 1)
    ensures Assign(cells, i, pvs[i][idx[i]]) == Assign(frames[i], i, pvs[i][idx[i]])
  {
    var v := pvs[i][idx[i]];
    var cells' := Assign(cells, i, v);
    assert IsDigit(v);
    forall j | 0 <= j < BoardSize
      ensures cells'[j] == Assign(frames[i], i, v)[j]
    {
      if j == i {
        assert cells[i] == input[i].(value := cells[i].value);
      }
    }
  }

  lemma TryStepRemaining(input: Board, cells: Board, frames: seq<Board>, pvs: seq<seq<int>>, idx: seq<nat>, i: nat)
    requires StacksWellFormed(input, frames, pvs, idx) && Compatible(input, cells)
    requires i + 1 == |pvs| && idx[i] < |pvs[i]|
    requires StacksWellFormed(input, frames, pvs, idx[i := idx[i] + 1])
    requires Compatible(input, Assign(cells, i, pvs[i][idx[i]]))
    requires Assign(cells, i, pvs[i][idx[i]]) == Assign(frames[i], i, pvs[i][idx[i]])
    ensures Remaining(input, Assign(cells, i, pvs[i][idx[i]]), frames, pvs, idx[i := idx[i] + 1], i + 1) ==
      Remaining(input, cells, frames, pvs, idx, i)
  {
    var c := idx[i];
    var idx' := idx[i := c + 1];
    var v := pvs[i][c];
    var rest := pvs[i][c..];
    assert rest[0] == v && rest[1..] == pvs[i][c + 1..];
    PendingTop(input, frames, pvs, idx);
    PendingTop(input, frames, pvs, idx');
    assert idx'[..i] == idx[..i];
    var below := Pending(input, frames[..i], pvs[..i], idx[..i]);
    var later := Branches(input, frames[i], i, pvs[i][c + 1..]);
    var first := Solutions(input, Assign(frames[i], i, v), i + 1);
    assert Branches(input, frames[i], i, rest) == first + later;
    assert Pending(input, frames, pvs, idx) == (first + later) + below;
    var after := Pending(input, frames, pvs, idx');
    assert after == later + below;
    assert Remaining(input, Assign(cells, i, v), frames, pvs, idx', i + 1) == first + after;
  }

  /** Giving up the top level: drop it, clear the cell if it was ever filled, and step back. */
  lemma PopStep(input: Board, cells: Board, frames: seq<Board>, pvs: seq<seq<int>>, idx: seq<nat>, i: nat)
    requires SearchState(input, cells, frames, pvs, idx, i)
    requires i + 1 == |pvs| && idx[i] == |pvs[i]| && i > 0
    ensures SearchState(input, if |pvs[i]| > 0 then Assign(cells, i, Empty) else cells,
      frames[..i], pvs[..i], idx[..i], i - 1)
  {
    var cells' := if |pvs[i]| > 0 then Assign(cells, i, Empty) else cells;
    assert cells'[i] == input[i] by {
      if |pvs[i]| > 0 {
        assert cells[i] == input[i].(value := cells[i].value);
      }
    }
  }

  lemma PopStepRemaining(input: Board, cells: Board, frames: seq<Board>, pvs: seq<seq<int>>, idx: seq<nat>, i: nat)
    requires SearchState(input, cells, frames, pvs, idx, i)
    requires i + 1 == |pvs| && idx[i] == |pvs[i]|
    ensures i == 0 ==> Remaining(input, cells, frames, pvs, idx, i) == []
    ensures i > 0 ==>
      SearchState(input, if |pvs[i]| > 0 then Assign(cells, i, Empty) else cells, frames[..i], pvs[..i], idx[..i], i - 1) &&
      Remaining(input, if |pvs[i]| > 0 then Assign(cells, i, Empty) else cells, frames[..i], pvs[..i], idx[..i], i - 1) ==
      Remaining(input, cells, frames, pvs, idx, i)
  {
    PendingTop(input, frames, pvs, idx);
    assert pvs[i][idx[i]..] == [];
    if i > 0 {
      PopStep(input, cells, frames, pvs, idx, i);
    } else {
      assert pvs[..0] == [];
    }
  }

  /** A completed board is recorded, and the search resumes at the last cell. */
  lemma RecordStep(input: Board, cells: Board, frames: seq<Board>, pvs: seq<seq<int>>, idx: seq<nat>, i: nat)
    requires SearchState(input, cells, frames, pvs, idx, i) && i == BoardSize
    ensures SearchState(input, cells, frames, pvs, idx, i - 1)
    ensures Remaining(input, cells, frames, pvs, idx, i) == [cells] + Remaining(input, cells, frames, pvs, idx, i - 1)
  {
  }

  // ---------------------------------------------------------------------------
  // Termination: the stacks read as a number that grows at every step
  // ---------------------------------------------------------------------------

  function Pow22(n: nat): (p: nat)
    ensures p >= 1
  {
    if n == 0 then 1 else 22 * Pow22(n - 1)
  }

  /** The value of a digit sequence in base 22, most significant digit first. */
  function Num(d: seq<nat>): nat
  {
    if d == [] then 0 else d[0] * Pow22(|d| - 1) + Num(d[1..])
  }

  predicate Digits22(d: seq<nat>)
  {
    forall k :: 0 <= k < |d| ==> d[k] < 22
  }

  lemma {:induction false} NumBounded(d: seq<nat>)
    requires Digits22(d)
    ensures Num(d) < Pow22(|d|)
  {
    if d != [] {
      var rest := d[1..];
      assert Digits22(rest) by {
        forall k | 0 <= k < |rest| ensures rest[k] < 22 {
          assert rest[k] == d[k + 1];
        }
      }
      NumBounded(rest);
      var p := Pow22(|d| - 1);
      var x := d[0];
      assert Num(d) == x * p + Num(rest);
      assert x <= 21;
      MulMono(x, 21, p);
      assert Pow22(|d|) == 22 * p;
    }
  }

  lemma MulMono(x: nat, y: nat, p: nat)
    requires x <= y
    ensures x * p <= y * p
  {
  }

  /** A larger digit at the first difference gives a larger number. */
  lemma {:induction false} NumLess(a: seq<nat>, b: seq<nat>, p: nat)
    requires |a| == |b| && p < |a| && Digits22(a) && Digits22(b)
    requires forall k :: 0 <= k < p ==> a[k] == b[k]
    requires a[p] < b[p]
    ensures Num(a) < Num(b)
  {
    var ra, rb := a[1..], b[1..];
    assert Digits22(ra) && Digits22(rb) by {
      forall k | 0 <= k < |ra| ensures ra[k] < 22 && rb[k] < 22 {
        assert ra[k] == a[k + 1] && rb[k] == b[k + 1];
      }
    }
    var q := Pow22(|a| - 1);
    assert Num(a) == a[0] * q + Num(ra) && Num(b) == b[0] * q + Num(rb);
    if p == 0 {
      NumBounded(ra);
      MulMono(a[0] + 1, b[0], q);
      assert (a[0] + 1) * q == a[0] * q + q;
    } else {
      assert a[0] == b[0];
      forall k | 0 <= k < p - 1 ensures ra[k] == rb[k] {
        assert ra[k] == a[k + 1] && rb[k] == b[k + 1];
      }
      NumLess(ra, rb, p - 1);
    }
  }

  /**
   * The digit of level k: 2 * idx[k] + 2 for a level whose cursor has moved past it,
   * one more for the level the cursor is at, 1 for the position about to be visited.
   */
  function Key(idx: seq<nat>, i: nat): (d: seq<nat>)
    ensures |d| == BoardSize
  {
    seq(BoardSize, k requires 0 <= k < BoardSize => if k < |idx| then 2 * idx[k] + 2 + (if k == i then 1 else 0) else if k == i then 1 else 0)
  }

  predicate SmallCursors(idx: seq<nat>)
  {
    forall k :: 0 <= k < |idx| ==> idx[k] <= 9
  }

  lemma KeyBounded(idx: seq<nat>, i: nat)
    requires SmallCursors(idx)
    ensures Digits22(Key(idx, i)) && Num(Key(idx, i)) < Pow22(|Key(idx, i)|)
  {
    NumBounded(Key(idx, i));
  }

  /** Keys that agree below position p and grow at p grow as numbers. */
  lemma KeyLess(idx: seq<nat>, i: nat, idx': seq<nat>, i': nat, p: nat)
    requires SmallCursors(idx) && SmallCursors(idx') && p < BoardSize
    requires forall k :: 0 <= k < p ==> Key(idx, i)[k] == Key(idx', i')[k]
    requires Key(idx, i)[p] < Key(idx', i')[p]
    ensures Num(Key(idx, i)) < Num(Key(idx', i')) < Pow22(|Key(idx', i')|)
  {
    KeyBounded(idx, i);
    KeyBounded(idx', i');
    NumLess(Key(idx, i), Key(idx', i'), p);
  }

  /** Passing a cell that needs no value. */
  lemma SkipKey(idx: seq<nat>, i: nat)
    requires |idx| == i < BoardSize && SmallCursors(idx)
    ensures Num(Key(idx, i)) < Num(Key(idx + [0], i + 1)) < Pow22(|Key(idx + [0], i + 1)|)
  {
    var idx' := idx + [0];
    assert forall k :: 0 <= k < i ==> idx'[k] == idx[k];
    KeyLess(idx, i, idx', i + 1, i);
  }

  /** Opening a level with candidates at the visited position. */
  lemma OpenKey(idx: seq<nat>, i: nat)
    requires |idx| == i < BoardSize && SmallCursors(idx)
    ensures Num(Key(idx, i)) < Num(Key(idx + [0], i)) < Pow22(|Key(idx + [0], i)|)
  {
    var idx' := idx + [0];
    assert forall k :: 0 <= k < i ==> idx'[k] == idx[k];
    KeyLess(idx, i, idx', i, i);
  }

  /** Moving the top level's cursor to its next candidate. */
  lemma TryKey(idx: seq<nat>, i: nat)
    requires |idx| == i + 1 && i < BoardSize && SmallCursors(idx) && idx[i] < 9
    ensures Num(Key(idx, i)) < Num(Key(idx[i := idx[i] + 1], i + 1)) < Pow22(|Key(idx[i := idx[i] + 1], i + 1)|)
  {
    KeyLess(idx, i, idx[i := idx[i] + 1], i + 1, i);
  }

  /** Dropping the levels from i on and stepping back to level i - 1. */
  lemma PopKey(idx: seq<nat>, i: nat)
    requires (|idx| == i || |idx| == i + 1) && 0 < i <= BoardSize && SmallCursors(idx)
    ensures Num(Key(idx, i)) < Num(Key(idx[..i], i - 1)) < Pow22(|Key(idx[..i], i - 1)|)
  {
    KeyLess(idx, i, idx[..i], i - 1, i - 1);
  }

  /** Recording a completed board and stepping back to the last cell. */
  lemma RecordKey(idx: seq<nat>)
    requires |idx| == BoardSize && SmallCursors(idx)
    ensures Num(Key(idx, BoardSize)) < Num(Key(idx, BoardSize - 1)) < Pow22(|Key(idx, BoardSize - 1)|)
  {
    KeyLess(idx, BoardSize, idx, BoardSize - 1, BoardSize - 1);
  }

  // ---------------------------------------------------------------------------
  // One step of the search, stated on the loop invariant
  // ---------------------------------------------------------------------------

  /**
   * The invariant of solve_backtrack's loops: a search state whose remaining boards,
   * after those already found, are all the boards of the input, and whose key is in range.
   */
  ghost predicate Invariant(input: Board, all: seq<Board>, found: seq<Board>,
                            cells: Board, frames: seq<Board>, pvs: seq<seq<int>>, idx: seq<nat>, i: nat)
  {
    SearchState(input, cells, frames, pvs, idx, i) &&
    all == found + Remaining(input, cells, frames, pvs, idx, i) &&
    Num(Key(idx, i)) < Pow22(|Key(idx, i)|)
  }

  lemma StartSearch(input: Board)
    requires WellFormedBoard(input)
    ensures Compatible(input, input)
    ensures Invariant(input, Solutions(input, input, 0), [], input, [], [], [], 0)
  {
    KeyBounded([], 0);
    var none: seq<Board> := [];
    var all := Solutions(input, input, 0);
    assert StacksWellFormed(input, [], [], []);
    assert Pending(input, [], [], []) == none;
    assert Remaining(input, input, [], [], [], 0) == all + none;
    assert none + (all + none) == all;
  }

  lemma AdvanceSkip(input: Board, all: seq<Board>, found: seq<Board>,
                    cells: Board, frames: seq<Board>, pvs: seq<seq<int>>, idx: seq<nat>, i: nat)
    requires Invariant(input, all, found, cells, frames, pvs, idx, i)
    requires i == |pvs| && i < BoardSize && !NeedsValue(cells[i])
    ensures Invariant(input, all, found, cells, frames + [cells], pvs + [[]], idx + [0], i + 1)
    ensures Num(Key(idx, i)) < Num(Key(idx + [0], i + 1))
  {
    SkipStep(input, cells, frames, pvs, idx, i);
    SkipStepRemaining(input, cells, frames, pvs, idx, i);
    SkipKey(idx, i);
  }

  lemma AdvanceOpen(input: Board, all: seq<Board>, found: seq<Board>,
                    cells: Board, frames: seq<Board>, pvs: seq<seq<int>>, idx: seq<nat>, i: nat, pv: seq<int>)
    requires Invariant(input, all, found, cells, frames, pvs, idx, i)
    requires i == |pvs| && i < BoardSize && NeedsValue(cells[i])
    requires GroupsUsable(i, cells, Groups(input)) && InItsStraights(i, cells, Groups(input))
    requires pv == PossibleValues(i, cells, Groups(input))
    ensures Invariant(input, all, found, cells, frames + [cells], pvs + [pv], idx + [0], i)
    ensures Num(Key(idx, i)) < Num(Key(idx + [0], i))
  {
    SolutionsAtEmptyCell(input, cells, i);
    ComputeStep(input, cells, frames, pvs, idx, i, pv);
    ComputeStepRemaining(input, cells, frames, pvs, idx, i, pv);
    OpenKey(idx, i);
  }

  lemma AdvanceTry(input: Board, all: seq<Board>, found: seq<Board>,
                   cells: Board, frames: seq<Board>, pvs: seq<seq<int>>, idx: seq<nat>, i: nat)
    requires Invariant(input, all, found, cells, frames, pvs, idx, i)
    requires i + 1 == |pvs| && idx[i] < |pvs[i]|
    ensures Invariant(input, all, found, cells[i := cells[i].(value := pvs[i][idx[i]])],
      frames, pvs, idx[i := idx[i] + 1], i + 1)
    ensures Num(Key(idx, i)) < Num(Key(idx[i := idx[i] + 1], i + 1))
  {
    TryStep(input, cells, frames, pvs, idx, i);
    TryStepRemaining(input, cells, frames, pvs, idx, i);
    TryKey(idx, i);
  }

  lemma AdvancePop(input: Board, all: seq<Board>, found: seq<Board>,
                   cells: Board, frames: seq<Board>, pvs: seq<seq<int>>, idx: seq<nat>, i: nat)
    requires Invariant(input, all, found, cells, frames, pvs, idx, i)
    requires i + 1 == |pvs| && idx[i] == |pvs[i]|
    ensures i == 0 ==> all == found
    ensures i > 0 ==> Invariant(input, all, found,
      if |pvs[i]| > 0 then cells[i := cells[i].(value := Empty)] else cells,
      frames[..i], pvs[..i], idx[..i], i - 1)
    ensures i > 0 ==> Num(Key(idx, i)) < Num(Key(idx[..i], i - 1))
  {
    PopStepRemaining(input, cells, frames, pvs, idx, i);
    if i > 0 {
      PopKey(idx, i);
    }
  }

  lemma AdvanceRecord(input: Board, all: seq<Board>, found: seq<Board>,
                      cells: Board, frames: seq<Board>, pvs: seq<seq<int>>, idx: seq<nat>, i: nat)
    requires Invariant(input, all, found, cells, frames, pvs, idx, i) && i == BoardSize
    ensures Invariant(input, all, found + [cells], cells, frames, pvs, idx, i - 1)
    ensures Num(Key(idx, i)) < Num(Key(idx, i - 1))
  {
    RecordStep(input, cells, frames, pvs, idx, i);
    RecordKey(idx);
    var before := Remaining(input, cells, frames, pvs, idx, i);
    var after := Remaining(input, cells, frames, pvs, idx, i - 1);
    assert all == found + ([cells] + after);
    assert found + ([cells] + after) == (found + [cells]) + after;
  }

  /** Two found boards settle the answer: at least two solutions, the first found first. */
  lemma TwoFound(all: seq<Board>, found: seq<Board>, rest: seq<Board>)
    requires all == found + rest && |found| == 2
    ensures Classify(all) == Multiple(found[0])
  {
  }

  // ---------------------------------------------------------------------------
  // solve_backtrack
  // ---------------------------------------------------------------------------

  /**
   * solve_backtrack: depth-first search that stops at the second completed board.
   * The answer classifies the full list of boards the search would complete.
   */
  method SolveBacktrack(input: Board) returns (r: Str8tsSolution)
    requires WellFormedBoard(input)
    ensures r == Classify(Solutions(input, input, 0))
  {
    StartSearch(input);
    ghost var all := Solutions(input, input, 0);
    ghost var bound := Pow22(|Key([], 0)|);
    var cells := input;
    var rowsColumns := ComputeRowsColumns(cells);
    var indicesStack: seq<nat> := [];
    var possibleValuesStack: seq<seq<int>> := [];
    var i: nat := 0;
    var foundSolutions: seq<Board> := [];
    ghost var frames: seq<Board> := [];

    while |foundSolutions| < 2
      invariant Invariant(input, all, foundSolutions, cells, frames, possibleValuesStack, indicesStack, i)
      invariant |foundSolutions| <= 2
      decreases bound - Num(Key(indicesStack, i))
    {
      ghost var keyAtStart := Num(Key(indicesStack, i));
      while i < |cells|
        invariant Invariant(input, all, foundSolutions, cells, frames, possibleValuesStack, indicesStack, i)
        invariant keyAtStart <= Num(Key(indicesStack, i))
        decreases bound - Num(Key(indicesStack, i))
      {
        if (!cells[i].isWhite || cells[i].value > 0) && i >= |possibleValuesStack| {
          AdvanceSkip(input, all, foundSolutions, cells, frames, possibleValuesStack, indicesStack, i);
          frames := frames + [cells];
          possibleValuesStack := possibleValuesStack + [[]];
          indicesStack := indicesStack + [0];
          i := i + 1;
          continue;
        }

        if i >= |possibleValuesStack| {
          SolutionsAtEmptyCell(input, cells, i);
          var possibleValues := PossibleValues(i, cells, rowsColumns);
          AdvanceOpen(input, all, foundSolutions, cells, frames, possibleValuesStack, indicesStack, i, possibleValues);
          frames := frames + [cells];
          possibleValuesStack := possibleValuesStack + [possibleValues];
          indicesStack := indicesStack + [0];
        }
        var possibleValues := possibleValuesStack[i];

        if indicesStack[i] < |possibleValues| {
          AdvanceTry(input, all, foundSolutions, cells, frames, possibleValuesStack, indicesStack, i);
          cells := cells[i := cells[i].(value := possibleValues[indicesStack[i]])];
          indicesStack := indicesStack[i := indicesStack[i] + 1];
          i := i + 1;
        } else {
          AdvancePop(input, all, foundSolutions, cells, frames, possibleValuesStack, indicesStack, i);
          var numberOfPossibilities := |possibleValuesStack[i]|;
          possibleValuesStack := possibleValuesStack[..i];
          indicesStack := indicesStack[..i];
          frames := frames[..i];
          if numberOfPossibilities > 0 {
            cells := cells[i := cells[i].(value := Empty)];
          }
          if i > 0 {
            i := i - 1;
          } else {
            break;
          }
        }
      }

      if i != 0 {
        AdvanceRecord(input, all, foundSolutions, cells, frames, possibleValuesStack, indicesStack, i);
        foundSolutions := foundSolutions + [cells];
        i := i - 1;
      } else {
        break;
      }
    }

    if |foundSolutions| == 0 {
      r := Str8tsSolution.None;
    } else if |foundSolutions| == 1 {
      r := Unique(foundSolutions[0]);
    } else {
      TwoFound(all, foundSolutions, Remaining(input, cells, frames, possibleValuesStack, indicesStack, i));
      r := Multiple(foundSolutions[0]);
    }
  }
}
