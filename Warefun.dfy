/**
 * The line analysis of the table grid model (ephox.snooker.model.Warefun):
 * reading one row or one column out of a grid of cell references, and cutting
 * such a line into maximal runs of the same cell, each run recorded as
 * { element, span }.
 */
module Warefun {
  import opened Perhaps

  /** A grid is a sequence of rows; each slot holds a reference to the cell occupying it. */
  type Grid<T> = seq<seq<T>>

  /** The attribute name under which `extract(line, what)` stores a run's length. */
  datatype SpanKey = Colspan | Rowspan

  /** One record pushed by `extract`: `{ element: line[start], <what>: span }`. */
  datatype Run<T> = Run(element: T, key: SpanKey, span: nat)

  // ---------------------------------------------------------------------------
  // Reading lines out of a grid

  /** JavaScript indexing `xs[i]`: the item, or `undefined` (None) out of range. */
  function At<T>(xs: seq<T>, i: int): (r: Option<T>)
    ensures r.Some? <==> 0 <= i < |xs|
    ensures r.Some? ==> r.value == xs[i]
  {
    if 0 <= i < |xs| then Some(xs[i]) else None
  }

  /** `getRow(grid, index)`: the row itself, or `undefined` past the grid. */
  function GetRow<T>(grid: Grid<T>, index: int): (r: Option<seq<T>>)
    ensures r.Some? <==> 0 <= index < |grid|
    ensures r.Some? ==> r.value == grid[index]
  {
    At(grid, index)
  }

  /** `getColumn(grid, index)`: `Arr.map` over the rows, taking slot `index` of each. */
  function GetColumn<T>(grid: Grid<T>, index: int): (col: seq<Option<T>>)
    ensures |col| == |grid|
    ensures forall i :: 0 <= i < |grid| ==>
              (col[i].Some? <==> 0 <= index < |grid[i]|) &&
              (col[i].Some? ==> col[i].value == grid[i][index])
  {
    if grid == [] then [] else [At(grid[0], index)] + GetColumn(grid[1..], index)
  }

  /** Every row of the grid has `width` slots. */
  ghost predicate Rectangular<T>(grid: Grid<T>, width: nat)
  {
    forall i :: 0 <= i < |grid| ==> |grid[i]| == width
  }

  /**
   * Row i and column j agree on slot (i, j), and inside a rectangular grid the
   * column has no `undefined` entry.
   */
  lemma RowColumnAgree<T>(grid: Grid<T>, width: nat, i: nat, j: nat)
    requires Rectangular(grid, width)
    requires i < |grid| && j < width
    ensures GetRow(grid, i).Some? && GetColumn(grid, j)[i].Some?
    ensures GetColumn(grid, j)[i].value == GetRow(grid, i).value[j]
    ensures forall k :: 0 <= k < |grid| ==> GetColumn(grid, j)[k].Some?
  {
  }

  // ---------------------------------------------------------------------------
  // findDiff

  /** `Arr.findIndex`: the first index whose item satisfies `p`, or -1. */
  function FindIndex<T>(xs: seq<T>, p: T -> bool): (r: int)
    ensures -1 <= r < |xs|
    ensures r == -1 <==> forall i :: 0 <= i < |xs| ==> !p(xs[i])
    ensures r != -1 ==> p(xs[r]) && forall i :: 0 <= i < r ==> !p(xs[i])
  {
    if xs == [] then -1
    else if p(xs[0]) then 0
    else
      var k := FindIndex(xs[1..], p);
      assert forall i :: 1 <= i < |xs| ==> xs[1..][i - 1] == xs[i];
      if k == -1 then -1 else k + 1
  }

  /**
   * `findDiff(xs, comp)`: the length of the prefix of `xs` whose items `comp`
   * relates to the first item; 0 for the empty sequence.
   */
  function FindDiff<T>(xs: seq<T>, comp: (T, T) -> bool): (k: nat)
    ensures xs == [] ==> k == 0
    ensures k <= |xs|
    ensures forall i :: 0 <= i < k ==> comp(xs[0], xs[i])
    ensures k < |xs| ==> !comp(xs[0], xs[k])
    ensures xs != [] && comp(xs[0], xs[0]) ==> 1 <= k
  {
    if |xs| == 0 then 0
    else
      var first := xs[0];
      var index := FindIndex(xs, x => !comp(first, x));
      if index == -1 then |xs| else index
  }

  // ---------------------------------------------------------------------------
  // Runs and their expansion

  /** `n` copies of `x`. */
  function Repeat<T>(x: T, n: nat): (r: seq<T>)
    ensures |r| == n
    ensures forall i :: 0 <= i < n ==> r[i] == x
  {
    seq(n, _ => x)
  }

  /** The total length of the runs. */
  function SumSpans<T>(runs: seq<Run<T>>): nat
  {
    if runs == [] then 0 else SumSpans(runs[..|runs| - 1]) + runs[|runs| - 1].span
  }

  /** The offset in the line at which run `k` starts. */
  function Offset<T>(runs: seq<Run<T>>, k: nat): nat
    requires k <= |runs|
  {
    SumSpans(runs[..k])
  }

  /** The line that the runs describe: each run's element repeated `span` times, in order. */
  function Expand<T>(runs: seq<Run<T>>): (line: seq<T>)
    ensures |line| == SumSpans(runs)
  {
    if runs == [] then []
    else
      var last := runs[|runs| - 1];
      Expand(runs[..|runs| - 1]) + Repeat(last.element, last.span)
  }

  /** Every run covers at least one slot. */
  ghost predicate Positive<T>(runs: seq<Run<T>>)
  {
    forall k :: 0 <= k < |runs| ==> runs[k].span >= 1
  }

  /** Neighbouring runs hold different cells, so no run could be extended. */
  ghost predicate Maximal<T>(runs: seq<Run<T>>)
  {
    forall k :: 0 < k < |runs| ==> runs[k - 1].element != runs[k].element
  }

  /** Every run stores its length under the attribute `what`. */
  ghost predicate Keyed<T>(runs: seq<Run<T>>, what: SpanKey)
  {
    forall k :: 0 <= k < |runs| ==> runs[k].key == what
  }

  /** `runs` is a run-length encoding of `line` under the attribute `what`. */
  ghost predicate IsEncoding<T>(runs: seq<Run<T>>, line: seq<T>, what: SpanKey)
  {
    Positive(runs) && Maximal(runs) && Keyed(runs, what) && Expand(runs) == line
  }

  /** Run `k` starts at `Offset(runs, k)`, and each slot it covers holds its element. */
  lemma {:induction false} RunAt<T>(runs: seq<Run<T>>, k: nat, j: nat)
    requires k < |runs| && j < runs[k].span
    ensures Offset(runs, k) + j < |Expand(runs)|
    ensures Expand(runs)[Offset(runs, k) + j] == runs[k].element
  {
    var init := runs[..|runs| - 1];
    if k == |runs| - 1 {
      assert runs[..k] == init;
    } else {
      assert init[..k] == runs[..k];
      RunAt(init, k, j);
    }
  }

  /** A line described by at least one positive run is not empty. */
  lemma ExpandNonEmpty<T>(runs: seq<Run<T>>)
    requires Positive(runs) && runs != []
    ensures |Expand(runs)| >= runs[|runs| - 1].span >= 1
  {
  }

  /** The last `span` slots of the line hold the last run's element. */
  lemma TailOfLastRun<T>(runs: seq<Run<T>>, line: seq<T>, i: int)
    requires Expand(runs) == line && runs != []
    requires |line| - runs[|runs| - 1].span <= i < |line|
    ensures line[i] == runs[|runs| - 1].element
  {
  }

  /** In a maximal encoding, the slot just before the last run holds a different cell. */
  lemma BeforeLastRun<T>(runs: seq<Run<T>>, line: seq<T>)
    requires Positive(runs) && Maximal(runs) && Expand(runs) == line
    requires |runs| >= 2
    ensures |line| - runs[|runs| - 1].span >= 1
    ensures line[|line| - runs[|runs| - 1].span - 1] != runs[|runs| - 1].element
  {
  }

  /** Against a maximal encoding, no encoding of the same line ends in a longer run. */
  lemma LastSpanAtMost<T>(a: seq<Run<T>>, b: seq<Run<T>>, line: seq<T>)
    requires Positive(a) && Maximal(a) && Expand(a) == line && a != []
    requires Positive(b) && Expand(b) == line && b != []
    ensures b[|b| - 1].span <= a[|a| - 1].span
  {
    var n, sa := |line|, a[|a| - 1].span;
    ExpandNonEmpty(b);
    TailOfLastRun(a, line, n - 1);
    TailOfLastRun(b, line, n - 1);
    if sa < b[|b| - 1].span {
      assert |Expand(a[..|a| - 1])| == n - sa;
      BeforeLastRun(a, line);
      TailOfLastRun(b, line, n - sa - 1);
    }
  }

  /** Without its last run, an encoding encodes the line without the last run's slots. */
  lemma DropLastRun<T>(runs: seq<Run<T>>, line: seq<T>, what: SpanKey)
    requires IsEncoding(runs, line, what) && runs != []
    ensures IsEncoding(runs[..|runs| - 1], line[..|line| - runs[|runs| - 1].span], what)
  {
    var init := runs[..|runs| - 1];
    assert forall k :: 0 <= k < |init| ==> init[k] == runs[k];
  }

  /** A run-length encoding with positive, maximal runs is unique. */
  lemma {:induction false} EncodingUnique<T>(a: seq<Run<T>>, b: seq<Run<T>>, line: seq<T>, what: SpanKey)
    requires IsEncoding(a, line, what) && IsEncoding(b, line, what)
    ensures a == b
    decreases |a| + |b|
  {
    if a != [] { ExpandNonEmpty(a); }
    if b != [] { ExpandNonEmpty(b); }
    if a != [] && b != [] {
      var la, lb := a[|a| - 1], b[|b| - 1];
      LastSpanAtMost(a, b, line);
      LastSpanAtMost(b, a, line);
      TailOfLastRun(a, line, |line| - 1);
      TailOfLastRun(b, line, |line| - 1);
      DropLastRun(a, line, what);
      DropLastRun(b, line, what);
      EncodingUnique(a[..|a| - 1], b[..|b| - 1], line[..|line| - la.span], what);
      assert a == a[..|a| - 1] + [la] && b == b[..|b| - 1] + [lb];
    }
  }

  /**
   * The state of `extract` after the runs `cells`: they encode the part of the
   * line before `current`, and the cell at `current` starts a new run.
   */
  ghost predicate EncodesPrefix<T>(cells: seq<Run<T>>, line: seq<T>, current: int, what: SpanKey)
  {
    && 0 <= current <= |line|
    && IsEncoding(cells, line[..current], what)
    && (cells == [] <==> current == 0)
    && (cells != [] && current < |line| ==> cells[|cells| - 1].element != line[current])
  }

  /** `span` is the length of the maximal run at the head of `xs`. */
  ghost predicate HeadRun<T>(xs: seq<T>, span: nat)
  {
    && 1 <= span <= |xs|
    && (forall i :: 0 <= i < span ==> xs[0] == xs[i])
    && (span < |xs| ==> xs[0] != xs[span])
  }

  /** On a non-empty sequence, `findDiff` under `===` measures the head run. */
  lemma FindDiffHeadRun<T>(xs: seq<T>)
    requires xs != []
    ensures HeadRun(xs, FindDiff(xs, StrictEquals))
  {
  }

  /** Appending a run appends its slots to the expansion. */
  lemma ExpandSnoc<T>(cells: seq<Run<T>>, r: Run<T>)
    ensures Expand(cells + [r]) == Expand(cells) + Repeat(r.element, r.span)
  {
    assert (cells + [r])[..|cells|] == cells;
  }

  /** Appending a positive run with the same key and a new element keeps the run properties. */
  lemma SnocKeepsRuns<T>(cells: seq<Run<T>>, r: Run<T>, what: SpanKey)
    requires Positive(cells) && Maximal(cells) && Keyed(cells, what)
    requires r.span >= 1 && r.key == what
    requires cells != [] ==> cells[|cells| - 1].element != r.element
    ensures Positive(cells + [r]) && Maximal(cells + [r]) && Keyed(cells + [r], what)
  {
    var next := cells + [r];
    assert forall k :: 0 <= k < |cells| ==> next[k] == cells[k];
  }

  /** Recording the maximal run that starts at `current` keeps `EncodesPrefix`. */
  lemma RecordRun<T>(cells: seq<Run<T>>, line: seq<T>, current: nat, span: nat, what: SpanKey)
    requires EncodesPrefix(cells, line, current, what)
    requires current < |line| && HeadRun(line[current..], span)
    ensures EncodesPrefix(cells + [Run(line[current], what, span)], line, current + span, what)
  {
    var slice := line[current..];
    var res := Run(line[current], what, span);
    var piece := line[current..current + span];
    assert Repeat(res.element, span) == piece by {
      forall i | 0 <= i < span ensures Repeat(res.element, span)[i] == piece[i] {
        assert piece[i] == slice[i];
      }
    }
    ExpandSnoc(cells, res);
    assert line[..current + span] == line[..current] + piece;
    SnocKeepsRuns(cells, res, what);
    if current + span < |line| {
      assert line[current + span] == slice[span];
    }
  }

  /** Once `current` reaches the end, the runs encode the whole line. */
  lemma WholeLine<T>(cells: seq<Run<T>>, line: seq<T>, what: SpanKey)
    requires EncodesPrefix(cells, line, |line|, what)
    ensures IsEncoding(cells, line, what) && SumSpans(cells) == |line|
    ensures cells == [] <==> line == []
  {
    assert line[..|line|] == line;
  }

  /** The comparator `extract` hands to `findDiff`: JavaScript's `===` on cell references. */
  function StrictEquals<T(==)>(x: T, y: T): (b: bool)
    ensures b <==> x == y
  {
    x == y
  }

  /**
   * `extract(line, what)`: walks the line from offset 0, and at each offset
   * records the cell there together with the length of its run (`findDiff`
   * of the rest of the line under `===`), then jumps past the run.
   */
  method Extract<T(==)>(line: seq<T>, what: SpanKey) returns (cells: seq<Run<T>>)
    ensures Expand(cells) == line
    ensures SumSpans(cells) == |line|
    ensures Positive(cells) && Maximal(cells) && Keyed(cells, what)
    ensures cells == [] <==> line == []
  {
    var current := 0;
    cells := [];
    while current < |line|
      invariant EncodesPrefix(cells, line, current, what)
      decreases |line| - current
    {
      var slice := line[current..];
      var span := FindDiff(slice, StrictEquals);
      FindDiffHeadRun(slice);
      RecordRun(cells, line, current, span, what);
      cells := cells + [Run(line[current], what, span)];
      current := current + span;
    }
    WholeLine(cells, line, what);
  }

  /** Every slot of the line holds the element of the run that covers it. */
  lemma ExtractRunAt<T>(line: seq<T>, what: SpanKey, cells: seq<Run<T>>, k: nat, j: nat)
    requires IsEncoding(cells, line, what)
    requires k < |cells| && j < cells[k].span
    ensures Offset(cells, k) + j < |line|
    ensures line[Offset(cells, k) + j] == cells[k].element
    ensures line[Offset(cells, k)] == cells[k].element
  {
    RunAt(cells, k, j);
    RunAt(cells, k, 0);
  }
}
