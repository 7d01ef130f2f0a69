/**
 * The per-notebook driver of the fallback executor, `_fill_missing_outputs`
 * in build_site.py. It walks the cells in order with an execution counter
 * that starts at 1 and a dictionary of poisoned names (import aliases of
 * modules found missing) that only grows; it fills the outputs and
 * `execution_count` of each eligible code cell in place and stops at a
 * halt or skip signal.
 *
 * The specification is a fold of `VisitCell` over the cells. The fold is
 * written once for any visitor (`Fold`), and its general facts (length,
 * prefixes, halting, growth, counting) are proved for every visitor that
 * has the matching one-step property; `VisitCell` is then shown to have
 * each of those properties. `Notebook.FillMissingOutputs` is the loop of
 * the source, proved to leave the cells the fold describes.
 */
module Fallback {
  import opened Base
  import opened Text
  import opened Cells

  /** `if missing_module:`: a signal counts only when it is a non-empty string. */
  predicate Truthy(signal: Option<string>)
  {
    signal.Some? && signal.value != []
  }

  /** A code cell with source text, no `execution_count` and no outputs: the only kind the driver may run. */
  predicate Eligible(c: Cell)
  {
    c.cellType == Code && !Blank(c.source) && c.executionCount.None? && c.outputs == []
  }

  /** `d` is `c` with outputs and an `execution_count` written into it, and nothing else changed. */
  predicate Filled(c: Cell, d: Cell)
  {
    c.executionCount.None? && d.executionCount.Some?
    && d == c.(outputs := d.outputs, executionCount := d.executionCount)
  }

  /**
   * `missing_aliases` after a cell reports the missing module `m`: every
   * alias the cell binds to exactly `m`, and `m` itself, now map to `m`.
   */
  function Poison(missing: map<string, string>, aliases: map<string, string>, m: string): (r: map<string, string>)
    ensures r.Keys == missing.Keys + (set a | a in aliases && aliases[a] == m) + {m}
    ensures forall a :: a in r && a !in missing ==> r[a] == m
  {
    (missing + map a | a in aliases && aliases[a] == m :: m)[m := m]
  }

  /** The driver's state between two cells; `done` holds the cells already walked past. */
  datatype PassState = PassState(done: seq<Cell>, count: int, missing: map<string, string>, halted: bool)

  /** The driver's initial state: counter 1, nothing poisoned. */
  const Start: PassState := PassState([], 1, map[], false)

  /** What one iteration does with its cell: the cell as left behind, and the driver's next counter, poisoned names and halt flag. */
  datatype Visit = Visit(cell: Cell, count: int, missing: map<string, string>, halted: bool)

  /** One iteration of a cell walk: the state before, the cell and its index. */
  type Visitor = (PassState, Cell, nat) -> Visit

  /** The state after one more cell has been visited. */
  function Advance(st: PassState, v: Visit): PassState
  {
    PassState(st.done + [v.cell], v.count, v.missing, v.halted)
  }

  /** The state after the first `n` cells have been visited by `visit`. */
  function Fold(cells: seq<Cell>, n: nat, visit: Visitor): PassState
    requires n <= |cells|
  {
    if n == 0 then Start
    else
      var st := Fold(cells, n - 1, visit);
      Advance(st, visit(st, cells[n - 1], n - 1))
  }

  /** The number of positions at which `after` is `before` filled in. */
  function NumFilled(before: seq<Cell>, after: seq<Cell>): nat
    requires |before| == |after|
  {
    if before == [] then 0
    else
      var n := |before| - 1;
      NumFilled(before[..n], after[..n]) + if Filled(before[n], after[n]) then 1 else 0
  }

  /** A visitor that leaves a halted state alone. */
  ghost predicate KeepsHalt(visit: Visitor)
  {
    forall st: PassState, c: Cell, i: nat :: st.halted ==> visit(st, c, i) == Visit(c, st.count, st.missing, true)
  }

  /** A visitor that never forgets a poisoned name. */
  ghost predicate KeepsMissing(visit: Visitor)
  {
    forall st: PassState, c: Cell, i: nat :: st.missing.Keys <= visit(st, c, i).missing.Keys
  }

  /** A visitor that advances the counter by one exactly when it fills its cell in. */
  ghost predicate CountsFills(visit: Visitor)
  {
    forall st: PassState, c: Cell, i: nat :: visit(st, c, i).count == st.count + if Filled(c, visit(st, c, i).cell) then 1 else 0
  }

  /** Every cell visited leaves one cell behind. */
  lemma {:induction false} FoldLength(cells: seq<Cell>, n: nat, visit: Visitor)
    requires n <= |cells|
    ensures |Fold(cells, n, visit).done| == n
  {
    if n > 0 {
      FoldLength(cells, n - 1, visit);
    }
  }

  /** Later cells never change what the walk left behind at earlier positions. */
  lemma {:induction false} FoldPrefix(cells: seq<Cell>, k: nat, n: nat, visit: Visitor)
    requires k < n <= |cells|
    ensures |Fold(cells, n, visit).done| == n
    ensures Fold(cells, n, visit).done[..k] == Fold(cells, k, visit).done
    ensures Fold(cells, n, visit).done[k] == visit(Fold(cells, k, visit), cells[k], k).cell
  {
    FoldLength(cells, n - 1, visit);
    if k < n - 1 {
      FoldPrefix(cells, k, n - 1, visit);
    }
  }

  /** Once halted, a walk passes every later cell through and changes nothing else. */
  lemma {:induction false} FoldHalted(cells: seq<Cell>, i: nat, k: nat, visit: Visitor)
    requires KeepsHalt(visit)
    requires i <= k <= |cells| && Fold(cells, i, visit).halted
    ensures Fold(cells, k, visit) == Fold(cells, i, visit).(done := Fold(cells, i, visit).done + cells[i..k])
  {
    if i < k {
      FoldHalted(cells, i, k - 1, visit);
      assert cells[i..k] == cells[i..k - 1] + [cells[k - 1]];
    }
  }

  /** Poisoned names are never forgotten. */
  lemma {:induction false} FoldMissing(cells: seq<Cell>, j: nat, k: nat, visit: Visitor)
    requires KeepsMissing(visit)
    requires j <= k <= |cells|
    ensures Fold(cells, j, visit).missing.Keys <= Fold(cells, k, visit).missing.Keys
  {
    if j < k {
      FoldMissing(cells, j, k - 1, visit);
    }
  }

  /** The counter is one more than the number of cells filled in so far. */
  lemma {:induction false} FoldCount(cells: seq<Cell>, n: nat, visit: Visitor)
    requires CountsFills(visit)
    requires n <= |cells|
    ensures |Fold(cells, n, visit).done| == n
    ensures Fold(cells, n, visit).count == 1 + NumFilled(cells[..n], Fold(cells, n, visit).done)
  {
    if n > 0 {
      FoldCount(cells, n - 1, visit);
      var done := Fold(cells, n, visit).done;
      assert cells[..n][..n - 1] == cells[..n - 1];
      assert done[..n - 1] == Fold(cells, n - 1, visit).done;
    }
  }

  /** Filled-in cells are never fewer in a longer prefix. */
  lemma {:induction false} NumFilledPrefix(before: seq<Cell>, after: seq<Cell>, k: nat)
    requires |before| == |after| && k < |before|
    ensures NumFilled(before[..k], after[..k]) + (if Filled(before[k], after[k]) then 1 else 0) <= NumFilled(before, after)
  {
    var n := |before| - 1;
    if k < n {
      NumFilledPrefix(before[..n], after[..n], k);
      assert before[..n][..k] == before[..k] && after[..n][..k] == after[..k];
    } else {
      assert before[..k] == before[..n] && after[..k] == after[..n];
    }
  }

  /** Whether the loop reaches `_run_python_cell` for `cell`. */
  predicate Attempted(st: PassState, cell: Cell)
  {
    !st.halted && Eligible(cell) && !ShouldSkipCell(cell.source, st.missing)
  }

  /** One iteration of the loop of `_fill_missing_outputs`, on a cell whose execution would lead to `o`. */
  function VisitCell(st: PassState, cell: Cell, parse: string -> ParsedSource, o: Outcome): Visit
  {
    if !Attempted(st, cell) then Visit(cell, st.count, st.missing, st.halted)
    else RunVisit(st, cell, ImportAliases(parse(cell.source)), RunCell(o, st.count))
  }

  /**
   * The part of an iteration after `_run_python_cell` returned `run` for a
   * cell whose import aliases are `aliases`: a non-empty signal keeps the
   * cell unless there are outputs, and halts on halt or skip or else poisons
   * the signalled name; no signal writes the outputs and the count.
   */
  function RunVisit(st: PassState, cell: Cell, aliases: map<string, string>, run: CellRun): Visit
  {
    var filled := cell.(outputs := run.outputs, executionCount := Some(run.nextCount - 1));
    if !Truthy(run.signal) then
      Visit(filled, run.nextCount, st.missing, false)
    else
      var kept := if run.outputs != [] then filled else cell;
      var m := run.signal.value;
      if m == HaltSignal || m == SkipSignal then
        Visit(kept, run.nextCount, st.missing, true)
      else
        Visit(kept, run.nextCount, Poison(st.missing, aliases, m), false)
  }

  /**
   * What running a cell does to it and to the driver, in terms of what the
   * execution led to: a syntax error leaves the cell as it is, anything else
   * writes the runner's outputs and the counter's current value; the counter
   * advances unless the run was a syntax error; only a halt or skip signal
   * halts; only another non-empty signal poisons.
   */
  lemma RunVisitSpec(st: PassState, cell: Cell, aliases: map<string, string>, o: Outcome)
    ensures var run := RunCell(o, st.count);
      var v := RunVisit(st, cell, aliases, run);
      && v.cell == (if o.SyntaxErr? then cell else cell.(outputs := run.outputs, executionCount := Some(st.count)))
      && v.count == (if o.SyntaxErr? then st.count else st.count + 1)
      && (v.halted <==> run.signal == Some(HaltSignal) || run.signal == Some(SkipSignal))
      && v.missing == (if Truthy(run.signal) && !v.halted then Poison(st.missing, aliases, run.signal.value) else st.missing)
  {
    var run := RunCell(o, st.count);
    VisitOfRun(st, cell, aliases, run);
    assert o.SyntaxErr? ==> Truthy(run.signal) && run.outputs == [];
    assert !o.SyntaxErr? ==> !Truthy(run.signal) || run.outputs != [];
  }

  /** The visit of one run, in terms of the run alone. */
  lemma VisitOfRun(st: PassState, cell: Cell, aliases: map<string, string>, run: CellRun)
    ensures var v := RunVisit(st, cell, aliases, run);
      && v.cell == (if Truthy(run.signal) && run.outputs == [] then cell
                    else cell.(outputs := run.outputs, executionCount := Some(run.nextCount - 1)))
      && v.count == run.nextCount
      && (v.halted <==> run.signal == Some(HaltSignal) || run.signal == Some(SkipSignal))
      && v.missing == (if Truthy(run.signal) && !v.halted then Poison(st.missing, aliases, run.signal.value) else st.missing)
  {
  }

  /**
   * What a visit does, stated without the driver's plumbing: a cell the loop
   * does not run is left as it is, and one it runs is described by
   * `RunVisitSpec`.
   */
  lemma VisitSpec(st: PassState, cell: Cell, parse: string -> ParsedSource, o: Outcome)
    ensures var v := VisitCell(st, cell, parse, o);
      && (!Attempted(st, cell) ==> v == Visit(cell, st.count, st.missing, st.halted))
      && (Attempted(st, cell) ==>
        var run := RunCell(o, st.count);
        && v.cell == (if o.SyntaxErr? then cell else cell.(outputs := run.outputs, executionCount := Some(st.count)))
        && v.count == (if o.SyntaxErr? then st.count else st.count + 1)
        && (v.halted <==> run.signal == Some(HaltSignal) || run.signal == Some(SkipSignal))
        && v.missing == (if Truthy(run.signal) && !v.halted
                         then Poison(st.missing, ImportAliases(parse(cell.source)), run.signal.value)
                         else st.missing))
  {
    RunVisitSpec(st, cell, ImportAliases(parse(cell.source)), o);
  }

  /** The visitor of `_fill_missing_outputs`: `parse` stands for `ast.parse` and `outcome(i)` for what running cell `i` leads to. */
  function Visiting(parse: string -> ParsedSource, outcome: nat -> Outcome): Visitor
  {
    (st: PassState, c: Cell, i: nat) => VisitCell(st, c, parse, outcome(i))
  }

  /** The driver's state after the first `n` cells. */
  function RunUpTo(cells: seq<Cell>, n: nat, parse: string -> ParsedSource, outcome: nat -> Outcome): PassState
    requires n <= |cells|
  {
    Fold(cells, n, Visiting(parse, outcome))
  }

  /** The driver's state once it has walked past every cell, or halted. */
  function Run(cells: seq<Cell>, parse: string -> ParsedSource, outcome: nat -> Outcome): PassState
  {
    RunUpTo(cells, |cells|, parse, outcome)
  }

  /** One more cell: the driver's state after cell `j` is its state before, advanced by visiting cell `j`. */
  lemma RunUpToStep(cells: seq<Cell>, j: nat, parse: string -> ParsedSource, outcome: nat -> Outcome)
    requires j < |cells|
    ensures var st := RunUpTo(cells, j, parse, outcome);
      RunUpTo(cells, j + 1, parse, outcome) == Advance(st, VisitCell(st, cells[j], parse, outcome(j)))
  {
  }

  /** A cell the driver does not run is passed over: it is kept, and nothing else changes. */
  lemma PassOver(cells: seq<Cell>, j: nat, parse: string -> ParsedSource, outcome: nat -> Outcome)
    requires j < |cells| && !Attempted(RunUpTo(cells, j, parse, outcome), cells[j])
    ensures var st := RunUpTo(cells, j, parse, outcome);
      RunUpTo(cells, j + 1, parse, outcome) == st.(done := st.done + [cells[j]])
  {
    RunUpToStep(cells, j, parse, outcome);
  }

  /**
   * What the loop of `FillMissingOutputs` needs to know at cell `j`: the
   * cells before `j` are done, the state after `j` is the state before it
   * advanced by `VisitCell`, and a halt there ends the run.
   */
  lemma NextState(cells: seq<Cell>, j: nat, parse: string -> ParsedSource, outcome: nat -> Outcome)
    requires j < |cells|
    ensures var st := RunUpTo(cells, j, parse, outcome);
      var v := VisitCell(st, cells[j], parse, outcome(j));
      && |st.done| == j
      && RunUpTo(cells, j + 1, parse, outcome) == Advance(st, v)
      && (v.halted ==> Run(cells, parse, outcome).done == st.done + [v.cell] + cells[j + 1..])
  {
    var st := RunUpTo(cells, j, parse, outcome);
    FoldLength(cells, j, Visiting(parse, outcome));
    RunUpToStep(cells, j, parse, outcome);
    if VisitCell(st, cells[j], parse, outcome(j)).halted {
      HaltedRun(cells, j + 1, parse, outcome);
    }
  }

  /** Writing `c` at position `i` of `done + cells[i..]`, where `done` has length `i`. */
  lemma Splice(done: seq<Cell>, cells: seq<Cell>, i: nat, c: Cell)
    requires |done| == i < |cells|
    ensures (done + cells[i..])[i := c] == done + [c] + cells[i + 1..]
  {
  }

  /**
   * One turn of the loop of `_fill_missing_outputs`: writing the visited
   * cell over cell `j` of the partly filled list gives the next state's
   * list, and a halt leaves the rest of the cells as they are.
   */
  lemma LoopStep(cells: seq<Cell>, j: nat, parse: string -> ParsedSource, outcome: nat -> Outcome)
    requires j < |cells|
    ensures var st := RunUpTo(cells, j, parse, outcome);
      var v := VisitCell(st, cells[j], parse, outcome(j));
      var nx := RunUpTo(cells, j + 1, parse, outcome);
      && |st.done| == j
      && (st.done + cells[j..])[j := v.cell] == nx.done + cells[j + 1..]
      && nx.count == v.count && nx.missing == v.missing && nx.halted == v.halted
      && (v.halted ==> Run(cells, parse, outcome).done == nx.done + cells[j + 1..])
  {
    NextState(cells, j, parse, outcome);
    var st := RunUpTo(cells, j, parse, outcome);
    Splice(st.done, cells, j, VisitCell(st, cells[j], parse, outcome(j)).cell);
  }

  /** A cell the loop does not run is kept, and the counter, poisoned names and halt flag stay as they were. */
  lemma NotRun(st: PassState, cell: Cell, parse: string -> ParsedSource, o: Outcome)
    requires !Attempted(st, cell)
    ensures VisitCell(st, cell, parse, o) == Visit(cell, st.count, st.missing, st.halted)
  {
  }

  /** The driver's visitor leaves a halted state alone. */
  lemma VisitingKeepsHalt(parse: string -> ParsedSource, outcome: nat -> Outcome)
    ensures KeepsHalt(Visiting(parse, outcome))
  {
    forall st: PassState, c: Cell, i: nat | st.halted
      ensures Visiting(parse, outcome)(st, c, i) == Visit(c, st.count, st.missing, true)
    {
      VisitSpec(st, c, parse, outcome(i));
    }
  }

  /** The driver's visitor never forgets a poisoned name. */
  lemma VisitingKeepsMissing(parse: string -> ParsedSource, outcome: nat -> Outcome)
    ensures KeepsMissing(Visiting(parse, outcome))
  {
    forall st: PassState, c: Cell, i: nat
      ensures st.missing.Keys <= Visiting(parse, outcome)(st, c, i).missing.Keys
    {
      VisitSpec(st, c, parse, outcome(i));
    }
  }

  /** The driver's visitor advances the counter exactly when it fills its cell in. */
  lemma VisitingCountsFills(parse: string -> ParsedSource, outcome: nat -> Outcome)
    ensures CountsFills(Visiting(parse, outcome))
  {
    forall st: PassState, c: Cell, i: nat
      ensures var v := Visiting(parse, outcome)(st, c, i);
        v.count == st.count + if Filled(c, v.cell) then 1 else 0
    {
      VisitSpec(st, c, parse, outcome(i));
    }
  }

  /**
   * What the driver leaves at position `j`, given the state it had reached
   * there: a cell it does not run stays as it is; a cell it runs gets the
   * runner's outputs and the counter's value at that point, unless the run
   * was a syntax error, which leaves the cell as it is.
   */
  lemma FillCell(cells: seq<Cell>, j: nat, parse: string -> ParsedSource, outcome: nat -> Outcome)
    requires j < |cells|
    ensures |Run(cells, parse, outcome).done| == |cells|
    ensures var st := RunUpTo(cells, j, parse, outcome);
      var out := Run(cells, parse, outcome).done[j];
      && (!Attempted(st, cells[j]) ==> out == cells[j])
      && (Attempted(st, cells[j]) ==>
            out == if outcome(j).SyntaxErr? then cells[j]
                   else cells[j].(outputs := RunCell(outcome(j), st.count).outputs, executionCount := Some(st.count)))
  {
    FoldPrefix(cells, j, |cells|, Visiting(parse, outcome));
    VisitSpec(RunUpTo(cells, j, parse, outcome), cells[j], parse, outcome(j));
  }

  /** Every cell is either left exactly as it was, or was eligible and has been filled in. */
  lemma FillFrame(cells: seq<Cell>, parse: string -> ParsedSource, outcome: nat -> Outcome)
    ensures |Run(cells, parse, outcome).done| == |cells|
    ensures forall j :: 0 <= j < |cells| ==>
      Run(cells, parse, outcome).done[j] == cells[j]
      || (Eligible(cells[j]) && Filled(cells[j], Run(cells, parse, outcome).done[j]))
  {
    FoldLength(cells, |cells|, Visiting(parse, outcome));
    forall j | 0 <= j < |cells|
      ensures Run(cells, parse, outcome).done[j] == cells[j]
        || (Eligible(cells[j]) && Filled(cells[j], Run(cells, parse, outcome).done[j]))
    {
      FillCell(cells, j, parse, outcome);
    }
  }

  /** The counter ends one past the number of cells filled in. */
  lemma FillCountTotal(cells: seq<Cell>, parse: string -> ParsedSource, outcome: nat -> Outcome)
    ensures |Run(cells, parse, outcome).done| == |cells|
    ensures Run(cells, parse, outcome).count == 1 + NumFilled(cells, Run(cells, parse, outcome).done)
  {
    RunCount(cells, |cells|, parse, outcome);
    assert cells[..|cells|] == cells;
  }

  /** After `n` cells the counter is one past the number of cells filled in so far. */
  lemma RunCount(cells: seq<Cell>, n: nat, parse: string -> ParsedSource, outcome: nat -> Outcome)
    requires n <= |cells|
    ensures |RunUpTo(cells, n, parse, outcome).done| == n
    ensures RunUpTo(cells, n, parse, outcome).count == 1 + NumFilled(cells[..n], RunUpTo(cells, n, parse, outcome).done)
  {
    VisitingCountsFills(parse, outcome);
    FoldCount(cells, n, Visiting(parse, outcome));
  }

  /**
   * Execution counts are consecutive from 1: a filled-in cell gets one more
   * than the number of cells filled in before it.
   */
  lemma FillCounts(cells: seq<Cell>, j: nat, parse: string -> ParsedSource, outcome: nat -> Outcome)
    requires j < |cells|
    ensures var out := Run(cells, parse, outcome).done;
      && |out| == |cells|
      && (Filled(cells[j], out[j]) ==> out[j].executionCount == Some(1 + NumFilled(cells[..j], out[..j])))
  {
    VisitingCountsFills(parse, outcome);
    VisitingStamps(parse, outcome);
    FoldStamps(cells, j, Visiting(parse, outcome));
  }

  /** A visitor that stamps every cell it fills in with the count it had reached. */
  ghost predicate StampsCount(visit: Visitor)
  {
    forall st: PassState, c: Cell, i: nat ::
      Filled(c, visit(st, c, i).cell) ==> visit(st, c, i).cell.executionCount == Some(st.count)
  }

  /** A walk with a counting, stamping visitor numbers the filled-in cells consecutively from 1. */
  lemma FoldStamps(cells: seq<Cell>, j: nat, visit: Visitor)
    requires j < |cells| && CountsFills(visit) && StampsCount(visit)
    ensures var out := Fold(cells, |cells|, visit).done;
      && |out| == |cells|
      && (Filled(cells[j], out[j]) ==> out[j].executionCount == Some(1 + NumFilled(cells[..j], out[..j])))
  {
    FoldPrefix(cells, j, |cells|, visit);
    FoldCount(cells, j, visit);
  }

  /** The driver's visitor stamps each cell it fills in with the count it had reached. */
  lemma VisitingStamps(parse: string -> ParsedSource, outcome: nat -> Outcome)
    ensures StampsCount(Visiting(parse, outcome))
  {
    forall st: PassState, c: Cell, i: nat
      ensures var v := Visiting(parse, outcome)(st, c, i);
        Filled(c, v.cell) ==> v.cell.executionCount == Some(st.count)
    {
      VisitSpec(st, c, parse, outcome(i));
    }
  }

  /** Of two filled-in cells, the later one has the larger execution count, and every count is at least 1. */
  lemma FillCountsIncrease(cells: seq<Cell>, j: nat, k: nat, parse: string -> ParsedSource, outcome: nat -> Outcome)
    requires j < k < |cells|
    ensures var out := Run(cells, parse, outcome).done;
      && |out| == |cells|
      && (Filled(cells[j], out[j]) && Filled(cells[k], out[k]) ==>
            1 <= out[j].executionCount.value < out[k].executionCount.value)
  {
    var out := Run(cells, parse, outcome).done;
    FillCounts(cells, j, parse, outcome);
    FillCounts(cells, k, parse, outcome);
    NumFilledPrefix(cells[..k], out[..k], j);
    assert cells[..k][..j] == cells[..j] && out[..k][..j] == out[..j];
  }

  /** Once the driver has halted, it passes every remaining cell through unchanged. */
  lemma HaltedRun(cells: seq<Cell>, j: nat, parse: string -> ParsedSource, outcome: nat -> Outcome)
    requires j <= |cells| && RunUpTo(cells, j, parse, outcome).halted
    ensures Run(cells, parse, outcome).done == RunUpTo(cells, j, parse, outcome).done + cells[j..]
  {
    VisitingKeepsHalt(parse, outcome);
    FoldHalted(cells, j, |cells|, Visiting(parse, outcome));
  }

  /** After the driver halts at cell `j`, every later cell is left exactly as it was. */
  lemma FillHalt(cells: seq<Cell>, j: nat, parse: string -> ParsedSource, outcome: nat -> Outcome)
    requires j < |cells| && RunUpTo(cells, j + 1, parse, outcome).halted
    ensures |Run(cells, parse, outcome).done| == |cells|
    ensures Run(cells, parse, outcome).done[j + 1..] == cells[j + 1..]
  {
    HaltedRun(cells, j + 1, parse, outcome);
    FoldLength(cells, j + 1, Visiting(parse, outcome));
  }

  /** The driver halts only on a cell it runs whose runner returns the halt or skip signal. */
  lemma HaltCause(cells: seq<Cell>, j: nat, parse: string -> ParsedSource, outcome: nat -> Outcome)
    requires j < |cells|
    requires !RunUpTo(cells, j, parse, outcome).halted && RunUpTo(cells, j + 1, parse, outcome).halted
    ensures var st := RunUpTo(cells, j, parse, outcome);
      && Attempted(st, cells[j])
      && RunCell(outcome(j), st.count).signal in {Some(HaltSignal), Some(SkipSignal)}
  {
    RunUpToStep(cells, j, parse, outcome);
    VisitSpec(RunUpTo(cells, j, parse, outcome), cells[j], parse, outcome(j));
  }

  /**
   * A `NameError` in a cell the driver runs leaves a single notice in that
   * cell and stops the driver: every later cell is left as it was.
   */
  lemma NameErrorHalts(cells: seq<Cell>, j: nat, parse: string -> ParsedSource, outcome: nat -> Outcome)
    requires j < |cells| && Attempted(RunUpTo(cells, j, parse, outcome), cells[j]) && outcome(j).NameErr?
    ensures RunUpTo(cells, j + 1, parse, outcome).halted
    ensures var out := Run(cells, parse, outcome).done;
      && |out| == |cells|
      && SingleNotice(out[j].outputs)
      && out[j].executionCount == Some(RunUpTo(cells, j, parse, outcome).count)
      && out[j + 1..] == cells[j + 1..]
  {
    var st := RunUpTo(cells, j, parse, outcome);
    RunUpToStep(cells, j, parse, outcome);
    VisitSpec(st, cells[j], parse, outcome(j));
    FillCell(cells, j, parse, outcome);
    FillHalt(cells, j, parse, outcome);
  }

  /** A syntax error in a cell the driver runs leaves that cell and every later one as it was. */
  lemma SyntaxErrorHalts(cells: seq<Cell>, j: nat, parse: string -> ParsedSource, outcome: nat -> Outcome)
    requires j < |cells| && Attempted(RunUpTo(cells, j, parse, outcome), cells[j]) && outcome(j).SyntaxErr?
    ensures RunUpTo(cells, j + 1, parse, outcome).halted
    ensures |Run(cells, parse, outcome).done| == |cells|
    ensures Run(cells, parse, outcome).done[j..] == cells[j..]
  {
    var st := RunUpTo(cells, j, parse, outcome);
    RunUpToStep(cells, j, parse, outcome);
    VisitSpec(st, cells[j], parse, outcome(j));
    FillCell(cells, j, parse, outcome);
    FillHalt(cells, j, parse, outcome);
    var out := Run(cells, parse, outcome).done;
    assert out[j..] == [out[j]] + out[j + 1..];
    assert cells[j..] == [cells[j]] + cells[j + 1..];
  }

  /** Poisoned names are never forgotten. */
  lemma PoisonGrows(cells: seq<Cell>, j: nat, k: nat, parse: string -> ParsedSource, outcome: nat -> Outcome)
    requires j <= k <= |cells|
    ensures RunUpTo(cells, j, parse, outcome).missing.Keys <= RunUpTo(cells, k, parse, outcome).missing.Keys
  {
    VisitingKeepsMissing(parse, outcome);
    FoldMissing(cells, j, k, Visiting(parse, outcome));
  }

  /**
   * A non-empty signal other than halt and skip names a missing module: the
   * driver goes on, and poisons that name and every alias the cell bound to it.
   */
  lemma MissingModulePoisons(cells: seq<Cell>, j: nat, parse: string -> ParsedSource, outcome: nat -> Outcome)
    requires j < |cells| && Attempted(RunUpTo(cells, j, parse, outcome), cells[j])
    requires var signal := RunCell(outcome(j), RunUpTo(cells, j, parse, outcome).count).signal;
      Truthy(signal) && signal.value != HaltSignal && signal.value != SkipSignal
    ensures var st := RunUpTo(cells, j, parse, outcome);
      var after := RunUpTo(cells, j + 1, parse, outcome);
      var m := RunCell(outcome(j), st.count).signal.value;
      && !after.halted
      && after.missing == Poison(st.missing, ImportAliases(parse(cells[j].source)), m)
  {
    RunUpToStep(cells, j, parse, outcome);
    VisitSpec(RunUpTo(cells, j, parse, outcome), cells[j], parse, outcome(j));
  }

  /**
   * A run whose signal is absent or empty (a clean run, an exception, or an
   * import failure whose name came out empty) neither halts the driver nor
   * poisons anything.
   */
  lemma QuietRun(cells: seq<Cell>, j: nat, parse: string -> ParsedSource, outcome: nat -> Outcome)
    requires j < |cells| && Attempted(RunUpTo(cells, j, parse, outcome), cells[j])
    requires !Truthy(RunCell(outcome(j), RunUpTo(cells, j, parse, outcome).count).signal)
    ensures !RunUpTo(cells, j + 1, parse, outcome).halted
    ensures RunUpTo(cells, j + 1, parse, outcome).missing == RunUpTo(cells, j, parse, outcome).missing
  {
    RunUpToStep(cells, j, parse, outcome);
    VisitSpec(RunUpTo(cells, j, parse, outcome), cells[j], parse, outcome(j));
  }

  /** A later cell that mentions a poisoned name as a whole word is left exactly as it was. */
  lemma PoisonedCellUntouched(cells: seq<Cell>, j: nat, k: nat, a: string, i: int, parse: string -> ParsedSource, outcome: nat -> Outcome)
    requires j <= k < |cells|
    requires a in RunUpTo(cells, j, parse, outcome).missing && WholeWordAt(cells[k].source, a, i)
    ensures |Run(cells, parse, outcome).done| == |cells|
    ensures Run(cells, parse, outcome).done[k] == cells[k]
  {
    PoisonGrows(cells, j, k, parse, outcome);
    FillCell(cells, k, parse, outcome);
  }

  /** The in-place state of `_fill_missing_outputs`: the notebook whose cells it fills. */
  class Notebook {
    var cells: seq<Cell>

    constructor (cells: seq<Cell>)
      ensures this.cells == cells
    {
      this.cells := cells;
    }

    /**
     * `_fill_missing_outputs(nb)`: the counter starts at 1, nothing is
     * poisoned, and the cells are visited in order until one halts the loop;
     * `parse` stands for `ast.parse` and `outcome(i)` for what running cell
     * `i` against the shared environment leads to.
     */
    method FillMissingOutputs(parse: string -> ParsedSource, outcome: nat -> Outcome)
      modifies this
      ensures cells == Run(old(cells), parse, outcome).done
    {
      ghost var cells0 := cells;
      var execCount := 1;
      var missingAliases: map<string, string> := map[];
      var i: nat := 0;
      ghost var st := Start;
      while i < |cells|
        invariant i <= |cells0| == |cells|
        invariant st == RunUpTo(cells0, i, parse, outcome)
        invariant !st.halted && cells == st.done + cells0[i..]
        invariant execCount == st.count && missingAliases == st.missing
      {
        LoopStep(cells0, i, parse, outcome);
        var cell, halt;
        cell, execCount, missingAliases, halt := ProcessCell(cells[i], execCount, missingAliases, parse, outcome(i), st);
        cells := cells[i := cell];
        st := RunUpTo(cells0, i + 1, parse, outcome);
        if halt {
          break;
        }
        i := i + 1;
      }
    }

  }

  /**
   * The body of the loop of `_fill_missing_outputs` for one cell, with
   * `return` where the source has `continue` and `halt` set where it has
   * `break`; `written` is the cell as the loop leaves it. It is specified by
   * `VisitCell` from the counter and poisoned names it is given, which `st`
   * holds.
   */
  method ProcessCell(cell: Cell, execCount: int, missingAliases: map<string, string>,
                     parse: string -> ParsedSource, o: Outcome, ghost st: PassState)
    returns (written: Cell, nextCount: int, nextMissing: map<string, string>, halt: bool)
    requires !st.halted && st.count == execCount && st.missing == missingAliases
    ensures Visit(written, nextCount, nextMissing, halt) == VisitCell(st, cell, parse, o)
  {
    written, nextCount, nextMissing, halt := cell, execCount, missingAliases, false;
    if cell.cellType != Code {
      NotRun(st, cell, parse, o);
      return;
    }
    var source := cell.source;
    if Blank(source) {
      NotRun(st, cell, parse, o);
      return;
    }
    if ShouldSkipCell(source, missingAliases) {
      NotRun(st, cell, parse, o);
      return;
    }
    if cell.executionCount.Some? {
      NotRun(st, cell, parse, o);
      return;
    }
    if cell.outputs != [] {
      NotRun(st, cell, parse, o);
      return;
    }
    written, nextCount, nextMissing, halt := RunEligible(cell, execCount, missingAliases, parse, o, st);
  }

  /**
   * The rest of the loop body, once the cell is known to be one the driver
   * runs: run it, write what the runner returned, and act on its signal.
   */
  method RunEligible(cell: Cell, execCount: int, missingAliases: map<string, string>,
                     parse: string -> ParsedSource, o: Outcome, ghost st: PassState)
    returns (written: Cell, nextCount: int, nextMissing: map<string, string>, halt: bool)
    requires st.count == execCount && st.missing == missingAliases && Attempted(st, cell)
    ensures Visit(written, nextCount, nextMissing, halt) == VisitCell(st, cell, parse, o)
  {
    var aliases := ExtractImportAliases(parse(cell.source));
    var outputs, missingModule;
    outputs, nextCount, missingModule := RunPythonCell(o, execCount);
    written, nextMissing, halt := cell, missingAliases, false;
    var filled := cell.(outputs := outputs, executionCount := Some(nextCount - 1));
    if missingModule.Some? && missingModule.value != [] {
      if outputs != [] {
        written := filled;
      }
      if missingModule.value == HaltSignal || missingModule.value == SkipSignal {
        halt := true;
        return;
      }
      nextMissing := RecordMissingModule(missingAliases, aliases, missingModule.value);
      return;
    }
    written := filled;
  }

  /** `missing_aliases` once the aliases in `seen` have been looked at. */
  function PoisonedSoFar(missing: map<string, string>, aliases: map<string, string>, seen: set<string>, m: string): map<string, string>
  {
    missing + map a | a in seen && a in aliases && aliases[a] == m :: m
  }

  /** Looking at one more alias poisons it exactly when it is bound to `m`. */
  lemma PoisonedSoFarStep(missing: map<string, string>, aliases: map<string, string>, seen: set<string>, a: string, m: string)
    requires a in aliases
    ensures PoisonedSoFar(missing, aliases, seen + {a}, m)
      == if aliases[a] == m then PoisonedSoFar(missing, aliases, seen, m)[a := aliases[a]]
         else PoisonedSoFar(missing, aliases, seen, m)
  {
  }

  /** Having looked at every alias, poisoning the module name itself completes `Poison`. */
  lemma PoisonedAll(missing: map<string, string>, aliases: map<string, string>, m: string)
    ensures PoisonedSoFar(missing, aliases, aliases.Keys, m)[m := m] == Poison(missing, aliases, m)
  {
  }

  /**
   * The loop over `aliases.items()` that poisons every alias bound to the
   * missing module, followed by poisoning the module name itself.
   */
  method RecordMissingModule(missing: map<string, string>, aliases: map<string, string>, m: string)
    returns (r: map<string, string>)
    ensures r == Poison(missing, aliases, m)
  {
    r := missing;
    var pending := aliases.Keys;
    ghost var seen: set<string> := {};
    while pending != {}
      invariant seen + pending == aliases.Keys
      invariant r == PoisonedSoFar(missing, aliases, seen, m)
      decreases pending
    {
      var a :| a in pending;
      PoisonedSoFarStep(missing, aliases, seen, a, m);
      if aliases[a] == m {
        r := r[a := aliases[a]];
      }
      pending := pending - {a};
      seen := seen + {a};
    }
    PoisonedAll(missing, aliases, m);
    r := r[m := m];
  }
}
