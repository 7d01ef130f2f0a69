/**
 * The notebook data model and the per-cell rules of the fallback executor
 * in build_site.py: which cells are skipped (`_should_skip_cell`), which
 * import aliases a cell binds (`_extract_import_aliases`), and how the
 * outcome of running one cell becomes its outputs, the next execution
 * counter and a signal for the driver (`_run_python_cell`).
 *
 * Running Python itself (`ast.parse`, `compile`, `exec`, `eval` against the
 * shared environment, stream redirection) is not modelled: its result is
 * given as an `Outcome`, and the parsed module as a `ParsedSource`.
 */
module Cells {
  import opened Base
  import opened Text
  import Dicts

  datatype CellType = Code | Markdown | Raw

  /** One notebook cell: its kind, source text, `execution_count` (None when unset) and outputs. */
  datatype Cell = Cell(cellType: CellType, source: string, executionCount: Option<int>, outputs: seq<Output>)

  datatype StreamName = Stdout | Stderr

  /** The three nbformat output kinds the executor emits. */
  datatype Output =
    | StreamOut(name: StreamName, text: string)
    | ExecuteResult(executionCount: int, textPlain: string)
    | ErrorOut(ename: string, evalue: string, traceback: seq<string>)

  /**
   * What executing a cell's source against the notebook environment led to,
   * classified the way `_run_python_cell`'s handlers classify it.
   */
  datatype Outcome =
      /** No exception: captured stdout, stderr and, when the last statement is a bare expression, its `repr`. */
    | Completed(stdout: string, stderr: string, value: Option<string>)
      /** Any `SyntaxError` raised while parsing, compiling or running the cell; what it printed first is dropped. */
    | SyntaxErr
      /** `ModuleNotFoundError`, with its `name` attribute (which may be None). */
    | ModuleNotFound(name: Option<string>)
      /** Any other `ImportError`, with its `name` attribute and `str(exc)`. */
    | ImportFailed(name: Option<string>, message: string)
      /** `NameError`; `shown` is the name the notice prints. */
    | NameErr(shown: string)
      /** Any other `Exception`, with the text captured before it, its class name, message and traceback lines. */
    | Raised(stdout: string, stderr: string, kind: string, message: string, traceback: seq<string>)

  /** The triple `_run_python_cell` returns: outputs, next counter value, signal for the driver. */
  datatype CellRun = CellRun(outputs: seq<Output>, nextCount: int, signal: Option<string>)

  const HaltSignal: string := "__halt__"
  const SkipSignal: string := "__skip__"

  const Warning: string := "\U{26A0}\U{FE0F} Output not rendered: "

  /** The notice for a `ModuleNotFoundError`; a name of None prints as `None`. */
  function ModuleMissingNotice(name: Option<string>): string
  {
    Warning + "Python module '" + (if name.Some? then name.value else "None") + "' is missing. "
    + "Run this notebook locally after installing dependencies.\n"
  }

  const DependencyNotice: string :=
    Warning + "required dependency could not be loaded. Run this notebook locally to view results.\n"

  function SetupNotice(shown: string): string
  {
    Warning + "prior setup step did not run, so '" + shown + "' is undefined. "
    + "Execute the notebook in order to view results.\n"
  }

  /** `msg.split(" ")[0]`: everything before the first space. */
  function FirstField(msg: string): (r: string)
    ensures r <= msg && ' ' !in r
    ensures |r| < |msg| ==> msg[|r|] == ' '
  {
    if msg == [] || msg[0] == ' ' then [] else [msg[0]] + FirstField(msg[1..])
  }

  /** `getattr(exc, "name", None) or str(exc).split(" ")[0]`. */
  function ImportFailureName(name: Option<string>, message: string): string
  {
    if name.Some? && name.value != [] then name.value else FirstField(message)
  }

  /**
   * The signal of an `ImportError` other than a missing module is empty
   * exactly when it has no name and its message has no first word; it is
   * otherwise the name, or else the message up to its first space.
   */
  lemma ImportSignalEmpty(name: Option<string>, message: string)
    ensures ImportFailureName(name, message) == [] <==>
      (name.None? || name.value == []) && (message == [] || message[0] == ' ')
    ensures name.Some? && name.value != [] ==> ImportFailureName(name, message) == name.value
    ensures (name.None? || name.value == []) && message != [] && message[0] != ' ' ==>
      var r := ImportFailureName(name, message);
      && r == message[..|r|] && ' ' !in r
      && (|r| < |message| ==> message[|r|] == ' ')
  {
  }

  /** The stream outputs for the captured text: stdout first, each only when non-empty. */
  function Streams(stdout: string, stderr: string): (r: seq<Output>)
    ensures |r| <= 2 && forall i :: 0 <= i < |r| ==> r[i].StreamOut?
    ensures StreamOut(Stdout, stdout) in r <==> stdout != []
    ensures StreamOut(Stderr, stderr) in r <==> stderr != []
    ensures forall i :: 0 <= i < |r| ==> r[i] == StreamOut(Stdout, stdout) || r[i] == StreamOut(Stderr, stderr)
    ensures forall i, j :: 0 <= i < j < |r| ==> r[i].name == Stdout && r[j].name == Stderr
  {
    (if stdout != [] then [StreamOut(Stdout, stdout)] else [])
    + (if stderr != [] then [StreamOut(Stderr, stderr)] else [])
  }

  /**
   * The ordering invariant of a cell's outputs: streams carry text, an
   * `execute_result` is the last output and carries the cell's counter, an
   * `error` output is the last output.
   */
  ghost predicate WellFormedOutputs(outs: seq<Output>, count: int)
  {
    && (forall i :: 0 <= i < |outs| && outs[i].StreamOut? ==> outs[i].text != [])
    && (forall i :: 0 <= i < |outs| && outs[i].ExecuteResult? ==> i == |outs| - 1 && outs[i].executionCount == count)
    && (forall i :: 0 <= i < |outs| && outs[i].ErrorOut? ==> i == |outs| - 1)
  }

  /** A single stdout stream: the shape of every informational notice. */
  ghost predicate SingleNotice(outs: seq<Output>)
  {
    |outs| == 1 && outs[0].StreamOut? && outs[0].name == Stdout
  }

  /** `_run_python_cell(source, env, count)` for a cell whose execution led to `o`. */
  function RunCell(o: Outcome, count: int): (r: CellRun)
    ensures r.nextCount == if o.SyntaxErr? then count else count + 1
    ensures o.SyntaxErr? ==> r.outputs == [] && r.signal == Some(SkipSignal)
    ensures o.NameErr? ==> SingleNotice(r.outputs) && r.signal == Some(HaltSignal)
    ensures o.ModuleNotFound? ==> SingleNotice(r.outputs) && r.signal == o.name
    ensures o.ImportFailed? ==> SingleNotice(r.outputs) && r.signal == Some(ImportFailureName(o.name, o.message))
    ensures o.Completed? || o.Raised? ==> r.signal == None
    ensures o.Raised? ==>
      && r.outputs == Streams(o.stdout, o.stderr) + [ErrorOut(o.kind, o.message, o.traceback)]
    ensures r.outputs == [] ==> o.SyntaxErr? || (o.Completed? && o.stdout == [] && o.stderr == [] && o.value.None?)
  {
    match o
    case SyntaxErr => CellRun([], count, Some(SkipSignal))
    case ModuleNotFound(name) => CellRun([StreamOut(Stdout, ModuleMissingNotice(name))], count + 1, name)
    case ImportFailed(name, message) =>
      CellRun([StreamOut(Stdout, DependencyNotice)], count + 1, Some(ImportFailureName(name, message)))
    case NameErr(shown) => CellRun([StreamOut(Stdout, SetupNotice(shown))], count + 1, Some(HaltSignal))
    case Raised(out, err, kind, message, tb) =>
      CellRun(Streams(out, err) + [ErrorOut(kind, message, tb)], count + 1, None)
    case Completed(out, err, value) =>
      var result := if value.Some? then [ExecuteResult(count, value.value)] else [];
      CellRun(Streams(out, err) + result, count + 1, None)
  }

  /**
   * The outputs of a run keep the ordering invariant, and a completed run
   * yields its streams, then an `execute_result` exactly when the last
   * statement was an expression, and never an `error` output.
   */
  lemma RunCellOutputs(o: Outcome, count: int)
    ensures WellFormedOutputs(RunCell(o, count).outputs, count)
  {
    var outs := RunCell(o, count).outputs;
    match o
    case Completed(out, err, value) =>
      var result := if value.Some? then [ExecuteResult(count, value.value)] else [];
      StreamsThen(out, err, result, count, outs);
    case Raised(out, err, kind, message, tb) =>
      StreamsThen(out, err, [ErrorOut(kind, message, tb)], count, outs);
    case SyntaxErr =>
    case ModuleNotFound(name) =>
      NoticeWellFormed(ModuleMissingNotice(name), count);
    case ImportFailed(name, message) =>
      NoticeWellFormed(DependencyNotice, count);
    case NameErr(shown) =>
      NoticeWellFormed(SetupNotice(shown), count);
  }

  /**
   * After a run without an exception the captured streams come first, then
   * the `execute_result` exactly when a value was captured, and no `error`.
   */
  lemma CompletedOutputs(out: string, err: string, value: Option<string>, count: int)
    ensures
      var outs := RunCell(Completed(out, err, value), count).outputs;
      && Streams(out, err) <= outs
      && |outs| == |Streams(out, err)| + (if value.Some? then 1 else 0)
      && (value.Some? ==> outs[|outs| - 1] == ExecuteResult(count, value.value))
      && (value.Some? <==> exists i :: 0 <= i < |outs| && outs[i].ExecuteResult?)
      && (forall i :: 0 <= i < |outs| ==> !outs[i].ErrorOut?)
  {
    var outs := RunCell(Completed(out, err, value), count).outputs;
    var result := if value.Some? then [ExecuteResult(count, value.value)] else [];
    assert outs == Streams(out, err) + result;
    if value.Some? {
      assert outs[|outs| - 1].ExecuteResult?;
    }
  }

  /** A single non-empty notice is well formed. */
  lemma NoticeWellFormed(text: string, count: int)
    requires text != []
    ensures WellFormedOutputs([StreamOut(Stdout, text)], count)
  {
  }

  /** The captured streams followed by at most one result or error output are well formed. */
  lemma StreamsThen(out: string, err: string, last: seq<Output>, count: int, outs: seq<Output>)
    requires outs == Streams(out, err) + last
    requires |last| <= 1 && forall i :: 0 <= i < |last| ==> !last[i].StreamOut?
    requires forall i :: 0 <= i < |last| && last[i].ExecuteResult? ==> last[i].executionCount == count
    ensures WellFormedOutputs(outs, count)
    ensures Streams(out, err) <= outs
  {
  }



  /**
   * The cell runner as build_site.py writes it: outputs are appended one at
   * a time by the handler that caught the exception, or by the `else` branch.
   */
  method RunPythonCell(o: Outcome, execCount: int) returns (outputs: seq<Output>, nextCount: int, missingModule: Option<string>)
    ensures CellRun(outputs, nextCount, missingModule) == RunCell(o, execCount)
  {
    outputs := [];
    missingModule := None;
    match o {
      case SyntaxErr =>
        return [], execCount, Some(SkipSignal);
      case ModuleNotFound(name) =>
        missingModule := name;
        outputs := outputs + [StreamOut(Stdout, ModuleMissingNotice(name))];
      case ImportFailed(name, message) =>
        missingModule := Some(ImportFailureName(name, message));
        outputs := outputs + [StreamOut(Stdout, DependencyNotice)];
      case NameErr(shown) =>
        missingModule := Some(HaltSignal);
        outputs := outputs + [StreamOut(Stdout, SetupNotice(shown))];
      case Raised(text, errText, kind, message, tb) =>
        if text != [] { outputs := outputs + [StreamOut(Stdout, text)]; }
        if errText != [] { outputs := outputs + [StreamOut(Stderr, errText)]; }
        outputs := outputs + [ErrorOut(kind, message, tb)];
      case Completed(text, errText, value) =>
        if text != [] { outputs := outputs + [StreamOut(Stdout, text)]; }
        if errText != [] { outputs := outputs + [StreamOut(Stderr, errText)]; }
        if value.Some? { outputs := outputs + [ExecuteResult(execCount, value.value)]; }
    }
    return outputs, execCount + 1, missingModule;
  }

  /** The source, after its leading whitespace, starts with a `%` magic or a `!` shell escape. */
  ghost predicate MagicCommand(source: string)
  {
    exists k :: 0 <= k < |source| && (source[k] == '%' || source[k] == '!')
      && forall j :: 0 <= j < k ==> IsSpace(source[j])
  }

  /** Whether `_should_skip_cell` leaves the cell alone without running it. */
  function ShouldSkipCell(source: string, missingAliases: map<string, string>): (r: bool)
    ensures r <==>
      || MagicCommand(source)
      || (exists i :: TextAt(source, "input(", i))
      || (exists i :: TextAt(source, "getpass(", i))
      || (exists alias, i :: alias in missingAliases && WholeWordAt(source, alias, i))
  {
    var stripped := LStrip(source);
    MagicPrefix(source);
    if "%%" <= stripped || "%" <= stripped || "!" <= stripped then true
    else if Occurs(source, "input(") || Occurs(source, "getpass(") then true
    else exists alias | alias in missingAliases :: SearchWord(source, alias)
  }

  /** Looking at the first character after `lstrip()` is looking for a magic command. */
  lemma MagicPrefix(source: string)
    ensures var stripped := LStrip(source);
      ("%%" <= stripped || "%" <= stripped || "!" <= stripped) <==> MagicCommand(source)
  {
    PrefixChar(LStrip(source));
    if MagicCommand(source) {
      MagicFirst(source);
    } else {
      NoMagicFirst(source);
    }
  }

  /** A magic command shows as the first character after `lstrip()`. */
  lemma MagicFirst(source: string)
    requires MagicCommand(source)
    ensures LStrip(source) != [] && (LStrip(source)[0] == '%' || LStrip(source)[0] == '!')
  {
    var stripped := LStrip(source);
    var k := |source| - |stripped|;
    var k' :| 0 <= k' < |source| && (source[k'] == '%' || source[k'] == '!')
      && forall j :: 0 <= j < k' ==> IsSpace(source[j]);
    assert !IsSpace(source[k']);
    assert k' >= k;
    assert stripped != [] && stripped[0] == source[k];
  }

  /** Without a magic command, the first character after `lstrip()` is neither `%` nor `!`. */
  lemma NoMagicFirst(source: string)
    requires !MagicCommand(source)
    ensures !(LStrip(source) != [] && (LStrip(source)[0] == '%' || LStrip(source)[0] == '!'))
  {
    var stripped := LStrip(source);
    var k := |source| - |stripped|;
    if stripped != [] {
      assert stripped[0] == source[k];
    }
  }

  /** Starting with `%%`, `%` or `!` is starting with the character `%` or `!`. */
  lemma PrefixChar(s: string)
    ensures ("%%" <= s || "%" <= s || "!" <= s) <==> (s != [] && (s[0] == '%' || s[0] == '!'))
  {
    if s != [] && (s[0] == '%' || s[0] == '!') {
      assert s[..1] == [s[0]];
    }
  }

  /** One imported name of an `import` or `from ... import` statement, with its `as` name. */
  datatype ImportedName = ImportedName(name: string, asname: Option<string>)

  /** A top-level statement, as far as alias extraction looks at it. */
  datatype Stmt =
    | Import(names: seq<ImportedName>)
      /** `from module import ...`; the module name is None for `from . import ...`. */
    | ImportFrom(moduleName: Option<string>, names: seq<ImportedName>)
    | OtherStmt

  /** The result of `ast.parse(source)`. */
  datatype ParsedSource = Unparsable | Parsed(body: seq<Stmt>)

  /** `alias.asname or alias.name`. */
  function BoundName(n: ImportedName): string
  {
    if n.asname.Some? && n.asname.value != [] then n.asname.value else n.name
  }

  /** The `aliases[name] = module` assignments one top-level statement makes, in order. */
  function StmtBindings(s: Stmt): (r: seq<(string, string)>)
    ensures s.Import? ==> |r| == |s.names| && forall j :: 0 <= j < |r| ==> r[j] == (BoundName(s.names[j]), s.names[j].name)
    ensures s.ImportFrom? && s.moduleName.Some? ==> |r| == |s.names| && forall j :: 0 <= j < |r| ==> r[j] == (BoundName(s.names[j]), s.moduleName.value)
    ensures s.OtherStmt? || (s.ImportFrom? && s.moduleName.None?) ==> r == []
  {
    match s
    case Import(names) => seq(|names|, j requires 0 <= j < |names| => (BoundName(names[j]), names[j].name))
    case ImportFrom(moduleName, names) =>
      if moduleName.None? then []
      else seq(|names|, j requires 0 <= j < |names| => (BoundName(names[j]), moduleName.value))
    case OtherStmt => []
  }

  /** All assignments the loop of `_extract_import_aliases` makes, in order. */
  function Bindings(body: seq<Stmt>): seq<(string, string)>
    decreases |body|
  {
    if body == [] then [] else Bindings(body[..|body| - 1]) + StmtBindings(body[|body| - 1])
  }

  /** `_extract_import_aliases(source)` for the parse result of `source`. */
  function ImportAliases(tree: ParsedSource): map<string, string>
  {
    if tree.Unparsable? then map[] else Dicts.FromPairs(Bindings(tree.body))
  }

  /** The `j`-th name of top-level statement `i` binds `name` to the module `source`. */
  ghost predicate Binds(body: seq<Stmt>, i: int, j: int, name: string, source: string)
  {
    0 <= i < |body| && 0 <= j < |StmtBindings(body[i])| && StmtBindings(body[i])[j] == (name, source)
  }

  /** The number of assignments the first `i` top-level statements make. */
  ghost function Offset(body: seq<Stmt>, i: nat): nat
    requires i <= |body|
  {
    |Bindings(body[..i])|
  }

  /** The `j`-th name of top-level statement `i` makes an assignment. */
  ghost predicate Slot(body: seq<Stmt>, i: int, j: int)
  {
    0 <= i < |body| && 0 <= j < |StmtBindings(body[i])|
  }

  /** Dropping the last statement drops its assignments from the end. */
  lemma BindingsInit(body: seq<Stmt>)
    requires body != []
    ensures Bindings(body) == Bindings(body[..|body| - 1]) + StmtBindings(body[|body| - 1])
  {
  }

  /** Where the `j`-th assignment of statement `i` lands in the flattened sequence. */
  lemma {:induction false} BindingsIndex(body: seq<Stmt>, i: nat, j: nat)
    requires Slot(body, i, j)
    ensures Offset(body, i) + j < |Bindings(body)|
    ensures Bindings(body)[Offset(body, i) + j] == StmtBindings(body[i])[j]
    decreases |body|
  {
    var init := body[..|body| - 1];
    if i < |body| - 1 {
      assert Slot(init, i, j) by { assert init[i] == body[i]; }
      BindingsIndex(init, i, j);
      BindingsIndexInit(body, i, j);
    } else {
      BindingsIndexLast(body, j);
    }
  }

  /** An assignment of an earlier statement keeps its place when a statement is added. */
  lemma BindingsIndexInit(body: seq<Stmt>, i: nat, j: nat)
    requires Slot(body, i, j) && i < |body| - 1
    requires var init := body[..|body| - 1];
      Offset(init, i) + j < |Bindings(init)| && Bindings(init)[Offset(init, i) + j] == StmtBindings(body[i])[j]
    ensures Offset(body, i) + j < |Bindings(body)|
    ensures Bindings(body)[Offset(body, i) + j] == StmtBindings(body[i])[j]
  {
    var init := body[..|body| - 1];
    var k := Offset(init, i) + j;
    OffsetInit(body, i);
    BindingsInit(body);
    ConcatAt(Bindings(body), Bindings(init), StmtBindings(body[|body| - 1]), k, StmtBindings(body[i])[j]);
  }

  /** An element of the left part of a concatenation, found in the whole. */
  lemma ConcatAt<T>(w: seq<T>, a: seq<T>, b: seq<T>, k: nat, x: T)
    requires w == a + b && k < |a| && a[k] == x
    ensures k < |w| && w[k] == x
  {
  }

  /** Dropping the last statement does not move the assignments before statement `i`. */
  lemma OffsetInit(body: seq<Stmt>, i: nat)
    requires i < |body|
    ensures Offset(body[..|body| - 1], i) == Offset(body, i)
  {
    assert body[..|body| - 1][..i] == body[..i];
  }

  /** The assignments of the last statement come after all the others. */
  lemma BindingsIndexLast(body: seq<Stmt>, j: nat)
    requires body != [] && Slot(body, |body| - 1, j)
    ensures Offset(body, |body| - 1) + j < |Bindings(body)|
    ensures Bindings(body)[Offset(body, |body| - 1) + j] == StmtBindings(body[|body| - 1])[j]
  {
    var init := body[..|body| - 1];
    BindingsInit(body);
    assert Offset(body, |body| - 1) == |Bindings(init)|;
    IndexRight(Bindings(init), StmtBindings(body[|body| - 1]), j);
  }

  /** Indexing the right part of a concatenation. */
  lemma IndexRight<T>(a: seq<T>, b: seq<T>, k: nat)
    requires k < |b|
    ensures |a| + k < |a + b| && (a + b)[|a| + k] == b[k]
  {
  }

  /** Every assignment of the flattened sequence comes from some statement and name. */
  lemma {:induction false} BindingsCover(body: seq<Stmt>, p: nat) returns (i: nat, j: nat)
    requires p < |Bindings(body)|
    ensures Slot(body, i, j) && p == Offset(body, i) + j
    decreases |body|
  {
    var init := body[..|body| - 1];
    BindingsInit(body);
    if p < |Bindings(init)| {
      i, j := BindingsCover(init, p);
      assert init[..i] == body[..i];
    } else {
      i, j := |body| - 1, p - |Bindings(init)|;
      assert init == body[..i];
    }
  }

  /** A later statement's assignments come after all of an earlier statement's. */
  lemma {:induction false} BindingsOrdered(body: seq<Stmt>, i: nat, i': nat)
    requires i < i' <= |body|
    ensures Offset(body, i) + |StmtBindings(body[i])| <= Offset(body, i')
    decreases i' - i
  {
    assert body[..i'][..i' - 1] == body[..i' - 1];
    BindingsInit(body[..i']);
    if i < i' - 1 {
      BindingsOrdered(body, i, i' - 1);
    }
  }

  /** No binding of `name` comes after the `j`-th name of statement `i`. */
  ghost predicate LatestBinding(body: seq<Stmt>, name: string, i: int, j: int)
  {
    forall i', j', m :: Binds(body, i', j', name, m) ==> i' < i || (i' == i && j' <= j)
  }

  /** The last flattened assignment of a name is its lexicographically last binding statement and name. */
  lemma LastBinding(body: seq<Stmt>, name: string, p: nat) returns (i: nat, j: nat)
    requires Dicts.LastAssignment(Bindings(body), name, p)
    ensures Binds(body, i, j, name, Bindings(body)[p].1) && LatestBinding(body, name, i, j)
  {
    i, j := BindingsCover(body, p);
    BindingsIndex(body, i, j);
    forall i', j', m | Binds(body, i', j', name, m)
      ensures i' < i || (i' == i && j' <= j)
    {
      BindingsIndex(body, i', j');
      var p' := Offset(body, i') + j';
      assert Bindings(body)[p'].0 == name;
      assert p' <= p;
      if i < i' {
        BindingsOrdered(body, i, i');
      }
    }
  }

  /**
   * `_extract_import_aliases` maps exactly the names bound by top-level
   * `import` and `from ... import` statements, each to the module of its
   * last binding; a source that does not parse gives `{}`.
   */
  lemma ImportAliasesSpec(tree: ParsedSource)
    ensures tree.Unparsable? ==> ImportAliases(tree) == map[]
    ensures tree.Parsed? ==> forall name :: name in ImportAliases(tree) <==>
      exists i, j, m :: Binds(tree.body, i, j, name, m)
    ensures tree.Parsed? ==> forall name :: name in ImportAliases(tree) ==>
      exists i, j :: Binds(tree.body, i, j, name, ImportAliases(tree)[name]) && LatestBinding(tree.body, name, i, j)
  {
    if tree.Parsed? {
      var body := tree.body;
      var bs := Bindings(body);
      var r := ImportAliases(tree);
      Dicts.FromPairsSpec(bs);
      forall name | name in r
        ensures exists i, j :: Binds(body, i, j, name, r[name]) && LatestBinding(body, name, i, j)
      {
        var p :| Dicts.LastAssignment(bs, name, p) && bs[p].1 == r[name];
        var i, j := LastBinding(body, name, p);
      }
      forall name | exists i, j, m :: Binds(body, i, j, name, m)
        ensures name in r
      {
        var i, j, m :| Binds(body, i, j, name, m);
        BindingsIndex(body, i, j);
      }
    }
  }

  /** One more `aliases[name] = module` assignment of the statement being scanned. */
  lemma AssignStep(done: seq<(string, string)>, sb: seq<(string, string)>, j: nat)
    requires j < |sb|
    ensures Dicts.FromPairs(done + sb[..j + 1]) == Dicts.FromPairs(done + sb[..j])[sb[j].0 := sb[j].1]
  {
    Dicts.FromPairsSnoc(done + sb[..j], sb[j]);
    assert done + sb[..j + 1] == (done + sb[..j]) + [sb[j]];
  }

  /** `_extract_import_aliases` as build_site.py writes it: a loop over the top-level statements. */
  method ExtractImportAliases(tree: ParsedSource) returns (aliases: map<string, string>)
    ensures aliases == ImportAliases(tree)
  {
    aliases := map[];
    if tree.Unparsable? {
      return;
    }
    var body := tree.body;
    for i := 0 to |body|
      invariant aliases == Dicts.FromPairs(Bindings(body[..i]))
    {
      assert body[..i + 1][..i] == body[..i];
      var done := Bindings(body[..i]);
      var sb := StmtBindings(body[i]);
      assert Bindings(body[..i + 1]) == done + sb;
      assert done + sb[..0] == done;
      match body[i] {
        case Import(names) =>
          for j := 0 to |names|
            invariant aliases == Dicts.FromPairs(done + sb[..j])
          {
            AssignStep(done, sb, j);
            aliases := aliases[BoundName(names[j]) := names[j].name];
          }
        case ImportFrom(moduleName, names) =>
          if moduleName.None? {
            continue;
          }
          for j := 0 to |names|
            invariant aliases == Dicts.FromPairs(done + sb[..j])
          {
            AssignStep(done, sb, j);
            aliases := aliases[BoundName(names[j]) := moduleName.value];
          }
        case OtherStmt =>
      }
      assert sb[..|sb|] == sb;
    }
    assert body[..|body|] == body;
  }
}
