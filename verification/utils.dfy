/** utils.py: `absolute_path` and the thread-safe printer `_ParallelPrint`.
    The printer's thread is replaced by an explicit consumer step, and the
    queue by the sequence of values put and not yet taken. */
module Utils {
  import opened PyText

  /** A POSIX `pathlib` path: whether it is rooted, and its components.
      `pathlib` drops empty and `.` components when it parses a path. */
  datatype Path = Path(rooted: bool, parts: seq<string>)

  predicate ProperPart(p: string) {
    p != "" && p != "."
  }

  predicate Normal(p: Path) {
    forall i :: 0 <= i < |p.parts| ==> ProperPart(p.parts[i])
  }

  /** `pathlib.PurePosixPath(text)`. */
  function ParsePath(text: string): (p: Path)
    ensures Normal(p)
    ensures p.rooted <==> |text| > 0 && text[0] == '/'
    ensures forall i :: 0 <= i < |p.parts| ==> '/' !in p.parts[i]
    ensures forall x :: multiset(p.parts)[x] == if ProperPart(x) then multiset(Split(text, '/'))[x] else 0
  {
    var parts := Filter(Split(text, '/'), ProperPart);
    SplitPartsFree(text, '/');
    forall i | 0 <= i < |parts|
      ensures '/' !in parts[i]
    {
      assert parts[i] in Split(text, '/');
    }
    forall i | 0 <= i < |parts|
      ensures ProperPart(parts[i])
    {
      assert parts[i] in parts;
    }
    Path(|text| > 0 && text[0] == '/', parts)
  }

  /** `str(path)`: the components joined by `/`, after a leading `/` when
      the path is rooted; an empty relative path prints as `.`. */
  function PathText(p: Path): string {
    if |p.parts| == 0 then (if p.rooted then "/" else ".")
    else (if p.rooted then "/" else "") + Join(p.parts, '/')
  }

  /** Parsing the printed form of a path gives the path back, when its
      components are proper and hold no `/`. */
  lemma ParsePathText(p: Path)
    requires Normal(p) && forall i :: 0 <= i < |p.parts| ==> '/' !in p.parts[i]
    ensures ParsePath(PathText(p)) == p
  {
    if |p.parts| == 0 {
      EmptyPathText(p.rooted);
    } else {
      SplitJoin(p.parts, '/');
      FilterKeepsAll(p.parts, ProperPart);
      var text := PathText(p);
      if p.rooted {
        RootedPathText(p.parts);
        var split := [""] + p.parts;
        assert split[0] == "" && split[1..] == p.parts;
        assert Filter(split, ProperPart) == p.parts;
        assert ParsePath(text) == Path(true, p.parts);
      } else {
        var joined := Join(p.parts, '/');
        assert text == "" + joined == joined;
        JoinStartsWith(p.parts, '/');
        assert p.parts[0] in p.parts;
        assert text[0] != '/';
        assert Filter(Split(text, '/'), ProperPart) == p.parts;
      }
    }
  }

  lemma EmptyPathText(rooted: bool)
    ensures ParsePath(PathText(Path(rooted, []))) == Path(rooted, [])
  {
    var text := PathText(Path(rooted, []));
    assert text[1..] == "" && Split("", '/') == [""];
    if rooted {
      assert text[0] == '/';
    } else {
      assert text[0] == '.';
    }
  }

  lemma RootedPathText(parts: seq<string>)
    requires |parts| >= 1
    ensures Split("/" + Join(parts, '/'), '/') == [""] + Split(Join(parts, '/'), '/')
  {
    var text := "/" + Join(parts, '/');
    assert text[0] == '/' && text[1..] == Join(parts, '/');
  }

  lemma JoinStartsWith(parts: seq<string>, sep: char)
    requires |parts| >= 1
    ensures parts[0] <= Join(parts, sep)
  {
  }

  /** `base / relative`: a rooted right-hand side replaces the left one. */
  function JoinPath(base: Path, relative: Path): (r: Path)
    ensures relative.rooted ==> r == relative
    ensures !relative.rooted ==> && r.rooted == base.rooted
                                 && |r.parts| == |base.parts| + |relative.parts|
                                 && r.parts[..|base.parts|] == base.parts
                                 && r.parts[|base.parts|..] == relative.parts
  {
    if relative.rooted then relative else Path(base.rooted, base.parts + relative.parts)
  }

  /** `absolute_path(relative_path)`: the directory of utils.py joined with
      the given path. */
  function AbsolutePath(sourceDir: string, relativePath: string): (r: Path)
    ensures Normal(r)
  {
    JoinPath(ParsePath(sourceDir), ParsePath(relativePath))
  }

  /** Joining is associative and the empty relative path changes nothing,
      so resolving a path step by step gives the same result. */
  lemma JoinPathLaws(a: Path, b: Path, c: Path)
    ensures JoinPath(JoinPath(a, b), c) == JoinPath(a, JoinPath(b, c))
    ensures JoinPath(a, Path(false, [])) == a
  {
    if !b.rooted && !c.rooted {
      assert (a.parts + b.parts) + c.parts == a.parts + (b.parts + c.parts);
    }
    assert a.parts + [] == a.parts;
  }

  /** A relative path resolves under the source directory; a rooted one is
      taken as it is. */
  lemma AbsolutePathPlacement(sourceDir: string, relativePath: string)
    ensures var r := AbsolutePath(sourceDir, relativePath);
            && (|relativePath| > 0 && relativePath[0] == '/' ==> r == ParsePath(relativePath))
            && (!(|relativePath| > 0 && relativePath[0] == '/') ==>
                  r.rooted == ParsePath(sourceDir).rooted
                  && r.parts == ParsePath(sourceDir).parts + ParsePath(relativePath).parts)
  {
  }

  /** The class-level queue `print_` with its consumer: values put and not
      yet taken, values printed, and `task_done` calls. */
  datatype PrintQueue<T> = PrintQueue(pending: seq<T>, printed: seq<T>, tasksDone: nat)

  function EmptyQueue<T>(): PrintQueue<T> {
    PrintQueue([], [], 0)
  }

  /** `parallel_print(value)`, i.e. `print_.put(value)`. */
  function Put<T>(q: PrintQueue<T>, value: T): (r: PrintQueue<T>)
    ensures r.pending == q.pending + [value] && r.printed == q.printed && r.tasksDone == q.tasksDone
  {
    q.(pending := q.pending + [value])
  }

  /** One turn of the loop in `run`: `get()` the oldest value, print it and
      call `task_done()`. On an empty queue `get()` blocks and nothing
      happens. */
  function Consume<T>(q: PrintQueue<T>): (r: PrintQueue<T>)
    ensures |q.pending| == 0 ==> r == q
    ensures |q.pending| > 0 ==> r.printed == q.printed + [q.pending[0]] && r.pending == q.pending[1..]
    ensures |q.pending| > 0 ==> r.tasksDone == q.tasksDone + 1
  {
    if |q.pending| == 0 then q
    else PrintQueue(q.pending[1..], q.printed + [q.pending[0]], q.tasksDone + 1)
  }

  /** What was printed followed by what is waiting is everything put, in
      order; `task_done` was called once per printed value. */
  ghost predicate Faithful<T>(q: PrintQueue<T>, puts: seq<T>) {
    q.printed + q.pending == puts && q.tasksDone == |q.printed|
  }

  datatype QueueEvent<T> = PutEvent(value: T) | ConsumeEvent

  function Apply<T>(q: PrintQueue<T>, e: QueueEvent<T>): PrintQueue<T> {
    match e
    case PutEvent(v) => Put(q, v)
    case ConsumeEvent => Consume(q)
  }

  function RunQueue<T>(q: PrintQueue<T>, events: seq<QueueEvent<T>>): PrintQueue<T>
    decreases |events|
  {
    if |events| == 0 then q else RunQueue(Apply(q, events[0]), events[1..])
  }

  /** The values put by a sequence of events. */
  function PutsOf<T>(events: seq<QueueEvent<T>>): seq<T> {
    if |events| == 0 then []
    else (if events[0].PutEvent? then [events[0].value] else []) + PutsOf(events[1..])
  }

  /** Whatever the interleaving of producers and the consumer, values are
      printed in the order they were put (FIFO), each once, with one
      `task_done` per printed value. */
  lemma {:induction false} QueueIsFifo<T>(q: PrintQueue<T>, puts: seq<T>, events: seq<QueueEvent<T>>)
    requires Faithful(q, puts)
    ensures Faithful(RunQueue(q, events), puts + PutsOf(events))
    decreases |events|
  {
    if |events| > 0 {
      var q1 := Apply(q, events[0]);
      var puts1 := puts + if events[0].PutEvent? then [events[0].value] else [];
      if events[0].PutEvent? {
        assert q1.printed + q1.pending == (q.printed + q.pending) + [events[0].value];
      } else if |q.pending| > 0 {
        assert q1.printed + q1.pending == q.printed + ([q.pending[0]] + q.pending[1..]);
        assert [q.pending[0]] + q.pending[1..] == q.pending;
      }
      assert Faithful(q1, puts1);
      QueueIsFifo(q1, puts1, events[1..]);
      assert puts1 + PutsOf(events[1..]) == puts + PutsOf(events);
    }
  }

  /** The class attribute `_created` of `_ParallelPrint`. */
  datatype PrinterClass = PrinterClass(created: bool)

  /** How a construction guarded against a second instance ends: with the
      instance, or by raising `ResourceWarning`. */
  datatype Construction = Created | ResourceWarning

  /** `_ParallelPrint()` on the class: the first construction sets
      `_created`; any later one raises ResourceWarning. */
  function ConstructPrinter(c: PrinterClass): (r: (PrinterClass, Construction))
    ensures r.1 == ResourceWarning <==> c.created
    ensures r.0.created
  {
    if c.created then (c, ResourceWarning) else (PrinterClass(true), Created)
  }

  /** The module-level name `_ParallelPrint` after line 36: first the class,
      then the instance that replaced it. */
  datatype PrinterName = ClassObject(c: PrinterClass) | InstanceObject(c: PrinterClass)

  /** Line 36: `_ParallelPrint = _ParallelPrint()`. */
  function ModuleInit(): (n: PrinterName)
    ensures n.InstanceObject? && n.c.created
  {
    var (c, outcome) := ConstructPrinter(PrinterClass(false));
    InstanceObject(c)
  }

  /** Calling what the name is bound to: the class constructs, the instance's
      `__call__` always raises. */
  function CallName(n: PrinterName): (r: (PrinterName, Construction))
    ensures n.InstanceObject? ==> r == (n, ResourceWarning)
  {
    match n
    case ClassObject(c) =>
      var (c1, outcome) := ConstructPrinter(c);
      (ClassObject(c1), outcome)
    case InstanceObject(c) => (n, ResourceWarning)
  }

  /** Only the very first construction succeeds: after module initialisation
      every call of the name and every construction of the class raises. */
  lemma OnlyOnePrinter()
    ensures CallName(ModuleInit()).1 == ResourceWarning
    ensures ConstructPrinter(ModuleInit().c).1 == ResourceWarning
    ensures ConstructPrinter(PrinterClass(false)).1 == Created
    ensures ConstructPrinter(ConstructPrinter(PrinterClass(false)).0).1 == ResourceWarning
  {
  }
}
