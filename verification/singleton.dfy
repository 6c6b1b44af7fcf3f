/** The `Singleton` metaclass of test.py and of the example
    Documentation/Beispielprogramme/meta_printer.py. One `Counter`, shared by
    every class built with the metaclass, counts constructions per class;
    the instance is built (and its `__new__` and `__init__` run) before the
    count is updated and compared with a threshold: 1 in test.py, 2 in
    meta_printer.py. */
module Singleton {
  import Utils

  /** A class, by name. */
  type ClassId = string

  const TestThreshold: nat := 1
  const MetaPrinterThreshold: nat := 2

  /** The metaclass attribute `counter`, and the classes whose instance
      initialisation has run at least once (in test.py `__init__` sets
      `_created`, in meta_printer.py `__new__` installs `__call__`). */
  datatype Registry = Registry(threshold: nat, counter: map<ClassId, nat>, initialised: set<ClassId>)

  function Fresh(threshold: nat): Registry {
    Registry(threshold, map[], {})
  }

  /** `counter[c]`: a `Counter` reads 0 for a missing key. */
  function Count(g: Registry, c: ClassId): nat {
    if c in g.counter then g.counter[c] else 0
  }

  /** `Singleton.__call__` for class `c`. */
  function Construct(g: Registry, c: ClassId): (r: (Registry, Utils.Construction))
    ensures Count(r.0, c) == Count(g, c) + 1
    ensures forall d :: d != c ==> Count(r.0, d) == Count(g, d)
    ensures r.1 == Utils.ResourceWarning <==> Count(g, c) + 1 > g.threshold
    ensures c in r.0.initialised && r.0.initialised == g.initialised + {c}
    ensures r.0.threshold == g.threshold
  {
    var g1 := g.(initialised := g.initialised + {c});
    var g2 := g1.(counter := g1.counter[c := Count(g1, c) + 1]);
    (g2, if Count(g2, c) > g.threshold then Utils.ResourceWarning else Utils.Created)
  }

  /** The effects of constructing the classes `cs` one after another, each
      raising or not. */
  function ConstructAll(g: Registry, cs: seq<ClassId>): (r: (Registry, seq<Utils.Construction>))
    ensures |r.1| == |cs| && r.0.threshold == g.threshold
    ensures forall d :: Count(r.0, d) == Count(g, d) + multiset(cs)[d]
    decreases |cs|
  {
    if |cs| == 0 then (g, [])
    else
      var (g1, o) := Construct(g, cs[0]);
      var (g2, os) := ConstructAll(g1, cs[1..]);
      assert cs == [cs[0]] + cs[1..];
      (g2, [o] + os)
  }

  lemma PrefixCount(cs: seq<ClassId>, i: nat)
    requires 0 < i < |cs|
    ensures multiset(cs[..i])[cs[i]] == (if cs[0] == cs[i] then 1 else 0) + multiset(cs[1..][..i - 1])[cs[i]]
  {
    assert cs[..i] == [cs[0]] + cs[1..][..i - 1];
  }

  /** In any sequence of constructions, the i-th raises exactly when the
      constructions of the same class so far, this one included, exceed the
      threshold; other classes do not matter. */
  lemma {:induction false} ConstructAllOutcomes(g: Registry, cs: seq<ClassId>)
    ensures var r := ConstructAll(g, cs);
            forall i :: 0 <= i < |cs| ==>
              (r.1[i] == Utils.ResourceWarning <==> Count(g, cs[i]) + multiset(cs[..i])[cs[i]] + 1 > g.threshold)
    decreases |cs|
  {
    if |cs| > 0 {
      var (g1, o) := Construct(g, cs[0]);
      ConstructAllOutcomes(g1, cs[1..]);
      var r := ConstructAll(g, cs);
      assert r.1 == [o] + ConstructAll(g1, cs[1..]).1;
      forall i | 0 <= i < |cs|
        ensures r.1[i] == Utils.ResourceWarning <==> Count(g, cs[i]) + multiset(cs[..i])[cs[i]] + 1 > g.threshold
      {
        if i > 0 {
          PrefixCount(cs, i);
          assert cs[1..][i - 1] == cs[i];
          assert r.1[i] == ConstructAll(g1, cs[1..]).1[i - 1];
        }
      }
    }
  }

  /** Constructing one class `n` times from a fresh counter: the first
      `threshold` constructions succeed and all later ones raise. */
  lemma FirstConstructionsSucceed(threshold: nat, c: ClassId, n: nat)
    ensures var r := ConstructAll(Fresh(threshold), seq(n, _ => c));
            forall i :: 0 <= i < n ==> (r.1[i] == Utils.Created <==> i < threshold)
  {
    var cs := seq(n, _ => c);
    ConstructAllOutcomes(Fresh(threshold), cs);
    forall i | 0 <= i < n
      ensures multiset(cs[..i])[c] == i
    {
      CountOfRepeated(c, i);
      assert cs[..i] == seq(i, _ => c);
    }
  }

  lemma {:induction false} CountOfRepeated(c: ClassId, n: nat)
    ensures multiset(seq(n, _ => c))[c] == n
    decreases n
  {
    if n > 0 {
      CountOfRepeated(c, n - 1);
      assert seq(n, _ => c) == seq(n - 1, _ => c) + [c];
    }
  }

  /** The counter is updated also by a construction that raises, so once a
      class raises it raises forever. */
  lemma OnceRaisingAlwaysRaising(g: Registry, c: ClassId)
    requires Construct(g, c).1 == Utils.ResourceWarning
    ensures Construct(Construct(g, c).0, c).1 == Utils.ResourceWarning
  {
  }

  /** Constructing one class never changes whether another class can be
      constructed. */
  lemma OtherClassesUnaffected(g: Registry, c: ClassId, d: ClassId)
    requires c != d
    ensures Construct(Construct(g, c).0, d).1 == Construct(g, d).1
  {
  }

  /** The instance is initialised before the check: a raising construction
      still runs `__init__` (and `__new__`). */
  lemma InitialisationPrecedesCheck(g: Registry, c: ClassId)
    ensures Construct(g, c).1 == Utils.ResourceWarning ==> c in Construct(g, c).0.initialised
  {
  }

  /** test.py: `printer = _ParallelPrint()` succeeds on a fresh counter, and
      a second construction raises although `_created` is set again. */
  lemma TestScript(c: ClassId)
    ensures Construct(Fresh(TestThreshold), c).1 == Utils.Created
    ensures Construct(Construct(Fresh(TestThreshold), c).0, c).1 == Utils.ResourceWarning
  {
  }

  /** meta_printer.py: calling the instance is `print_.put`, installed on the
      class by `__new__` before the first instance exists. */
  function CallMetaPrinter<T>(q: Utils.PrintQueue<T>, value: T): (r: Utils.PrintQueue<T>)
    ensures r.pending == q.pending + [value] && r.printed == q.printed
  {
    Utils.Put(q, value)
  }

  /** meta_printer.py lines 40 to 42: the construction succeeds, and
      `printer("test")` leaves "test" waiting to be printed; a second
      instance would also be allowed, a third raises. */
  lemma MetaPrinterScript(c: ClassId)
    ensures Construct(Fresh(MetaPrinterThreshold), c).1 == Utils.Created
    ensures CallMetaPrinter(Utils.EmptyQueue(), "test").pending == ["test"]
    ensures var g1 := Construct(Fresh(MetaPrinterThreshold), c).0;
            Construct(g1, c).1 == Utils.Created && Construct(Construct(g1, c).0, c).1 == Utils.ResourceWarning
  {
  }
}
