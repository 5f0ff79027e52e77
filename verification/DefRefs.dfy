/** The "#/$defs/<name>" references of a schema and the graph they span. */
module DefRefs {
  import opened Wrappers
  import opened JsonValue

  const PREFIX := "#/$defs/"

  /** The definition named by a local reference (jsonschema/transform.go, defName). */
  function DefName(ref: string): (r: Option<string>)
    ensures r.Some? <==> PREFIX <= ref
    ensures r.Some? ==> PREFIX + r.value == ref
  {
    if PREFIX <= ref then Some(ref[|PREFIX|..]) else None
  }

  /** The name the node itself refers to, if its "$ref" is a local definition pointer. */
  function OwnRef(m: Object): (r: Option<string>)
  {
    if "$ref" in m && m["$ref"].Str? then DefName(m["$ref"].s) else None
  }

  function OwnRefs(m: Object): (r: set<string>)
  {
    if OwnRef(m).Some? then {OwnRef(m).value} else {}
  }

  /** Every name referred to anywhere within a value. */
  function Refs(j: Value): (r: set<string>)
  {
    match j
    case Obj(m) => OwnRefs(m) + (set k, n | k in m && n in Refs(m[k]) :: n)
    case Arr(a) => set i, n | 0 <= i < |a| && n in Refs(a[i]) :: n
    case _ => {}
  }

  /** collectDefRefs: adds the references of a value to a set, children in any order. */
  method CollectDefRefs(j: Value, used: set<string>) returns (out: set<string>)
    ensures out == used + Refs(j)
  {
    out := used;
    match j
    case Obj(m) =>
      if "$ref" in m && m["$ref"].Str? {
        var name := DefName(m["$ref"].s);
        if name.Some? {
          out := out + {name.value};
        }
      }
      var todo := m.Keys;
      while todo != {}
        invariant todo <= m.Keys
        invariant forall n :: n in out <==>
                    n in used || n in OwnRefs(m) || exists k :: k in m && k !in todo && n in Refs(m[k])
      {
        var k :| k in todo;
        out := CollectDefRefs(m[k], out);
        todo := todo - {k};
      }
    case Arr(a) =>
      for i := 0 to |a|
        invariant forall n :: n in out <==> n in used || exists l :: 0 <= l < i && n in Refs(a[l])
      {
        out := CollectDefRefs(a[i], out);
      }
    case _ =>
  }

  // ---- The reference graph of a "$defs" section ----

  ghost predicate Edge(defs: Object, a: string, b: string) {
    a in defs && b in Refs(defs[a])
  }

  /** A chain of references from p[0] to its last name. */
  ghost predicate Chain(defs: Object, p: seq<string>) {
    |p| > 0 && forall i :: 0 <= i < |p| - 1 ==> Edge(defs, p[i], p[i + 1])
  }

  ghost predicate ChainFromTo(defs: Object, p: seq<string>, a: string, b: string) {
    Chain(defs, p) && p[0] == a && p[|p| - 1] == b
  }

  /** b is reached from a by zero or more references. */
  ghost predicate Reaches(defs: Object, a: string, b: string) {
    exists p :: ChainFromTo(defs, p, a, b)
  }

  /** b is reached from a by one or more references. */
  ghost predicate ReachesPlus(defs: Object, a: string, b: string) {
    exists p :: ChainFromTo(defs, p, a, b) && |p| > 1
  }

  ghost predicate Acyclic(defs: Object) {
    forall n :: n in defs ==> !ReachesPlus(defs, n, n)
  }

  lemma ReachesSelf(defs: Object, a: string)
    ensures Reaches(defs, a, a)
  {
    assert ChainFromTo(defs, [a], a, a);
  }

  lemma ReachesStep(defs: Object, a: string, b: string, c: string)
    requires Reaches(defs, a, b) && Edge(defs, b, c)
    ensures Reaches(defs, a, c) && ReachesPlus(defs, a, c)
  {
    var p :| ChainFromTo(defs, p, a, b);
    assert ChainFromTo(defs, p + [c], a, c);
  }

  lemma StepReaches(defs: Object, a: string, b: string, c: string)
    requires Edge(defs, a, b) && Reaches(defs, b, c)
    ensures Reaches(defs, a, c) && ReachesPlus(defs, a, c)
  {
    var p :| ChainFromTo(defs, p, b, c);
    assert ChainFromTo(defs, [a] + p, a, c);
  }

  /** A set of names closed under references out of it. */
  ghost predicate Closed(defs: Object, names: set<string>) {
    forall a, b :: a in names && Edge(defs, a, b) ==> b in names
  }

  /** A closed set that holds the start of a chain holds all of it. */
  lemma {:induction false} ClosedHoldsChain(defs: Object, names: set<string>, p: seq<string>, i: nat)
    requires Closed(defs, names) && Chain(defs, p) && p[0] in names && i < |p|
    ensures p[i] in names
  {
    if i > 0 {
      ClosedHoldsChain(defs, names, p, i - 1);
      assert Edge(defs, p[i - 1], p[i - 1 + 1]);
    }
  }

  lemma ClosedHoldsReached(defs: Object, names: set<string>, a: string, b: string)
    requires Closed(defs, names) && a in names && Reaches(defs, a, b)
    ensures b in names
  {
    var p :| ChainFromTo(defs, p, a, b);
    ClosedHoldsChain(defs, names, p, |p| - 1);
  }

  /** Every name a definition graph can mention. */
  ghost function Universe(defs: Object): (r: set<string>) {
    defs.Keys + Refs(Obj(defs))
  }

  lemma UniverseClosed(defs: Object)
    ensures forall a, b :: Edge(defs, a, b) ==> a in Universe(defs) && b in Universe(defs)
  {
  }

  /** The names reached from a set of seeds. */
  ghost function Closure(defs: Object, seeds: set<string>): (r: set<string>)
  {
    set n | n in seeds + Universe(defs) && exists s :: s in seeds && Reaches(defs, s, n)
  }

  /** Closure holds exactly the names reached from a seed. */
  lemma ClosureHolds(defs: Object, seeds: set<string>, n: string)
    ensures n in Closure(defs, seeds) <==> exists s :: s in seeds && Reaches(defs, s, n)
  {
    forall s | s in seeds && Reaches(defs, s, n)
      ensures n in seeds + Universe(defs)
    {
      UniverseClosed(defs);
      assert Closed(defs, seeds + Universe(defs));
      ClosedHoldsReached(defs, seeds + Universe(defs), s, n);
    }
  }

  lemma ClosureIsClosed(defs: Object, seeds: set<string>)
    ensures seeds <= Closure(defs, seeds) && Closed(defs, Closure(defs, seeds))
  {
    forall s | s in seeds
      ensures s in Closure(defs, seeds)
    {
      ReachesSelf(defs, s);
      ClosureHolds(defs, seeds, s);
    }
    forall a, b | a in Closure(defs, seeds) && Edge(defs, a, b)
      ensures b in Closure(defs, seeds)
    {
      var s :| s in seeds && Reaches(defs, s, a);
      ReachesStep(defs, s, a, b);
      ClosureHolds(defs, seeds, b);
    }
  }

  /** It is the least closed set over the seeds. */
  lemma ClosureIsLeast(defs: Object, seeds: set<string>, c: set<string>)
    requires seeds <= c && Closed(defs, c)
    ensures Closure(defs, seeds) <= c
  {
    forall n | n in Closure(defs, seeds)
      ensures n in c
    {
      var s :| s in seeds && Reaches(defs, s, n);
      ClosedHoldsReached(defs, c, s, n);
    }
  }
}
