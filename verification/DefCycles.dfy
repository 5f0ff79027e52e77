/** Cycle detection over "$defs" by depth-first search with one visited set per start. */
module DefCycles {
  import opened JsonValue
  import opened DefRefs

  /** Nodes entered by a search that found nothing lead only to visited nodes, never back to start. */
  ghost predicate Exhausted(defs: Object, start: string, seen: set<string>, out: set<string>) {
    forall x, y :: x in out && x !in seen && Edge(defs, x, y) ==> y in out && y != start
  }

  /** defReaches: does cur lead back to start?  The visited set is shared by the whole search. */
  method DefReaches(start: string, cur: string, defs: Object, seen: set<string>, first: bool)
    returns (found: bool, out: set<string>)
    ensures seen <= out
    ensures found ==> if first then ReachesPlus(defs, cur, start) else Reaches(defs, cur, start)
    ensures !found ==> cur in out && Exhausted(defs, start, seen, out)
    decreases |Universe(defs) - seen|
  {
    out := seen;
    if !first && cur == start {
      ReachesSelf(defs, cur);
      return true, out;
    }
    if cur in out {
      return false, out;
    }
    out := out + {cur};
    var refs: set<string> := {};
    if cur in defs {
      refs := CollectDefRefs(defs[cur], refs);
      assert Universe(defs) - out == (Universe(defs) - seen) - {cur};
    }
    var todo := refs;
    while todo != {}
      invariant todo <= refs && seen + {cur} <= out
      invariant forall n :: n in refs && n !in todo ==> n in out && n != start
      invariant Exhausted(defs, start, seen + {cur}, out)
      invariant cur in defs ==> |Universe(defs) - out| < |Universe(defs) - seen|
    {
      var next :| next in todo;
      todo := todo - {next};
      assert Edge(defs, cur, next);
      if next == start {
        ReachesSelf(defs, start);
        StepReaches(defs, cur, next, start);
        return true, out;
      }
      ghost var before := out;
      found, out := DefReaches(start, next, defs, out, false);
      ShrinksWith(Universe(defs), before, out);
      if found {
        StepReaches(defs, cur, next, start);
        return true, out;
      }
    }
    return false, out;
  }

  lemma ShrinksWith(u: set<string>, a: set<string>, b: set<string>)
    requires a <= b
    ensures |u - b| <= |u - a|
  {
    assert u - a == (u - b) + ((u - a) * b);
  }

  /** hasCircularDefRef: true exactly when some definition reaches itself, in whatever order
      the definitions and their references are visited. */
  method HasCircularDefRef(defs: Object) returns (circular: bool)
    ensures circular <==> !Acyclic(defs)
  {
    var todo := defs.Keys;
    while todo != {}
      invariant todo <= defs.Keys
      invariant forall n :: n in defs && n !in todo ==> !ReachesPlus(defs, n, n)
    {
      var name :| name in todo;
      var found, out := DefReaches(name, name, defs, {}, true);
      if found {
        return true;
      }
      NoWayBack(defs, name, out);
      todo := todo - {name};
    }
    return false;
  }

  lemma NoWayBack(defs: Object, start: string, out: set<string>)
    requires start in out && Exhausted(defs, start, {}, out)
    ensures !ReachesPlus(defs, start, start)
  {
    if ReachesPlus(defs, start, start) {
      var p :| ChainFromTo(defs, p, start, start) && |p| > 1;
      var i := |p| - 2;
      assert Edge(defs, p[i], p[i + 1]);
      ClosedHoldsChain(defs, out, p, i);
    }
  }
}
