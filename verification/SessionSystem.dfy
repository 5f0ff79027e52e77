/** Client and server joined by two first-in first-out wires. */
module SessionSystem {
  import opened Wrappers
  import opened Messages
  import opened Counting
  import C = ClientTransport
  import S = ServerSession

  datatype System = System(c: C.Client, s: S.Server, up: seq<Msg>, down: seq<Msg>)

  const INIT := System(C.INIT, S.INIT, [], [])

  datatype Action = OnClient(c: C.Action) | OnServer(s: S.Action)

  /** Each side reads only what heads the wire towards it. */
  predicate Enabled(y: System, a: Action) {
    match a
    case OnClient(x) => C.Enabled(y.c, x) && (x.Read? ==> y.down != [] && x.m == y.down[0])
    case OnServer(x) => S.Enabled(y.s, x) && (x.Read? ==> y.up != [] && x.m == y.up[0])
  }

  function Step(y: System, a: Action): (r: System)
    requires Enabled(y, a)
  {
    match a
    case OnClient(x) =>
      System(C.Step(y.c, x), y.s, y.up + C.Output(y.c, x), if x.Read? then y.down[1..] else y.down)
    case OnServer(x) =>
      System(y.c, S.Step(y.s, x), if x.Read? then y.up[1..] else y.up, y.down + S.Output(y.s, x))
  }

  function After(acts: seq<Action>): (r: Option<System>)
  {
    if acts == [] then Some(INIT)
    else
      var before := After(acts[..|acts| - 1]);
      var a := acts[|acts| - 1];
      if before.Some? && Enabled(before.value, a) then Some(Step(before.value, a)) else None
  }

  ghost predicate HalvesInv(y: System) {
    C.Inv(y.c) && S.Inv(y.s)
  }

  lemma {:induction false} HalvesHold(acts: seq<Action>)
    requires After(acts).Some?
    ensures HalvesInv(After(acts).value)
  {
    if acts != [] {
      var before := acts[..|acts| - 1];
      HalvesHold(before);
      match acts[|acts| - 1]
      case OnClient(x) => C.StepKeepsInv(After(before).value.c, x);
      case OnServer(x) => S.StepKeepsInv(After(before).value.s, x);
    }
  }

  /** Messages on a wire that ask under an id, or answer it. */
  function Asks(id: Id): (p: Msg -> bool) {
    (m: Msg) => m.Request? && m.id == id
  }

  function Tells(id: Id): (p: Msg -> bool) {
    (m: Msg) => m.Response? && m.id == id
  }

  lemma CountHead(ms: seq<Msg>, p: Msg -> bool)
    requires ms != []
    ensures Count(ms, p) == Count(ms[1..], p) + if p(ms[0]) then 1 else 0
  {
    CountAppend(ms[..1], ms[1..], p);
    assert ms == ms[..1] + ms[1..];
    assert ms[..1][..0] == [] && Count(ms[..1], p) == if p(ms[0]) then 1 else 0;
  }

  lemma CountOutput(out: seq<Msg>, p: Msg -> bool)
    requires |out| <= 1
    ensures Count(out, p) == if |out| == 1 && p(out[0]) then 1 else 0
  {
    assert out != [] ==> out[..|out| - 1] == [];
  }

  /** Adding to one end of a wire and taking from the other, as each step does. */
  lemma WireStep(y: System, a: Action, p: Msg -> bool)
    requires Enabled(y, a)
    ensures var r := Step(y, a);
      match a
      case OnClient(x) =>
        && Count(r.up, p) == Count(y.up, p) + Count(C.Output(y.c, x), p)
        && Count(r.down, p) + (if x.Read? && p(x.m) then 1 else 0) == Count(y.down, p)
      case OnServer(x) =>
        && Count(r.down, p) == Count(y.down, p) + Count(S.Output(y.s, x), p)
        && Count(r.up, p) + (if x.Read? && p(x.m) then 1 else 0) == Count(y.up, p)
  {
    match a
    case OnClient(x) =>
      CountAppend(y.up, C.Output(y.c, x), p);
      if x.Read? {
        CountHead(y.down, p);
      }
    case OnServer(x) =>
      CountAppend(y.down, S.Output(y.s, x), p);
      if x.Read? {
        CountHead(y.up, p);
      }
  }
}
