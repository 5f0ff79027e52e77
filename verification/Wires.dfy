/** What each side writes, told from its steps alone, and that the other side reads it in that order. */
module Wires {
  import opened Wrappers
  import opened Messages
  import opened SessionSystem
  import opened SessionOutcomes
  import C = ClientTransport
  import S = ServerSession
  import CallHistories
  import RequestHistories

  // ---- What the client writes ----

  /** The messages a client reads, in order. */
  function Inbound(acts: seq<C.Action>): (r: seq<Msg>)
  {
    if acts == [] then []
    else
      var a := acts[|acts| - 1];
      Inbound(acts[..|acts| - 1]) + if a.Read? then [a.m] else []
  }

  function Requests(ms: seq<Msg>): (r: seq<Msg>)
    ensures forall i :: 0 <= i < |r| ==> r[i].Request?
  {
    if ms == [] then [] else Requests(ms[..|ms| - 1]) + if ms[|ms| - 1].Request? then [ms[|ms| - 1]] else []
  }

  function Asked(serving: seq<C.Serve>): (r: seq<Msg>) {
    seq(|serving|, j requires 0 <= j < |serving| => Request(serving[j].id, serving[j].body))
  }

  lemma RequestsSnoc(ms: seq<Msg>, m: Msg)
    ensures Requests(ms + [m]) == Requests(ms) + if m.Request? then [m] else []
  {
    assert (ms + [m])[..|ms|] == ms;
  }

  lemma AskedStep(c: C.Client, a: C.Action)
    requires C.Enabled(c, a)
    ensures Asked(C.Step(c, a).serving) == Asked(c.serving) + if a.Read? && a.m.Request? then [a.m] else []
  {
  }

  /** Every request read is served by one goroutine, in the order they were read. */
  lemma {:induction false} ServingAreRequests(acts: seq<C.Action>)
    requires C.After(acts).Some?
    ensures Asked(C.After(acts).value.serving) == Requests(Inbound(acts))
  {
    if acts != [] {
      var before, a := acts[..|acts| - 1], acts[|acts| - 1];
      ServingAreRequests(before);
      AskedStep(C.After(before).value, a);
      if a.Read? {
        RequestsSnoc(Inbound(before), a.m);
      } else {
        assert Inbound(before) + [] == Inbound(before);
      }
    }
  }

  /** A call writes its id and the body it was begun with, a notification its body, a reply the id of the
      request it answers. */
  function ClientWrites(before: seq<C.Action>, a: C.Action): (r: seq<Msg>) {
    match a
    case Write(i) => if i < |CallHistories.Begun(before)| then [Request(Cli(i), CallHistories.Begun(before)[i])] else []
    case Notify(body) => [Notice(body)]
    case Reply(j, result) => if j < |Requests(Inbound(before))| then [Response(Requests(Inbound(before))[j].id, result)] else []
    case _ => []
  }

  function ClientWrote(acts: seq<C.Action>): (r: seq<Msg>)
  {
    if acts == [] then [] else ClientWrote(acts[..|acts| - 1]) + ClientWrites(acts[..|acts| - 1], acts[|acts| - 1])
  }

  lemma ClientOutput(before: seq<C.Action>, a: C.Action)
    requires C.After(before).Some? && C.Enabled(C.After(before).value, a)
    ensures C.Output(C.After(before).value, a) == ClientWrites(before, a)
  {
    var c := C.After(before).value;
    CallHistories.CallsAreBegun(before);
    ServingAreRequests(before);
    if a.Write? {
      assert CallHistories.Bodies(c)[a.i] == c.calls[a.i].body;
    } else if a.Reply? {
      assert Asked(c.serving)[a.j].id == c.serving[a.j].id;
    }
  }

  // ---- What the server writes ----

  function ServerWrites(before: seq<S.Action>, a: S.Action): (r: seq<Msg>) {
    match a
    case Write(k) => if k < |RequestHistories.Begun(before)| then [Request(Srv(k), RequestHistories.Begun(before)[k])] else []
    case Notify(body) => [Notice(body)]
    case Respond(j, result) =>
      var calls := S.Calls(S.Inbound(before));
      if j < |calls| && calls[j].Request? then [Response(calls[j].id, result)] else []
    case _ => []
  }

  function ServerWrote(acts: seq<S.Action>): (r: seq<Msg>)
  {
    if acts == [] then [] else ServerWrote(acts[..|acts| - 1]) + ServerWrites(acts[..|acts| - 1], acts[|acts| - 1])
  }

  lemma ServerOutput(before: seq<S.Action>, a: S.Action)
    requires S.After(before).Some? && S.Enabled(S.After(before).value, a)
    ensures S.Output(S.After(before).value, a) == ServerWrites(before, a)
  {
    var s := S.After(before).value;
    RequestHistories.RequestsAreBegun(before);
    S.TasksAreCalls(before);
    if a.Write? {
      assert RequestHistories.Bodies(s)[a.k] == s.outs[a.k].body;
    } else if a.Respond? {
      assert S.Requests(s.tasks)[a.j] == s.tasks[a.j].req;
    }
  }

  // ---- Nothing is lost, invented or reordered ----

  lemma ClientPartSnoc(acts: seq<Action>)
    requires acts != []
    ensures var part, a := ClientPart(acts[..|acts| - 1]), acts[|acts| - 1];
      if a.OnClient? then
        && ClientPart(acts) == part + [a.c]
        && ClientWrote(ClientPart(acts)) == ClientWrote(part) + ClientWrites(part, a.c)
        && Inbound(ClientPart(acts)) == Inbound(part) + if a.c.Read? then [a.c.m] else []
      else ClientPart(acts) == part
  {
    var part, a := ClientPart(acts[..|acts| - 1]), acts[|acts| - 1];
    if a.OnClient? {
      assert (part + [a.c])[..|part|] == part;
    } else {
      assert part + [] == part;
    }
  }

  lemma ServerPartSnoc(acts: seq<Action>)
    requires acts != []
    ensures var part, a := ServerPart(acts[..|acts| - 1]), acts[|acts| - 1];
      if a.OnServer? then
        && ServerPart(acts) == part + [a.s]
        && ServerWrote(ServerPart(acts)) == ServerWrote(part) + ServerWrites(part, a.s)
        && S.Inbound(ServerPart(acts)) == S.Inbound(part) + if a.s.Read? then [a.s.m] else []
      else ServerPart(acts) == part
  {
    var part, a := ServerPart(acts[..|acts| - 1]), acts[|acts| - 1];
    if a.OnServer? {
      assert (part + [a.s])[..|part|] == part;
    } else {
      assert part + [] == part;
    }
  }

  lemma ReadsHead(got: seq<Msg>, wire: seq<Msg>, all: seq<Msg>)
    requires got + wire == all && wire != []
    ensures got + [wire[0]] + wire[1..] == all
  {
  }

  lemma WritesTail(got: seq<Msg>, wire: seq<Msg>, all: seq<Msg>, out: seq<Msg>)
    requires got + wire == all
    ensures got + (wire + out) == all + out
  {
  }

  /** In every reachable state, what one side has read followed by what is still on the wire is all that
      the other side wrote, in order: requests, notifications and replies alike. */
  lemma {:induction false} WiresAreFifo(acts: seq<Action>)
    requires After(acts).Some?
    ensures S.Inbound(ServerPart(acts)) + After(acts).value.up == ClientWrote(ClientPart(acts))
    ensures Inbound(ClientPart(acts)) + After(acts).value.down == ServerWrote(ServerPart(acts))
  {
    if acts != [] {
      var before, a := acts[..|acts| - 1], acts[|acts| - 1];
      var y := After(before).value;
      WiresAreFifo(before);
      PartsRun(before);
      ClientPartSnoc(acts);
      ServerPartSnoc(acts);
      match a {
        case OnClient(x) => ClientMoves(before, y, x);
        case OnServer(x) => ServerMoves(before, y, x);
      }
    }
  }

  lemma ClientMoves(before: seq<Action>, y: System, x: C.Action)
    requires After(before) == Some(y) && Enabled(y, OnClient(x))
    requires C.After(ClientPart(before)) == Some(y.c)
    requires S.Inbound(ServerPart(before)) + y.up == ClientWrote(ClientPart(before))
    requires Inbound(ClientPart(before)) + y.down == ServerWrote(ServerPart(before))
    ensures var r := Step(y, OnClient(x));
      && S.Inbound(ServerPart(before)) + r.up == ClientWrote(ClientPart(before)) + ClientWrites(ClientPart(before), x)
      && (Inbound(ClientPart(before)) + if x.Read? then [x.m] else []) + r.down == ServerWrote(ServerPart(before))
  {
    var part := ClientPart(before);
    ClientOutput(part, x);
    WritesTail(S.Inbound(ServerPart(before)), y.up, ClientWrote(part), ClientWrites(part, x));
    if x.Read? {
      ReadsHead(Inbound(part), y.down, ServerWrote(ServerPart(before)));
    } else {
      assert Inbound(part) + [] == Inbound(part);
    }
  }

  lemma ServerMoves(before: seq<Action>, y: System, x: S.Action)
    requires After(before) == Some(y) && Enabled(y, OnServer(x))
    requires S.After(ServerPart(before)) == Some(y.s)
    requires S.Inbound(ServerPart(before)) + y.up == ClientWrote(ClientPart(before))
    requires Inbound(ClientPart(before)) + y.down == ServerWrote(ServerPart(before))
    ensures var r := Step(y, OnServer(x));
      && Inbound(ClientPart(before)) + r.down == ServerWrote(ServerPart(before)) + ServerWrites(ServerPart(before), x)
      && (S.Inbound(ServerPart(before)) + if x.Read? then [x.m] else []) + r.up == ClientWrote(ClientPart(before))
  {
    var part := ServerPart(before);
    ServerOutput(part, x);
    WritesTail(Inbound(ClientPart(before)), y.down, ServerWrote(part), ServerWrites(part, x));
    if x.Read? {
      ReadsHead(S.Inbound(part), y.up, ClientWrote(ClientPart(before)));
    } else {
      assert S.Inbound(part) + [] == S.Inbound(part);
    }
  }
}
