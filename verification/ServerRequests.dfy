/** Requests from the server to the client, followed through the joined system: deliver never blocks
    the read loop, and no reply reaches a different request. */
module ServerRequests {
  import opened Wrappers
  import opened Messages
  import opened Counting
  import opened SessionSystem
  import C = ClientTransport
  import S = ServerSession
  import R = ReplyDiscipline

  function Served(k: nat): (p: C.Serve -> bool) {
    (t: C.Serve) => t.id == Srv(k)
  }

  function RunningFor(k: nat): (p: C.Serve -> bool) {
    (t: C.Serve) => t.id == Srv(k) && !t.finished
  }

  function RepliedTo(k: nat): (p: C.Serve -> bool) {
    (t: C.Serve) => t.id == Srv(k) && t.reply.Some?
  }

  /** The reply was built but its write failed. */
  function FailedFor(k: nat): (p: C.Serve -> bool) {
    (t: C.Serve) => t.id == Srv(k) && t.finished && t.reply.None?
  }

  /** The request has been written to the wire. */
  function Written(s: S.Server, k: nat): (r: nat) {
    if k < |s.outs| && WrittenPhase(s.outs[k].phase) then 1 else 0
  }

  predicate WrittenPhase(p: S.Phase) {
    p == S.Waiting || ((p.Leaving? || p.Returned?) && p.o != S.WriteError)
  }

  /** Replies the server's read loop holds for this request or has handed to it. */
  function Got(s: S.Server, k: nat): (r: nat) {
    if k < |s.outs| then R.Handed(s, k) else 0
  }

  lemma WrittenStep(s: S.Server, a: S.Action, k: nat)
    requires S.Enabled(s, a)
    ensures Written(S.Step(s, a), k) == Written(s, k) + Count(S.Output(s, a), Asks(Srv(k)))
  {
    var out := S.Output(s, a);
    assert out != [] ==> out[..|out| - 1] == [];
  }

  lemma GotStep(s: S.Server, a: S.Action, k: nat)
    requires S.Inv(s) && S.Enabled(s, a)
    ensures Got(S.Step(s, a), k) <= Got(s, k) + if a.Read? && Tells(Srv(k))(a.m) then 1 else 0
  {
    if k < |S.Step(s, a).outs| {
      R.HandedStep(s, a, k);
    }
  }

  lemma ServedStep(c: C.Client, a: C.Action, k: nat)
    requires C.Enabled(c, a)
    ensures Count(C.Step(c, a).serving, Served(k)) == Count(c.serving, Served(k)) + if a.Read? && Asks(Srv(k))(a.m) then 1 else 0
  {
    var r := C.Step(c, a);
    if a.Read? {
      assert a.m.Request? ==> r.serving[..|c.serving|] == c.serving;
    } else if a.Reply? || a.ReplyFails? {
      CountUpdate(c.serving, a.j, r.serving[a.j], Served(k));
    }
  }

  lemma ReplyStep(c: C.Client, a: C.Action, k: nat)
    requires C.Inv(c) && C.Enabled(c, a)
    ensures Count(C.Step(c, a).serving, RepliedTo(k)) == Count(c.serving, RepliedTo(k)) + Count(C.Output(c, a), Tells(Srv(k)))
  {
    var r := C.Step(c, a);
    CountOutput(C.Output(c, a), Tells(Srv(k)));
    if a.Read? {
      assert a.m.Request? ==> r.serving[..|c.serving|] == c.serving;
    } else if a.Reply? || a.ReplyFails? {
      CountUpdate(c.serving, a.j, r.serving[a.j], RepliedTo(k));
    }
  }

  ghost predicate FlowInv(y: System, k: nat) {
    && Count(y.down, Asks(Srv(k))) + Count(y.c.serving, Served(k)) == Written(y.s, k)
    && Count(y.up, Tells(Srv(k))) + Got(y.s, k) <= Count(y.c.serving, RepliedTo(k))
    && (Open(y.s, k) ==> Count(y.up, Tells(Srv(k))) + Got(y.s, k) == Count(y.c.serving, RepliedTo(k)))
  }

  /** The request was written and its caller is still waiting. */
  predicate Open(s: S.Server, k: nat) {
    k < |s.outs| && s.outs[k].phase == S.Waiting
  }

  /** While a request waits, a reply read for it is handed to it. */
  lemma OpenGotStep(s: S.Server, a: S.Action, k: nat)
    requires S.Inv(s) && S.Enabled(s, a) && Open(S.Step(s, a), k)
    ensures Got(S.Step(s, a), k) == Got(s, k) + (if a.Read? && Tells(Srv(k))(a.m) then 1 else 0)
    ensures (a.Write? && a.k == k) || Open(s, k)
  {
    assert k < |s.outs| ==> S.OutInv(s, k);
  }

  lemma StepKeepsFlow(y: System, a: Action, k: nat)
    requires HalvesInv(y) && FlowInv(y, k) && Enabled(y, a)
    ensures FlowInv(Step(y, a), k)
  {
    WireStep(y, a, Asks(Srv(k)));
    WireStep(y, a, Tells(Srv(k)));
    match a
    case OnClient(x) =>
      ServedStep(y.c, x, k);
      ReplyStep(y.c, x, k);
    case OnServer(x) =>
      WrittenStep(y.s, x, k);
      GotStep(y.s, x, k);
      RunningOrReplied(y.c.serving, k);
      if Open(Step(y, a).s, k) {
        OpenGotStep(y.s, x, k);
      }
  }

  // ---- Whose reply it is ----

  predicate IsRequestOf(s: S.Server, id: Id, body: Body) {
    id.Srv? && id.n < |s.outs| && body == s.outs[id.n].body
  }

  /** The client replied this to the id. */
  ghost predicate Replied(c: C.Client, id: Id, body: Body) {
    exists j :: 0 <= j < |c.serving| && c.serving[j].id == id && c.serving[j].reply == Some(body)
  }

  predicate HasAnswer(p: S.Phase) {
    (p.Leaving? || p.Returned?) && p.o.Answer?
  }

  ghost predicate OutTruth(y: System, k: nat, out: S.Out) {
    && (out.chan.buf.Some? ==> Replied(y.c, Srv(k), out.chan.buf.value))
    && (HasAnswer(out.phase) ==> Replied(y.c, Srv(k), out.phase.o.b))
  }

  ghost predicate Truthful(y: System) {
    && (forall i :: 0 <= i < |y.down| && y.down[i].Request? ==> IsRequestOf(y.s, y.down[i].id, y.down[i].body))
    && (forall j :: 0 <= j < |y.c.serving| ==> IsRequestOf(y.s, y.c.serving[j].id, y.c.serving[j].body))
    && (forall i :: 0 <= i < |y.up| && y.up[i].Response? ==> Replied(y.c, y.up[i].id, y.up[i].body))
    && (y.s.reader.Delivering? ==> Replied(y.c, Srv(y.s.reader.out), y.s.reader.b))
    && (forall k :: 0 <= k < |y.s.outs| ==> OutTruth(y, k, y.s.outs[k]))
  }

  lemma RepliedStays(c: C.Client, a: C.Action, id: Id, body: Body)
    requires C.Inv(c) && C.Enabled(c, a) && Replied(c, id, body)
    ensures Replied(C.Step(c, a), id, body)
  {
    var j :| 0 <= j < |c.serving| && c.serving[j].id == id && c.serving[j].reply == Some(body);
    assert C.Step(c, a).serving[j].reply == Some(body);
  }

  lemma RequestStays(s: S.Server, a: S.Action, id: Id, body: Body)
    requires S.Enabled(s, a) && IsRequestOf(s, id, body)
    ensures IsRequestOf(S.Step(s, a), id, body)
  {
  }

  lemma OutKeepsTruth(y: System, a: S.Action, k: nat)
    requires HalvesInv(y) && Truthful(y) && Enabled(y, OnServer(a)) && k < |S.Step(y.s, a).outs|
    ensures OutTruth(y, k, S.Step(y.s, a).outs[k])
  {
    assert k < |y.s.outs| ==> OutTruth(y, k, y.s.outs[k]);
  }

  lemma ReaderKeepsTruth(y: System, a: S.Action)
    requires HalvesInv(y) && Truthful(y) && Enabled(y, OnServer(a))
    ensures S.Step(y.s, a).reader.Delivering? ==> Replied(y.c, Srv(S.Step(y.s, a).reader.out), S.Step(y.s, a).reader.b)
    ensures forall m :: m in S.Output(y.s, a) && m.Request? ==> IsRequestOf(S.Step(y.s, a), m.id, m.body)
  {
  }

  lemma ServerKeepsTruth(y: System, a: S.Action)
    requires HalvesInv(y) && Truthful(y) && Enabled(y, OnServer(a))
    ensures Truthful(Step(y, OnServer(a)))
  {
    var r := Step(y, OnServer(a));
    forall k | 0 <= k < |r.s.outs|
      ensures OutTruth(r, k, r.s.outs[k])
    {
      OutKeepsTruth(y, a, k);
    }
    forall id, body | IsRequestOf(y.s, id, body)
      ensures IsRequestOf(r.s, id, body)
    {
      RequestStays(y.s, a, id, body);
    }
    ReaderKeepsTruth(y, a);
  }

  lemma ClientKeepsTruth(y: System, a: C.Action)
    requires HalvesInv(y) && Truthful(y) && Enabled(y, OnClient(a))
    ensures Truthful(Step(y, OnClient(a)))
  {
    var r := Step(y, OnClient(a));
    forall id, body | Replied(y.c, id, body)
      ensures Replied(r.c, id, body)
    {
      RepliedStays(y.c, a, id, body);
    }
    forall i | 0 <= i < |r.up| && r.up[i].Response?
      ensures Replied(r.c, r.up[i].id, r.up[i].body)
    {
      if i >= |y.up| {
        assert r.c.serving[a.j].reply == Some(a.result);
      }
    }
  }

  lemma {:induction false} AlwaysTruthful(acts: seq<Action>)
    requires After(acts).Some?
    ensures Truthful(After(acts).value) && forall k: nat :: FlowInv(After(acts).value, k)
  {
    if acts != [] {
      var before, a := acts[..|acts| - 1], acts[|acts| - 1];
      var y := After(before).value;
      HalvesHold(before);
      AlwaysTruthful(before);
      match a {
        case OnClient(x) => ClientKeepsTruth(y, x);
        case OnServer(x) => ServerKeepsTruth(y, x);
      }
      forall k: nat
        ensures FlowInv(After(acts).value, k)
      {
        StepKeepsFlow(y, a, k);
      }
    }
  }

  /** How many places hold the id: server-to-client wire, the goroutine serving it, client-to-server
      wire, the server's read loop, the request's channel. */
  function Places(y: System, k: nat): (r: nat) {
    Count(y.down, Asks(Srv(k))) + Count(y.c.serving, RunningFor(k)) + Count(y.up, Tells(Srv(k))) + Got(y.s, k)
  }

  lemma {:induction false} RunningOrReplied(serving: seq<C.Serve>, k: nat)
    requires forall j :: 0 <= j < |serving| && serving[j].reply.Some? ==> serving[j].finished
    ensures Count(serving, RunningFor(k)) + Count(serving, RepliedTo(k)) + Count(serving, FailedFor(k)) == Count(serving, Served(k))
  {
    if serving != [] {
      RunningOrReplied(serving[..|serving| - 1], k);
    }
  }

  lemma OnePlace(acts: seq<Action>, k: nat)
    requires After(acts).Some?
    ensures Places(After(acts).value, k) <= 1
  {
    AlwaysTruthful(acts);
    HalvesHold(acts);
    var y := After(acts).value;
    assert FlowInv(y, k);
    RunningOrReplied(y.c.serving, k);
  }

  /** Nothing is lost: while a request waits, it or its reply is in exactly one place, unless the
      client's write of the reply failed. */
  lemma NothingIsLost(acts: seq<Action>, k: nat)
    requires After(acts).Some? && k < |After(acts).value.s.outs|
    ensures var y := After(acts).value;
      y.s.outs[k].phase == S.Waiting ==> Places(y, k) + Count(y.c.serving, FailedFor(k)) == 1
  {
    AlwaysTruthful(acts);
    HalvesHold(acts);
    var y := After(acts).value;
    assert FlowInv(y, k);
    RunningOrReplied(y.c.serving, k);
  }

  /** Against this client the server's read loop is never blocked in deliver, on any interleaving. */
  lemma DeliverNeverBlocks(acts: seq<Action>)
    requires After(acts).Some?
    ensures !R.Stuck(After(acts).value.s)
  {
    HalvesHold(acts);
    var s := After(acts).value.s;
    if s.reader.Delivering? {
      OnePlace(acts, s.reader.out);
      RoomForOne(s);
    }
  }

  lemma RoomForOne(s: S.Server)
    requires S.Inv(s) && s.reader.Delivering? && Got(s, s.reader.out) <= 1
    ensures !R.Stuck(s)
  {
    assert S.OutInv(s, s.reader.out);
  }

  /** The serving goroutine that replied with this body; no other ever had the id. */
  ghost predicate AnsweredBy(y: System, k: nat, b: Body, j: nat)
    requires k < |y.s.outs|
  {
    && j < |y.c.serving|
    && y.c.serving[j].id == Srv(k) && y.c.serving[j].body == y.s.outs[k].body && y.c.serving[j].reply == Some(b)
    && forall i :: 0 <= i < |y.c.serving| && i != j ==> !Served(k)(y.c.serving[i])
  }

  /** A server request that returns a reply returns the one the client gave to that very request;
      late replies and replies after a cancellation never reach another request. */
  lemma RequestsGetTheirOwnReply(acts: seq<Action>, k: nat)
    requires After(acts).Some? && k < |After(acts).value.s.outs|
    ensures var y := After(acts).value;
      var phase := y.s.outs[k].phase;
      HasAnswer(phase) ==> exists j :: AnsweredBy(y, k, phase.o.b, j)
  {
    AlwaysTruthful(acts);
    HalvesHold(acts);
    var y := After(acts).value;
    var phase := y.s.outs[k].phase;
    if HasAnswer(phase) {
      assert OutTruth(y, k, y.s.outs[k]) && FlowInv(y, k);
      var serving := y.c.serving;
      var j :| 0 <= j < |serving| && serving[j].id == Srv(k) && serving[j].reply == Some(phase.o.b);
      forall i | 0 <= i < |serving| && i != j
        ensures !Served(k)(serving[i])
      {
        if Served(k)(serving[i]) {
          CountTwoHits(serving, if i < j then i else j, if i < j then j else i, Served(k));
        }
      }
      assert AnsweredBy(y, k, phase.o.b, j);
    }
  }
}
