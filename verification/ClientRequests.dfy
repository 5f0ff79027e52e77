/** Requests from the client to the server, followed through the joined system: no id is ever in two
    places, and a call that returns an answer returns what its own task replied. */
module ClientRequests {
  import opened Wrappers
  import opened Messages
  import opened Counting
  import opened SessionSystem
  import C = ClientTransport
  import S = ServerSession

  function Served(n: nat): (p: S.Task -> bool) {
    (t: S.Task) => t.req.Request? && t.req.id == Cli(n)
  }

  function RunningFor(n: nat): (p: S.Task -> bool) {
    (t: S.Task) => t.req.Request? && t.req.id == Cli(n) && t.status == S.Running
  }

  function RepliedTo(n: nat): (p: S.Task -> bool) {
    (t: S.Task) => t.req.Request? && t.req.id == Cli(n) && t.reply.Some?
  }

  /** The response was built but its write failed. */
  function FailedFor(n: nat): (p: S.Task -> bool) {
    (t: S.Task) => t.req.Request? && t.req.id == Cli(n) && t.status != S.Running && t.reply.None?
  }

  /** The request has been written to the wire. */
  function Written(c: C.Client, n: nat): (r: nat) {
    if n < |c.calls| && (c.calls[n].phase == C.Waiting || (c.calls[n].phase.Returned? && c.calls[n].phase.o != C.WriteError)) then 1 else 0
  }

  /** Answers the client's read loop holds for this call or has handed to it. */
  function Got(c: C.Client, n: nat): (r: nat) {
    if n < |c.calls| then C.AtReader(c, n) + c.calls[n].chan.sends else 0
  }

  lemma WrittenStep(c: C.Client, a: C.Action, n: nat)
    requires C.Enabled(c, a)
    ensures Written(C.Step(c, a), n) == Written(c, n) + Count(C.Output(c, a), Asks(Cli(n)))
  {
    var out := C.Output(c, a);
    assert out != [] ==> out[..|out| - 1] == [];
  }

  lemma GotStep(c: C.Client, a: C.Action, n: nat)
    requires C.Inv(c) && C.Enabled(c, a)
    ensures Got(C.Step(c, a), n) <= Got(c, n) + if a.Read? && Tells(Cli(n))(a.m) then 1 else 0
  {
  }

  predicate OfTask(a: S.Action) {
    a.Respond? || a.RespondFails? || a.StaySilent? || a.Done?
  }

  lemma ServedStep(s: S.Server, a: S.Action, n: nat)
    requires S.Enabled(s, a)
    ensures Count(S.Step(s, a).tasks, Served(n)) == Count(s.tasks, Served(n)) + if a.Read? && Asks(Cli(n))(a.m) then 1 else 0
  {
    var r := S.Step(s, a);
    if a.Read? {
      CountSnoc(s.tasks, S.Task(a.m, S.Running, None, 0), Served(n));
    } else if OfTask(a) {
      CountUpdate(s.tasks, a.j, r.tasks[a.j], Served(n));
    }
  }

  lemma ReplyStep(s: S.Server, a: S.Action, n: nat)
    requires S.Inv(s) && S.Enabled(s, a)
    ensures Count(S.Step(s, a).tasks, RepliedTo(n)) == Count(s.tasks, RepliedTo(n)) + Count(S.Output(s, a), Tells(Cli(n)))
  {
    var r := S.Step(s, a);
    CountOutput(S.Output(s, a), Tells(Cli(n)));
    if a.Read? {
      CountSnoc(s.tasks, S.Task(a.m, S.Running, None, 0), RepliedTo(n));
    } else if OfTask(a) {
      CountUpdate(s.tasks, a.j, r.tasks[a.j], RepliedTo(n));
      assert S.TaskInv(s.tasks[a.j]);
    }
  }

  ghost predicate FlowInv(y: System, n: nat) {
    && Count(y.up, Asks(Cli(n))) + Count(y.s.tasks, Served(n)) == Written(y.c, n)
    && Count(y.down, Tells(Cli(n))) + Got(y.c, n) <= Count(y.s.tasks, RepliedTo(n))
    && (Open(y.c, n) ==> Count(y.down, Tells(Cli(n))) + Got(y.c, n) == Count(y.s.tasks, RepliedTo(n)))
  }

  /** The request was written and no shutdown has closed its channel. */
  predicate Open(c: C.Client, n: nat) {
    Written(c, n) == 1 && c.calls[n].chan.closes == 0
  }

  /** While a call is open, a response read for it is handed to it. */
  lemma OpenGotStep(c: C.Client, a: C.Action, n: nat)
    requires C.Inv(c) && C.Enabled(c, a) && Open(C.Step(c, a), n)
    requires a.Read? && Tells(Cli(n))(a.m) ==> Got(c, n) == 0
    ensures Got(C.Step(c, a), n) == Got(c, n) + (if a.Read? && Tells(Cli(n))(a.m) then 1 else 0)
    ensures (a.Write? && a.i == n) || Open(c, n)
  {
    assert n < |c.calls| ==> C.CallInv(c, n);
  }

  lemma StepKeepsFlow(y: System, a: Action, n: nat)
    requires HalvesInv(y) && FlowInv(y, n) && Enabled(y, a)
    ensures FlowInv(Step(y, a), n)
  {
    WireStep(y, a, Asks(Cli(n)));
    WireStep(y, a, Tells(Cli(n)));
    match a
    case OnClient(x) =>
      WrittenStep(y.c, x, n);
      GotStep(y.c, x, n);
      RunningOrReplied(y.s.tasks, n);
      if Open(Step(y, a).c, n) {
        OpenGotStep(y.c, x, n);
      }
    case OnServer(x) =>
      ServedStep(y.s, x, n);
      ReplyStep(y.s, x, n);
  }

  // ---- Whose answer it is ----

  /** The message is the request of this call. */
  predicate IsRequestOf(c: C.Client, m: Msg) {
    m.Request? && m.id.Cli? && m.id.n < |c.calls| && m.body == c.calls[m.id.n].body
  }

  /** Some task replied this to the id. */
  ghost predicate Replied(s: S.Server, m: Msg) {
    m.Response? && exists j :: 0 <= j < |s.tasks| && s.tasks[j].req.Request? && s.tasks[j].req.id == m.id && s.tasks[j].reply == Some(m.body)
  }

  ghost predicate CallTruth(y: System, call: C.Call) {
    && (call.chan.buf.Some? ==> Replied(y.s, call.chan.buf.value))
    && (call.phase.Returned? && call.phase.o.Answer? ==> Replied(y.s, call.phase.o.m))
  }

  ghost predicate Truthful(y: System) {
    && (forall i :: 0 <= i < |y.up| && y.up[i].Request? ==> IsRequestOf(y.c, y.up[i]))
    && (forall j :: 0 <= j < |y.s.tasks| && y.s.tasks[j].req.Request? ==> IsRequestOf(y.c, y.s.tasks[j].req))
    && (forall i :: 0 <= i < |y.down| && y.down[i].Response? ==> Replied(y.s, y.down[i]))
    && (y.c.reader.Sending? ==> Replied(y.s, y.c.reader.m))
    && (forall n :: 0 <= n < |y.c.calls| ==> CallTruth(y, y.c.calls[n]))
  }

  lemma RepliedStays(s: S.Server, a: S.Action, m: Msg)
    requires S.Inv(s) && S.Enabled(s, a) && Replied(s, m)
    ensures Replied(S.Step(s, a), m)
  {
    var j :| 0 <= j < |s.tasks| && s.tasks[j].req.Request? && s.tasks[j].req.id == m.id && s.tasks[j].reply == Some(m.body);
    assert S.TaskInv(s.tasks[j]);
    assert S.Step(s, a).tasks[j].reply == Some(m.body);
  }

  lemma CallKeepsTruth(y: System, a: C.Action, n: nat)
    requires HalvesInv(y) && Truthful(y) && Enabled(y, OnClient(a)) && n < |C.Step(y.c, a).calls|
    ensures CallTruth(y, C.Step(y.c, a).calls[n])
  {
    assert n < |y.c.calls| ==> CallTruth(y, y.c.calls[n]);
  }

  lemma RequestStays(c: C.Client, a: C.Action, m: Msg)
    requires C.Enabled(c, a) && IsRequestOf(c, m)
    ensures IsRequestOf(C.Step(c, a), m)
  {
  }

  lemma ReaderKeepsTruth(y: System, a: C.Action)
    requires Truthful(y) && Enabled(y, OnClient(a))
    ensures C.Step(y.c, a).reader.Sending? ==> Replied(y.s, C.Step(y.c, a).reader.m)
    ensures forall m :: m in C.Output(y.c, a) && m.Request? ==> IsRequestOf(C.Step(y.c, a), m)
  {
  }

  lemma ClientKeepsTruth(y: System, a: C.Action)
    requires HalvesInv(y) && Truthful(y) && Enabled(y, OnClient(a))
    ensures Truthful(Step(y, OnClient(a)))
  {
    var r := Step(y, OnClient(a));
    forall n | 0 <= n < |r.c.calls|
      ensures CallTruth(r, r.c.calls[n])
    {
      CallKeepsTruth(y, a, n);
    }
    forall m | IsRequestOf(y.c, m)
      ensures IsRequestOf(r.c, m)
    {
      RequestStays(y.c, a, m);
    }
    ReaderKeepsTruth(y, a);
  }

  lemma ServerKeepsTruth(y: System, a: S.Action)
    requires HalvesInv(y) && Truthful(y) && Enabled(y, OnServer(a))
    ensures Truthful(Step(y, OnServer(a)))
  {
    var r := Step(y, OnServer(a));
    forall m | Replied(y.s, m)
      ensures Replied(r.s, m)
    {
      RepliedStays(y.s, a, m);
    }
    forall i | 0 <= i < |r.down| && r.down[i].Response?
      ensures Replied(r.s, r.down[i])
    {
      if i >= |y.down| {
        assert r.s.tasks[a.j].reply == Some(a.result);
      }
    }
  }

  lemma {:induction false} AlwaysTruthful(acts: seq<Action>)
    requires After(acts).Some?
    ensures Truthful(After(acts).value) && forall n: nat :: FlowInv(After(acts).value, n)
  {
    if acts != [] {
      var before, a := acts[..|acts| - 1], acts[|acts| - 1];
      var y := After(before).value;
      HalvesHold(before);
      AlwaysTruthful(before);
      match a {
        case OnClient(x) => ClientKeepsTruth(y, x);
        case OnServer(x) => ServerKeepsTruth(y, x);
      }
      forall n: nat
        ensures FlowInv(After(acts).value, n)
      {
        StepKeepsFlow(y, a, n);
      }
    }
  }

  /** How many places hold the id: client-to-server wire, running handler, server-to-client wire,
      the client's read loop, the call's channel. */
  function Places(y: System, n: nat): (r: nat) {
    Count(y.up, Asks(Cli(n))) + Count(y.s.tasks, RunningFor(n)) + Count(y.down, Tells(Cli(n))) + Got(y.c, n)
  }

  lemma OnePlace(acts: seq<Action>, n: nat)
    requires After(acts).Some?
    ensures Places(After(acts).value, n) <= 1
  {
    AlwaysTruthful(acts);
    HalvesHold(acts);
    var y := After(acts).value;
    assert FlowInv(y, n);
    RunningOrReplied(y.s.tasks, n);
  }

  lemma {:induction false} RunningOrReplied(tasks: seq<S.Task>, n: nat)
    requires forall j :: 0 <= j < |tasks| ==> S.TaskInv(tasks[j])
    ensures Count(tasks, RunningFor(n)) + Count(tasks, RepliedTo(n)) + Count(tasks, FailedFor(n)) == Count(tasks, Served(n))
  {
    if tasks != [] {
      RunningOrReplied(tasks[..|tasks| - 1], n);
    }
  }

  /** Nothing is lost: while a call waits on a channel that no shutdown has closed, its request or
      its response is in exactly one place, unless the server's write of the response failed. */
  lemma NothingIsLost(acts: seq<Action>, n: nat)
    requires After(acts).Some? && n < |After(acts).value.c.calls|
    ensures var y := After(acts).value;
      y.c.calls[n].phase == C.Waiting && !y.c.calls[n].chan.closed ==>
        Places(y, n) + Count(y.s.tasks, FailedFor(n)) == 1
  {
    AlwaysTruthful(acts);
    HalvesHold(acts);
    var y := After(acts).value;
    assert FlowInv(y, n) && C.CallInv(y.c, n);
    RunningOrReplied(y.s.tasks, n);
  }

  /** The task that replied to the call with this message; no other task ever had its id. */
  ghost predicate AnsweredBy(y: System, n: nat, m: Msg, j: nat)
    requires n < |y.c.calls|
  {
    && j < |y.s.tasks|
    && y.s.tasks[j].req == Request(Cli(n), y.c.calls[n].body)
    && y.s.tasks[j].reply == Some(m.body)
    && forall i :: 0 <= i < |y.s.tasks| && i != j ==> !Served(n)(y.s.tasks[i])
  }

  /** In every reachable state, a call that returned a message returned the reply of the one task
      that was started for its own request, under its own id. */
  lemma CallsGetTheirOwnAnswer(acts: seq<Action>, n: nat)
    requires After(acts).Some? && n < |After(acts).value.c.calls|
    ensures var y := After(acts).value;
      var phase := y.c.calls[n].phase;
      phase.Returned? && phase.o.Answer? ==>
        phase.o.m.Response? && phase.o.m.id == Cli(n) && exists j :: AnsweredBy(y, n, phase.o.m, j)
  {
    AlwaysTruthful(acts);
    HalvesHold(acts);
    var y := After(acts).value;
    var phase := y.c.calls[n].phase;
    if phase.Returned? && phase.o.Answer? {
      assert C.CallInv(y.c, n) && CallTruth(y, y.c.calls[n]) && FlowInv(y, n);
      var tasks := y.s.tasks;
      var j :| 0 <= j < |tasks| && tasks[j].req.Request? && tasks[j].req.id == Cli(n) && tasks[j].reply == Some(phase.o.m.body);
      forall i | 0 <= i < |tasks| && i != j
        ensures !Served(n)(tasks[i])
      {
        if Served(n)(tasks[i]) {
          CountTwoHits(tasks, if i < j then i else j, if i < j then j else i, Served(n));
        }
      }
      assert IsRequestOf(y.c, tasks[j].req);
      assert AnsweredBy(y, n, phase.o.m, j);
    }
  }
}
