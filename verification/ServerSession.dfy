/** The server half of the session protocol (session.go, stdio.go, dispatch.go): every atomic step
    of the read loop, the request goroutines and the handlers' own requests to the client. */
module ServerSession {
  import opened Wrappers
  import opened Messages
  import opened Counting

  datatype Outcome = Answer(b: Body) | WriteError | Cancelled

  /** Where a goroutine inside session.request is; its deferred delete runs after Leaving. */
  datatype Phase = Named | Registered | Waiting | Leaving(o: Outcome) | Returned(o: Outcome)

  datatype Out = Out(body: Body, phase: Phase, chan: Chan<Body>)

  datatype Reader = Idle | Delivering(out: nat, b: Body)

  /** A goroutine dispatching one inbound request or notification. */
  datatype Status = Running | Responded | Finished

  /** reply is what was written to the wire; writes counts the attempts. */
  datatype Task = Task(req: Msg, status: Status, reply: Option<Body>, writes: nat)

  /** ServeStdio: the scanner loop, the deferred wait, the deferred deregistration. */
  datatype Stage = Serving | Draining | Waited | Stopped

  /** outs[k] holds id Srv(k); wg counts the tasks that have not called Done. */
  datatype Server = Server(outs: seq<Out>, pending: map<Id, nat>, tasks: seq<Task>, wg: nat,
                           reader: Reader, stage: Stage, registered: bool)

  const INIT := Server([], map[], [], 0, Idle, Serving, true)

  datatype Action =
    | Begin(body: Body)                // idCtr++
    | Register(k: nat)                 // pending[key] = ch
    | Write(k: nat)
    | WriteFails(k: nat)
    | Receive(k: nat)
    | Cancel(k: nat)
    | Cleanup(k: nat)                  // the deferred delete
    | Read(m: Msg)                     // handle, up to the send of deliver
    | Deliver                          // ch <- resp
    | Notify(body: Body)               // a notification reaches the wire
    | Respond(j: nat, result: Body)    // a request is dispatched and its response written
    | RespondFails(j: nat)             // the write of the response fails
    | StaySilent(j: nat)               // a notification is dispatched
    | Done(j: nat)                     // wg.Done
    | StopReading                      // end of input, or cancellation seen by the loop
    | Wait                             // wg.Wait returns
    | Deregister                       // removeSession

  predicate Enabled(s: Server, a: Action) {
    match a
    case Begin(_) => true
    case Register(k) => k < |s.outs| && s.outs[k].phase == Named
    case Write(k) => k < |s.outs| && s.outs[k].phase == Registered
    case WriteFails(k) => k < |s.outs| && s.outs[k].phase == Registered
    case Receive(k) => k < |s.outs| && s.outs[k].phase == Waiting && s.outs[k].chan.buf.Some?
    case Cancel(k) => k < |s.outs| && s.outs[k].phase == Waiting
    case Cleanup(k) => k < |s.outs| && s.outs[k].phase.Leaving?
    case Read(_) => s.stage == Serving && s.reader == Idle
    case Deliver => s.reader.Delivering? && s.reader.out < |s.outs| && CanSend(s.outs[s.reader.out].chan)
    case Notify(_) => true
    case Respond(j, _) => j < |s.tasks| && s.tasks[j].status == Running && s.tasks[j].req.Request?
    case RespondFails(j) => j < |s.tasks| && s.tasks[j].status == Running && s.tasks[j].req.Request?
    case StaySilent(j) => j < |s.tasks| && s.tasks[j].status == Running && s.tasks[j].req.Notice?
    case Done(j) => j < |s.tasks| && s.tasks[j].status == Responded && s.wg > 0
    case StopReading => s.stage == Serving && s.reader == Idle
    case Wait => s.stage == Draining && s.wg == 0
    case Deregister => s.stage == Waited
  }

  function SetOut(s: Server, k: nat, o: Out): (r: Server)
    requires k < |s.outs|
  {
    s.(outs := s.outs[k := o])
  }

  function SetTask(s: Server, j: nat, t: Task): (r: Server)
    requires j < |s.tasks|
  {
    s.(tasks := s.tasks[j := t])
  }

  function AfterRead(s: Server, m: Msg): (r: Server) {
    match m
    case Response(id, b) => if id in s.pending then s.(reader := Delivering(s.pending[id], b)) else s
    case _ => s.(tasks := s.tasks + [Task(m, Running, None, 0)], wg := s.wg + 1)
  }

  function Step(s: Server, a: Action): (r: Server)
    requires Enabled(s, a)
  {
    match a
    case Begin(body) => s.(outs := s.outs + [Out(body, Named, NewChan())])
    case Register(k) => SetOut(s, k, s.outs[k].(phase := Registered)).(pending := s.pending[Srv(k) := k])
    case Write(k) => SetOut(s, k, s.outs[k].(phase := Waiting))
    case WriteFails(k) => SetOut(s, k, s.outs[k].(phase := Leaving(WriteError)))
    case Receive(k) =>
      SetOut(s, k, s.outs[k].(phase := Leaving(Answer(s.outs[k].chan.buf.value)), chan := Received(s.outs[k].chan)))
    case Cancel(k) => SetOut(s, k, s.outs[k].(phase := Leaving(Cancelled)))
    case Cleanup(k) => SetOut(s, k, s.outs[k].(phase := Returned(s.outs[k].phase.o))).(pending := s.pending - {Srv(k)})
    case Read(m) => AfterRead(s, m)
    case Deliver =>
      var k := s.reader.out;
      SetOut(s, k, s.outs[k].(chan := Sent(s.outs[k].chan, s.reader.b))).(reader := Idle)
    case Notify(_) => s
    case Respond(j, result) => SetTask(s, j, s.tasks[j].(status := Responded, reply := Some(result), writes := s.tasks[j].writes + 1))
    case RespondFails(j) => SetTask(s, j, s.tasks[j].(status := Responded, writes := s.tasks[j].writes + 1))
    case StaySilent(j) => SetTask(s, j, s.tasks[j].(status := Responded))
    case Done(j) => SetTask(s, j, s.tasks[j].(status := Finished)).(wg := s.wg - 1)
    case StopReading => s.(stage := Draining)
    case Wait => s.(stage := Waited)
    case Deregister => s.(stage := Stopped, registered := false)
  }

  function Output(s: Server, a: Action): (r: seq<Msg>)
    requires Enabled(s, a)
  {
    match a
    case Write(k) => [Request(Srv(k), s.outs[k].body)]
    case Notify(body) => [Notice(body)]
    case Respond(j, result) => [Response(s.tasks[j].req.id, result)]
    case _ => []
  }

  // ---- What every step keeps, whatever the client sends ----

  /** Tasks that have not called Done. */
  function Busy(): (p: Task -> bool) {
    (t: Task) => t.status != Finished
  }

  ghost predicate TaskInv(t: Task) {
    && !t.req.Response?
    && (t.status == Running ==> t.writes == 0 && t.reply.None?)
    && (t.status != Running ==> t.writes == if t.req.Request? then 1 else 0)
  }

  ghost predicate TasksInv(s: Server) {
    && (forall j :: 0 <= j < |s.tasks| ==> TaskInv(s.tasks[j]))
    && s.wg == Count(s.tasks, Busy())
  }

  ghost predicate OutInv(s: Server, k: nat)
    requires k < |s.outs|
  {
    var out := s.outs[k];
    && !out.chan.closed
    && (out.chan.buf.Some? ==> out.chan.sends > 0)
    && (out.phase == Named ==> out.chan == NewChan())
    && (Srv(k) in s.pending <==> !out.phase.Named? && !out.phase.Returned?)
  }

  ghost predicate Inv(s: Server) {
    && (forall id :: id in s.pending ==> id.Srv? && s.pending[id] == id.n && id.n < |s.outs|)
    && (s.reader.Delivering? ==> s.stage == Serving && s.reader.out < |s.outs| && s.outs[s.reader.out].phase != Named)
    && (forall k :: 0 <= k < |s.outs| ==> OutInv(s, k))
    && TasksInv(s)
    && (s.stage in {Waited, Stopped} ==> s.wg == 0)
    && (s.registered <==> s.stage != Stopped)
  }

  lemma StepKeepsInv(s: Server, a: Action)
    requires Inv(s) && Enabled(s, a)
    ensures Inv(Step(s, a))
  {
    var r := Step(s, a);
    forall k | 0 <= k < |r.outs|
      ensures OutInv(r, k)
    {
      StepKeepsOut(s, a, k);
    }
    if a.Read? && a.m.Response? && a.m.id in s.pending {
      assert OutInv(s, a.m.id.n);
    }
    StepKeepsTasks(s, a);
  }

  lemma StepKeepsOut(s: Server, a: Action, k: nat)
    requires Inv(s) && Enabled(s, a) && k < |Step(s, a).outs|
    ensures OutInv(Step(s, a), k)
  {
    assert k < |s.outs| ==> OutInv(s, k);
    if a.Register? || a.Cleanup? {
      PendingMoves(s, a, k);
    }
  }

  lemma PendingMoves(s: Server, a: Action, k: nat)
    requires Enabled(s, a) && (a.Register? || a.Cleanup?)
    ensures Srv(k) in Step(s, a).pending <==> if a.k == k then a.Register? else Srv(k) in s.pending
  {
  }

  lemma TaskUpdateKeeps(s: Server, j: nat, t: Task, wg: nat)
    requires TasksInv(s) && j < |s.tasks| && TaskInv(t)
    requires wg - (if t.status == Finished then 0 else 1) == s.wg - (if s.tasks[j].status == Finished then 0 else 1)
    ensures TasksInv(SetTask(s, j, t).(wg := wg))
  {
    CountUpdate(s.tasks, j, t, Busy());
  }

  lemma ReadKeepsTasks(s: Server, m: Msg)
    requires TasksInv(s)
    ensures TasksInv(AfterRead(s, m))
  {
    CountSnoc(s.tasks, Task(m, Running, None, 0), Busy());
  }

  lemma StepKeepsTasks(s: Server, a: Action)
    requires TasksInv(s) && Enabled(s, a)
    ensures TasksInv(Step(s, a))
  {
    if a.Read? {
      ReadKeepsTasks(s, a.m);
    } else if a.Respond? || a.RespondFails? || a.StaySilent? || a.Done? {
      TaskUpdateKeeps(s, a.j, Step(s, a).tasks[a.j], Step(s, a).wg);
    }
  }

  function After(acts: seq<Action>): (r: Option<Server>)
  {
    if acts == [] then Some(INIT)
    else
      var before := After(acts[..|acts| - 1]);
      var a := acts[|acts| - 1];
      if before.Some? && Enabled(before.value, a) then Some(Step(before.value, a)) else None
  }

  lemma {:induction false} ReachableInv(acts: seq<Action>)
    requires After(acts).Some?
    ensures Inv(After(acts).value)
  {
    if acts != [] {
      var before := acts[..|acts| - 1];
      ReachableInv(before);
      StepKeepsInv(After(before).value, acts[|acts| - 1]);
    }
  }

  // ---- Every message handed to handle ----

  /** The messages a run reads, in order. */
  function Inbound(acts: seq<Action>): (r: seq<Msg>)
  {
    if acts == [] then []
    else
      var a := acts[|acts| - 1];
      Inbound(acts[..|acts| - 1]) + if a.Read? then [a.m] else []
  }

  /** The messages that are to be dispatched: requests and notifications. */
  function Calls(ms: seq<Msg>): (r: seq<Msg>)
    ensures forall i :: 0 <= i < |r| ==> !r[i].Response?
  {
    if ms == [] then [] else Calls(ms[..|ms| - 1]) + if ms[|ms| - 1].Response? then [] else [ms[|ms| - 1]]
  }

  function Requests(tasks: seq<Task>): (r: seq<Msg>) {
    seq(|tasks|, i requires 0 <= i < |tasks| => tasks[i].req)
  }

  lemma StepRequests(s: Server, a: Action)
    requires Enabled(s, a)
    ensures Requests(Step(s, a).tasks) == Requests(s.tasks) + if a.Read? && !a.m.Response? then [a.m] else []
  {
  }

  /** Each request or notification read has one task, in the order they were read, and no task
      comes from anywhere else. */
  lemma {:induction false} TasksAreCalls(acts: seq<Action>)
    requires After(acts).Some?
    ensures Requests(After(acts).value.tasks) == Calls(Inbound(acts))
  {
    if acts != [] {
      var before, a := acts[..|acts| - 1], acts[|acts| - 1];
      TasksAreCalls(before);
      StepRequests(After(before).value, a);
      if a.Read? {
        CallsSnoc(Inbound(before), a.m);
      } else {
        assert Inbound(before) + [] == Inbound(before);
      }
    }
  }

  lemma CallsSnoc(ms: seq<Msg>, m: Msg)
    ensures Calls(ms + [m]) == Calls(ms) + if m.Response? then [] else [m]
  {
    assert (ms + [m])[..|ms|] == ms;
  }

  /** The task of a call is finished, with one response written or attempted for a request and none
      for a notification. */
  ghost predicate Served(t: Task, m: Msg) {
    t.req == m && t.status == Finished && t.writes == if m.Request? then 1 else 0
  }

  ghost predicate AllServed(tasks: seq<Task>, ms: seq<Msg>) {
    |tasks| == |ms| && forall j :: 0 <= j < |ms| ==> Served(tasks[j], ms[j])
  }

  /** When ServeStdio is past its wait, every request passed to handle has been dispatched with
      exactly one response written or attempted, every notification with none; and the session
      stays registered until then. */
  lemma ServeDrains(acts: seq<Action>)
    requires After(acts).Some?
    ensures var s := After(acts).value;
      s.stage in {Waited, Stopped} || !s.registered ==> AllServed(s.tasks, Calls(Inbound(acts)))
  {
    ReachableInv(acts);
    TasksAreCalls(acts);
    var s := After(acts).value;
    if s.stage in {Waited, Stopped} {
      forall j | 0 <= j < |s.tasks|
        ensures Served(s.tasks[j], Requests(s.tasks)[j])
      {
        CountZero(s.tasks, j, Busy());
        assert TaskInv(s.tasks[j]);
      }
    }
  }

  // ---- Where replies come from ----

  /** A reply is what the step that answered the task wrote; without one, the write failed. */
  ghost predicate TaskTold(acts: seq<Action>, j: nat, t: Task) {
    && (t.reply.Some? ==> Respond(j, t.reply.value) in acts)
    && (t.status != Running && t.req.Request? && t.reply.None? ==> RespondFails(j) in acts)
  }

  lemma TaskMoves(s: Server, a: Action, j: nat)
    requires Enabled(s, a) && j < |Step(s, a).tasks|
    ensures var t := Step(s, a).tasks[j];
      if j >= |s.tasks| then t.status == Running && t.reply.None?
      else
        var was := s.tasks[j];
        && t.req == was.req
        && (t.reply == was.reply || (t.reply.Some? && a == Respond(j, t.reply.value)))
        && (was.status == Running && t.status != Running && t.req.Request? ==> t.reply.Some? || a == RespondFails(j))
  {
  }

  lemma {:induction false} TasksTold(acts: seq<Action>, j: nat)
    requires After(acts).Some? && j < |After(acts).value.tasks|
    ensures TaskTold(acts, j, After(acts).value.tasks[j])
  {
    var before, a := acts[..|acts| - 1], acts[|acts| - 1];
    assert a in acts && forall x :: x in before ==> x in acts;
    TaskMoves(After(before).value, a, j);
    if j < |After(before).value.tasks| {
      TasksTold(before, j);
    }
  }

  // ---- Everybody can move on ----

  /** A request of the server is never without a step of its own. */
  lemma RequestCanMove(s: Server, k: nat)
    requires k < |s.outs|
    ensures match s.outs[k].phase
      case Named => Enabled(s, Register(k))
      case Registered => Enabled(s, Write(k)) && Enabled(s, WriteFails(k))
      case Waiting => Enabled(s, Cancel(k)) && (s.outs[k].chan.buf.Some? ==> Enabled(s, Receive(k)))
      case Leaving(_) => Enabled(s, Cleanup(k))
      case Returned(_) => true
  {
  }

  /** Nor is a dispatch goroutine, whatever its handler returns. */
  lemma TaskCanMove(acts: seq<Action>, j: nat, result: Body)
    requires After(acts).Some? && j < |After(acts).value.tasks|
    ensures var s := After(acts).value;
      match s.tasks[j].status
      case Running => if s.tasks[j].req.Request? then Enabled(s, Respond(j, result)) && Enabled(s, RespondFails(j)) else Enabled(s, StaySilent(j))
      case Responded => Enabled(s, Done(j))
      case Finished => true
  {
    ReachableInv(acts);
    var s := After(acts).value;
    assert TaskInv(s.tasks[j]);
    if s.tasks[j].status == Responded {
      CountHit(s.tasks, j, Busy());
    }
  }

  /** Nor is ServeStdio, apart from a send on a full channel and from tasks it has to wait for. */
  lemma ReaderCanMove(acts: seq<Action>, m: Msg)
    requires After(acts).Some?
    ensures var s := After(acts).value;
      && (s.stage == Serving && s.reader == Idle ==> Enabled(s, StopReading) && Enabled(s, Read(m)))
      && (s.reader.Delivering? ==> s.reader.out < |s.outs| && (s.outs[s.reader.out].chan.buf.None? ==> Enabled(s, Deliver)))
      && (s.stage == Draining && (forall j :: 0 <= j < |s.tasks| ==> s.tasks[j].status == Finished) ==> Enabled(s, Wait))
      && (s.stage == Waited ==> Enabled(s, Deregister))
  {
    ReachableInv(acts);
    var s := After(acts).value;
    if s.reader.Delivering? {
      assert OutInv(s, s.reader.out);
    }
    if forall j :: 0 <= j < |s.tasks| ==> s.tasks[j].status == Finished {
      CountNone(s.tasks, Busy());
    }
  }
}
