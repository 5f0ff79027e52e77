/** The server session as the object the source has, and ServeStdio over it.  The ghost trace ties
    every history to a run of the step system. */
module SessionObject {
  import opened Wrappers
  import opened Messages
  import opened ServerSession
  import opened Counting
  import R = ReplyDiscipline

  class Session {
    var outs: seq<Out>
    var pending: map<Id, nat>
    var tasks: seq<Task>
    var wg: nat
    var reader: Reader
    var stage: Stage
    var registered: bool
    ghost var trace: seq<Action>

    function State(): (s: Server)
      reads this
    {
      Server(outs, pending, tasks, wg, reader, stage, registered)
    }

    ghost predicate Valid()
      reads this
    {
      After(trace) == Some(State())
    }

    constructor ()
      ensures Valid() && trace == [] && State() == INIT
    {
      outs, pending, tasks, wg, reader, stage, registered := [], map[], [], 0, Idle, Serving, true;
      trace := [];
    }

    /** One atomic section of a goroutine other than the read loop: a step of request, or of a
        dispatch goroutine. */
    method Move(a: Action)
      requires Valid() && !OfReader(a) && Enabled(State(), a)
      modifies this
      ensures Valid() && trace == old(trace) + [a] && State() == Step(old(State()), a)
    {
      R.AfterSnoc(trace, a);
      if OfRequest(a) {
        MoveRequest(a);
      } else if !a.Notify? {
        MoveTask(a);
      }
      trace := trace + [a];
    }

    method MoveRequest(a: Action)
      requires OfRequest(a) && Enabled(State(), a)
      modifies this`outs, this`pending
      ensures State() == Step(old(State()), a)
    {
      match a
      case Begin(body) => outs := outs + [Out(body, Named, NewChan())];
      case Register(k) =>
        outs := outs[k := outs[k].(phase := Registered)];
        pending := pending[Srv(k) := k];
      case Write(k) => outs := outs[k := outs[k].(phase := Waiting)];
      case WriteFails(k) => outs := outs[k := outs[k].(phase := Leaving(WriteError))];
      case Receive(k) =>
        var ch := outs[k].chan;
        outs := outs[k := outs[k].(phase := Leaving(Answer(ch.buf.value)), chan := Received(ch))];
      case Cancel(k) => outs := outs[k := outs[k].(phase := Leaving(Cancelled))];
      case Cleanup(k) =>
        outs := outs[k := outs[k].(phase := Returned(outs[k].phase.o))];
        pending := pending - {Srv(k)};
    }

    method MoveTask(a: Action)
      requires OfTask(a) && Enabled(State(), a)
      modifies this`tasks, this`wg
      ensures State() == Step(old(State()), a)
    {
      var t := tasks[a.j];
      match a
      case Respond(j, result) => tasks := tasks[j := t.(status := Responded, reply := Some(result), writes := t.writes + 1)];
      case RespondFails(j) => tasks := tasks[j := t.(status := Responded, writes := t.writes + 1)];
      case StaySilent(j) => tasks := tasks[j := t.(status := Responded)];
      case Done(j) =>
        tasks := tasks[j := t.(status := Finished)];
        wg := wg - 1;
    }

    /** Whatever the other goroutines do: any number of their steps, each taken if it is possible, with
        responses as dispatch gives them.  The read loop stays where it is. */
    method Moves(acts: seq<Action>, dispatch: Msg -> Body)
      requires Valid() && Dispatched(tasks, dispatch)
      modifies this
      ensures Valid() && Inbound(trace) == Inbound(old(trace)) && Dispatched(tasks, dispatch)
      ensures reader == old(reader) && stage == old(stage) && registered == old(registered)
    {
      var i := 0;
      while i < |acts|
        invariant Valid() && Inbound(trace) == Inbound(old(trace)) && Dispatched(tasks, dispatch)
        invariant reader == old(reader) && stage == old(stage) && registered == old(registered)
      {
        var a := Answering(acts[i], tasks, dispatch);
        if !OfReader(a) && Enabled(State(), a) {
          R.AfterSnoc(trace, a);
          OthersKeep(State(), a);
          StepDispatches(State(), a, dispatch);
          Move(a);
        }
        i := i + 1;
      }
    }

    /** handle up to the send of deliver. */
    method Take(m: Msg)
      requires Valid() && stage == Serving && reader == Idle
      modifies this
      ensures Valid() && trace == old(trace) + [Read(m)] && stage == Serving && registered == old(registered)
      ensures Inbound(trace) == Inbound(old(trace)) + [m]
      ensures tasks == old(tasks) + if m.Response? then [] else [Task(m, Running, None, 0)]
    {
      R.AfterSnoc(trace, Read(m));
      match m {
        case Response(id, b) =>
          if id in pending {
            reader := Delivering(pending[id], b);
          }
        case _ =>
          tasks := tasks + [Task(m, Running, None, 0)];
          wg := wg + 1;
      }
      trace := trace + [Read(m)];
    }

    /** The send of deliver, possible after any history in which no id is answered twice. */
    method Deliver()
      requires Valid() && reader.Delivering? && R.AnswersOnce(Inbound(trace))
      modifies this
      ensures Valid() && trace == old(trace) + [ServerSession.Deliver]
      ensures Inbound(trace) == Inbound(old(trace))
      ensures old(Enabled(State(), ServerSession.Deliver)) && State() == Step(old(State()), ServerSession.Deliver)
      ensures tasks == old(tasks)
    {
      R.NeverStuck(trace);
      R.AfterSnoc(trace, ServerSession.Deliver);
      var k := reader.out;
      outs := outs[k := outs[k].(chan := Sent(outs[k].chan, reader.b))];
      reader := Idle;
      trace := trace + [ServerSession.Deliver];
    }

    /** One message from start to end, with other goroutines running before the send. */
    method Handle(m: Msg, between: seq<Action>, dispatch: Msg -> Body)
      requires Valid() && stage == Serving && reader == Idle && R.AnswersOnce(Inbound(trace) + [m])
      requires Dispatched(tasks, dispatch)
      modifies this
      ensures Valid() && stage == Serving && reader == Idle && registered == old(registered)
      ensures Dispatched(tasks, dispatch)
      ensures Inbound(trace) == Inbound(old(trace)) + [m]
    {
      Take(m);
      Moves(between, dispatch);
      if reader.Delivering? {
        Deliver();
      }
    }

    /** Dispatch and the write of its response; a notification gets none. */
    method Dispatch(j: nat, result: Body, ok: bool)
      requires Valid() && j < |tasks| && tasks[j].status == Running
      modifies this
      ensures Valid() && Inbound(trace) == Inbound(old(trace)) && stage == old(stage) && registered == old(registered)
      ensures |tasks| == |old(tasks)| && tasks[j].status == Responded && tasks[j].req == old(tasks[j].req)
      ensures tasks[j].writes == if tasks[j].req.Request? then 1 else 0
      ensures tasks[j].reply == if tasks[j].req.Request? && ok then Some(result) else None
      ensures forall i :: 0 <= i < |tasks| && i != j ==> tasks[i] == old(tasks[i])
    {
      FreshTask(trace, j);
      var a := if tasks[j].req.Notice? then StaySilent(j) else if ok then Respond(j, result) else RespondFails(j);
      OthersKeep(State(), a);
      R.AfterSnoc(trace, a);
      AnswersTask(State(), a);
      Move(a);
    }

    /** wg.Done. */
    method Done(j: nat)
      requires Valid() && j < |tasks| && tasks[j].status == Responded
      modifies this
      ensures Valid() && Inbound(trace) == Inbound(old(trace)) && stage == old(stage) && registered == old(registered)
      ensures tasks == old(tasks)[j := old(tasks[j]).(status := Finished)] && wg == old(wg) - 1
    {
      StillCounted(trace, j);
      R.AfterSnoc(trace, ServerSession.Done(j));
      Move(ServerSession.Done(j));
    }

    /** The scanner loop of ServeStdio, on any schedule of the other goroutines. */
    method Scan(input: seq<Msg>, schedule: nat -> seq<Action>, dispatch: Msg -> Body)
      requires State() == INIT && trace == [] && R.AnswersOnce(input)
      modifies this
      ensures Valid() && stage == Draining && registered && Inbound(trace) == input
      ensures Dispatched(tasks, dispatch)
    {
      var i := 0;
      while i < |input|
        invariant 0 <= i <= |input| && Valid() && stage == Serving && reader == Idle && registered
        invariant Inbound(trace) == input[..i] && Dispatched(tasks, dispatch)
      {
        Moves(schedule(2 * i), dispatch);
        assert input[..i + 1] == input[..i] + [input[i]];
        Handle(input[i], schedule(2 * i + 1), dispatch);
        i := i + 1;
      }
      assert input[..i] == input;
      R.AfterSnoc(trace, StopReading);
      stage := Draining;
      trace := trace + [StopReading];
    }

    /** Lets one task run to its end, from wherever it is. */
    method Finish(j: nat, result: Body, ok: bool)
      requires Valid() && stage == Draining && j < |tasks|
      modifies this
      ensures Valid() && stage == Draining && registered == old(registered) && Inbound(trace) == Inbound(old(trace))
      ensures |tasks| == |old(tasks)| && tasks[j].status == Finished && tasks[j].req == old(tasks[j].req)
      ensures tasks[j].reply == if old(tasks[j].status) == Running then if tasks[j].req.Request? && ok then Some(result) else None else old(tasks[j].reply)
      ensures forall i :: 0 <= i < |tasks| && i != j ==> tasks[i] == old(tasks[i])
    {
      if tasks[j].status == Running {
        Dispatch(j, result, ok);
      }
      if tasks[j].status == Responded {
        Done(j);
      }
    }

    /** The dispatch goroutines still running at the end of the input come to their ends. */
    method FinishAll(dispatch: Msg -> Body, writeOk: nat -> bool)
      requires Valid() && stage == Draining
      modifies this
      ensures Valid() && stage == Draining && registered == old(registered) && Inbound(trace) == Inbound(old(trace))
      ensures forall j :: 0 <= j < |tasks| ==> tasks[j].status == Finished
      ensures old(Dispatched(tasks, dispatch)) ==> Dispatched(tasks, dispatch)
    {
      var j := 0;
      while j < |tasks|
        invariant 0 <= j <= |tasks| && Valid() && stage == Draining && registered == old(registered)
        invariant Inbound(trace) == Inbound(old(trace)) && (old(Dispatched(tasks, dispatch)) ==> Dispatched(tasks, dispatch))
        invariant forall k :: 0 <= k < j ==> tasks[k].status == Finished
      {
        Finish(j, dispatch(tasks[j].req), writeOk(j));
        j := j + 1;
      }
    }

    /** The deferred wait, which returns because no task is left, and the deferred deregistration. */
    method WaitAndDeregister()
      requires Valid() && stage == Draining && forall j :: 0 <= j < |tasks| ==> tasks[j].status == Finished
      modifies this
      ensures Valid() && Inbound(trace) == Inbound(old(trace)) && stage == Stopped && !registered && wg == 0
      ensures tasks == old(tasks)
    {
      NothingCounted(trace);
      R.AfterSnoc(trace, Wait);
      stage := Waited;
      trace := trace + [Wait];
      Deregister();
    }

    method Deregister()
      requires Valid() && stage == Waited
      modifies this
      ensures Valid() && Inbound(trace) == Inbound(old(trace)) && stage == Stopped && !registered && wg == old(wg)
      ensures tasks == old(tasks)
    {
      R.AfterSnoc(trace, ServerSession.Deregister);
      stage, registered := Stopped, false;
      trace := trace + [ServerSession.Deregister];
    }

    /** ServeStdio on any input that answers no id twice and on any schedule of handlers, of their own
        requests to the client and of cancellations: every message is handled without blocking, and
        before the session is deregistered each request read has had exactly one response written or
        attempted, each notification none.  What was written is what dispatch gives for that very
        request; nothing was written only where the write failed. */
    method ServeStdio(input: seq<Msg>, schedule: nat -> seq<Action>, dispatch: Msg -> Body, writeOk: nat -> bool)
      requires State() == INIT && trace == [] && R.AnswersOnce(input)
      modifies this
      ensures Valid() && Inbound(trace) == input && stage == Stopped && !registered && wg == 0
      ensures AllServed(tasks, Calls(input)) && Dispatched(tasks, dispatch)
      ensures forall j :: 0 <= j < |tasks| && tasks[j].req.Request? && tasks[j].reply.None? ==> RespondFails(j) in trace
    {
      Scan(input, schedule, dispatch);
      FinishAll(dispatch, writeOk);
      WaitAndDeregister();
      ServeDrains(trace);
      forall j | 0 <= j < |tasks|
        ensures TaskTold(trace, j, tasks[j])
      {
        TasksTold(trace, j);
      }
    }
  }

  /** Every reply is what dispatch gives for the task's own request. */
  ghost predicate Dispatched(tasks: seq<Task>, dispatch: Msg -> Body) {
    forall j :: 0 <= j < |tasks| && tasks[j].reply.Some? ==> tasks[j].reply.value == dispatch(tasks[j].req)
  }

  /** A scheduled response carries what dispatch gives. */
  function Answering(a: Action, tasks: seq<Task>, dispatch: Msg -> Body): (r: Action) {
    if a.Respond? && a.j < |tasks| then Respond(a.j, dispatch(tasks[a.j].req)) else a
  }

  lemma StepDispatches(s: Server, a: Action, dispatch: Msg -> Body)
    requires Dispatched(s.tasks, dispatch) && Enabled(s, a) && (a.Respond? ==> a.result == dispatch(s.tasks[a.j].req))
    ensures Dispatched(Step(s, a).tasks, dispatch)
  {
  }

  predicate OfReader(a: Action) {
    a.Read? || a.Deliver? || a.StopReading? || a.Wait? || a.Deregister?
  }

  predicate OfRequest(a: Action) {
    a.Begin? || a.Register? || a.Write? || a.WriteFails? || a.Receive? || a.Cancel? || a.Cleanup?
  }

  predicate OfTask(a: Action) {
    a.Respond? || a.RespondFails? || a.StaySilent? || a.Done?
  }

  lemma OthersKeep(s: Server, a: Action)
    requires !OfReader(a) && Enabled(s, a)
    ensures var r := Step(s, a); r.reader == s.reader && r.stage == s.stage && r.registered == s.registered
  {
  }

  /** One task moves on, and what is written for it is written once. */
  lemma AnswersTask(s: Server, a: Action)
    requires (a.Respond? || a.RespondFails? || a.StaySilent?) && Enabled(s, a)
    ensures var t, u, r := s.tasks[a.j], Step(s, a).tasks[a.j], Step(s, a);
      && r.tasks == s.tasks[a.j := u] && u.status == Responded && u.req == t.req
      && u.writes == t.writes + (if a.StaySilent? then 0 else 1) && u.reply == if a.Respond? then Some(a.result) else t.reply
  {
  }

  lemma FreshTask(acts: seq<Action>, j: nat)
    requires After(acts).Some? && j < |After(acts).value.tasks| && After(acts).value.tasks[j].status == Running
    ensures var t := After(acts).value.tasks[j]; !t.req.Response? && t.writes == 0 && t.reply.None?
  {
    ReachableInv(acts);
    assert TaskInv(After(acts).value.tasks[j]);
  }

  lemma StillCounted(acts: seq<Action>, j: nat)
    requires After(acts).Some? && j < |After(acts).value.tasks| && After(acts).value.tasks[j].status != Finished
    ensures After(acts).value.wg > 0
  {
    ReachableInv(acts);
    CountHit(After(acts).value.tasks, j, Busy());
  }

  lemma NothingCounted(acts: seq<Action>)
    requires After(acts).Some?
    requires var tasks := After(acts).value.tasks; forall j :: 0 <= j < |tasks| ==> tasks[j].status == Finished
    ensures After(acts).value.wg == 0
  {
    ReachableInv(acts);
    CountNone(After(acts).value.tasks, Busy());
  }
}
