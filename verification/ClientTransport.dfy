/** The client half of the session protocol (client/transport.go, client/client.go): every atomic
    step of its goroutines, against a peer that may send anything. */
module ClientTransport {
  import opened Wrappers
  import opened Messages

  datatype Outcome = Answer(m: Msg) | WriteError | Cancelled | ConnectionClosed

  /** Where a goroutine inside roundTrip is. */
  datatype Phase =
    | Named                // id taken from the counter
    | Registered           // channel stored in pending
    | Waiting              // request written, blocked in select
    | Returned(o: Outcome)

  datatype Call = Call(body: Body, phase: Phase, chan: Chan<Msg>)

  /** The read loop between two messages, or between taking a channel out of pending and sending on it. */
  datatype Reader = Idle | Sending(call: nat, m: Msg) | Stopped

  /** A goroutine serving a server-to-client request, and its reply once written. */
  datatype Serve = Serve(id: Id, body: Body, reply: Option<Body>, finished: bool)

  /** calls[i] holds id Cli(i); pending maps ids to the calls whose channels are registered. */
  datatype Client = Client(calls: seq<Call>, pending: map<Id, nat>, done: bool, reader: Reader, serving: seq<Serve>)

  const INIT := Client([], map[], false, Idle, [])

  datatype Action =
    | Begin(body: Body)               // nextID
    | Register(i: nat)                // pending[id] = ch
    | Write(i: nat)                   // the request reaches the wire
    | WriteFails(i: nat)
    | Cancel(i: nat)                  // ctx.Done wins the select
    | SeeDone(i: nat)                 // t.done wins the select
    | Receive(i: nat)                 // the channel wins the select
    | Read(m: Msg)                    // one inbound message, up to the send
    | Push                            // ch <- m
    | Eof                             // the scanner stops
    | CloseDone                       // closeOnce.Do(close(t.done))
    | Drain                           // the locked part of shutdown
    | Notify(body: Body)              // a notification reaches the wire
    | Reply(j: nat, result: Body)     // serveRequest writes its response
    | ReplyFails(j: nat)

  predicate Enabled(c: Client, a: Action) {
    match a
    case Begin(_) => true
    case Register(i) => i < |c.calls| && c.calls[i].phase == Named
    case Write(i) => i < |c.calls| && c.calls[i].phase == Registered
    case WriteFails(i) => i < |c.calls| && c.calls[i].phase == Registered
    case Cancel(i) => i < |c.calls| && c.calls[i].phase == Waiting
    case SeeDone(i) => i < |c.calls| && c.calls[i].phase == Waiting && c.done
    case Receive(i) => i < |c.calls| && c.calls[i].phase == Waiting && (c.calls[i].chan.buf.Some? || c.calls[i].chan.closed)
    case Read(_) => c.reader == Idle
    case Push => c.reader.Sending? && c.reader.call < |c.calls| && CanSend(c.calls[c.reader.call].chan)
    case Eof => c.reader == Idle
    case CloseDone => true
    case Notify(_) => true
    case Drain => c.done && forall id :: id in c.pending ==> c.pending[id] < |c.calls| && !c.calls[c.pending[id]].chan.closed
    case Reply(j, _) => j < |c.serving| && !c.serving[j].finished
    case ReplyFails(j) => j < |c.serving| && !c.serving[j].finished
  }

  function SetPhase(c: Client, i: nat, p: Phase): (r: Client)
    requires i < |c.calls|
  {
    c.(calls := c.calls[i := c.calls[i].(phase := p)])
  }

  function SetChan(c: Client, i: nat, ch: Chan<Msg>): (r: Client)
    requires i < |c.calls|
  {
    c.(calls := c.calls[i := c.calls[i].(chan := ch)])
  }

  function Drained(c: Client): (r: Client)
    requires Enabled(c, Drain)
  {
    c.(pending := map[],
       calls := seq(|c.calls|, i requires 0 <= i < |c.calls| =>
         if i in c.pending.Values && !c.calls[i].chan.closed then c.calls[i].(chan := Closed(c.calls[i].chan)) else c.calls[i]))
  }

  function AfterRead(c: Client, m: Msg): (r: Client) {
    match m
    case Response(id, _) =>
      if id in c.pending then c.(pending := c.pending - {id}, reader := Sending(c.pending[id], m)) else c
    case Notice(_) => c
    case Request(id, body) => c.(serving := c.serving + [Serve(id, body, None, false)])
  }

  function Step(c: Client, a: Action): (r: Client)
    requires Enabled(c, a)
  {
    match a
    case Begin(body) => c.(calls := c.calls + [Call(body, Named, NewChan())])
    case Register(i) => SetPhase(c, i, Registered).(pending := c.pending[Cli(i) := i])
    case Write(i) => SetPhase(c, i, Waiting)
    case WriteFails(i) => SetPhase(c, i, Returned(WriteError)).(pending := c.pending - {Cli(i)})
    case Cancel(i) => SetPhase(c, i, Returned(Cancelled))
    case SeeDone(i) => SetPhase(c, i, Returned(ConnectionClosed))
    case Receive(i) =>
      var ch := c.calls[i].chan;
      if ch.buf.Some? then SetPhase(SetChan(c, i, Received(ch)), i, Returned(Answer(ch.buf.value)))
      else SetPhase(c, i, Returned(ConnectionClosed))
    case Read(m) => AfterRead(c, m)
    case Push => SetChan(c, c.reader.call, Sent(c.calls[c.reader.call].chan, c.reader.m)).(reader := Idle)
    case Eof => c.(reader := Stopped)
    case CloseDone => c.(done := true)
    case Notify(_) => c
    case Drain => Drained(c)
    case Reply(j, result) => c.(serving := c.serving[j := c.serving[j].(reply := Some(result), finished := true)])
    case ReplyFails(j) => c.(serving := c.serving[j := c.serving[j].(finished := true)])
  }

  /** What a step puts on the wire. */
  function Output(c: Client, a: Action): (r: seq<Msg>)
    requires Enabled(c, a)
  {
    match a
    case Write(i) => [Request(Cli(i), c.calls[i].body)]
    case Notify(body) => [Notice(body)]
    case Reply(j, result) => [Response(c.serving[j].id, result)]
    case _ => []
  }

  // ---- What every step keeps ----

  function AtReader(c: Client, i: nat): (r: nat) {
    if c.reader.Sending? && c.reader.call == i then 1 else 0
  }

  /** Everything that has happened, or is about to happen, to the channel of a call. */
  function Tally(c: Client, i: nat): (r: nat)
    requires i < |c.calls|
  {
    (if Cli(i) in c.pending then 1 else 0) + AtReader(c, i) + c.calls[i].chan.sends + c.calls[i].chan.closes
  }

  ghost predicate CallInv(c: Client, i: nat)
    requires i < |c.calls|
  {
    var call := c.calls[i];
    && Tally(c, i) <= 1
    && (call.phase == Named ==> Tally(c, i) == 0)
    && (call.phase != Named && call.phase != Returned(WriteError) ==> Tally(c, i) == 1)
    && (call.chan.closed <==> call.chan.closes > 0)
    && (call.chan.buf.Some? ==> call.chan.sends > 0 && call.chan.buf.value.Response? && call.chan.buf.value.id == Cli(i))
    && (call.chan.sends > 0 && !(call.phase.Returned? && call.phase.o.Answer?) ==> call.chan.buf.Some?)
    && (call.phase.Returned? && call.phase.o.Answer? ==>
          call.chan.sends > 0 && call.chan.buf.None? && call.phase.o.m.Response? && call.phase.o.m.id == Cli(i))
  }

  ghost predicate Inv(c: Client) {
    && (forall id :: id in c.pending ==> id.Cli? && c.pending[id] == id.n && id.n < |c.calls|)
    && (c.reader.Sending? ==> c.reader.call < |c.calls| && c.reader.m.Response? && c.reader.m.id == Cli(c.reader.call))
    && (forall i :: 0 <= i < |c.calls| ==> CallInv(c, i))
    && (forall j :: 0 <= j < |c.serving| && c.serving[j].reply.Some? ==> c.serving[j].finished)
  }

  lemma StepKeepsInv(c: Client, a: Action)
    requires Inv(c) && Enabled(c, a)
    ensures Inv(Step(c, a))
  {
    var r := Step(c, a);
    forall i | 0 <= i < |r.calls|
      ensures CallInv(r, i)
    {
      if a == Drain {
        DrainKeepsCall(c, i);
      } else if OfReader(a) {
        ReaderKeepsCall(c, a, i);
      } else {
        CallerKeepsCall(c, a, i);
      }
    }
  }

  predicate OfReader(a: Action) {
    a.Read? || a.Push? || a.Eof?
  }

  lemma ReaderKeepsCall(c: Client, a: Action, i: nat)
    requires Inv(c) && Enabled(c, a) && OfReader(a) && i < |c.calls|
    ensures CallInv(Step(c, a), i)
  {
    assert CallInv(c, i);
  }

  lemma CallerKeepsCall(c: Client, a: Action, i: nat)
    requires Inv(c) && Enabled(c, a) && !OfReader(a) && a != Drain && i < |Step(c, a).calls|
    ensures CallInv(Step(c, a), i)
  {
    assert i < |c.calls| ==> CallInv(c, i);
  }

  lemma DrainKeepsCall(c: Client, i: nat)
    requires Inv(c) && Enabled(c, Drain) && i < |c.calls|
    ensures CallInv(Drained(c), i)
  {
    assert CallInv(c, i);
    assert Cli(i) in c.pending ==> c.pending[Cli(i)] == i;
    assert i in c.pending.Values ==> Cli(i) in c.pending;
  }

  // ---- Every run, against any peer ----

  /** The state after a sequence of steps, if each was possible when it was taken. */
  function After(acts: seq<Action>): (r: Option<Client>)
  {
    if acts == [] then Some(INIT)
    else
      var before := After(acts[..|acts| - 1]);
      var a := acts[|acts| - 1];
      if before.Some? && Enabled(before.value, a) then Some(Step(before.value, a)) else None
  }

  lemma {:induction false} ReachableInv(acts: seq<Action>)
    requires After(acts).Some?
    ensures Inv(After(acts).value)
  {
    if acts != [] {
      var before := acts[..|acts| - 1];
      ReachableInv(before);
      StepKeepsInv(After(before).value, acts[|acts| - 1]);
    }
  }

  /** Under any interleaving and whatever the peer sends: the read loop never blocks on a send and
      never sends on a closed channel; shutdown never closes a channel twice; each channel gets at
      most one send or close; an answer carries the id of the call that returns it. */
  lemma ChannelsAreSafe(acts: seq<Action>)
    requires After(acts).Some?
    ensures var c := After(acts).value;
      && (c.reader.Sending? ==> Enabled(c, Push))
      && (c.done ==> Enabled(c, Drain))
      && (forall i :: 0 <= i < |c.calls| ==>
            var call := c.calls[i];
            && call.chan.sends + call.chan.closes <= 1
            && (call.phase.Returned? && call.phase.o.Answer? ==>
                  call.chan.sends == 1 && call.phase.o.m.Response? && call.phase.o.m.id == Cli(i)))
  {
    ReachableInv(acts);
    var c := After(acts).value;
    if c.reader.Sending? {
      assert CallInv(c, c.reader.call);
    }
    forall id | id in c.pending
      ensures c.pending[id] < |c.calls| && !c.calls[c.pending[id]].chan.closed
    {
      assert CallInv(c, id.n);
    }
    forall i | 0 <= i < |c.calls|
      ensures var call := c.calls[i];
              && call.chan.sends + call.chan.closes <= 1
              && (call.phase.Returned? && call.phase.o.Answer? ==>
                    call.chan.sends == 1 && call.phase.o.m.Response? && call.phase.o.m.id == Cli(i))
    {
      assert CallInv(c, i);
    }
  }

  /** Once shutdown has drained the pending map and the read loop holds no message, every call
      whose request was written has its channel filled or closed: none is left waiting for good. */
  lemma NobodyIsLeftWaiting(acts: seq<Action>)
    requires After(acts).Some?
    ensures var c := After(acts).value;
      c.pending == map[] && !c.reader.Sending? ==>
        forall i :: 0 <= i < |c.calls| && c.calls[i].phase == Waiting ==> Enabled(c, Receive(i))
  {
    ReachableInv(acts);
    var c := After(acts).value;
    if c.pending == map[] && !c.reader.Sending? {
      forall i | 0 <= i < |c.calls| && c.calls[i].phase == Waiting
        ensures Enabled(c, Receive(i))
      {
        assert CallInv(c, i);
      }
    }
  }

  // ---- Everybody can move on ----

  /** A call is never without a step of its own: it can register, write or fail to write; while it waits
      it can be cancelled, see a shutdown, or receive what is there. */
  lemma CallCanMove(c: Client, i: nat)
    requires i < |c.calls|
    ensures match c.calls[i].phase
      case Named => Enabled(c, Register(i))
      case Registered => Enabled(c, Write(i)) && Enabled(c, WriteFails(i))
      case Waiting => Enabled(c, Cancel(i)) && (c.done ==> Enabled(c, SeeDone(i))) && (c.calls[i].chan.buf.Some? ==> Enabled(c, Receive(i)))
      case Returned(_) => true
  {
  }

  /** The read loop can take any message and send what it holds; a goroutine that serves a request can
      answer it, whatever its handler returns. */
  lemma ReaderCanMove(acts: seq<Action>, m: Msg, j: nat, result: Body)
    requires After(acts).Some?
    ensures var c := After(acts).value;
      && (c.reader == Idle ==> Enabled(c, Eof) && Enabled(c, Read(m)))
      && (c.reader.Sending? ==> Enabled(c, Push))
      && (j < |c.serving| && !c.serving[j].finished ==> Enabled(c, Reply(j, result)) && Enabled(c, ReplyFails(j)))
  {
    ChannelsAreSafe(acts);
  }
}
