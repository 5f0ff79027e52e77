/** The client transport as the object the source has: its fields change under the locks, one method
    per critical section.  The ghost trace ties every history to a run of the step system. */
module StdioTransport {
  import opened Wrappers
  import opened Messages
  import opened ClientTransport

  lemma Extend(acts: seq<Action>, a: Action)
    requires After(acts).Some? && Enabled(After(acts).value, a)
    ensures After(acts + [a]) == Some(Step(After(acts).value, a))
  {
    assert (acts + [a])[..|acts|] == acts;
  }

  class Transport {
    var calls: seq<Call>
    var pending: map<Id, nat>
    var done: bool
    var reader: Reader
    var serving: seq<Serve>
    ghost var trace: seq<Action>

    function State(): (c: Client)
      reads this
    {
      Client(calls, pending, done, reader, serving)
    }

    ghost predicate Valid()
      reads this
    {
      After(trace) == Some(State())
    }

    constructor ()
      ensures Valid() && trace == [] && State() == INIT
    {
      calls, pending, done, reader, serving := [], map[], false, Idle, [];
      trace := [];
    }

    /** One atomic section of a goroutine other than the read loop: a step of roundTrip, of a serving
        goroutine, or of a shutdown by close. */
    method Move(a: Action)
      requires Valid() && !OfReader(a) && Enabled(State(), a)
      modifies this
      ensures Valid() && trace == old(trace) + [a] && State() == Step(old(State()), a)
    {
      if a == ClientTransport.Drain {
        Drain();
        return;
      }
      Extend(trace, a);
      if OfCall(a) {
        MoveCall(a);
      } else {
        MoveRest(a);
      }
      trace := trace + [a];
    }

    /** The sections of roundTrip, with the winner of its select. */
    method MoveCall(a: Action)
      requires OfCall(a) && Enabled(State(), a)
      modifies this`calls, this`pending
      ensures State() == Step(old(State()), a)
    {
      match a
      case Begin(body) => calls := calls + [Call(body, Named, NewChan())];
      case Register(i) =>
        calls := calls[i := calls[i].(phase := Registered)];
        pending := pending[Cli(i) := i];
      case Write(i) => calls := calls[i := calls[i].(phase := Waiting)];
      case WriteFails(i) =>
        calls := calls[i := calls[i].(phase := Returned(WriteError))];
        pending := pending - {Cli(i)};
      case Cancel(i) => calls := calls[i := calls[i].(phase := Returned(Cancelled))];
      case SeeDone(i) => calls := calls[i := calls[i].(phase := Returned(ConnectionClosed))];
      case Receive(i) =>
        var ch := calls[i].chan;
        if ch.buf.Some? {
          calls := calls[i := calls[i].(phase := Returned(Answer(ch.buf.value)), chan := Received(ch))];
        } else {
          calls := calls[i := calls[i].(phase := Returned(ConnectionClosed))];
        }
    }

    method MoveRest(a: Action)
      requires !OfCall(a) && !OfReader(a) && a != ClientTransport.Drain && Enabled(State(), a)
      modifies this`done, this`serving
      ensures State() == Step(old(State()), a)
    {
      match a
      case CloseDone => done := true;
      case Reply(j, result) => serving := serving[j := serving[j].(reply := Some(result), finished := true)];
      case ReplyFails(j) => serving := serving[j := serving[j].(finished := true)];
      case Notify(_) =>
    }

    /** Whatever the other goroutines do: any number of their steps, each taken if it is possible.
        The read loop stays where it is, and a done transport stays done. */
    method Moves(acts: seq<Action>)
      requires Valid()
      modifies this
      ensures Valid() && reader == old(reader) && (old(done) ==> done)
    {
      var i := 0;
      while i < |acts|
        invariant Valid() && reader == old(reader) && (old(done) ==> done)
      {
        if !OfReader(acts[i]) && CanMove(acts[i]) {
          if acts[i] == ClientTransport.Drain {
            CanDrain(trace);
          }
          OthersKeep(State(), acts[i]);
          Move(acts[i]);
        }
        i := i + 1;
      }
    }

    /** Enabled, as far as it has to be looked at: a done transport can always be drained. */
    predicate CanMove(a: Action)
      reads this
    {
      if a == ClientTransport.Drain then done else Enabled(State(), a)
    }

    /** One inbound message: take the channel out of pending, or start a serving goroutine. */
    method Take(m: Msg)
      requires Valid() && reader == Idle
      modifies this
      ensures Valid() && trace == old(trace) + [Read(m)]
      ensures State() == Step(old(State()), Read(m))
    {
      Extend(trace, Read(m));
      match m {
        case Response(id, _) =>
          if id in pending {
            reader := Sending(pending[id], m);
            pending := pending - {id};
          }
        case Request(id, body) => serving := serving + [Serve(id, body, None, false)];
        case Notice(_) =>
      }
      trace := trace + [Read(m)];
    }

    /** The send: it needs no precondition on the channel, because every history leaves it open and empty. */
    method Send()
      requires Valid() && reader.Sending?
      modifies this
      ensures Valid() && trace == old(trace) + [Push] && reader == Idle
      ensures old(Enabled(State(), Push)) && State() == Step(old(State()), Push)
    {
      ChannelsAreSafe(trace);
      Extend(trace, Push);
      var i := reader.call;
      calls := calls[i := calls[i].(chan := Sent(calls[i].chan, reader.m))];
      reader := Idle;
      trace := trace + [Push];
    }

    /** Marks the transport done and fails what is pending; repeating it is harmless. */
    method Shutdown()
      requires Valid()
      modifies this
      ensures Valid() && trace == old(trace) + [ClientTransport.CloseDone, ClientTransport.Drain]
      ensures done && pending == map[] && reader == old(reader) && serving == old(serving)
    {
      CloseDone();
      Drain();
      assert trace == old(trace) + [ClientTransport.CloseDone, ClientTransport.Drain];
    }

    /** closeOnce: closing the done channel a second time changes nothing. */
    method CloseDone()
      requires Valid()
      modifies this
      ensures Valid() && trace == old(trace) + [ClientTransport.CloseDone]
      ensures State() == Step(old(State()), ClientTransport.CloseDone)
    {
      Extend(trace, ClientTransport.CloseDone);
      done := true;
      trace := trace + [ClientTransport.CloseDone];
    }

    /** The locked part of shutdown. */
    method Drain()
      requires Valid() && done
      modifies this
      ensures Valid() && trace == old(trace) + [ClientTransport.Drain]
      ensures old(Enabled(State(), ClientTransport.Drain)) && State() == Drained(old(State()))
    {
      ghost var before := State();
      CanDrain(trace);
      Extend(trace, ClientTransport.Drain);
      CloseAll();
      assert calls == Drained(before).calls;
      trace := trace + [ClientTransport.Drain];
    }

    /** Closes what is pending, entry by entry, in whatever order the map is walked. */
    method CloseAll()
      requires Closable(pending, calls)
      modifies this`calls, this`pending
      ensures pending == map[] && |calls| == |old(calls)|
      ensures forall i :: 0 <= i < |calls| ==> calls[i] == AfterClose(old(pending), old(calls)[i], i)
    {
      ghost var calls0, pending0 := calls, pending;
      while pending != map[]
        invariant Closable(pending, calls)
        invariant |calls| == |calls0|
        invariant forall i :: 0 <= i < |calls| ==> AfterClose(pending, calls[i], i) == AfterClose(pending0, calls0[i], i)
        decreases |pending|
      {
        var id :| id in pending;
        CloseOne(id);
      }
    }

    method CloseOne(id: Id)
      requires Closable(pending, calls) && id in pending
      modifies this`calls, this`pending
      ensures pending == old(pending) - {id} && |pending| < |old(pending)|
      ensures Closable(pending, calls) && |calls| == |old(calls)|
      ensures forall i :: 0 <= i < |calls| ==> AfterClose(pending, calls[i], i) == AfterClose(old(pending), old(calls)[i], i)
    {
      var i := pending[id];
      calls := calls[i := calls[i].(chan := Closed(calls[i].chan))];
      pending := pending - {id};
      assert old(pending) == pending[id := i];
    }

    /** The read loop over an input, on any schedule of the other goroutines: every message is routed
        without blocking, and at its end every call that waits can return. */
    method ReadLoop(input: seq<Msg>, schedule: nat -> seq<Action>)
      requires Valid() && reader == Idle
      modifies this
      ensures Valid() && reader == Stopped && done && pending == map[]
      ensures forall i :: 0 <= i < |calls| && calls[i].phase == Waiting ==> Enabled(State(), Receive(i))
    {
      var k := 0;
      while k < |input|
        invariant Valid() && reader == Idle && 0 <= k <= |input|
      {
        Moves(schedule(2 * k));
        Take(input[k]);
        Moves(schedule(2 * k + 1));
        if reader.Sending? {
          Send();
        }
        k := k + 1;
      }
      Extend(trace, Eof);
      reader := Stopped;
      trace := trace + [Eof];
      Moves(schedule(2 * k));
      Shutdown();
      NobodyIsLeftWaiting(trace);
    }
  }

  predicate OfCall(a: Action) {
    a.Begin? || a.Register? || a.Write? || a.WriteFails? || a.Cancel? || a.SeeDone? || a.Receive?
  }

  lemma OthersKeep(c: Client, a: Action)
    requires !OfReader(a) && Enabled(c, a)
    ensures Step(c, a).reader == c.reader && (c.done ==> Step(c, a).done)
  {
  }

  /** Every pending entry is keyed by the id of its call, and its channel is open. */
  ghost predicate Closable(pending: map<Id, nat>, calls: seq<Call>) {
    forall id :: id in pending ==> id == Cli(pending[id]) && pending[id] < |calls| && !calls[pending[id]].chan.closed
  }

  /** What closing every pending channel leaves of a call. */
  function AfterClose(pending: map<Id, nat>, call: Call, i: nat): (r: Call) {
    if Cli(i) in pending && !call.chan.closed then call.(chan := Closed(call.chan)) else call
  }

  lemma CanDrain(acts: seq<Action>)
    requires After(acts).Some? && After(acts).value.done
    ensures var c := After(acts).value;
      && Enabled(c, Drain) && Closable(c.pending, c.calls)
      && forall i :: 0 <= i < |c.calls| ==> Drained(c).calls[i] == AfterClose(c.pending, c.calls[i], i)
  {
    ChannelsAreSafe(acts);
    ReachableInv(acts);
    ClosableNow(After(acts).value);
  }

  lemma ClosableNow(c: Client)
    requires Inv(c) && Enabled(c, Drain)
    ensures Closable(c.pending, c.calls)
    ensures forall i :: 0 <= i < |c.calls| ==> Drained(c).calls[i] == AfterClose(c.pending, c.calls[i], i)
  {
    forall i | 0 <= i < |c.calls|
      ensures i in c.pending.Values <==> Cli(i) in c.pending
    {
      if Cli(i) in c.pending {
        assert c.pending[Cli(i)] == i;
      }
    }
  }
}
