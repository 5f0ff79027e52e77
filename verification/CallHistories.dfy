/** What a call returns, told from the steps that were taken (client/transport.go, roundTrip): the
    phase of every call is a function of the history alone. */
module CallHistories {
  import opened Wrappers
  import opened Messages
  import opened ClientTransport

  predicate Tells(m: Msg, i: nat) {
    m.Response? && m.id == Cli(i)
  }

  /** Which steps of a call were taken; whether its channel is still registered, which neither a failed
      write nor a shutdown leaves it; and the first response read under its id while it was. */
  datatype History = History(registered: bool, written: bool, failed: bool, cancelled: bool, sawDone: bool,
                             received: bool, listening: bool, first: Option<Msg>)

  const NOTHING := History(false, false, false, false, false, false, false, None)

  function Next(h: History, a: Action, i: nat): (r: History) {
    History(h.registered || a == Register(i), h.written || a == Write(i), h.failed || a == WriteFails(i),
            h.cancelled || a == Cancel(i), h.sawDone || a == SeeDone(i), h.received || a == Receive(i),
            a == Register(i) || (h.listening && a != WriteFails(i) && a != Drain),
            if h.first.None? && h.listening && a.Read? && Tells(a.m, i) then Some(a.m) else h.first)
  }

  function HistoryOf(acts: seq<Action>, i: nat): (r: History)
  {
    if acts == [] then NOTHING else Next(HistoryOf(acts[..|acts| - 1], i), acts[|acts| - 1], i)
  }

  lemma {:induction false} HistoryMeans(acts: seq<Action>, i: nat)
    ensures var h := HistoryOf(acts, i);
      && (h.registered <==> Register(i) in acts) && (h.written <==> Write(i) in acts)
      && (h.failed <==> WriteFails(i) in acts) && (h.cancelled <==> Cancel(i) in acts)
      && (h.sawDone <==> SeeDone(i) in acts) && (h.received <==> Receive(i) in acts)
  {
    if acts != [] {
      HistoryMeans(acts[..|acts| - 1], i);
      Taken(acts, Register(i));
      Taken(acts, Write(i));
      Taken(acts, WriteFails(i));
      Taken(acts, Cancel(i));
      Taken(acts, SeeDone(i));
      Taken(acts, Receive(i));
    }
  }

  lemma {:induction false} FirstWasRead(acts: seq<Action>, i: nat)
    ensures var first := HistoryOf(acts, i).first; first.Some? ==> Tells(first.value, i) && Read(first.value) in acts
  {
    if acts != [] {
      FirstWasRead(acts[..|acts| - 1], i);
    }
  }

  lemma Taken(acts: seq<Action>, a: Action)
    requires acts != []
    ensures a in acts <==> a in acts[..|acts| - 1] || a == acts[|acts| - 1]
  {
    assert acts == acts[..|acts| - 1] + [acts[|acts| - 1]];
  }

  /** Where the steps taken leave a call: the one that ended it decides what it returns. */
  function PhaseOf(h: History): (r: Phase) {
    if h.failed then Returned(WriteError)
    else if h.cancelled then Returned(Cancelled)
    else if h.sawDone then Returned(ConnectionClosed)
    else if h.received then if h.first.Some? then Returned(Answer(h.first.value)) else Returned(ConnectionClosed)
    else if h.written then Waiting
    else if h.registered then Registered
    else Named
  }

  /** How many of the steps that end a call were taken for it. */
  function Endings(h: History): (r: nat) {
    (if h.failed then 1 else 0) + (if h.cancelled then 1 else 0) + (if h.sawDone then 1 else 0) + (if h.received then 1 else 0)
  }

  /** The channel of a call holds the first response, and only a shutdown closes it. */
  ghost predicate ChanTold(h: History, c: Client, i: nat)
    requires i < |c.calls|
  {
    var ch := c.calls[i].chan;
    && (Cli(i) in c.pending <==> h.listening && h.first.None?)
    && (ch.buf.Some? ==> ch.buf == h.first)
    && (c.reader.Sending? && c.reader.call == i ==> h.first == Some(c.reader.m))
    && (h.first.Some? <==> AtReader(c, i) + ch.sends > 0)
    && (ch.closes > 0 ==> c.done)
  }

  ghost predicate PhaseTold(h: History, c: Client, i: nat)
    requires i < |c.calls|
  {
    && c.calls[i].phase == PhaseOf(h) && Endings(h) <= 1
    && (c.calls[i].phase == Returned(ConnectionClosed) ==> c.done)
    && (h.received && h.first.None? ==> c.calls[i].chan.closes > 0)
  }

  lemma ReadKeepsChan(h: History, c: Client, m: Msg, i: nat)
    requires Inv(c) && c.reader == Idle && i < |c.calls| && ChanTold(h, c, i)
    ensures ChanTold(Next(h, Read(m), i), AfterRead(c, m), i)
  {
    assert CallInv(c, i);
  }

  lemma PushKeepsChan(h: History, c: Client, i: nat)
    requires Inv(c) && Enabled(c, Push) && i < |c.calls| && ChanTold(h, c, i)
    ensures ChanTold(h, Step(c, Push), i)
  {
    assert CallInv(c, i);
  }

  lemma CallerKeepsChan(h: History, c: Client, a: Action, i: nat)
    requires Inv(c) && Enabled(c, a) && i < |c.calls| && ChanTold(h, c, i) && PhaseTold(h, c, i) && !a.Read? && a != Push && a != Drain
    ensures ChanTold(Next(h, a, i), Step(c, a), i)
  {
    assert CallInv(c, i);
  }

  lemma DrainKeepsChan(h: History, c: Client, i: nat)
    requires Inv(c) && Enabled(c, Drain) && i < |c.calls| && ChanTold(h, c, i)
    ensures ChanTold(Next(h, Drain, i), Drained(c), i)
  {
    assert CallInv(c, i);
  }

  lemma OthersKeepPhase(h: History, c: Client, a: Action, i: nat)
    requires Inv(c) && Enabled(c, a) && i < |c.calls| && ChanTold(h, c, i) && PhaseTold(h, c, i)
    requires OfReader(a) || a == Drain
    ensures PhaseTold(Next(h, a, i), Step(c, a), i)
  {
    assert CallInv(c, i);
  }

  lemma CallsKeepPhase(h: History, c: Client, a: Action, i: nat)
    requires Inv(c) && Enabled(c, a) && i < |c.calls| && ChanTold(h, c, i) && PhaseTold(h, c, i)
    requires !OfReader(a) && a != Drain
    ensures PhaseTold(Next(h, a, i), Step(c, a), i)
  {
    assert CallInv(c, i);
  }

  lemma StepKeepsPhase(h: History, c: Client, a: Action, i: nat)
    requires Inv(c) && Enabled(c, a) && i < |c.calls| && ChanTold(h, c, i) && PhaseTold(h, c, i)
    ensures PhaseTold(Next(h, a, i), Step(c, a), i)
  {
    if OfReader(a) || a == Drain {
      OthersKeepPhase(h, c, a, i);
    } else {
      CallsKeepPhase(h, c, a, i);
    }
  }

  lemma StepKeepsChan(h: History, c: Client, a: Action, i: nat)
    requires Inv(c) && Enabled(c, a) && i < |c.calls| && ChanTold(h, c, i) && PhaseTold(h, c, i)
    ensures ChanTold(Next(h, a, i), Step(c, a), i)
  {
    if a == Drain {
      DrainKeepsChan(h, c, i);
    } else if a.Read? {
      ReadKeepsChan(h, c, a.m, i);
    } else if a == Push {
      PushKeepsChan(h, c, i);
    } else {
      CallerKeepsChan(h, c, a, i);
    }
  }

  lemma {:induction false} NotBegun(acts: seq<Action>, i: nat)
    requires After(acts).Some? && i >= |After(acts).value.calls|
    ensures HistoryOf(acts, i) == NOTHING
  {
    if acts != [] {
      Grows(After(acts[..|acts| - 1]).value, acts[|acts| - 1]);
      NotBegun(acts[..|acts| - 1], i);
      LaterCall(After(acts[..|acts| - 1]).value, acts[|acts| - 1], i);
    }
  }

  lemma LaterCall(c: Client, a: Action, i: nat)
    requires Enabled(c, a) && i >= |c.calls|
    ensures Next(NOTHING, a, i) == NOTHING
  {
  }

  ghost predicate Told(acts: seq<Action>, i: nat)
    requires After(acts).Some? && i < |After(acts).value.calls|
  {
    match After(acts)
    case Some(c) => ChanTold(HistoryOf(acts, i), c, i) && PhaseTold(HistoryOf(acts, i), c, i)
  }

  /** A call just begun. */
  lemma NewCallTold(acts: seq<Action>, i: nat)
    requires acts != [] && After(acts).Some? && i < |After(acts).value.calls|
    requires i >= |After(acts[..|acts| - 1]).value.calls|
    ensures Told(acts, i)
  {
    var before, a := acts[..|acts| - 1], acts[|acts| - 1];
    ReachableInv(before);
    NotBegun(before, i);
    Grows(After(before).value, a);
    BegunTold(After(before).value, a.body);
  }

  lemma Grows(c: Client, a: Action)
    requires Enabled(c, a)
    ensures |Step(c, a).calls| == |c.calls| + if a.Begin? then 1 else 0
  {
  }

  lemma BegunTold(c: Client, body: Body)
    requires Inv(c)
    ensures var i, r := |c.calls|, Step(c, Begin(body)); ChanTold(NOTHING, r, i) && PhaseTold(NOTHING, r, i)
  {
    assert Cli(|c.calls|) !in c.pending;
  }

  lemma OldCallTold(acts: seq<Action>, i: nat)
    requires acts != [] && After(acts).Some? && i < |After(acts[..|acts| - 1]).value.calls|
    requires Told(acts[..|acts| - 1], i)
    ensures i < |After(acts).value.calls| && Told(acts, i)
  {
    var before, a := acts[..|acts| - 1], acts[|acts| - 1];
    ReachableInv(before);
    StepKeepsChan(HistoryOf(before, i), After(before).value, a, i);
    StepKeepsPhase(HistoryOf(before, i), After(before).value, a, i);
  }

  lemma {:induction false} HistoryTold(acts: seq<Action>, i: nat)
    requires After(acts).Some? && i < |After(acts).value.calls|
    ensures Told(acts, i)
  {
    var before := acts[..|acts| - 1];
    if i < |After(before).value.calls| {
      HistoryTold(before, i);
      OldCallTold(acts, i);
    } else {
      NewCallTold(acts, i);
    }
  }

  /** The bodies given to the calls that were begun, in order. */
  function Begun(acts: seq<Action>): (r: seq<Body>)
  {
    if acts == [] then []
    else
      var a := acts[|acts| - 1];
      Begun(acts[..|acts| - 1]) + if a.Begin? then [a.body] else []
  }

  lemma BegunStep(c: Client, a: Action)
    requires Enabled(c, a)
    ensures var r := Step(c, a);
      && Bodies(r) == Bodies(c) + (if a.Begin? then [a.body] else [])
      && (r.done <==> c.done || a == CloseDone)
  {
  }

  function Bodies(c: Client): (r: seq<Body>) {
    seq(|c.calls|, i requires 0 <= i < |c.calls| => c.calls[i].body)
  }

  lemma {:induction false} CallsAreBegun(acts: seq<Action>)
    requires After(acts).Some?
    ensures Bodies(After(acts).value) == Begun(acts) && (After(acts).value.done <==> CloseDone in acts)
  {
    if acts != [] {
      var n := |acts| - 1;
      CallsAreBegun(acts[..n]);
      BegunStep(After(acts[..n]).value, acts[n]);
      Taken(acts, CloseDone);
    }
  }

  /** Over every run: a call returns the first response that was read for it once its channel wins the
      select, and nothing else; it returns an error only when its context was cancelled, its write
      failed, or the transport was shut down. */
  lemma CallReturns(acts: seq<Action>, i: nat)
    requires After(acts).Some? && i < |After(acts).value.calls|
    ensures var phase, first := After(acts).value.calls[i].phase, HistoryOf(acts, i).first;
      && (forall m :: phase == Returned(Answer(m)) <==> Receive(i) in acts && first == Some(m))
      && (phase == Returned(Cancelled) <==> Cancel(i) in acts)
      && (phase == Returned(WriteError) <==> WriteFails(i) in acts)
      && (phase == Returned(ConnectionClosed) <==> SeeDone(i) in acts || (Receive(i) in acts && first.None?))
      && (phase == Returned(ConnectionClosed) ==> CloseDone in acts)
      && (phase == Waiting <==> Write(i) in acts && !phase.Returned?)
  {
    HistoryTold(acts, i);
    HistoryMeans(acts, i);
    CallsAreBegun(acts);
  }

  /** Once shutdown has drained the pending map and the read loop holds no message, every waiting call
      can return, with the response that was read for it if there was one. */
  lemma WaitingCallReturns(acts: seq<Action>, i: nat)
    requires After(acts).Some? && i < |After(acts).value.calls| && After(acts).value.calls[i].phase == Waiting
    requires After(acts).value.pending == map[] && !After(acts).value.reader.Sending?
    ensures var next, first := acts + [Receive(i)], HistoryOf(acts, i).first;
      && After(next).Some? && i < |After(next).value.calls|
      && After(next).value.calls[i].phase == Returned(if first.Some? then Answer(first.value) else ConnectionClosed)
      && (first.None? ==> CloseDone in acts)
  {
    NobodyIsLeftWaiting(acts);
    var next := acts + [Receive(i)];
    assert next[..|acts|] == acts;
    CallReturns(next, i);
  }
}
