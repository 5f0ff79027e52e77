/** What a server-to-client request returns, told from the steps that were taken (session.go, request). */
module RequestHistories {
  import opened Wrappers
  import opened Messages
  import opened ServerSession

  predicate Tells(m: Msg, k: nat) {
    m.Response? && m.id == Srv(k)
  }

  /** Which steps of a request were taken, and the first response read under its id between its
      registration and its deferred removal. */
  datatype History = History(registered: bool, written: bool, failed: bool, cancelled: bool, received: bool,
                             removed: bool, first: Option<Body>)

  const NOTHING := History(false, false, false, false, false, false, None)

  function Next(h: History, a: Action, k: nat): (r: History) {
    History(h.registered || a == Register(k), h.written || a == Write(k), h.failed || a == WriteFails(k),
            h.cancelled || a == Cancel(k), h.received || a == Receive(k), h.removed || a == Cleanup(k),
            if h.first.None? && h.registered && !h.removed && a.Read? && Tells(a.m, k) then Some(a.m.body) else h.first)
  }

  function HistoryOf(acts: seq<Action>, k: nat): (r: History)
  {
    if acts == [] then NOTHING else Next(HistoryOf(acts[..|acts| - 1], k), acts[|acts| - 1], k)
  }

  lemma Taken(acts: seq<Action>, a: Action)
    requires acts != []
    ensures a in acts <==> a in acts[..|acts| - 1] || a == acts[|acts| - 1]
  {
    assert acts == acts[..|acts| - 1] + [acts[|acts| - 1]];
  }

  lemma {:induction false} HistoryMeans(acts: seq<Action>, k: nat)
    ensures var h := HistoryOf(acts, k);
      && (h.registered <==> Register(k) in acts) && (h.written <==> Write(k) in acts)
      && (h.failed <==> WriteFails(k) in acts) && (h.cancelled <==> Cancel(k) in acts)
      && (h.received <==> Receive(k) in acts) && (h.removed <==> Cleanup(k) in acts)
  {
    if acts != [] {
      HistoryMeans(acts[..|acts| - 1], k);
      Taken(acts, Register(k));
      Taken(acts, Write(k));
      Taken(acts, WriteFails(k));
      Taken(acts, Cancel(k));
      Taken(acts, Receive(k));
      Taken(acts, Cleanup(k));
    }
  }

  lemma {:induction false} FirstWasRead(acts: seq<Action>, k: nat)
    ensures var first := HistoryOf(acts, k).first; first.Some? ==> Read(Response(Srv(k), first.value)) in acts
  {
    if acts != [] {
      FirstWasRead(acts[..|acts| - 1], k);
    }
  }

  /** The step that won the select, or the failed write, decides the outcome. */
  function OutcomeOf(h: History): (r: Option<Outcome>) {
    if h.failed then Some(WriteError)
    else if h.cancelled then Some(Cancelled)
    else if h.received && h.first.Some? then Some(Answer(h.first.value))
    else None
  }

  function PhaseOf(h: History): (r: Phase) {
    match OutcomeOf(h)
    case Some(o) => if h.removed then Returned(o) else Leaving(o)
    case None => if h.written then Waiting else if h.registered then Registered else Named
  }

  /** How many of the steps that end a request were taken for it. */
  function Endings(h: History): (r: nat) {
    (if h.failed then 1 else 0) + (if h.cancelled then 1 else 0) + (if h.received then 1 else 0)
  }

  /** Until the request has received, its channel holds the first response or is still to get it. */
  ghost predicate ChanTold(h: History, s: Server, k: nat)
    requires k < |s.outs|
  {
    var ch := s.outs[k].chan;
    && (!h.received && ch.sends > 0 ==> ch.buf == h.first)
    && (s.reader.Delivering? && s.reader.out == k && ch.sends == 0 ==> h.first == Some(s.reader.b))
    && (h.first.Some? <==> ch.sends > 0 || (s.reader.Delivering? && s.reader.out == k))
    && (h.received ==> h.first.Some?)
  }

  ghost predicate PhaseTold(h: History, s: Server, k: nat)
    requires k < |s.outs|
  {
    && s.outs[k].phase == PhaseOf(h) && Endings(h) <= 1
    && (h.removed ==> OutcomeOf(h).Some?)
    && (h.written || Endings(h) > 0 ==> h.registered)
  }

  lemma ReadKeepsChan(h: History, s: Server, m: Msg, k: nat)
    requires Inv(s) && s.reader == Idle && k < |s.outs| && ChanTold(h, s, k) && PhaseTold(h, s, k)
    ensures ChanTold(Next(h, Read(m), k), AfterRead(s, m), k)
  {
    assert OutInv(s, k);
  }

  lemma DeliverKeepsChan(h: History, s: Server, k: nat)
    requires Inv(s) && Enabled(s, Deliver) && k < |s.outs| && ChanTold(h, s, k)
    ensures ChanTold(Next(h, Deliver, k), Step(s, Deliver), k)
  {
    assert OutInv(s, k);
  }

  lemma OtherKeepsChan(h: History, s: Server, a: Action, k: nat)
    requires Inv(s) && Enabled(s, a) && k < |s.outs| && ChanTold(h, s, k) && PhaseTold(h, s, k) && !a.Read? && a != Deliver
    ensures ChanTold(Next(h, a, k), Step(s, a), k)
  {
    assert OutInv(s, k);
  }

  lemma StepKeepsChan(h: History, s: Server, a: Action, k: nat)
    requires Inv(s) && Enabled(s, a) && k < |s.outs| && ChanTold(h, s, k) && PhaseTold(h, s, k)
    ensures ChanTold(Next(h, a, k), Step(s, a), k)
  {
    if a.Read? {
      ReadKeepsChan(h, s, a.m, k);
    } else if a == Deliver {
      DeliverKeepsChan(h, s, k);
    } else {
      OtherKeepsChan(h, s, a, k);
    }
  }

  /** A section of a request. */
  predicate OfRequest(a: Action) {
    a.Register? || a.Write? || a.WriteFails? || a.Cancel? || a.Receive? || a.Cleanup?
  }

  lemma RequestKeepsPhase(h: History, s: Server, a: Action, k: nat)
    requires Inv(s) && Enabled(s, a) && k < |s.outs| && ChanTold(h, s, k) && PhaseTold(h, s, k) && OfRequest(a)
    ensures PhaseTold(Next(h, a, k), Step(s, a), k)
  {
    assert OutInv(s, k);
  }

  lemma OtherKeepsPhase(h: History, s: Server, a: Action, k: nat)
    requires Enabled(s, a) && k < |s.outs| && ChanTold(h, s, k) && PhaseTold(h, s, k) && !OfRequest(a)
    ensures PhaseTold(Next(h, a, k), Step(s, a), k)
  {
  }

  lemma StepKeepsPhase(h: History, s: Server, a: Action, k: nat)
    requires Inv(s) && Enabled(s, a) && k < |s.outs| && ChanTold(h, s, k) && PhaseTold(h, s, k)
    ensures PhaseTold(Next(h, a, k), Step(s, a), k)
  {
    if OfRequest(a) {
      RequestKeepsPhase(h, s, a, k);
    } else {
      OtherKeepsPhase(h, s, a, k);
    }
  }

  lemma Grows(s: Server, a: Action)
    requires Enabled(s, a)
    ensures |Step(s, a).outs| == |s.outs| + if a.Begin? then 1 else 0
  {
  }

  lemma LaterRequest(s: Server, a: Action, k: nat)
    requires Enabled(s, a) && k >= |s.outs|
    ensures Next(NOTHING, a, k) == NOTHING
  {
  }

  lemma {:induction false} NotBegun(acts: seq<Action>, k: nat)
    requires After(acts).Some? && k >= |After(acts).value.outs|
    ensures HistoryOf(acts, k) == NOTHING
  {
    if acts != [] {
      Grows(After(acts[..|acts| - 1]).value, acts[|acts| - 1]);
      NotBegun(acts[..|acts| - 1], k);
      LaterRequest(After(acts[..|acts| - 1]).value, acts[|acts| - 1], k);
    }
  }

  ghost predicate Told(acts: seq<Action>, k: nat)
    requires After(acts).Some? && k < |After(acts).value.outs|
  {
    match After(acts)
    case Some(s) => ChanTold(HistoryOf(acts, k), s, k) && PhaseTold(HistoryOf(acts, k), s, k)
  }

  lemma BegunTold(s: Server, body: Body)
    requires Inv(s)
    ensures var k, r := |s.outs|, Step(s, Begin(body)); ChanTold(NOTHING, r, k) && PhaseTold(NOTHING, r, k)
  {
  }

  lemma NewTold(acts: seq<Action>, k: nat)
    requires acts != [] && After(acts).Some? && k < |After(acts).value.outs|
    requires k >= |After(acts[..|acts| - 1]).value.outs|
    ensures Told(acts, k)
  {
    var before, a := acts[..|acts| - 1], acts[|acts| - 1];
    ReachableInv(before);
    NotBegun(before, k);
    Grows(After(before).value, a);
    BegunTold(After(before).value, a.body);
  }

  lemma OldTold(acts: seq<Action>, k: nat)
    requires acts != [] && After(acts).Some? && k < |After(acts[..|acts| - 1]).value.outs|
    requires Told(acts[..|acts| - 1], k)
    ensures k < |After(acts).value.outs| && Told(acts, k)
  {
    var before, a := acts[..|acts| - 1], acts[|acts| - 1];
    ReachableInv(before);
    StepKeepsChan(HistoryOf(before, k), After(before).value, a, k);
    StepKeepsPhase(HistoryOf(before, k), After(before).value, a, k);
  }

  lemma {:induction false} HistoryTold(acts: seq<Action>, k: nat)
    requires After(acts).Some? && k < |After(acts).value.outs|
    ensures Told(acts, k)
  {
    var before := acts[..|acts| - 1];
    if k < |After(before).value.outs| {
      HistoryTold(before, k);
      OldTold(acts, k);
    } else {
      NewTold(acts, k);
    }
  }

  /** The bodies given to the requests that were begun, in order. */
  function Begun(acts: seq<Action>): (r: seq<Body>)
  {
    if acts == [] then []
    else
      var a := acts[|acts| - 1];
      Begun(acts[..|acts| - 1]) + if a.Begin? then [a.body] else []
  }

  function Bodies(s: Server): (r: seq<Body>) {
    seq(|s.outs|, k requires 0 <= k < |s.outs| => s.outs[k].body)
  }

  lemma BegunStep(s: Server, a: Action)
    requires Enabled(s, a)
    ensures Bodies(Step(s, a)) == Bodies(s) + if a.Begin? then [a.body] else []
  {
  }

  lemma {:induction false} RequestsAreBegun(acts: seq<Action>)
    requires After(acts).Some?
    ensures Bodies(After(acts).value) == Begun(acts)
  {
    if acts != [] {
      RequestsAreBegun(acts[..|acts| - 1]);
      BegunStep(After(acts[..|acts| - 1]).value, acts[|acts| - 1]);
    }
  }

  /** What a request has settled on, before and after its deferred removal. */
  function Settled(p: Phase): (r: Option<Outcome>) {
    match p
    case Leaving(o) => Some(o)
    case Returned(o) => Some(o)
    case _ => None
  }

  /** Over every run: a request whose channel wins the select returns the first response read for it,
      and it returns an error only when its context was cancelled or its write failed. */
  lemma RequestReturns(acts: seq<Action>, k: nat)
    requires After(acts).Some? && k < |After(acts).value.outs|
    ensures var phase, first := After(acts).value.outs[k].phase, HistoryOf(acts, k).first;
      && (forall b :: Settled(phase) == Some(Answer(b)) <==> Receive(k) in acts && first == Some(b))
      && (Settled(phase) == Some(Cancelled) <==> Cancel(k) in acts)
      && (Settled(phase) == Some(WriteError) <==> WriteFails(k) in acts)
      && (phase.Returned? <==> Cleanup(k) in acts)
      && (Receive(k) in acts ==> first.Some?)
      && (phase == Waiting <==> Write(k) in acts && Settled(phase).None?)
  {
    HistoryTold(acts, k);
    HistoryMeans(acts, k);
  }
}
