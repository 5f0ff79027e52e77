/** What calls and server requests come to in the joined system. */
module SessionOutcomes {
  import opened Wrappers
  import opened Messages
  import opened SessionSystem
  import C = ClientTransport
  import S = ServerSession
  import ClientRequests
  import ServerRequests
  import CallHistories
  import RequestHistories

  /** The steps of the client within a run of the system, and those of the server. */
  function ClientPart(acts: seq<Action>): (r: seq<C.Action>)
    ensures forall a :: a in r ==> OnClient(a) in acts
  {
    if acts == [] then []
    else
      var a := acts[|acts| - 1];
      ClientPart(acts[..|acts| - 1]) + if a.OnClient? then [a.c] else []
  }

  function ServerPart(acts: seq<Action>): (r: seq<S.Action>)
    ensures forall a :: a in r ==> OnServer(a) in acts
  {
    if acts == [] then []
    else
      var a := acts[|acts| - 1];
      ServerPart(acts[..|acts| - 1]) + if a.OnServer? then [a.s] else []
  }

  lemma {:induction false} ClientPartHolds(acts: seq<Action>, a: C.Action)
    requires OnClient(a) in acts
    ensures a in ClientPart(acts)
  {
    if acts[|acts| - 1] != OnClient(a) {
      ClientPartHolds(acts[..|acts| - 1], a);
    }
  }

  lemma {:induction false} ServerPartHolds(acts: seq<Action>, a: S.Action)
    requires OnServer(a) in acts
    ensures a in ServerPart(acts)
  {
    if acts[|acts| - 1] != OnServer(a) {
      ServerPartHolds(acts[..|acts| - 1], a);
    }
  }

  /** Each half runs its own part. */
  lemma {:induction false} PartsRun(acts: seq<Action>)
    requires After(acts).Some?
    ensures C.After(ClientPart(acts)) == Some(After(acts).value.c)
    ensures S.After(ServerPart(acts)) == Some(After(acts).value.s)
  {
    if acts != [] {
      var n := |acts| - 1;
      PartsRun(acts[..n]);
      match acts[n] {
        case OnClient(a) =>
          ClientExtends(ClientPart(acts[..n]), a);
          assert ServerPart(acts[..n]) + [] == ServerPart(acts[..n]);
        case OnServer(a) =>
          ServerExtends(ServerPart(acts[..n]), a);
          assert ClientPart(acts[..n]) + [] == ClientPart(acts[..n]);
      }
    }
  }

  lemma ClientExtends(part: seq<C.Action>, a: C.Action)
    requires C.After(part).Some? && C.Enabled(C.After(part).value, a)
    ensures C.After(part + [a]) == Some(C.Step(C.After(part).value, a))
  {
    assert (part + [a])[..|part|] == part;
  }

  lemma ServerExtends(part: seq<S.Action>, a: S.Action)
    requires S.After(part).Some? && S.Enabled(S.After(part).value, a)
    ensures S.After(part + [a]) == Some(S.Step(S.After(part).value, a))
  {
    assert (part + [a])[..|part|] == part;
  }

  lemma CallEnds(acts: seq<Action>, n: nat)
    requires After(acts).Some? && n < |After(acts).value.c.calls|
    ensures var c := After(acts).value.c;
      var phase := c.calls[n].phase;
      && (OnClient(C.Receive(n)) in acts && !c.done ==> phase.Returned? && phase.o.Answer?)
      && (phase == C.Returned(C.WriteError) ==> OnClient(C.WriteFails(n)) in acts)
      && (phase == C.Returned(C.Cancelled) ==> OnClient(C.Cancel(n)) in acts)
      && (phase == C.Returned(C.ConnectionClosed) ==> c.done)
  {
    PartsRun(acts);
    var part := ClientPart(acts);
    CallHistories.CallReturns(part, n);
    CallHistories.CallsAreBegun(part);
    if OnClient(C.Receive(n)) in acts {
      ClientPartHolds(acts, C.Receive(n));
    }
  }

  /** A call whose channel won the select on a transport that was not shut down returns the reply of the
      one task started for its request.  A call that returns anything else was cancelled, could not be
      written, or was overtaken by a shutdown. */
  lemma CallReturnsItsAnswer(acts: seq<Action>, n: nat)
    requires After(acts).Some? && n < |After(acts).value.c.calls|
    ensures var y := After(acts).value;
      var phase := y.c.calls[n].phase;
      && (OnClient(C.Receive(n)) in acts && !y.c.done ==> phase.Returned? && phase.o.Answer?)
      && (phase.Returned? && phase.o.Answer? ==>
            phase.o.m.Response? && phase.o.m.id == Cli(n) && exists j :: ClientRequests.AnsweredBy(y, n, phase.o.m, j))
      && (phase == C.Returned(C.WriteError) ==> OnClient(C.WriteFails(n)) in acts)
      && (phase == C.Returned(C.Cancelled) ==> OnClient(C.Cancel(n)) in acts)
      && (phase == C.Returned(C.ConnectionClosed) ==> y.c.done)
  {
    CallEnds(acts, n);
    ClientRequests.CallsGetTheirOwnAnswer(acts, n);
  }

  lemma RequestEnds(acts: seq<Action>, k: nat)
    requires After(acts).Some? && k < |After(acts).value.s.outs|
    ensures var outcome := RequestHistories.Settled(After(acts).value.s.outs[k].phase);
      && (OnServer(S.Receive(k)) in acts ==> outcome.Some? && outcome.value.Answer?)
      && (outcome == Some(S.WriteError) ==> OnServer(S.WriteFails(k)) in acts)
      && (outcome == Some(S.Cancelled) ==> OnServer(S.Cancel(k)) in acts)
  {
    PartsRun(acts);
    var part := ServerPart(acts);
    RequestHistories.RequestReturns(part, k);
    if OnServer(S.Receive(k)) in acts {
      ServerPartHolds(acts, S.Receive(k));
    }
  }

  /** A server request whose channel won the select returns the reply the client gave to that very
      request; one that returns anything else was cancelled or could not be written. */
  lemma RequestReturnsItsReply(acts: seq<Action>, k: nat)
    requires After(acts).Some? && k < |After(acts).value.s.outs|
    ensures var y := After(acts).value;
      var outcome := RequestHistories.Settled(y.s.outs[k].phase);
      && (OnServer(S.Receive(k)) in acts ==> outcome.Some? && outcome.value.Answer?)
      && (outcome.Some? && outcome.value.Answer? ==> exists j :: ServerRequests.AnsweredBy(y, k, outcome.value.b, j))
      && (outcome == Some(S.WriteError) ==> OnServer(S.WriteFails(k)) in acts)
      && (outcome == Some(S.Cancelled) ==> OnServer(S.Cancel(k)) in acts)
  {
    RequestEnds(acts, k);
    ServerRequests.RequestsGetTheirOwnReply(acts, k);
  }
}
