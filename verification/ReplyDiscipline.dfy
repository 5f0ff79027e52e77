/** deliver leaves its pending entry in place, so a second answer can block the server's read loop
    for good.  It never does exactly when the client answers each server request at most once. */
module ReplyDiscipline {
  import opened Wrappers
  import opened Messages
  import opened Counting
  import opened ServerSession

  predicate Answers(m: Msg, k: nat) {
    m.Response? && m.id == Srv(k)
  }

  /** No server id is answered twice. */
  ghost predicate AnswersOnce(ms: seq<Msg>) {
    forall i, j, k: nat :: 0 <= i < j < |ms| ==> !(Answers(ms[i], k) && Answers(ms[j], k))
  }

  /** The read loop is blocked on a channel that is already full. */
  predicate Stuck(s: Server) {
    s.reader.Delivering? && !Enabled(s, Deliver)
  }

  /** Blocked for good: the channel is full and the request that would empty it has left its select. */
  predicate Dead(s: Server) {
    && s.reader.Delivering? && s.reader.out < |s.outs| && s.outs[s.reader.out].chan.buf.Some?
    && (s.outs[s.reader.out].phase.Leaving? || s.outs[s.reader.out].phase.Returned?)
  }

  /** No step of any goroutine frees the read loop, reads on, or ends the scanner loop. */
  lemma DeadStays(s: Server, a: Action)
    requires Enabled(s, a) && Dead(s) && s.stage == Serving
    ensures Dead(Step(s, a)) && Step(s, a).stage == Serving && !a.Read?
  {
  }

  lemma {:induction false} DeadForever(acts: seq<Action>, more: seq<Action>)
    requires After(acts).Some? && Dead(After(acts).value) && After(acts).value.stage == Serving && After(acts + more).Some?
    ensures Dead(After(acts + more).value) && Inbound(acts + more) == Inbound(acts)
    ensures After(acts + more).value.stage == Serving
  {
    if more == [] {
      assert acts + more == acts;
    } else {
      var n := |more| - 1;
      var before := acts + more[..n];
      assert acts + more == before + [more[n]];
      assert (acts + more)[..|before|] == before;
      DeadForever(acts, more[..n]);
      DeadStays(After(before).value, more[n]);
    }
  }

  function AnswerTo(k: nat): (p: Msg -> bool) {
    (m: Msg) => Answers(m, k)
  }

  function Handed(s: Server, k: nat): (r: nat)
    requires k < |s.outs|
  {
    s.outs[k].chan.sends + if s.reader.Delivering? && s.reader.out == k then 1 else 0
  }

  lemma HandedStep(s: Server, a: Action, k: nat)
    requires Inv(s) && Enabled(s, a) && k < |Step(s, a).outs|
    ensures Handed(Step(s, a), k) <=
            (if k < |s.outs| then Handed(s, k) else 0) + (if a.Read? && Answers(a.m, k) then 1 else 0)
  {
  }

  /** No channel is handed more answers than were read for it. */
  lemma {:induction false} HandedAtMostAnswered(acts: seq<Action>, k: nat)
    requires After(acts).Some? && k < |After(acts).value.outs|
    ensures Handed(After(acts).value, k) <= Count(Inbound(acts), AnswerTo(k))
  {
    if acts != [] {
      var n := |acts| - 1;
      var before, a := acts[..n], acts[n];
      ReachableInv(before);
      var s := After(before).value;
      HandedStep(s, a, k);
      if k < |s.outs| {
        HandedAtMostAnswered(before, k);
      }
      if a.Read? {
        CountSnoc(Inbound(before), a.m, AnswerTo(k));
      } else {
        assert Inbound(before) + [] == Inbound(before);
      }
    }
  }

  lemma {:induction false} OnceMeansOne(ms: seq<Msg>, k: nat)
    requires AnswersOnce(ms)
    ensures Count(ms, AnswerTo(k)) <= 1
    ensures Count(ms, AnswerTo(k)) == 1 ==> exists i :: 0 <= i < |ms| && Answers(ms[i], k)
  {
    if ms != [] {
      var n := |ms| - 1;
      OnceMeansOne(ms[..n], k);
      if Count(ms[..n], AnswerTo(k)) == 1 {
        var i :| 0 <= i < n && Answers(ms[..n][i], k);
        assert Answers(ms[i], k);
        assert !Answers(ms[n], k);
      }
    }
  }

  lemma NeverStuck(acts: seq<Action>)
    requires After(acts).Some? && AnswersOnce(Inbound(acts))
    ensures !Stuck(After(acts).value)
  {
    ReachableInv(acts);
    var s := After(acts).value;
    if s.reader.Delivering? {
      HandedAtMostAnswered(acts, s.reader.out);
      OnceMeansOne(Inbound(acts), s.reader.out);
      assert OutInv(s, s.reader.out);
    }
  }

  // ---- The converse: a schedule that gets stuck ----

  lemma AfterSnoc(acts: seq<Action>, a: Action)
    requires After(acts).Some? && Enabled(After(acts).value, a)
    ensures After(acts + [a]) == Some(Step(After(acts).value, a))
    ensures Inbound(acts + [a]) == Inbound(acts) + if a.Read? then [a.m] else []
  {
    assert (acts + [a])[..|acts|] == acts;
  }

  /** Every request has been written and nobody has picked up an answer yet. */
  ghost predicate AllWaiting(s: Server, count: nat) {
    && s.reader == Idle && s.stage == Serving && |s.outs| == count
    && forall k :: 0 <= k < count ==>
         s.outs[k].phase == Waiting && !s.outs[k].chan.closed && Srv(k) in s.pending && s.pending[Srv(k)] == k
  }

  lemma {:induction false} IssueRequests(count: nat) returns (acts: seq<Action>)
    ensures After(acts).Some? && AllWaiting(After(acts).value, count) && Inbound(acts) == []
    ensures forall k :: 0 <= k < count ==> After(acts).value.outs[k].chan.buf.None?
  {
    acts := [];
    if count > 0 {
      acts := IssueRequests(count - 1);
      var s := After(acts).value;
      AfterSnoc(acts, Begin(""));
      acts := acts + [Begin("")];
      AfterSnoc(acts, Register(count - 1));
      acts := acts + [Register(count - 1)];
      AfterSnoc(acts, Write(count - 1));
      acts := acts + [Write(count - 1)];
    }
  }

  ghost predicate Below(ms: seq<Msg>, count: nat) {
    forall i, k: nat :: 0 <= i < |ms| && Answers(ms[i], k) ==> k < count
  }

  ghost predicate Has(ms: seq<Msg>, k: nat) {
    exists i :: 0 <= i < |ms| && Answers(ms[i], k)
  }

  lemma HasSnoc(ms: seq<Msg>, m: Msg, k: nat)
    ensures Has(ms + [m], k) <==> Has(ms, k) || Answers(m, k)
  {
    var all := ms + [m];
    if Has(ms, k) {
      var i :| 0 <= i < |ms| && Answers(ms[i], k);
      assert Answers(all[i], k);
    }
    assert Answers(m, k) ==> Answers(all[|ms|], k);
  }

  /** The channels that hold an answer. */
  ghost predicate Filled(s: Server, count: nat, ms: seq<Msg>) {
    |s.outs| == count && forall k :: 0 <= k < count ==> (s.outs[k].chan.buf.Some? <==> Has(ms, k))
  }

  /** Reading answers to distinct ids fills exactly their channels. */
  lemma {:induction false} FeedDistinct(ms: seq<Msg>, count: nat) returns (acts: seq<Action>)
    requires AnswersOnce(ms) && Below(ms, count)
    ensures After(acts).Some? && AllWaiting(After(acts).value, count) && Inbound(acts) == ms
    ensures Filled(After(acts).value, count, ms)
  {
    if ms == [] {
      acts := IssueRequests(count);
    } else {
      var n := |ms| - 1;
      acts := FeedDistinct(ms[..n], count);
      assert ms == ms[..n] + [ms[n]];
      assert ms[n].Response? && ms[n].id.Srv? ==> !Has(ms[..n], ms[n].id.n) by {
        if ms[n].Response? && ms[n].id.Srv? {
          assert Answers(ms[n], ms[n].id.n);
        }
      }
      acts := FeedOne(acts, count, ms[n]);
    }
  }

  lemma FeedOne(before: seq<Action>, count: nat, m: Msg) returns (acts: seq<Action>)
    requires After(before).Some? && AllWaiting(After(before).value, count)
    requires Filled(After(before).value, count, Inbound(before))
    requires m.Response? && m.id.Srv? ==> !Has(Inbound(before), m.id.n)
    ensures After(acts).Some? && AllWaiting(After(acts).value, count) && Inbound(acts) == Inbound(before) + [m]
    ensures Filled(After(acts).value, count, Inbound(acts))
  {
    var s := After(before).value;
    ReachableInv(before);
    forall k: nat { HasSnoc(Inbound(before), m, k); }
    AfterSnoc(before, Read(m));
    acts := before + [Read(m)];
    if m.Response? && m.id in s.pending {
      assert s.outs[m.id.n].chan.buf.None?;
      AfterSnoc(acts, Deliver);
      acts := acts + [Deliver];
    }
  }

  /** A prefix with the first repeated answer at its end. */
  lemma {:induction false} FirstRepeat(ms: seq<Msg>) returns (j: nat)
    requires !AnswersOnce(ms)
    ensures j < |ms| && AnswersOnce(ms[..j]) && !AnswersOnce(ms[..j + 1])
  {
    var n := |ms| - 1;
    if AnswersOnce(ms[..n]) {
      j := n;
      assert ms[..j + 1] == ms;
    } else {
      j := FirstRepeat(ms[..n]);
      assert ms[..n][..j] == ms[..j] && ms[..n][..j + 1] == ms[..j + 1];
    }
  }

  lemma {:induction false} SomeBound(ms: seq<Msg>) returns (count: nat)
    ensures Below(ms, count)
  {
    count := 0;
    if ms != [] {
      var n := |ms| - 1;
      var c := SomeBound(ms[..n]);
      var last := if ms[n].Response? then ms[n].id.n + 1 else 0;
      count := if c < last then last else c;
      forall i, k: nat | 0 <= i < |ms| && Answers(ms[i], k)
        ensures k < count
      {
        assert i < n ==> Answers(ms[..n][i], k);
      }
    }
  }

  lemma GetsStuckForGood(ms: seq<Msg>) returns (acts: seq<Action>)
    requires !AnswersOnce(ms)
    ensures After(acts).Some? && Inbound(acts) <= ms && Dead(After(acts).value) && After(acts).value.stage == Serving
  {
    var j := FirstRepeat(ms);
    var p := ms[..j];
    var count := SomeBound(ms[..j + 1]);
    assert ms[..j + 1] == p + [ms[j]];
    assert Below(p, count) by {
      forall i, k: nat | 0 <= i < |p| && Answers(p[i], k)
        ensures k < count
      {
        assert Answers(ms[..j + 1][i], k);
      }
    }
    acts := FeedDistinct(p, count);
    var k := if ms[j].Response? then ms[j].id.n else 0;
    assert ms[j].Response? && ms[j].id.Srv? && Has(p, k) by {
      if !(ms[j].Response? && ms[j].id.Srv? && Has(p, k)) {
        StillOnce(p, ms[j]);
      }
    }
    AfterSnoc(acts, Read(ms[j]));
    acts := acts + [Read(ms[j])];
    AfterSnoc(acts, Cancel(k));
    acts := acts + [Cancel(k)];
  }

  lemma StillOnce(p: seq<Msg>, m: Msg)
    requires AnswersOnce(p) && (m.Response? && m.id.Srv? ==> !Has(p, m.id.n))
    ensures AnswersOnce(p + [m])
  {
    var all := p + [m];
    forall i, l, k: nat | 0 <= i < l < |all|
      ensures !(Answers(all[i], k) && Answers(all[l], k))
    {
      assert all[i] == p[i] && (if l < |p| then all[l] == p[l] else all[l] == m);
    }
  }

  ghost predicate ReadsPart(acts: seq<Action>, ms: seq<Msg>) {
    After(acts).Some? && Inbound(acts) <= ms
  }

  /** Over all runs that read these messages, in whole or in part: the read loop is never blocked for
      good, and is never blocked at all, if and only if no server id is answered twice in them. */
  lemma ReadLoopStaysFreeIff(ms: seq<Msg>)
    ensures (forall acts :: ReadsPart(acts, ms) ==> !Dead(After(acts).value)) <==> AnswersOnce(ms)
    ensures (forall acts :: ReadsPart(acts, ms) ==> !Stuck(After(acts).value)) <==> AnswersOnce(ms)
  {
    if AnswersOnce(ms) {
      forall acts | ReadsPart(acts, ms)
        ensures !Stuck(After(acts).value)
      {
        assert AnswersOnce(Inbound(acts));
        NeverStuck(acts);
      }
    } else {
      var acts := GetsStuckForGood(ms);
      assert ReadsPart(acts, ms);
    }
  }
}
