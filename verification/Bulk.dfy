/** The bulk executor (contrib/bulk.go): the parallel fan-out as a step system over its goroutines,
    the sequential loop, and what they agree on. */
module Bulk {
  import opened Wrappers
  import opened Counting

  datatype Call = Call(tool: string, args: string)

  datatype Failure = Skipped | Hard(msg: string) | ToolError(tool: string, text: string) | ContextDone

  /** What a tool call gives: content with the tool's own error flag, or a transport error. */
  datatype Outcome = Answer(content: string, isError: bool) | Broken(msg: string)

  datatype Result = Result(tool: string, args: string, content: string, isError: bool, err: Option<Failure>)

  function Invoke(call: Call, o: Outcome): (r: Result) {
    match o
    case Answer(content, isError) => Result(call.tool, call.args, content, isError, None)
    case Broken(msg) => Result(call.tool, call.args, "", false, Some(Hard(msg)))
  }

  function Skip(call: Call): (r: Result) {
    Result(call.tool, call.args, "", false, Some(Skipped))
  }

  predicate Failed(r: Result) {
    r.isError || r.err.Some?
  }

  function FailureOf(r: Result): (f: Failure)
    requires Failed(r)
  {
    if r.err.Some? then r.err.value else ToolError(r.tool, r.content)
  }

  /** The call went wrong: no answer, or one that the tool itself flags. */
  predicate Bad(o: Outcome) {
    o.Broken? || o.isError
  }

  /** What is reported of a call that went wrong. */
  function Reason(call: Call, o: Outcome): (f: Failure) {
    match o
    case Answer(content, _) => ToolError(call.tool, content)
    case Broken(msg) => Hard(msg)
  }

  /** A result says what the tool said: its answer passes through, and it fails exactly when the call
      went wrong. */
  ghost predicate Reports(r: Result, call: Call, o: Outcome) {
    && r.tool == call.tool && r.args == call.args
    && (o.Answer? ==> r.content == o.content && r.isError == o.isError && r.err.None?)
    && (o.Broken? ==> r.err == Some(Hard(o.msg)))
    && (Failed(r) <==> Bad(o))
    && (Failed(r) ==> FailureOf(r) == Reason(call, o))
  }

  lemma InvokeReports(call: Call, o: Outcome)
    ensures Reports(Invoke(call, o), call, o)
  {
  }

  // ---- One goroutine per call ----

  datatype Phase =
    | Waiting      // in the select
    | Holding      // slot acquired, context not yet looked at
    | Calling      // inside invoke
    | Recording    // failed result stored, error not yet appended
    | Aborting     // error appended, cancel not yet called
    | Releasing    // about to give the slot back
    | Finished

  datatype Config = Config(calls: seq<Call>, limit: nat, keepGoing: bool, tool: Call -> Outcome)

  /** errs names the slots whose failures were appended, in order. */
  datatype Batch = Batch(phases: seq<Phase>, results: seq<Option<Result>>, writes: seq<nat>, sem: nat, errs: seq<nat>,
                         cancelled: bool, parentCancelled: bool)

  /** Non-positive and excessive limits become one slot per call. */
  function Effective(maxConcurrency: int, n: nat): (limit: nat)
    ensures limit <= n && (n > 0 ==> limit > 0)
    ensures limit == maxConcurrency || (limit == n && !(0 < maxConcurrency <= n))
  {
    if maxConcurrency <= 0 || maxConcurrency > n then n else maxConcurrency
  }

  predicate ConfigOk(g: Config) {
    |g.calls| > 0 ==> g.limit > 0
  }

  function Init(n: nat): (b: Batch) {
    Batch(seq(n, i => Waiting), seq(n, i => None), seq(n, i => 0), 0, [], false, false)
  }

  datatype Action =
    | Acquire(i: nat)
    | SkipEarly(i: nat)              // the context wins the select
    | SkipLate(i: nat)               // the slot won, the context is done
    | Start(i: nat)
    | Return(i: nat, o: Outcome)     // invoke returns and its result is stored
    | Record(i: nat)
    | Abort(i: nat)
    | Release(i: nat)
    | ParentCancel

  /** A tool answers as it always does unless its context is cancelled under it. */
  predicate Enabled(g: Config, b: Batch, a: Action) {
    && (!a.ParentCancel? ==> a.i < |b.phases| == |g.calls| == |b.results| == |b.writes|)
    && match a
       case Acquire(i) => b.phases[i] == Waiting && b.sem < g.limit
       case SkipEarly(i) => b.phases[i] == Waiting && b.cancelled
       case SkipLate(i) => b.phases[i] == Holding && b.cancelled
       case Start(i) => b.phases[i] == Holding && !b.cancelled
       case Return(i, o) => b.phases[i] == Calling && (b.cancelled || o == g.tool(g.calls[i]))
       case Record(i) => b.phases[i] == Recording
       case Abort(i) => b.phases[i] == Aborting
       case Release(i) => b.phases[i] == Releasing && b.sem > 0
       case ParentCancel => !b.parentCancelled
  }

  function Go(b: Batch, i: nat, p: Phase): (r: Batch)
    requires i < |b.phases|
  {
    b.(phases := b.phases[i := p])
  }

  function Store(b: Batch, i: nat, x: Result): (r: Batch)
    requires i < |b.results| == |b.writes|
  {
    b.(results := b.results[i := Some(x)], writes := b.writes[i := b.writes[i] + 1])
  }

  function Step(g: Config, b: Batch, a: Action): (r: Batch)
    requires Enabled(g, b, a)
  {
    match a
    case Acquire(i) => Go(b, i, Holding).(sem := b.sem + 1)
    case SkipEarly(i) => Go(Store(b, i, Skip(g.calls[i])), i, Finished)
    case SkipLate(i) => Go(Store(b, i, Skip(g.calls[i])), i, Releasing)
    case Start(i) => Go(b, i, Calling)
    case Return(i, o) =>
      var r := Invoke(g.calls[i], o);
      Go(Store(b, i, r), i, if Failed(r) then Recording else Releasing)
    case Record(i) => Go(b, i, if g.keepGoing then Releasing else Aborting).(errs := b.errs + [i])
    case Abort(i) => Go(b, i, Releasing).(cancelled := true)
    case Release(i) => Go(b, i, Finished).(sem := b.sem - 1)
    case ParentCancel => b.(cancelled := true, parentCancelled := true)
  }

  function After(g: Config, acts: seq<Action>): (r: Option<Batch>)
  {
    if acts == [] then Some(Init(|g.calls|))
    else
      var before := After(g, acts[..|acts| - 1]);
      var a := acts[|acts| - 1];
      if before.Some? && Enabled(g, before.value, a) then Some(Step(g, before.value, a)) else None
  }

  // ---- What every step keeps ----

  predicate Holds(p: Phase) {
    p != Waiting && p != Finished
  }

  function Slot(): (f: Phase -> bool) {
    (p: Phase) => Holds(p)
  }

  function Of(i: nat): (f: nat -> bool) {
    (j: nat) => j == i
  }

  predicate Unwritten(p: Phase) {
    p == Waiting || p == Holding || p == Calling
  }

  predicate Pristine(r: Result, call: Call) {
    r.tool == call.tool && r.args == call.args
  }

  ghost predicate SlotInv(g: Config, b: Batch, i: nat)
    requires i < |b.phases| == |g.calls| == |b.results| == |b.writes|
  {
    var p, r := b.phases[i], b.results[i];
    && b.writes[i] == (if Unwritten(p) then 0 else 1)
    && (r.None? <==> Unwritten(p))
    && (r.Some? ==> Pristine(r.value, g.calls[i]))
    && (r.Some? && Failed(r.value) && r.value != Skip(g.calls[i]) ==> Count(b.errs, Of(i)) == if p == Recording then 0 else 1)
    && (r.None? || !Failed(r.value) || r.value == Skip(g.calls[i]) ==> Count(b.errs, Of(i)) == 0 && p != Recording && p != Aborting)
    && (r.Some? && r.value == Skip(g.calls[i]) ==> b.cancelled)
    && (g.keepGoing ==> p != Aborting)
    && (r.Some? && !b.cancelled ==> r.value == Invoke(g.calls[i], g.tool(g.calls[i])))
    && (p == Recording || p == Aborting ==> r.Some? && Failed(r.value))
  }

  ghost predicate Inv(g: Config, b: Batch) {
    && |b.phases| == |g.calls| == |b.results| == |b.writes|
    && b.sem == Count(b.phases, Slot()) && b.sem <= g.limit
    && (forall i :: 0 <= i < |b.phases| ==> SlotInv(g, b, i))
    && (forall k :: 0 <= k < |b.errs| ==> b.errs[k] < |g.calls|)
    && (b.cancelled ==> b.parentCancelled || (!g.keepGoing && b.errs != []))
  }

  lemma InitInv(g: Config)
    ensures Inv(g, Init(|g.calls|))
  {
    CountNone(Init(|g.calls|).phases, Slot());
  }

  lemma RecordCounts(errs: seq<nat>, j: nat, i: nat)
    ensures Count(errs + [j], Of(i)) == Count(errs, Of(i)) + if i == j then 1 else 0
  {
    CountAppend(errs, [j], Of(i));
    assert [j][..0] == [];
  }

  lemma OtherSlot(g: Config, b: Batch, a: Action, i: nat)
    requires Inv(g, b) && Enabled(g, b, a) && i < |b.phases| && (a.ParentCancel? || a.i != i)
    ensures SlotInv(g, Step(g, b, a), i)
  {
    assert SlotInv(g, b, i);
    OtherSlotStays(g, b, a, i);
  }

  lemma OtherSlotStays(g: Config, b: Batch, a: Action, i: nat)
    requires |b.phases| == |b.results| == |b.writes|
    requires Enabled(g, b, a) && i < |b.phases| && (a.ParentCancel? || a.i != i)
    ensures var r := Step(g, b, a);
      && |r.phases| == |r.results| == |r.writes| == |b.phases|
      && r.phases[i] == b.phases[i] && r.results[i] == b.results[i] && r.writes[i] == b.writes[i]
      && Count(r.errs, Of(i)) == Count(b.errs, Of(i)) && (b.cancelled ==> r.cancelled)
  {
    if a.Record? {
      RecordCounts(b.errs, a.i, i);
    }
  }

  lemma StoringSlot(g: Config, b: Batch, a: Action)
    requires Inv(g, b) && Enabled(g, b, a) && (a.SkipEarly? || a.SkipLate? || a.Return?)
    ensures SlotInv(g, Step(g, b, a), a.i)
  {
    assert SlotInv(g, b, a.i);
  }

  lemma MovingSlot(g: Config, b: Batch, a: Action)
    requires Inv(g, b) && Enabled(g, b, a) && !(a.SkipEarly? || a.SkipLate? || a.Return? || a.ParentCancel?)
    ensures SlotInv(g, Step(g, b, a), a.i)
  {
    assert SlotInv(g, b, a.i);
    if a.Record? {
      RecordCounts(b.errs, a.i, a.i);
    }
  }

  lemma StepKeepsInv(g: Config, b: Batch, a: Action)
    requires Inv(g, b) && Enabled(g, b, a)
    ensures Inv(g, Step(g, b, a))
  {
    var r := Step(g, b, a);
    if !a.ParentCancel? {
      CountUpdate(b.phases, a.i, r.phases[a.i], Slot());
      assert SlotInv(g, b, a.i);
      if a.Abort? {
        assert b.errs != [];
      }
    }
    forall i | 0 <= i < |r.phases|
      ensures SlotInv(g, r, i)
    {
      if a.ParentCancel? || a.i != i {
        OtherSlot(g, b, a, i);
      } else if a.SkipEarly? || a.SkipLate? || a.Return? {
        StoringSlot(g, b, a);
      } else {
        MovingSlot(g, b, a);
      }
    }
  }

  lemma {:induction false} ReachableInv(g: Config, acts: seq<Action>)
    requires After(g, acts).Some?
    ensures Inv(g, After(g, acts).value)
  {
    if acts == [] {
      InitInv(g);
    } else {
      var before := acts[..|acts| - 1];
      ReachableInv(g, before);
      StepKeepsInv(g, After(g, before).value, acts[|acts| - 1]);
    }
  }

  // ---- Safety ----

  function InCall(): (f: Phase -> bool) {
    (p: Phase) => p == Calling
  }

  lemma {:induction false} CallingHolds(phases: seq<Phase>)
    ensures Count(phases, InCall()) <= Count(phases, Slot())
  {
    if phases != [] {
      CallingHolds(phases[..|phases| - 1]);
    }
  }

  /** In every run at most limit calls are in flight, and each slot is written at most once, with
      the result of its own call. */
  lemma BoundedAndOnce(g: Config, acts: seq<Action>)
    requires After(g, acts).Some?
    ensures var b := After(g, acts).value;
      && Count(b.phases, InCall()) <= g.limit
      && |b.results| == |b.writes| == |g.calls|
      && forall i :: 0 <= i < |g.calls| ==> b.writes[i] <= 1 && (b.results[i].Some? ==> b.writes[i] == 1 && Pristine(b.results[i].value, g.calls[i]))
  {
    ReachableInv(g, acts);
    var b := After(g, acts).value;
    CallingHolds(b.phases);
    forall i | 0 <= i < |g.calls|
      ensures b.writes[i] <= 1 && (b.results[i].Some? ==> b.writes[i] == 1 && Pristine(b.results[i].value, g.calls[i]))
    {
      assert SlotInv(g, b, i);
    }
  }

  predicate IsSkipped(g: Config, b: Batch, i: nat)
    requires i < |g.calls| == |b.results|
  {
    b.results[i] == Some(Skip(g.calls[i]))
  }

  /** Unless the caller's context was cancelled, a skipped slot means that a failure is already
      recorded and that the batch was to stop on one. */
  lemma SkipMeansFailure(g: Config, acts: seq<Action>, i: nat)
    requires After(g, acts).Some? && i < |g.calls|
    ensures var b := After(g, acts).value;
      |b.results| == |g.calls| && (IsSkipped(g, b, i) && !b.parentCancelled ==> b.errs != [] && !g.keepGoing)
  {
    ReachableInv(g, acts);
    assert SlotInv(g, After(g, acts).value, i);
  }

  // ---- At the end of the run ----

  ghost predicate Complete(b: Batch) {
    forall i :: 0 <= i < |b.phases| ==> b.phases[i] == Finished
  }

  /** Each failure other than a skip is in the joined error exactly once, and nothing else is. */
  lemma ErrsAreFailures(g: Config, acts: seq<Action>, i: nat)
    requires After(g, acts).Some? && Complete(After(g, acts).value) && i < |g.calls|
    ensures var b := After(g, acts).value;
      && |b.results| == |b.writes| == |g.calls| && b.results[i].Some? && b.writes[i] == 1
      && Count(b.errs, Of(i)) == if Failed(b.results[i].value) && !IsSkipped(g, b, i) then 1 else 0
  {
    ReachableInv(g, acts);
    assert SlotInv(g, After(g, acts).value, i);
  }

  ghost predicate NoneFailed(b: Batch) {
    forall i :: 0 <= i < |b.results| ==> b.results[i].Some? && !Failed(b.results[i].value)
  }

  /** The returned error is nil exactly when no result failed. */
  ghost predicate ErrorTells(b: Batch) {
    b.errs == [] <==> NoneFailed(b)
  }

  lemma TellsWithoutCancel(g: Config, acts: seq<Action>)
    requires After(g, acts).Some? && Complete(After(g, acts).value) && !After(g, acts).value.parentCancelled
    ensures ErrorTells(After(g, acts).value)
  {
    ReachableInv(g, acts);
    var b := After(g, acts).value;
    if b.errs == [] {
      forall i | 0 <= i < |b.results|
        ensures b.results[i].Some? && !Failed(b.results[i].value)
      {
        ErrsAreFailures(g, acts, i);
        SkipMeansFailure(g, acts, i);
      }
    } else {
      var k := b.errs[0];
      CountHit(b.errs, 0, Of(k));
      ErrsAreFailures(g, acts, k);
    }
  }

  // ---- The exact condition ----

  /** Cancelling the caller's context first skips every slot and records nothing. */
  lemma {:induction false} SkipAll(g: Config, k: nat) returns (acts: seq<Action>)
    requires k <= |g.calls|
    ensures After(g, acts).Some?
    ensures var b := After(g, acts).value;
      && |b.phases| == |b.results| == |b.writes| == |g.calls| && b.cancelled && b.errs == []
      && (forall i :: 0 <= i < k ==> b.phases[i] == Finished && b.results[i] == Some(Skip(g.calls[i])))
      && (forall i :: k <= i < |g.calls| ==> b.phases[i] == Waiting)
  {
    if k == 0 {
      acts := [ParentCancel];
      assert acts[..0] == [];
    } else {
      var before := SkipAll(g, k - 1);
      acts := before + [SkipEarly(k - 1)];
      assert acts[..|before|] == before;
    }
  }

  ghost predicate CompleteRun(g: Config, acts: seq<Action>) {
    After(g, acts).Some? && Complete(After(g, acts).value)
  }

  /** Over all complete runs of a non-empty batch, the error is nil exactly when nothing failed: if
      and only if the caller's context cannot be cancelled. */
  lemma ErrorTellsIff(g: Config, mayCancel: bool)
    requires |g.calls| > 0
    ensures (forall acts :: CompleteRun(g, acts) && (mayCancel || !After(g, acts).value.parentCancelled) ==> ErrorTells(After(g, acts).value))
            <==> !mayCancel
  {
    if mayCancel {
      var acts := SkipAll(g, |g.calls|);
      assert CompleteRun(g, acts);
      var b := After(g, acts).value;
      assert Failed(b.results[0].value);
    } else {
      forall acts | CompleteRun(g, acts) && !After(g, acts).value.parentCancelled
        ensures ErrorTells(After(g, acts).value)
      {
        TellsWithoutCancel(g, acts);
      }
    }
  }

  // ---- Which runs hide a failure ----

  function IsStart(): (p: Action -> bool) {
    (a: Action) => a.Start?
  }

  /** The tool of the slot has been called. */
  predicate Begun(g: Config, b: Batch, i: nat)
    requires i < |g.calls| == |b.phases| == |b.results|
  {
    match b.phases[i]
    case Waiting => false
    case Holding => false
    case Calling => true
    case Recording => true
    case Aborting => true
    case _ => b.results[i] != Some(Skip(g.calls[i]))
  }

  function BegunSlots(g: Config, b: Batch): (r: seq<bool>)
    requires |g.calls| == |b.phases| == |b.results|
  {
    seq(|g.calls|, i requires 0 <= i < |g.calls| => Begun(g, b, i))
  }

  function Yes(): (p: bool -> bool) {
    (x: bool) => x
  }

  lemma BegunStep(g: Config, b: Batch, a: Action)
    requires Inv(g, b) && Enabled(g, b, a)
    ensures BegunSlots(g, Step(g, b, a)) == if a.Start? then BegunSlots(g, b)[a.i := true] else BegunSlots(g, b)
    ensures a.Start? ==> !BegunSlots(g, b)[a.i]
  {
    var r := Step(g, b, a);
    forall i | 0 <= i < |g.calls|
      ensures Begun(g, r, i) == ((a.Start? && a.i == i) || Begun(g, b, i))
    {
      assert SlotInv(g, b, i);
    }
  }

  /** As many calls were begun as Start steps were taken. */
  lemma {:induction false} StartsCounted(g: Config, acts: seq<Action>)
    requires After(g, acts).Some?
    ensures var b := After(g, acts).value;
      |g.calls| == |b.phases| == |b.results| && Count(BegunSlots(g, b), Yes()) == Count(acts, IsStart())
  {
    ReachableInv(g, acts);
    if acts == [] {
      CountNone(BegunSlots(g, Init(|g.calls|)), Yes());
    } else {
      var before, a := acts[..|acts| - 1], acts[|acts| - 1];
      StartsCounted(g, before);
      ReachableInv(g, before);
      var b := After(g, before).value;
      BegunStep(g, b, a);
      if a.Start? {
        CountUpdate(BegunSlots(g, b), a.i, true, Yes());
      }
    }
  }

  /** A complete run returns a nil error over a failed result exactly when it recorded no failure and
      began fewer calls than there are; then the caller's context was cancelled. */
  lemma ErrorHidesIff(g: Config, acts: seq<Action>)
    requires CompleteRun(g, acts)
    ensures var b := After(g, acts).value;
      && (!ErrorTells(b) <==> b.errs == [] && Count(acts, IsStart()) < |g.calls|)
      && (!ErrorTells(b) ==> b.parentCancelled)
  {
    var b := After(g, acts).value;
    ReachableInv(g, acts);
    StartsCounted(g, acts);
    CountAll(BegunSlots(g, b), Yes());
    if b.errs != [] {
      var k := b.errs[0];
      CountHit(b.errs, 0, Of(k));
      ErrsAreFailures(g, acts, k);
    } else {
      forall i | 0 <= i < |g.calls|
        ensures b.results[i].Some? && (Failed(b.results[i].value) <==> !BegunSlots(g, b)[i])
      {
        ErrsAreFailures(g, acts, i);
      }
      if !b.parentCancelled {
        TellsWithoutCancel(g, acts);
      }
    }
  }

  // ---- Every run ends ----

  function Rank(p: Phase): (r: nat) {
    match p
    case Waiting => 6
    case Holding => 5
    case Calling => 4
    case Recording => 3
    case Aborting => 2
    case Releasing => 1
    case Finished => 0
  }

  function Work(phases: seq<Phase>): (r: nat)
  {
    if phases == [] then 0 else Work(phases[..|phases| - 1]) + Rank(phases[|phases| - 1])
  }

  lemma {:induction false} WorkUpdate(phases: seq<Phase>, i: nat, p: Phase)
    requires i < |phases|
    ensures Work(phases[i := p]) == Work(phases) - Rank(phases[i]) + Rank(p)
  {
    var n := |phases| - 1;
    if i < n {
      WorkUpdate(phases[..n], i, p);
      assert phases[i := p][..n] == phases[..n][i := p];
    } else {
      assert phases[i := p][..n] == phases[..n];
    }
  }

  lemma {:induction false} WorkAtMost(phases: seq<Phase>)
    ensures Work(phases) <= 6 * |phases|
  {
    if phases != [] {
      WorkAtMost(phases[..|phases| - 1]);
    }
  }

  lemma {:induction false} RunsAreShort(g: Config, acts: seq<Action>)
    requires After(g, acts).Some?
    ensures var b := After(g, acts).value;
      |b.phases| == |g.calls| && |acts| + Work(b.phases) <= 6 * |g.calls| + if b.parentCancelled then 1 else 0
  {
    if acts == [] {
      WorkAtMost(Init(|g.calls|).phases);
    } else {
      var before, a := acts[..|acts| - 1], acts[|acts| - 1];
      RunsAreShort(g, before);
      var b := After(g, before).value;
      if !a.ParentCancel? {
        WorkUpdate(b.phases, a.i, Step(g, b, a).phases[a.i]);
      }
    }
  }

  /** A batch that is not finished can always go on without anybody's help: no deadlock. */
  lemma CanGoOn(g: Config, acts: seq<Action>) returns (a: Action)
    requires ConfigOk(g) && After(g, acts).Some? && !Complete(After(g, acts).value)
    ensures !a.ParentCancel? && Enabled(g, After(g, acts).value, a)
  {
    ReachableInv(g, acts);
    var b := After(g, acts).value;
    if i :| 0 <= i < |b.phases| && Holds(b.phases[i]) {
      CountHit(b.phases, i, Slot());
      match b.phases[i]
      case Holding => a := if b.cancelled then SkipLate(i) else Start(i);
      case Calling => a := Return(i, g.tool(g.calls[i]));
      case Recording => a := Record(i);
      case Aborting => a := Abort(i);
      case Releasing => a := Release(i);
    } else {
      var i :| 0 <= i < |b.phases| && b.phases[i] != Finished;
      CountNone(b.phases, Slot());
      a := Acquire(i);
    }
  }

  // ---- The sequential loop ----

  function Outcomes(calls: seq<Call>, tool: Call -> Outcome): (r: seq<Result>)
    ensures |r| == |calls| && forall i :: 0 <= i < |r| ==> r[i] == Invoke(calls[i], tool(calls[i]))
    ensures forall i :: 0 <= i < |r| ==> Reports(r[i], calls[i], tool(calls[i]))
  {
    seq(|calls|, i requires 0 <= i < |calls| => Invoke(calls[i], tool(calls[i])))
  }

  /** What is reported of the first n calls: a reason for each that went wrong, in order. */
  function Reasons(calls: seq<Call>, tool: Call -> Outcome, n: nat): (r: seq<Failure>)
    requires n <= |calls|
    ensures r == [] <==> forall i :: 0 <= i < n ==> !Bad(tool(calls[i]))
  {
    if n == 0 then []
    else
      var call := calls[n - 1];
      Reasons(calls, tool, n - 1) + if Bad(tool(call)) then [Reason(call, tool(call))] else []
  }

  /** With ContinueOnError and a context that stays alive, the parallel results are those of the
      sequential loop, slot by slot, and each failure is recorded once. */
  lemma ParallelIsSequential(g: Config, acts: seq<Action>, i: nat)
    requires After(g, acts).Some? && Complete(After(g, acts).value) && !After(g, acts).value.parentCancelled
    requires g.keepGoing && i < |g.calls|
    ensures var b := After(g, acts).value;
      && |b.results| == |g.calls| && b.results[i] == Some(Outcomes(g.calls, g.tool)[i])
      && Count(b.errs, Of(i)) == if Failed(Outcomes(g.calls, g.tool)[i]) then 1 else 0
  {
    ReachableInv(g, acts);
    assert SlotInv(g, After(g, acts).value, i);
  }

  /** With ContinueOnError and a context that stays alive, every slot reports the outcome of its own call,
      and the joined error is nil exactly when no call went wrong. */
  lemma ParallelReports(g: Config, acts: seq<Action>)
    requires After(g, acts).Some? && Complete(After(g, acts).value) && !After(g, acts).value.parentCancelled && g.keepGoing
    ensures var b := After(g, acts).value;
      && |b.results| == |g.calls|
      && (forall i :: 0 <= i < |g.calls| ==> b.results[i].Some? && Reports(b.results[i].value, g.calls[i], g.tool(g.calls[i])))
      && (b.errs == [] <==> forall i :: 0 <= i < |g.calls| ==> !Bad(g.tool(g.calls[i])))
  {
    var b := After(g, acts).value;
    ReachableInv(g, acts);
    forall i | 0 <= i < |g.calls|
      ensures b.results[i].Some? && Reports(b.results[i].value, g.calls[i], g.tool(g.calls[i]))
    {
      ParallelIsSequential(g, acts, i);
      InvokeReports(g.calls[i], g.tool(g.calls[i]));
    }
    TellsWithoutCancel(g, acts);
  }

  /** The last result stopped the batch. */
  predicate StoppedBy(results: seq<Result>, keepGoing: bool) {
    !keepGoing && results != [] && Failed(results[|results| - 1])
  }

  /** cancelled(i) is what the loop sees of the context before call i. */
  method CallSequential(calls: seq<Call>, keepGoing: bool, tool: Call -> Outcome, cancelled: nat -> bool)
    returns (results: seq<Result>, errs: seq<Failure>)
    ensures results <= Outcomes(calls, tool)
    ensures forall i :: 0 <= i < |results| ==> !cancelled(i)
    ensures !keepGoing ==> forall i :: 0 <= i < |results| - 1 ==> !Failed(results[i])
    ensures |results| < |calls| ==> StoppedBy(results, keepGoing) || cancelled(|results|)
    ensures errs == Reasons(calls, tool, |results|) + if |results| < |calls| && !StoppedBy(results, keepGoing) then [ContextDone] else []
    ensures keepGoing && (forall i :: 0 <= i < |calls| ==> !cancelled(i)) ==> results == Outcomes(calls, tool)
    ensures forall i :: 0 <= i < |results| ==> Reports(results[i], calls[i], tool(calls[i]))
    ensures errs == [] <==> |results| == |calls| && forall i :: 0 <= i < |calls| ==> !Bad(tool(calls[i]))
  {
    results, errs := [], [];
    var k := 0;
    while k < |calls|
      invariant 0 <= k <= |calls| && results == Outcomes(calls, tool)[..k]
      invariant forall i :: 0 <= i < k ==> !cancelled(i)
      invariant !keepGoing ==> forall i :: 0 <= i < k - 1 ==> !Failed(results[i])
      invariant errs == Reasons(calls, tool, k)
    {
      if StoppedBy(results, keepGoing) {
        return;
      }
      if cancelled(k) {
        errs := errs + [ContextDone];
        return;
      }
      var r := Invoke(calls[k], tool(calls[k]));
      assert Reports(r, calls[k], tool(calls[k]));
      results := results + [r];
      k := k + 1;
      if Failed(r) {
        errs := errs + [FailureOf(r)];
      }
    }
  }

  // ---- Stopping on a failure ----

  /** A recorded failure of a batch that is to stop has cancelled it, or is about to. */
  lemma {:induction false} FailureCancels(g: Config, acts: seq<Action>, k: nat)
    requires After(g, acts).Some? && !g.keepGoing && k < |After(g, acts).value.errs|
    ensures var b := After(g, acts).value; b.cancelled || (b.errs[k] < |b.phases| && b.phases[b.errs[k]] == Aborting)
  {
    var before, a := acts[..|acts| - 1], acts[|acts| - 1];
    if k < |After(g, before).value.errs| {
      FailureCancels(g, before, k);
    }
  }

  lemma CancelledStays(g: Config, b: Batch, a: Action)
    requires Enabled(g, b, a) && b.cancelled
    ensures Step(g, b, a).cancelled && !a.Start?
  {
  }

  /** Once the batch is cancelled, by a failure or by its caller, no call is begun any more. */
  lemma {:induction false} NoMoreStarts(g: Config, acts: seq<Action>, more: seq<Action>)
    requires After(g, acts + more).Some? && After(g, acts).Some? && After(g, acts).value.cancelled
    ensures After(g, acts + more).value.cancelled && Count(acts + more, IsStart()) == Count(acts, IsStart())
  {
    if more == [] {
      assert acts + more == acts;
    } else {
      var n := |more| - 1;
      var before := acts + more[..n];
      assert acts + more == before + [more[n]];
      assert (acts + more)[..|before|] == before;
      NoMoreStarts(g, acts, more[..n]);
      CancelledStays(g, After(g, before).value, more[n]);
    }
  }

  /** A complete batch that was to stop on a failure and recorded one is cancelled. */
  lemma CompleteStops(g: Config, acts: seq<Action>)
    requires CompleteRun(g, acts) && !g.keepGoing && After(g, acts).value.errs != []
    ensures After(g, acts).value.cancelled
  {
    FailureCancels(g, acts, 0);
  }

  /** At the end, a slot whose call was never begun says that it was skipped, under its own name. */
  lemma UnbegunIsSkipped(g: Config, acts: seq<Action>, i: nat)
    requires CompleteRun(g, acts) && i < |g.calls|
    ensures var b := After(g, acts).value;
      && |b.phases| == |b.results| == |g.calls|
      && (!Begun(g, b, i) <==> b.results[i] == Some(Result(g.calls[i].tool, g.calls[i].args, "", false, Some(Skipped))))
  {
    ReachableInv(g, acts);
    assert SlotInv(g, After(g, acts).value, i);
  }
}
