/** The middleware chain (middleware/middleware.go, middleware/errorhandling.go,
    middleware/ratelimit.go): handlers as functions that return a response, nothing, or panic. */
module Middleware {
  import opened Wrappers

  /** An empty id is a notification. */
  datatype Ctx = Ctx(operation: string, id: string)

  datatype Error = Error(code: int, message: string, data: Option<string>)
  datatype Body = Result(text: string) | Failure(err: Error)
  datatype Response = Response(id: string, body: Body)
  datatype Flow = Returned(r: Option<Response>) | Panicked(what: string)

  type Handler = Ctx -> Flow

  const ERR_INTERNAL: int := -32603
  const DEFAULT_MESSAGE := "internal error"

  /** The built-in middlewares, and any other given by its two kinds of hook.  Callbacks are modelled
      by whether they panic; a limiter's bucket by its verdict. */
  datatype Ware =
    | Recovery(message: string, onPanic: (Ctx, string) -> bool)
    | ErrorHandling(message: string, maskAll: bool, includeError: bool, onError: (Ctx, Error) -> bool)
    | RateLimit(allows: Ctx -> bool, code: int, message: string, onLimited: Ctx -> bool)
    | Custom(onRequest: (Ctx, Handler) -> Flow, onOperation: (Ctx, Handler) -> Flow)

  predicate BuiltIn(m: Ware) {
    !m.Custom?
  }

  function ErrorResponse(c: Ctx, err: Error): (r: Flow) {
    Returned(if c.id == "" then None else Some(Response(c.id, Failure(err))))
  }

  function Text(message: string): (s: string) {
    if message == "" then DEFAULT_MESSAGE else message
  }

  function Masked(m: Ware, err: Error): (r: Error)
    requires m.ErrorHandling?
  {
    Error(err.code, Text(m.message), if m.includeError then Some(err.message) else None)
  }

  predicate ShouldMask(m: Ware, err: Error)
    requires m.ErrorHandling?
  {
    m.maskAll || err.code == ERR_INTERNAL
  }

  /** The deferred recovery of ErrorHandling. */
  function Rescue(m: Ware, c: Ctx, what: string): (f: Flow)
    requires m.ErrorHandling?
  {
    var err := Error(ERR_INTERNAL, "panic: " + what, None);
    if m.onError(c, err) then Panicked("OnError") else ErrorResponse(c, Masked(m, err))
  }

  function OnRequest(m: Ware, c: Ctx, next: Handler): (f: Flow) {
    match m
    case Recovery(message, onPanic) =>
      var f := next(c);
      if f.Returned? then f
      else if onPanic(c, f.what) then Panicked("OnPanic")
      else ErrorResponse(c, Error(ERR_INTERNAL, Text(message), None))
    case ErrorHandling(_, _, _, onError) =>
      var f := next(c);
      if f.Panicked? then Rescue(m, c, f.what)
      else if f.r.None? || f.r.value.body.Result? then f
      else
        var err := f.r.value.body.err;
        if onError(c, err) then Rescue(m, c, "OnError")
        else if ShouldMask(m, err) then Returned(Some(f.r.value.(body := Failure(Masked(m, err)))))
        else f
    case RateLimit(allows, code, message, onLimited) =>
      if c.id == "" || allows(c) then next(c)
      else if onLimited(c) then Panicked("OnLimited")
      else ErrorResponse(c, Error(code, message, None))
    case Custom(onRequest, _) => onRequest(c, next)
  }

  predicate HasHook(operation: string) {
    operation == "tools/call" || operation == "tools/list" || operation == "resources/read" || operation == "prompts/get"
  }

  function Operation(m: Ware, next: Handler): (h: Handler) {
    (c: Ctx) => if m.Custom? && HasHook(c.operation) then m.onOperation(c, next) else next(c)
  }

  function Wrap(m: Ware, next: Handler): (h: Handler) {
    (c: Ctx) => OnRequest(m, c, Operation(m, next))
  }

  /** The chain around a handler, outermost first. */
  function Compose(wares: seq<Ware>, final: Handler): (h: Handler)
  {
    if wares == [] then final else Wrap(wares[0], Compose(wares[1..], final))
  }

  /** The right-to-left loop. */
  method Then(wares: seq<Ware>, final: Handler) returns (h: Handler)
    ensures h == Compose(wares, final)
  {
    h := final;
    var i := |wares|;
    while i > 0
      invariant 0 <= i <= |wares| && h == Compose(wares[i..], final)
    {
      i := i - 1;
      assert wares[i..][1..] == wares[i + 1..];
      h := Wrap(wares[i], h);
    }
    assert wares[0..] == wares;
  }

  /** A concatenated chain is the two chains nested. */
  lemma {:induction false} ComposeAppend(a: seq<Ware>, b: seq<Ware>, final: Handler)
    ensures Compose(a + b, final) == Compose(a, Compose(b, final))
  {
    if a == [] {
      assert a + b == b;
    } else {
      ComposeAppend(a[1..], b, final);
      assert (a + b)[1..] == a[1..] + b;
    }
  }

  // ---- What chains keep ----

  /** A response carries the id of its request; a notification gets none, a request gets one. */
  predicate Faithful(c: Ctx, f: Flow) {
    f.Returned? ==> if c.id == "" then f.r.None? else f.r.Some? && f.r.value.id == c.id
  }

  ghost predicate Echoes(h: Handler) {
    forall c :: Faithful(c, h(c))
  }

  lemma WrapEchoes(m: Ware, next: Handler)
    requires BuiltIn(m) && Echoes(next)
    ensures Echoes(Wrap(m, next))
  {
    forall c
      ensures Faithful(c, Wrap(m, next)(c))
    {
      assert Operation(m, next)(c) == next(c);
      assert Faithful(c, next(c));
    }
  }

  /** Any chain of built-in middlewares over a faithful handler is faithful whenever it returns. */
  lemma {:induction false} ChainEchoes(wares: seq<Ware>, final: Handler)
    requires Echoes(final) && forall i :: 0 <= i < |wares| ==> BuiltIn(wares[i])
    ensures Echoes(Compose(wares, final))
  {
    if wares != [] {
      ChainEchoes(wares[1..], final);
      WrapEchoes(wares[0], Compose(wares[1..], final));
    }
  }

  /** The callbacks of a built-in middleware never panic. */
  ghost predicate Quiet(m: Ware) {
    match m
    case Recovery(_, onPanic) => forall c, what :: !onPanic(c, what)
    case ErrorHandling(_, _, _, onError) => forall c, err :: !onError(c, err)
    case RateLimit(_, _, _, onLimited) => forall c :: !onLimited(c)
    case Custom(_, _) => false
  }

  ghost predicate Returns(h: Handler) {
    forall c :: h(c).Returned?
  }

  lemma WrapReturns(m: Ware, next: Handler)
    requires Quiet(m) && Returns(next)
    ensures Returns(Wrap(m, next))
  {
    forall c
      ensures Wrap(m, next)(c).Returned?
    {
      assert Operation(m, next)(c) == next(c);
      assert next(c).Returned?;
    }
  }

  lemma {:induction false} ChainReturns(wares: seq<Ware>, final: Handler)
    requires Returns(final) && forall i :: 0 <= i < |wares| ==> Quiet(wares[i])
    ensures Returns(Compose(wares, final))
  {
    if wares != [] {
      ChainReturns(wares[1..], final);
      WrapReturns(wares[0], Compose(wares[1..], final));
    }
  }

  /** What gets out of a Recovery: a panic of what it wraps on which its own callback panics. */
  lemma RecoveryCatches(r: Ware, inner: Handler, c: Ctx)
    requires r.Recovery?
    ensures Wrap(r, inner)(c).Panicked? <==> inner(c).Panicked? && r.onPanic(c, inner(c).what)
  {
    assert Operation(r, inner)(c) == inner(c);
  }

  /** A Recovery anywhere in a chain, under built-in middlewares with quiet callbacks, stops every panic
      from the middlewares below it and from the handler, whatever they are, unless its own callback
      panics. */
  lemma RecoveryStopsPanics(outer: seq<Ware>, r: Ware, inner: seq<Ware>, final: Handler)
    requires r.Recovery? && forall i :: 0 <= i < |outer| ==> Quiet(outer[i])
    requires forall c :: var f := Compose(inner, final)(c); f.Panicked? ==> !r.onPanic(c, f.what)
    ensures Returns(Compose(outer + ([r] + inner), final))
  {
    ComposeAppend(outer, [r] + inner, final);
    assert ([r] + inner)[1..] == inner;
    forall c
      ensures Wrap(r, Compose(inner, final))(c).Returned?
    {
      RecoveryCatches(r, Compose(inner, final), c);
    }
    ChainReturns(outer, Wrap(r, Compose(inner, final)));
  }

  /** What a client is shown in place of a message. */
  function Shown(message: string): (s: string)
    ensures s == if |message| == 0 then "internal error" else message
  {
    Text(message)
  }

  /** Under an outermost ErrorHandling no internal message gets out, and with MaskAll no message at
      all, except as data when that is asked for; results, codes, ids and other errors go through as
      they are. */
  lemma MaskingHides(wares: seq<Ware>, final: Handler, c: Ctx)
    requires wares != [] && wares[0].ErrorHandling?
    ensures var m, inner, f := wares[0], Compose(wares[1..], final)(c), Compose(wares, final)(c);
      && (f.Returned? && f.r.Some? && f.r.value.body.Failure? && (m.maskAll || f.r.value.body.err.code == -32603) ==>
            f.r.value.body.err.message == Shown(m.message) && (f.r.value.body.err.data.Some? <==> m.includeError))
      && (inner.Returned? && (inner.r.None? || inner.r.value.body.Result?) ==> f == inner)
      && (inner.Returned? && inner.r.Some? && inner.r.value.body.Failure? && !m.onError(c, inner.r.value.body.err) ==>
            var err := inner.r.value.body.err;
            f == if m.maskAll || err.code == -32603 then
                   Returned(Some(Response(inner.r.value.id,
                     Failure(Error(err.code, Shown(m.message), if m.includeError then Some(err.message) else None)))))
                 else inner)
  {
    assert Operation(wares[0], Compose(wares[1..], final))(c) == Compose(wares[1..], final)(c);
  }

  /** A panic below an ErrorHandling or a Recovery whose callbacks do not panic becomes an internal error
      under the request's id, with nothing of the panic in its message; a notification gets nothing. */
  lemma PanicsBecomeErrors(m: Ware, inner: Handler, c: Ctx)
    requires (m.Recovery? || m.ErrorHandling?) && Quiet(m) && inner(c).Panicked?
    ensures var f := Wrap(m, inner)(c);
      && f.Returned? && (f.r.None? <==> c.id == "")
      && (f.r.Some? ==>
            && f.r.value.id == c.id && f.r.value.body.Failure?
            && f.r.value.body.err.code == -32603 && f.r.value.body.err.message == Shown(m.message)
            && f.r.value.body.err.data == if m.ErrorHandling? && m.includeError then Some("panic: " + inner(c).what) else None)
  {
    assert Operation(m, inner)(c) == inner(c);
  }

  // ---- The limiter in a chain ----

  /** Built-in middlewares look at what they wrap only under the context they were given. */
  lemma {:induction false} ChainLooksOnce(outer: seq<Ware>, h: Handler, g: Handler, c: Ctx)
    requires h(c) == g(c) && forall i :: 0 <= i < |outer| ==> BuiltIn(outer[i])
    ensures Compose(outer, h)(c) == Compose(outer, g)(c)
  {
    if outer != [] {
      ChainLooksOnce(outer[1..], h, g, c);
      var x, y := Compose(outer[1..], h), Compose(outer[1..], g);
      assert Operation(outer[0], x)(c) == x(c) && Operation(outer[0], y)(c) == y(c);
    }
  }

  /** A notification, and a request within the limit, passes as if the limiter were not there. */
  lemma LimiterPasses(outer: seq<Ware>, m: Ware, inner: seq<Ware>, final: Handler, c: Ctx)
    requires m.RateLimit? && (forall i :: 0 <= i < |outer| ==> BuiltIn(outer[i])) && (c.id == "" || m.allows(c))
    ensures Compose(outer + ([m] + inner), final)(c) == Compose(outer + inner, final)(c)
  {
    var h := Compose(inner, final);
    ComposeAppend(outer, [m] + inner, final);
    ComposeAppend(outer, inner, final);
    assert ([m] + inner)[1..] == inner;
    assert Operation(m, h)(c) == h(c);
    ChainLooksOnce(outer, Wrap(m, h), h, c);
  }

  /** A request over the limit never reaches what is below: whatever stands there, the outcome is the
      same, and what leaves the limiter is its own error under the request's id. */
  lemma LimiterStops(outer: seq<Ware>, m: Ware, inner: seq<Ware>, final: Handler, c: Ctx)
    requires m.RateLimit? && (forall i :: 0 <= i < |outer| ==> BuiltIn(outer[i])) && c.id != "" && !m.allows(c)
    ensures Compose(outer + ([m] + inner), final)(c) == Compose(outer + [m], (other: Ctx) => Panicked("unreached"))(c)
    ensures !m.onLimited(c) ==> Compose([m] + inner, final)(c) == Returned(Some(Response(c.id, Failure(Error(m.code, m.message, None)))))
  {
    var h, g := Compose(inner, final), (other: Ctx) => Panicked("unreached");
    ComposeAppend(outer, [m] + inner, final);
    ComposeAppend(outer, [m], g);
    assert ([m] + inner)[1..] == inner && [m][1..] == [];
    ChainLooksOnce(outer, Wrap(m, h), Wrap(m, g), c);
  }

  /** The operation hook of a middleware runs inside its request hook, for the four operations that have
      one, and nowhere else. */
  lemma HookRuns(m: Ware, next: Handler, c: Ctx)
    requires m.Custom?
    ensures Operation(m, next)(c) == if c.operation in ["tools/call", "tools/list", "resources/read", "prompts/get"] then m.onOperation(c, next) else next(c)
    ensures Wrap(m, next)(c) == m.onRequest(c, Operation(m, next))
  {
  }
}
