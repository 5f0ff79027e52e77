/** Templates as they are written (uritemplate/fastmcp.go): literal text, "{name}" and "{name*}", with
    one "{?a,b}" or "{&a,b}" anywhere.  What was written is what is compiled. */
module TemplateSyntax {
  import opened Wrappers
  import opened Percent
  import opened Sequences
  import opened Scanning
  import opened PathMatching
  import opened EscapeMarks
  import opened FastMcp
  import opened TemplateRoundTrip

  datatype Elem = Plain(text: Bytes) | Var(raw: Bytes, star: bool)

  function ElemText(e: Elem): (r: Bytes) {
    match e
    case Plain(text) => text
    case Var(raw, star) => ['{'] + (raw + if star then ['*'] else []) + ['}']
  }

  function PathText(es: seq<Elem>): (r: Bytes)
  {
    if es == [] then [] else ElemText(es[0]) + PathText(es[1..])
  }

  /** The token an element stands for. */
  function Meant(e: Elem): (t: Token) {
    match e
    case Plain(text) => Lit(text)
    case Var(raw, star) => if star then Wild(Normalize(raw)) else Seg(Normalize(raw))
  }

  function Tokens(es: seq<Elem>): (r: seq<Token>)
    ensures |r| == |es| && forall i :: 0 <= i < |es| ==> r[i] == Meant(es[i])
  {
    seq(|es|, i requires 0 <= i < |es| => Meant(es[i]))
  }

  predicate ProperElem(e: Elem) {
    match e
    case Plain(text) => text != [] && '{' !in text
    case Var(raw, _) => ValidGroupName(Normalize(raw))
  }

  /** Text runs are maximal and no name is used twice. */
  ghost predicate Proper(es: seq<Elem>) {
    && (forall i :: 0 <= i < |es| ==> ProperElem(es[i]))
    && (forall i :: 0 <= i < |es| - 1 && es[i].Plain? ==> es[i + 1].Var?)
    && Distinct(Tokens(es))
  }

  // ---- The path ----

  lemma ProperName(raw: Bytes)
    requires ValidGroupName(Normalize(raw))
    ensures raw != [] && '}' !in raw && '*' !in raw && '{' !in raw && raw[0] != '?' && raw[0] != '&'
  {
    var name := Normalize(raw);
    forall i | 0 <= i < |raw|
      ensures raw[i] != '}' && raw[i] != '*' && raw[i] != '{' && raw[i] != '?' && raw[i] != '&'
    {
      assert raw[i] == '-' || name[i] == raw[i];
    }
  }

  function PieceOf(e: Elem): (r: Piece) {
    match e
    case Plain(text) => Text(text)
    case Var(raw, star) => Slot(raw + if star then ['*'] else [])
  }

  lemma SlotFirst(body: Bytes, rest: Bytes)
    requires '}' !in body
    ensures Pieces(['{'] + body + ['}'] + rest) == [Slot(body)] + Pieces(rest)
  {
    var s := ['{'] + body + ['}'] + rest;
    IndexOfAfter(['{'] + body, '}', rest);
    assert s[1..|body| + 1] == body;
    assert s[|body| + 2..] == rest;
    PiecesCons(s, Found(Slot(body), |body| + 2), rest);
  }

  lemma TextFirst(text: Bytes, rest: Bytes)
    requires text != [] && '{' !in text && (rest == [] || rest[0] == '{')
    ensures Pieces(text + rest) == [Text(text)] + Pieces(rest)
  {
    var s := text + rest;
    if rest == [] {
      assert s == text;
      IndexOfNone(text, '{');
    } else {
      assert s == text + ['{'] + rest[1..];
      IndexOfAfter(text, '{', rest[1..]);
    }
    AppendParts(text, rest);
    PiecesCons(s, Found(Text(text), |text|), rest);
  }

  lemma ElemFirst(e: Elem, rest: Bytes)
    requires ProperElem(e) && (e.Plain? ==> rest == [] || rest[0] == '{')
    ensures Pieces(ElemText(e) + rest) == [PieceOf(e)] + Pieces(rest)
  {
    match e
    case Plain(text) => TextFirst(text, rest);
    case Var(raw, star) =>
      ProperName(raw);
      SlotFirst(raw + if star then ['*'] else [], rest);
  }

  /** What a placeholder says of itself. */
  lemma VarParses(raw: Bytes, star: bool)
    requires ValidGroupName(Normalize(raw))
    ensures ParseSlot(raw + if star then ['*'] else []) == Some(Param(Normalize(raw), star))
  {
    ProperName(raw);
    var body := raw + if star then ['*'] else [];
    if star {
      assert body[..|body| - 1] == raw;
    } else {
      assert body == raw;
      assert raw[|raw| - 1] in raw;
    }
  }

  function NamesOf(e: Elem): (r: set<Bytes>) {
    if e.Var? then {Normalize(e.raw)} else {}
  }

  lemma CompileFirst(e: Elem, rest: seq<Piece>, seen: set<Bytes>)
    requires ProperElem(e) && NamesOf(e) !! seen
    ensures Compile([PieceOf(e)] + rest, seen) == Prefixed([Meant(e)], Compile(rest, seen + NamesOf(e)))
  {
    assert ([PieceOf(e)] + rest)[1..] == rest;
    match e
    case Plain(_) => assert seen + {} == seen;
    case Var(raw, star) => VarParses(raw, star);
  }

  lemma {:induction false} CompilesAs(es: seq<Elem>, seen: set<Bytes>)
    requires Proper(es) && forall i :: 0 <= i < |es| ==> NamesOf(es[i]) !! seen
    ensures Compile(Pieces(PathText(es)), seen) == Some(Tokens(es))
  {
    if es != [] {
      var e, rest := es[0], es[1..];
      TailProper(es);
      CompilesAs(rest, seen + NamesOf(e));
      CompileStep(es, seen);
    }
  }

  lemma CompileStep(es: seq<Elem>, seen: set<Bytes>)
    requires es != [] && Proper(es) && NamesOf(es[0]) !! seen
    requires Compile(Pieces(PathText(es[1..])), seen + NamesOf(es[0])) == Some(Tokens(es[1..]))
    ensures Compile(Pieces(PathText(es)), seen) == Some(Tokens(es))
  {
    StartsWithBrace(es);
    ElemFirst(es[0], PathText(es[1..]));
    CompileCons(es[0], Pieces(PathText(es[1..])), seen, Tokens(es[1..]));
    TokensCons(es);
  }

  lemma CompileCons(e: Elem, rest: seq<Piece>, seen: set<Bytes>, tokens: seq<Token>)
    requires ProperElem(e) && NamesOf(e) !! seen && Compile(rest, seen + NamesOf(e)) == Some(tokens)
    ensures Compile([PieceOf(e)] + rest, seen) == Some([Meant(e)] + tokens)
  {
    CompileFirst(e, rest, seen);
  }

  lemma TokensCons(es: seq<Elem>)
    requires es != []
    ensures Tokens(es) == [Meant(es[0])] + Tokens(es[1..])
  {
  }

  lemma TailProper(es: seq<Elem>)
    requires es != [] && Proper(es)
    ensures Proper(es[1..]) && forall i :: 0 <= i < |es[1..]| ==> NamesOf(es[1..][i]) !! NamesOf(es[0])
  {
    var rest := es[1..];
    assert forall i :: 0 <= i < |rest| ==> rest[i] == es[i + 1] && Tokens(rest)[i] == Tokens(es)[i + 1];
    forall i | 0 <= i < |rest| && es[0].Var? && rest[i].Var?
      ensures NamesOf(rest[i]) !! NamesOf(es[0])
    {
      assert Tokens(es)[0].name != Tokens(es)[i + 1].name;
    }
  }

  lemma StartsWithBrace(es: seq<Elem>)
    requires es != [] && Proper(es)
    ensures es[0].Plain? ==> PathText(es[1..]) == [] || PathText(es[1..])[0] == '{'
  {
    if |es| > 1 && es[0].Plain? {
      assert es[0 + 1].Var? && es[1..][0] == es[1];
    }
  }

  /** A path that is written properly compiles to what was written. */
  lemma CompilesToMeant(es: seq<Elem>)
    requires Proper(es)
    ensures CompilePath(PathText(es)) == Some(Tokens(es))
  {
    CompilesAs(es, {});
  }

  // ---- The query expression ----

  /** Every '{' is followed by something other than the operator. */
  ghost predicate Avoids(s: Bytes, op: Byte) {
    forall i :: 0 <= i < |s| && s[i] == '{' ==> i + 1 < |s| && s[i + 1] != op
  }

  lemma AvoidsAppend(a: Bytes, b: Bytes, op: Byte)
    requires Avoids(a, op) && Avoids(b, op)
    ensures Avoids(a + b, op)
  {
    var s := a + b;
    forall i | 0 <= i < |s| && s[i] == '{'
      ensures i + 1 < |s| && s[i + 1] != op
    {
      if i < |a| {
        assert a[i] == '{' && s[i + 1] == a[i + 1];
      } else {
        assert b[i - |a|] == '{' && s[i + 1] == b[i - |a| + 1];
      }
    }
  }

  lemma {:induction false} PathAvoids(es: seq<Elem>, op: Byte)
    requires (forall i :: 0 <= i < |es| ==> ProperElem(es[i])) && (op == '?' || op == '&')
    ensures Avoids(PathText(es), op)
  {
    if es != [] {
      PathAvoids(es[1..], op);
      ElemAvoids(es[0], op);
      AvoidsAppend(ElemText(es[0]), PathText(es[1..]), op);
    }
  }

  lemma ElemAvoids(e: Elem, op: Byte)
    requires ProperElem(e) && (op == '?' || op == '&')
    ensures Avoids(ElemText(e), op)
  {
    if e.Var? {
      ProperName(e.raw);
      var body := e.raw + if e.star then ['*'] else [];
      assert '{' !in body && body[0] == e.raw[0];
      assert ElemText(e)[1] == body[0];
    }
  }

  lemma {:induction false} FindsOp(pre: Bytes, op: Byte, rest: Bytes)
    requires Avoids(pre, op)
    ensures FindOp(pre + (['{', op] + rest), op) == |pre|
  {
    var s := pre + (['{', op] + rest);
    if pre == [] {
      assert s == ['{', op] + rest;
    } else {
      assert s[1..] == pre[1..] + (['{', op] + rest);
      assert Avoids(pre[1..], op);
      FindsOp(pre[1..], op, rest);
      assert s[0] == pre[0] && (pre[0] == '{' ==> s[1] == pre[1]);
    }
  }

  lemma {:induction false} FindsNoOp(s: Bytes, op: Byte)
    requires Avoids(s, op)
    ensures FindOp(s, op) == |s|
  {
    if |s| >= 2 {
      assert Avoids(s[1..], op);
      FindsNoOp(s[1..], op);
    }
  }

  /** A closed expression is taken out, and its names are what stands between commas. */
  lemma TakesOut(pre: Bytes, op: Byte, body: Bytes, post: Bytes)
    requires Avoids(pre, op) && op != '}' && '}' !in body
    ensures TakeQuery(pre + (['{', op] + (body + ['}'] + post)), op) == Some(Parts(pre + post, NonBlank(Split(body, ','))))
  {
    var tail := ['{', op] + (body + ['}'] + post);
    FindsOp(pre, op, body + ['}'] + post);
    AppendParts(pre, tail);
    ClosesAt(op, body, post);
    ExprParts(pre, ['{', op], body, post);
    TakenAt(pre + tail, op, pre, body, post);
  }

  lemma TakenAt(s: Bytes, op: Byte, pre: Bytes, body: Bytes, post: Bytes)
    requires op != '}' && |s| == |pre| + |body| + |post| + 3
    requires FindOp(s, op) == |pre| && IndexOf(s[|pre|..], '}') == |body| + 2
    requires s[..|pre|] == pre && s[|pre| + 2..|pre| + (|body| + 2)] == body && s[|pre| + (|body| + 2) + 1..] == post
    ensures TakeQuery(s, op) == Some(Parts(pre + post, NonBlank(Split(body, ','))))
  {
  }

  lemma ClosesAt(op: Byte, body: Bytes, post: Bytes)
    requires op != '}' && '}' !in body
    ensures IndexOf(['{', op] + (body + ['}'] + post), '}') == |body| + 2
  {
    assert ['{', op] + (body + ['}'] + post) == ['{', op] + body + ['}'] + post;
    IndexOfAfter(['{', op] + body, '}', post);
  }

  lemma ExprParts(pre: Bytes, start: Bytes, body: Bytes, post: Bytes)
    requires |start| == 2
    ensures var s := pre + (start + (body + ['}'] + post));
      s[|pre| + 2..|pre| + (|body| + 2)] == body && s[|pre| + (|body| + 2) + 1..] == post
  {
  }

  lemma TrimKeeps(s: Bytes)
    requires forall k :: 0 <= k < |s| ==> !Space(s[k])
    ensures Trim(s) == s
  {
  }

  lemma {:induction false} NonBlankKeeps(names: seq<Bytes>)
    requires PlainNames(names) && [] !in names
    ensures NonBlank(names) == names
  {
    if names != [] {
      NonBlankKeeps(names[..|names| - 1]);
      TrimKeeps(names[|names| - 1]);
      Last(names);
    }
  }

  /** Names separated by commas. */
  function NameList(names: seq<Bytes>): (r: Bytes) {
    if names == [] then [] else Join(names, ',')
  }

  lemma {:induction false} JoinLacks(names: seq<Bytes>, c: Byte)
    requires names != [] && c != ',' && forall i :: 0 <= i < |names| ==> c !in names[i]
    ensures c !in Join(names, ',')
  {
    if |names| > 1 {
      JoinLacks(names[1..], c);
    }
  }

  lemma ListLacks(names: seq<Bytes>, c: Byte)
    requires PlainNames(names) && c != ',' && !Unreserved(c)
    ensures c !in NameList(names)
  {
    if names != [] {
      JoinLacks(names, c);
    }
  }

  lemma NamesRead(names: seq<Bytes>)
    requires PlainNames(names) && [] !in names
    ensures NonBlank(Split(NameList(names), ',')) == names
  {
    if names == [] {
      assert Split([], ',') == [[]];
      assert NonBlank([[]]) == NonBlank([[]][..0]) + [];
    } else {
      SplitJoin(names, ',');
      NonBlankKeeps(names);
    }
  }

  function QueryExpr(op: Byte, names: seq<Bytes>): (r: Bytes) {
    ['{', op] + NameList(names) + ['}']
  }

  /** An expression that is taken out gives its names. */
  lemma ExprTaken(pre: Bytes, op: Byte, names: seq<Bytes>, post: Bytes)
    requires Avoids(pre, op) && op != '}' && PlainNames(names) && [] !in names
    ensures TakeQuery(pre + QueryExpr(op, names) + post, op) == Some(Parts(pre + post, names))
  {
    ListLacks(names, '}');
    TakesOut(pre, op, NameList(names), post);
    NamesRead(names);
    ExprGrouped(pre, op, names, post);
  }

  lemma ExprGrouped(pre: Bytes, op: Byte, names: seq<Bytes>, post: Bytes)
    ensures pre + QueryExpr(op, names) + post == pre + (['{', op] + (NameList(names) + ['}'] + post))
  {
    Regroup(pre, ['{', op], NameList(names), ['}'], post);
  }

  lemma QuestionTaken(pre: Bytes, names: seq<Bytes>, post: Bytes)
    requires Avoids(pre, '?') && PlainNames(names) && [] !in names
    ensures SplitQuery(pre + QueryExpr('?', names) + post) == Parts(pre + post, names)
  {
    ExprTaken(pre, '?', names, post);
  }

  lemma AmpersandTaken(pre: Bytes, names: seq<Bytes>, post: Bytes)
    requires Avoids(pre, '?') && Avoids(post, '?') && Avoids(pre, '&') && PlainNames(names) && [] !in names
    ensures SplitQuery(pre + QueryExpr('&', names) + post) == Parts(pre + post, names)
  {
    NoQuestion(pre, names, post);
    ExprTaken(pre, '&', names, post);
  }

  lemma NoQuestion(pre: Bytes, names: seq<Bytes>, post: Bytes)
    requires Avoids(pre, '?') && Avoids(post, '?') && PlainNames(names)
    ensures TakeQuery(pre + QueryExpr('&', names) + post, '?') == None
  {
    ListLacks(names, '{');
    AvoidsAppend(pre, QueryExpr('&', names), '?');
    AvoidsAppend(pre + QueryExpr('&', names), post, '?');
    FindsNoOp(pre + QueryExpr('&', names) + post, '?');
  }

  lemma Regroup(a: Bytes, b: Bytes, c: Bytes, d: Bytes, e: Bytes)
    ensures a + (b + c + d) + e == a + (b + (c + d + e))
  {
  }

  lemma NothingTaken(s: Bytes)
    requires Avoids(s, '?') && Avoids(s, '&')
    ensures SplitQuery(s) == Parts(s, [])
  {
    FindsNoOp(s, '?');
    FindsNoOp(s, '&');
  }

  // ---- The round trip of what was written ----

  /** A whole template: a path with the query expression, if there is one, somewhere in it. */
  datatype Written = Written(pre: seq<Elem>, query: Option<Ask>, post: seq<Elem>)

  datatype Ask = Ask(op: Byte, names: seq<Bytes>)

  function TemplateText(w: Written): (r: Bytes) {
    match w.query
    case None => PathText(w.pre) + PathText(w.post)
    case Some(ask) => PathText(w.pre) + QueryExpr(ask.op, ask.names) + PathText(w.post)
  }

  function Asked(w: Written): (r: seq<Bytes>) {
    match w.query
    case None => []
    case Some(ask) => ask.names
  }

  ghost predicate ProperTemplate(w: Written) {
    && Proper(w.pre + w.post) && PlainNames(Asked(w)) && [] !in Asked(w)
    && (w.query.Some? ==> w.query.value.op == '?' || w.query.value.op == '&')
  }

  lemma PathCons(e: Elem, es: seq<Elem>)
    ensures PathText([e] + es) == ElemText(e) + PathText(es)
  {
    assert ([e] + es)[1..] == es;
  }

  lemma {:induction false} PathTextAppend(a: seq<Elem>, b: seq<Elem>)
    ensures PathText(a + b) == PathText(a) + PathText(b)
  {
    if a == [] {
      assert a + b == b;
    } else {
      var e, rest := a[0], a[1..];
      PathTextAppend(rest, b);
      PathCons(e, rest + b);
      ConsAppend(a, b);
      Assoc(ElemText(e), PathText(rest), PathText(b));
    }
  }

  /** A template reads as it was written: its path without the expression, and the names in it. */
  lemma ReadsAsWritten(w: Written)
    requires ProperTemplate(w)
    ensures SplitQuery(TemplateText(w)) == Parts(PathText(w.pre + w.post), Asked(w))
    ensures CompilePath(PathText(w.pre + w.post)) == Some(Tokens(w.pre + w.post))
  {
    HalvesAvoid(w);
    PathTextAppend(w.pre, w.post);
    CompilesToMeant(w.pre + w.post);
    match w.query
    case None => NothingTaken(TemplateText(w));
    case Some(ask) =>
      if ask.op == '?' {
        QuestionTaken(PathText(w.pre), ask.names, PathText(w.post));
      } else {
        AmpersandTaken(PathText(w.pre), ask.names, PathText(w.post));
      }
  }

  lemma HalvesAvoid(w: Written)
    requires ProperTemplate(w)
    ensures Avoids(PathText(w.pre), '?') && Avoids(PathText(w.pre), '&')
    ensures Avoids(PathText(w.post), '?') && Avoids(PathText(w.post), '&')
    ensures Avoids(PathText(w.pre) + PathText(w.post), '?') && Avoids(PathText(w.pre) + PathText(w.post), '&')
  {
    var es := w.pre + w.post;
    assert forall i :: 0 <= i < |w.pre| ==> w.pre[i] == es[i];
    assert forall i :: 0 <= i < |w.post| ==> w.post[i] == es[|w.pre| + i];
    PathAvoids(w.pre, '?');
    PathAvoids(w.pre, '&');
    PathAvoids(w.post, '?');
    PathAvoids(w.post, '&');
    AvoidsAppend(PathText(w.pre), PathText(w.post), '?');
    AvoidsAppend(PathText(w.pre), PathText(w.post), '&');
  }

  /** Every placeholder of the path has a non-empty value. */
  ghost predicate Given(w: Written, params: Params) {
    forall e :: e in w.pre + w.post && e.Var? ==> Normalize(e.raw) in params && params[Normalize(e.raw)] != []
  }

  /** The names that stand in the template, as parameters are keyed. */
  function Named(w: Written): (r: set<Bytes>) {
    (set e | e in w.pre + w.post && e.Var? :: Normalize(e.raw)) + (set n | n in Asked(w) :: Normalize(n))
  }

  ghost predicate GivesBack(w: Written, params: Params) {
    MatchUri(Expand(TemplateText(w), params), TemplateText(w)) == Some(Restrict(params, Named(w)))
  }

  lemma NamedAre(es: seq<Elem>)
    ensures (set e | e in es && e.Var? :: Normalize(e.raw)) == PathNames(Tokens(es))
  {
    var names, tokens := set e | e in es && e.Var? :: Normalize(e.raw), Tokens(es);
    forall n
      ensures n in names <==> n in PathNames(tokens)
    {
      if n in names {
        var i :| 0 <= i < |es| && es[i].Var? && Normalize(es[i].raw) == n;
        assert tokens[i] in tokens;
      }
      if n in PathNames(tokens) {
        var i :| 0 <= i < |tokens| && Hole(tokens[i]) && tokens[i].name == n;
        assert es[i] in es;
      }
    }
  }

  lemma GivenIsSuitable(w: Written, params: Params)
    ensures Given(w, params) <==> Suitable(Tokens(w.pre + w.post), params)
  {
    var es := w.pre + w.post;
    if Suitable(Tokens(es), params) {
      forall e | e in es && e.Var?
        ensures Normalize(e.raw) in params && params[Normalize(e.raw)] != []
      {
        var i :| 0 <= i < |es| && es[i] == e;
        assert Hole(Tokens(es)[i]);
      }
    }
  }

  lemma GivesBackIsComesBack(w: Written, params: Params)
    requires ProperTemplate(w)
    ensures GivesBack(w, params) <==> ComesBack(TemplateText(w), Tokens(w.pre + w.post), params)
  {
    ReadsAsWritten(w);
    NamedAre(w.pre + w.post);
  }

  /** Expanding a template and matching the result against it gives back every parameter whose name
      stands in the template, for every choice of values, if and only if no literal text holds a '?'
      and the placeholders are kept apart. */
  lemma WrittenRoundTripIff(w: Written)
    requires ProperTemplate(w) && LiteralsForeign(Tokens(w.pre + w.post))
    ensures (forall params :: Given(w, params) ==> GivesBack(w, params)) <==>
            (forall e :: e in w.pre + w.post && e.Plain? ==> '?' !in e.text) && KeptApart(Tokens(w.pre + w.post))
  {
    var tokens := Tokens(w.pre + w.post);
    ReadsAsWritten(w);
    RoundTripIff(TemplateText(w), tokens);
    QuestionsLacked(w.pre + w.post);
    forall params
      ensures (Given(w, params) ==> GivesBack(w, params)) <==>
              (Suitable(tokens, params) ==> ComesBack(TemplateText(w), tokens, params))
    {
      GivenIsSuitable(w, params);
      GivesBackIsComesBack(w, params);
    }
  }

  lemma QuestionsLacked(es: seq<Elem>)
    ensures (forall e :: e in es && e.Plain? ==> '?' !in e.text) <==> LiteralsLack(Tokens(es), '?')
  {
    if LiteralsLack(Tokens(es), '?') {
      forall e | e in es && e.Plain?
        ensures '?' !in e.text
      {
        var i :| 0 <= i < |es| && es[i] == e;
        assert Tokens(es)[i].Lit?;
      }
    }
  }

  /** Where bytes that no value holds keep the placeholders apart, literals may be anything without '?'. */
  lemma WrittenRoundTrip(w: Written, params: Params)
    requires ProperTemplate(w) && Given(w, params) && Separable(Tokens(w.pre + w.post))
    requires forall e :: e in w.pre + w.post && e.Plain? ==> '?' !in e.text
    ensures GivesBack(w, params)
  {
    ReadsAsWritten(w);
    QuestionsLacked(w.pre + w.post);
    GivenIsSuitable(w, params);
    RoundTrip(TemplateText(w), Tokens(w.pre + w.post), params);
    GivesBackIsComesBack(w, params);
  }

  // ---- Malformed templates ----

  /** Letters, digits and '_' by their codes, not starting with a digit. */
  lemma GroupNames(name: Bytes)
    ensures ValidGroupName(name) <==>
            && |name| > 0 && !(48 <= name[0] as int <= 57)
            && forall i :: 0 <= i < |name| ==>
                 97 <= name[i] as int <= 122 || 65 <= name[i] as int <= 90 || name[i] as int == 95 || 48 <= name[i] as int <= 57
  {
  }

  /** A placeholder without a name, with a '*' before its end, or with a name that is no group name. */
  predicate BadBody(body: Bytes) {
    var name := if body != [] && body[|body| - 1] == '*' then body[..|body| - 1] else body;
    name == [] || '*' in name || !ValidGroupName(Normalize(name))
  }

  ghost predicate BadPiece(p: Piece) {
    p.Unclosed? || (p.Slot? && BadBody(p.body))
  }

  lemma {:induction false} BadPieceFails(pieces: seq<Piece>, seen: set<Bytes>, i: nat)
    requires i < |pieces| && BadPiece(pieces[i])
    ensures Compile(pieces, seen) == None
  {
    if i > 0 {
      match pieces[0]
      case Text(_) => BadPieceFails(pieces[1..], seen, i - 1);
      case Unclosed(_) =>
      case Slot(body) =>
        var p := ParseSlot(body);
        if Accepted(p, seen) {
          BadPieceFails(pieces[1..], seen + {p.value.name}, i - 1);
        }
    }
  }

  function PiecesOf(es: seq<Elem>): (r: seq<Piece>)
  {
    if es == [] then [] else [PieceOf(es[0])] + PiecesOf(es[1..])
  }

  lemma {:induction false} PathPieces(es: seq<Elem>, tail: Bytes)
    requires (forall i :: 0 <= i < |es| ==> ProperElem(es[i])) && tail != [] && tail[0] == '{'
    requires forall i :: 0 <= i < |es| - 1 && es[i].Plain? ==> es[i + 1].Var?
    ensures Pieces(PathText(es) + tail) == PiecesOf(es) + Pieces(tail)
  {
    if es == [] {
      assert PathText(es) + tail == tail;
      assert [] + Pieces(tail) == Pieces(tail);
    } else {
      PathPieces(es[1..], tail);
      FollowedByBrace(es, tail);
      PiecesHead(es[0], PathText(es[1..]), tail, PiecesOf(es[1..]));
    }
  }

  lemma PiecesHead(e: Elem, rest: Bytes, tail: Bytes, pieces: seq<Piece>)
    requires ProperElem(e) && (e.Plain? ==> rest + tail != [] && (rest + tail)[0] == '{')
    requires Pieces(rest + tail) == pieces + Pieces(tail)
    ensures Pieces(ElemText(e) + rest + tail) == [PieceOf(e)] + pieces + Pieces(tail)
  {
    ElemFirst(e, rest + tail);
    Assoc(ElemText(e), rest, tail);
    Assoc([PieceOf(e)], pieces, Pieces(tail));
  }

  lemma FollowedByBrace(es: seq<Elem>, tail: Bytes)
    requires es != [] && tail != [] && tail[0] == '{' && forall i :: 0 <= i < |es| ==> ProperElem(es[i])
    requires forall i :: 0 <= i < |es| - 1 && es[i].Plain? ==> es[i + 1].Var?
    ensures es[0].Plain? ==> var s := PathText(es[1..]) + tail; s != [] && s[0] == '{'
  {
    if |es| > 1 && es[0].Plain? {
      assert es[0 + 1].Var? && es[1..][0] == es[1];
    }
  }

  /** A template with a bad placeholder, or with one that is never closed, matches nothing. */
  lemma MalformedIsNil(es: seq<Elem>, body: Bytes, closed: bool, rest: Bytes)
    requires Proper(es) && '}' !in body && (closed ==> BadBody(body)) && (!closed ==> '}' !in rest)
    ensures CompilePath(PathText(es) + (['{'] + body + (if closed then ['}'] else []) + rest)) == None
  {
    var tail := ['{'] + body + (if closed then ['}'] else []) + rest;
    PathPieces(es, tail);
    BadHead(body, closed, rest);
    BadPieceFails(PiecesOf(es) + Pieces(tail), {}, |PiecesOf(es)|);
  }

  lemma BadHead(body: Bytes, closed: bool, rest: Bytes)
    requires '}' !in body && (closed ==> BadBody(body)) && (!closed ==> '}' !in rest)
    ensures var p := Pieces(['{'] + body + (if closed then ['}'] else []) + rest); p != [] && BadPiece(p[0])
  {
    if closed {
      SlotFirst(body, rest);
    } else {
      IndexOfNone(['{'] + body + [] + rest, '}');
    }
  }

  /** A "{?" that is never closed does not hide a "{&" that is. */
  lemma UnclosedFallsThrough(pre: Bytes, names: seq<Bytes>, post: Bytes)
    requires Avoids(pre, '&') && PlainNames(names) && [] !in names
    requires var s := pre + QueryExpr('&', names) + post; FindOp(s, '?') < |s| && '}' !in s[FindOp(s, '?')..]
    ensures SplitQuery(pre + QueryExpr('&', names) + post) == Parts(pre + post, names)
  {
    UnclosedIsNone(pre + QueryExpr('&', names) + post);
    ExprTaken(pre, '&', names, post);
  }

  lemma UnclosedIsNone(s: Bytes)
    requires FindOp(s, '?') < |s| && '}' !in s[FindOp(s, '?')..]
    ensures TakeQuery(s, '?') == None
  {
    IndexOfNone(s[FindOp(s, '?')..], '}');
  }
}
