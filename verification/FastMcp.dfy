/** FastMCP resource templates (uritemplate/fastmcp.go): compile, expand, match. */
module FastMcp {
  import opened Wrappers
  import opened Percent
  import opened Sequences
  import opened Scanning
  import opened PathMatching

  // ---- Reading a path ----

  /** Literal runs, "{body}", and a '{' that is never closed. */
  datatype Piece = Text(text: Bytes) | Slot(body: Bytes) | Unclosed(text: Bytes)

  datatype Found = Found(piece: Piece, len: nat)

  /** The piece a path starts with, and how long it is. */
  function Next(path: Bytes): (r: Found)
    requires path != []
    ensures 0 < r.len <= |path|
  {
    if path[0] == '{' then
      var end := IndexOf(path, '}');
      if end == |path| then Found(Unclosed(path), |path|) else Found(Slot(path[1..end]), end + 1)
    else
      var j := IndexOf(path, '{');
      Found(Text(path[..j]), j)
  }

  function Pieces(path: Bytes): (r: seq<Piece>)
    decreases |path|
  {
    if path == [] then [] else [Next(path).piece] + Pieces(path[Next(path).len..])
  }

  method NextPiece(path: Bytes, i: nat) returns (piece: Piece, k: nat)
    requires i < |path|
    ensures i < k <= |path| && Found(piece, k - i) == Next(path[i..])
  {
    var rest := path[i..];
    if path[i] == '{' {
      var end := IndexOf(rest, '}');
      if end == |rest| {
        return Unclosed(rest), |path|;
      }
      assert rest[1..end] == path[i + 1..i + end];
      return Slot(path[i + 1..i + end]), i + end + 1;
    }
    var j := IndexOf(rest, '{');
    assert rest[..j] == path[i..i + j];
    return Text(path[i..i + j]), i + j;
  }

  lemma PiecesStep(path: Bytes, i: nat, piece: Piece, k: nat)
    requires i < k <= |path| && Found(piece, k - i) == Next(path[i..])
    ensures Pieces(path[i..]) == [piece] + Pieces(path[k..])
  {
    DropDrop(path, i, k - i);
    PiecesCons(path[i..], Found(piece, k - i), path[k..]);
  }

  lemma PiecesCons(s: Bytes, f: Found, tail: Bytes)
    requires s != [] && f == Next(s) && tail == s[f.len..]
    ensures Pieces(s) == [f.piece] + Pieces(tail)
  {
  }

  /** Hyphens become underscores; nothing else changes. */
  function Normalize(name: Bytes): (r: Bytes)
    ensures |r| == |name| && '-' !in r
    ensures forall i :: 0 <= i < |name| && r[i] != name[i] ==> name[i] == '-' && r[i] == '_'
  {
    seq(|name|, i requires 0 <= i < |name| => if name[i] == '-' then '_' else name[i])
  }

  predicate ValidGroupName(name: Bytes) {
    && name != [] && !('0' <= name[0] <= '9')
    && forall i :: 0 <= i < |name| ==>
         'a' <= name[i] <= 'z' || 'A' <= name[i] <= 'Z' || name[i] == '_' || '0' <= name[i] <= '9'
  }

  datatype Param = Param(name: Bytes, wildcard: bool)

  /** A name without '*', and at most one '*' after it. */
  function ParseSlot(body: Bytes): (r: Option<Param>)
  {
    var star := body != [] && body[|body| - 1] == '*';
    var raw := if star then body[..|body| - 1] else body;
    if raw == [] || '*' in raw then None else Some(Param(Normalize(raw), star))
  }

  function TokenOf(p: Param): (t: Token) {
    if p.wildcard then Wild(p.name) else Seg(p.name)
  }

  function Prefixed(tokens: seq<Token>, r: Option<seq<Token>>): (q: Option<seq<Token>>) {
    if r.None? then None else Some(tokens + r.value)
  }

  predicate Accepted(p: Option<Param>, seen: set<Bytes>) {
    p.Some? && ValidGroupName(p.value.name) && p.value.name !in seen
  }

  function Compile(pieces: seq<Piece>, seen: set<Bytes>): (r: Option<seq<Token>>)
  {
    if pieces == [] then Some([])
    else
      match pieces[0]
      case Text(text) => Prefixed([Lit(text)], Compile(pieces[1..], seen))
      case Unclosed(_) => None
      case Slot(body) =>
        var p := ParseSlot(body);
        if Accepted(p, seen) then Prefixed([TokenOf(p.value)], Compile(pieces[1..], seen + {p.value.name})) else None
  }

  function CompilePath(path: Bytes): (r: Option<seq<Token>>) {
    Compile(Pieces(path), {})
  }

  lemma PrefixedTwice(a: seq<Token>, b: seq<Token>, r: Option<seq<Token>>)
    ensures Prefixed(a, Prefixed(b, r)) == Prefixed(a + b, r)
  {
    assert r.Some? ==> a + (b + r.value) == a + b + r.value;
  }

  lemma PrefixedNothing(r: Option<seq<Token>>)
    ensures Prefixed([], r) == r
  {
    assert r.Some? ==> [] + r.value == r.value;
  }

  /** The tokens found before i are the start of the result. */
  ghost predicate CompiledUpTo(path: Bytes, i: nat, tokens: seq<Token>, seen: set<Bytes>)
    requires i <= |path|
  {
    match Compile(Pieces(path[i..]), seen)
    case None => CompilePath(path) == None
    case Some(rest) => CompilePath(path) == Some(tokens + rest)
  }

  method CompileLoop(path: Bytes) returns (re: Option<seq<Token>>)
    ensures re == CompilePath(path)
  {
    var tokens, seen, i := [], {}, 0;
    CompileStart(path);
    while i < |path|
      invariant 0 <= i <= |path| && CompiledUpTo(path, i, tokens, seen)
    {
      var piece, k := NextPiece(path, i);
      CompileStep(path, i, piece, k, tokens, seen);
      match piece {
        case Text(text) =>
          tokens := tokens + [Lit(text)];
        case Unclosed(_) => return None;
        case Slot(body) =>
          var p := ParseSlot(body);
          if !Accepted(p, seen) {
            return None;
          }
          tokens := tokens + [TokenOf(p.value)];
          seen := seen + {p.value.name};
      }
      i := k;
    }
    CompileEnd(path, seen, tokens);
    re := Some(tokens);
  }

  lemma CompileStart(path: Bytes)
    ensures CompiledUpTo(path, 0, [], {})
  {
    assert path[0..] == path;
    PrefixedNothing(CompilePath(path));
  }

  lemma CompileEnd(path: Bytes, seen: set<Bytes>, tokens: seq<Token>)
    requires CompiledUpTo(path, |path|, tokens, seen)
    ensures CompilePath(path) == Some(tokens)
  {
    assert path[|path|..] == [] && tokens + [] == tokens;
  }

  lemma CompileStep(path: Bytes, i: nat, piece: Piece, k: nat, tokens: seq<Token>, seen: set<Bytes>)
    requires i < k <= |path| && Found(piece, k - i) == Next(path[i..]) && CompiledUpTo(path, i, tokens, seen)
    ensures match piece
      case Text(text) => CompiledUpTo(path, k, tokens + [Lit(text)], seen)
      case Unclosed(_) => CompilePath(path) == None
      case Slot(body) =>
        var p := ParseSlot(body);
        if Accepted(p, seen) then CompiledUpTo(path, k, tokens + [TokenOf(p.value)], seen + {p.value.name})
        else CompilePath(path) == None
  {
    PiecesStep(path, i, piece, k);
    var tail := Pieces(path[k..]);
    assert ([piece] + tail)[1..] == tail;
    match piece
    case Text(text) => PrefixedTwice(tokens, [Lit(text)], Compile(tail, seen));
    case Unclosed(_) =>
    case Slot(body) =>
      var p := ParseSlot(body);
      if Accepted(p, seen) {
        PrefixedTwice(tokens, [TokenOf(p.value)], Compile(tail, seen + {p.value.name}));
      }
  }

  // ---- Query expressions ----

  /** Where "{op" first stands, or the length. */
  function FindOp(s: Bytes, op: Byte): (r: nat)
    ensures r <= |s| && (r < |s| ==> r + 1 < |s| && s[r] == '{' && s[r + 1] == op)
  {
    if |s| < 2 then |s| else if s[0] == '{' && s[1] == op then 0 else FindOp(s[1..], op) + 1
  }

  function NonBlank(raws: seq<Bytes>): (r: seq<Bytes>)
  {
    if raws == [] then []
    else
      var name := Trim(raws[|raws| - 1]);
      NonBlank(raws[..|raws| - 1]) + if name == [] then [] else [name]
  }

  datatype Parts = Parts(path: Bytes, query: seq<Bytes>)

  /** The closed "{op...}" expression, taken out of the template. */
  function TakeQuery(template: Bytes, op: Byte): (r: Option<Parts>)
    requires op != '}'
  {
    var idx := FindOp(template, op);
    if idx == |template| then None
    else
      var end := IndexOf(template[idx..], '}');
      if end == |template| - idx then None
      else
        assert template[idx..][0] == '{' && template[idx..][1] == op && end >= 2;
        Some(Parts(template[..idx] + template[idx + end + 1..], NonBlank(Split(template[idx + 2..idx + end], ','))))
  }

  function SplitQuery(template: Bytes): (r: Parts) {
    if TakeQuery(template, '?').Some? then TakeQuery(template, '?').value
    else if TakeQuery(template, '&').Some? then TakeQuery(template, '&').value
    else Parts(template, [])
  }

  // ---- Expansion ----

  type Params = map<Bytes, Bytes>

  function ValueOf(params: Params, name: Bytes): (r: Bytes) {
    if name in params then params[name] else []
  }

  function ExpandPiece(piece: Piece, params: Params): (r: Bytes) {
    match piece
    case Text(text) => text
    case Unclosed(text) => text
    case Slot(body) =>
      var p := ParseSlot(body);
      if p.None? then ['{'] + body + ['}'] else Encode(ValueOf(params, p.value.name), p.value.wildcard)
  }

  function ExpandPieces(pieces: seq<Piece>, params: Params): (r: Bytes)
  {
    if pieces == [] then [] else ExpandPiece(pieces[0], params) + ExpandPieces(pieces[1..], params)
  }

  function Pair(raw: Bytes, params: Params): (r: Bytes) {
    raw + ['='] + Encode(ValueOf(params, Normalize(raw)), false)
  }

  /** "name=value" for each query name that has a value. */
  function Pairs(query: seq<Bytes>, params: Params): (r: seq<Bytes>)
  {
    if query == [] then []
    else
      var raw := query[|query| - 1];
      Pairs(query[..|query| - 1], params) + if Normalize(raw) in params then [Pair(raw, params)] else []
  }

  function QueryText(pairs: seq<Bytes>): (r: Bytes) {
    if pairs == [] then [] else ['?'] + Join(pairs, '&')
  }

  function Expand(template: Bytes, params: Params): (r: Bytes)
  {
    var t := SplitQuery(template);
    ExpandPieces(Pieces(t.path), params) + QueryText(Pairs(t.query, params))
  }

  // ---- Matching ----

  function Unescape(s: Bytes): (r: Bytes) {
    var d := Decode(s);
    if d.Some? then d.value else s
  }

  /** Decoded values by name. */
  function PathParams(tokens: seq<Token>, parts: seq<Bytes>): (r: Params)
    requires |tokens| == |parts|
  {
    if tokens == [] then map[]
    else
      var n := |tokens| - 1;
      var before := PathParams(tokens[..n], parts[..n]);
      if Hole(tokens[n]) then before[tokens[n].name := Unescape(parts[n])] else before
  }

  datatype Field = Field(key: Bytes, value: Bytes)

  function FieldOf(pair: Bytes): (r: Field) {
    var eq := IndexOf(pair, '=');
    if eq == |pair| then Field(Unescape(pair), Unescape([])) else Field(Unescape(pair[..eq]), Unescape(pair[eq + 1..]))
  }

  type Query = q: map<Bytes, seq<Bytes>> | forall k :: k in q ==> q[k] != []

  function AddField(q: Query, pair: Bytes): (r: Query) {
    if pair == [] then q
    else
      var f := FieldOf(pair);
      q[f.key := (if f.key in q then q[f.key] else []) + [f.value]]
  }

  function AddFields(pairs: seq<Bytes>): (q: Query)
  {
    if pairs == [] then map[] else AddField(AddFields(pairs[..|pairs| - 1]), pairs[|pairs| - 1])
  }

  function ParseQuery(raw: Bytes): (q: Query) {
    if raw == [] then map[] else AddFields(Split(raw, '&'))
  }

  /** Query parameters never displace what is already there. */
  function AddQuery(out: Params, query: seq<Bytes>, q: Query): (r: Params)
  {
    if query == [] then out
    else
      var raw := query[|query| - 1];
      var before := AddQuery(out, query[..|query| - 1], q);
      if Normalize(raw) !in before && raw in q then before[Normalize(raw) := q[raw][0]] else before
  }

  function UriPath(uri: Bytes): (r: Bytes) {
    uri[..IndexOf(uri, '?')]
  }

  function UriQuery(uri: Bytes): (r: Bytes) {
    var cut := IndexOf(uri, '?');
    if cut == |uri| then [] else uri[cut + 1..]
  }

  function MatchTokens(tokens: seq<Token>, query: seq<Bytes>, uri: Bytes): (r: Option<Params>) {
    var parts := Match(tokens, UriPath(uri));
    if parts.None? then None else Some(AddQuery(PathParams(tokens, parts.value), query, ParseQuery(UriQuery(uri))))
  }

  function MatchUri(uri: Bytes, template: Bytes): (r: Option<Params>)
  {
    var t := SplitQuery(template);
    var tokens := CompilePath(t.path);
    if tokens.None? then None
    else
      MatchTokens(tokens.value, t.query, uri)
  }

  // ---- The loops of the source ----

  method SplitQueryExpr(template: Bytes) returns (path: Bytes, query: seq<Bytes>)
    ensures Parts(path, query) == SplitQuery(template)
  {
    var first := true;
    while true
      invariant !first ==> TakeQuery(template, '?').None?
      decreases if first then 1 else 0
    {
      var found := TakeOp(template, if first then '?' else '&');
      if found.Some? {
        return found.value.path, found.value.query;
      }
      if !first {
        return template, [];
      }
      first := false;
    }
  }

  method TakeOp(template: Bytes, op: Byte) returns (r: Option<Parts>)
    requires op != '}'
    ensures r == TakeQuery(template, op)
  {
    var idx := FindOp(template, op);
    if idx == |template| {
      return None;
    }
    var end := IndexOf(template[idx..], '}');
    if end == |template| - idx {
      return None;
    }
    assert template[idx..][0] == '{' && template[idx..][1] == op && end >= 2;
    var query := NamesIn(template[idx + 2..idx + end]);
    return Some(Parts(template[..idx] + template[idx + end + 1..], query));
  }

  method NamesIn(body: Bytes) returns (query: seq<Bytes>)
    ensures query == NonBlank(Split(body, ','))
  {
    var raws := Split(body, ',');
    query := [];
    var i := 0;
    while i < |raws|
      invariant 0 <= i <= |raws| && query == NonBlank(raws[..i])
    {
      assert raws[..i + 1][..i] == raws[..i];
      var name := Trim(raws[i]);
      if name != [] {
        query := query + [name];
      }
      i := i + 1;
    }
    assert raws[..i] == raws;
  }

  method BuildRegex(template: Bytes) returns (re: Option<seq<Token>>)
    ensures re == CompilePath(SplitQuery(template).path)
  {
    var path, _ := SplitQueryExpr(template);
    re := CompileLoop(path);
  }

  ghost predicate ExpandedUpTo(path: Bytes, i: nat, params: Params, b: Bytes)
    requires i <= |path|
  {
    ExpandPieces(Pieces(path), params) == b + ExpandPieces(Pieces(path[i..]), params)
  }

  lemma ExpandStart(path: Bytes, params: Params)
    ensures ExpandedUpTo(path, 0, params, [])
  {
    assert path[0..] == path;
  }

  lemma ExpandCons(piece: Piece, tail: seq<Piece>, params: Params)
    ensures ExpandPieces([piece] + tail, params) == ExpandPiece(piece, params) + ExpandPieces(tail, params)
  {
    assert ([piece] + tail)[1..] == tail;
  }

  lemma ExpandStep(path: Bytes, i: nat, piece: Piece, k: nat, params: Params, b: Bytes)
    requires i < k <= |path| && Found(piece, k - i) == Next(path[i..]) && ExpandedUpTo(path, i, params, b)
    ensures ExpandedUpTo(path, k, params, b + ExpandPiece(piece, params))
  {
    var tail := Pieces(path[k..]);
    var whole, x, y := ExpandPieces(Pieces(path), params), ExpandPiece(piece, params), ExpandPieces(tail, params);
    PiecesStep(path, i, piece, k);
    ExpandCons(piece, tail, params);
    Glue(whole, b, ExpandPieces(Pieces(path[i..]), params), x, y);
  }

  lemma ExpandEnd(path: Bytes, params: Params, b: Bytes)
    requires ExpandedUpTo(path, |path|, params, b)
    ensures b == ExpandPieces(Pieces(path), params)
  {
    assert path[|path|..] == [] && b + [] == b;
  }

  method ExpandPath(path: Bytes, params: Params) returns (b: Bytes)
    ensures b == ExpandPieces(Pieces(path), params)
  {
    b := [];
    var i := 0;
    ExpandStart(path, params);
    while i < |path|
      invariant 0 <= i <= |path| && ExpandedUpTo(path, i, params, b)
    {
      var piece, k := NextPiece(path, i);
      ExpandStep(path, i, piece, k, params, b);
      match piece {
        case Slot(body) =>
          var text := ExpandBody(body, params);
          b := b + text;
        case _ => b := b + piece.text;
      }
      i := k;
    }
    ExpandEnd(path, params, b);
  }

  method ExpandBody(body: Bytes, params: Params) returns (text: Bytes)
    ensures text == ExpandPiece(Slot(body), params)
  {
    var p := ParseSlot(body);
    if p.None? {
      text := ['{'] + body + ['}'];
    } else {
      text := FmEncode(ValueOf(params, p.value.name), p.value.wildcard);
    }
  }

  method ExpandURITemplate(template: Bytes, params: Params) returns (b: Bytes)
    ensures b == Expand(template, params)
  {
    var path, query := SplitQueryExpr(template);
    var text := ExpandPath(path, params);
    b := AppendQuery(text, query, params);
  }

  method AppendQuery(text: Bytes, query: seq<Bytes>, params: Params) returns (b: Bytes)
    ensures b == text + QueryText(Pairs(query, params))
  {
    b := text;
    var first, i := true, 0;
    AppendStart(text, query, params);
    while i < |query|
      invariant 0 <= i <= |query| && AppendedUpTo(text, query, i, params, b, first)
    {
      AppendStep(text, query, i, params, b, first);
      if Normalize(query[i]) in params {
        var e := FmEncode(params[Normalize(query[i])], false);
        b := b + [if first then '?' else '&'] + (query[i] + ['='] + e);
        first := false;
      }
      i := i + 1;
    }
    AppendEnd(text, query, params, b, first);
  }

  ghost predicate AppendedUpTo(text: Bytes, query: seq<Bytes>, i: nat, params: Params, b: Bytes, first: bool)
    requires i <= |query|
  {
    match Pairs(query[..i], params)
    case pairs => first == (pairs == []) && b == text + QueryText(pairs)
  }

  lemma AppendStart(text: Bytes, query: seq<Bytes>, params: Params)
    ensures AppendedUpTo(text, query, 0, params, text, true)
  {
    assert text + [] == text;
  }

  lemma AppendStep(text: Bytes, query: seq<Bytes>, i: nat, params: Params, b: Bytes, first: bool)
    requires i < |query| && AppendedUpTo(text, query, i, params, b, first)
    ensures if Normalize(query[i]) in params then
              AppendedUpTo(text, query, i + 1, params, b + [if first then '?' else '&'] + Pair(query[i], params), false)
            else AppendedUpTo(text, query, i + 1, params, b, first)
  {
    PairsSnoc(text, query, i, params);
  }

  lemma AppendEnd(text: Bytes, query: seq<Bytes>, params: Params, b: Bytes, first: bool)
    requires AppendedUpTo(text, query, |query|, params, b, first)
    ensures b == text + QueryText(Pairs(query, params))
  {
    assert query[..|query|] == query;
  }

  lemma PairsSnoc(text: Bytes, query: seq<Bytes>, i: nat, params: Params)
    requires i < |query|
    ensures var pairs, more, pair := Pairs(query[..i], params), Pairs(query[..i + 1], params), Pair(query[i], params);
      if Normalize(query[i]) in params then
        more != [] && text + QueryText(more) == text + QueryText(pairs) + [if pairs == [] then '?' else '&'] + pair
      else more == pairs
  {
    assert query[..i + 1][..i] == query[..i];
    if Normalize(query[i]) in params {
      QuerySnoc(text, Pairs(query[..i], params), Pair(query[i], params));
    }
  }

  lemma QuerySnoc(text: Bytes, pairs: seq<Bytes>, pair: Bytes)
    ensures text + QueryText(pairs + [pair]) == text + QueryText(pairs) + [if pairs == [] then '?' else '&'] + pair
  {
    if pairs != [] {
      JoinSnoc(pairs, pair, '&');
    }
  }

  lemma {:induction false} JoinSnoc(parts: seq<Bytes>, part: Bytes, c: Byte)
    requires parts != []
    ensures Join(parts + [part], c) == Join(parts, c) + [c] + part
  {
    if |parts| == 1 {
      assert (parts + [part])[1..] == [part];
    } else {
      JoinSnoc(parts[1..], part, c);
      assert (parts + [part])[1..] == parts[1..] + [part];
      var a, b := parts[0], Join(parts[1..], c);
      assert a + [c] + (b + [c] + part) == a + [c] + b + [c] + part;
    }
  }

  method ParseQueryKeepBlank(raw: Bytes) returns (out: Query)
    ensures out == ParseQuery(raw)
  {
    out := map[];
    if raw == [] {
      return;
    }
    var pairs := Split(raw, '&');
    var i := 0;
    while i < |pairs|
      invariant 0 <= i <= |pairs| && out == AddFields(pairs[..i])
    {
      AddFieldsSnoc(pairs, i);
      out := PutField(out, pairs[i]);
      i := i + 1;
    }
    assert pairs[..i] == pairs;
  }

  method PutField(q: Query, pair: Bytes) returns (out: Query)
    ensures out == AddField(q, pair)
  {
    out := q;
    if pair != [] {
      var key, val := pair, [];
      var eq := IndexOf(pair, '=');
      if eq < |pair| {
        key, val := pair[..eq], pair[eq + 1..];
      }
      key := Unescape(key);
      val := Unescape(val);
      out := out[key := (if key in out then out[key] else []) + [val]];
    }
  }

  lemma AddFieldsSnoc(pairs: seq<Bytes>, i: nat)
    requires i < |pairs|
    ensures AddFields(pairs[..i + 1]) == AddField(AddFields(pairs[..i]), pairs[i])
  {
    assert pairs[..i + 1][..i] == pairs[..i];
  }

  /** None is the source's nil: no match, or a malformed template. */
  method MatchURITemplate(uri: Bytes, template: Bytes) returns (r: Option<Params>)
    ensures r == MatchUri(uri, template)
  {
    var re := BuildRegex(template);
    if re.None? {
      return None;
    }
    var _, query := SplitQueryExpr(template);
    r := Extract(re.value, query, uri);
  }

  method Extract(re: seq<Token>, query: seq<Bytes>, uri: Bytes) returns (r: Option<Params>)
    ensures r == MatchTokens(re, query, uri)
  {
    var cut := IndexOf(uri, '?');
    var m := Match(re, uri[..cut]);
    if m.None? {
      return None;
    }
    var out := Captures(re, m.value);
    var q := ParseQueryKeepBlank(if cut == |uri| then [] else uri[cut + 1..]);
    out := TakeQueryParams(out, query, q);
    return Some(out);
  }

  method TakeQueryParams(out: Params, query: seq<Bytes>, q: Query) returns (found: Params)
    ensures found == AddQuery(out, query, q)
  {
    found := out;
    var i := 0;
    while i < |query|
      invariant 0 <= i <= |query| && found == AddQuery(out, query[..i], q)
    {
      AddQuerySnoc(out, query, i, q);
      var name := Normalize(query[i]);
      if name !in found && query[i] in q {
        found := found[name := q[query[i]][0]];
      }
      i := i + 1;
    }
    assert query[..i] == query;
  }

  lemma AddQuerySnoc(out: Params, query: seq<Bytes>, i: nat, q: Query)
    requires i < |query|
    ensures var before := AddQuery(out, query[..i], q);
      AddQuery(out, query[..i + 1], q) ==
      if Normalize(query[i]) !in before && query[i] in q then before[Normalize(query[i]) := q[query[i]][0]] else before
  {
    assert query[..i + 1][..i] == query[..i];
  }

  method Captures(tokens: seq<Token>, parts: seq<Bytes>) returns (out: Params)
    requires |tokens| == |parts|
    ensures out == PathParams(tokens, parts)
  {
    out := map[];
    var i := 0;
    while i < |tokens|
      invariant 0 <= i <= |tokens| && out == PathParams(tokens[..i], parts[..i])
    {
      assert tokens[..i + 1][..i] == tokens[..i] && parts[..i + 1][..i] == parts[..i];
      if Hole(tokens[i]) {
        out := out[tokens[i].name := Unescape(parts[i])];
      }
      i := i + 1;
    }
    assert tokens[..i] == tokens && parts[..i] == parts;
  }
}
