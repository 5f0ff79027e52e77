/** Every schema within a document, by the path that leads to it, and what the rewrites of
    jsonschema/transform.go and jsonschema/refs.go leave there. */
module SchemaPositions {
  import opened Wrappers
  import opened JsonValue
  import opened SchemaTransforms
  import opened Discriminator

  /** One step to an object below a node: the value of a key, a named entry of its value, or an element. */
  datatype Step = Under(key: string) | Entry(key: string, name: string) | Elem(key: string, i: nat)

  function Go(m: Object, s: Step): (r: Option<Object>) {
    if s.key !in m then None
    else
      match s
      case Under(key) => AsObject(m[key])
      case Entry(key, name) => if m[key].Obj? && name in m[key].fields then AsObject(m[key].fields[name]) else None
      case Elem(key, i) => if m[key].Arr? && i < |m[key].items| then AsObject(m[key].items[i]) else None
  }

  function AsObject(v: Value): (r: Option<Object>) {
    if v.Obj? then Some(v.fields) else None
  }

  function Reach(m: Object, path: seq<Step>): (r: Option<Object>)
  {
    if path == [] then Some(m)
    else
      match Reach(m, path[..|path| - 1])
      case None => None
      case Some(o) => Go(o, path[|path| - 1])
  }

  /** The steps that lead from a schema to a schema, keyword by keyword. */
  predicate SchemaStep(s: Step) {
    match s
    case Under(key) =>
      key in ["not", "if", "then", "else", "additionalItems", "contentSchema", "propertyNames",
              "unevaluatedItems", "unevaluatedProperties", "additionalProperties", "items"]
    case Entry(key, _) =>
      key in ["properties", "patternProperties", "$defs", "definitions", "dependentSchemas", "dependencies"]
    case Elem(key, _) => key in ["allOf", "anyOf", "oneOf", "prefixItems", "items"]
  }

  ghost predicate SchemaPath(path: seq<Step>) {
    forall i :: 0 <= i < |path| ==> SchemaStep(path[i])
  }

  /** The same, read off a keyword table. */
  predicate TableStep(t: Table, s: Step) {
    && s.key in t
    && match s
       case Under(key) => t[key] == Single || t[key] == Items
       case Entry(key, _) => t[key] == Named
       case Elem(key, _) => t[key] == Listed || t[key] == Items
  }

  lemma KeywordsTakeUnder(key: string)
    ensures SchemaStep(Under(key)) <==> TableStep(KEYWORDS, Under(key))
  {
  }

  lemma KeywordsTakeEntry(key: string, name: string)
    ensures SchemaStep(Entry(key, name)) <==> TableStep(KEYWORDS, Entry(key, name))
  {
  }

  lemma KeywordsTakeElem(key: string, i: nat)
    ensures SchemaStep(Elem(key, i)) <==> TableStep(KEYWORDS, Elem(key, i))
  {
  }

  lemma KeywordsTake(s: Step)
    ensures SchemaStep(s) <==> TableStep(KEYWORDS, s)
  {
    match s
    case Under(key) => KeywordsTakeUnder(key);
    case Entry(key, name) => KeywordsTakeEntry(key, name);
    case Elem(key, i) => KeywordsTakeElem(key, i);
  }

  /** Keywords with schemas in their values. */
  predicate Bears(key: string) {
    SchemaStep(Under(key)) || SchemaStep(Entry(key, "")) || SchemaStep(Elem(key, 0))
  }

  lemma KeywordsBear(key: string)
    ensures Bears(key) <==> key in KEYWORDS
  {
    KeywordsTakeUnder(key);
    KeywordsTakeEntry(key, "");
    KeywordsTakeElem(key, 0);
  }

  // ---- pruneTitles ----

  function Untitled(t: Table, m: Object): (r: Object) {
    PruneTitles(t, Obj(m)).fields
  }

  lemma TitlesGo(t: Table, m: Object, s: Step)
    requires TableStep(t, s) && "title" !in t
    ensures Go(Untitled(t, m), s) == match Go(m, s) case None => None case Some(o) => Some(Untitled(t, o))
  {
    TitlesKeepAt(t, m, s.key);
    if s.key in m {
      var v, r := m[s.key], PruneTitlesAt(t, t[s.key], m[s.key]);
      match s
      case Under(_) => assert v.Obj? ==> r == PruneTitles(t, v);
      case Entry(_, name) => assert v.Obj? && name in v.fields ==> r.fields[name] == PruneTitles(t, v.fields[name]);
      case Elem(_, i) => assert v.Arr? && i < |v.items| ==> r.items[i] == PruneTitles(t, v.items[i]);
    }
  }

  lemma {:induction false} TitlesReach(m: Object, path: seq<Step>)
    requires SchemaPath(path)
    ensures Reach(Untitled(KEYWORDS, m), path) == match Reach(m, path) case None => None case Some(o) => Some(Untitled(KEYWORDS, o))
  {
    if path != [] {
      var n := |path| - 1;
      TitlesReach(m, path[..n]);
      KeywordsTake(path[n]);
      TitleIsNoKeyword();
      if Reach(m, path[..n]).Some? {
        TitlesGo(KEYWORDS, Reach(m, path[..n]).value, path[n]);
      }
    }
  }

  lemma TitleIsNoKeyword()
    ensures "title" !in KEYWORDS
  {
  }

  /** At every schema of the document the title is gone, all other keys are there, and what does not
      bear schemas is unchanged; no schema appears or disappears. */
  lemma TitlesAreGone(m: Object, path: seq<Step>)
    requires SchemaPath(path)
    ensures var before, after := Reach(m, path), Reach(PruneTitles(KEYWORDS, Obj(m)).fields, path);
      && (before.Some? <==> after.Some?)
      && (before.Some? ==>
            && after.value.Keys == before.value.Keys - {"title"}
            && forall k :: k in after.value && !Bears(k) ==> after.value[k] == before.value[k])
  {
    TitlesReach(m, path);
    forall k { KeywordsBear(k); }
  }

  // ---- pruneAdditionalProperties ----

  function Loosened(m: Object): (r: Object) {
    PruneAdditional(Obj(m)).fields
  }

  lemma OpenedAt(m: Object, k: string)
    ensures k in Loosened(m) <==> k in m && !(k == "additionalProperties" && m[k] == Bool(false))
    ensures k in Loosened(m) ==> Loosened(m)[k] == PruneAdditionalIn(m[k])
  {
  }

  lemma AdditionalGo(m: Object, s: Step)
    ensures Go(Loosened(m), s) == match Go(m, s) case None => None case Some(o) => Some(Loosened(o))
  {
    OpenedAt(m, s.key);
    if s.key in m {
      var v := m[s.key];
      match s
      case Under(_) => assert v.Obj? ==> PruneAdditionalIn(v) == PruneAdditional(v);
      case Entry(_, name) => if v.Obj? { OpenedAt(v.fields, name); }
      case Elem(_, i) => assert v.Arr? && i < |v.items| ==> PruneAdditionalIn(v).items[i] == PruneAdditional(v.items[i]);
    }
  }

  lemma {:induction false} AdditionalReach(m: Object, path: seq<Step>)
    ensures Reach(Loosened(m), path) == match Reach(m, path) case None => None case Some(o) => Some(Loosened(o))
  {
    if path != [] {
      var n := |path| - 1;
      AdditionalReach(m, path[..n]);
      if Reach(m, path[..n]).Some? {
        AdditionalGo(Reach(m, path[..n]).value, path[n]);
      }
    }
  }

  /** No object that any path leads to is closed any more; its other keys are there, and those that hold
      neither objects nor lists are unchanged. */
  lemma ClosedAreOpened(m: Object, path: seq<Step>)
    ensures var before, after := Reach(m, path), Reach(PruneAdditional(Obj(m)).fields, path);
      && (before.Some? <==> after.Some?)
      && (before.Some? ==>
            && !("additionalProperties" in after.value && after.value["additionalProperties"] == Bool(false))
            && (forall k :: k in after.value <==>
                  k in before.value && !(k == "additionalProperties" && before.value[k] == Bool(false)))
            && (forall k :: k in after.value && !before.value[k].Obj? && !before.value[k].Arr? ==> after.value[k] == before.value[k]))
  {
    AdditionalReach(m, path);
    if Reach(m, path).Some? {
      forall k { OpenedAt(Reach(m, path).value, k); }
    }
  }

  // ---- applyDiscriminator ----

  /** What a node's discriminator asks of the schema a step leads to. */
  function Asks(m: Object, s: Step): (r: Option<string>) {
    if s.Elem? then Demand(m, s.key) else None
  }

  function Walked(t: Table, m: Object, add: Option<string>): (r: Object) {
    Disc(t, Obj(m), add).fields
  }

  lemma DiscGo(t: Table, m: Object, add: Option<string>, s: Step)
    requires TableStep(t, s) && Plain(t) && forall k :: VariantKey(k) ==> k in t && t[k] == Listed
    ensures Go(Walked(t, m, add), s) == match Go(m, s) case None => None case Some(o) => Some(Walked(t, o, Asks(m, s)))
  {
    DiscAtKey(t, m, add, s.key);
    if s.key in m {
      var v, r := m[s.key], DiscAt(t, t[s.key], m[s.key], Demand(m, s.key));
      match s
      case Under(_) => assert v.Obj? ==> r == Disc(t, v, None);
      case Entry(_, name) => assert v.Obj? && name in v.fields ==> r.fields[name] == Disc(t, v.fields[name], None);
      case Elem(_, i) => assert v.Arr? && i < |v.items| ==> r.items[i] == Disc(t, v.items[i], Asks(m, s));
    }
  }

  lemma DiscAtKey(t: Table, m: Object, add: Option<string>, key: string)
    requires Plain(t) && key in t
    ensures var r := Walked(t, m, add);
      (key in r <==> key in m) && (key in m ==> r[key] == DiscAt(t, t[key], m[key], Demand(m, key)))
  {
    DiscWalked(t, m, add);
    AddedElsewhere(WalkedFields(t, m), add, key);
  }

  /** What the parent of a position asks of it. */
  function AskedAt(m: Object, path: seq<Step>): (r: Option<string>) {
    if path == [] then None
    else
      match Reach(m, path[..|path| - 1])
      case None => None
      case Some(parent) => Asks(parent, path[|path| - 1])
  }

  lemma KeywordsSuitDisc()
    ensures Plain(KEYWORDS) && forall k :: VariantKey(k) ==> k in KEYWORDS && KEYWORDS[k] == Listed
  {
  }

  lemma {:induction false} DiscReach(m: Object, path: seq<Step>)
    requires SchemaPath(path)
    ensures Reach(Walked(KEYWORDS, m, None), path) ==
            match Reach(m, path) case None => None case Some(o) => Some(Walked(KEYWORDS, o, AskedAt(m, path)))
  {
    if path != [] {
      var n := |path| - 1;
      DiscReach(m, path[..n]);
      KeywordsTake(path[n]);
      KeywordsSuitDisc();
      if Reach(m, path[..n]).Some? {
        DiscGo(KEYWORDS, Reach(m, path[..n]).value, AskedAt(m, path[..n]), path[n]);
      }
    }
  }

  /** The position is a variant of a node whose discriminator names the property. */
  ghost predicate VariantOf(m: Object, path: seq<Step>, name: string) {
    && path != [] && Reach(m, path[..|path| - 1]).Some?
    && var parent, s := Reach(m, path[..|path| - 1]).value, path[|path| - 1];
       && s.Elem? && (s.key == "anyOf" || s.key == "oneOf" || s.key == "allOf")
       && "discriminator" in parent && parent["discriminator"].Obj?
       && var d := parent["discriminator"].fields;
          "propertyName" in d && d["propertyName"] == Str(name) && name != ""
  }

  lemma AskedIsVariant(m: Object, path: seq<Step>, name: string)
    ensures AskedAt(m, path) == Some(name) <==> VariantOf(m, path, name)
  {
  }

  /** At every schema of the document the discriminator is gone; a variant of a discriminated union
      requires the named property after what it required before, and nothing else is required anew; what
      does not bear schemas is unchanged. */
  lemma DiscriminatorsAreApplied(m: Object, path: seq<Step>)
    requires SchemaPath(path)
    ensures var before, after := Reach(m, path), Reach(Disc(KEYWORDS, Obj(m), None).fields, path);
      && (before.Some? <==> after.Some?)
      && (before.Some? ==>
            var was, now := before.value, after.value;
            && !("discriminator" in now && now["discriminator"].Obj?)
            && (forall k :: k != "required" && !(k == "discriminator" && k in was && was[k].Obj?) ==> (k in now <==> k in was))
            && (forall k :: k in now && k != "required" && !Bears(k) ==> k in was && now[k] == was[k])
            && (forall name :: VariantOf(m, path, name) ==>
                  RequiredOf(now) == RequiredOf(was) + if name in RequiredOf(was) then [] else [name])
            && ((forall name :: !VariantOf(m, path, name)) ==> SameAt(was, now, "required")))
  {
    DiscReach(m, path);
    forall name { AskedIsVariant(m, path, name); }
    if Reach(m, path).Some? {
      KeywordsSuitDisc();
      forall k { KeywordsBear(k); }
      NodeAfter(KEYWORDS, Reach(m, path).value, AskedAt(m, path));
      RequiredAfter(KEYWORDS, Reach(m, path).value, AskedAt(m, path));
    }
  }

  /** What a node becomes, apart from its required list and the keywords with schemas in them. */
  lemma NodeAfter(t: Table, was: Object, add: Option<string>)
    requires Plain(t)
    ensures var now := Walked(t, was, add);
      && !("discriminator" in now && now["discriminator"].Obj?)
      && (forall k :: k != "required" && !(k == "discriminator" && k in was && was[k].Obj?) ==> (k in now <==> k in was))
      && (forall k :: k in now && k != "required" && k !in t ==> k in was && now[k] == was[k])
  {
    forall k | k != "required" { NodeKey(t, was, add, k); }
  }

  lemma NodeKey(t: Table, was: Object, add: Option<string>, k: string)
    requires k != "required"
    ensures var now := Walked(t, was, add);
      (k in now <==> k in DropDisc(was)) && (k in now && k !in t ==> now[k] == was[k])
  {
    DiscWalked(t, was, add);
    AddedElsewhere(WalkedFields(t, was), add, k);
  }

  lemma AddedElsewhere(w: Object, add: Option<string>, k: string)
    requires k != "required"
    ensures SameAt(w, Added(w, add), k)
  {
  }

  lemma RequiredAfter(t: Table, was: Object, add: Option<string>)
    requires Plain(t)
    ensures var now := Walked(t, was, add);
      && (add.Some? ==> RequiredOf(now) == RequiredOf(was) + if add.value in RequiredOf(was) then [] else [add.value])
      && (add.None? ==> SameAt(was, now, "required"))
  {
    if add.Some? {
      AskedToRequire(t, was, add.value);
      assert RequiredOf(was) + [] == RequiredOf(was);
    }
  }
}
