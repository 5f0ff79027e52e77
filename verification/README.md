# A verified model of the FastMCP Go server, client and utilities

This project models the parts of the repository whose correctness is hard to see from one function at a
time, and proves what they promise for every input, every run or every reachable state. `dafny verify
dfyconfig.toml` checks all of it.

**The session protocol.** `ClientTransport` and `ServerSession` are step systems: one action per atomic
section of the goroutines in `client/transport.go`, `client/client.go`, `session.go`, `stdio.go` and
`dispatch.go`. Each half is proved safe against a peer that may send anything. `SessionSystem` joins them by
two first-in first-out wires; `ClientRequests` and `ServerRequests` follow an id through the joined system.
`CallHistories`, `RequestHistories` and `Wires` tell what a call returns and what is written from the steps
that were taken, apart from the states; `SessionOutcomes` puts the two views together.
`ReplyDiscipline` settles when the server's read loop can block. `StdioTransport` and `SessionObject` are the
objects of the source, whose methods change fields; a ghost trace ties every history of such an object to a
run of the step system. Their read loops take a schedule, an arbitrary list of steps of the other goroutines
between any two steps of their own, of which those that can happen do.

**The schema compiler.** `DefRefs`, `DefCycles`, `InlineDefs` and `PruneDefs` hold the reference graph, the
cycle search, inlining against plain unfolding, and the reachability fixpoint. `Validation` is the validator
against a declarative relation, and `KeywordMeanings` says keyword by keyword what that relation is;
`SchemaTransforms` and `Discriminator` say what the rewrites compute and do to the accepted values,
`SchemaPositions`, `RemoteRefs` and `CompressedSchemas` what they leave at every place of a document. `DocumentTree`, `Dereference`, `DiscriminatorWalk`, `DereferenceRefs` and
`CompressSchema` are the same operations on a heap of mutable cells, as Go maps and slices are. An input may
store one cell in several places, as the schema builder does (`DocumentTree.SharedProperty`): it need only be
`Readable`. The copy that the rewrites work on is `Valid`, a tree.

**URIs.** `Percent` is percent-encoding on bytes; `PathMatching`, `FastMcp` and `TemplateRoundTrip` are the
FastMCP dialect with regular expressions as token lists and a greedy backtracking matcher; `TemplateSyntax`
holds templates as they are written, and states the round trip for those; `EscapeMarks` says which escapes no
encoder writes, and `TemplateExamples` holds templates on either side of the round trip's condition. `Rfc6570` is the RFC 6570 parser and its inverse. `MountedTemplates` is the rewriting of mounted
templates and `MountedReads` the question which templates survive it.

**Executors and middleware.** `Bulk` is the parallel fan-out as a step system beside the sequential loop;
`RateLimit` the token bucket over real numbers; `Middleware` the chain of handlers, with panics.

`Wrappers`, `Counting`, `Sequences`, `Scanning`, `Messages` and `JsonValue` are shared vocabulary.

Where a promise is false of the code, the code is kept as it is and the exact condition is proved:

- `deliver` (`session.go:146-153`) leaves its pending entry in place. A second answer to one id can find the
  channel full after the request has left its select, and then the server's read loop is blocked for good: no
  step of any goroutine frees it (`ReplyDiscipline.DeadForever`). The loop stays free on every schedule exactly
  when no id is answered twice (`ReplyDiscipline.ReadLoopStaysFreeIff`); the repository's own client satisfies
  that (`ServerRequests.DeliverNeverBlocks`).
- `pruneUnusedDefs` (`jsonschema/transform.go:239-245`) never counts the root's own `$ref`. It keeps the
  reachable definitions, and the meaning of the document, exactly when that reference is absent, not
  inlinable, or reached some other way (`PruneDefs.KeptIsReachableIff`, `PruneDefs.PruningKeepsMeaningIff`).
  The root `{"$ref": "#/$defs/A", "$defs": {"A": {}}}` loses its definition (`PruneDefs.RefRootLosesA`).
- `pruneAdditionalProperties` can make a schema with `oneOf` stricter (`SchemaTransforms.OneOfCanTighten`). It
  only loosens a schema whose `oneOf` lists it leaves as they are (`SchemaTransforms.PruneAdditionalLoosens`).
- `ExpandURITemplate` followed by `MatchURITemplate` gives the parameters back for every choice of values
  exactly when no literal holds a `?` and the placeholders are kept apart, by bytes or by escapes that no value
  holds (`TemplateSyntax.WrittenRoundTripIff`). `{a}{b}` and `a?b` lose parameters, `{a}%41{b}` does not
  (`TemplateExamples.AdjacentLoses`, `TemplateExamples.QuestionLoses`, `TemplateExamples.EscapeSeparates`).
- `CallToolsBulk` documents an error that is nil when all calls succeed. When the caller's context may be
  cancelled, every slot can be marked skipped under a nil error (`Bulk.ErrorTellsIff`). A run ends that way
  exactly when it recorded no failure and began fewer calls than were given (`Bulk.ErrorHidesIff`).
- Reading through a mounted template gives every request back exactly when no placeholder stands directly
  before a literal `//`: before the template's own `://` in path style, anywhere when it has none
  (`MountedReads.MountedReadIff`). `{a}//x` under `p` turns the request `p/s://x` into `s://p/x`
  (`MountedReads.ExposedExample`).
- The bucket's bounds need a refill rate that is not negative, which the constructor does not ask for
  (`RateLimit.BoundedIff`).

## Model

| member | source | states |
|---|---|---|
| Messages.TextInjective | session.go:83-91 | Distinct ids of either side have distinct texts, so maps keyed by raw JSON are maps keyed by id |
| ClientTransport.StepKeepsInv | client/transport.go:91-176 | Every atomic step keeps: a channel is pending, at the reader, sent to or closed, in one way at most |
| ClientTransport.ReachableInv | client/transport.go:91-176 | The invariant holds after every sequence of steps, whatever the peer sends |
| ClientTransport.ChannelsAreSafe | client/transport.go:103-176 | On every run: no send on a closed or full channel, no double close, one send or one close per channel, an answer carries its call's id |
| ClientTransport.ReaderCanMove | client/transport.go:91-139 | On every run the read loop can take any message or send what it holds, and a serving goroutine can reply |
| CallHistories.CallReturns | client/transport.go:152-176 | On every run a call returns the first response read for it exactly when its channel won the select, Cancelled exactly when its context did, a write error exactly when the write failed, and a closed connection only after a shutdown |
| CallHistories.WaitingCallReturns | client/transport.go:141-176 | After shutdown has drained and the reader holds nothing, every waiting call can return: the response read for it, or else a closed connection |
| CallHistories.CallsAreBegun | client/client.go:164-189 | Calls carry the bodies they were begun with, in order; the transport is done exactly when it was shut down |
| StdioTransport.Transport.Send | client/transport.go:105-113 | The send needs no precondition on the channel: every history leaves it open and empty |
| StdioTransport.Transport.CloseAll | client/transport.go:144-149 | The loop over pending closes each pending channel once, in any order, and empties the map |
| StdioTransport.Transport.Drain | client/transport.go:144-149 | The locked part of shutdown is the Drain step, and is always possible |
| StdioTransport.Transport.Shutdown | client/transport.go:142-150 | Marks done and leaves nothing pending |
| StdioTransport.Transport.ReadLoop | client/transport.go:91-126 | Routes any input without blocking, whatever the other goroutines do between its steps; at its end nothing is pending and every waiting call can return |
| ServerSession.StepKeepsInv | session.go:79-185 | Every atomic step keeps the session invariant, whatever the client sends |
| ServerSession.StepKeepsTasks | session.go:176-184 | wg counts the unfinished tasks; a request writes once, a notification never |
| ServerSession.ReachableInv | session.go:79-185 | The invariant holds after every sequence of steps |
| ServerSession.TasksAreCalls | session.go:159-185 | On every run the tasks are, in order, the requests and notifications read: none dropped, none invented |
| ServerSession.TasksTold | dispatch.go:14-24 | A task holds the reply that its own response step wrote, and lacks one only when that write failed |
| ServerSession.TaskCanMove | session.go:176-184 | On every run a dispatch goroutine can take its next step, whatever its handler returns |
| ServerSession.ReaderCanMove | stdio.go:29-55 | ServeStdio can always go on, apart from a send on a full channel and tasks it waits for |
| RequestHistories.RequestReturns | session.go:79-120 | On every run a request settles on the first response read for it exactly when its channel won the select, on a cancellation or a write error exactly when that happened |
| ServerSession.ServeDrains | stdio.go:29-55 | Past the wait every request read had exactly one response written or attempted, every notification read none; the session stays registered until then |
| ReplyDiscipline.HandedAtMostAnswered | session.go:146-153 | No channel is handed more answers than were read for its id |
| ReplyDiscipline.NeverStuck | session.go:146-153 | The read loop is never blocked on a run that reads at most one answer per id |
| ReplyDiscipline.GetsStuckForGood | session.go:107-153 | Any message sequence with a repeated answer has a schedule that ends with the read loop before a full channel whose request has left |
| ReplyDiscipline.DeadForever | session.go:111-153 | From there no continuation of any goroutines reads another message or ends the loop |
| ReplyDiscipline.ReadLoopStaysFreeIff | session.go:146-153 | Over all runs that read the messages or part of them, the read loop is never blocked for good, and never blocked at all, if and only if no id is answered twice |
| SessionObject.Session.Deliver | session.go:146-153 | The send is possible because no id was answered twice |
| SessionObject.Session.Handle | session.go:159-185 | One inbound message, handled without blocking whatever other goroutines do before the send |
| SessionObject.Session.Dispatch | dispatch.go:14-24 | A request gets one response under its id with the result given, or none when the write fails; a notification none; other tasks are untouched |
| SessionObject.Session.Done | session.go:177-184 | wg goes down by one and the task is finished |
| SessionObject.Session.Scan | stdio.go:35-53 | The scanner loop hands every message to handle, in order, on any schedule of requests and tasks |
| SessionObject.Session.FinishAll | session.go:177-184 | Every task, however far it had got, is run to its end, and replies with what dispatch gives for its own request |
| SessionObject.Session.WaitAndDeregister | stdio.go:32-33 | The wait returns only with no task left, and deregistration follows it |
| SessionObject.Session.ServeStdio | stdio.go:29-55 | On any schedule: every request of the input answered exactly once, with what dispatch gives for it unless the write failed, and every notification never, in one task each, before the session is deregistered |
| ClientRequests.StepKeepsFlow | client/transport.go:91-176 | Every step of the joined system conserves each client id: requests written are on the wire or taken, replies written are on the wire or handed over |
| ClientRequests.OnePlace | client/transport.go:91-176 | In every reachable state a client id is in at most one of: wire up, running handler, wire down, read loop, channel |
| ClientRequests.NothingIsLost | client/transport.go:152-176 | While a call waits on an open channel its request or response is in exactly one place, unless writing the response failed |
| ServerRequests.StepKeepsFlow | session.go:79-185 | Every step of the joined system conserves each server id |
| ServerRequests.OnePlace | session.go:79-153 | In every reachable state a server id is in at most one place |
| ServerRequests.NothingIsLost | session.go:107-119 | While a server request waits, it or its reply is in exactly one place, unless writing the reply failed |
| ServerRequests.DeliverNeverBlocks | session.go:146-153 | Against the repository's client the server's read loop never blocks in deliver |
| SessionOutcomes.CallReturnsItsAnswer | client/client.go:168-189 | A call that received on a transport not shut down returns the reply of the one task started for its own request; any other outcome has its cause in the run |
| SessionOutcomes.RequestReturnsItsReply | client/transport.go:128-139 | A server request that received returns the reply given to it; any other outcome has its cause; late replies reach no other request |
| Wires.ServingAreRequests | client/transport.go:114-139 | Every request the client reads is served by one goroutine, in order |
| Wires.WiresAreFifo | session.go:99-109 | In every reachable state what one side read and what is on the wire is all the other side wrote, in order: calls, notifications and replies |
| DefRefs.DefName | jsonschema/transform.go:293-299 | Succeeds exactly on the local prefix and gives back what follows it |
| DefRefs.CollectDefRefs | jsonschema/transform.go:274-290 | Adds exactly the names referred to anywhere within the value |
| DefRefs.ClosureIsClosed | jsonschema/transform.go:246-261 | The reachable names hold the seeds and are closed under references |
| DefRefs.ClosureIsLeast | jsonschema/transform.go:246-261 | Every closed set with the seeds holds the reachable names |
| DefCycles.DefReaches | jsonschema/refs.go:141-162 | The search with one shared visited set finds the start exactly when it is reachable past what was visited |
| DefCycles.HasCircularDefRef | jsonschema/refs.go:131-139 | True exactly when some definition reaches itself by a non-empty chain of references |
| InlineDefs.InlineIsUnfold | jsonschema/refs.go:169-212 | On acyclic definitions the active guard never fires: inlining is plain recursive unfolding with siblings laid over the definition |
| InlineDefs.UnfoldLeavesNoRef | jsonschema/refs.go:112-126 | No reference to an object definition is left |
| InlineDefs.ClosureDrops | jsonschema/refs.go:169-186 | Following a reference of an acyclic graph leaves its name behind, so unfolding terminates |
| PruneDefs.CollectSeeds | jsonschema/transform.go:238-245 | The seeds are the references inside the root's values, without the root's own |
| PruneDefs.Visit | jsonschema/transform.go:250-256 | Adds the references of one definition and reports growth by length |
| PruneDefs.Pass | jsonschema/transform.go:249-257 | One pass over the growing map, in any order, adds nothing only when the set is closed |
| PruneDefs.Saturate | jsonschema/transform.go:246-261 | The loop ends with a closed set between the seeds and any closed superset |
| PruneDefs.ReachableDefs | jsonschema/transform.go:238-261 | The result is the least set of names reachable from the seeds |
| PruneDefs.DefsOfPruned | jsonschema/transform.go:262-269 | Only definitions change, and an empty section is removed |
| PruneDefs.KeptIsReachableIff | jsonschema/transform.go:230-270 | Exactly the reachable definitions are kept if and only if the root's own reference is covered |
| PruneDefs.PruningKeepsMeaningIff | jsonschema/transform.go:230-270 | The unfolding is unchanged at every depth if and only if the root's own reference is covered |
| PruneDefs.RefRootLosesA | jsonschema/transform.go:238-269 | A root whose only reference is its own loses the definition, and its unfolding changes |
| PruneDefs.PruningIsFinal | jsonschema/transform.go:227-270 | Every definition left is reachable within the result, and pruning again changes nothing |
| PruneDefs.UnfoldToSettles | jsonschema/refs.go:169-212 | On acyclic definitions bounded unfoldings settle on the plain one once the depth is the number of reachable names |
| KeywordMeanings.Validate | jsonschema/validate.go:60-142 | Accepts exactly the values that every keyword allows, each keyword spelled out on its own value |
| KeywordMeanings.SatIsKeywords | jsonschema/validate.go:60-310 | The validator's relation is the conjunction of those keyword meanings, and no other key matters |
| Validation.ValidateAllOf | jsonschema/validate.go:65-71 | Accepts exactly when every schema of the list does |
| Validation.ValidateAnyOf | jsonschema/validate.go:72-84 | Accepts exactly when some schema of the list does |
| Validation.ValidateOneOf | jsonschema/validate.go:85-96 | The counter is one exactly when one schema accepts |
| Validation.ValidateTypeAny | jsonschema/validate.go:147-193 | A name or a list of names; unknown names accept all |
| Validation.ValidateObject | jsonschema/validate.go:195-222 | Required, declared and undeclared properties |
| Validation.ValidateArray | jsonschema/validate.go:224-252 | Bounds, uniqueness and items |
| SchemaTransforms.PruneTitlesKeepsVerdict | jsonschema/transform.go:149-204 | Stripping titles changes the verdict on no value |
| SchemaTransforms.PruningKeepsVerdict | jsonschema/transform.go:230-270 | Pruning definitions changes the verdict on no value |
| SchemaTransforms.CompressKeepsVerdict | jsonschema/transform.go:109-125 | Titles and definitions together change the verdict on no value |
| SchemaTransforms.PruneAdditionalLoosens | jsonschema/transform.go:209-225 | The removal only enlarges what is accepted, by schemas whose oneOf lists and literal values it leaves alone |
| SchemaTransforms.OneOfCanTighten | jsonschema/transform.go:209-225 | A schema with oneOf that rejects after the removal what it accepted before |
| SchemaPositions.TitlesAreGone | jsonschema/transform.go:127-204 | At every schema that keyword steps lead to the title is gone, every other key is there, and what bears no schema is unchanged |
| SchemaPositions.ClosedAreOpened | jsonschema/transform.go:206-225 | No object that any path leads to is closed; its other keys are there and its plain values unchanged |
| SchemaPositions.DiscriminatorsAreApplied | jsonschema/refs.go:214-294 | At every schema the discriminator is gone, exactly the variants of a discriminated union require the named property after what they required, and the rest is unchanged |
| DocumentTree.CloneValue | jsonschema/transform.go:14-31 | Whatever the input shares, the copy spells the same document, is a tree, and shares no cell with anything |
| DocumentTree.CloneMap | jsonschema/transform.go:34-40 | The same for a map |
| DocumentTree.CloneList | jsonschema/transform.go:22-27 | The same for a list |
| DocumentTree.SharedProperty | jsonschema/build.go:142-150 | One map stored under two names makes a document that can be read but is no tree |
| DocumentTree.ValidIsReadable | jsonschema/transform.go:14-31 | Every tree is such a document, so operations on inputs also take the copies |
| DocumentTree.StripRemote | jsonschema/refs.go:35-53 | The same cells spell the document without remote references |
| DocumentTree.StripMap | jsonschema/refs.go:37-44 | A remote reference goes, its siblings stay, entries are walked in any order |
| DocumentTree.StripList | jsonschema/refs.go:45-49 | Elements in place |
| DocumentTree.MapTreeSet | jsonschema/refs.go:200-203 | Rewriting one entry's tree leaves every other entry's tree as it was |
| DocumentTree.ListTreeSet | jsonschema/refs.go:204-208 | Rewriting one element's tree leaves every other element's tree as it was |
| RemoteRefs.StripIsLocal | jsonschema/refs.go:10-53 | No node anywhere keeps a reference that is non-empty and does not start with # |
| RemoteRefs.StripKeepsLocal | jsonschema/refs.go:24-53 | A document that only refers to itself is unchanged |
| RemoteRefs.StripKeepsSiblings | jsonschema/refs.go:35-44 | A node loses its remote reference and no other key |
| RemoteRefs.StripKeepsRefs | jsonschema/refs.go:24-53 | The local definition references within a document stay the same |
| Dereference.InlineItem | jsonschema/refs.go:169-212 | The heap walk spells the guarded inlining, uses only old cells of the walked tree and fresh ones, and restores active |
| Dereference.InlineMap | jsonschema/refs.go:171-203 | The three branches of a map node |
| Dereference.InlineByDef | jsonschema/refs.go:173-186 | A fresh copy of the definition with the inlined siblings over it |
| Dereference.InlineKeepRef | jsonschema/refs.go:188-198 | An unresolvable or active reference is kept, its siblings inlined |
| Dereference.Resolve | jsonschema/refs.go:175-177 | The definition itself is not written: a fresh copy is |
| Dereference.Overlay | jsonschema/refs.go:178-185 | Siblings win over the definition |
| Dereference.InlineList | jsonschema/refs.go:204-208 | Elements in place |
| Discriminator.OnlyRequiredChanges | jsonschema/refs.go:221-294 | Nothing but required lists and discriminators changes anywhere |
| Discriminator.DiscsAreGone | jsonschema/refs.go:221-240 | No schema carries a discriminator object afterwards |
| Discriminator.VariantsRequire | jsonschema/refs.go:227-238 | Each variant requires what it did before, then the discriminator's property once |
| DiscriminatorWalk.AddRequiredTo | jsonschema/refs.go:286-294 | Appends the name once, in a fresh list |
| DiscriminatorWalk.TellNode | jsonschema/refs.go:222-239 | Every variant of one node is told, then the discriminator is deleted |
| DiscriminatorWalk.WalkNode | jsonschema/refs.go:242-282 | The in-place walk spells Disc, with fresh cells only for new lists |
| DiscriminatorWalk.WalkAt | jsonschema/refs.go:247-281 | How each kind of keyword is entered |
| DereferenceRefs.StripRemoteRefs | jsonschema/refs.go:31-33 | A fresh stripped copy, whatever the input shares |
| DereferenceRefs.TakeDefs | jsonschema/refs.go:114-122 | The definitions are taken out and kept apart from the tree that is walked |
| DereferenceRefs.FindTarget | jsonschema/refs.go:66-85 | Finds the root's definition exactly when there is something to resolve |
| DereferenceRefs.ResolveRootRef | jsonschema/refs.go:66-92 | The same document by identity, or a fresh one where the definition wins over its siblings, whatever the input shares |
| DereferenceRefs.RootResolves | jsonschema/refs.go:55-92 | A root without a type that refers to a definition takes its keywords over its own, loses the reference and keeps the rest |
| DereferenceRefs.RootStays | jsonschema/refs.go:60-85 | Any other root is unchanged |
| DereferenceRefs.DereferenceRefs | jsonschema/refs.go:112-126 | Writes nothing that existed before; from an input with any sharing, a fresh tree that spells the specified document, circular or not |
| DereferenceRefs.DereferencedIsUnfolded | jsonschema/refs.go:94-126 | Without a cycle it is the plain unfolding with discriminators applied, and no reference to an object definition is left |
| DereferenceRefs.UnfoldedNode | jsonschema/refs.go:94-99 | Siblings of a reference win over the definition's keywords, key by key |
| DereferenceRefs.CircularKeepsDefs | jsonschema/refs.go:101-118 | With a cycle the definitions and references stay, and only a root reference is resolved |
| RemoteRefs.DereferencedIsLocal | jsonschema/refs.go:112-126 | Whatever comes in, circular or not, the result refers to nothing outside itself |
| CompressSchema.TitlesNode | jsonschema/transform.go:149-204 | Titles go, in place, through schema-bearing keywords only |
| CompressSchema.AdditionalNode | jsonschema/transform.go:209-225 | The closed marker goes, in place, everywhere it is reached |
| CompressSchema.PruneUnusedDefs | jsonschema/transform.go:230-270 | Unreachable definitions go, in place, and an empty section with them |
| CompressSchema.ParamIsGone | jsonschema/transform.go:59-86 | The parameter is neither declared nor required; other names stay declared as they were and required in order; an emptied required list goes; no other key changes |
| CompressSchema.PruneParam | jsonschema/transform.go:66-86 | A fresh copy without the parameter, whatever the input shares |
| CompressSchema.CompressSchema | jsonschema/transform.go:109-125 | Writes nothing that existed before; from an input with any sharing, a fresh tree that spells the composed steps |
| CompressedSchemas.CompressedMeets | jsonschema/transform.go:109-125 | With the options on, no schema of the result has a title or is closed |
| CompressedSchemas.CompressedLacks | jsonschema/transform.go:114-116 | No pruned parameter is declared or required by the result |
| CompressedSchemas.CompressedIsLocal | jsonschema/transform.go:111-113 | With dereferencing on, the result refers to nothing outside itself, whatever else is asked for |
| CompressedSchemas.CompressedKeepsOnlyReached | jsonschema/transform.go:104-108 | Every definition of the result is reachable in it |
| CompressedSchemas.CompressedKeepsVerdict | jsonschema/transform.go:109-125 | With titles and definitions alone, the result accepts exactly what the input does |
| Percent.FmEncode | uritemplate/fastmcp.go:260-274 | The loop computes the encoding |
| Percent.UtEncode | uritemplate/uritemplate.go:454-470 | The loop computes the encoding of its mode |
| Percent.UtDecode | uritemplate/uritemplate.go:563-578 | The loop computes decoding, or finds an invalid escape |
| Percent.EncodeAlphabet | uritemplate/fastmcp.go:256-279 | Encoded text holds kept bytes and '%' only, and is empty only for the empty text |
| Percent.EncodesByte | uritemplate/fastmcp.go:256-279 | Letters, digits and -._~ stand for themselves, / in wildcards only, any other byte is an upper-case escape of its code |
| Percent.EncodeAppend | uritemplate/fastmcp.go:260-274 | Encoding works byte by byte |
| Percent.ReservedAre | uritemplate/uritemplate.go:477-484 | The eighteen reserved bytes |
| Percent.DecodeFailsIff | uritemplate/uritemplate.go:563-578 | Decoding fails exactly on a percent sign without two hexadecimal digits |
| Percent.DecodeEncode | uritemplate/fastmcp.go:281-288 | Decoding inverts encoding on all byte strings, in both modes |
| Percent.EncodeReservedText | uritemplate/uritemplate.go:452-470 | In "U+R" mode every byte may stand in a URI and every '%' starts a valid triplet |
| Percent.EncodeReservedIdempotent | uritemplate/uritemplate.go:452-470 | "U+R" encoding is idempotent |
| Percent.DecodeEncodeReserved | uritemplate/uritemplate.go:452-470 | Decoding "U+R" text gives the original with its valid triplets decoded |
| PathMatching.MatchSound | uritemplate/fastmcp.go:166-176 | A match is a split of the URI along the tokens |
| PathMatching.MatchGreediest | uritemplate/fastmcp.go:166-176 | A URI that can be split is matched, and the match is the greediest split |
| PathMatching.MatchedIff | uritemplate/fastmcp.go:85-96 | A path matches exactly when it can be cut into the texts, non-empty runs without / and non-empty runs without a line break that the tokens ask for |
| PathMatching.OneSplit | uritemplate/fastmcp.go:85-96 | Separable tokens split a text in at most one clean way |
| PathMatching.MatchesOnlySplit | uritemplate/fastmcp.go:97-143 | On separable tokens the matcher finds the one clean split |
| EscapeMarks.EncodeNative | uritemplate/fastmcp.go:256-279 | Encoded text holds no triplet other than those an encoder writes |
| EscapeMarks.MatchesOnlyMarked | uritemplate/fastmcp.go:97-143 | Where literals hold escapes no value can, the matcher finds the one split that respects them |
| FastMcp.CompileLoop | uritemplate/fastmcp.go:99-142 | The scanning loop compiles the pieces, or fails as the source does |
| FastMcp.BuildRegex | uritemplate/fastmcp.go:97-143 | The token list of the template's path, or nil |
| FastMcp.SplitQueryExpr | uritemplate/fastmcp.go:64-83 | The first closed "{?" expression, else the first closed "{&", else none |
| FastMcp.ExpandPath | uritemplate/fastmcp.go:204-234 | The scanning loop writes the expansion of every piece |
| FastMcp.AppendQuery | uritemplate/fastmcp.go:236-252 | The query pairs joined, with no '?' when there are none |
| FastMcp.ExpandURITemplate | uritemplate/fastmcp.go:201-254 | The whole expansion |
| FastMcp.ParseQueryKeepBlank | uritemplate/fastmcp.go:293-311 | Value lists by decoded key, in order, blanks kept |
| FastMcp.TakeQueryParams | uritemplate/fastmcp.go:177-188 | Query parameters never displace a path parameter |
| FastMcp.MatchURITemplate | uritemplate/fastmcp.go:154-190 | The whole match, with nil for no match and for malformed templates |
| TemplateSyntax.CompilesToMeant | uritemplate/fastmcp.go:97-143 | A path written from texts, {name} and {name*} compiles to just that, hyphens as underscores |
| TemplateSyntax.QuestionTaken | uritemplate/fastmcp.go:62-83 | The names between {? and } are the query names, in order, and the rest is the path |
| TemplateSyntax.AmpersandTaken | uritemplate/fastmcp.go:62-83 | The same for {& when no {? stands in the template |
| TemplateSyntax.UnclosedFallsThrough | uritemplate/fastmcp.go:65-71 | A {? that is never closed does not hide a {& that is |
| TemplateSyntax.ReadsAsWritten | uritemplate/fastmcp.go:62-143 | A template reads as it was written, with the expression anywhere in it |
| TemplateSyntax.MalformedIsNil | uritemplate/fastmcp.go:100-126 | A bad placeholder or an unclosed one anywhere makes the template nil |
| TemplateSyntax.WrittenRoundTrip | uritemplate/fastmcp.go:192-254 | Every parameter whose name was written comes back, whatever the literals hold besides a question mark |
| TemplateSyntax.WrittenRoundTripIff | uritemplate/fastmcp.go:145-254 | For all values at once: if and only if no text holds a question mark and the placeholders are kept apart |
| TemplateExamples.TwoNamesExpand | uritemplate/fastmcp.go:236-252 | What is appended for two query names, by which of them have values |
| TemplateExamples.NamesAreTrimmed | uritemplate/fastmcp.go:74-79 | White space around a query name is dropped, and alone is no name |
| TemplateExamples.PathWins | uritemplate/fastmcp.go:177-188 | A path parameter is never displaced by the query |
| TemplateExamples.RepeatedKeys | uritemplate/fastmcp.go:293-311 | A repeated key keeps its values in order, and the first is taken |
| TemplateExamples.BareKey | uritemplate/fastmcp.go:299-308 | A key without = has an empty value, which is kept |
| TemplateRoundTrip.ExpandsToParts | uritemplate/fastmcp.go:201-234 | Expanding a template that compiles writes the parts of its tokens |
| TemplateRoundTrip.CutUri | uritemplate/fastmcp.go:161-164 | Matching cuts the URI where expansion put the query |
| TemplateRoundTrip.RoundTrip | uritemplate/fastmcp.go:192-200 | Matching an expansion gives exactly the parameters the template names |
| TemplateRoundTrip.RoundTripMarked | uritemplate/fastmcp.go:192-200 | The same for placeholders kept apart by such escapes |
| TemplateRoundTrip.QuestionFails | uritemplate/fastmcp.go:161-169 | With a '?' in a literal nothing matches |
| TemplateRoundTrip.BlurFails | uritemplate/fastmcp.go:120-124 | Placeholders that neither a byte nor a foreign escape keeps apart lose some parameters |
| TemplateRoundTrip.RoundTripIff | uritemplate/fastmcp.go:97-254 | Every choice of values comes back if and only if no literal holds a question mark and the placeholders are kept apart by bytes or foreign escapes |
| TemplateExamples.AdjacentLoses | uritemplate/fastmcp.go:97-143 | Two placeholders side by side compile, and some parameters do not come back |
| TemplateExamples.QuestionLoses | uritemplate/fastmcp.go:161-169 | A literal with a question mark compiles, and no parameters come back |
| TemplateExamples.EscapeSeparates | uritemplate/fastmcp.go:256-279 | The literal %41 separates two placeholders, though each of its bytes can stand in a value |
| Rfc6570.AtoiNumeral | uritemplate/uritemplate.go:160-165 | A printed prefix length reads back exactly when it fits 64 bits |
| Rfc6570.AtoiSigned | uritemplate/uritemplate.go:160-165 | Signs are read, so a negative length is seen as such |
| Rfc6570.OperatorsAre | uritemplate/uritemplate.go:146-151 | The seven operators |
| Rfc6570.ParseOk | uritemplate/uritemplate.go:99-130 | Whatever parses is a well-formed tree |
| Rfc6570.ParsePrint | uritemplate/uritemplate.go:99-175 | A printed well-formed tree parses to itself |
| Rfc6570.ParsePrintIff | uritemplate/uritemplate.go:99-175 | A printed tree parses to itself if and only if it is well formed |
| Rfc6570.ReparseStable | uritemplate/uritemplate.go:99-175 | Printing what was parsed and parsing again changes nothing |
| Rfc6570.VarOf | uritemplate/uritemplate.go:155-172 | One variable with its modifier |
| Rfc6570.UtParseExpr | uritemplate/uritemplate.go:142-175 | One expression, with every error branch |
| Rfc6570.PartAt | uritemplate/uritemplate.go:103-127 | One turn of the parser's switch |
| Rfc6570.ParseLoop | uritemplate/uritemplate.go:99-130 | The parser's loop |
| MountedTemplates.PrefixInjective | mount/mount.go:346-357 | Under one prefix without ':' and '/', distinct URIs stay distinct, in both styles |
| MountedTemplates.PrefixIsInsert | mount/mount.go:346-357 | Each rewriting is the insertion of the prefix text at one place |
| MountedTemplates.PrefixInserts | mount/mount.go:346-357 | scheme://prefix/rest, prefix+scheme://rest, and prefix/uri without a scheme |
| MountedTemplates.PlaceholderReads | resource.go:121-140 | A closed placeholder with a name reads one segment and is what its parameter replaces |
| MountedTemplates.OtherReads | mount/mount.go:359-372 | Any other byte stands for itself, the brace of {} and an unclosed one included |
| MountedTemplates.CompileURITemplate | resource.go:125-140 | The token list of a template |
| MountedTemplates.MatchEntry | resource.go:144-154 | Captured values by name |
| MountedTemplates.MatchWithout | resource.go:144-154 | Taking literal text out of the tokens and the URI leaves the match as it was |
| MountedTemplates.ExpandsBack | mount/mount.go:364-372 | Substituting what was captured gives the text back |
| MountedTemplates.ReadBackWhen | mount/mount.go:290-311 | One read: the child extracts what the parent extracted, and the request comes back when the rebuilt URI has its marker where the template put it |
| MountedReads.MarkerOrigin | mount/mount.go:346-372 | A marker in a rebuilt URI is the template's own or stands where a placeholder meets a literal // |
| MountedReads.RecoverableLands | mount/mount.go:290-372 | On a template without such a placeholder the marker lands in place for all parameters |
| MountedReads.ExposedBareFails | mount/mount.go:290-372 | Without a marker, a placeholder before // gives a request that does not come back |
| MountedReads.ExposedSchemeFails | mount/mount.go:290-372 | In path style, such a placeholder in the scheme part gives one too |
| MountedReads.MountedReadIff | mount/mount.go:290-372 | Every matching request comes back, with the parameters the parent extracted, if and only if the template has no such placeholder |
| MountedReads.ExposedExample | mount/mount.go:346-357 | The template {a}//x under p: the request p/s://x rebuilds s://x, which prefixes to s://p/x |
| Bulk.Effective | contrib/bulk.go:202-206 | A usable number of slots for every limit given, and the given one when it is usable |
| Bulk.StepKeepsInv | contrib/bulk.go:213-242 | Every step of every goroutine keeps the batch invariant |
| Bulk.BoundedAndOnce | contrib/bulk.go:196-233 | At most limit calls in flight; each slot written once at most, for its own call |
| Bulk.SkipMeansFailure | contrib/bulk.go:218-229 | Unless the caller cancelled, a skip means a failure is already recorded and the batch stops on one |
| Bulk.ErrsAreFailures | contrib/bulk.go:231-245 | At the end each failure other than a skip is recorded exactly once, and nothing else is |
| Bulk.TellsWithoutCancel | contrib/bulk.go:243-245 | Without cancellation the error is nil exactly when no result failed |
| Bulk.ErrorTellsIff | contrib/bulk.go:196-246 | That holds over all complete runs if and only if the caller cannot cancel |
| Bulk.ErrorHidesIff | contrib/bulk.go:213-245 | A complete run hides a failed result under a nil error if and only if it recorded no failure and began fewer calls than given; then the caller cancelled |
| Bulk.ParallelIsSequential | contrib/bulk.go:175-246 | With ContinueOnError the results are the sequential ones, slot by slot, failures once each |
| Bulk.InvokeReports | contrib/bulk.go:249-265 | A result fails exactly when there was no answer or the tool flagged it; content, flag, name and reason pass through |
| Bulk.ParallelReports | contrib/bulk.go:196-265 | With ContinueOnError every slot reports its own call, and the error is nil exactly when no call went wrong |
| Bulk.NoMoreStarts | contrib/bulk.go:218-242 | Once cancelled, by a failure or by the caller, a batch begins no call |
| Bulk.CompleteStops | contrib/bulk.go:234-242 | A batch that is to stop and recorded a failure was cancelled |
| Bulk.UnbegunIsSkipped | contrib/bulk.go:218-229 | At the end exactly the slots whose calls were never begun say so, under their own names |
| Bulk.RunsAreShort | contrib/bulk.go:213-243 | Every run ends: a bound on its length |
| Bulk.CanGoOn | contrib/bulk.go:218-242 | No deadlock: an unfinished batch can always take a step of its own |
| Bulk.CallSequential | contrib/bulk.go:175-192 | The loop's results report each call's own outcome; where it stops and why; a reason for each call that went wrong, in order; the error is nil exactly when all were made and none went wrong |
| RateLimit.Limiter.constructor | middleware/ratelimit.go:82-100 | A capacity below one is raised to one |
| RateLimit.Limiter.Allow | middleware/ratelimit.go:104-130 | The verdict and the new bucket of its key; other keys untouched |
| RateLimit.KeysAreSeparate | middleware/ratelimit.go:104-130 | A key's bucket depends on the readings under that key alone |
| RateLimit.BoundedIff | middleware/ratelimit.go:115-128 | Tokens stay between zero and the capacity on every run, clock out of order or not, if and only if the rate is not negative |
| RateLimit.LastIsLatest | middleware/ratelimit.go:115-122 | The bucket remembers the latest reading |
| RateLimit.WindowBound | middleware/ratelimit.go:104-130 | Between any two points at most capacity plus what the advance refills is allowed |
| RateLimit.RunBound | middleware/ratelimit.go:104-130 | The same from the first call on |
| RateLimit.PatienceIsRewarded | middleware/ratelimit.go:115-128 | A call at least 1/refill after the latest reading is allowed |
| RateLimit.Burst | middleware/ratelimit.go:79-130 | Of n calls at once on a full bucket exactly as many are allowed as the capacity holds; a key never seen is full |
| RateLimit.IdleFills | middleware/ratelimit.go:115-122 | A key idle for capacity/refill is full again |
| Middleware.Then | middleware/middleware.go:193-202 | The right-to-left loop nests the middlewares, the first outermost |
| Middleware.ComposeAppend | middleware/middleware.go:181-202 | A concatenated chain is the two chains nested |
| Middleware.ChainEchoes | middleware/middleware.go:154-225 | Built-in middlewares over a handler that echoes ids and is silent for notifications keep both |
| Middleware.RecoveryCatches | middleware/errorhandling.go:32-46 | What gets out of a Recovery is a panic below it on which OnPanic panics too |
| Middleware.RecoveryStopsPanics | middleware/errorhandling.go:32-46 | A Recovery anywhere in a chain, under built-ins with quiet callbacks, stops every panic from below unless OnPanic panics on it |
| Middleware.MaskingHides | middleware/errorhandling.go:79-135 | Under an outermost ErrorHandling an internal error, or any with MaskAll, comes out with its code and id and the masked message, the original only as data and only when asked for; everything else is untouched |
| Middleware.PanicsBecomeErrors | middleware/errorhandling.go:32-135 | A panic becomes an internal error under the request's id, or nothing for a notification |
| Middleware.LimiterPasses | middleware/ratelimit.go:132-144 | A notification or a request within the limit passes as if the limiter were not in the chain |
| Middleware.LimiterStops | middleware/ratelimit.go:132-144 | A request over the limit gets the limiter's error, and what stands below is not reached |
| Middleware.HookRuns | middleware/middleware.go:204-225 | The operation hook runs inside the request hook, for the four operations that have one |

## Left out

- JSON text, pipes, sockets, subprocesses and the HTTP transports: messages are parsed values on first-in first-out wires, and a message that does not parse is not modelled.
- Partial writes: a write either puts the whole message on the wire or fails with nothing on it.
- 64-bit wrap-around of the two id counters: ids are unbounded naturals.
- Resource subscriptions of a session, and routing of methods to handlers: one-branch operations.
- Sessions whose transport cannot send requests: `request` fails at once.
- Panics inside dispatch goroutines of a session: a handler returns.
- SessionObject.Session.ServeStdio: asks that no id be answered twice in the input, which is exactly when the loop cannot block (ReplyDiscipline.ReadLoopStaysFreeIff); tasks still running when the scanner ends are finished one after the other, and every interleaving of them is covered by ServerSession.ServeDrains.
- SessionObject.Session.Scan: asks the same of its input, for the same reason.
- Validation: patterns are an abstract predicate, numbers are reals, string length counts characters; error messages and paths are not modelled.
- SchemaTransforms.PruneAdditionalLoosens: states one direction, because whether a schema whose oneOf is rewritten gets stricter depends on the whole set of accepted values; OneOfCanTighten shows that some do.
- Read-only analyses on the heap (cycle search, reachability): they read the value a tree spells; that they write nothing is their having no modifies clause.
- Go's typed []string, which the builder's Required and PruneParam make: a list of strings like any other here. cloneValue's default branch returns such a slice as it is, so in Go a copy shares it with its input, and "shares no cell" speaks of maps and untyped lists only; no transform writes into one, so nothing else changes.
- UTF-8: URIs and templates are byte strings, so a literal that is not valid UTF-8 compiles here, and two adjacent placeholders split by bytes; trimming knows ASCII white space only.
- TemplateRoundTrip.RoundTripIff: covers literals in which every '%' starts a triplet no encoder writes; a stray '%' or a triplet that values can hold reads like value text, and TemplateRoundTrip.RoundTrip covers templates with those that are separable otherwise.
- TemplateRoundTrip.BlurFails: asks the same of the literals.
- The regular-expression engine and `url.PathUnescape` are library code: the first is the greedy backtracking matcher of PathMatching, the second the decoder of Percent.
- RFC 6570 expansion of lists and associative arrays, and matching by Template.Match.
- MountedReads.MountedReadIff: asks for distinct names and for every '{' before the marker to belong to a placeholder that ends before it.
- Collision policies of mounting, name prefixes of tools and prompts: one-branch operations.
- Durations in bulk results, and the order of failures in the joined error of a parallel batch.
- Floating point and the monotonic clock in the rate limiter: exact reals.
- Logging, metrics and timing middleware, and the operation hooks of user-written ones beyond being arbitrary functions.
- Reflection-driven schemas, authentication, proxying, OpenAPI, content types and prompts.
