# Delegation receipts: a verified model

DRS lets a resource owner delegate a capability to an agent, which may delegate a
smaller part of it further. Each delegation is a signed receipt that names its
parent by hash; an invocation names the whole chain. A verifier service accepts or
rejects the bundle, an SDK issues the receipts, and a small index answers capability
lookups. This project models the decision logic of these parts and proves what they
guarantee over chains of any length, runs of any length and every interleaving.

`dafny verify dfyconfig.toml` checks all of it with Dafny 4.11.

## How the model is laid out

| module | what it models |
|---|---|
| `Chain`, `ChainSafety`, `Authority` | the six-block verifier as a list of stages, what acceptance means for a whole chain, and an independent definition of an authorised bundle that it decides |
| `Answers`, `PolicyAnswers` | for each error code of the verifier, the exact situation it reports, and which of several faults is reported |
| `Policies`, `Command`, `Segments` | policy evaluation and attenuation, command paths, splitting and joining |
| `ResourceUri`, `ResourcePatterns`, `PercentEncoding` | URI normalisation, allowlist patterns, percent-decoding |
| `Issue` | the SDK's issuing functions against what the verifier accepts |
| `Nonce`, `Server`, `Replay` | the bounded nonce store, verify-then-commit over runs of requests, and how often one invocation can be accepted |
| `Resolver`, `Breaker`, `ParallelResolve` | key resolution with singleflight and circuit breaker, and Block C's worker pool |
| `Pools`, `BlockC` | many worker pools over one resolver; which bundles can crash it |
| `StatusCache`, `RevocationLog` | the two revocation sources |
| `Base58`, `Digits`, `Scalar` | base58 and `did:key`, numerals, the strict Ed25519 scalar test |
| `Jcs`, `Utf16` | canonical JSON and its key order |
| `CapabilityIndex`, `Utf8` | the index against the plain scan; byte lengths |
| `Receipts`, `Wrappers` | receipts, bundles, the outside world; options and results |

Conventions:

- SHA-256, JWT payload decoding, signature checks, the blank-string test and key
  resolution are function parameters. Nothing is assumed about them, except that a
  lemma about hash linkage asks for a hash without collisions on the receipts in
  question, and a lemma about issued chains asks that decoding undoes encoding, in the
  SDK and in the verifier.
- Clock readings are parameters or are moved by a clock step. The verifier's
  times are signed 64-bit seconds, and the freshness test computes with the
  wrap-around that goes with them. Everywhere else the source only compares times or
  subtracts two clock readings, and plain integers are used.
- Objects that are updated in place are classes (`Nonce.Store`, `Breaker.CircuitState`,
  `Resolver.Tables`, `StatusCache.Cache`, `RevocationLog.Log` and `Store`) and the
  base58 buffers are arrays. For the concurrent parts each critical section of the
  source is one step of a state machine, written with the same functions that the
  methods of the class are proved against; a schedule is any sequence of step labels.
- Go strings are byte strings. `ResourceUri` takes one character for one byte.
  `Base58` ranges over characters, as the source does there. `RevocationLog` trims and
  parses characters and measures lines in UTF-8 bytes. All other modules only compare strings and cut them at ASCII separators.
- Amounts of money are reals; a NaN or an infinity among the arguments is a value of
  its own.

## Where the code does not do what one would expect

- **Ages that do not fit in 64 bits.** `now - iat` wraps round for a date more than
  2^63 - 1 seconds back, and a wrapped age is negative and passes the age limit. Dates
  from 300 seconds before 1970 on never wrap. For the others `Replay.AcceptanceBound`
  counts the times to live that have room before and after the wrap, and
  `Replay.ExceedsExactly` says for which dates some run accepts an invocation more than
  2 + 300 / ttl times: those earlier than 300 + (2 + 300 / ttl) ttl seconds before 1970.
  `Server.AcceptedAgainExactly` gives the exact condition for a second acceptance.
- **The nonce entry expires when the invocation is still fresh.** The store forgets an
  identifier at age `ttl`, freshness accepts age `ttl` and 300 seconds of future. So
  the bound is 2 + 300 / ttl acceptances, and `BoundIsTight` reaches it for every `ttl`.
  `Replay.CanComeBackExactly` says which invocations can be accepted twice: those dated
  no earlier than the time of their first acceptance, and those that can wrap.
- **The two booleans do not compose.** A middle receipt that leaves `pii_access` out
  lets the next one turn it on (`Policies.BooleansDoNotCompose`). `DistantAttenuation`
  says exactly when two distant receipts pass the hop test, and `LeafAndFlagsDecide`
  shows that the loop over all policies closes the gap.
- **Empty allowlists.** The verifier reads an empty list as no restriction, the SDK as
  a restriction that allows nothing. `Issue.AttenuationTestsCompared` gives both
  directions of the difference.
- **`%2F`.** The comments in `evaluate.go` say that an escaped slash cannot be taken for
  a separator and that parent steps cannot get around a prefix pattern. The slash is
  decoded into one and separates segments in the result (`ResourceUri.EscapedSlashSplits`),
  and two dots between escaped slashes stay in the normal form as a segment: the normal
  form of `mcp://tools%2F..%2Fadmin` is `mcp://tools/../admin`, which `mcp://tools/*`
  covers, although it does not cover `mcp://tools/../admin` itself
  (`ResourcePatterns.EscapedDotsExample`; `EscapedDotsCovered` for a whole family).
  `ResourceUri.NormalFormIsPlain` says exactly when the normal form has no such segment,
  `SlashFreeExactly` reads the cause off the text of the URI, and
  `ResourcePatterns.PrefixPatternCovers` gives what a pattern covers for every URI.
- **Double escapes.** Normalising `%252e` leaves `%2e`, so a second pass still changes
  it (`DoubleEscapeNeedsTwoPasses`), while `100%25` settles at `100%`. For every URI
  `NormalizeIdempotent` says when a second pass changes nothing.
- **Key order.** The SDK's comparator orders keys by code point and its comment
  attributes that to RFC 8785; section 3.2.3 orders by UTF-16 code unit.
  `Utf16.OrdersAgreeExactly` says for which keys the two agree.
- **All-zero input.** The keygen encoder starts from the digit list `[0]` and writes
  one `1` too many when every byte is zero (`Base58.EncodeDigitArray`). Its callers
  always put `0xed` in front.
- **Characters from U+0100 on in base58 text** index the decoder's 256-entry table past
  its end, which is a run-time panic. It happens exactly when the first character
  outside the alphabet has code 256 or above (`Base58.FaultExactly`,
  `TableOverrunExactly`, `TableOverrunExample`). Resolution runs in a worker of Block C,
  before any signature is looked at, and nothing there recovers, so the panic ends the
  process. `Resolver` has it as a step of its own: `CrashesExactly` says what is behind
  every crash, `NoCrashWithoutOverrun` that nothing else ends a run, and
  `BlockC.BundleCrashesExactly` which bundles can cause it. The liveness results of
  `Resolver` and `Pools` are about runs that have not crashed.
- **A revocation log whose last line was cut short** may not keep its promise. After a
  whole append a replay succeeds and finds the index exactly when the joined line stays
  below 65536 bytes and the left-over is blanks and zeros, or a complete line has the
  index already (`RevocationLog.RevokeSurvivesReplay`). `CutLineSwallowsIndex` is an
  acknowledged index that is lost, `FullTailClosesLog` an acknowledged index after which
  the log cannot be replayed at all, and `CutNumeralReads` a numeral cut short that reads
  as another index.

## Model

| member | source | states |
|---|---|---|
| Chain.Chain | drs-verify/pkg/verify/chain.go:108-549 | The verifier says valid exactly when no stage of any block has a fault, and then describes the root and the leaf; otherwise it names the Block A condition that fails, the first receipt that does not decode, or the first fault of the first faulty stage, whose code is the one `Answers.AnswerExactly` calls for |
| Chain.Scan | drs-verify/pkg/verify/chain.go:153-255 | One stage passes exactly when all its steps do, and otherwise stops at its first fault |
| Answers.AnswerExactly | drs-verify/pkg/verify/chain.go:150-468 | A code is reported at a receipt of a stage exactly when the fields there call for that very code, no earlier receipt of the stage has anything to report, and no stage that comes earlier in the source has |
| Answers.FaultExactly | drs-verify/pkg/verify/chain.go:150-468 | For every code and every step: what the receipt, the invocation, the settings or the outside world is like when it is found there, and the other way round |
| Authority.AcceptsExactlyAuthorised | drs-verify/pkg/verify/chain.go:108-468 | The verifier accepts a bundle exactly when it has 1 to 16 receipts, all of it decodes, and it is authorised: unbroken custody, narrowing between any two receipts, a request within the leaf's grant, and no revocation |
| Authority.CustodyStages | drs-verify/pkg/verify/chain.go:224-293 | B4, B5, B6 and Block C pass exactly when each receipt is issued by its parent's audience and signed under its issuer's key, the invocation likewise, and all hashes are listed |
| Authority.LinkStages | drs-verify/pkg/verify/chain.go:190-309 | B2, B3 and the root command check pass exactly when the list is linked, a human root has consented in full and the root command is absolute |
| Authority.NarrowingStages | drs-verify/pkg/verify/chain.go:310-390 | The hop checks on command, subject, policy and window pass exactly when every later receipt narrows every earlier one and no neighbour turns a boolean on |
| Authority.GrantStages | drs-verify/pkg/verify/chain.go:318-435 | After the hop checks, the rest of Blocks D and E passes exactly when the request fits the leaf's command, policy and window, all booleans, this server and the age limit |
| Authority.RevocationStages | drs-verify/pkg/verify/chain.go:437-468 | Block F passes exactly when no receipt with a status index is on a configured list and the remote list has answered |
| Authority.TypeStages | drs-verify/pkg/verify/chain.go:152-188 | B1 passes exactly when kind, version and identifier prefix are right throughout |
| ChainSafety.ClearEverywhere | drs-verify/pkg/verify/chain.go:150-468 | Passing the stages in execution order is passing each stage of the model; that these stages are all there is to check is `AcceptsExactlyAuthorised` |
| ChainSafety.BlockBLinks | drs-verify/pkg/verify/chain.go:190-222 | Passing B2 and B3 means that the root names no parent and each other receipt names the hash of the text before it |
| ChainSafety.BlockBReferences | drs-verify/pkg/verify/chain.go:241-255 | B6 passes exactly when the invocation lists the hashes of all receipts, in order and no others |
| ChainSafety.SameLeafSameChain | drs-verify/pkg/verify/chain.go:209-222 | Without hash collisions, two linked lists with the same last receipt are identical: no splice, truncation or substitution in front of it |
| ChainSafety.NoReceiptTwice | drs-verify/pkg/verify/chain.go:190-222 | No receipt occurs twice in a linked chain |
| ChainSafety.InvocationPinsChain | drs-verify/pkg/verify/chain.go:241-255 | An invocation goes with at most one receipt list |
| ChainSafety.AcceptedChainIsUnique | drs-verify/pkg/verify/chain.go:190-255 | The same three facts about accepted bundles, across different settings, times and answers of the outside world |
| ChainSafety.CommandsNarrow | drs-verify/pkg/verify/chain.go:310-317 | The hop-by-hop command check puts each command under every earlier one, at any distance |
| ChainSafety.InvokedCommandUnderAll | drs-verify/pkg/verify/chain.go:304-323 | The segments of every receipt's command are a prefix of those of the invoked command |
| ChainSafety.WindowsNest | drs-verify/pkg/verify/chain.go:366-389 | The validity window of each receipt lies inside that of every earlier one |
| ChainSafety.LeafWindowDecides | drs-verify/pkg/verify/chain.go:423-435 | After the hop checks, the window loop over all receipts accepts exactly when the leaf's window does |
| ChainSafety.PolicyLoopIsConjunction | drs-verify/pkg/verify/chain.go:392-399 | D1 passes exactly when every receipt's policy accepts the arguments |
| ChainSafety.LeafDecides | drs-verify/pkg/verify/chain.go:359-435 | After the hop checks, D1 and the windows together amount to the leaf's policy, the leaf's window and the booleans of every receipt |
| ChainSafety.OneSubject | drs-verify/pkg/verify/chain.go:325-340 | Every receipt of an accepted chain has the invocation's subject |
| ChainSafety.AcceptedChainNarrows | drs-verify/pkg/verify/chain.go:108-435 | For every pair of receipts of an accepted bundle: policy, window and command narrow, the subject is one, each policy accepts the arguments and each window has begun |
| Policies.EvaluationMeaning | drs-verify/pkg/policy/evaluate.go:24-122 | Evaluation succeeds exactly when each restricting clause finds its argument, of the right type and within the limit or list; a resource must be listed itself, or its normal form must be a listed pattern segment by segment or lie strictly below a prefix pattern |
| PolicyAnswers.EvaluationExactly | drs-verify/pkg/policy/evaluate.go:24-122 | Evaluation reports a violation exactly when the arguments commit it and every field that is looked at before permits them |
| PolicyAnswers.AttenuationExactly | drs-verify/pkg/policy/evaluate.go:127-210 | The attenuation test reports an escalation, with its kind and field, exactly when the child commits it and none on a field that is looked at before; of a list the first foreign item decides |
| Policies.AttenuationMeaning | drs-verify/pkg/policy/evaluate.go:127-210 | The attenuation test passes exactly when limits and lists narrow and no boolean goes from false to true |
| Policies.ChainNarrows | drs-verify/pkg/policy/evaluate.go:127-210 | Along a hop-checked chain of any length, cost, calls and all three lists narrow between any two receipts |
| Policies.DistantAttenuation | drs-verify/pkg/policy/evaluate.go:139-151 | Two receipts any distance apart pass the test themselves exactly when no boolean is relaxed between these two |
| Policies.BooleansDoNotCompose | drs-verify/pkg/policy/evaluate.go:139-151 | A three-receipt chain whose hops pass and whose ends do not |
| Policies.NarrowerAcceptsLess | drs-verify/pkg/policy/evaluate.go:24-122 | Arguments that a narrower policy accepts are accepted by the wider one, once its own booleans agree |
| Policies.LeafAndFlagsDecide | drs-verify/pkg/policy/evaluate.go:24-210 | For a hop-checked chain, evaluating all policies decides as the leaf's policy and all boolean checks |
| Command.SubpathIsSegmentPrefix | drs-verify/pkg/verify/chain.go:788-797 | For all strings the sub-path test is the prefix order on slash-separated segments |
| Command.SubpathIsPartialOrder | drs-verify/pkg/verify/chain.go:788-797 | The sub-path relation is reflexive, antisymmetric and transitive |
| Command.SubpathAgrees | drs-sdk/src/sdk/issue.ts:301-304 | Issuer and verifier decide alike on every pair of commands |
| Segments.PrefixIsSegmentPrefix | drs-verify/pkg/verify/chain.go:792-795 | A string prefix followed by the separator is a strict prefix of segments, and the other way round |
| Segments.SplitJoin | drs-verify/pkg/policy/evaluate.go:259-276 | Splitting undoes joining exactly when no segment holds the separator |
| ResourceUri.NormalizeResourceURI | drs-verify/pkg/policy/evaluate.go:250-277 | The loop computes the specified normal form: scheme kept, stack of decoded segments joined |
| ResourceUri.PartsAreSurvivors | drs-verify/pkg/policy/evaluate.go:258-275 | The left-to-right stack keeps exactly the segments that a right-to-left reading of the dot segments keeps |
| ResourceUri.ResolveIsPlain | drs-verify/pkg/policy/evaluate.go:265-274 | No kept part, taken as a whole, is empty, a dot or two dots after decoding; a part that decodes to something with slashes may still hold such segments |
| ResourceUri.PartsReadable | drs-verify/pkg/policy/evaluate.go:244-277 | The kept parts can be read back off the normal form exactly when no kept segment of the text hides a slash |
| ResourceUri.EscapedSlashSplits | drs-verify/pkg/policy/evaluate.go:244-277 | An escaped slash becomes a separator of the normal form |
| ResourceUri.PercentFreeParts | drs-verify/pkg/policy/evaluate.go:259-264 | On percent-free URIs segments are taken as they stand and no part holds a slash or an escape |
| ResourceUri.FixedPointIffNormalForm | drs-verify/pkg/policy/evaluate.go:250-277 | Normalising leaves a URI alone exactly when it has no segment to drop and no escape |
| ResourceUri.NormalizeIdempotent | drs-verify/pkg/policy/evaluate.go:250-277 | For every URI, normalising twice is normalising once exactly when the slash-separated pieces of the kept parts (behind a scheme that decoding made, if any) have nothing to drop and nothing to decode |
| ResourceUri.IdempotentByParts | drs-verify/pkg/policy/evaluate.go:250-277 | Part by part, for every URI that does not gain a scheme, such as all that have one |
| ResourceUri.IdempotentWithoutSlashes | drs-verify/pkg/policy/evaluate.go:250-277 | When no kept segment hides a slash: exactly when decoding any kept segment twice is decoding it once |
| ResourceUri.IdempotentWithoutPercent | drs-verify/pkg/policy/evaluate.go:250-277 | Normalising is idempotent on every percent-free URI |
| ResourceUri.LonePercentStays | drs-verify/pkg/policy/evaluate.go:260-264 | A part may hold a percent sign and yet be settled |
| ResourceUri.NormalFormBySegments | drs-verify/pkg/policy/evaluate.go:250-277 | Scheme and path segments of the normal form of every URI, in terms of its kept parts |
| ResourceUri.NormalFormIsPlain | drs-verify/pkg/policy/evaluate.go:244-277 | For every URI the normal form is free of empty and dot segments exactly when the pieces of the kept parts behind a scheme are; part by part for URIs that do not gain one |
| ResourceUri.EscapedDotsStay | drs-verify/pkg/policy/evaluate.go:244-277 | Two dots between escaped slashes stay in the normal form as a parent segment, whatever is around them |
| ResourceUri.SlashFreeExactly | drs-verify/pkg/policy/evaluate.go:259-264 | Decoding puts no slash into a kept part exactly when no kept segment of the text is decodable with an escaped slash in it |
| PercentEncoding.UnescapeSucceedsExactly | drs-verify/pkg/policy/evaluate.go:260-264 | Decoding succeeds exactly when every percent sign starts an escape |
| PercentEncoding.UnescapeExactly | drs-verify/pkg/policy/evaluate.go:260-264 | Text decodes to another exactly when it spells its characters one by one, each as itself, unless it is a percent sign, or as a percent sign and the two hexadecimal digits of its code, in either case |
| PercentEncoding.SlashAfterDecoding | drs-verify/pkg/policy/evaluate.go:260-264 | A slash-free segment decodes to one with a slash exactly when it is decodable and holds `%2F` or `%2f` |
| PercentEncoding.UntouchedByDecoding | drs-verify/pkg/policy/evaluate.go:260-264 | Decoding leaves a segment alone exactly when it has no percent sign or one that starts no escape |
| ResourceUri.DoubleEscapeNeedsTwoPasses | drs-verify/pkg/policy/evaluate.go:260-264 | A doubly escaped dot is not in normal form after one pass |
| ResourcePatterns.PatternAsUri | drs-verify/pkg/policy/evaluate.go:231-232 | A prefix pattern read as a URI has the segments of its stem and then the star |
| ResourcePatterns.PrefixPatternCovers | drs-verify/pkg/policy/evaluate.go:221-242 | Every prefix pattern with a scheme and every URI: literal equality aside, it covers exactly when the schemes of the normal forms are equal and its segments are a strict prefix of those of the normal form, or it has none |
| ResourcePatterns.PrefixPatternBySegments | drs-verify/pkg/policy/evaluate.go:221-242 | Every prefix pattern, with a scheme or without: the string test is the strict prefix order on the segments of the two normal forms |
| ResourcePatterns.PlainPatternCovers | drs-verify/pkg/policy/evaluate.go:221-242 | For a percent-free pattern and a URI without hidden slashes: schemes equal and the pattern's kept segments a strict prefix of the URI's, or none |
| ResourcePatterns.LiteralPatternCovers | drs-verify/pkg/policy/evaluate.go:221-242 | Every pattern that is neither the wildcard nor a prefix pattern and every URI: it covers exactly itself and the URIs whose normal form has its scheme and its segments |
| ResourcePatterns.CoveredExactly | drs-verify/pkg/policy/evaluate.go:221-242 | A list covers a URI exactly when it holds the wildcard, the URI, a pattern with the segments of its normal form, or a prefix pattern whose segments are a strict prefix of them |
| ResourcePatterns.EscapedDotsCovered | drs-verify/pkg/policy/evaluate.go:224-249 | A pattern covers a URI whose escaped slashes lead out of it again, for every scheme and plain segment, but not the same URI with the slashes written out |
| ResourcePatterns.EscapedDotsExample | drs-verify/pkg/policy/evaluate.go:224-249 | The same for the pattern of the source's comments and one URI with escaped slashes |
| ResourcePatterns.CoveredMonotone | drs-verify/pkg/policy/evaluate.go:221-242 | A wider allowlist covers whatever a narrower one does |
| Scalar.GroupOrderBytes | drs-verify/pkg/verify/chain.go:710-717 | The 32 listed bytes are 2^252 + 27742317777372353535851937790883648493 in little-endian order |
| Scalar.TopByteDecides | drs-verify/pkg/verify/chain.go:729-739 | The topmost differing byte decides between two scalars, whatever is below it |
| Scalar.StrictVerifyEd25519 | drs-verify/pkg/verify/chain.go:725-742 | Accepts exactly the 64-byte signatures whose scalar half is below the group order; length errors are told apart from large scalars |
| Issue.ListsCompared | drs-sdk/src/sdk/policy.ts:48-91 | The list tests of SDK and verifier differ exactly on emptied and on left-over empty lists |
| Issue.AttenuationTestsCompared | drs-sdk/src/sdk/policy.ts:17-94 | The SDK's attenuation test implies the verifier's exactly when no list is emptied under a restriction, and conversely exactly when no empty list is left |
| Issue.EscalationsAgree | drs-sdk/src/sdk/policy.ts:17-94 | Where no empty list is involved the two tests give the same answer, with the same field and kind of escalation |
| Issue.GrownLinks | drs-sdk/src/sdk/issue.ts:110-203 | Every receipt of a chain the SDK grew carries the issuer, subject, audience, command, policy and window that were asked for it, the root its consent; every hop has passed the guards against its true parent and carries its hash |
| Issue.GrowsExactly | drs-sdk/src/sdk/issue.ts:110-203 | A chain of any length grows exactly when a human root brings consent and each request is issued by the audience of the one before it, with a command below it in segments, an attenuated policy and a window inside |
| Issue.HopRefused | drs-sdk/src/sdk/issue.ts:148-182 | Which error a refused request gets |
| Issue.HopFaultCompared | drs-sdk/src/sdk/issue.ts:164-182 | An issued hop passes the verifier's hop checks exactly when it sets an expiry under a dated parent and empties no list |
| Issue.IssuedChainPasses | drs-sdk/src/sdk/issue.ts:110-222 | A grown chain of any length passes each structural stage of the verifier exactly when the parameters the caller passed meet the duty that belongs to it; eight stages pass in any case |
| Issue.IssuedBundleAccepted | drs-sdk/src/sdk/issue.ts:110-222 | The verifier accepts an issued bundle exactly when it has at most 16 receipts, the caller's parameters meet all duties and keys, arguments, clock and revocation find no fault |
| Nonce.Store.Check | drs-verify/pkg/nonce/store.go:60-92 | One call, and the map it leaves, are the specified step |
| Nonce.Store.Evict | drs-verify/pkg/nonce/store.go:76-83 | The eviction loop leaves exactly the entries younger than the time to live, in whatever order it visits them |
| Nonce.StepAnswers | drs-verify/pkg/nonce/store.go:60-92 | Replay is reported exactly when the acceptance history has the identifier less than the time to live ago, exhaustion exactly when as many others are live as the store holds |
| Nonce.StepFollows | drs-verify/pkg/nonce/store.go:76-91 | No call drops or changes a live entry, and only the claimed one is added |
| Nonce.StepSize | drs-verify/pkg/nonce/store.go:85-91 | The store never grows beyond its capacity |
| Nonce.StepRefines | drs-verify/pkg/nonce/store.go:60-92 | Every call keeps the map a refinement of the acceptance history |
| Nonce.RunRefines | drs-verify/pkg/nonce/store.go:37-92 | The refinement holds after every run on a clock that does not run backwards |
| Nonce.AnswersFollowHistory | drs-verify/pkg/nonce/store.go:57-92 | In every run each answer is the one the whole history calls for |
| Server.Verify | drs-verify/cmd/server/main.go:358-410 | An undecodable request and an invalid chain leave the store untouched; a valid chain sees one check of its identifier, after the body comparison; success is answered exactly when the identifier was claimed, never without a store; the result in the response is the verifier's own for this bundle, on success the description of its root and leaf |
| Server.AcceptedIdentifier | drs-verify/pkg/middleware/decode.go:90-100 | After a valid chain the invocation decodes and its identifier is not empty, so the two error answers cannot occur |
| Server.ArrivalIsFaithful | drs-verify/pkg/verify/chain.go:403-421 | Acceptance is validity of everything else together with freshness |
| Server.FreshnessMeaning | drs-verify/pkg/verify/chain.go:409-421 | The freshness test accepts exactly ages from -300 seconds to the limit, and ages that wrap round |
| Server.Remembered | drs-verify/pkg/nonce/store.go:60-92 | An accepted identifier is held for the whole time to live, whatever other requests do |
| Server.AcceptancesApart | drs-verify/pkg/nonce/store.go:67-74 | Two acceptances of one identifier are at least the time to live apart |
| Server.AcceptedAgainExactly | drs-verify/cmd/server/main.go:384-404 | An invocation dated before its first acceptance is accepted again exactly when its age has wrapped, the rest is valid, and the acceptance history has it not, and fewer than `maxEntries` others, within the time to live |
| Server.NeverAcceptedAgain | drs-verify/cmd/server/main.go:167-167 | With the age limit equal to the time to live, such an invocation with a date no earlier than 300 seconds before 1970 is never accepted again in any run |
| Replay.CanComeBackExactly | drs-verify/cmd/server/main.go:167-167 | An invocation that is accepted at time t can be accepted again in some run exactly when it is dated t or later (t - delay with a delay between verification and commit), or earlier than 300 seconds before 1970 |
| Server.ClaimedExactly | drs-verify/pkg/nonce/store.go:60-92 | In every run the store lets an identifier in exactly when the acceptances so far have none of it and fewer than `maxEntries` others within the time to live |
| Replay.AcceptanceBound | drs-verify/cmd/server/main.go:384-404 | For every date and every run: one invocation is accepted at most as often as times to live have room before its age wraps and after it |
| Replay.BoundFromEpoch | drs-verify/cmd/server/main.go:384-404 | Dated no earlier than 300 seconds before 1970 it is accepted at most 2 + (300 + delay) / ttl times; with one clock reading per request, 2 + 300 / ttl |
| Replay.ExceedsExactly | drs-verify/cmd/server/main.go:167-167 | Some run accepts it more than 2 + 300 / ttl times exactly when it is dated earlier than 300 + (2 + 300 / ttl) ttl seconds before 1970 |
| Replay.BoundIsTight | drs-verify/cmd/server/main.go:167-167 | For every time to live there is a run that reaches the bound |
| Replay.AcceptedWhileWrapped | drs-verify/pkg/verify/chain.go:414-420 | Once the age has wrapped, there is a run that accepts the invocation in every time to live until the clock ends |
| Server.OnlyValidIdentifiersStored | drs-verify/cmd/server/main.go:384-404 | Only identifiers of bundles the chain verifier accepted are ever in the store |
| Breaker.CircuitState.CheckOpen | drs-verify/pkg/resolver/did.go:71-83 | Open until the cooldown is over; the first check after that closes the circuit |
| Breaker.CircuitState.RecordFailure | drs-verify/pkg/resolver/did.go:94-102 | One more failure; from the threshold on the circuit opens for the cooldown |
| Breaker.CheckTracks | drs-verify/pkg/resolver/did.go:71-83 | A check keeps the state in step with the streak of failures |
| Breaker.OpenExactly | drs-verify/pkg/resolver/did.go:71-83 | The circuit is open exactly from the failure that reaches the threshold until the cooldown after the last failure is over |
| Breaker.FailureTracks | drs-verify/pkg/resolver/did.go:94-102 | A failure on a closed circuit extends the streak, more than the cooldown after the last one from the threshold on |
| Breaker.StreakBound | drs-verify/pkg/resolver/did.go:62-102 | A streak of duration W has at most threshold + W / cooldown failures (a threshold below one counts as one) |
| Resolver.Tables.Lookup | drs-verify/pkg/resolver/did.go:333-341 | A hit before expiry; an expired entry is dropped; what that means over time is `LookupExactly` |
| Resolver.Tables.Join | drs-verify/pkg/resolver/did.go:346-358 | The entry in flight, or a new one that the caller leads |
| Resolver.InvariantAlways | drs-verify/pkg/resolver/did.go:331-375 | Singleflight, key provenance, breaker tracking and the causes of crashes hold in every interleaving |
| Resolver.Singleflight | drs-verify/pkg/resolver/did.go:346-366 | At most one caller per DID is between inserting and deleting its entry, so at most one probe is outstanding, and the table holds a DID exactly when such a caller exists |
| Resolver.NoWaiterStranded | drs-verify/pkg/resolver/did.go:347-362 | While the process runs, every waiter can wake with a result or has a live leader working on its very entry |
| Resolver.NobodyElseBlocks | drs-verify/pkg/resolver/did.go:331-375 | While the process runs, a call that is not waiting for a leader can always go on; its step is the panic exactly when it leads an identifier that overruns the decoder's table |
| Resolver.CallsFinish | drs-verify/pkg/resolver/did.go:331-375 | Each step of a call brings it nearer to its return and moves no other call |
| Resolver.KeysComeFromTheirDid | drs-verify/pkg/resolver/did.go:331-391 | Every key returned or cached came from a finished resolution of that same DID, and for a `did:key` the DID is the one printed for that 32-byte key |
| Resolver.LookupExactly | drs-verify/pkg/resolver/did.go:331-375 | In every interleaving a lookup answers with a key exactly when that key was the last one stored for the DID, less than the time to live ago, and has not been evicted since |
| Resolver.FinishStores | drs-verify/pkg/resolver/did.go:360-374 | A leader returns what its resolution came to; a key is stored at that time, an error is not |
| Resolver.WakeShares | drs-verify/pkg/resolver/did.go:347-355 | A waiter returns the result of the resolution it has waited for, key or error |
| Resolver.PrintedIdentifiersResolve | drs-verify/pkg/resolver/did.go:394-426 | In every interleaving a call for the identifier printed for a 32-byte key returns that key, unless it is given up |
| Resolver.OtherIdentifiersFail | drs-verify/pkg/resolver/did.go:377-426 | And one for an identifier that is neither a `did:web` nor printed for any key, and does not overrun the table, returns an error |
| Resolver.CrashesExactly | drs-verify/pkg/resolver/did.go:360-362 | A crashed run has a leader of an identifier that overruns the decoder's table, and such a leader has no other step |
| Resolver.NoCrashWithoutOverrun | drs-verify/pkg/resolver/did.go:331-391 | A run in which no such identifier is asked for does not crash |
| Resolver.OverrunsNeverReturn | drs-verify/pkg/resolver/did.go:331-375 | A call for such an identifier never returns a key or an error, in any interleaving |
| Resolver.OneCallCrashes | drs-verify/pkg/resolver/did.go:346-362 | One call for such an identifier is enough to crash the process |
| BlockC.ReachesWithoutSignatures | drs-verify/pkg/verify/chain.go:150-269 | Whether a bundle reaches the resolution of its issuers does not depend on keys, signatures, revocation or the clock |
| BlockC.PooledIssuers | drs-verify/pkg/verify/chain.go:259-269 | The pool resolves exactly the issuers of the receipts and of the invocation, each once |
| BlockC.BundleCrashesExactly | drs-verify/pkg/verify/chain.go:259-285 | Resolving the issuers of a bundle can crash the process exactly when one of them overruns the decoder's table |
| BlockC.BundleNeverResolves | drs-verify/pkg/verify/chain.go:579-630 | And the pool then never gets a result for that issuer |
| Resolver.ProbesAreBounded | drs-verify/pkg/resolver/did.go:436-520 | In every interleaving the failures of each breaker state obey the streak bound |
| Resolver.ProbesGoThrough | drs-verify/pkg/resolver/did.go:436-454 | In every interleaving a check turns its caller away exactly when the failures of the breaker state have reached the threshold and the cooldown after the last one is not over |
| ParallelResolve.Deduplicate | drs-verify/pkg/verify/chain.go:584-591 | The same DIDs, each once |
| ParallelResolve.Drain | drs-verify/pkg/verify/chain.go:622-629 | The drain loop returns the first failure in channel order, or all the keys |
| ParallelResolve.InvariantAlways | drs-verify/pkg/verify/chain.go:604-620 | Semaphore, wait group and channel count the workers they should, in every schedule |
| ParallelResolve.BoundedAndNeverBlockedOnSend | drs-verify/pkg/verify/chain.go:599-617 | At most eight workers hold the semaphore and no send ever blocks |
| ParallelResolve.NoDeadlock | drs-verify/pkg/verify/chain.go:599-629 | Until the resolver has finished, some step is possible |
| ParallelResolve.EveryStepDescends | drs-verify/pkg/verify/chain.go:607-629 | Every step of every schedule lowers a measure that starts at 6 n + 2 and is never negative |
| ParallelResolve.ResultIsExact | drs-verify/pkg/verify/chain.go:579-630 | On success the keys of the map are exactly the input DIDs, each with its own outcome; success exactly when all resolved; otherwise a DID that failed is named |
| Pools.FitsAlways | drs-verify/pkg/verify/chain.go:579-630 | Over every interleaving of all pools and the resolver, each worker that holds a slot has called for its DID and each key it got is spelled by its DID |
| Pools.NoDeadlockAcrossPools | drs-verify/pkg/verify/chain.go:599-629 | While the process runs and some pool has not finished, some pool or some call can get ahead, although workers wait for leaders of other pools |
| Pools.PoolKeysAreRight | drs-verify/pkg/verify/chain.go:579-630 | A pool that finishes with its keys has, for every `did:key`, the key that the identifier spells, whoever resolved it |
| StatusCache.GetBitReadsBits | drs-verify/pkg/revocation/status.go:236-244 | The bit read at an index is that of the list of bits, most significant first in each byte, and false past its end |
| StatusCache.BitsMakeTheByte | drs-verify/pkg/revocation/status.go:243-243 | The eight bits put back at their places are the byte |
| StatusCache.Cache.Refresh | drs-verify/pkg/revocation/status.go:172-234 | A complete body of acceptable size is published with its time; anything else changes nothing |
| StatusCache.Cache.IsRevoked | drs-verify/pkg/revocation/status.go:63-122 | The whole call when no other runs, with each clock reading it takes: which fetches it makes, what it publishes and what it answers |
| StatusCache.InvariantAlways | drs-verify/pkg/revocation/status.go:63-234 | Both locks, the callers inside them and the publication history are consistent in every interleaving |
| StatusCache.NeverTwoFetches | drs-verify/pkg/revocation/status.go:83-104 | No two fetches are in progress at once, across both locks |
| StatusCache.FailedFetchChangesNothing | drs-verify/pkg/revocation/status.go:168-234 | A failed fetch leaves the snapshot and its age alone |
| StatusCache.PublicationsApart | drs-verify/pkg/revocation/status.go:78-104 | Published snapshots are more than the time to live apart and the current one is the last |
| StatusCache.FetchExactly | drs-verify/pkg/revocation/status.go:204-234 | A fetch is published, at once and unchanged, exactly when it brought 1 to 1048576 bytes and as many as its length header says, if it has one |
| StatusCache.PublicationsArrivedWhole | drs-verify/pkg/revocation/status.go:204-234 | In every interleaving each published snapshot is the body of such a fetch |
| StatusCache.NoAnswerBeforeSnapshot | drs-verify/pkg/revocation/status.go:69-76 | No answer but an error is given before a snapshot was published |
| StatusCache.AnswerIsCurrentBit | drs-verify/pkg/revocation/status.go:106-121 | Every answer is the bit of the current snapshot, an error past its end, and false when no list is configured |
| StatusCache.AnswersAreRecent | drs-verify/pkg/revocation/status.go:78-121 | The snapshot behind an answer was no older than the time to live when the call last looked, unless the call's own fetch has just failed |
| StatusCache.NoDeadlock | drs-verify/pkg/revocation/status.go:63-158 | A call can take a step, or it waits for one lock and the holder of that lock can |
| StatusCache.CallsFinish | drs-verify/pkg/revocation/status.go:63-122 | Each step of a call brings it nearer to its return and moves no other call |
| Digits.MultiplyAdd | drs-verify/pkg/resolver/did.go:673-677 | The in-place inner loop is one pass of multiply-and-add over the buffer |
| Digits.PrependCarry | drs-verify/pkg/resolver/did.go:678-681 | The carry loop puts the numeral of the carry in front |
| Digits.MulAddValue | drs-sdk/src/cli/commands/keygen.ts:53-64 | A pass, with its carry in front, denotes value times factor plus summand |
| Digits.MulAddNumeral | drs-verify/pkg/resolver/did.go:666-682 | A pass takes the shortest numeral of a number to the shortest numeral of the next one |
| Digits.Decompose | drs-verify/pkg/resolver/did.go:684-692 | A digit list is its leading zeros and the shortest numeral of its value |
| Base58.IndexOfMeaning | drs-verify/pkg/resolver/did.go:657-664 | The index of a character is that of the symbol in the alphabet, and -1 exactly outside it |
| Base58.BuildLookup | drs-verify/pkg/resolver/did.go:657-664 | The 256-entry table inverts the alphabet |
| Base58.DecodeInteger | drs-verify/pkg/resolver/did.go:666-682 | The first bad character is told apart by its code, else the buffer is the base-256 numeral of the number |
| Base58.PrependZeros | drs-verify/pkg/resolver/did.go:684-690 | One zero byte in front for each leading 1 |
| Base58.Base58Decode | drs-verify/pkg/resolver/did.go:654-693 | The decoder meets its specification on every string |
| Base58.FaultExactly | drs-verify/pkg/resolver/did.go:668-672 | The table is indexed past its end exactly when the first character outside the alphabet has code 256 or above; below that it is reported |
| Base58.EncodeBigInteger | examples/drs-expense-agent/src/keys.ts:62-82 | The big-integer encoder meets its specification on every byte string |
| Base58.EncodeDigitArray | drs-sdk/src/cli/commands/keygen.ts:50-72 | The digit-array encoder agrees on every input with a nonzero byte and writes one extra 1 on all others |
| Base58.DecodeEncode | drs-verify/pkg/resolver/did.go:654-693 | Decoding undoes encoding on every byte string |
| Base58.EncodeDecode | drs-verify/pkg/resolver/did.go:654-693 | Encoding undoes decoding on every alphabet string |
| Base58.DecodeInjective | drs-verify/pkg/resolver/did.go:654-693 | No two strings decode to the same bytes |
| Base58.ResolveDidKey | drs-verify/pkg/resolver/did.go:394-426 | Prefix, decoding, length and key type are checked in this order; the key is what follows the two type bytes |
| Base58.TableOverrunExactly | drs-verify/pkg/resolver/did.go:394-411 | Resolving overruns the table exactly on a `did:key` with such a character |
| Base58.TableOverrunExample | drs-verify/pkg/resolver/did.go:394-411 | One such identifier |
| Base58.KeyErrors | drs-verify/pkg/resolver/did.go:404-426 | An identifier that encodes bytes fails with their number when that is not 34, with the first two when they are not 0xed and 0x01, and resolves to the rest otherwise |
| Base58.OtherKeyErrors | drs-verify/pkg/resolver/did.go:394-411 | It is of another method exactly without the prefix, and undecodable exactly when what follows encodes no byte string |
| Base58.PublicKeyToDidKey | examples/drs-expense-agent/src/keys.ts:47-53 | Both issuers print the same identifier for a key |
| Base58.DidKeyRoundTrip | drs-verify/pkg/resolver/did.go:394-426 | A string resolves to a key exactly when it is the identifier printed for that 32-byte key: no second spelling |
| Utf16.CompareKeysByCodePoint | drs-sdk/src/sdk/jcs.ts:36-47 | The loop's sign is the code-point order of the two keys, and zero only for equal keys |
| Utf16.KeyOrderIsTotal | drs-sdk/src/sdk/jcs.ts:36-47 | The comparator's order is a strict total order on all keys, well formed or not |
| Utf16.OrdersAgreeWithoutSurrogates | drs-sdk/src/sdk/jcs.ts:28-47 | On surrogate-free keys it is the code-unit order of RFC 8785 |
| Utf16.OrdersAgreeExactly | drs-sdk/src/sdk/jcs.ts:28-47 | On any two keys with a first difference the two orders agree exactly when half of a pair does not meet a greater unpaired unit there |
| Utf16.OrdersAgreeOnPrefixes | drs-sdk/src/sdk/jcs.ts:46-46 | A key that is the beginning of another comes first in both orders |
| Utf16.InversionsInWellFormedText | drs-sdk/src/sdk/jcs.ts:28-47 | In well-formed text an inversion is a surrogate meeting a unit from U+E000 up |
| Jcs.SucceedsExactly | drs-sdk/src/sdk/jcs.ts:49-74 | Serialisation succeeds exactly on values nested within 128 levels without non-finite numbers, absent members aside |
| Jcs.SortedForm | drs-sdk/src/sdk/jcs.ts:65-70 | The printed members are those that are not undefined, ascending, with the meaning of the original ones |
| Jcs.SortIsUnique | drs-sdk/src/sdk/jcs.ts:68-70 | Any correct sort gives the same list |
| Jcs.SameMeaningSameText | drs-sdk/src/sdk/jcs.ts:49-74 | Values that are equal up to key order serialise alike, errors included |
| Jcs.ParseEscaped | drs-sdk/src/sdk/jcs.ts:59-59 | Reading an escaped string literal gives back its units, lone surrogates included |
| Jcs.ParseUndoesPrint | drs-sdk/src/sdk/jcs.ts:49-74 | The parser gives back the meaning of every printed value and leaves the text behind it |
| Jcs.ParseSerialise | drs-sdk/src/sdk/jcs.ts:49-74 | The round trip on whole texts |
| Jcs.CanonicalExactly | drs-sdk/src/sdk/jcs.ts:49-74 | Two values serialise to the same text exactly when they are equal up to key order |
| Jcs.StringText | drs-sdk/src/sdk/jcs.ts:59-59 | A string prints as quote, its units and quote: the seven units with a short escape in two units, other controls and unpaired surrogates in six with lower-case hexadecimal, all others as themselves |
| Jcs.ArrayText | drs-sdk/src/sdk/jcs.ts:60-63 | An array prints as the texts of its elements between brackets, with commas and nothing else |
| Jcs.ObjectText | drs-sdk/src/sdk/jcs.ts:64-72 | An object prints as its defined members in ascending order between braces, each as string, colon and value, with commas and nothing else |
| Jcs.LiteralText | drs-sdk/src/sdk/jcs.ts:53-58 | How null, absent elements, booleans and finite numbers print |
| CapabilityIndex.Build | drs-core/src/capability/index.rs:27-56 | The tables hold what the input calls for, longest prefix first, and lookups answer as the plain scan for every resource and tool |
| CapabilityIndex.SortLongestFirst | drs-core/src/capability/index.rs:48-49 | A permutation in falling order of length |
| CapabilityIndex.PrefixLookup | drs-core/src/capability/index.rs:78-82 | The loop finds an entry exactly when some pattern matches, and its tools are the given ones |
| CapabilityIndex.IndexRefinesScan | drs-core/src/capability/index.rs:64-92 | Lookup equals scan for any order of equal lengths, duplicates and overlaps |
| CapabilityIndex.BelowExactly | drs-core/src/capability/index.rs:60-92 | A namespace pattern matches by string prefix exactly when its segments in front of the star are a strict prefix of the name's |
| CapabilityIndex.ScanByStrings | drs-core/src/capability/index.rs:64-92 | The scan in terms of segments, for resources and for tools, is the string test of the source |
| CapabilityIndex.ConsultsLongest | drs-core/src/capability/index.rs:60-82 | The entry consulted is a longest one that matches |
| RevocationLog.ParseFormat | drs-verify/pkg/revocation/file.go:104-135 | Printing and parsing is the identity on all 64-bit indices |
| RevocationLog.LineExactly | drs-verify/pkg/revocation/file.go:98-110 | A line yields an index exactly when it is that 64-bit index in decimal digits with nothing but white space on either side |
| RevocationLog.LoadExisting | drs-verify/pkg/revocation/file.go:81-116 | The replay loop yields the indices of all lines that parse, or fails on a line of 65536 bytes |
| RevocationLog.Open | drs-verify/pkg/revocation/file.go:51-77 | A store opens with the replayed set exactly when the log can be replayed |
| RevocationLog.Store.Revoke | drs-verify/pkg/revocation/file.go:131-144 | Log, set and answer for every number of characters written and each outcome of the sync: the set changes only after a whole line and a sync |
| RevocationLog.RevokeExtendsLoad | drs-verify/pkg/revocation/file.go:81-144 | On a terminated log one append adds exactly its index to the replay |
| RevocationLog.ReplayIsExact | drs-verify/pkg/revocation/file.go:81-144 | With whole-line-or-nothing appends to a terminated log, after any sequence of revokes, failed writes and syncs, and reopens, a replay yields every acknowledged index and nothing that was not written |
| RevocationLog.JoinedLineParses | drs-verify/pkg/revocation/file.go:100-104 | An index printed behind a left-over still reads as itself exactly when the left-over is blanks and zeros |
| RevocationLog.RevokeSurvivesReplay | drs-verify/pkg/revocation/file.go:118-144 | On any log that can be replayed: after a whole append a replay succeeds and finds the index exactly when the joined line stays below the limit and a complete line has the index or the unterminated tail is harmless |
| RevocationLog.HarmlessWritesSurvive | drs-verify/pkg/revocation/file.go:81-144 | In every run, short writes included, an index written whole on a harmless tail is found by every later replay that succeeds |
| RevocationLog.RunLoadsExactly | drs-verify/pkg/revocation/file.go:81-144 | In every run the log can be replayed at the end exactly when every append found room on the last line |
| RevocationLog.AppendLoadsExactly | drs-verify/pkg/revocation/file.go:91-115 | An append, whole or short, leaves a log that can be replayed exactly when it could be before and the joined line is below the limit |
| RevocationLog.CompleteGrows | drs-verify/pkg/revocation/file.go:131-144 | No append, short or whole, ever changes a complete line |
| RevocationLog.CutNumeralReads | drs-verify/pkg/revocation/file.go:131-137 | A numeral cut short by a failed write is replayed as the index its digits spell |
| RevocationLog.CutLineSwallowsIndex | drs-verify/pkg/revocation/file.go:131-144 | After an unterminated 7, index 5 is acknowledged and lost |
| RevocationLog.FullTailClosesLog | drs-verify/pkg/revocation/file.go:91-115 | After 65535 unterminated zeros, which can be replayed, any acknowledged index makes the replay fail |

## Left out

- Base58.ResolveDidKey: the run-time panic on a character from U+0100 on is an error value here; as the end of the process it is a step of `Resolver`.
- ParallelResolve.NoDeadlock: each resolution is taken to return; `Pools.NoDeadlockAcrossPools` drops that, and has the panic of a worker as a step of `Resolver`.
- RevocationLog.ReplayIsExact: short writes are excluded; what they do is in `AppendLoadsExactly`, `RunLoadsExactly`, `HarmlessWritesSurvive` and `CutNumeralReads`.
- RevocationLog.LoadExisting: log text is valid UTF-8.
- Server.Verify: HTTP methods, body size limits and headers; an undecodable request is one outcome.
- Chain.Chain: which phrases a resolution error holds is a property of the error that comes from outside, and a header that is not EdDSA is folded into the outcome of the signature function; a panic while resolving is not an answer of the verifier (see `BlockC`). Stored receipts, timestamps and warnings are not part of the context.
- Replay.AcceptanceBound: asks for a clock between 1970 and 300 seconds before the end of its 64-bit range.
- Resolver.Tables.Lookup: the order in which the caches evict is not modelled; any entry may be forgotten at any time.
- StatusCache.Cache.IsRevoked: HTTP status, transport errors and body reading are one failed or completed fetch.
- Jcs.ParseUndoesPrint: number tokens are those of the platform; that distinct finite numbers print distinct tokens is not part of this model, nor are arrays with holes.
- Ed25519 curve arithmetic, SHA-256, X.509, ASN.1 and time-stamp tokens: library code.
- Receipt store, anchoring, the comparison behind body binding, metrics, logging, HTTP, TLS, configuration, rate limiting, Redis: plumbing around the modelled decisions.
- `did:web` documents, their URL rules, DNS and private-address checks: a probe succeeds with a key, fails and is recorded, or is refused without being recorded.
- Numeric argument types other than those JSON decoding produces, and binary rounding of amounts.
- The frozen Rust copy of the chain and policy verifier: it is not the normative one.
- `translatePolicy`, the command line tools and the example agent's own tools: no shared state and no invariants.
