# Verified model of the Janus gateway

Janus exposes REST endpoints to language-model clients as MCP tools. This project models its state machines and its
string and arithmetic kernels in Dafny and proves what they promise: pinning of tool definitions, URL rendering,
retries, rate limiting, cached topology reads, tool listing and calling, sessions, auditing, redaction, tool naming
and the local vault.

`dafny verify dfyconfig.toml` checks everything.

## How it is organised

| file | part of the system |
|---|---|
| `Text.dfy` | strings, their order, sorted key lists, splitting; used by all others |
| `Json.dfy`, `JsonLayout.dfy`, `ToolIntegrity.dfy` | JSON values, decoder, canonical printer, the texts of a value, definition hashes |
| `TtlCache.dfy`, `Store.dfy`, `VersionHistory.dfy`, `Staleness.dfy` | the cache, the store over it in serial runs, version and pin history, and reads under interleaving over several replicas |
| `RateLimiter.dfy`, `SweeperLimit.dfy` | token buckets and the idle sweeper |
| `PathTemplate.dfy`, `DotSegments.dfy`, `QueryParts.dfy`, `Retry.dfy` | path and query rendering, the retry loop |
| `Luhn.dfy`, `Redaction.dfy` | card numbers, masking of arguments and results |
| `ToolNames.dfy` | the OpenAPI importer's naming loop and parameter merge |
| `Auth.dfy`, `McpTools.dfy` | scopes and identities; listing, resolution, gates, pinning |
| `McpSessions.dfy`, `McpAudit.dfy`, `McpServer.dfy`, `McpPinning.dfy` | sessions and audit pipeline as interleaved steps; one `tools/call` from end to end; what strict pinning lets run |
| `Vault.dfy` | the vault file: sealing, migration, restarts, failing writes |

Code that changes state step by step is a class or a method with a loop, and its contract ties the new state to a
function of the old one; the laws are lemmas about those functions. The table and the cache are `Store.DB` and
`TtlCache.TTLCache`, the limiter `RateLimiter.IpRateLimiter`, the session table `McpSessions.SessionTable`, the audit
queue `McpAudit.Pipeline`, the redactor `Redaction.Redactor`, the vault `Vault.LocalVault`. Concurrency is a state
machine whose runs are all sequences of steps; `McpSessions.Transports` and `McpAudit.Handlers` take each step through
the session table and the audit pipeline.

Idealisations, each stated where it is used: SHA-256 is a constructor, so two digests are equal exactly when their
preimages are; a float64 is the text Go prints for it, through a map from literals to texts that is stable under
itself; AES-GCM is any cipher that opens what it sealed and nothing else (`Vault.SoundExists` shows there is one);
a regular expression is the list of matches it reports; random choices, clocks and failures are arguments.

## What the code does not meet

Some promises of the repository hold only under a condition. Each has a lemma with the exact condition.

- The path loop is order-independent exactly when no parameter name spans slots: a parameter called `a}}{{b` matches
  two adjacent slots if it happens to be visited first (`PathTemplate.ConfluentExactly`, `PathTemplate.SpansExample`).
- The backoff schedule holds exactly for the retries `Retry.OnSchedule` describes. Retry 38 is the first off it: the
  64-bit product wraps, and the wait is not positive (`Retry.BackoffExact`, `Retry.FirstOffSchedule`). The bound of
  three seconds always holds.
- A retry limit of 2^63-1 wraps to a negative number of attempts; an idempotent call is then never sent and returns
  neither a response nor an error (`Retry.NeitherExactly`).
- Importer names are pairwise distinct exactly when no base equals the numbered form a repeated base takes; `a, a, a_2`
  gives `a, a_2, a_2` (`ToolNames.DistinctExactly`, `ToolNames.ClashExample`).
- The stored hash covers the bare tool name and strict pinning compares it under the exposed one, so strict pinning
  refuses every saved tool of a connection with a tool prefix (`McpTools.PinAgreesExactly`).
- The first tool listed under a name is the one a call reaches, or there is neither, exactly when no endpoint is exposed
  in scope under that name with the prefix `admin_` (`McpTools.ListCallExactly`). Such an endpoint is listed and never
  called: under most names nothing answers, and under the name of a built-in tool an admin is shown the endpoint first
  and calls the built-in one (`McpTools.ShadowExample`).
- A write is visible to all later reads of its own replica exactly when no reader there was holding an older result
  at the purge; otherwise that result goes back into the cache for a full ttl (`Staleness.ReadYourWrites`,
  `Staleness.StaleFill`).
- A session keeps the identity fixed when it was opened. A request on it runs as the credentials in force would have it
  exactly when they resolve its token as they did then (`McpSessions.SessionCurrentExactly`); a session opened with a
  token since revoked still runs as an admin (`McpSessions.RevokedStillAdmin`).
- Results are redacted, error texts are not. Two answers that differ only in what redaction masks are told apart, by the
  client or in the audit queue, exactly when they are different errors (`McpServer.DisclosedExactly`,
  `McpServer.HandledAlikeExactly`); `McpServer.ErrorTextShows` gives two.
- The pin check and the call read the store separately, and through the caches. What strict pinning lets run has the
  approved definition exactly when the endpoint the call finds is still defined as the one the check found
  (`McpPinning.StrictRunsExactly`). In one process whose caches agree with the tables that is so if no write succeeds
  around the reads (`McpPinning.StrictRunsApproved`). A save in between (`McpPinning.StrictRace`), a row altered in
  between without its hash (`McpPinning.StrictRaceTampered`), or, with no write in between at all, a check served from a
  stale cache and a call that queries (`McpPinning.StaleCheck`) makes it run another definition.
- A panic inside the downstream call or the admin handler leaves the in-flight counter raised for good and the call
  without an audit entry; the counter is the number of calls in flight exactly when none panicked
  (`McpAudit.ActiveIsInFlight`, `McpAudit.PanickedForever`). `SetSecret` on a nil map, below, is such a panic.
- A vault opened on the JSON document `null` panics on `SetSecret` ever after (`Vault.PanicsExactly`).
- The vault file is not written atomically. A torn write makes later openings fail, except that one torn before anything
  is written leaves a file that opens as an empty vault and reports nothing (`Vault.TornExactly`). Every opening that
  succeeds finds the last complete save exactly when no write left the file empty over secrets
  (`Vault.OpeningsFindLastExactly`), and a failed migration keeps the secrets exactly when its write was not torn
  (`Vault.MigrationKeepsSecrets`).
- A value cannot add a path segment or start a query, but `.` and `..` are not escaped: a rendered segment is a dot
  segment exactly when the values as they are make it one (`DotSegments.DotSegmentsExactly`). Nor are `&` and `=`: the
  query of a template keeps its parameters apart exactly when no value that fills one of its slots contains an ampersand
  (`QueryParts.QueryKeptExactly`, `QueryParts.AddedParameter`).
- The sweeper is unobservable only where rate * ttl covers the burst (`SweeperLimit.SweepsUnobservableExactly`); the
  configured values do.

Where the code and its comments differ (the backoff comment, the vault's "never loses secrets"), the model follows the
code.

## Model

| member | source | states |
|---|---|---|
| Json.PrintParse | pkg/toolintegrity/integrity.go:91-133 | decoding the canonical text of any value within the nesting limit, followed by anything that cannot extend it, gives that value and leaves exactly the rest |
| Json.RoundTrip | pkg/toolintegrity/integrity.go:77-133 | the canonical text of a decodable value decodes to that value |
| Json.QuoteUnambiguous | pkg/toolintegrity/integrity.go:128-133 | quoted strings are self-delimiting: equal texts that start with two quoted strings start with the same one |
| Json.ParsedIsDecodable | pkg/toolintegrity/integrity.go:77-86 | every value the decoder produces is one the printer round trip covers |
| JsonLayout.DocumentReads | pkg/toolintegrity/integrity.go:77-81 | every text of a value decodes to that value: white space, member order at every depth, repeated names, number literals and escapes included |
| JsonLayout.DocumentExactly | pkg/toolintegrity/integrity.go:77-81 | the decoder accepts a text as a value if and only if the text lays out that value |
| JsonLayout.MemberOrderIrrelevant | pkg/toolintegrity/integrity.go:93-98 | the same members in another order, names distinct, mean the same object |
| Json.WriteCanonical | pkg/toolintegrity/integrity.go:91-126 | the recursive writer appends exactly the canonical text, whatever order the maps are iterated in |
| Json.WriteJSONScalar | pkg/toolintegrity/integrity.go:128-133 | a scalar is appended as its JSON text |
| ToolIntegrity.Canonicalize | pkg/toolintegrity/integrity.go:77-86 | a schema that decodes becomes the canonical text of its value, any other stays as it is |
| ToolIntegrity.CanonicalKeepsMeaning | pkg/toolintegrity/integrity.go:77-133 | canonicalizing a schema never changes what it decodes to, nor whether it decodes |
| ToolIntegrity.CanonicalExact | pkg/toolintegrity/integrity.go:77-133 | two schemas canonicalize alike if and only if they decode to the same value, or neither decodes and they are identical |
| ToolIntegrity.CanonicalIdempotent | pkg/toolintegrity/integrity.go:77-133 | canonicalizing twice is canonicalizing once |
| ToolIntegrity.KeyOrderIrrelevant | pkg/toolintegrity/integrity.go:42-45 | however a value is laid out, with members in any order at every depth, any white space between tokens, any number literals and escapes, its text canonicalizes to the canonical text of the value |
| ToolIntegrity.ComputeHash | pkg/toolintegrity/integrity.go:46-60 | the computed hash is the digest of the labelled fields with the canonical schema |
| ToolIntegrity.HashExact | pkg/toolintegrity/integrity.go:46-60 | two definitions hash alike if and only if all four text fields are equal and the schemas mean the same |
| ToolIntegrity.PinDetectsExactly | pkg/toolintegrity/integrity.go:65-70 | a pin reports exactly the definitions that differ from the approved one; an empty pin reports none |
| TtlCache.TTLCache.Get | pkg/cache/cache.go:39-51 | answers the stored value until its deadline has passed, nothing if absent or the cache is disabled |
| TtlCache.TTLCache.Set | pkg/cache/cache.go:54-62 | stores the value with its deadline; a disabled cache stays as it was |
| TtlCache.TTLCache.EvictExpired | pkg/cache/cache.go:84-93 | the janitor keeps exactly the entries whose deadline has not passed |
| TtlCache.TTLCache.Delete | pkg/cache/cache.go:96-103 | from then on the key is a miss at any time and every other key is answered as before |
| TtlCache.TTLCache.Purge | pkg/cache/cache.go:106-113 | empties the cache |
| TtlCache.SweepInvisible | pkg/cache/cache.go:84-93 | a janitor pass changes no later answer |
| Store.FindUpsert | pkg/storage/db.go:303-326 | after an upsert a row is the new one under its id and the old one under any other |
| Store.WrittenConsistent | pkg/storage/db.go:303-334 | every successful write keeps ids unique in both tables |
| Store.WrittenDoes | pkg/storage/db.go:303-458 | told by the rows before and after, a save puts exactly its row under its id and a delete takes out exactly the row of its id, a connection with the cascade exactly its endpoints too; every other row stays |
| Store.DeletedFind | pkg/storage/db.go:328-458 | after a delete nothing is found under the id, nor, with the cascade, any endpoint of the connection; every other id is found as before |
| Store.UpsertInPlace | pkg/storage/db.go:303-326 | an upsert keeps rows where they are and puts a new one last |
| Store.StepCoherent | pkg/storage/db.go:57-60 | every call keeps each cache equal to the table it stands for |
| Store.SerialTransparency | pkg/storage/db.go:263-458 | over every serial run of saves, deletes, failures, reads, clock ticks and sweeps, each answer is the uncached one; only where the uncached query fails may a cached read succeed, with the table of that moment |
| Store.DB.InvalidateCaches | pkg/storage/db.go:57-60 | both caches end up empty |
| Store.DB.GetConnections | pkg/storage/db.go:263-289 | the cached read is the step of the run semantics, returns the current table, fails exactly if the query does and nothing is cached, and leaves the table cached |
| Store.DB.GetAllEndpoints | pkg/storage/db.go:359-383 | the same for endpoints |
| Store.DB.SaveConnection | pkg/storage/db.go:303-326 | a successful save puts exactly this row under its id, leaves every other connection and all endpoints alone and empties both caches; a failed one changes nothing |
| Store.DB.DeleteConnection | pkg/storage/db.go:328-334 | exactly the connection's row goes and, where the database cascades, exactly its endpoints, all others staying in order; a failed delete changes nothing |
| Store.DB.SaveEndpoint | pkg/storage/db.go:402-450 | the saved row has every column as given, the hash of its own definition, and version 1 or one more than the row before exactly if the hash differs; failures at either statement change nothing |
| Store.DB.DeleteEndpoint | pkg/storage/db.go:452-458 | exactly the row of the id goes, all others staying in order, and the caches are emptied; a failed delete changes nothing |
| VersionHistory.StepRow | pkg/storage/db.go:402-458 | one call records the row being saved, removes the row it deletes (with its connection where the database cascades), and keeps the row of every other id |
| VersionHistory.RowStep | pkg/storage/db.go:402-450 | a save raises the version by one exactly when its hash differs from the stored one |
| VersionHistory.UnbrokenHistory | pkg/storage/db.go:402-450 | while a row is never deleted its version is its first version plus the number of saves whose hash differed from the one then stored (a legacy empty hash differs), and its hash is the last saved |
| VersionHistory.RunHistory | pkg/storage/db.go:402-458 | the same over every serial run with deletions, counted from the last time the row came into being, where a created row has version 1 |
| VersionHistory.PinsStaySound | pkg/storage/db.go:402-450 | rows that are unpinned or pin their own fields stay so through every serial run; from an empty table every stored row pins itself |
| Staleness.BoundedStaleness | pkg/storage/db.go:263-289 | under every interleaving of readers, writers, janitors and clock on any number of replicas, each read at time t is the table at some instant in [t - ttl - q, t], q being the longest time from a query to its fill |
| Staleness.ReadYourWrites | pkg/storage/db.go:57-60 | after a purge all later reads of the replica see that version or a newer one if and only if no reader of it held an older result |
| Staleness.StaleFill | pkg/cache/cache.go:54-62 | otherwise the older result is returned again, for up to the full ttl, by reads begun after the purge |
| RateLimiter.IpRateLimiter.Allow | main.go:347-366 | one call updates one bucket as the token arithmetic says and touches no other |
| RateLimiter.IpRateLimiter.Evict | main.go:388-397 | the sweep removes exactly the buckets idle since before the cutoff |
| RateLimiter.LevelIsTightest | main.go:347-366 | the tokens a call finds are the least that any window ending there has left of burst + rate * length |
| RateLimiter.LimiterExact | main.go:347-366 | a call is refused if and only if, from the instant of some call of the client on, the calls admitted plus this one exceed burst + rate * length |
| RateLimiter.WindowBound | main.go:347-366 | no window of time admits more than burst + rate * length |
| RateLimiter.ClientsIndependent | main.go:347-399 | under any mix of clients and sweeps each client is answered as if it were alone and nothing were swept |
| RateLimiter.SweepsUnobservable | main.go:384-399 | when rate * ttl covers the burst, leaving out all sweeps changes no answer |
| RateLimiter.ProductionUnobservable | main.go:368-379 | the configured 50 per second, burst 100 and ten minutes satisfy that condition |
| SweeperLimit.SweepsUnobservableExactly | main.go:384-399 | over all runs no sweep changes an answer if and only if rate * ttl covers the burst |
| PathTemplate.EscapeIsSafe | pkg/gateway/client.go:205-205 | an escaped value contains no brace, slash, question mark or hash |
| PathTemplate.EscapeInjective | pkg/gateway/client.go:205-205 | different values stay different when escaped |
| PathTemplate.RenderIsSubst | pkg/gateway/client.go:202-206 | the chain of replacements is one simultaneous substitution of the parameters visited |
| PathTemplate.Confluent | pkg/gateway/client.go:202-206 | every iteration order renders the same text: each slot filled with its own escaped value, unknown slots untouched |
| PathTemplate.RenderPath | pkg/gateway/client.go:202-206 | the loop computes that text over whatever order the map gives |
| PathTemplate.ConfluentExactly | pkg/gateway/client.go:202-206 | rendering is that substitution for every template, order and values if and only if no parameter name spans slots |
| PathTemplate.SpanBreaks | pkg/gateway/client.go:202-206 | a name that spans slots breaks it on some template, order and values |
| PathTemplate.SpansExample | pkg/gateway/client.go:204-205 | the name `a}}{{b` spans slots |
| PathTemplate.PlaceholderIsSlot | pkg/gateway/client.go:226-228 | the text test for a placeholder finds it exactly when the template has that slot |
| PathTemplate.AppendQuery | pkg/gateway/client.go:219-231 | the query has each parameter without a placeholder in the path set to its one value, and everything else as it was |
| PathTemplate.PathOrQuery | pkg/gateway/client.go:202-231 | every parameter of a GET fills its slots or is set in the query, exactly one of the two |
| PathTemplate.StructurePreserved | pkg/gateway/client.go:202-206 | split at `/`, `?` or `#`, the rendered path has exactly the template's parts, each rendered on its own |
| DotSegments.EscapeDots | pkg/gateway/client.go:205-205 | an escaped value consists of dots exactly when the value does, and is then the value itself |
| DotSegments.DotSegmentsExactly | pkg/gateway/client.go:199-206 | a segment of the rendered path is `.` or `..` if and only if the unescaped values, put into that segment of the template, make it so |
| DotSegments.DotValue | pkg/gateway/client.go:199-206 | a segment that is one slot becomes a dot segment exactly for the values `.` and `..` |
| QueryParts.EscapeHas | pkg/gateway/client.go:205-205 | `&`, `=`, `+`, `$`, `:` and `@` are in an escaped value exactly when they are in the value |
| QueryParts.EscapedIsSegment | pkg/gateway/client.go:205-205 | an escaped value is a path segment of RFC 3986, section 3.3: its characters and percent triplets |
| QueryParts.EscapeKeepsExactly | pkg/gateway/client.go:205-205 | a value is its own escaped form if and only if it has only unreserved characters and those six; any other gets longer |
| QueryParts.EscapeExample | pkg/gateway/client.go:205-205 | a euro sign becomes the upper-case triplets of its three UTF-8 bytes |
| QueryParts.PartsKeptExactly | pkg/gateway/client.go:202-206 | cut at such a character the rendered text has exactly the template's parts, each rendered on its own, if and only if no value that fills a slot contains it |
| QueryParts.QueryKeptExactly | pkg/gateway/client.go:202-206 | the query of a template keeps its parameters apart if and only if no value that fills one of its slots contains an ampersand |
| QueryParts.AddedParameter | pkg/gateway/client.go:202-206 | a value with an ampersand in the slot of a query adds a parameter |
| Retry.BackoffExact | pkg/gateway/client.go:367-370 | in 64-bit arithmetic the wait is the documented schedule if and only if the condition on the retry number holds; off it the wait is not positive |
| Retry.FirstRetriesOnSchedule | pkg/gateway/client.go:367-370 | retries 1 to 37 are on schedule |
| Retry.FirstOffSchedule | pkg/gateway/client.go:367-370 | retry 38 is off it: its wait is not positive where the schedule says two seconds |
| Retry.WaitBounded | pkg/gateway/client.go:367-374 | with jitter every wait is at most three seconds and, on schedule, at least half the documented one |
| Retry.DoWithRetry | pkg/gateway/client.go:357-411 | the loop's result and number of requests are those of its recursive specification |
| Retry.StopsAtFirst | pkg/gateway/client.go:357-411 | the first attempt that is not retryable decides the result, and nothing is sent after it |
| Retry.AllUsedUp | pkg/gateway/client.go:357-411 | if every attempt fails retryably all are used and the last error is returned |
| Retry.AttemptsBounded | pkg/gateway/client.go:345-411 | a method that is not idempotent is sent exactly once, an idempotent one at most maxRetries + 1 times, and a response is the one the last request met |
| Retry.ResentExactly | pkg/gateway/client.go:345-411 | request n + 1 goes out if and only if the verb is GET, HEAD or OPTIONS, n retries are allowed, each of the first n attempts met a transport error, a broken body or a status of at least 500, and no wait was cancelled |
| Retry.ResultExactly | pkg/gateway/client.go:357-411 | the result is the cancellation of the wait after the last request, or what that request met |
| Retry.FinalServerError | pkg/gateway/client.go:402-408 | a 5xx on the last attempt is returned as a response |
| Retry.NeitherExactly | pkg/gateway/client.go:357-411 | the result is neither response nor error if and only if the retry limit is the largest 64-bit integer and the method idempotent |
| Luhn.LuhnValid | pkg/redaction/patterns.go:53-70 | for a string of ASCII digits, which is what it demands of its callers, the loop decides whether the weighted sum from the right is divisible by ten |
| Luhn.IsValidCreditCard | pkg/redaction/patterns.go:76-87 | accepts exactly 13 to 19 digits with a valid checksum, after removing spaces and dashes |
| Luhn.SingleErrorDetected | pkg/redaction/patterns.go:55-70 | changing any one digit of a valid number makes it invalid |
| Luhn.TranspositionDetected | pkg/redaction/patterns.go:55-70 | swapping two adjacent distinct digits of a valid number keeps it valid if and only if they are 0 and 9 |
| Luhn.CheckDigitUnique | pkg/redaction/patterns.go:55-70 | every prefix has exactly one digit that completes it |
| Luhn.GroupingIrrelevant | pkg/redaction/patterns.go:76-87 | a separator put in anywhere does not change what is a card number |
| Luhn.CardErrorDetected | pkg/redaction/patterns.go:76-87 | a mistyped digit is caught in the grouped text too |
| Redaction.ApplyRule | pkg/redaction/redaction.go:142-178 | the loop returns the text with the accepted matches replaced, and their number |
| Redaction.MaskedExactly | pkg/redaction/redaction.go:142-178 | cut at the accepted spans, the text keeps everything between them in order and has each span replaced once, by its tag or by its first group and the rule's suffix |
| Redaction.AcceptedExactly | pkg/redaction/redaction.go:152-161 | of ordered, non-overlapping matches exactly the validated ones are accepted |
| Redaction.CleanInOrder | pkg/redaction/redaction.go:86-95 | a list of rules masks and counts what its front part does and then its rear part on the result |
| Redaction.CleanOne | pkg/redaction/redaction.go:86-95 | one rule alone masks and counts as that rule does, no rule leaves the text |
| Redaction.FindingsFromCounts | pkg/redaction/redaction.go:182-198 | the findings are the tally's classes in sorted order with their counts |
| Redaction.FindingsReport | pkg/redaction/redaction.go:182-198 | such findings report exactly the tally: strictly sorted, only positive counts, no class missing |
| Redaction.ReportSum | pkg/redaction/redaction.go:117-120 | adding a report up class by class gives the tally back |
| Redaction.Redactor.MaskAll | pkg/redaction/redaction.go:86-95 | the rules run in order, each on what the earlier ones left, and the tally counts their accepted spans per class |
| Redaction.Redactor.RedactBytes | pkg/redaction/redaction.go:81-98 | returns the masked text and a report of exactly what was masked; a disabled redactor changes and reports nothing |
| Redaction.Redactor.RedactValue | pkg/redaction/redaction.go:114-137 | returns the masked copy of a value and adds its totals to the shared tally |
| Redaction.Redactor.RedactMap | pkg/redaction/redaction.go:105-109 | returns the masked copy of a map and a report of its totals |
| Redaction.LeafByLeaf | pkg/redaction/redaction.go:114-137 | along every path the masked value has the same shape, keys and non-string leaves, and each string leaf is masked on its own |
| Redaction.RedactedExactly | pkg/redaction/redaction.go:114-137 | a value is the masked copy if and only if along every path it has the same shape and each text masked |
| Redaction.MaskedAlikeExactly | pkg/redaction/redaction.go:114-137 | two values are masked alike if and only if along every path they differ in nothing but what masking takes out of texts |
| Redaction.TotalOverLeaves | pkg/redaction/redaction.go:105-137 | each class total is the sum over all string leaves of what the rules mask there |
| Redaction.CardsExactly | pkg/redaction/patterns.go:76-87 | of its candidates the card rule masks exactly the card numbers |
| ToolNames.DecimalRoundTrip | pkg/openapiimport/parser.go:404-404 | a number can be read back from its decimal text |
| ToolNames.NumberedInjective | pkg/openapiimport/parser.go:398-405 | a numbered name determines its base and its number |
| ToolNames.NameCounts.UniqueName | pkg/openapiimport/parser.go:398-405 | the k-th use of a base gets the base for k = 1 and base_k after that |
| ToolNames.DistinctExactly | pkg/openapiimport/parser.go:398-405 | the names of a list are pairwise distinct if and only if no base in it is the numbered form of a repeated one |
| ToolNames.ClashExample | pkg/openapiimport/parser.go:398-405 | bases a, a, a_2 get names a, a_2, a_2 |
| ToolNames.SanitizeIsJoin | pkg/openapiimport/parser.go:380-384 | a sanitized name is the alphanumeric words of the lowercased text joined by single underscores |
| ToolNames.SanitizeExactly | pkg/openapiimport/parser.go:380-384 | two texts get one sanitized name if and only if they have the same words; sanitizing again changes nothing |
| ToolNames.BaseNotEmpty | pkg/openapiimport/parser.go:389-394 | a tool-name base is never empty |
| ToolNames.BaseExactly | pkg/openapiimport/parser.go:389-394 | an operation id with a word in it gives its lowercased words, joined; any other those of the method and the path |
| ToolNames.DocumentExactly | pkg/openapiimport/parser.go:100-145 | the operations named are exactly those of the document, each once, by path and under one path by method |
| ToolNames.NameTools | pkg/openapiimport/parser.go:100-145 | the naming loop names the document's operations in path order and method order, independently of map iteration |
| ToolNames.NamePath | pkg/openapiimport/parser.go:119-144 | one path item adds its operations in the fixed method order, each under its unique name |
| ToolNames.MergeParameters | pkg/openapiimport/parser.go:202-222 | an operation's parameter replaces the last of the path's with its key, in its place, and the others follow in order of first use; the last entry of each key stands and no new duplicates arise |
| ToolNames.MergeDetermined | pkg/openapiimport/parser.go:202-222 | that leaves exactly one merged list |
| ToolNames.KeyExactly | pkg/openapiimport/parser.go:203-203 | the joined key identifies location and name |
| ToolNames.DedupeSorted | pkg/openapiimport/parser.go:313-324 | every name once, in sorted order |
| Auth.ParseScopes | pkg/mcp/server.go:365-369 | the stored list becomes its trimmed, non-empty parts |
| Auth.ScopesRoundTrip | pkg/mcp/server.go:365-369 | scopes stored as a comma-separated list are read back as they were |
| Auth.KeptClean | pkg/mcp/server.go:365-369 | no parsed scope is empty or has space around it |
| Auth.TrimExact | pkg/mcp/server.go:366-367 | trimming takes off exactly the space around a text |
| Auth.MatchScope | pkg/mcp/server.go:276-292 | true exactly when some scope equals the name or is a starred prefix of it |
| Auth.ScopeExactly | pkg/mcp/server.go:276-292 | a scope ending in a star matches exactly what begins with the rest of it, any other only itself |
| Auth.ResolveAuth | pkg/mcp/server.go:360-382 | the gateway token is the admin with every scope; any other that is an enabled client's has the name, role and stored scopes of its row; an OAuth token is a plain user with the scopes of its claims; nothing else resolves |
| Auth.ResolvedExactly | pkg/mcp/server.go:360-382 | the same of the identity that sessions and dispatches are granted |
| Auth.AdminOnlyProvisioned | pkg/mcp/server.go:360-382 | no OAuth setting ever grants or takes away the admin role |
| McpTools.ListTools | pkg/mcp/server.go:683-791 | told by the rows: the list shows, in their order and each once, exactly the endpoints whose connection's last row is enabled and whose prefixed name is in scope, then for an admin the built-in tools in scope |
| McpTools.ListEndpoints | pkg/mcp/server.go:700-733 | the same for the endpoint part |
| McpTools.FindEndpoint | pkg/mcp/server.go:797-829 | nothing if no endpoint's connection has a last row that is enabled and gives this prefixed name, and otherwise the first endpoint of which that is so, with that row |
| McpTools.ConnMapRow | pkg/mcp/server.go:694-697 | of the rows with one id the last stands for it |
| McpTools.FoundExactly | pkg/mcp/server.go:797-829 | a name finds the first endpoint that answers to it by the rows, and none if and only if none does |
| McpTools.ToolShows | pkg/mcp/server.go:700-733 | each field of a listed tool by its row: the prefixed name, the description, the schema if it decodes into an object or null and otherwise an empty one, hash and version if there are any |
| McpTools.ListedExactly | pkg/mcp/server.go:683-791 | every list is what the rows say for the role and scopes, whatever they are |
| McpTools.ClientGate | pkg/mcp/server.go:360-619 | a client token passes the gates for a tool outside the admin namespace if and only if one of the scopes stored with it matches the tool |
| McpTools.CheckGates | pkg/mcp/server.go:612-619 | the role gate, then the scope gate |
| McpTools.CallTool | pkg/mcp/server.go:887-899 | names of the admin namespace go to the admin handler, others to the first endpoint that answers, or nowhere if none does |
| McpTools.ListedFirst | pkg/mcp/server.go:683-791 | the first tool listed under a name is the endpoint a call would find, else the built-in tool of an admin, if the scopes allow the name |
| McpTools.ListCallAgreement | pkg/mcp/server.go:612-829 | outside the admin namespace a name is listed if and only if a call to it passes both gates and resolves, and then to the first listed endpoint of that name |
| McpTools.ListCallExactly | pkg/mcp/server.go:612-899 | for any name the first tool listed under it is the one a call reaches, or there is neither, if and only if no endpoint is exposed in scope under a name of the admin namespace |
| McpTools.ListedIffCallable | pkg/mcp/server.go:612-899 | whether anything is listed and whether anything can be called agree if and only if no such endpoint stands where the client can call no built-in tool |
| McpTools.ShadowExample | pkg/mcp/server.go:700-733 | an endpoint under the name of a built-in tool is listed first to an admin, who reaches the built-in tool; under another admin name it is listed and nothing is reached |
| McpTools.AdminToolsAgree | pkg/mcp/server.go:612-791 | whatever endpoints there are, a built-in tool is listed if and only if a call to it passes both gates, and then the call reaches it |
| McpTools.AdminReachedOnlyByAdmin | pkg/mcp/server.go:612-615 | past the gates the admin handler is reached only under role admin |
| McpTools.ScopesOnlyAdd | pkg/mcp/server.go:683-791 | more scopes never remove or reorder tools nor close a gate |
| McpTools.ToolDefinitionChanged | pkg/mcp/server.go:838-857 | the check reports exactly the endpoint-backed tools whose pinned hash differs from that of the live definition |
| McpTools.PinAgreesExactly | pkg/mcp/server.go:838-857 | a row as it was saved is reported changed if and only if its connection has a tool prefix |
| McpTools.SavedNeverChanged | pkg/mcp/server.go:838-857 | after any serial run from rows that were unpinned or pinned themselves, no tool of a connection without prefix is reported changed |
| McpTools.TamperingDetected | pkg/mcp/server.go:838-857 | a row altered after approval is reported exactly when its behaviour-relevant content differs |
| McpSessions.SessionTable.Register | pkg/mcp/server.go:463-470 | a session is added unless the table is full |
| McpSessions.Transports.Connect | pkg/mcp/server.go:419-427 | authentication grants a stream the identity its token has then, or refuses it |
| McpSessions.Transports.Register | pkg/mcp/server.go:447-470 | the stream enters the session table, or ends if the table is full |
| McpSessions.Transports.Disconnect | pkg/mcp/server.go:472-476 | the end of a stream takes its own session, and no other, out of the table |
| McpSessions.Transports.Post | pkg/mcp/server.go:522-536 | a post gets the session of its id, or is refused if there is none |
| McpSessions.Transports.Deliver | pkg/mcp/server.go:538-561 | a post is dispatched as the session's owner if and only if it carries the token that opened the session |
| McpSessions.Transports.Streamable | pkg/mcp/server.go:389-416 | a stateless request runs as its token resolves at that moment |
| McpSessions.StepKeepsSafe | pkg/mcp/server.go:389-574 | every step of every handler keeps the session invariant |
| McpSessions.SessionSafety | pkg/mcp/server.go:419-574 | in every run the table stays within its limit, and every request handled on a session carries the token that opened it and runs with the identity, role and scopes fixed at opening |
| McpSessions.SessionCurrentExactly | pkg/mcp/server.go:360-574 | in every run a request on a session runs as the credentials in force would have it if and only if they resolve its token as they did when the stream was opened |
| McpSessions.SessionOutlives | pkg/mcp/server.go:419-574 | whatever becomes of a good token, a session opened with it still runs requests as before |
| McpSessions.RevokedStillAdmin | pkg/mcp/server.go:419-574 | after the gateway token is taken away, a session opened with it still runs as the admin |
| McpSessions.AdminReached | pkg/mcp/server.go:360-619 | in every run the admin handler is reached only by requests whose token was, when authenticated, the gateway's or an enabled client token with role admin |
| McpAudit.Pipeline.LogAuditAsync | pkg/mcp/server.go:243-249 | the entry is queued if there is room and dropped otherwise, without blocking |
| McpAudit.Handlers.Arrive | pkg/mcp/server.go:604-635 | a call is past the gates exactly if role, scopes and pinning let it |
| McpAudit.Handlers.Start | pkg/mcp/server.go:648-649 | entering execution takes the counter up by one |
| McpAudit.Handlers.Return | pkg/mcp/server.go:649-650 | returning takes it down by one |
| McpAudit.Handlers.Panic | pkg/mcp/server.go:648-650 | a panic leaves it where it was |
| McpAudit.Handlers.Report | pkg/mcp/server.go:661-671 | a finished call offers one entry that says whose call it was and how it ended |
| McpAudit.Handlers.Receive | pkg/mcp/server.go:207-208 | an idle worker takes the oldest entry of the queue |
| McpAudit.Handlers.Persist | pkg/mcp/server.go:220-222 | the held entry is written or fails to be, and the worker is idle again |
| McpAudit.StepKeepsAudited | pkg/mcp/server.go:604-671 | every step of handlers and worker keeps the pipeline invariant |
| McpAudit.Conservation | pkg/mcp/server.go:207-249 | over all interleavings offered = dropped + queued + held + written + failed to write |
| McpAudit.ActiveIsInFlight | pkg/mcp/server.go:648-650 | in every run the counter is the number of executions in flight plus that of the panicked ones, so it is the number in flight if and only if none panicked; the queue stays within its capacity |
| McpAudit.PanickedForever | pkg/mcp/server.go:648-671 | a panicked call never offers an entry, and the counter stays above the number in flight for good |
| McpAudit.ExactlyOneEntry | pkg/mcp/server.go:604-671 | a call that passed the gates and finished has offered exactly one entry, which says truthfully whose call it was and how it ended; any other call, a panicked one among them, has offered none |
| McpAudit.RefusedForever | pkg/mcp/server.go:612-635 | a refused call never executes or reports |
| McpAudit.PersistedInOrder | pkg/mcp/server.go:207-224 | what is written is a subsequence of what was offered, in that order |
| McpAudit.DroppedOnlyWhenFull | pkg/mcp/server.go:243-249 | a step drops an entry if and only if it reports a call while the queue is full |
| McpAudit.RoomMeansNoLoss | pkg/mcp/server.go:171-171 | if no more entries are offered than the queue holds, none is lost |
| McpServer.Server.Refuse | pkg/mcp/server.go:612-635 | role gate, scope gate and strict pinning, in that order, with their codes |
| McpServer.Server.HandleToolsCall | pkg/mcp/server.go:604-671 | only redacted arguments reach execution, the response carries the redacted result or the error text, the counter is back where it was, and exactly one truthful entry is offered; a refused call leaves everything alone, a panicked one the counter raised and no entry |
| McpServer.HandledExactly | pkg/mcp/server.go:604-671 | told by rows and paths: a request is refused exactly by the gates or strict pinning; any other has only masked arguments executed by the first endpoint that answers or the admin handler, its client gets the masked result or the error, and its one entry is marked ok if and only if the client got content and counts what was masked |
| McpServer.RefusalExactly | pkg/mcp/server.go:612-635 | each refusal with its code: role, scope, an unreadable store, a stored hash that is not that of the live definition |
| McpServer.ForwardedExactly | pkg/mcp/server.go:637-645 | only the arguments with every text masked, along every path, may be sent on for the ones given |
| McpServer.ArgumentsHidden | pkg/mcp/server.go:637-671 | two requests whose arguments differ only in what masking takes out are executed with the same arguments and get the same response, and if each class is masked equally often they leave the same counter and audit queue |
| McpServer.NothingForwarded | pkg/mcp/server.go:641-645 | with a rule that masks any text, execution gets the tag instead |
| McpServer.Server.MaskArguments | pkg/mcp/server.go:637-645 | the arguments sent on have, along every path, the same shape and each text masked, or are the same without a redactor; with a report of what was masked |
| McpServer.Server.MaskResult | pkg/mcp/server.go:653-671 | a successful result is masked before it becomes the response, an error text is not |
| McpServer.FormatFindings | pkg/mcp/server.go:229-238 | the summary is the list of class=count parts joined by commas |
| McpServer.SummaryReads | pkg/mcp/server.go:229-238 | for classes without comma and equals sign the findings can be read back from the summary |
| McpServer.SummaryCounts | pkg/mcp/server.go:226-238 | its counts add up, class by class, to what is masked in all texts of the arguments and in the result |
| McpServer.SummaryHidesValues | pkg/mcp/server.go:226-238 | the summary column of the entry is the same for calls that mask the same classes equally often, whatever the masked values were |
| McpServer.EntryDisclosesExactly | pkg/mcp/server.go:661-671 | the whole entries of such calls are equal if and only if the answers are results or the same error |
| McpServer.DisclosedExactly | pkg/mcp/server.go:653-671 | of two answers of one kind that redaction masks alike, responses are equal, and so are audit outcomes, if and only if they are results or the same error |
| McpServer.HandledAlikeExactly | pkg/mcp/server.go:604-671 | one request handled with two such answers leaves the same response, counter and audit queue if and only if they are results or the same error |
| McpServer.ErrorTextShows | pkg/mcp/server.go:661-663 | two results that a rule masks entirely are the same to the client, two errors reach it word for word |
| McpPinning.StrictRunsApproved | pkg/mcp/server.go:621-649 | in one process whose caches agree with the tables, if no write succeeds around the reads of the pin check and of the call, what strict pinning lets run downstream has the definition its pin was taken on |
| McpPinning.StrictRunsExactly | pkg/mcp/server.go:621-649 | for any two snapshots, what runs has the approved definition if and only if the endpoint found by the call is defined as the one found by the check |
| McpPinning.StrictRace | pkg/mcp/server.go:621-649 | a save between the two reads makes strict pinning run a definition other than the one checked |
| McpPinning.StrictRaceTampered | pkg/mcp/server.go:621-649 | a row altered without its hash between the reads runs although it would be reported changed |
| McpPinning.StaleCheck | pkg/mcp/server.go:797-829 | without a write between its reads a check served from a stale cache approves what the call, which queries, no longer finds |
| McpPinning.QuietReads | pkg/storage/db.go:263-289 | in a run without a successful write, from caches that agree with the tables, all reads show the same tables |
| McpServer.HandlerIsRun | pkg/mcp/server.go:604-671 | whatever `HandleToolsCall` leaves by its contract, the call's steps in the interleaved model, taken without interruption, leave the same counter and queue |
| McpServer.RefusalIsGate | pkg/mcp/server.go:612-635 | the handler refuses exactly the calls the interleaved model refuses, a store that cannot be read included |
| Vault.MarshalIndent | pkg/vault/vault.go:146-150 | writes the document of a map of secrets with sorted names, whatever the iteration order |
| Vault.DocumentReads | pkg/vault/vault.go:116-123 | decoding the document written for a map of secrets, nil included, gives it back |
| Vault.DecodesLikeJson | pkg/vault/vault.go:116-123 | what the secrets decoder accepts is the JSON object of those strings (null read as empty), or null |
| Vault.MagicIsNotJson | pkg/vault/vault.go:25-29 | no document that decodes is empty or starts with the magic header |
| Vault.SavedLoads | pkg/vault/vault.go:91-159 | a saved file loads as what was saved under the same key, and under no other key |
| Vault.WrongKeyFails | pkg/vault/vault.go:113-117 | opening with another key fails and leaves the file alone |
| Vault.OnlySealedLoads | pkg/vault/vault.go:113-144 | what loads through the encrypted path was sealed under this key |
| Vault.LocalVault.NewLocalVault | pkg/vault/vault.go:50-86 | opening refuses weak keys and unreadable files, makes an empty sealed file where there is none, migrates a plaintext one, and leaves file and secrets as the run semantics says |
| Vault.FirstOpening | pkg/vault/vault.go:69-74 | without a file an opening succeeds if and only if its write does, and then there are no secrets, the file starts with the magic header and the next opening with this key finds none |
| Vault.OpeningsExactly | pkg/vault/vault.go:50-124 | openings that write nothing: a weak key, an unreadable file and one that is no document fail, an empty and a saved file give no secrets and the saved ones |
| Vault.LocalVault.LoadFile | pkg/vault/vault.go:91-124 | empty, encrypted and plaintext files, with every failure |
| Vault.LocalVault.Save | pkg/vault/vault.go:146-159 | writes the sealed document behind the magic header and keeps the secrets |
| Vault.LocalVault.SetSecret | pkg/vault/vault.go:178-183 | memory gets the value even if the save fails; a nil map panics |
| Vault.LocalVault.DeleteSecret | pkg/vault/vault.go:196-201 | memory loses the name even if the save fails |
| Vault.LocalVault.ListSecrets | pkg/vault/vault.go:185-194 | every name once |
| Vault.StepRefines | pkg/vault/vault.go:50-201 | each operation does to memory and file what the intended map semantics says |
| Vault.RunRefines | pkg/vault/vault.go:50-201 | over every run, however its writes end, the running vault answers from the intended map and a restart finds the last complete save, an empty map, or a file that does not open |
| Vault.TornExactly | pkg/vault/vault.go:146-159 | reopening after a torn write succeeds if and only if it left the file empty, and then finds no secrets and reports nothing |
| Vault.OpeningsFindLastExactly | pkg/vault/vault.go:50-201 | at every moment of a run every opening that succeeds finds the last complete save if and only if no write left the file empty while that save held anything |
| Vault.RestartEquivalence | pkg/vault/vault.go:50-201 | after any run of successful sets, deletes and reopenings with one key, reopening gives exactly the map those requests make |
| Vault.FreshRestart | pkg/vault/vault.go:50-201 | from no file at all, after such a run a restart finds exactly what the requests made of nothing |
| Vault.LastSetSurvives | pkg/vault/vault.go:167-201 | a restarted vault answers for a name with the last value set under it and not deleted since, and otherwise with what the file first held |
| Vault.MigrationKeepsSecrets | pkg/vault/vault.go:75-84 | opening a plaintext file keeps every secret, rewrites it behind the magic header and makes the next opening take the encrypted path; if the write fails the opening does, and the file still gives its secrets if and only if the write was not torn (or emptied a file that held none) |
| Vault.NullExactly | pkg/vault/vault.go:119-123 | a document decodes into a nil map if and only if it is the JSON null |
| Vault.PanicsExactly | pkg/vault/vault.go:178-183 | started on a plaintext file, a running vault holds a nil map, on which SetSecret panics, if and only if that file held null, whatever writes failed since, unless one left the file empty |
| Vault.TornWriteLosesSilently | pkg/vault/vault.go:146-159 | a save torn before anything is written is followed by an opening without error and without secrets |

## Left out

- HTTP plumbing, TLS, CORS, SSE framing, telemetry, CLI, portal, seeding: input, output and wiring.
- SQL text and drivers: a table is a list of rows, a statement one atomic step that may fail. Two concurrent saves of one endpoint interleave their read and their write in the code; here saves are serial.
- JWT, JWKS and OIDC: an OAuth validator is the set of tokens it accepts. Client tokens are looked up by token, their hashing is not part of this model.
- The DNS and egress checks, and joining the base URL with the rendered path (`url.Parse`).
- Regular expressions: matches are an input. Masking is not claimed to be idempotent over the whole pipeline.
- Body templates: their values may contain slots, so order independence fails there.
- Imported paths use `{id}` while the client substitutes `{{id}}`; no property spans importer and client.
- `buildParametersSchema`, YAML input, auth inference and connection names of the importer.
- The response and secret caches inside `ExecuteCall`, and the text `%v` gives for a value: parameters arrive as text.
- What the admin tools do with their arguments, and the text of the built-in tool descriptions.
- `initialize`, unknown methods and undecodable call parameters.
- The stdio transport; requests without an id, which are not dispatched.
- The message column the audit worker builds out of error text and summary, and entry ids and durations.
- Floating-point rounding in the limiter (reals are used), and clocks that run backwards.
- Invalid UTF-8. Files of the vault are sequences of characters, and so is what the cipher seals: the encoding into bytes is not part of this model.
- The Postgres vault and the cloud vault stubs.
- Aliasing of nested maps and slices: JSON values are values, so a masked copy can share nothing with its input.
- Luhn.LuhnValid: takes a string of ASCII digits, as the comment at pkg/redaction/patterns.go:53 demands and its only caller guarantees.
- ToolNames.SanitizeExactly: lowercasing is any map of characters that keeps lower-case letters and digits.
