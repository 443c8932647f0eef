# MCPG control-plane core: a verified model

This project models the algorithms of the control-plane crate whose correctness is a statement about
whole runs or about all inputs, and proves those statements in Dafny 4.11. `dafny verify
dfyconfig.toml` checks everything.

| Area | Files | What is proved |
|---|---|---|
| Rate limiter | `RateLimit`, `RateLimitEviction`, `RateLimitWindow`, `RateLimitExact` | when bulk eviction of idle buckets can be noticed, exactly which requests are allowed, what any stretch of a run admits with and without a steady clock, how many addresses are tracked |
| Row-level security | `Rls`, `RlsIsolation`, `RlsRuns`, `RlsEffects` | when a statement is done and what it leaves behind, and frame, ownership, fail-closed and two-run confidentiality theorems over runs |
| Publish guard | `Json`, `GuardScan`, `TokenLayout`, `Utf8`, `LeafChecks`, `PrivateBackends`, `FlagPaths`, `UpstreamHost`, `PublishGuard`, `GuardAcceptance`, `GuardMonotone`, `SecretsDigest` | the scanners miss nothing, the truncated test is exact, which flags the walk lists and which it cannot see, the guard lists exactly what is raised and accepts exactly the configs that are in order, acceptance survives pruning, the digest preimage is canonical, and which secret sets share one |
| Release versions | `GatewayVersion`, `VersionRoundTrip`, `VersionGrammar`, `VersionOrder` | the accepted strings, print/parse round trips, a total preorder, agreement with section 11 of Semantic Versioning 2.0.0, refusal as a cutoff in that order and exactly where it departs from it |
| Tunnel labels | `LabelPatterns`, `TunnelBackfill` | the backfill keeps hostnames unique, binds every wanted label to the claimant created first, is idempotent, and exactly when both databases write the same table |
| Plugins | `PluginRefs`, `PluginRepository`, `PluginSources`, `PluginPolicy` | when resolution settles and when it keeps host and repository; what each check reports, and four computations of "third-party" agree |
| Billing | `BillingPeriod` | periods partition the time line and their labels are injective |

Code that updates state in the source (the limiter's table, the guard's violation list, the shared
path buffer, the scanners' loops, the UPDATE, the four tables) is written as classes, arrays and
loops, each proved equal to a function; the theorems are about that function.

Where a plain property is false of the code, the condition under which it holds is proved, with an
input that fails it:

- Eviction is invisible if and only if limiting is off or `burst.max(1) <= 10 * per_min`
  (`RateLimitEviction.EvictionInvisibleIff`, `ExposedVerdicts`).
- A printed version parses back if and only if its last pre-release identifier does not end in
  whitespace (`VersionRoundTrip.RoundTrip`): `1.0.0-a +b` does not (`RoundTripFails`).
- A version is ordered as the standard orders it if and only if its numeric identifiers fit in 64
  bits (`VersionOrder.OrderedAsStandardIff`): `1.0.0-18446744073709551616` is not (`OverlongNumber`).
- Comparing Equal is being the same version if and only if numeric identifiers are written
  canonically (`VersionOrder.EqualIsIdenticalIff`).
- Refusal follows the order at a version if and only if that version is refused or sorts above the
  last refused canary (`VersionOrder.RefusalFollowsOrderIff`): the admitted `0.1.0-alpha.2` precedes
  the refused `0.1.0-beta.59` (`RefusalNotMonotoneAcrossChannels`).
- A set of secrets shares its digest preimage with another if and only if it holds two or more
  secrets, or one whose value contains a line break, a later key and `=`
  (`SecretsDigest.AmbiguousIff`, `LineBreakExamples`). Without line breaks no two sets share one.
- Every `allow_private_backends: true` is listed if and only if none stands beneath a member of that
  name (`FlagPaths.EveryFlagListedIff`, for keys that paths can tell apart): the walk does not
  descend into such a member, so a flag inside it passes (`PrivateBackends.NestedFlagMissed`).
- Candidates are fixed points of resolution if and only if the reference without its one `oci:`
  prefix does not begin like an `oci:` reference again (`PluginRefs.CandidatesSettledIff`): `oci:oci:x`
  does (`RepeatedPrefixUnsettled`).
- Candidates keep host and repository if and only if the tag, written or made from the protocol
  major, holds no second separator (`PluginRepository.CandidatesKeepRepositoryIff`).
- The first-party verdict matches where the candidates live except for two spellings, a repeated
  `oci://` and a plain `oci:` (`PluginRefs.VerdictMatchesResolution`, `DoubledSpelling`,
  `PlainSpelling`).
- Where the locale lowercases the names as SQLite does, Postgres and SQLite write the same labels if
  and only if their collations agree on the oldest claimant of every free label
  (`TunnelBackfill.DialectsAgreeIff`): for `Foo` and `foo`, created at one instant by one org, they
  need not (`CollationsDisagree`). Where the locale lowercases otherwise, the label tests can differ
  (`DialectsDisagreeOutsideAscii`).

Modelling choices. A rate-limit token is 60·10⁹ units and an instant is a number of nanoseconds, so
`per_min` tokens a minute are exactly `per_min` units a nanosecond. In the guard and plugin modules a
string is the sequence of its UTF-8 bytes, so indices are Rust's byte offsets; in the version and
tunnel modules it is a sequence of Unicode scalar values. Versions carry the crate's `u64` bounds. A
Postgres statement is atomic: it reads the rows its policies show, changes rows that pass USING and
WITH CHECK, and is rolled back if a key fails on the resulting tables. Every expression in a
statement is an arbitrary function of the session's own view of the database. The locale's `lower`
and the collation are parameters of the backfill.

Where code and documentation disagree, the code is followed. The comment on `secrets_digest` says
"for every key in sorted order"; the code sorts whole entries, and so does the model. The comment on
`is_first_party_plugin_ref` speaks of one leading `oci://`; the code strips any number. The comment on `collect_private_backends` promises
every flag in the document; the code does not look inside a member of that name.

## Model

| member | source | states |
|---|---|---|
| RateLimit.RateLimiter.constructor | src/ratelimit.rs:46-53 | a new limiter tracks nobody |
| RateLimit.RateLimiter.CheckAt | src/ratelimit.rs:82-103 | the in-place update of the table is the transition the run theorems are about, eviction pass included |
| RateLimitExact.AloneExact | src/ratelimit.rs:90-102 | a never-evicted client is allowed exactly when every window of its own requests that ends here leaves room for one more token: capacity plus refill since the window began, less the tokens allowed in it |
| RateLimitExact.RefusedOnlyWhenUsedUp | src/ratelimit.rs:82-103 | over every interleaved nondecreasing run, any burst, evictions included, a refusal means some window of the address is used up, so refusing costs no refill |
| RateLimitExact.AllowedExactly | src/ratelimit.rs:82-103 | where eviction is invisible, the limiter allows an address exactly when none of its windows is used up |
| RateLimitExact.BurstExactly | src/ratelimit.rs:46-53 | a new client is allowed `burst.max(1)` simultaneous requests and no more |
| RateLimitExact.HalfSecondPolling | src/ratelimit.rs:94-101 | 60 a minute with a burst of 1, polled every half second, answers yes, no, yes |
| RateLimitExact.DisabledAllowsAll | src/ratelimit.rs:55-58 | without a sustained rate every request passes and nothing is tracked |
| RateLimitEviction.EvictionInvisibleIff | src/ratelimit.rs:82-103 | over every nondecreasing interleaved run, each address gets the verdicts of its own never-evicted bucket, exactly when limiting is off or the burst refills within the idle period |
| RateLimitEviction.Simulate | src/ratelimit.rs:87-96 | from any table and reference bucket that agree up to a full refill, all later verdicts agree |
| RateLimitEviction.ExposedVerdicts | src/ratelimit.rs:86-103 | the evicting limiter answers yes to both bursts of a client that drained its bucket, while the table overflowed, and came back after the idle period |
| RateLimitEviction.EvictionExposed | src/ratelimit.rs:23-24 | with a burst beyond ten minutes of refill, eviction can be told from the verdicts |
| RateLimitWindow.StepSpends | src/ratelimit.rs:87-102 | whatever the clock does, a request spends from the credit of its address (tokens plus what refill and resets can still bring) and raises no credit |
| RateLimitWindow.FromBucket | src/ratelimit.rs:94-102 | from a known bucket, the requests allowed are paid for by its tokens and the gain over how far the clock has moved forward since it was touched |
| RateLimitWindow.ForwardBound | src/ratelimit.rs:76-103 | any stretch of any run, with no hypothesis on the clock, allows one address at most a full bucket plus the gain over the total forward motion of the clock |
| RateLimitWindow.WindowBound | src/ratelimit.rs:82-103 | any stretch of a nondecreasing run allows one address at most a full bucket, plus refill, plus one surplus per full idle period |
| RateLimitWindow.WindowBoundCoarse | src/ratelimit.rs:46-53 | capacity times one more than the number of idle periods, plus refill, for every window and any burst |
| RateLimitWindow.WindowBoundAttained | src/ratelimit.rs:23-24 | the bound is reached by a concrete run whenever resets exceed refill |
| RateLimitWindow.TrackedBound | src/ratelimit.rs:87-93 | after any step at most 100 001 addresses are tracked or every tracked bucket was touched within 600 s |
| RateLimitWindow.BackwardClockUnbounded | src/ratelimit.rs:94-96 | with instants that step back, a window of fixed span admits any number of requests, so forward motion cannot be replaced by span |
| Rls.Database.Execute | migrations/postgres/20260428_001_init.sql:18-128 | one scoped statement on the four mutable tables, with cascade and rollback, is the transition of the theorems |
| RlsEffects.DoneIff | migrations/postgres/20260428_001_init.sql:18-128 | a statement is answered Done with a database exactly when it runs, its rows clash with none and pass WITH CHECK, and that database is the asked change to its one table, with the cascade and nothing else, and keeps every key |
| RlsEffects.ErrorIff | migrations/postgres/20260613_001_rls_force_workspaces.sql:24-34 | otherwise it is an error and changes nothing; a query fails only where it does not run |
| RlsEffects.QueryAnswer | migrations/postgres/20260614_001_rls_force_environments.sql:7-12 | a query is answered on exactly the rows its org owns, children through their parent, and without a scope on none |
| RlsEffects.KeysHold | migrations/postgres/20260428_001_init.sql:18-128 | after every statement slugs and uids are unique within their parents and every parent exists |
| RlsEffects.EnvironmentStored | migrations/postgres/20260614_001_rls_force_environments.sql:14-27 | an org that adds an environment to its own workspace finds it stored |
| RlsIsolation.HiddenRowsKept | migrations/postgres/20260613_001_rls_force_workspaces.sql:38-42 | under USING and WITH CHECK an insert, update or delete leaves every row outside the policy exactly as it was, and adds none there |
| RlsIsolation.VisibleRowsDetermined | migrations/postgres/20260615_001_rls_force_instances.sql:19-23 | the visible rows after a change are determined by the visible rows before it |
| RlsIsolation.ChangeMeans | migrations/postgres/20260613_001_rls_force_workspaces.sql:24-27 | a change that goes through keeps every row it does not take, takes only visible rows its filter selects, puts exactly the inserted rows or updated images, and each of these passes WITH CHECK |
| RlsIsolation.RefusedIff | migrations/postgres/20260614_001_rls_force_environments.sql:14-18 | a change is refused exactly for a duplicate primary key or for a row that fails WITH CHECK |
| RlsRuns.InstanceDeleteCascades | migrations/postgres/20260428_001_init.sql:122-123 | deleting instances is never blocked by bindings; a binding goes exactly when its instance does |
| RlsRuns.ExecHidden | migrations/postgres/20260616_001_rls_force_bindings.sql:18-22 | rows hidden from the session are untouched in all four tables, through the cascade too |
| RlsRuns.StatementFrame | migrations/postgres/20260614_001_rls_force_environments.sql:23-27 | a statement under any other scope leaves every org's rows as they were, including those owned through a parent |
| RlsRuns.EveryRowHasOneOwner | migrations/postgres/20260614_001_rls_force_environments.sql:7-12 | each row is visible to its owner and to no other org, the owner of a child being its parent's org |
| RlsRuns.OwnersKept | migrations/postgres/20260614_001_rls_force_environments.sql:14-18 | no surviving row changes owner; an environment that changed parent was re-parented by its own org |
| RlsRuns.NoScopeNoEffect | migrations/postgres/20260613_001_rls_force_workspaces.sql:27-34 | an unset or malformed scope changes nothing and is answered the same whatever the tables hold |
| RlsRuns.ExecConsistent | migrations/postgres/20260428_001_init.sql:18-38 | every statement keeps primary, unique and foreign keys |
| RlsRuns.RunConsistent | migrations/postgres/20260428_001_init.sql:90-128 | every run keeps them |
| RlsRuns.StatementConfidential | migrations/postgres/20260613_001_rls_force_workspaces.sql:38-42 | a statement's answer and the rows its org sees afterwards depend only on the rows the org saw before |
| RlsRuns.RunFrame | migrations/postgres/20260615_001_rls_force_instances.sql:19-23 | a run without statements of an org leaves all its rows as they were |
| RlsRuns.RunsConfidential | migrations/postgres/20260616_001_rls_force_bindings.sql:3-13 | two runs that give an org the same start, statements and failures give it the same answers and the same final rows, whatever other orgs own and do |
| GuardScan.Find | src/publish_guard.rs:1015-1016 | the first occurrence, or none at all |
| GuardScan.Truncate | src/publish_guard.rs:1085-1096 | the loop stops at the last character boundary within 80 bytes |
| Utf8.BoundaryNear | src/publish_guard.rs:1090-1093 | in valid UTF-8 a boundary lies at most three bytes back (section 4 of RFC 3629) |
| Utf8.TruncationOfUtf8 | src/publish_guard.rs:1085-1096 | truncation keeps valid UTF-8 valid and at least 77 bytes of it, and leaves short strings alone |
| GuardScan.TokensFrom | src/publish_guard.rs:1012-1027 | the loop returns the truncated tokens in order |
| GuardScan.TakeToken | src/publish_guard.rs:1015-1023 | one round cuts out the leftmost token and resumes after it |
| GuardScan.SnippetsAreTokens | src/publish_guard.rs:1018-1021 | one truncated snippet per token, in order |
| TokenLayout.TokensLaid | src/publish_guard.rs:1011-1027 | the tokens stand in the text in order and without overlap, and every opener that is ever closed stands inside one |
| LeafChecks.NoTokensIff | src/publish_guard.rs:1012-1027 | no token is found exactly when no opener is ever closed |
| GuardScan.CredTokenInners | src/publish_guard.rs:1030-1044 | the loop returns the inner texts of the credential tokens |
| TokenLayout.CredInnersAreTokens | src/publish_guard.rs:1029-1044 | the two differently written scanners find the same tokens |
| TokenLayout.WellFormedCredIff | src/publish_guard.rs:1067-1083 | the accepted texts are exactly the printed `cred://plugin/target[#part]` references |
| GuardScan.SchemeBoundaryMatches | src/publish_guard.rs:1046-1065 | exactly the offsets where the scheme follows no identifier character, ascending |
| GuardScan.SkipLosesNone | src/publish_guard.rs:1062-1063 | skipping a whole self-disjoint scheme after a hit loses no occurrence |
| PublishGuard.SchemesDisjoint | src/publish_guard.rs:147 | neither scheme overlaps itself |
| LeafChecks.SnippetTestExact | src/publish_guard.rs:466-473 | testing the name on the truncated snippet decides the untruncated name |
| LeafChecks.SecretScanExact | src/publish_guard.rs:466-478 | every token is admitted exactly when every closed `${secret.` is directly followed by a registered well-formed key and `}` |
| LeafChecks.SecretsCleanMonotone | src/publish_guard.rs:161-165 | registering more keys never turns an admitted leaf away |
| PublishGuard.Guard.CheckLeafValue | src/publish_guard.rs:450-506 | adds exactly the leaf kinds that the string raises |
| PublishGuard.Guard.CheckSecrets | src/publish_guard.rs:462-478 | refuses exactly when some closed secret opener is not a registered reference |
| PublishGuard.Guard.CheckCreds | src/publish_guard.rs:480-489 | refuses exactly when some credential token is malformed |
| PublishGuard.Guard.CheckSchemes | src/publish_guard.rs:491-505 | refuses exactly when a host-reading scheme stands at a value boundary |
| PublishGuard.Guard.WalkLeafStrings | src/publish_guard.rs:430-447 | every string value at every depth is checked, and no key is |
| PublishGuard.LeavesExactly | src/publish_guard.rs:430-447 | the strings visited are exactly those that some path of keys and list elements leads to |
| PrivateBackends.Walk.Collect | src/publish_guard.rs:336-365 | the shared path buffer comes back as it was; the output is the pure walk's |
| PrivateBackends.Walk.CollectMembers | src/publish_guard.rs:338-353 | the object loop restores the buffer after every member |
| PrivateBackends.Walk.CollectItems | src/publish_guard.rs:355-361 | the array loop restores the buffer |
| PrivateBackends.CollectedExactly | src/publish_guard.rs:338-361 | what is added is exactly the rendered paths of flags with no such key above them |
| PrivateBackends.CollectedDistinct | src/publish_guard.rs:346-348 | no path is listed twice |
| PrivateBackends.WalkRefinesPathSet | src/publish_guard.rs:338-361 | from the root: the path of every flag with no such key above it, once, and nothing else |
| PrivateBackends.FlagAtIff | src/publish_guard.rs:345-351 | what the walk calls a flag is an `allow_private_backends: true` that stands beneath no member of that name |
| PrivateBackends.NothingCollectedIff | src/publish_guard.rs:300-314 | nothing is listed exactly when every flag in the document stands beneath a member named `allow_private_backends` |
| PrivateBackends.ListedIff | src/publish_guard.rs:332-335 | a flag's path is listed exactly when a flag beneath no such member has that path |
| PrivateBackends.EveryFlagListed | src/publish_guard.rs:332-335 | over any keys: when none stands beneath such a member, every flag is listed |
| PrivateBackends.NestedFlagMissed | src/publish_guard.rs:345-351 | a document that sets the flag only inside a member of that name is not reported |
| FlagPaths.EveryFlagListedIff | src/publish_guard.rs:332-365 | over keys without dots and brackets, every flag is listed exactly when none stands beneath such a member |
| FlagPaths.RenderInjective | src/publish_guard.rs:340-357 | over such keys, the pushed text of a path tells its place |
| FlagPaths.DottedKeyCollides | src/publish_guard.rs:340-344 | with a dotted key, a flag the walk does not see can have the path of one it does |
| UpstreamHost.HostRoundTrip | src/publish_guard.rs:369-390 | for any gated scheme, userinfo, host or bracketed IPv6 host, port and tail, extraction returns the host that was printed (section 3.2 of RFC 3986) |
| UpstreamHost.OtherSchemesUngated | src/publish_guard.rs:367-373 | any other scheme yields no host |
| UpstreamHost.GatedIff | src/publish_guard.rs:369-390 | a URL yields a host exactly when it reads as a gated scheme, an authority holding that host, and a tail |
| UpstreamHost.LocalIff | src/publish_guard.rs:399-404 | a name is local exactly by its last label, whatever its case: localhost, or anything below local or internal |
| PublishGuard.Guard.CheckSsrf | src/publish_guard.rs:300-330 | adds exactly the SSRF kinds, with their paths and indices |
| PublishGuard.Guard.CheckLicenseBlock | src/publish_guard.rs:281-288 | refuses exactly a present, non-null licence |
| PublishGuard.Guard.CheckEvents | src/publish_guard.rs:208-276 | adds exactly the events kinds, with their modes and indices |
| PublishGuard.Guard.CheckWebhook | src/publish_guard.rs:229-256 | reading under the webhook block is reading under the whole document |
| PublishGuard.Guard.AnyOtherMode | src/publish_guard.rs:237-244 | refuses exactly when some textual mode is not the challenge |
| PublishGuard.Guard.Check | src/publish_guard.rs:168-200 | the list holds exactly the raised kinds, where a leaf kind is raised by a string at any path, and the config is accepted exactly when there are none |
| PublishGuard.AcceptedStrings | src/publish_guard.rs:172-190 | in an accepted config every string at every path reads no host variable or file, no unregistered secret and no malformed credential |
| PublishGuard.ListedVariableRefused | src/publish_guard.rs:435-439 | a host variable inside a list is refused |
| PublishGuard.UpstreamRefusedIff | src/publish_guard.rs:319-328 | a federation is refused exactly for the host its URL prints: a private address, or a local name in any case |
| GuardAcceptance.AcceptableIff | src/publish_guard.rs:168-330 | an accepted config is exactly one with clean strings, no flag the walk reaches, public upstreams, no licence, verified trust floors, a strict webhook and signed inbound sources |
| GuardMonotone.PrunedLeaves | src/publish_guard.rs:432-447 | deleting members at any depth adds no leaf string |
| GuardMonotone.PrunedFlag | src/publish_guard.rs:336-365 | nor any flag at any path |
| GuardMonotone.PrunedPointer | src/publish_guard.rs:215-262 | whatever a pointer still finds is a pruned version of what was there |
| Json.MemberMeans | src/publish_guard.rs:215-262 | in an object with distinct keys a pointer token finds exactly the member it names |
| Json.ElementMeans | src/publish_guard.rs:215-262 | in a list it finds exactly the element at the index it prints (RFC 6901) |
| GuardMonotone.PrunedEvents | src/publish_guard.rs:208-276 | nor any events violation |
| GuardMonotone.RaisedMonotone | src/publish_guard.rs:168-330 | each violation raised after pruning and registering more keys was raised before |
| GuardMonotone.AcceptanceMonotone | src/publish_guard.rs:168-200 | an accepted config stays accepted when members are deleted and keys registered |
| SecretsDigest.SortedUnique | src/publish_guard.rs:127 | a multiset of entries has one sorted listing, so the unstable sort gives this one |
| SecretsDigest.SortedIsSorted | src/publish_guard.rs:127 | the listing is sorted by name, then value |
| SecretsDigest.Preimage | src/publish_guard.rs:121-136 | the hasher is fed exactly the serialised sorted entries, and nothing for an empty set |
| SecretsDigest.PreimageOrderFree | src/publish_guard.rs:115-120 | the order of arrival does not matter |
| SecretsDigest.PairPreimage | src/publish_guard.rs:127-134 | the preimage of two secrets is their two lines in the order of their keys, whichever arrives first |
| SecretsDigest.PreimageNoneIff | src/publish_guard.rs:124-126 | only the empty set has no preimage |
| Text.CompareMeans | src/publish_guard.rs:127 | the order the sort uses is that of strings: the first difference decides, and a proper prefix is smaller |
| SecretsDigest.PreimageInjective | src/publish_guard.rs:115-136 | for registered keys and values without a line break, preimages are equal exactly when the secret sets are |
| SecretsDigest.AmbiguousIff | src/publish_guard.rs:115-136 | a registrable set of secrets shares its preimage with another exactly when it holds two or more secrets, or one whose value splits at a line break before a later key and `=` |
| SecretsDigest.LineBreakCollides | src/publish_guard.rs:129-134 | folding the second line into the first value gives a smaller registrable set with the same preimage |
| SecretsDigest.LineBreakExamples | src/publish_guard.rs:129-134 | a value holding `B=2` after a line break collides; a line break alone does not |
| VersionRoundTrip.ParseDecimal | src/gateway_build.rs:43-44 | a printed `u64` parses to itself |
| VersionGrammar.ParseIff | src/gateway_build.rs:34-54 | a string parses to a version exactly when it is whitespace, an optional `v`, three decimal numbers, nonempty identifiers, an optional build and whitespace, put together |
| VersionGrammar.ParseNoneIff | src/gateway_build.rs:34-54 | and to nothing exactly when it is no such concatenation |
| VersionGrammar.DisplayShortest | src/gateway_build.rs:88-97 | the printed form is the shortest string for its version |
| VersionGrammar.LeadingV | src/gateway_build.rs:36 | `v1.0.0` and `1.0.0` parse alike |
| VersionRoundTrip.RoundTrip | src/gateway_build.rs:34-97 | printing and parsing gives a version back exactly when its last identifier does not end in whitespace |
| VersionRoundTrip.RoundTripFails | src/gateway_build.rs:34-37 | `1.0.0-a +b` parses to a version whose printed form parses to another one |
| VersionRoundTrip.ShieldedRoundTrip | src/gateway_build.rs:34-37 | printed with any build metadata behind it, a version always parses back |
| VersionRoundTrip.ParsedIffPlain | src/gateway_build.rs:48-53 | `parse` produces exactly the versions whose identifiers are nonempty without dot or plus |
| VersionRoundTrip.SplitJoin | src/gateway_build.rs:88-97 | splitting at a character undoes joining with it |
| VersionRoundTrip.JoinSplit | src/gateway_build.rs:48-50 | and joining undoes splitting |
| VersionOrder.CmpReverse | src/gateway_build.rs:62-86 | comparing the other way round reverses the verdict |
| VersionOrder.CmpTransitive | src/gateway_build.rs:62-86 | the order is transitive, and strict as soon as one step is |
| VersionOrder.CmpEqual | src/gateway_build.rs:71-82 | Equal means equal cores and identifiers of equal number or equal text |
| VersionOrder.EqualIsIdenticalIff | src/gateway_build.rs:26-30 | among canonical versions, comparing Equal to one is the derived equality, exactly for a version whose numeric identifiers are canonical |
| VersionOrder.CmpIsPrecedence | src/gateway_build.rs:62-86 | where numeric identifiers fit in 64 bits, the order is section 11 of Semantic Versioning 2.0.0 |
| VersionOrder.OrderedAsStandardIff | src/gateway_build.rs:72-77 | a version is ordered as the standard orders it exactly when its numeric identifiers fit |
| VersionOrder.OverlongNumber | src/gateway_build.rs:72-77 | `1.0.0-18446744073709551616` sorts above `1.0.0--`, against the standard |
| VersionOrder.AtLeastMonotone | src/gateway_build.rs:141-145 | being at least a floor implies being at least every lower floor |
| VersionOrder.AtLeastIff | src/gateway_build.rs:141-145 | a string meets a floor exactly when it parses and the floor is not above the result |
| VersionOrder.RefusedExactly | src/gateway_build.rs:105-124 | refused is exactly: a released core below 0.1.0, or a two-identifier pre-release of 0.1.0 on a listed channel and at most its last release |
| VersionOrder.RefusalIsCutoff | src/gateway_build.rs:117-121 | on a listed channel, refused is exactly at most the channel's last release |
| VersionOrder.RefusalDownwardClosed | src/gateway_build.rs:107-124 | within a channel a refused version forces refusal of every smaller one |
| VersionOrder.RefusalFollowsOrderIff | src/gateway_build.rs:107-124 | refusal of anything at or above a version forces refusal of that version, exactly when it has a refused shape or sorts above the last refused canary |
| VersionOrder.RefusalRespectsEqual | src/gateway_build.rs:107-124 | versions that compare Equal get one verdict |
| VersionOrder.RefusalAroundRelease | src/gateway_build.rs:111-116 | nothing from 0.1.0 on is refused; below its core everything but an unreleased build is |
| VersionOrder.RefusalNotMonotoneAcrossChannels | src/gateway_build.rs:21-22 | the admitted `0.1.0-alpha.2` precedes the refused `0.1.0-beta.59` |
| VersionOrder.StringRefusedIff | src/gateway_build.rs:107-124 | a string is refused exactly when it parses to a version of a refused shape, and then it is not at least 0.1.0 |
| VersionOrder.StringsRefusedAlike | src/gateway_build.rs:107-145 | strings whose versions compare Equal are refused alike and pass the same floors |
| LabelPatterns.RegexMeansLabel | migrations/postgres/20260916_001_tunnel_public_hostname.sql:20 | the regular expression's language is the DNS labels |
| LabelPatterns.GlobsMeanLabel | migrations/sqlite/20260916_001_tunnel_public_hostname.sql:9-12 | the length test and three GLOBs accept exactly the names whose lowercase is a DNS label |
| TunnelBackfill.Backfill | migrations/postgres/20260916_001_tunnel_public_hostname.sql:16-28 | updating row by row in place has the snapshot meaning of the one UPDATE |
| TunnelBackfill.BackfillFrame | migrations/postgres/20260916_001_tunnel_public_hostname.sql:16-20 | no existing label and no other column changes |
| TunnelBackfill.BackfillKeepsHostnamesUnique | migrations/postgres/20260711_001_tunnels.sql:36-42 | the primary key and the unique index on hostnames still hold |
| TunnelBackfill.EveryWantedLabelBound | migrations/postgres/20260916_001_tunnel_public_hostname.sql:6-10 | every valid wanted label ends with exactly one holder, the row that had it or else the claimant created first, ties going to the smaller org and then name |
| TunnelBackfill.EarlierWins | migrations/postgres/20260916_001_tunnel_public_hostname.sql:22-28 | of two orgs that registered one name, the earlier registration gets the label |
| TunnelBackfill.BackfillIdempotent | migrations/postgres/20260916_001_tunnel_public_hostname.sql:16-28 | running it twice is running it once |
| TunnelBackfill.DialectsWellBehaved | migrations/sqlite/20260916_001_tunnel_public_hostname.sql:5-20 | both statements meet what the theorems ask of a dialect |
| TunnelBackfill.LabelTestsAgree | migrations/sqlite/20260916_001_tunnel_public_hostname.sql:9-12 | the two label tests agree on every name that the locale lowercases as ASCII does |
| TunnelBackfill.DialectsAgreeIff | migrations/sqlite/20260916_001_tunnel_public_hostname.sql:5-20 | with a collation for each database, and names the locale lowercases as SQLite does, both statements write the same table exactly when the orders agree on the oldest claimant of every free valid label |
| TunnelBackfill.DialectsAgreeFirstIff | migrations/sqlite/20260916_001_tunnel_public_hostname.sql:5-20 | for strict collations, exactly when both agree which claimant was created first |
| TunnelBackfill.DistinctInstantsAgree | migrations/sqlite/20260916_001_tunnel_public_hostname.sql:14-20 | no collation matters when no two claimants of one free label were created at one instant |
| TunnelBackfill.SelectedIffFirst | migrations/postgres/20260916_001_tunnel_public_hostname.sql:18-28 | the row that is labelled is the claimant of a free valid label that was created first |
| TunnelBackfill.LeastIsFirst | migrations/postgres/20260916_001_tunnel_public_hostname.sql:22-28 | having no older claimant is being created first, in instant, org and name |
| TunnelBackfill.CollationsDisagree | migrations/postgres/20260916_001_tunnel_public_hostname.sql:27 | `Foo` and `foo` of one org and one instant: each database labels the row its collation puts first |
| TunnelBackfill.DialectsDisagreeOutsideAscii | migrations/postgres/20260916_001_tunnel_public_hostname.sql:20 | outside ASCII the tests can differ |
| PluginRefs.CandidatesSettledIff | src/plugin_layout.rs:62-79 | every candidate resolves to itself alone, exactly when no second `oci:` prefix is left |
| PluginRefs.RepeatedPrefixUnsettled | src/plugin_layout.rs:63-66 | `oci:oci:x` has a candidate that resolves to something else |
| PluginRepository.CandidatesKeepRepositoryIff | src/plugin_layout.rs:62-106 | every candidate of a reference without digest parses to its own host and repository, exactly when its tag or the protocol major it takes one from holds no second separator, or it names no host |
| PluginRefs.CandidatesKeepRepository | src/plugin_layout.rs:62-106 | where that holds, every candidate extends the reference and its tag is not empty |
| PluginRefs.CandidateTags | src/plugin_layout.rs:58-79 | otherwise two candidates, native before portable, under the floating protocol tag or the written tag with the platform |
| PluginRefs.FetchedFromFirstParty | src/plugin_layout.rs:58-79 | candidates live in the first-party registry exactly when the stripped reference does |
| PluginRepository.ArtefactIff | src/plugin_layout.rs:90-106 | `parse` reads exactly `host/repository@digest` and `host/repository:tag` with nonempty parts |
| PluginRepository.PlatformSuffixMeans | src/plugin_layout.rs:47-51 | a tag carries a platform when it is one or ends in a hyphen and one |
| PluginRefs.FirstPartyIff | src/target_validate.rs:36-40 | first-party means the prefix behind any number of `oci://` |
| PluginRefs.VerdictMatchesResolution | src/target_validate.rs:33-40 | the first-party verdict matches where candidates live, except for a repeated `oci://` or a plain `oci:` before the first-party prefix |
| PluginRefs.DoubledSpelling | src/target_validate.rs:36-40 | behind a doubled `oci://` a plugin is called first-party and fetched from elsewhere |
| PluginRefs.PlainSpelling | src/target_validate.rs:36-40 | behind a plain `oci:` it is called third-party and fetched from the first-party registry |
| PluginSources.PluginEntries | src/target_validate.rs:247-264 | the loop returns the OCI and path entries with their indices |
| PluginSources.ValidatePlugins | src/target_validate.rs:166-217 | the plugin loop raises the listed violations entry by entry |
| PluginPolicy.ViolationsExactly | src/target_validate.rs:166-217 | exactly the entries that policy and release refuse are reported, each by index and for its own reason |
| PluginSources.CustomPluginSurfaces | src/publish_guard.rs:713-756 | the two loops list registry settings, then entry surfaces in order |
| PluginPolicy.SurfacesExactly | src/publish_guard.rs:703-756 | exactly the registry settings beyond the four and the entries with third-party sources, keys or another policy are listed, by name and index |
| PluginPolicy.PathIsPointer | src/target_validate.rs:253-261 | an entry names a file exactly when it has a path and no OCI source |
| PluginSources.SourceIsPointer | src/publish_guard.rs:730 | a JSON pointer and nested lookups read the same source |
| PluginSources.SplitPartitions | src/plugin_layout.rs:238-244 | the two halves together hold every source as often as it occurs, first-party ones in the first, all others in the second |
| PluginSources.FourComputationsAgree | src/publish_guard.rs:726-734 | source filter, split, policy violations and surfaces name the same indices in the same order |
| PluginSources.ThirdPartyFromMeaning | src/target_validate.rs:231-245 | that list is the ascending list of exactly the third-party indices |
| BillingPeriod.PeriodBounds | src/serving_limits.rs:23-28 | start <= at < end, and the ends are the starts of this month and the next |
| BillingPeriod.PeriodsMeet | src/serving_limits.rs:27-28 | the instant that ends a period starts the next one |
| BillingPeriod.LabelShape | src/serving_limits.rs:29 | the label is the year, in at least four places with its sign, a hyphen, and the month in two |
| BillingPeriod.TagInjective | src/serving_limits.rs:29 | equal labels mean the same year and month, for years of any size and sign |
| BillingPeriod.SameLabelIffSameWindow | src/serving_limits.rs:19-30 | two instants share a label exactly when the second lies in the first one's window |
| BillingPeriod.EveryInstantInOnePeriod | src/serving_limits.rs:19-30 | every point of time lies in one period and no other |

## Left out

- RateLimit.RateLimiter.CheckAt: `f64` rounding is not modelled; counts are exact, so near-equal token levels may be rounded differently by the code.
- RateLimitWindow.WindowBound: needs nondecreasing instants, because `check` reads the clock before it takes the lock; `ForwardBound` is the bound without them.
- RateLimitExact.AllowedExactly: where eviction can be noticed, only `RefusedOnlyWhenUsedUp` is claimed, since a reset allows more than the windows leave.
- `RateLimiter::client_ip`: header and address parsing.
- RlsRuns.StatementConfidential: success or failure is a hypothesis, since a statement may fail on another org's unique or foreign key; so is failure in tables outside the four (`refused`).
- RlsRuns.NoScopeNoEffect: a malformed scope is an error before any row is read; Postgres may instead return no row when a table is empty.
- Rls.Database.Execute: keys are checked on the resulting tables; `ON CONFLICT`, row locks, several statements in one transaction, the foreign keys to `orgs` and `plugin_sets`, other tables' policies, superusers and BYPASSRLS roles are not modelled.
- RlsRuns.ExecHidden: foreign keys and cascades act below the policies, so an instance may name a workspace or environment of another org; nothing is claimed about that link.
- PublishGuard.Guard.Check: violations are kinds with their paths and indices; wording, snippets and the number of repetitions are not modelled. A config arrives parsed: YAML and TOML are not part of this model.
- PublishGuard.Guard.CheckSsrf: the classification of address literals is the parameter `ip`.
- SecretsDigest.Preimage: the hash itself; only its input is described.
- UpstreamHost.HostRoundTrip: registered names with brackets or colons, which RFC 3986 does not allow, are not covered.
- TunnelBackfill.Backfill: creation instants are integers, so SQLite's stored text is taken to sort as time does; `lower` and the collation are parameters; lifting and restoring FORCE is not modelled.
- BillingPeriod.PeriodBounds: years are unbounded integers and there are no leap seconds; chrono's panic at the end of its year range is not modelled.
- PluginRepository.CandidatesKeepRepositoryIff: a digest reference is passed through whole and nothing is claimed about it; a protocol major holds no slash.
- FlagPaths.EveryFlagListedIff: asks for keys without dots and brackets, since `DottedKeyCollides` shows that other keys can share a path; `ListedIff` is the statement for any keys.
- PluginSources.ValidatePlugins: JSON-schema validation, the manifest version check and violation texts.
- `plugin_layout::assess`, licensed surfaces, entitlements, plugin and event quotas, `require_cloud_auth`, `managed_publish_warnings`: simple checks, or dependent on the licence crate.
- Wire types, ciphers, the observability tables' policies, TLS and migration set-up: plumbing or foreign code.
