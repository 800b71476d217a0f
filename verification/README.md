# Verified model of monkeys-identity

A Dafny 4.11 model of the decision and consistency logic of the identity service, with proofs of
what each part promises. `dafny verify dfyconfig.toml` checks everything.

| module | what it models |
|---|---|
| `Glob` | wildcard matching: a glob is quoted, rewritten twice as text and compiled to a regular expression |
| `Conditions`, `Policy` | condition maps evaluated in Go's arbitrary map order; policy documents decided by their first decisive statement |
| `Authorize`, `AuthorizeOrders`, `GroupSummary` | documents, resource permissions and shares combined with deny-overrides; how far the answer depends on map order; the permission summary of a group |
| `Cors`, `CorsCoherence`, `CorsMiddleware` | the CORS origin cache as interleaved steps of many refreshes, when its two copies are right, and the object itself |
| `AuditWorker` | the bounded, non-blocking audit channel and its worker's shutdown |
| `Content`, `ContentStore` | content items and collaborators as a state machine over two tables, and the methods that update them |
| `Slug` | the slug normaliser's iterated rewriting |
| `Sql`, `AuditQuery` | rendering of audit filters into text with positional arguments, and a reader that gives the text, its column types and its rejections a meaning |
| `Compliance`, `Paging` | the compliance report's grouped sums; page walks and their end test |
| `Logout`, `ArrayCodec` | the logout blacklist against token expiry; the Postgres text array codec |
| `Strings`, `Basics` | the Go string functions used, options, iteration orders |

Text is valid UTF-8, as Dafny characters. Code that updates fields, tables or local variables step
by step is a class or a method with loops, proved against a specification function; concurrent code
is a state machine whose theorems hold over every sequence of steps, a step that is not enabled
changing nothing.

## Where the code and its descriptions differ

The model follows the code; each point is a lemma below.

- `documents/blogging_platform_integration_guide.md:151` says an explicit deny overrides any allow.
  Inside one document the first decisive statement wins, so a deny placed after a matching allow is
  not reached (`Policy.AllowAllDecides`, `Policy.DenyWinsIff`).
- Wildcards other than the lone `*` do not match across a newline (`Glob.NewlineIsNotWild`). Every
  pattern means the plain glob exactly on values without a newline (`Glob.PlainForAllPatternsIff`),
  and every value exactly under the lone `*` and patterns without wildcards
  (`Glob.PlainForAllValuesIff`).
- A condition holding both an unmet and an erroneous entry yields either a plain false or an error,
  depending on map order, and so does its document (`Conditions.FailureDependsOnOrderIff`,
  `Policy.VerdictsExactly`). A document in error is skipped, so a stored deny can be lost and the
  same rows grant or refuse one request (`AuthorizeOrders.DenyCanBeLost`); exactly when this happens
  is `AuthorizeOrders.AnswerDependsOnOrderIff`.
- `internal/middleware/cors.go:19` speaks of a request triggering a refresh after the key expires.
  Nothing does (`CorsCoherence.ExpiredStaysEmpty`). Overlapping refreshes can leave a removed origin
  in Redis (`CorsCoherence.OverlapLeavesStaleOrigin`), exactly when one of them loaded an outdated
  set (`CorsCoherence.OverlapCoherentIff`); refreshes that load after the last write are harmless
  (`CorsCoherence.CoherentAfterRefresh`).
- `cmd/server/main.go:129` starts the audit worker under a context that is never cancelled, so the
  deferred `Stop` never returns (`AuditWorker.NoCancelNoStop`).
- An owner who invites the own account as a co-author loses the owner role (`Content.SelfInviteDemotes`,
  `Content.SelfInviteSucceeds`). It comes back only if an owner row's insertion or the removal of
  the owner's row was already under way (`Content.RoleReturnsIff`); otherwise it is lost for good
  (`Content.OrphanedForEver`). Nothing else costs an owner the role (`Content.OwnersIntactIff`).
- The status handler accepts two statuses the table refuses
  (`ContentStore.Store.UpdateContentStatus`), and the compliance report looks for upper-case
  severities the table never holds (`Compliance.SeverityCountersAreZero`).
- The audit list and the compliance report fail on an event without severity, which the schema
  admits. Both fail on an organization that is no uuid, and the list on a principal that is no uuid
  and a result that is no label, none of which the handlers check (`AuditQuery.ListAuditEvents`,
  `Compliance.GenerateComplianceReport`).
- The content list does not bound the limit: near the 64-bit maximum the announced number of pages
  is not positive (`Paging.TotalPagesRightIff`).
- Logout discards the result of its SET, and reports success when the token stays accepted
  (`Logout.LogoutRevokesIff`).
- Logout does not verify the header token whose claims it stores, so a later logout can shorten a
  blacklist entry: the token is refused throughout exactly when none does
  (`Logout.NoGapAfterLogout`, `Logout.EarlierExpiryReopens`).
- Revoking a session by identifier writes a blacklist key the check of its token does not read
  (`Logout.RevokeSessionIsNotLogout`).

## Model

| member | source | states |
|---|---|---|
| Glob.EscapeIsTokenwise | internal/authz/evaluator.go:124-128 | the two global text replacements on the quoted pattern act exactly token by token: an escaped star or question mark never straddles two quoted characters |
| Glob.PatternAlwaysCompiles | internal/authz/evaluator.go:130-134 | every pattern gives an expression that compiles, anchored at the start and, inside, at the end; the fallback comparison is unreachable |
| Glob.MatchWildcardIsGlob | internal/authz/evaluator.go:118-137 | for all patterns and values: the match holds iff the pattern is the lone star or the value is in the glob's language over newline-free runs |
| Glob.PlainGlobOnOneLine | internal/authz/evaluator.go:117-137 | on values without a newline the match is the plain glob language, a star being any run |
| Glob.NewlineIsNotWild | internal/authz/evaluator.go:119-128 | a value on which the plain glob and the compiled match differ, while the lone star matches it |
| Glob.PlainForAllPatternsIff | internal/authz/evaluator.go:117-137 | a value has no newline iff on it every pattern's match is the plain glob language |
| Glob.PlainForAllValuesIff | internal/authz/evaluator.go:117-137 | a pattern is the lone star or has no wildcard iff on every value its match is the plain glob language |
| Glob.LiteralPattern | internal/authz/evaluator.go:123-136 | a pattern without wildcards matches exactly itself, whatever expression syntax it contains |
| Conditions.OperatorLaws | internal/authz/conditions.go:68-115 | negated equality is the complement, numeric and non-boolean Bool comparison are text equality, like without wildcards is equality and otherwise the glob language |
| Conditions.OperatorsMean | internal/authz/conditions.go:48-115 | under every map order, a condition of one operator and key is unmet without the key and otherwise met iff the shown texts are equal, unequal, equal but for case, in the glob's language, or accepted by the address test, as the operator says; wildcards mean nothing to equality, truth values compare as such, and only unknown operators fail |
| Conditions.CaseIsIgnored | internal/authz/conditions.go:74-95 | for a case-blind equality, respelling the request's text in another case never changes StringEqualsIgnoreCase, and texts of equal lower case are met |
| Conditions.OutcomesExactly | internal/authz/conditions.go:19-66 | the outcomes over all iteration orders of both nested maps are exactly those of an order-free description, in both directions |
| Conditions.BooleanIgnoresOrder | internal/authz/conditions.go:30-40 | the result is true for one order iff every listed key is present and satisfied, hence for every order |
| Conditions.WellFormedIgnoresOrder | internal/authz/conditions.go:43-87 | with supported operators and maps of requirements there is no error and one result for all orders |
| Conditions.FailureDependsOnOrderIff | internal/authz/conditions.go:30-62 | whether evaluation errs depends on the map order iff an unmet and an erroneous entry stand in the same condition |
| Policy.VerdictsExactly | internal/authz/evaluator.go:43-92 | the verdicts of a document over all map orders are exactly those of an order-free description |
| Policy.EffectByCase | internal/authz/evaluator.go:58-63 | an effect denies iff its lower case is "deny" and allows iff it is "allow" |
| Policy.HeadDecides | internal/authz/evaluator.go:51-65 | a matching statement whose condition is met denies or allows by the lower case of its effect, and with any other effect leaves the decision to the rest |
| Policy.OtherEffectIsAbsent | internal/authz/evaluator.go:57-64 | a statement with another effect, wherever it stands, leaves the possible verdicts as without it unless its condition can fail |
| Policy.RespelledEffect | internal/authz/evaluator.go:58-63 | another spelling of an effect with the same lower case leaves a document's possible verdicts unchanged |
| Policy.EvaluateIsFirstDecisive | internal/authz/evaluator.go:51-67 | an evaluation without error returns the effect of the first statement that matches and folds to Allow or Deny, or NotApplicable iff there is none |
| Policy.WellFormedIsDeterministic | internal/authz/evaluator.go:82-89 | with well-formed conditions the verdict is error-free and the same for all map orders |
| Policy.UnmatchedIsAbsent | internal/authz/evaluator.go:71-80 | a statement whose action or resource does not match, wherever it stands and whatever its condition, leaves the possible verdicts as if it were not there |
| Policy.ReorderingIgnoredIff | internal/authz/evaluator.go:51-65 | the decision survives every reordering of the statements iff all applicable decisive statements share one effect |
| Policy.DenyWinsIff | internal/authz/evaluator.go:57-63 | a document denies iff some applicable deny has no applicable allow before it |
| Policy.AllowAllDecides | internal/queries/auth.go:358 | the bootstrap document allows every request, also with a deny-all statement behind it |
| Authorize.Authorize | internal/services/authz_service.go:31-90 | an error iff the policies cannot be fetched; otherwise Allow iff some stage allows and no document or matching permission denies, erring documents and failed fetches of the other two stages counting for nothing; else Deny |
| Authorize.PolicyStage | internal/services/authz_service.go:40-52 | the early return is taken iff some document denies; otherwise the accumulator records whether one allows |
| Authorize.PermissionStage | internal/services/authz_service.go:56-68 | the same for permission rows of the requested resource whose pattern matches the action |
| Authorize.ShareStage | internal/services/authz_service.go:72-82 | shares can only add an allow, for the requested resource and level |
| Authorize.GrantedOnRows | internal/services/authz_service.go:40-68 | without shares access is granted iff some document evaluates to Allow or some permission row of the resource matches the action with effect allow, and no document and no such row denies |
| Authorize.ShareDecides | internal/services/authz_service.go:72-107 | one more share: an owner, in any spelling, is granted whatever nothing denies; an editor what names neither deleting nor sharing; a viewer the three reading actions; any other level, or a share of another resource, changes nothing |
| Authorize.ErringIsAbsent | internal/services/authz_service.go:40-46 | a document whose evaluation fails, or that cannot be decoded, leaves the decision as without it |
| Authorize.MoreRows | internal/services/authz_service.go:40-82 | added rows that do not deny keep a grant; added rows that do not allow keep a refusal |
| Authorize.RowOrderIgnored | internal/services/authz_service.go:40-82 | the decision is invariant under permuting each of the three lists |
| Authorize.ShareLadder | internal/services/authz_service.go:93-107 | whatever a viewer may do an editor may, and whatever an editor may do an owner may |
| Authorize.EditorRefusedIff | internal/services/authz_service.go:97-99 | an editor is refused iff the lower-cased action has "delete" or "share" standing somewhere in it |
| Authorize.RaisingAShare | internal/services/authz_service.go:72-82 | raising one share in the order none, viewer, editor, owner, whatever the spelling of either level, never loses access |
| Authorize.MapOrderIgnored | internal/services/authz_service.go:40-52 | when all stored conditions are well formed, the whole decision is independent of map iteration |
| AuthorizeOrders.AnswerDependsOnOrderIff | internal/services/authz_service.go:40-90 | some map orders grant iff no permission denies, every document can end without denying and some vote can allow; some refuse iff a permission denies, a document can deny, or nothing allows and every document can end without allowing; so the answer depends on map order iff both hold |
| AuthorizeOrders.DenyCanBeLost | internal/services/authz_service.go:40-52 | a deny behind a mixed condition, beside a document allowing everything: both answers are possible for every request without the condition's key |
| GroupSummary.GetGroupPermissions | internal/queries/group_queries.go:308-372 | each list holds exactly the action patterns some readable row lists under that effect, once each, and the counts are the list lengths |
| GroupSummary.ListedOnText | internal/queries/group_queries.go:329-353 | what is listed, on the stored text: an action standing alone or in a list, of a statement whose effect is allow (deny) in any spelling, in any document the summary can read |
| GroupSummary.FieldMatchesIff | internal/authz/evaluator.go:95-115 | a field matches iff one of the texts the summary would list for it matches; other items count for nothing |
| GroupSummary.SummaryCoversDecision | internal/queries/group_queries.go:329-353 | if evaluating any joined document allows (denies) an action for any resource, context and map order, the allow (deny) list has a pattern matching it |
| GroupSummary.SummaryIgnoresRowOrder | internal/queries/group_queries.go:311-354 | the summary depends on which rows are joined, not on their order |
| Cors.PipelineStores | internal/middleware/cors.go:166-176 | the complete pipeline replaces any Redis state by exactly the merged origins, expiring iff there are any |
| Cors.LiveIff | internal/middleware/cors.go:189-207 | an origin is loaded iff some organization that is not deleted lists it |
| Cors.DeletedIsAbsent | internal/middleware/cors.go:189-207 | a deleted organization is as good as absent |
| Cors.Provenance | internal/middleware/cors.go:90-186 | over all interleavings, retries, lost commands, expiry and outages: an allowed origin is static or was listed by an organization not deleted at some point of the run, the memory map is empty or exactly one historical snapshot, static origins are always allowed |
| CorsCoherence.CoherentAfterRefresh | internal/middleware/cors.go:126-207 | after the last write, when no loaded origins are on their way, any number of refreshes overlap in any interleaving with retries, failed loads and outages: once one has succeeded, Redis and memory hold the same whenever nothing is in flight, namely the static origins and those an organization not deleted lists, unless the key expires or a command is lost |
| CorsCoherence.OverlapCoherentIff | internal/middleware/cors.go:165-184 | of any number of refreshes that have loaded and not yet written, every interleaving ends with both caches right iff each loaded the current origins |
| CorsCoherence.LastWins | internal/middleware/cors.go:165-184 | any one of them can run after all the others, and then both caches end with what it loaded, current or not |
| CorsCoherence.LostCommandsPartCaches | internal/middleware/cors.go:177-187 | a refresh that loses its commands ends with Redis as it was and the memory map replaced |
| CorsCoherence.RetryRecovers | internal/middleware/cors.go:177-181 | losing all commands and sending them again is as good as no loss |
| CorsCoherence.OutageFreezesRedis | internal/middleware/cors.go:126-142 | while Redis is down, over every run, its content stays, but for the expiry of a key that has one |
| CorsCoherence.ExpiryPartsCaches | internal/middleware/cors.go:126-142 | from the expiry on, in every run without a new refresh, the two answers differ on exactly the origins the memory map held |
| CorsCoherence.ExpiredStaysEmpty | internal/middleware/cors.go:19-25 | after expiry, in every run without a new refresh, Redis stays empty, the memory map stays as it is and only static origins are allowed while it answers |
| CorsCoherence.OverlapLeavesStaleOrigin | internal/middleware/cors.go:165-184 | a run of two overlapping refreshes around one write that ends quiet with a removed origin still in Redis |
| CorsMiddleware.RefreshRun | internal/middleware/cors.go:146-187 | an uninterrupted refresh is a run of the protocol, with any number of executed commands |
| CorsMiddleware.DynamicCors.constructor | internal/middleware/cors.go:41-68 | the static set is the trimmed non-empty parts of the setting, allow-all holds iff one of them is a star, the memory map starts empty |
| CorsMiddleware.ConfiguredEntries | internal/middleware/cors.go:47-60 | a setting written as a list gives exactly its trimmed entries, blank ones left out |
| CorsMiddleware.DynamicCors.RefreshCache | internal/middleware/cors.go:146-187 | a failed load changes nothing; otherwise the object ends in the state the protocol's run gives, the memory map holding the static origins and those an organization not deleted lists |
| CorsMiddleware.DynamicCors.AllowOrigin | internal/middleware/cors.go:71-114 | the header is absent without an origin, a star under allow-all, else the origin iff it is static or the answering cache holds it |
| CorsMiddleware.DynamicCors.UpdateOrganizationOrigins | internal/middleware/cors.go:233-248 | the write changes exactly one existing, undeleted organization, replaces its share of the live origins and asks for a refresh; otherwise nothing changes |
| AuditWorker.Fifo | internal/services/audit_service.go:41-103 | over all producer and worker interleavings: accepted events are the logged ones, the one being logged and the queued ones, in that order |
| AuditWorker.SendsPartition | internal/services/audit_service.go:98-102 | over every run the issued events are the accepted and the dropped ones, as multisets |
| AuditWorker.DropsOnlyWhenFull | internal/services/audit_service.go:37-102 | in every reachable state the channel holds at most 1000 events, and the next send is dropped iff it holds exactly that many |
| AuditWorker.DrainTerminates | internal/services/audit_service.go:46-80 | after cancellation and without further sends every run of worker moves is bounded, can continue until `done` is closed, loses nothing, and closes over an empty channel |
| AuditWorker.ClosedOverLateEvents | internal/services/audit_service.go:50-79 | once draining has ended the channel holds exactly the events accepted afterwards, so it is closed empty iff there were none |
| AuditWorker.NoCancelNoStop | internal/services/audit_service.go:62-65 | without a cancellation the worker never leaves its loop, so `Stop` never returns |
| AuditWorker.CancelLetsStopReturn | internal/services/audit_service.go:46-80 | after a cancellation, in whatever state, the worker's own moves suffice for `Stop` to return with everything on its way logged in order |
| AuditWorker.AuditService.LogEvent | internal/services/audit_service.go:83-104 | set fields are kept, missing ones filled in, the organization with the system one; the event is appended iff the channel holds fewer than 1000, as one send step of the protocol |
| AuditWorker.AuditService.DrainEvents | internal/services/audit_service.go:68-80 | everything queued is appended to the log in order, by a run of the worker's own moves |
| Content.OwnerRowIsUnique | internal/handlers/content_handler.go:146-155 | in every reachable state only an item's unchanging owner can hold its owner row, removal never deletes it, and a published item has a publication date |
| Content.DeletedIsFinal | internal/queries/content_queries.go:192-250 | over all runs items keep owner and organization, a publication date is never cleared, and a deleted item never changes |
| Content.DeletionHides | internal/queries/content_queries.go:214-225 | running a pending deletion marks exactly the live item, and over every further run it stays marked and is found and listed by nobody |
| Content.StatusIsStored | internal/queries/content_queries.go:229-250 | running a pending status change stores exactly that status, and the publication date for published, on that item only; the status stays until the next change, the date for ever |
| Content.TextIsStored | internal/queries/content_queries.go:192-212 | running a pending update stores exactly that text on that item only, until the next update |
| Content.RequestsEndOnce | internal/handlers/content_handler.go:244-468 | over every run each statement is run or given up exactly once for each time it was authorized, the difference being what is pending |
| Content.OwnerKeepsRole | internal/handlers/content_handler.go:33-55 | in every run in which no invitation aimed at an owner is carried out, the owner has the owner role on every live item, even when the row inserted at creation failed |
| Content.OwnerLostIff | internal/handlers/content_handler.go:36-54 | in reachable states the owner of a live item lacks the owner role iff the own row says co-author, and then no user has it |
| Content.StepKeepsOwnersIff | internal/queries/content_queries.go:254-265 | in a consistent state in which no owner's row is damaged, a step damages one iff it runs an accepted invitation aimed at the item's own owner |
| Content.OwnersIntactIff | internal/handlers/content_handler.go:398-430 | over every run: all owners' rows are intact at every moment iff no such invitation is ever run |
| Content.SelfInviteDemotes | internal/handlers/content_handler.go:398-423 | in every such state, for every live item, the owner's invitation of the own account passes the role check and running it makes the owner's role co-author |
| Content.SelfInviteSucceeds | internal/handlers/content_handler.go:398-423 | a new user, creation, owner row, self-invitation and its execution orphan the item, for every item, user and organization |
| Content.OrphanedForEver | internal/handlers/content_handler.go:405-468 | once the owner's row says co-author and no statement restoring the role is under way, over every run nobody has the owner role and nobody may invite, remove collaborators or delete |
| Content.RoleReturnsIff | internal/queries/content_queries.go:254-278 | on a live item some run gives a demoted owner the role back iff an insertion of the owner row or a removal of the owner's row is still pending |
| Content.ListAgreesWithLookup | internal/queries/content_queries.go:111-115 | in every reachable state the list of a user and organization is exactly the live items of the organization on which the role lookup is non-empty |
| ContentStore.Store.RoleOf | internal/handlers/content_handler.go:33-55 | the fast path by row and the fallback by owner column compute the role, stated on the tables |
| ContentStore.Store.AddCollaborator | internal/queries/content_queries.go:254-265 | the upsert fails and changes nothing iff the role is not one of two, or the row is new and its item, user or inviter unknown; otherwise the row has the role |
| ContentStore.Store.RemoveCollaborator | internal/queries/content_queries.go:267-278 | deletes exactly the row unless it is missing or an owner row, and reports which |
| ContentStore.Store.DeleteContent | internal/queries/content_queries.go:214-225 | marks the selected live item of the organization and nothing else; afterwards nobody finds or lists it |
| ContentStore.Store.UpdateContentStatus | internal/queries/content_queries.go:229-250 | stores status, and the publication date for published, on the selected item only; succeeds iff selected and admitted by the table's constraint |
| ContentStore.Store.UpdateContent | internal/queries/content_queries.go:192-212 | stores the text on the selected item only; succeeds iff selected and its columns are admitted |
| ContentStore.Store.CreateContent | internal/handlers/content_handler.go:130-157 | for a known user and columns the table admits the two inserts are a run of the state machine, the second allowed to fail; otherwise nothing changes |
| ContentStore.Store.InviteCollaborator | internal/handlers/content_handler.go:398-430 | succeeds iff the caller has the owner role and the invited user is named and known, who then has a co-author row; otherwise nothing changes |
| ContentStore.Store.RemoveCollaboratorRequest | internal/handlers/content_handler.go:444-468 | succeeds iff the caller has the owner role and the target a row that is not an owner row, which is then gone; otherwise nothing changes |
| ContentStore.Store.DeleteContentRequest | internal/handlers/content_handler.go:313-331 | succeeds iff the caller has the owner role and the item is live in the organization, which is then marked and listed for nobody |
| ContentStore.Store.UpdateStatusRequest | internal/handlers/content_handler.go:349-381 | succeeds iff the caller has a role, the item is live and the lower-cased status is one the table admits, which is then stored |
| ContentStore.Store.UpdateContentRequest | internal/handlers/content_handler.go:244-300 | succeeds iff the caller has a role, the item is live and its columns are admitted, and then stores the merged text |
| Slug.Slugify | internal/handlers/content_handler.go:502-518 | the loop terminates and computes one squeeze of every dash run, in exactly the number of rounds its longest run needs |
| Slug.RunHalves | internal/handlers/content_handler.go:514-516 | one round halves the longest dash run, rounding up |
| Slug.RoundsIsCeilLog2 | internal/handlers/content_handler.go:514-516 | the number of rounds is the base-two logarithm of the longest run, rounded up |
| Slug.SlugJoinsWords | internal/handlers/content_handler.go:502-518 | for every title the slug is its words, read character by character, joined by single dashes; trimming the title first makes no difference |
| Slug.CharBetweenWords | internal/handlers/content_handler.go:504-512 | between two words a space, dash or underscore separates, a letter or digit joins in lower case, and any other character vanishes |
| Slug.SlugIsSlug | internal/handlers/content_handler.go:504-517 | results use lower-case letters, digits and dashes, without leading, trailing or double dash |
| Slug.SlugsAreFixedPoints | internal/handlers/content_handler.go:502-518 | the well-shaped slugs are exactly the fixed points, and exactly the results |
| Sql.ClauseMeansConditions | internal/queries/audit_queries.go:201-253 | joined numbered pieces, split and read as SQL with the arguments in order, are exactly the conditions, each bound to its own argument by its column's type, and are rejected iff one of them is |
| AuditQuery.BuildWhere | internal/queries/audit_queries.go:201-253 | the step-by-step builder renders exactly the conditions of the set fields, with their arguments and the next free index |
| AuditQuery.RenderedClauseMeansFilter | internal/queries/audit_queries.go:205-253 | for every combination of set fields the rendered text is accepted iff a set organization and principal are uuids, a set result is one of the three labels and no text holds a NUL; then it selects an event iff each set field matches, uuids by value, NULL columns matching nothing |
| AuditQuery.WantedOnFields | internal/queries/audit_queries.go:205-253 | the wanted events are the rows matching each set field, in order, unset fields being ignored |
| AuditQuery.PageOnFields | internal/queries/audit_queries.go:263-284 | row k of the page is row offset plus k of the order, below the limit; a limit below 1 counts as 50, an offset below 0 as 0 |
| AuditQuery.TailMeansLimitOffset | internal/queries/audit_queries.go:281-284 | LIMIT and OFFSET name the last two arguments |
| AuditQuery.ListAuditEvents | internal/queries/audit_queries.go:200-322 | it fails iff the filter is rejected so, or the page holds an event without severity; otherwise the count is the size of the filter and the page the clamped slice of its ordered list |
| Compliance.Summarize | internal/queries/audit_queries.go:639-681 | no result iff a group row has no severity; otherwise the loop's counters and category map are sums over the group rows |
| Compliance.SumCountsEvents | internal/queries/audit_queries.go:618-631 | the group rows partition the selected events: any sum over rows, in any order, counts events once each |
| Compliance.ChecksAreRows | internal/queries/audit_queries.go:602-613 | the checks are the rows of the period and, if set, the organization; any other row leaves the report alone |
| Compliance.FailedChecksAreRows | internal/queries/audit_queries.go:618-631 | the failed checks are those of them with result failure, one of two severities or one of three actions |
| Compliance.CountersAreRows | internal/queries/audit_queries.go:650-672 | the counters and categories are the failed checks with that severity or result, a failure outranking a severity |
| Compliance.GenerateComplianceReport | internal/queries/audit_queries.go:602-685 | it fails iff a set organization is no uuid or a security event of the organization and period has no severity; otherwise failed checks are those security events and the sum of the four categories, passed plus failed is the total, critical plus high-risk is at most failed, policy violations are the policy category, and the score is a percentage, full iff nothing failed |
| Compliance.ComplianceScore | internal/queries/audit_queries.go:683-685 | the score times the total is a hundred times the passed checks, within 0 and 100 |
| Compliance.SeverityCountersAreZero | migrations/000001_initial_schema.up.sql:330-331 | over any table the schema admits, NULL included, both severity counters and both severity categories are zero |
| Paging.HasMoreAgreesIff | internal/queries/group_queries.go:107-137 | for the same limit and offset the two end tests agree iff offset plus limit does not overflow 64 bits; past that the content list always announces more |
| Paging.GroupPageShows | internal/queries/group_queries.go:107-137 | row k of a group page is row offset plus k, below the limit; a limit outside 1 to 200 counts as 50, an offset below 0 as 0, and behind the last row the total is 0 |
| Paging.ContentPageShows | internal/queries/content_queries.go:127-188 | the same for a content page, with the counted total and a limit below 1 counting as 20 |
| Paging.WalkStopsIff | internal/queries/content_queries.go:177-188 | for every size and limit the page with the last row announces no more iff its offset plus the limit does not overflow, which sizes up to half the range guarantee |
| Paging.WalkVisitsAllOnce | internal/queries/content_queries.go:177-188 | when it does stop, stepping by the limit while more is announced visits every row once, in order, in as many requests as pages cover the rows |
| Paging.TotalPagesRightIff | internal/queries/content_queries.go:177-180 | the announced number of pages is that number, none for no rows, iff total plus limit minus one does not overflow; otherwise it is not positive |
| Logout.LogoutBlocks | internal/handlers/auth.go:603-612 | a logout leaves the token expired or blacklisted until its expiry iff its SET reached Redis or that held anyway, despite the clock being rounded down to seconds and a late SET |
| Logout.TtlWraps | internal/handlers/auth.go:608-612 | the computed time to live is the exact one up to a multiple of 2 to the 64; an expiry just beyond the range makes it negative and the logout stores nothing |
| Logout.StepKeepsBlockedIff | internal/handlers/auth.go:597-615 | a step unblocks a blocked token iff it replaces the entry by one that ends before the token does: a reached logout naming the same identifier, with the time to live computed in 64 bits, or a session revocation whose longer prefix spells it |
| Logout.RefusedThroughoutIff | internal/middleware/auth.go:91-125 | over every run from a blocked state: all checks that reach Redis, at any moment and after any wait, refuse the token iff no step shortens its entry |
| Logout.NoGapAfterLogout | internal/handlers/auth.go:597-615 | the same from a logout whose SET reached Redis, over every run of waits, other logouts with any claims, session revocations, other writes, deletes and evictions |
| Logout.LaterExpiriesNeverShorten | internal/handlers/auth.go:603-611 | it suffices that no request names the identifier with an earlier expiry, or with one too far away for a duration |
| Logout.EarlierExpiryReopens | internal/handlers/auth.go:599-611 | a logout naming the identifier with the next second as expiry: two seconds later the logged-out token is accepted again |
| Logout.LogoutRevokesIff | internal/middleware/auth.go:116-125 | before expiry a logged-out token is refused iff it carries an identifier, Redis answers, and a SET with a positive time to live reached Redis or the token was blacklisted already; the time to live is positive when the remaining life is a duration |
| Logout.RevokeSessionIsNotLogout | internal/handlers/handlers.go:2859-2861 | revoking a session by identifier does not change whether its token is accepted |
| ArrayCodec.StringArray.Scan | internal/database/database.go:50-81 | the receiver is nil after NULL, empty after the empty braces, the split text after other braced text, and kept on anything else |
| ArrayCodec.WriteThenRead | internal/database/database.go:50-93 | reading back a written array gives it back iff it is nil, or no element has a comma and it is not the list of one empty text |
| ArrayCodec.ReadThenWrite | internal/database/database.go:67-92 | writing back what was read from any braced text gives the same text |

## Left out

- Text that is not valid UTF-8, and patterns beyond the expression compiler's size limits: not modelled, so neither is the fallback comparison they would reach.
- `Glob.Compile` covers the part of the expression syntax the rewriting can produce; anything else is reported as not compiling, and `Glob.PatternAlwaysCompiles` shows it never occurs.
- `fmt.Sprintf("%v")`, `strings.EqualFold` on two arbitrary texts, and the address test of `IpAddress` are parameters of every proof; decoding of JSON documents is a case of the document type.
- Lower-casing and folding of characters outside ASCII is modelled only where the result is an ASCII letter, which is all the code compares with.
- The SQL joins and queries that supply policies, permissions, shares and group documents: their results are arbitrary lists.
- The worker's endless loop in `Start` is its moves in the state machine rather than a method; the producer and worker threads are interleaved steps.
- `AuditWorker.AuditService.DrainEvents`: stated without producers running beside it; the state machine covers them.
- `CorsMiddleware.DynamicCors.RefreshCache`: stated for a call that nothing interrupts; interleaving is in `Cors`.
- Redis eviction under memory pressure, fail-over and clock differences between Redis and the service.
- `Logout.NoGapAfterLogout`: the remaining life of the logged-out token must be a Go duration, as that of every token the service signs is; signatures are an oracle, and the rounding of a wrapped-around time to live to milliseconds is not modelled.
- `ContentStore.Store.CreateContent`: whether the table admits the other columns (title length, JSON, parent, organization) is a parameter.
- `ContentStore.Store.AddCollaborator`: the inviter's id is a uuid; a text that is none is refused on an existing row too.
- `AuditQuery.ListAuditEvents`: the order among equal timestamps is arbitrary, how the database reads the text of a uuid is a parameter, and failures of the database itself, unlike its rejections, are left out.
- `Compliance.ComplianceScore`: exact arithmetic in place of floating point, so rounding of the percentage is not covered.
- `Compliance.GenerateComplianceReport`: the total may be counted on a later table that only grew; rows deleted between the two queries are not covered, nor are the report's recommendation texts.
- `Paging.WalkVisitsAllOnce`: assumes a result that does not change during the walk.
- Removal of user rows that no content refers to, and the content tables' further references (parent item, organization).
- `ContentStore.Store.UpdateContentRequest`: one opaque text stands for the seven editable columns, and its merge with the item read before is a parameter, so two overlapping updates losing each other's columns are not covered.
- The order, type filter and row scanning of the content and group lists, request parsing, responses, sessions, mail, cryptography, tenant guards and the remaining reports: they would only add easy members.
