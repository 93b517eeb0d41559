# Verified models of the neo-mcp worker

A Dafny project that models the state machines, protocols and text algorithms of the `neo-mcp`
worker and proves what they keep over every run and every input. `dafny verify dfyconfig.toml`
checks it.

What the Go code changes in place is a class, an array or a loop here. Each such method is proved
equal to a specification function, and the properties below are lemmas about that function. Those whose
names end in `Exactly` say in both directions when the function gives which answer.
Instants, durations, tokens, trust counts and scores are reals, integers are unbounded unless noted,
and text is a sequence of characters.

| module | what it models |
|---|---|
| `RateLimit` | the token bucket of a tool, whole runs of it, and the registry's buckets |
| `ReviewProtocol` | approving and rejecting a stored daemon result, with store calls that fail and requests that are retried |
| `CircuitBreaker` | the breaker in front of the RPC handler, with overlapping and with sequential requests |
| `GhostMode` | automatic approval up to a cap, as one decision and as interleaved atomic steps |
| `CacheWarmup` | the parallel batch: a semaphore of four, one slot a job, shared counters |
| `Federation` | who opens a project's knowledge store, and who forwards to whom |
| `CertifyRouting` | splitting a certification batch between workspaces |
| `SemanticIndex` | overlapping chunks of a file, and escaping of Markdown fences |
| `WisdomSection` | the generated section at the end of the master plan, rewritten again and again |
| `SealLog` | the log of certified files, its writer and its reader |
| `MasterPlan` | `MARK_DONE` against the two readers of the plan |
| `FileExtract` | word-bounded search, merging of line windows, printing them |
| `RankFusion`, `ToolStats` (over `Grouping`) | aggregation over workspaces |
| `ToolOutput`, `ContractDrift`, `RetryWindow`, `Latency`, `BrainMerkle` | shortening of long answers, in-place filtering of contract changes, retry loops, the 99th percentile, the text behind the graph digest |
| `Text`, `Numbers`, `Paths`, `Sequences`, `Wrappers` | the parts of Go's `strings`, `fmt` and `path/filepath` that these use, and facts about sequences |

## Where the code and its documentation disagree

The models follow the code; each difference is a lemma.

- Approval is documented to record a success. It does so exactly when no earlier request had set the
  trust flag: a quality rejection that failed after its penalty leaves the flag set, and the approval
  that follows credits nothing (`ApprovalCredit`, `ApprovedAfterPenalty`).
- A result can end as rejected with its item done or its model credited. `DoneExactly`, `CreditExactly`
  and `RejectedDoneExactly` say for which runs; `RejectedAfterCredit` is one.
- A timing rejection is documented to reset the retry count. It leaves it as it was, so the promise holds
  exactly when there is nothing to reset (`RetriesExactly`, `TimingResetsExactly`, `TimingKeepsRetries`).
- A rejection can answer that the item failed for good when the write that marks it so was lost, or when
  there is no item (`FailedPermanentAnswer`, `FailedPermanentForNothing`).
- After a success that overlaps a cool-down, the deadline stays behind and the next trip vetoes nobody
  once it has passed (`AlignmentLost`, `StaleDeadlineArises`, `StaleDeadlineSkipsVeto`).
- The cap of Ghost Mode and the threshold of the breaker are exact for one caller at a time only; the
  bounds under overlap are reached (`GhostMode.OvershootIsReached`, `CircuitBreaker.OvershootIsReached`).
- The coordinator is documented as an exact path or a base name. Only base names matter, so workspaces
  that share one all count as coordinators (`CoordinatorByBase`, `WhoAttempts`). The lock file lets at most
  one of them hold the store, whatever the names (`AtMostOneHolder`); another one has neither a store nor
  anyone to forward to, and refuses every project request (`SecondCoordinatorRefuses`). Every member is
  answered exactly when one registered member is coordinator and its database opens (`AllAnsweredExactly`).
- A forwarded request always becomes a project request: an organisation-tier request, or one for an
  unknown tier, is answered by the project store (`ForwardingIsTransparent`, `OrgRequestRedirected`).
- Escaping is documented to remove every fence. Runs of five or more backticks still hold one
  (`EscapedExactly`, `FiveBackticksStillFence`).
- Fixed-size chunking returns exactly when the data is empty or the overlap is below the chunk size; it
  slices out of range for a larger overlap and never ends for an equal one (`LoopExactly`). When it
  returns, it covers the data exactly when the overlap is not negative or one chunk holds everything
  (`CoveredExactly`, `NegativeOverlapSkips`).
- A plan that ends in the wisdom header without its newline, and has no section yet, loses that line
  (`PlanPrefixSurvives` says for exactly which plans the text before the section survives;
  `CutOffHeaderIsFragile` is one for which it does not).
- Window merging relies on sorted hits of the file, which one of its callers does not provide. For any hits
  in any order nothing else is ever shown (`NothingElseShown`), and nothing is lost exactly when each hit, as
  it is met, has no line in the file, starts no earlier than the last window, or lies whole in an earlier
  one (`NothingLostExactly`, `UnsortedHitsLost`, `HitBeyondTheEndSwallows`).
- Without a lock file no file is reported stale, so before the first seal "never sealed" is not
  reported; from then on exactly the unsealed and the changed files are (`StaleExactly`).
- An answer over the size limit is not always shortened. Up to ten lines always come out longer, and more
  come out shorter exactly when the dropped lines outweigh the marks put in their place
  (`ShorterExactly`, `TruncationShortensExactly`).
- The ids behind the graph digest are written without a separator, so different graphs can share a
  digest (`PairsCollide`, `DifferentGraphsCollide`). Graphs whose ids have permitted digit counts never do
  exactly when one digit count at most is permitted, even if no id may occur twice (`NeverCollideExactly`);
  nor do particular graphs in which no id's decimal begins another's (`PrefixFreeNeverCollide`).
- Whether a file is in the workspace is decided by the place its name stands for, but its owner among the
  other workspaces by the name as it is written. The two agree exactly when the name spells the directory
  of the place (`RoutingAgreesExactly`, `CleanNamesAgree`, `DotDotMisroutes`).

## Model

| member | source | states |
|---|---|---|
| RateLimit.TokenBucket.Allow | cmd/neo-mcp/registry.go:158-176 | the tokens, the refill instant and the answer after one call are those of `AllowStep` |
| RateLimit.ExactAdmission | cmd/neo-mcp/registry.go:158-176 | in any run at non-decreasing instants on a full bucket, a call is granted if and only if that keeps every window ending with it within capacity + rate * duration |
| RateLimit.WindowBound | cmd/neo-mcp/registry.go:158-176 | no window of any run holds more grants than capacity + rate * duration |
| RateLimit.BucketIsOptimal | cmd/neo-mcp/registry.go:158-176 | no other rule that respects every window has granted more calls at any point of the run |
| RateLimit.ToolRegistry.Admit | cmd/neo-mcp/registry.go:73-93 | an unknown tool gets no bucket; a known one gets a full bucket at its first call, and only its own bucket changes |
| RateLimit.ToolsAreIsolated | cmd/neo-mcp/registry.go:81-90 | however calls of different tools interleave, a tool's bucket is the one its own calls alone would have produced |
| RateLimit.RunsAreGrants | cmd/neo-mcp/registry.go:81-93 | a call of a tool is let run if and only if the tool's own bucket grants it |
| RateLimit.ToolRateBound | cmd/neo-mcp/registry.go:79-93 | within any stretch of its calls a tool is let run at most 100 + 2 * seconds times |
| RateLimit.ToolAdmissionExactly | cmd/neo-mcp/registry.go:79-93 | a tool's call is let run if and only if it keeps every stretch of the tool's calls that ends with it within 100 + 2 * seconds |
| RateLimit.NotFoundExactly | cmd/neo-mcp/registry.go:73-93 | after any run of calls a name is answered as not found if and only if it is not registered, which changes nothing, and no call touches another tool's bucket |
| ReviewProtocol.ReviewStore.TrustRecord | pkg/state/daemon_trust.go:586-610 | a success adds 1 to alpha and ends the streak, an override adds 5 to beta and extends it; a failed call changes nothing |
| ReviewProtocol.ReviewStore.MarkTrustApplied | pkg/state/daemon_results.go:141-165 | the flag is set and nothing else changes, unless the write fails |
| ReviewProtocol.ReviewStore.MarkTaskCompleted | pkg/state/planner.go:789-816 | the item becomes done and completed; a missing item is no error |
| ReviewProtocol.ReviewStore.RequeueTaskOrFail | pkg/state/planner.go:831-878 | back in the queue below the retry limit, with a retry counted unless the rejection was about timing; failed for good at the limit; the error text either way; a missing item is not requeued |
| ReviewProtocol.ReviewStore.MarkTaskFailedPermanent | pkg/state/planner.go:885-911 | the item is marked as failed for good with its error and stays otherwise as it was |
| ReviewProtocol.ReviewStore.BudgetRecord | pkg/state/daemon_budget.go:47-53 | the session is charged the tokens and one task; a failure is not an error |
| ReviewProtocol.ReviewStore.Close | cmd/neo-mcp/daemon_handlers.go:602-609 | status and note are set together, or neither |
| ReviewProtocol.ReviewStore.HandleApprove | cmd/neo-mcp/daemon_handlers.go:551-623 | the result, item, trust, budget and answer after an approval, whichever store calls fail |
| ReviewProtocol.ReviewStore.ApplyRejectRequeue | cmd/neo-mcp/daemon_handlers.go:801-819 | what is requeued for which kind, and the two answers that follow from it |
| ReviewProtocol.ReviewStore.HandleReject | cmd/neo-mcp/daemon_handlers.go:680-747 | the same for a rejection of any kind, with and without requeue |
| ReviewProtocol.StepBalances | cmd/neo-mcp/daemon_handlers.go:551-819 | one approval or rejection, with any store calls failing, keeps the books |
| ReviewProtocol.RunsBalance | cmd/neo-mcp/daemon_handlers.go:551-819 | in every run, outcomes are one for the trust flag plus one for each failed flag write; the item moves and tokens are charged at most once plus once for each failed closing write; trust, retries and budget have moved by exactly what was logged; approved means flagged and completed |
| ReviewProtocol.TrustMovesOnce | cmd/neo-mcp/daemon_handlers.go:578-588 | trust outcomes number at most one plus the failed flag writes, and at least one once approved |
| ReviewProtocol.ReviewIsFinal | cmd/neo-mcp/daemon_handlers.go:559-568 | after approved or rejected no sequence of requests changes anything or has an effect |
| ReviewProtocol.ApprovalCredit | cmd/neo-mcp/daemon_handlers.go:578-588 | a successful approval adds a success if and only if the flag was not set, and never a penalty |
| ReviewProtocol.ApprovedAfterPenalty | cmd/neo-mcp/daemon_handlers.go:540-545 | a run that ends approved with a penalty and no success recorded |
| ReviewProtocol.StepItem | cmd/neo-mcp/daemon_handlers.go:551-819 | one request leaves the item done if and only if it completes it, or it was done and the request does not put it back; it spends a retry if and only if it puts it back for a reason other than timing |
| ReviewProtocol.DoneExactly | cmd/neo-mcp/daemon_handlers.go:551-819 | after any run the item is done if and only if it was and nothing put it back, or some approval completed it and nothing put it back since |
| ReviewProtocol.CreditExactly | cmd/neo-mcp/daemon_handlers.go:578-588 | after any run the model is credited if and only if some approval recorded a success |
| ReviewProtocol.CompletionsAccounted | cmd/neo-mcp/daemon_handlers.go:590-609 | in any run completions number at most the approvals plus the failed closing writes |
| ReviewProtocol.RejectedDoneExactly | cmd/neo-mcp/daemon_handlers.go:590-609 | a run that ends rejected leaves an item done that was not if and only if some approval completed it and nothing put it back since, which takes a failed closing write |
| ReviewProtocol.RejectedAfterCredit | cmd/neo-mcp/daemon_handlers.go:590-609 | such a run, which also credits the model |
| ReviewProtocol.RetriesExactly | pkg/state/planner.go:850-867 | a request adds one retry if and only if it puts the item back for a reason other than timing, and never takes one away |
| ReviewProtocol.TimingResetsExactly | cmd/neo-mcp/daemon_handlers.go:791-796 | an accepted timing requeue leaves the retries at zero if and only if they were zero, and counts none |
| ReviewProtocol.TimingKeepsRetries | cmd/neo-mcp/daemon_handlers.go:791-796 | a run in which an accepted timing rejection leaves a spent retry spent |
| ReviewProtocol.FailedPermanentAnswer | cmd/neo-mcp/daemon_handlers.go:707-716 | when the answer says failed for good, there is such an item if and only if there is an item and it was so already, or its write was not lost |
| ReviewProtocol.FailedPermanentForNothing | cmd/neo-mcp/daemon_handlers.go:711-718 | a missing item and a lost write both get that answer |
| ReviewProtocol.StepCharges | cmd/neo-mcp/daemon_handlers.go:590-600 | one request adds the result's tokens and one task to the session if and only if it opens, is an approval past the trust stage, its item write succeeds, session and tokens are not empty, and the budget write succeeds |
| ReviewProtocol.ChargesExactly | cmd/neo-mcp/daemon_handlers.go:590-600 | after any run the session has been charged one task, and the result's tokens, for each such request and for nothing else |
| ReviewProtocol.StepTrust | cmd/neo-mcp/daemon_handlers.go:578-588 | the trust after one request: a success or a penalty exactly when the request records one, untouched otherwise |
| ReviewProtocol.AnswerExactly | cmd/neo-mcp/daemon_handlers.go:551-747 | a request is answered with success if and only if it gets to its closing write and that succeeds; each error names the first store call that failed |
| ReviewProtocol.CloseExactly | cmd/neo-mcp/daemon_handlers.go:602-609 | status, note and the two answers change with a successful answer and only then, to the operator's note or the rejection's |
| ReviewProtocol.StepLifecycle | pkg/state/planner.go:789-911 | the item's lifecycle and error text after one request, by what the request does to it |
| ReviewProtocol.BackInQueueExactly | pkg/state/planner.go:850-867 | what puts the item back: bad timing always, quality while fewer than three retries are spent |
| ReviewProtocol.RejectionTexts | cmd/neo-mcp/daemon_handlers.go:722-812 | the note and the error text of a rejection, kind by kind |
| CircuitBreaker.MCPServer.CheckBreaker | cmd/neo-mcp/server.go:81-102 | recovery after the deadline, veto at five errors with a deadline started once, admission otherwise |
| CircuitBreaker.MCPServer.RecordOutcome | cmd/neo-mcp/server.go:121-129 | a failure adds one, a success clears the counter and leaves the deadline alone |
| CircuitBreaker.MCPServer.HandleMessage | cmd/neo-mcp/server.go:81-129 | a request that nothing overlaps is a check followed, if admitted, by its outcome |
| CircuitBreaker.OvershootBound | cmd/neo-mcp/server.go:81-129 | with at most k requests in flight and any interleaving, errors + running handlers never exceed 4 + k |
| CircuitBreaker.OvershootIsReached | cmd/neo-mcp/server.go:81-129 | for every k some run brings the counter to 4 + k |
| CircuitBreaker.AdmissionNeedsCoolDown | cmd/neo-mcp/server.go:83-102 | no handler is admitted with the counter at five or more; an admission that reset it came more than 30 s after some vetoed request, overlapping or not |
| CircuitBreaker.DeadlineComesFromAVeto | cmd/neo-mcp/server.go:88-91 | a pending deadline is 30 s after an earlier vetoed request |
| CircuitBreaker.AlignmentLost | cmd/neo-mcp/server.go:121-129 | an event leaves a deadline pending below five errors if and only if it is a success recorded while a deadline is pending |
| CircuitBreaker.StaleDeadlineArises | cmd/neo-mcp/server.go:81-129 | a run with two requests in flight that ends with the counter at zero and a deadline pending |
| CircuitBreaker.DeadlineOutlives | cmd/neo-mcp/server.go:81-129 | over every run without a recovery a pending deadline stays as it is, and an arrival is admitted if and only if the counter is below five or that deadline has passed |
| CircuitBreaker.StaleDeadlineSkipsVeto | cmd/neo-mcp/server.go:83-91 | however the breaker was tripped again in such a run, the next arrival resets it and is admitted if and only if it comes after that deadline |
| CircuitBreaker.SequentialInvariant | cmd/neo-mcp/server.go:81-129 | without overlap the counter stays at or below five and a deadline is pending only at five |
| CircuitBreaker.CounterCountsFailures | cmd/neo-mcp/server.go:121-129 | without overlap the counter is the number of failures in a row of admitted requests |
| CircuitBreaker.VetoesKeepDeadline | cmd/neo-mcp/server.go:88-91 | from the first veto on the deadline stays 30 s after it, however many requests are vetoed |
| CircuitBreaker.CoolDownIsExact | cmd/neo-mcp/server.go:83-102 | after a trip a request runs if and only if it arrives more than 30 s after the first vetoed one |
| CircuitBreaker.TripsExactly | cmd/neo-mcp/server.go:81-129 | without overlap, the request after an admitted one is vetoed if and only if at least five admitted requests in a row have just failed |
| GhostMode.EffectiveCap | cmd/neo-mcp/ghost_interceptor.go:62-65 | the configured cap narrowed to 32 bits, 50 when that is not positive |
| GhostMode.CapWrapsAround | cmd/neo-mcp/ghost_interceptor.go:62-65 | a configured cap outside 32 bits counts modulo 2^32 |
| GhostMode.GhostInterceptor.ShouldAutoApprove | cmd/neo-mcp/ghost_interceptor.go:48-99 | decision, count and suspension for every combination of mode, cap, divergence and whitelist |
| GhostMode.GhostInterceptor.Reset | cmd/neo-mcp/ghost_interceptor.go:102-106 | count and suspension are cleared |
| GhostMode.CapBetweenCheckpoints | cmd/neo-mcp/ghost_interceptor.go:48-106 | one caller: the count is the number of approvals since the last checkpoint and never exceeds the cap |
| GhostMode.SuspensionSticks | cmd/neo-mcp/ghost_interceptor.go:55-60 | after a decision that reports suspension nothing is approved until a checkpoint, even if the mode is switched off and on |
| GhostMode.DecisionExactly | cmd/neo-mcp/ghost_interceptor.go:48-99 | a command is approved if and only if the mode is on and not suspended, the count below the cap, and the command whitelisted and inside the workspace; only an approval counts, and only the cap or a path outside suspends |
| GhostMode.ApprovedExactly | cmd/neo-mcp/ghost_interceptor.go:48-106 | over every run a request is approved if and only if the mode was on, the command whitelisted and inside the workspace, nothing had tripped the mode since the last checkpoint, and fewer commands than the cap had been approved since |
| GhostMode.SuspendedExactly | cmd/neo-mcp/ghost_interceptor.go:66-85 | over every run the mode is suspended if and only if some request since the last checkpoint tripped it |
| GhostMode.OffLeavesNoTrace | cmd/neo-mcp/ghost_interceptor.go:49-52 | requests made while the mode is off are never approved, and a run ends as it would have without them |
| GhostMode.UninterruptedSteps | cmd/neo-mcp/ghost_interceptor.go:48-99 | one caller's atomic steps, uninterrupted, are one whole decision |
| GhostMode.CapOvershoot | cmd/neo-mcp/ghost_interceptor.go:66-92 | k callers in any interleaving approve at most cap + k - 1 cycles |
| GhostMode.ApprovalsAfterSuspension | cmd/neo-mcp/ghost_interceptor.go:55-92 | once suspended, only callers already past the test can still approve, once each |
| GhostMode.SuspenderLeavesFewer | cmd/neo-mcp/ghost_interceptor.go:67-69 | after a caller suspends the mode, fewer approvals follow than there are callers: none for one caller |
| GhostMode.ApprovalsAreSafe | cmd/neo-mcp/ghost_interceptor.go:77-92 | in every interleaving each approval is of a command that its caller saw to be whitelisted and inside the workspace |
| GhostMode.OvershootIsReached | cmd/neo-mcp/ghost_interceptor.go:66-92 | some interleaving of k callers approves cap + k - 1 cycles |
| CacheWarmup.Launch | cmd/neo-mcp/tool_cache_warmup.go:151-156 | the launched jobs are the cross product of targets and handlers, in order |
| CacheWarmup.JobAt | cmd/neo-mcp/tool_cache_warmup.go:151-156 | target t with handler h has slot t * handlers + h |
| CacheWarmup.StepKeepsInv | cmd/neo-mcp/tool_cache_warmup.go:157-178 | every step keeps semaphore, counters, slots and wait group in agreement with where the goroutines stand, brings the batch closer to its end, and writes only an empty slot |
| CacheWarmup.EveryRunKeepsInv | cmd/neo-mcp/tool_cache_warmup.go:146-183 | so does every interleaving; steps taken and steps left are five for each job |
| CacheWarmup.AtMostFourRun | cmd/neo-mcp/tool_cache_warmup.go:147-160 | at most four handlers run at once |
| CacheWarmup.StartsExactly | cmd/neo-mcp/tool_cache_warmup.go:147-160 | in every interleaving a waiting job can start if and only if fewer than four others hold the semaphore |
| CacheWarmup.NeverStuck | cmd/neo-mcp/tool_cache_warmup.go:157-181 | until every goroutine has reported, some step can be taken |
| CacheWarmup.BatchResult | cmd/neo-mcp/tool_cache_warmup.go:181-182 | when the wait group opens every slot holds its own job's row, successes + failures = targets * handlers, and failures is the number of failed rows |
| CacheWarmup.SlotResult | cmd/neo-mcp/tool_cache_warmup.go:155-178 | the row in slot t * handlers + h is that of target t and handler h |
| CacheWarmup.ReturnedExactly | cmd/neo-mcp/tool_cache_warmup.go:157-178 | in every interleaving a job counts as failed, or as succeeded, exactly when its handler returned with, or without, an error |
| CacheWarmup.RowExactly | cmd/neo-mcp/tool_cache_warmup.go:169-177 | when the wait group opens a job's row is marked failed if and only if its handler returned an error |
| CacheWarmup.CountersExactly | cmd/neo-mcp/tool_cache_warmup.go:170-175 | at every point of every interleaving the two counters are the numbers of handlers that returned without and with an error |
| Federation.CoordinatorByBase | cmd/neo-mcp/boot_helpers.go:235-241 | a workspace is coordinator if and only if no coordinator is set or the base names agree |
| Federation.LockFiles.BootKnowledgeStore | cmd/neo-mcp/boot_helpers.go:169-185 | a member holds a store if it tries to, nobody has the lock, and the database opens; otherwise the lock is left as it was |
| Federation.LockFiles.Close | pkg/knowledge/store.go:212-223 | a holder that ends gives its store and lock up |
| Federation.ResolveCoordinatorWSID | cmd/neo-mcp/boot_helpers.go:246-258 | the id of the first registered workspace that matches; empty without a match or a registry |
| Federation.MatchIsCoordinator | cmd/neo-mcp/boot_helpers.go:246-258 | the workspace found is a coordinator, and nothing is found only if no registered workspace is one |
| Federation.FirstMatchExactly | cmd/neo-mcp/boot_helpers.go:246-258 | the match is the first registered workspace with the coordinator's base name, and there is none when no workspace has it |
| Federation.ForwardArgs | cmd/neo-mcp/tool_memory.go:888-895 | the forwarded arguments are the caller's with the tier forced to project |
| Federation.RouteExactly | cmd/neo-mcp/tool_memory.go:348-358 | a request goes to the nexus if and only if its tier is "nexus", is forwarded if and only if it has another tier and there is no store and someone to forward to, and reaches the project or the organisation store only for that store's tiers |
| Federation.BootedRouteExactly | cmd/neo-mcp/tool_memory.go:348-358 | the same for the tool a member boots with, in terms of its base name, the registry and the stores it holds |
| Federation.ForwardedAtMostOnce | cmd/neo-mcp/tool_memory.go:348-358 | the receiver of a forwarded request is a coordinator, forwards nothing itself, and answers from its store if it holds one |
| Federation.SomeoneToForwardTo | cmd/neo-mcp/boot_helpers.go:508-522 | a non-coordinator of the project forwards if and only if some registered workspace is a coordinator |
| Federation.ForwardingIsTransparent | cmd/neo-mcp/tool_memory.go:61-82 | forwarding gives the answer the coordinator would have given directly if and only if the tier is one of the three project tiers, or it holds no store and refuses both |
| Federation.OrgRequestRedirected | cmd/neo-mcp/tool_memory.go:888-895 | for any two workspaces of a directory, an organisation request that comes to the coordinator's project store |
| Federation.AtMostOneHolder | pkg/knowledge/store.go:166-197 | in every run of boots and exits, whatever the names, at most one member of the project holds its store |
| Federation.HoldersAttempted | cmd/neo-mcp/boot_helpers.go:169-185 | only a member that tries to open the store, and can, ever holds it |
| Federation.BootExactly | cmd/neo-mcp/boot_helpers.go:169-185 | after any run of boots and exits a member gets its store if and only if it tries, by its base name, its database opens, and no running process holds the same store |
| Federation.ExitExactly | pkg/knowledge/store.go:212-223 | an exit ends the hold of its own process and no other |
| Federation.WhoAttempts | cmd/neo-mcp/boot_helpers.go:169-173 | two members both try to open the store if and only if both carry the coordinator's base name |
| Federation.AtMostOneAttempts | cmd/neo-mcp/boot_helpers.go:169-173 | with distinct base names at most one member tries to open the store |
| Federation.SecondCoordinatorRefuses | cmd/neo-mcp/tool_memory.go:348-358 | while one coordinator holds the store, every other one refuses all project requests |
| Federation.AllAnsweredExactly | cmd/neo-mcp/tool_memory.go:348-358 | once all members have booted, in any order, every member's project request is answered from the store if and only if exactly one registered member is coordinator and its database opens |
| Paths.BaseIdempotent | cmd/neo-mcp/boot_helpers.go:240 | taking the base name twice is taking it once |
| Paths.BaseExactly | cmd/neo-mcp/boot_helpers.go:240 | the base name is the last name of a path, trailing slashes ignored; "/" for slashes alone and "." for nothing |
| Paths.ResolveRender | cmd/neo-mcp/macro_tools.go:1588-1598 | a cleaned absolute path resolves to itself from any working directory |
| Paths.ResolveStep | cmd/neo-mcp/macro_tools.go:1588-1598 | one more component enters a directory, stays, or goes up and stops at the root |
| Paths.RelLeadsThere | cmd/neo-mcp/macro_tools.go:1587-1605 | following the relative path from one directory to another leads there |
| CertifyRouting.InWorkspaceIffPrefix | cmd/neo-mcp/macro_tools.go:1587-1605 | a path is in the workspace if and only if the workspace's cleaned components are a prefix of its own |
| CertifyRouting.WorkspaceOfFile | cmd/neo-mcp/macro_tools.go:1516-1528 | id and path of the owner among the registered workspaces |
| CertifyRouting.OwnerIsLongest | cmd/neo-mcp/macro_tools.go:1516-1528 | the owner matches, no matching root is longer, and it is the first of that length |
| CertifyRouting.MatchesIffPieces | cmd/neo-mcp/macro_tools.go:1519-1521 | for any file name the string test is the test that the root's pieces are a proper prefix of the name's |
| CertifyRouting.MatchesIffComponents | cmd/neo-mcp/macro_tools.go:1519-1521 | for a cleaned absolute file name it is the test for a proper component prefix |
| CertifyRouting.RoutingAgreesExactly | cmd/neo-mcp/macro_tools.go:1516-1528 | routing by the name as written agrees with routing by the place it stands for, for every root but "/", if and only if the name spells the directory of the place |
| CertifyRouting.CleanNamesAgree | cmd/neo-mcp/macro_tools.go:1516-1528 | cleaned absolute names do |
| CertifyRouting.DotDotMisroutes | cmd/neo-mcp/macro_tools.go:1516-1528 | a family of names that do not: "/a/b/../c/x" is routed by "/a/b" |
| CertifyRouting.OwnerIsDeepest | cmd/neo-mcp/macro_tools.go:1516-1528 | for any file name the owner is the deepest registered root that contains it as written, the first of equals; there is none if and only if no registered root contains it |
| CertifyRouting.PartitionCertifyFiles | cmd/neo-mcp/macro_tools.go:1257-1285 | local list and remote groups are the classes of the file list, in order; a group exists only if it has a file |
| CertifyRouting.ClassifiedByComponents | cmd/neo-mcp/macro_tools.go:1263-1283 | any non-empty name is local if the workspace contains its place or no registered root contains it as written, and otherwise goes to the deepest root that does |
| CertifyRouting.EveryFileOnce | cmd/neo-mcp/macro_tools.go:1257-1285 | each element occurs in its own class as often as in the request and in no other class |
| CertifyRouting.SkippedExactly | cmd/neo-mcp/macro_tools.go:1263-1267 | only elements that are no strings, and empty names, are left out |
| CertifyRouting.OwnFilesStayLocal | cmd/neo-mcp/macro_tools.go:1268-1271 | names inside this workspace are local, whoever else registers them |
| SemanticIndex.ComputeIndexChunks | cmd/neo-mcp/radar_semantic.go:84-96 | semantic chunks are passed on; otherwise the outcome is what the loop comes to: chunks, a slice out of range, or no return |
| SemanticIndex.LoopExactly | cmd/neo-mcp/radar_semantic.go:90-93 | the loop returns if and only if the data is empty or overlap < size, slices out of range if and only if overlap > size, and never ends if and only if they are equal |
| SemanticIndex.ReturnedChunks | cmd/neo-mcp/radar_semantic.go:90-93 | what it returns are the windows of the effective size at the multiples of size - overlap that start inside the data |
| SemanticIndex.ChunkCount | cmd/neo-mcp/radar_semantic.go:90-93 | there are length / step chunks, rounded up |
| SemanticIndex.FixedChunkExactly | cmd/neo-mcp/radar_semantic.go:84-96 | as the caller sees it: a positive chunk size is used as given and any other means 3000; chunk i starts at i * (size - overlap) and holds size elements or what is left |
| SemanticIndex.ChunksReassemble | cmd/neo-mcp/radar_semantic.go:90-93 | the first n + 1 chunks, overlaps dropped, are the data up to the end of the last of them |
| SemanticIndex.AllDataCovered | cmd/neo-mcp/radar_semantic.go:90-93 | for 0 <= overlap < size all the chunks together give the data back |
| SemanticIndex.CoveredExactly | cmd/neo-mcp/radar_semantic.go:90-93 | every position of the data is in some returned chunk if and only if the overlap is not negative or one chunk holds all the data |
| SemanticIndex.NegativeOverlapSkips | cmd/neo-mcp/radar_semantic.go:90 | with a negative overlap the next chunk would start beyond the end of each chunk |
| SemanticIndex.SanitizeIsReplaceAll | cmd/neo-mcp/radar_semantic.go:189-197 | the early return changes nothing: the result is always the replacement |
| SemanticIndex.EscapedExactly | cmd/neo-mcp/radar_semantic.go:189-197 | the output holds a fence if and only if the content has a run of five backticks |
| SemanticIndex.FiveBackticksStillFence | cmd/neo-mcp/radar_semantic.go:180-188 | a content whose escaped form still holds a fence |
| SemanticIndex.SanitizeRoundTrip | cmd/neo-mcp/radar_semantic.go:189-197 | deleting the joiners gives every joiner-free content back |
| WisdomSection.Bulleted | cmd/neo-mcp/rem_cycle.go:256-269 | one bullet for the first entry of each topic, in order |
| WisdomSection.TopicsListedOnce | cmd/neo-mcp/rem_cycle.go:258-264 | no topic is listed twice and none is left out |
| WisdomSection.BodyExactly | cmd/neo-mcp/rem_cycle.go:257-270 | the section's text, entry by entry: a dated line, then a bullet for each entry whose topic no earlier entry has |
| WisdomSection.BulletExactly | cmd/neo-mcp/rem_cycle.go:265-269 | a bullet is topic, scope and content, the content cut off after 120 characters |
| WisdomSection.AppendWisdom | cmd/neo-mcp/rem_cycle.go:241-271 | the new text is the text before the first header, the header, and the new body |
| WisdomSection.RewriteKeepsPrefix | cmd/neo-mcp/rem_cycle.go:247-256 | one rewrite keeps the text before the section if and only if the plan does not, lacking a section, end in the header without its last newline |
| WisdomSection.PlanPrefixSurvives | cmd/neo-mcp/rem_cycle.go:241-271 | the same for any number of rewrites of the master plan |
| WisdomSection.PrefixSurvives | cmd/neo-mcp/rem_cycle.go:241-271 | the same for any header that is a single line |
| WisdomSection.CutOffHeaderIsFragile | cmd/neo-mcp/rem_cycle.go:247-251 | a plan whose prefix does not survive |
| WisdomSection.LastRewriteWins | cmd/neo-mcp/rem_cycle.go:247-271 | after any number of rewrites the text is the original prefix, the header and the last body |
| SealLog.SealFile.StampCertifiedFile | cmd/neo-mcp/macro_tools.go:1794-1805 | one more seal at the end of the log, which exists from then on; no change when the log cannot be opened |
| SealLog.ReadSeals | cmd/neo-mcp/radar_compile.go:408-420 | the reader's map, line by line, malformed lines skipped |
| SealLog.SealFile.CollectStaleCertFiles | cmd/neo-mcp/radar_compile.go:401-446 | nothing without a log; otherwise the files that are not in the reader's map or are newer than their entry, in order |
| SealLog.ReadRecoversSeals | cmd/neo-mcp/radar_compile.go:408-420 | reading the log of any sequence of seals gives each name its last seal, and no other name |
| SealLog.LastSealsMeaning | cmd/neo-mcp/radar_compile.go:417-419 | a name is recovered if and only if it was sealed, with the time of its last seal |
| SealLog.SealingLine | cmd/neo-mcp/radar_compile.go:411-419 | a line seals the name before its first bar with the integer after it: blanks, a sign or none, digits, and anything but a digit behind them |
| SealLog.OtherLineSkipped | cmd/neo-mcp/radar_compile.go:411-419 | every other line is skipped |
| SealLog.TrimExactly | cmd/neo-mcp/radar_compile.go:410 | blanks around the log are ignored |
| SealLog.SpaceExactly | cmd/neo-mcp/radar_compile.go:410-417 | which characters are blanks |
| SealLog.StaleExactly | cmd/neo-mcp/radar_compile.go:440-444 | a file is reported if and only if it was never sealed or changed after its last seal |
| SealLog.StaleInOrder | cmd/neo-mcp/radar_compile.go:429-445 | stale files are reported in the order of the directory |
| SealLog.OtherNamesStayStale | cmd/neo-mcp/radar_compile.go:408-444 | a file whose name holds a bar or a newline is reported stale whatever the log holds |
| MasterPlan.MarkLines | cmd/neo-mcp/daemon_handlers.go:334-342 | in place, every open task line of the epic is ticked and counted and every other line stays |
| MasterPlan.MarkDone | cmd/neo-mcp/daemon_handlers.go:324-351 | missing id, nothing open, or the rewritten plan with its count |
| MasterPlan.ParsePlanCounts | cmd/neo-mcp/radar_briefing.go:419-438 | the numbers of open and closed tasks, indented or not |
| MasterPlan.CollectClosedEpics | cmd/neo-mcp/briefing_session_context.go:150-184 | the closed epics, as read section by section |
| MasterPlan.SectionVerdict | cmd/neo-mcp/briefing_session_context.go:159-183 | a section lists its epic if and only if it holds a done task and no open one, whatever stands around it |
| MasterPlan.HeaderOf | cmd/neo-mcp/briefing_session_context.go:151-165 | a header with the decimal of a number opens the section of that number |
| MasterPlan.HeaderExactly | cmd/neo-mcp/briefing_session_context.go:151-160 | only lines that start with the word and a digit are headers |
| MasterPlan.NothingUnderZero | cmd/neo-mcp/briefing_session_context.go:170-172 | tasks before the first header, or in a section numbered zero, list nothing |
| MasterPlan.MarkDoneEffect | cmd/neo-mcp/daemon_handlers.go:334-347 | `marked` tasks move from open to closed, every other line stays, and repeating it finds nothing |
| MasterPlan.MarkExactly | cmd/neo-mcp/daemon_handlers.go:334-347 | a line changes if and only if it was an empty box, the id in bold, and a rest; it is then the ticked box with the same rest; and `marked` is the number of changed lines |
| MasterPlan.WrittenExactly | cmd/neo-mcp/daemon_handlers.go:326-347 | the plan is written if and only if an id is given and some line is such a task |
| MasterPlan.CountEffect | cmd/neo-mcp/radar_briefing.go:424-437 | the effect of marking on the two counts, for any lines |
| MasterPlan.BoxExactly | cmd/neo-mcp/radar_briefing.go:424-436 | a line counts as open, or as closed, if and only if it is an empty box, or one ticked in either case, after blanks and tabs |
| MasterPlan.ClosedEpicsStayClosed | cmd/neo-mcp/briefing_session_context.go:150-184 | every epic listed before is still listed, in order |
| MasterPlan.MarkingClosesSection | cmd/neo-mcp/daemon_handlers.go:335-342 | marking leaves an open task in a section if and only if one does not start with the marked prefix |
| FileExtract.ContainsAtWordBoundary | cmd/neo-mcp/radar_file_extract.go:74-97 | true if and only if some occurrence has no word character on either side |
| FileExtract.WordByteExactly | cmd/neo-mcp/radar_file_extract.go:95-97 | words are made of small letters, digits and underscores |
| FileExtract.MergeWindows | cmd/neo-mcp/radar_file_extract.go:99-110 | the windows of `Windows`, the last one widened in place |
| FileExtract.WindowsSeparated | cmd/neo-mcp/radar_file_extract.go:99-110 | for sorted hits the windows are ordered, inside the file, and at least one line apart |
| FileExtract.WindowsShowWanted | cmd/neo-mcp/radar_file_extract.go:99-110 | for sorted hits a line is in a window if and only if it is within `ctx` of a hit |
| FileExtract.NothingElseShown | cmd/neo-mcp/radar_file_extract.go:99-110 | sorted or not, no other line is in a window |
| FileExtract.NothingLostExactly | cmd/neo-mcp/radar_file_extract.go:99-110 | for any hits in any order, every wanted line is shown if and only if each hit, as it is met, has no line in the file, starts no earlier than the last window, or lies whole in an earlier one |
| FileExtract.SortedIsSafe | cmd/neo-mcp/radar_file_extract.go:99-110 | sorted hits meet that condition |
| FileExtract.UnsortedHitsLost | cmd/neo-mcp/radar_file_extract.go:236-252 | unsorted hits that do not, so that a wanted line is lost |
| FileExtract.HitBeyondTheEndSwallows | cmd/neo-mcp/radar_file_extract.go:236-252 | a hit beyond the end of the file that makes the next one lost |
| FileExtract.RenderWindows | cmd/neo-mcp/radar_file_extract.go:171-179 | the line numbers printed, window by window |
| FileExtract.PrintedAscending | cmd/neo-mcp/radar_file_extract.go:171-179 | separated windows print each of their lines once, in order |
| FileExtract.RenderingIsExact | cmd/neo-mcp/radar_file_extract.go:99-179 | for sorted hits exactly the lines within `ctx` of a hit are printed, each once, in order |
| RankFusion.BuildIncidentRRFMap | cmd/neo-mcp/radar_incidents.go:114-152 | the map is that of all votes merged by id |
| RankFusion.AddMember | cmd/neo-mcp/radar_incidents.go:132-149 | repeated ids are skipped and do not use up a rank |
| RankFusion.FusedScore | cmd/neo-mcp/radar_incidents.go:114-152 | an id has a score if and only if it is listed; the score is the sum of its weights over its local positions and its rank in each usable member list |
| RankFusion.RankSumOfDistinct | cmd/neo-mcp/radar_incidents.go:132-149 | in a list without repetitions an id's weight is 1 / (61 + its rank), and zero when it is not listed |
| RankFusion.IdShape | cmd/neo-mcp/radar_incidents.go:17 | an id is "INC-", eight digits, a hyphen and six digits |
| RankFusion.NoneIsMissed | cmd/neo-mcp/radar_incidents.go:132 | the ids found are those at every position where one starts, in ascending order, since no two overlap |
| RankFusion.FoundExactly | cmd/neo-mcp/radar_incidents.go:132 | an id is found in a text if and only if the text holds it at some position |
| RankFusion.ListedExactly | cmd/neo-mcp/radar_incidents.go:128-149 | an id is listed if and only if the text of some member that did not fail holds it |
| RankFusion.MemberRank | cmd/neo-mcp/radar_incidents.go:132-149 | a member's weight for an id is that of the number of different ids that start earlier in its text |
| RankFusion.NotRanked | cmd/neo-mcp/radar_incidents.go:128-137 | a failed member, and one whose text does not hold the id, gives it nothing |
| RankFusion.WeightExactly | cmd/neo-mcp/radar_incidents.go:147 | the weight of a rank is one over sixty-one more |
| RankFusion.MemberOrderIrrelevant | cmd/neo-mcp/radar_incidents.go:128-150 | the scores do not depend on the order of the members |
| RankFusion.ScoresConserve | cmd/neo-mcp/radar_incidents.go:114-152 | all scores add up to the weights of all the lists |
| ToolStats.AggregateTokenRows | cmd/neo-mcp/tool_tool_stats.go:320-345 | the merged rows listed by descending total, and the total of all rows read |
| ToolStats.TokenOrder | cmd/neo-mcp/tool_tool_stats.go:340-344 | token rows are listed by their totals, largest first |
| ToolStats.TokenRowIsSum | cmd/neo-mcp/tool_tool_stats.go:325-339 | each field of a listed row is the sum over its tool's own rows |
| ToolStats.TokensConserved | cmd/neo-mcp/tool_tool_stats.go:320-345 | the returned total is the sum over the rows in and over the rows out, the cost is conserved, and every tool has a row |
| ToolStats.AggregateToolRows | cmd/neo-mcp/tool_tool_stats.go:290-317 | the merged and rated rows, listed once each by the requested key, descending |
| ToolStats.OrderExactly | cmd/neo-mcp/tool_tool_stats.go:154-170 | which column each requested name sorts by, largest first, and p99 for any other name |
| ToolStats.ToolRowIsWorst | cmd/neo-mcp/tool_tool_stats.go:300-302 | each percentile of a listed row is the largest among its tool's own rows |
| ToolStats.ToolRowIsSum | cmd/neo-mcp/tool_tool_stats.go:303-313 | each count of a listed row is the sum over its tool's own rows, and the error rate is errors over calls |
| ToolStats.RateWithoutCalls | cmd/neo-mcp/tool_tool_stats.go:308-313 | a tool without calls keeps the error rate of its first row |
| Grouping.GroupIsMerge | cmd/neo-mcp/tool_tool_stats.go:290-307 | updating a map entry for each row leaves at each key the merge of exactly that key's rows |
| Grouping.GroupConserves | cmd/neo-mcp/tool_tool_stats.go:320-339 | merging additively conserves the sum |
| Grouping.ListDescending | cmd/neo-mcp/tool_tool_stats.go:308-317 | every entry listed once, by descending rank |
| Grouping.OwnSumReordered | cmd/neo-mcp/radar_incidents.go:128-150 | the sum of a key's rows does not depend on the order of the rows |
| ToolOutput.TruncateToolResult | cmd/neo-mcp/registry.go:119-148 | a short text stays; a long one becomes its first and last five lines with the critical lines between |
| ToolOutput.NoCriticalLineLost | cmd/neo-mcp/registry.go:119-148 | the critical lines are a subsequence of the lines that remain, whatever the number of lines |
| ToolOutput.NoSelectedLineLost | cmd/neo-mcp/registry.go:119-148 | the same for any selection of lines |
| ToolOutput.ShorterExactly | cmd/neo-mcp/registry.go:123-147 | the remaining lines are a shorter text if and only if there are more than ten lines and the dropped ones outweigh the marks; up to ten lines come out longer |
| ToolOutput.TruncationShortensExactly | cmd/neo-mcp/registry.go:119-148 | the same for the answer against the text it replaces |
| ToolOutput.FewLinesAreDoubled | cmd/neo-mcp/registry.go:123-147 | up to five lines are written twice |
| ToolOutput.EdgesExactly | cmd/neo-mcp/registry.go:123-147 | beyond five lines: the first five, the mark and the last five, and beyond ten the selected lines between after a mark of their own |
| ToolOutput.CriticalExactly | cmd/neo-mcp/registry.go:131-137 | a line is critical if and only if one of three words stands in it in any case, or a position in a Go file does |
| ContractDrift.CountCallers | cmd/neo-mcp/macro_tools.go:1981-1989 | the callers counted under a key, missing keys being zero |
| ContractDrift.CountedIffCalled | cmd/neo-mcp/macro_tools.go:1981-1989 | a key has a positive count if and only if some called route is named by it |
| ContractDrift.FilterActionableBreaking | cmd/neo-mcp/macro_tools.go:1980-2003 | filtering into the list's own backing array yields the actionable changes in order and leaves the rest of the array |
| ContractDrift.ReportedExactly | cmd/neo-mcp/macro_tools.go:1973-2003 | a change is kept if and only if its old route or its endpoint had a caller |
| RetryWindow.CountTurn | cmd/neo-mcp/tool_log_transcript.go:164-180 | each tool is counted once a turn |
| RetryWindow.AdvanceRetryWindow | cmd/neo-mcp/tool_log_transcript.go:164-188 | the window slides by one turn and reports the tools called in each of its three turns, none while it is not full |
| RetryWindow.ParseTranscript | cmd/neo-mcp/tool_log_transcript.go:62-97 | a tool is flagged at a turn if and only if that turn and the two tool-bearing turns before it all called it |
| RetryWindow.CallingExactly | cmd/neo-mcp/tool_log_transcript.go:94-97 | a turn without tools is passed over, and every other counts |
| Latency.SiftDown | cmd/neo-mcp/macro_tools.go:1108-1115 | the array after the inner loop of the insertion sort |
| Latency.SiftingOrders | cmd/neo-mcp/macro_tools.go:1107-1116 | sifting orders one more element and keeps all values |
| Latency.ComputeP99 | cmd/neo-mcp/macro_tools.go:1101-1122 | the result is a latency with at most n * 99 / 100 latencies below it and more than that up to it |
| Latency.RankIsUnique | cmd/neo-mcp/macro_tools.go:1117-1121 | only one value has that rank |
| BrainMerkle.ComputeBrainMerkle | cmd/neo-mcp/rem_cycle.go:229-237 | the text hashed is the sorted decimal ids, one after the other |
| BrainMerkle.NotAfterExactly | cmd/neo-mcp/rem_cycle.go:233 | a decimal sorts first when it begins the other, or has the smaller digit where they part |
| BrainMerkle.NodeOrderIrrelevant | cmd/neo-mcp/rem_cycle.go:225-239 | it does not depend on the order of the nodes |
| BrainMerkle.PairsCollide | cmd/neo-mcp/rem_cycle.go:234-237 | a family of different pairs of ids with the same text |
| BrainMerkle.DifferentGraphsCollide | cmd/neo-mcp/rem_cycle.go:234-237 | two different lists of ids with the same text |
| BrainMerkle.PrefixFreeNeverCollide | cmd/neo-mcp/rem_cycle.go:232-237 | while no id's decimal begins another's, two graphs share a text if and only if they have the same ids |
| BrainMerkle.EqualWidthsNeverCollide | cmd/neo-mcp/rem_cycle.go:232-237 | in particular when all ids have equally many digits |
| BrainMerkle.TwoWidthsCollide | cmd/neo-mcp/rem_cycle.go:232-237 | for any two digit counts, two graphs of two different ids each that share a text |
| BrainMerkle.NeverCollideExactly | cmd/neo-mcp/rem_cycle.go:225-239 | graphs whose ids have permitted digit counts never share a text if and only if at most one digit count is permitted, whether or not ids may repeat |
| Numbers.DecimalOfDigits | cmd/neo-mcp/rem_cycle.go:230-232 | a text of digits without a leading zero is the decimal of the number it spells |

## Left out

- Integer widths: counters, ids and line numbers are unbounded; only the narrowing of the Ghost Mode cap to 32 bits is modelled.
- Floating point: tokens, instants, scores, costs and rates are reals, so rounding is not modelled.
- Bytes: text is a sequence of characters, so the cut of a wisdom summary inside a multi-byte character is not modelled; the joiner is one character.
- RateLimit.TokenBucket.Allow: the mutex; a call is one atomic step that reads the clock once.
- ReviewProtocol.ReviewStore.TrustRecord: the tier, its decay and the time stamp, which no side effect of a review reads.
- ReviewProtocol.ReviewStore.HandleApprove: does not check for an empty id, which is refused before any store call, and answers without the trust scores, which only echo the store.
- ReviewProtocol.ReviewStore.HandleReject: the same, and the parsing of the rejection's kind; one result with its item and its trust bucket stands for the store, since a request touches no other, and requests do not overlap.
- ReviewProtocol.ReviewStore.BudgetRecord: one session's rollup stands for the budget store.
- CircuitBreaker.MCPServer.HandleMessage: decoding, responses and the five-minute timeout; a handler is its outcome.
- GhostMode.GhostInterceptor.ShouldAutoApprove: whether a command is divergent or whitelisted is a parameter; the wrap-around of the 32-bit count and a cap that changes between concurrent callers are not modelled.
- CacheWarmup.Launch: choosing targets and handlers from the arguments; handlers are their outcomes and the durations of rows are left out.
- Federation.ForwardArgs: the HTTP call to the coordinator and the reading of its answer; the organisation store's own access rules are a parameter.
- Federation.ForwardedAtMostOnce: takes registry ids to be unique, as the dispatcher that resolves them does.
- Federation.LockFiles.BootKnowledgeStore: the five attempts on a busy lock are one, so a store given up between them is not picked up; the error log, the sync directory and the hot cache.
- CertifyRouting.InWorkspaceIffPrefix: paths are Unix paths and the working directory is known; failures to determine it are not modelled.
- SemanticIndex.ComputeIndexChunks: semantic chunking is a parameter; a loop that never ends is an outcome of its own, since a method here must return.
- WisdomSection.AppendWisdom: reading and writing the file; a plan that cannot be read is not rewritten.
- WisdomSection.Bulleted: cuts a summary at 120 characters where the code counts bytes.
- SealLog.ReadSeals: integers are decimal; base prefixes, underscores and 64-bit overflow in a damaged log are not modelled, nor are blanks outside Latin-1.
- SealLog.SealFile.CollectStaleCertFiles: the listing of the directory is a parameter, and paths are not made relative for the answer.
- Latency.ComputeP99: takes 99 percent of the count exactly where the code multiplies by a float.
- MasterPlan.ParsePlanCounts: the list of open task lines it returns beside the counts.
- MasterPlan.CollectClosedEpics: the line reader's limit of 64 KB a line, and epic numbers beyond 64 bits.
- FileExtract.RenderWindows: prints line numbers; headings, fences and the text of the lines are formatting.
- FileExtract: how hits are found in a file, and extraction of exact function bodies.
- RankFusion.BuildIncidentRRFMap: the origin label and the incident's other fields, which do not enter the score.
- ToolStats.AggregateToolRows: the order of rows with equal keys, which the map iteration leaves open, and fields that only identify a row.
- ToolOutput.TruncateToolResult: counts characters against the size limit where the code counts bytes; answers of another shape, which pass through unchanged; lower-casing beyond ASCII, where no critical word can arise.
- RetryWindow.ParseTranscript: decoding of the log, and the other counters of the report; a turn is the list of tools it calls.
- BrainMerkle.ComputeBrainMerkle: the hash, and the empty digest of an empty graph.
- Hot caches, namespaces and entries of the memory tool; only the routing decision is modelled.
- Generation-stamped caches, HTTP and OAuth endpoints, file walking, tickers, boot wiring, briefing formats and tool schemas.
