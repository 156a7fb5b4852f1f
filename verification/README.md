# Proctor in Dafny

A model of the decision and protocol logic of the Proctor server and its
packages, with proofs about it. Stores, transports, clocks and cryptography are
parameters.

- **Authorization** (`Campus`, `AccessModel`, `AccessScope`, `Authorization`,
  `Delegation`, `AccessDecision`). Roles are bound at the Institution, at an Academic Unit of a
  forest, or at a Class. Access is decided one resource at a time, and as the set
  of scopes in which a principal holds an action. The two forms are related
  exactly, for every principal, action and resource kind; both, and delegation, are
  stated over the stored entities alone; and delegation is followed over whole runs.
- **Serving** (`Lease`, `LeaseProtocol`, `Lifecycle`, `NodeProtocol`, `NodeReport`).
  The timed lease renewal loop against the lease row, and the node as an
  interleaving of Run, Serve's handoff callback, any number of Close calls,
  ForceStop, the shutdown sequence and the lease, with what Run and Close report
  read off the events. Each mutex section, each channel operation, each store call
  of the lease and each stage of the shutdown sequence is one step.
- **Administration batches** (`Batch`, over `Grouping`). Duplicate keys, the
  canonical row of each group, the execution order, and the results.
- **Attempt accounting** (`AttemptKeys`, `Attempts`, `FixedWindow`, `LoginRuns`,
  `LoginSpan`, `LoginDelay`). Counter keys, fixed-window counters, and what they
  bound over every run of logins, resets and other uses of the same cache, with
  the single cache calls of concurrent logins in any interleaving.
- **Mail** (`MailHeader`, `CustomHeaders`, `Newlines`, `Base64`). Printers, and
  the readers of RFC 5322 and RFC 2045 that undo them.
- **Desktop builds** (`DesktopRelease`, `DesktopCompat`), the **mail queue log**
  (`AgeBuckets`, `QueueLog`) and **VFS paths** (`VfsPath`).

`Outcomes`, `Sequences`, `Sorting`, `Text`, `Comparisons` and `Grouping` hold what
the others share. Code that updates state or loops is a class or a method with its
loop; its contract ties it to a function or predicate, and the lemmas are about
that. Sequences of bytes and strings are sequences; durations are nanoseconds in
unbounded integers, with 64-bit and 32-bit limits written out where they matter.

Where the code and its own text disagree the model follows the code:

- The comment at `server/serving_node_lease.go:156-158` says serving stops a full
  stop margin before the lease can expire. `Lease.MarginOverrun` shows that no
  valid timing keeps this, and `Lease.NeverOutlivesLease` what holds instead.
- The timing check does not ask for room for a second renewal;
  `Lease.FirstAttemptGranted` gives the exact condition, which the shipped
  constants meet.
- A token ceiling strictly below a granting unit binding makes lists and searches
  drop what single decisions allow: `Authorization.CeilingGap`, with the exact
  relation in `Authorization.PointFormExact` and
  `Authorization.FormsAgreeExactlyWhen`.
- The totals of a batch need not add up to its rows: an enrollment that returns
  neither an error nor a membership leaves its row without a status
  (`Batch.TotalsFallShort`). `Batch.TotalsExactly` says when they do, and
  `Batch.TotalsOfOthers` that all operations but the two enrollments are safe.
- A lease that Close deleted can be written back by a Start call that overlapped
  another (`LeaseProtocol.OverlappingStartsResurrect`): exactly while some Start has
  its renewal in flight (`LeaseProtocol.WrittenBackExactly`), so never with one Start
  (`LeaseProtocol.OneStartIsEnough`).
- The login delay doubles in 64 bits; above 35 doublings of the base it wraps.
  `LoginDelay.LoginFailureDelay` says exactly when it is the promised delay, which
  covers every maximum the configuration accepts.

## Model

| member | source | states |
|---|---|---|
| `AccessModel.ListActive` | server/store/sqlstore/role_binding_store.go:446-455 | a binding is listed exactly when it is the user's and its half-open interval holds the instant |
| `Campus.AncestorsWalkUp` | server/store/sqlstore/academic_unit_store.go:214-248 | the chain starts at a live unit, follows parents one by one, and ends only where there is no live parent |
| `Campus.AncestryTransitive` | server/store/sqlstore/academic_unit_store.go:214-248 | an ancestor's ancestors are ancestors, and a proper ancestor is strictly shallower |
| `Campus.AncestorsComparable` | server/store/sqlstore/academic_unit_store.go:214-248 | of two ancestors of one unit, one is an ancestor of the other |
| `Campus.DepthBounded` | server/store/sqlstore/academic_unit_store.go:214-248 | a unit's depth is the number of its ancestors, itself included, and no chain visits a unit twice |
| `Campus.ResolvesExactly` | server/app/access_scope.go:523-790 | for every kind, a resource resolves to the chain of the one unit it hangs from through live entities, a Class only with a live period of the Institution or of a unit of its chain, or to the Institution itself; anything else is not found, and mail deliveries are refused |
| `Campus.ResolvedShape` | server/app/access_scope.go:523-790 | whatever kind resolves, the units found are exactly the ancestors of the unit it hangs from, the class is named exactly for a Class, and an Institution resource has no units |
| `Campus.ApplyScopeAncestors` | server/app/access_scope.go:574-586 | the loop collects exactly the chain's units, or finds nothing when one is not live |
| `AccessScope.GatherMembers` | server/app/access_scope.go:360-403 | every gathered scope comes from a granting binding, and every granting binding's scopes are gathered |
| `AccessScope.GatherStopsAt` | server/app/access_scope.go:360-403 | the first scope that does not resolve decides the error of the whole request |
| `AccessScope.RoleGrants` | server/app/access_scope.go:406-433 | one answer per Role agrees with the Role's permissions for every binding |
| `AccessScope.Accumulator.AccumulateBindingScope` | server/app/access_scope.go:436-487 | the accumulator becomes its union with the binding's contribution, or is unchanged on error |
| `AccessScope.AccumulateAll` | server/app/access_scope.go:360-403 | the loop over bindings ends with exactly the gathered union or its first error |
| `AccessScope.AuthorizedScopesAt` | server/app/access_scope.go:360-403 | the listed constraint holds exactly the gathered scopes, each once, in increasing order |
| `Authorization.EvaluateResolvedLoop` | server/app/authorization.go:126-177 | the loop with its Role cache decides exactly whether the credential allows and some active granting binding applies |
| `Authorization.BindingAgrees` | server/app/authorization.go:501-525 | one binding reaches a unit-owned resource exactly when its contribution covers it, or it lies strictly above a ceiling that contains it |
| `Authorization.BindingAtInstitution` | server/app/authorization.go:501-525 | how one binding's contribution and its application relate for resources of the Institution itself |
| `Authorization.UnitOwnedDecision` | server/app/authorization.go:126-177 | for unit-owned resources the decision is coverage by the gathered scopes, or a binding above the ceiling |
| `Authorization.InstitutionDecision` | server/app/authorization.go:126-177 | for resources of the Institution the decision is Institution-wide authority, self service, or a unit held for viewing periods |
| `Authorization.PointFormExact` | server/app/authorization.go:89-124 | for every principal, action and resource kind, the single decision is given by the set form and the bindings above the ceiling alone |
| `Authorization.SetFormSound` | server/app/access_scope.go:360-487 | everything inside the set form is allowed one by one |
| `Authorization.SetFormComplete` | server/app/access_scope.go:360-487 | with no granting unit binding above the ceiling the two forms are equal, periods included |
| `Authorization.FormsAgreeExactlyWhen` | server/app/access_scope.go:463-467 | for a token confined to a unit and an action that accepts some resource hanging from that unit, no covered Class: the forms agree on all resources of periods, or all others, if and only if no granting unit binding is strictly above the ceiling, or the ceiling unit is covered, or, for periods, no unit is held |
| `Authorization.CeilingGap` | server/app/access_scope.go:463-467 | a state where a confined token may view a unit and is listed nothing |
| `AccessDecision.EvaluateExactly` | server/app/authorization.go:89-177 | for every principal, action and resource: who is refused before anything is looked up, what is not found, and otherwise allowed exactly when the credential permits it and a binding of the user in force, whose Role lists the action, reaches the resource, or it is the user's own account |
| `AccessDecision.ScopesExactly` | server/app/access_scope.go:360-487 | for every principal, action and kind: each refusal and error exactly when due, and otherwise the scopes of exactly the bindings in force, confined to the ceiling |
| `AccessDecision.DelegateExactly` | server/app/access_scope.go:269-349 | for every principal, list of actions and target: a malformed or missing target is refused, and otherwise the first action that may not be passed on decides; those that administer access must be held from strictly above |
| `Delegation.CanDelegateActionsAtScope` | server/app/access_scope.go:269-299 | the loop over actions answers exactly whether each is contained in what its holder has, with the first error |
| `Delegation.HeldIsBacked` | server/app/access_scope.go:311-338 | a contained target is backed by one active binding of the delegator at a containing scope, strictly shallower and no Class for protected actions below the Institution |
| `Delegation.DelegationIsBacked` | server/app/access_scope.go:269-299 | every action of a delegated binding was conferred on the delegator at a containing scope, within the depth rule |
| `Delegation.DelegationExact` | server/app/access_scope.go:269-338 | for a principal without ceiling one action can be delegated to a live scope exactly when an active binding reaches the scope, strictly from above if protected |
| `Delegation.ProvenanceExists` | server/app/access_scope.go:269-338 | in every run every granted action of every binding has a chain of containing links back to an initial binding |
| `Delegation.NoAuthorityCreated` | server/app/access_scope.go:269-338 | in every run whatever is held at any scope is covered by an initial binding conferring it at a containing scope |
| `Delegation.ProtectedDepthGrows` | server/app/access_scope.go:293-349 | along any chain of a protected action below the Institution depth grows with each link, and only the last can be a Class |
| `Delegation.ProtectedChainBounded` | server/app/access_scope.go:293-349 | such a chain has at most the forest's depth plus one bindings |
| `Delegation.HeightOfForest` | server/app/access_scope.go:293-349 | every forest has a depth that bounds such chains |
| `Delegation.ProtectedNeedsStrictParent` | server/app/access_scope.go:293-349 | a protected action is passed on below the Institution only from a strictly shallower scope that is no Class |
| `Lease.AttemptEndsInTime` | server/serving_node_lease.go:145-183 | an attempt that is made ends by the stop deadline of the last proven lease, however late its timer fired |
| `Lease.StaysOnTime` | server/serving_node_lease.go:145-183 | through any turns within the limits the next look at the clock or the signal is due within one retry interval of the stop deadline |
| `Lease.LoopExactly` | server/serving_node_lease.go:145-183 | for all turns, the loop goes on exactly while each is granted and renews or fails transiently, signals or stops exactly as the first other one says, and holds as proven the start of the last renewal |
| `Lease.NeverOutlivesLease` | server/serving_node_lease.go:145-183 | with valid timing and the retry interval and lag below the margin, every awaited renewal is over, the loop looks at the clock, or it has signalled, strictly before the row can expire, which is computed from the turns alone |
| `Lease.ShippedDeadline` | server/serving_node_lease.go:21-27 | with the shipped constants and timers on time, within 26 seconds of the start of the last renewal of the 30 the row lives |
| `Lease.ShippedDeadlineTight` | server/serving_node_lease.go:21-27 | the 26 seconds are reached |
| `Lease.TimelyStart` | server/serving_node_lease.go:75-104 | Start, which does not bound its own renewal, leaves the loop on time exactly when that renewal left room for an interval |
| `Lease.FailingLoopSignals` | server/serving_node_lease.go:145-183 | a store that never renews is given up on after a bounded number of turns |
| `Lease.ValidTimingExactly` | server/serving_node_lease.go:68-73 | a timing is valid exactly when its intervals are positive, its lifetime is in range, and an attempt on time after an instant renewal is granted |
| `Lease.FirstAttemptGranted` | server/serving_node_lease.go:68-73 | the first attempt after a success is never refused for want of slack exactly when two renewals, an interval and the margin fit the lifetime |
| `Lease.ShippedFirstAttemptGranted` | server/serving_node_lease.go:21-27 | the shipped constants leave that room, and a timing that passes the check does not |
| `Lease.MarginOverrun` | server/serving_node_lease.go:156-158 | for every valid timing, turns within the limits that delay the signal past the stop margin |
| `Lease.LeaseRuntime.Fail` | server/serving_node_lease.go:185-193 | the failure is recorded, and a queued failure is never replaced |
| `Lease.LeaseRuntime.Maintain` | server/serving_node_lease.go:145-183 | the loop ends in the state of the timing model and records a failure exactly when that state is a signal |
| `LeaseProtocol.EveryRunKeepsInvariant` | server/serving_node_lease.go:75-193 | the invariant of every interleaving of Start, Close, the loop and the reader |
| `LeaseProtocol.FailureIsNeverLost` | server/serving_node_lease.go:185-193 | in every interleaving the runtime fails at most once, and that failure is queued or taken, never dropped |
| `LeaseProtocol.WithdrawnOnceAfterLoop` | server/serving_node_lease.go:113-143 | the lease is deleted at most once, only after the loop ended without failing |
| `LeaseProtocol.CloseWithdraws` | server/serving_node_lease.go:113-143 | in every interleaving, once Close is done the loop has ended, and the lease was deleted exactly when there was a loop and it did not fail |
| `LeaseProtocol.ReturnsTold` | server/serving_node_lease.go:75-143 | in every interleaving one Start call succeeds, the one that stored the lease and started the loop; a Close call reports an error exactly when its deletion failed |
| `LeaseProtocol.RowIsThere` | server/serving_node_lease.go:75-183 | in every interleaving, from a Start call's successful renewal until a deletion the lease row is there |
| `LeaseProtocol.ClosedStartsNothing` | server/serving_node_lease.go:75-143 | whatever follows, a closed runtime starts no loop and begins no renewal |
| `LeaseProtocol.CloseCanReturn` | server/serving_node_lease.go:113-143 | every Close call can return in at most four steps of its own and of the loop it waits for |
| `LeaseProtocol.FailureCanBeTaken` | server/serving_node_lease.go:185-193 | a failure can reach its reader in at most two steps |
| `LeaseProtocol.WrittenBackExactly` | server/serving_node_lease.go:75-143 | from any state with the lease deleted, some continuation writes it back if and only if a Start call has its renewal in flight |
| `LeaseProtocol.WithdrawnStays` | server/serving_node_lease.go:75-143 | in every run a lease deleted with no renewal in flight is never written again |
| `LeaseProtocol.OneStartIsEnough` | server/serving_node_lease.go:75-143 | with one Start call a lease whose deletion succeeded is never there again |
| `LeaseProtocol.OverlappingStartsResurrect` | server/serving_node_lease.go:75-104 | with two overlapping Start calls a deleted lease can be written back |
| `Lifecycle.Server.BeginRunSection` | server/server.go:456-470 | a Server runs once: begins exactly when it neither ran nor is closed, is told it already ran exactly when it did and is not closed; the guarded fields stay sound |
| `Lifecycle.Server.BindSection` | server/server.go:614-628 | the listener has exactly one owner |
| `Lifecycle.Server.HandoffSection` | server/server.go:637-670 | accepted exactly when HTTP thereby comes to serve, and no claim to the listener is made or lost |
| `Lifecycle.Server.PublishReadySection` | server/server.go:899-912 | published exactly when readiness appears, and then the node runs with the listener in HTTP's hands alone |
| `Lifecycle.Server.CloseEntrySection` | server/server.go:757-781 | afterwards no handoff is accepted and nothing published, whatever the context; the node is closed exactly when it was or there is no run to wait for |
| `Lifecycle.Server.BeginStoppingSection` | server/shutdown.go:135-154 | afterwards no handoff is accepted and nothing published, whatever the context |
| `Lifecycle.Server.ReleaseListenerSection` | server/shutdown.go:205-218 | reports a listener exactly when a claim to it goes, which HTTP then never had |
| `Lifecycle.Server.EndRunSection` | server/server.go:491-498 | afterwards every Run is refused as closed, and nothing is handed over or published |
| `NodeProtocol.StepKeepsInvariant` | server/server.go:441-781 | every step of every thread keeps the invariant of the node |
| `NodeProtocol.EveryRunKeepsInvariant` | server/server.go:441-781 | the invariant of the node holds after every interleaving of Run, Serve, Close, ForceStop and the lease |
| `NodeProtocol.StepIsSection` | server/server.go:441-781 | every step of every thread changes the guarded fields only through the Server's sections, called as they ask, and they are sound before and after |
| `NodeProtocol.LifecycleRunsForward` | server/server.go:441-498 | in every interleaving the state never decreases, nothing is published or handed over once stopping or cancelled, and a shutdown result is final |
| `NodeProtocol.ShutdownOnce` | server/shutdown.go:52-55 | the sequence runs at most once, with Run's plan whenever a run began; Run and every Close return only after it, all with the same result |
| `NodeReport.ErrorsTold` | server/shutdown.go:65-111 | in every interleaving the errors of the sequence are exactly the stages whose steps failed, in order, read off the events |
| `NodeReport.ReturnsTold` | server/shutdown.go:52-55 | Run and every Close return exactly those errors |
| `NodeReport.ForcedTold` | server/shutdown.go:107-110 | a finished sequence reports a forced stop exactly when ForceStop came before its last stage |
| `NodeReport.StagesInOrder` | server/shutdown.go:65-111 | in every interleaving the sequence goes through exactly the stages due, in order, each once; HTTP is stopped exactly when it serves or the plan forces it |
| `NodeReport.PlanTellsWhy` | server/server.go:474-752 | in every interleaving Run forces HTTP closed exactly when it read a failed lease or metrics, knows of Serve's return exactly when it read it, and reports a cause exactly when a dependency, startup or Serve failed |
| `NodeReport.StopsOnlyAsked` | server/server.go:675-752 | in every interleaving Run stops without a cause, and a handoff is refused, only when cancelled or closing, or when Serve returned cleanly |
| `NodeReport.EveryRunCanServe` | server/server.go:474-489 | after every interleaving, a run that began, was not asked to stop and saw no failure can become ready in at most eight steps |
| `NodeProtocol.ReadyOnceAfterHandoff` | server/server.go:899-922 | readiness is published at most once, only with the listener in HTTP's hands, and withdrawn before the listener is touched |
| `NodeProtocol.ListenerHasOneOwner` | server/server.go:192-215 | a bound listener is the Server's, HTTP's or closed by the Server, exactly one of these; at the end the Server closed it exactly when the handoff never succeeded |
| `NodeProtocol.LeaseOutlivesServing` | server/shutdown.go:65-111 | the lease is withdrawn only after HTTP's Stop returned, or when HTTP never got the listener |
| `NodeProtocol.TakenFailureForces` | server/shutdown.go:222-278 | a failure read from the channel while HTTP serves has forced the plan or turned the drain into a close |
| `NodeProtocol.ExposedNodeResponds` | server/shutdown.go:251-278 | a node serving on a failed lease always has a step of its own that brings it closer to closing HTTP |
| `NodeProtocol.ExposureNeverGrows` | server/shutdown.go:222-278 | no step of any thread takes such a node further from closing HTTP |
| `NodeProtocol.LeaseFailureClosesHttp` | server/server.go:675-752 | from every such state at most thirteen steps of the node's own reach the closing of HTTP |
| `NodeProtocol.EveryCloseCanReturn` | server/server.go:757-781 | from every state of the node's invariants every pending Close call can be brought to return by steps of the run, the shutdown sequence, HTTP's Stop and the Close calls alone |
| `NodeProtocol.EveryRunLetsCloseReturn` | server/server.go:757-781 | after every interleaving at most sixty-three such steps suffice |
| `Batch.ValidItemExactly` | server/app/academic_administration_batch.go:372-416 | a row is valid exactly when it carries the fields its operation owns, well formed, and no other |
| `Batch.AcceptableExactly` | server/app/academic_administration_batch.go:189-193 | a batch is acceptable exactly when it is keyed, has one to 200 rows and runs at the scope its operation is about |
| `Batch.DuplicateKeyExact` | server/app/academic_administration_batch.go:318-340 | valid rows share a duplicate key exactly when they ask for the same change |
| `Batch.PlanIgnoresOrder` | server/app/academic_administration_batch.go:211-263 | for every rearrangement of the rows eligibility, winners and the execution plan are the same |
| `Batch.OrderIndependent` | server/app/academic_administration_batch.go:211-263 | for every rearrangement the same commands are issued in the same order, the world ends the same, and equal rows get equal results |
| `Batch.ResultsIgnoreOrder` | server/app/academic_administration_batch.go:187-275 | two completed runs of rearranged batches end in the same world, with equal results for equal rows and equal totals |
| `Batch.EveryRowAnswered` | server/app/academic_administration_batch.go:233-263 | every eligible row is answered with its own command's result and every other as invalid |
| `Batch.GroupHasWinner` | server/app/academic_administration_batch.go:304-316 | every eligible row's group has a winner: an eligible row asking for the same change with the least key |
| `Batch.WinnerExecutesFirst` | server/app/academic_administration_batch.go:221-232 | the least key of a group executes before all its duplicates |
| `Batch.PlanInOrder` | server/app/academic_administration_batch.go:221-232 | the plan is all canonical rows by key, then all duplicates by key |
| `Batch.CommandNamesWinner` | server/app/academic_administration_batch.go:243-257 | a command carries its row, its derived key and what is retained, the group of exactly the rows asking for the same change, and the winner's key exactly when its row is not the winner |
| `Batch.DerivedKeyInjective` | server/app/invitation_batch.go:146-148 | a derived idempotency key names its batch key and row key uniquely |
| `Batch.CountKeys` | server/app/academic_administration_batch.go:212-215 | every row's key is counted with its multiplicity |
| `Batch.DuplicateWinners` | server/app/academic_administration_batch.go:304-316 | the loop computes the minimum of each group of eligible rows |
| `Batch.SortRows` | server/app/academic_administration_batch.go:217-232 | a rearrangement of the rows in which duplicates follow, keys increase, and rows that neither puts first stay in the order they came |
| `Batch.SortedRowsPlan` | server/app/academic_administration_batch.go:217-241 | the eligible rows of any such rearrangement are the one plan, strictly ordered |
| `Batch.ExecuteRows` | server/app/academic_administration_batch.go:233-263 | the loop threads the world through the eligible rows in order and leaves each row's result at its own index |
| `Batch.CountRows` | server/app/academic_administration_batch.go:264-274 | the totals count the three statuses |
| `Batch.TotalsExactly` | server/app/academic_administration_batch.go:264-274 | the totals of a completed batch equal its rows if and only if no command of its plan got a reply with neither an error nor a membership, in the world it met |
| `Batch.TotalsOfOthers` | server/app/academic_administration_batch.go:418-489 | for every operation but the two enrollments the totals always equal the rows |
| `Batch.TotalsFallShort` | server/app/academic_administration_batch.go:442-452 | an acceptable batch of one enrollment that completes with totals below its rows |
| `Batch.RowMeaning` | server/app/academic_administration_batch.go:418-584 | for every operation and reply: an error shows its own code if public, duplicates, missing identifiers and silent enrollments show theirs, and any other row names what the command returned, or the user, and whether it was replayed |
| `Batch.CompletedRows` | server/app/academic_administration_batch.go:233-263 | in every completed batch each eligible row tells of the reply its own command got in the world it met, a failed lookup issues none, every other row is invalid, and the world is what the commands left |
| `Batch.FailsPublicly` | server/app/academic_administration_batch.go:568-584 | whatever code a failure has, only a public one is reported |
| `Batch.RunRows` | server/app/academic_administration_batch.go:211-274 | the runner performs the one plan, leaves the world it leaves, and reports every row at its index and the totals |
| `Batch.RunBatch` | server/app/academic_administration_batch.go:187-275 | a batch is refused as a whole, without effect, exactly when it is malformed, denied, or of an operation that asks for a strong recent session that is not there, with the first of these errors; otherwise it completes by its plan |
| `AttemptKeys.PrefixExact` | server/app/authentication_attempt.go:304-307 | the 32-bit length prefix is exact for lengths below four gibibytes and only for those |
| `AttemptKeys.DecodeOfEncode` | server/app/authentication_attempt.go:304-307 | length-prefixed parts are read back |
| `AttemptKeys.SourceMeaning` | server/app/authentication_attempt.go:309-322 | a source counts as its host whatever its port, one without a host as its text, an empty one as unknown |
| `AttemptKeys.KeyExact` | server/app/authentication_attempt.go:280-300 | admissible subjects share a hash input exactly when purpose, dimension, qualifier and every normalised part the dimension uses are equal |
| `Attempts.NormalTTL` | packages/cache/cache.go:51-70 | the least whole millisecond not below the lifetime, or an error exactly when no duration can hold it |
| `Attempts.ValidIntentExactly` | server/app/authentication_attempt.go:255-278 | an intent is valid exactly with one of ten purposes, a window, a bounded qualifier, and positive limits of as many dimensions as limits, on bounded identities and sources |
| `Attempts.ValidateIntent` | server/app/authentication_attempt.go:255-278 | accepts exactly intents with a purpose, a window, at least one limit, no dimension twice and all lengths within bounds |
| `Attempts.AddedExactly` | packages/cache/memory/memory.go:235-309 | an error, exactly on a fault, an unholdable lifetime or an overflow, changes nothing; otherwise the key holds what is reported and every other key what it held |
| `Attempts.CountingExactly` | packages/cache/memory/memory.go:235-309 | for every sequence of increments, the counter is the sum of those since the one that opened its window and expires a lifetime after that one |
| `Attempts.Accounting.Add` | packages/cache/memory/memory.go:235-309 | a live counter keeps its deadline, an absent or expired one starts a window, an error changes nothing |
| `Attempts.Accounting.Account` | server/app/authentication_attempt.go:146-177 | every limit is charged before any is judged; admitted exactly when no charge failed and every count is within its maximum; the receipt names each dimension's counter |
| `Attempts.Accounting.Reset` | server/app/authentication_attempt.go:179-192 | deletes the one counter the receipt names, or fails without effect |
| `Attempts.Accounting.FailureSubject` | server/app/authentication_attempt.go:202-216 | a subject exactly for a valid purpose and a non-empty bounded identity |
| `Attempts.Accounting.Failures` | server/app/authentication_attempt.go:220-229 | reads by adding nothing, which may open the window |
| `Attempts.Accounting.RecordFailure` | server/app/authentication_attempt.go:232-242 | counts one failure in the subject's window, or changes nothing without a window or on a fault |
| `Attempts.Accounting.ClearFailures` | server/app/authentication_attempt.go:245-253 | deletes the subject's counter and no other |
| `FixedWindow.WhileLive` | packages/cache/cache.go:72-79 | while one counter lives its deadline stays and everything admitted is counted in it |
| `FixedWindow.OneWindow` | packages/cache/cache.go:72-79 | within the lifetime of a counter opened at a step at most the maximum is admitted |
| `FixedWindow.AnySpan` | packages/cache/cache.go:72-79 | in any span shorter than the lifetime at most twice the maximum, and one less where every step counts |
| `LoginRuns.UndisturbedAccount` | server/app/authentication_attempt.go:146-177 | a call that enters and charges its limits one cache call at a time, with nothing in between, leaves the counters the account method leaves and admits exactly what it admits |
| `LoginRuns.EventMoves` | server/app/authentication_attempt.go:146-177 | every cache call of every login, reset of another subject or failure counter leaves a login counter alone or moves it by one by the fixed window's rules, and admits only within the maximum |
| `LoginRuns.ChargesExactly` | server/app/authentication.go:764-794 | the charges that reach a login counter are those of the local logins of that normalised source, or identity and source, each at its own limit |
| `LoginRuns.SourceNeverForgotten` | server/app/authentication.go:634-641 | the resets of a successful login never reach a source counter |
| `LoginRuns.CountedOnce` | server/app/authentication_attempt.go:146-177 | in every run no admitted login is counted twice for a counter |
| `LoginRuns.CountedSomewhere` | server/app/authentication_attempt.go:146-177 | in every run each admitted login that concerns a counter is counted |
| `LoginRuns.WindowLimit` | server/app/authentication_attempt.go:146-192 | in every interleaving of the logins' single cache calls, between resets, a login counter admits at most its maximum in the window it opens and at most twice that less one in any span shorter than the window |
| `LoginRuns.SourceLimit` | server/app/authentication.go:764-794 | in every such run, whatever succeeds, one source is admitted at most MaximumSourceAttempts times per window and at most twice that less one in any span |
| `LoginSpan.SpanReached` | server/app/authentication.go:764-794 | for every maximum and every window of more than a nanosecond, a run from the empty cache reaches twice the maximum less one, for the source and for the identity and source |
| `LoginDelay.PromisedDoubles` | server/app/authentication.go:62-76 | the promised delay is nothing below the threshold, a quarter of a second at it, and with each further failure twice what it was, never more than the maximum |
| `LoginDelay.LoginFailureDelay` | server/app/authentication.go:62-76 | the loop gives the promised delay if and only if the maximum or the number of doublings keeps clear of 64-bit overflow |
| `LoginDelay.DoubledWrapped` | server/app/authentication.go:72-74 | after overflow the wrapped value never again reaches the largest exact one |
| `MailHeader.Buffer.WriteHeader` | packages/mail/compose.go:291-319 | appends exactly the folded lines, each ended by CRLF |
| `MailHeader.FoldingLines` | packages/mail/compose.go:300-318 | the text written token by token is the text of the folded lines |
| `MailHeader.LineLengths` | packages/mail/compose.go:291-319 | every line is at most 78 bytes, or is the bare name, or holds one word |
| `MailHeader.FoldsOnlyWhenFull` | packages/mail/compose.go:300-318 | a line is broken only where the next token would have passed 78 bytes |
| `MailHeader.CustomLineLimit` | packages/mail/message.go:161-197 | lines of validated custom headers stay within the 998 bytes of section 2.1.1 of RFC 5322 |
| `MailHeader.WordsAreWords` | packages/mail/compose.go:321-327 | tokens are runs of characters that are not white, taken from the value |
| `MailHeader.RoundTrip` | packages/mail/compose.go:291-327 | splitting and unfolding a printed block as sections 2.2 and 2.2.3 of RFC 5322 say gives the same names in order with the same words |
| `MailHeader.FieldExactly` | packages/mail/message.go:161-197 | a name is valid exactly with 1 to 78 printable ASCII characters and no colon, a value exactly with 1 to 900 printable ones and tabs |
| `CustomHeaders.LowerExactly` | packages/mail/compose.go:113-119 | capital letters become their small ones in place, and the rest stays |
| `CustomHeaders.ValidHeadersExactly` | packages/mail/message.go:161-197 | headers are valid exactly when at most 50, with as many names in small letters as names, each well formed, with values and not managed |
| `CustomHeaders.ValidateHeaders` | packages/mail/message.go:161-197 | in any map order, accepts exactly bounded sets of valid, unreserved headers with values, no two names equal but for case |
| `CustomHeaders.OneOrder` | packages/mail/compose.go:113-119 | valid headers have one order, whatever order the map yields |
| `CustomHeaders.SortNames` | packages/mail/compose.go:113-119 | whatever order the map yields, the sorted names are that one order, increasing by their small letters |
| `CustomHeaders.WriteCustom` | packages/mail/compose.go:113-124 | the header block written depends on the headers alone |
| `CustomHeaders.CustomRoundTrip` | packages/mail/compose.go:113-124 | the block of valid custom headers reads back as every name in order with every value's words |
| `Newlines.ThreePassesAreOne` | packages/mail/compose.go:344-348 | the three passes equal one scan that turns each CRLF, CR or LF into CRLF |
| `Newlines.ScanLeavesNothingBare` | packages/mail/compose.go:344-348 | no CR or LF stands alone afterwards |
| `Newlines.FixedExactly` | packages/mail/compose.go:344-348 | exactly the texts without a bare CR or LF are left as they are |
| `Newlines.Idempotent` | packages/mail/compose.go:344-348 | normalising twice is normalising once |
| `Base64.EncodeBase64` | packages/mail/compose.go:350-361 | the output is the text of the encoding cut into lines |
| `Base64.LinesFull` | packages/mail/compose.go:350-361 | every line but the last has 76 characters, the last at most 76, and together they are the encoding |
| `Base64.DecodeOfEncode` | packages/mail/compose.go:351 | decoding undoes the encoding for all data |
| `Base64.RoundTrip` | packages/mail/compose.go:350-361 | splitting the body, dropping line breaks and decoding as section 6.8 of RFC 2045 says gives the data, with lines of at most 76 characters |
| `DesktopRelease.NumericByValue` | server/model/desktop_compatibility.go:434-447 | numbers without leading zeros are compared by value |
| `DesktopRelease.ParseExactly` | server/model/desktop_compatibility.go:289-432 | a release is valid exactly when it is a semantic version of at most 64 characters: three decimal numbers, prerelease and build identifiers |
| `DesktopRelease.ParsePrinted` | server/model/desktop_compatibility.go:366-395 | every such version, printed, is parsed back |
| `DesktopRelease.CompareExactly` | server/model/desktop_compatibility.go:298-350 | the comparison is semantic precedence either way: core numbers by value, a prerelease before its release, identifiers by value or text with numbers first, the shorter first; an error exactly for an invalid release |
| `DesktopRelease.OrderIsComparison` | server/model/desktop_compatibility.go:298-350 | precedence is a total preorder in which only equal core and prerelease are equal |
| `DesktopRelease.EqualExactly` | server/model/desktop_compatibility.go:298-350 | valid releases are equal in precedence exactly when they are the same text up to build metadata |
| `DesktopRelease.CompareReleases` | server/model/desktop_compatibility.go:298-350 | the loops compute that precedence, or an error when a release is invalid |
| `DesktopCompat.NewCatalog` | server/app/desktop_compatibility.go:102-129 | accepts exactly valid builds with distinct identifiers and keeps them all in order |
| `DesktopCompat.ValidExactly` | server/model/desktop_compatibility.go:242-287 | a query is valid exactly with a version, a build identifier, two selectors and a positive protocol, a catalog entry exactly with a known platform and architecture instead |
| `DesktopCompat.PolicyExactly` | server/model/desktop_compatibility.go:133-162 | a policy is valid exactly when its minimum is empty or a release and at most 256 revoked builds each follow the one before |
| `DesktopCompat.ValidatePolicy` | server/model/desktop_compatibility.go:133-162 | the loop accepts exactly sorted, distinct, valid revocations within the bound |
| `DesktopCompat.BinarySearch` | server/app/desktop_compatibility.go:406-410 | finds exactly the revoked identifiers |
| `DesktopCompat.CatalogBounds` | server/app/desktop_compatibility.go:437-468 | the bounds are attained by some build and passed by none |
| `DesktopCompat.BoundsDecide` | server/app/desktop_compatibility.go:382-405 | testing against the bounds and the policy minimum is testing against every build of the target |
| `DesktopCompat.Evaluate` | server/app/desktop_compatibility.go:355-423 | the staged check gives the reason the catalog's builds and the policy imply, each error exactly when due, and bounds that tell of every build declared for the target whether its release and protocol are in range |
| `DesktopCompat.ReasonExactly` | server/app/desktop_compatibility.go:355-423 | the reason given is the first, in the source's order, that holds of the catalog's builds for the declared platform and architecture and of the policy, by semantic precedence |
| `DesktopCompat.CompatibleExactly` | server/app/desktop_compatibility.go:355-423 | compatible exactly when the catalog holds the exact build, at or above the minimum and not revoked |
| `DesktopCompat.TighteningNeverAdds` | server/app/desktop_compatibility.go:355-423 | a tighter policy never makes a build compatible |
| `DesktopCompat.ResolveAttempt` | server/app/desktop_compatibility.go:192-217 | not compatible unless the policy is ready and the check says compatible; otherwise the first exact build of the catalog with the policy's revision |
| `DesktopCompat.ResolvesExactly` | server/app/desktop_compatibility.go:192-217 | the missing-from-catalog error is never reached; an attempt resolves exactly when ready and allowed, to that very build |
| `AgeBuckets.AgeBucket` | server/app_adapters.go:616-623 | the loop finds the first boundary above the age |
| `AgeBuckets.SameBucketExactly` | server/app_adapters.go:616-623 | two ages share a bucket exactly when no boundary lies between them |
| `QueueLog.Telemetry.RecordSnapshot` | server/app_adapters.go:518-563 | the queues become the snapshot's latest metrics, bucket and queue maps have the same keys, and the log has one entry for every changed or removed key and for no other |
| `QueueLog.ReplayTells` | server/app_adapters.go:518-563 | reading one snapshot's log, in any order, brings a true view up to date |
| `QueueLog.LogTells` | server/app_adapters.go:518-563 | for every sequence of snapshots the log alone gives every present queue as it is and every removed one as empty |
| `VfsPath.PathForm` | packages/vfs/path.go:11-53 | a path is accepted exactly when it is portable and names something, and gives its own segments other than empty and "." joined by slashes |
| `VfsPath.PathIdempotent` | packages/vfs/path.go:11-13 | the result is relative, has only proper segments, and gives itself |
| `VfsPath.SamePathExactly` | packages/vfs/path.go:11-13 | two accepted paths give the same text exactly when their segments agree |
| `VfsPath.PrefixForm` | packages/vfs/path.go:15-53 | a prefix is accepted exactly when portable, and keeps a trailing slash exactly when it had one and names something |
| `VfsPath.PrefixIdempotent` | packages/vfs/path.go:15-19 | normalising a prefix twice is normalising it once |
| `VfsPath.OptionsIdempotent` | packages/vfs/vfs.go:102-125 | options are accepted exactly when their texts, delimiter and limit are allowed, and normalising is idempotent |

## Left out

- Stores, migrations, Redis, the memory cache's capacity and eviction, HTTP, TLS, metrics and tracing adapters: ports of the model, or not part of it.
- The CRUD services, onboarding, exams, and the rest of the repository: thin sequences over the modelled decisions.
- Construction and wiring of services, configuration loading and command line tools: linear recipes with easy properties.
- Password hashing, TOTP, proof of possession and SHA-256: digests are represented by what is hashed.
- MIME multipart, quoted-printable, media types and address parsing: library internals.
- Message size accumulation and recipient de-duplication (packages/mail/message.go): easy members.
- Wall-clock skew and scheduling delay, beyond the lag of the lease timers and the order of steps.
- Authorization.Evaluate: of Principal.Validate only the MFA restriction and the token's action scopes are modelled; the other identity fields take no part in a decision.
- AccessScope.AuthorizedScopesAt: reads bindings, roles and units from one state, so a concurrent change between two reads is not captured.
- Delegation.NoAuthorityCreated: runs keep the unit forest and the Roles fixed, as bindings change.
- Lease.LeaseRuntime.Maintain: the environment's turns are given as a sequence; the timer and the context are their order.
- NodeProtocol.LeaseFailureClosesHttp: says that the node's own steps suffice, not that a scheduler takes them.
- NodeProtocol.EveryCloseCanReturn: the same, and HTTP's Stop is taken to return.
- NodeProtocol.ShutdownOnce: an error is the list of stages that failed; its text is not modelled.
- Batch.RunBatch: the answers of the authorization and of the session check are given; the progression flag, which picks the action to authorize, is not modelled.
- Batch.ExecuteRows: the port's command is one call; which service it reaches is not modelled.
- Attempts.Accounting.Add: faults stand for a cancelled context, an invalid key, a full cache or a value that is not a counter; negative increments do not occur.
- LoginRuns.WindowLimit: the cache's clock never goes back, and the runs begin with an empty cache.
- LoginSpan.SpanReached: for policies with equal maxima.
- AttemptKeys.KeyExact: trimming, lower casing and host splitting are library functions that grow a text at most threefold.
- MailHeader.RoundTrip: text is ASCII; values that are not are encoded by the library before they are written.
- CustomHeaders.ValidateHeaders: a name is reserved when it equals a managed name but for case, which is what its canonical form decides.
- DesktopCompat.NewCatalog: an entry's fingerprints, manifest and native agreement are one bit.
- DesktopCompat.ValidatePolicy: the policy's identity, times, message and availability are one bit.
- DesktopCompat.Evaluate: the compatibility class, which the reason fixes, and the policy's message and retry time, which are copied, are not part of the result.
- QueueLog.Telemetry.RecordSnapshot: delivery counters, health and the sorted snapshot are not modelled.
