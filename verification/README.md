# Sablier, modelled and proved in Dafny

Sablier starts workloads when somebody asks for them, keeps each one alive through a session
with a deadline, and stops it when the session ends. This project models the parts of it that
have to be right under every interleaving and every clock, and proves what they promise.

Check it with `dafny verify dfyconfig.toml` (Dafny 4.11).

| file | models |
|---|---|
| `Heaps.dfy` | the binary heap of `pkg/tinykv/heap.go` and `timeout_heap.go`: sift functions, their laws, and the loops in place |
| `TinyKV.dfy` | the expiring store as a state machine; refinement of a plain map, the stale heap as an index, the halving sweep |
| `Ledger.dfy` | what becomes of every value put: held, overwritten, deleted or announced |
| `Snapshots.dfy` | saving and loading the store |
| `Store.dfy` | the store as an object: map and heap updated in place, clock read as often as the source does |
| `Dependencies.dfy` | discovery of the `depends_on` graph and the three-colour cycle search |
| `DependencyWalk.dfy` | the concurrent, memoised, dependency-ordered start as a transition system |
| `DependencyOutcomes.dfy` | what the outcomes of such a start mean in terms of the provider's answers |
| `PendingStarts.dfy` | single flight over `pendingStarts` and `depStarts` as a transition system |
| `StartOutcomes.dfy` | what the tables, the replies and the errors of starts mean in terms of what the goroutines did |
| `StartTables.dfy` | the critical sections of the two tables as methods |
| `Registry.dfy` | the group registry, its incremental updates, and the resync with the provider |
| `AntiAffinity.dfy` | suppress and restore on values: outcome, fixpoint, whole runs |
| `Reconciler.dfy` | the reconciliation loops that update sessions and marks in place |
| `RunningHours.dfy` | cyclic keep-warm windows and the text they are read from |
| `InstanceRequest.dfy` | what a request puts back into the store and for how long; keep-warm over whole runs of the store |
| `ReadyPoll.dfy` | the polling backoff of a blocking request |

How the parts of the program appear:

- **Time.** Clock readings are integers that never decrease. A call that reads the clock several
  times gets a reading for each. `Store.Clock` may let any time pass between two readings.
- **Map iteration order.** Loops over Go maps pick any remaining key; results are proved for
  every order.
- **Timeouts** are never assigned after they are made, so the pointer that heap and map share is
  a shared value.
- **`Less`** is any strict weak order, as the heap needs; the timeout heap orders by deadline.
- **Concurrency.** `DependencyWalk` and `PendingStarts` take one step per critical section, per
  closed channel and per answer of the provider; a run is any sequence of steps. Reconciliations
  hold their own mutex, and in `AntiAffinity` other changes may come between any two visits,
  because a reconciliation can be cut into several one-instance ones.
- **The provider** (`InstanceStart`, `InstanceStop`, `InstanceInspect`, `InstanceDependencies`)
  is an argument: a fixed function where a call asks once, a free choice at each step otherwise.

Where the code and its comments disagree, the model follows the code:

- `equalStringSliceSets` is documented as set equality; with repeated elements it can be true for
  different sets and false for equal ones (`LooksEqualIsSetEquality`). Only the former leaves wrong
  groups (`UpdateIsExactUnlessMisjudged`, `RepeatedLabelIsMisjudged`). The input is an
  "updated" event, which no provider in the repository sends yet; repeated groups can come from
  `pkg/provider/proxmoxlxc/tags.go:30-44`.
- Suppressed instances are documented as restored once no antagonist is active. A restore that is
  itself held back reports no error and clears the mark, so the instance is then not restored
  (`RestoreMayDependOnOrder`). It is restored in every iteration order exactly if no other marked
  dependent that is free at entry belongs to a group it yields to (`RestoredInEveryOrder`).
- `requestStart` has a branch for a start that "succeeded previously"; it is unreachable
  (`ClosedEntriesFailed`).
- A dependency start defers to a managed start so that none is redundant, but not the other way
  round: the two overlap (`ManagedStartMayOverlapFlight`) exactly if a managed start registers
  while `depStarts` holds the name (`OverlapBegins`).

Where one might expect more than the code does:

- One sweep does not always remove everything that has expired (`OneSweepIsNotEnough`). It does
  exactly if every expired key has a timeout in the larger half of the heap in deadline order
  (`OneSweepSuffices`); logarithmically many always do.
- A session renewed in its running-hours window can still end inside it, if a request or a
  seeding had read the store before and writes after (`BegunBeforeMayCut`). It is found until the
  window ends exactly if the last write lasts that long (`WarmIfLastWriteReachesEnd`).

## Model

| member | source | states |
|---|---|---|
| Heaps.SiftUpOrders | pkg/tinykv/heap.go:89-98 | `up` repairs a heap with one broken link above an element |
| Heaps.SiftDownOrders | pkg/tinykv/heap.go:100-118 | `down` repairs the links below an element without breaking those above it |
| Heaps.PushOrders | pkg/tinykv/timeout_heap.go:37-40 | pushing keeps heap order |
| Heaps.PopOrders | pkg/tinykv/timeout_heap.go:45-50 | popping keeps heap order, and the popped element is a minimum |
| Heaps.RemoveOrders | pkg/tinykv/heap.go:68-77 | removing at any index keeps heap order |
| Heaps.FixOrders | pkg/tinykv/heap.go:83-87 | after one element changes to anything, `Fix` restores heap order |
| Heaps.RootIsLeast | pkg/tinykv/heap.go:9-21 | in an ordered heap no element is smaller than the root |
| Heaps.DrainSorts | pkg/tinykv/timeout_heap.go:42-50 | popping until empty delivers the elements in order, none lost |
| Heaps.Heap.Up | pkg/tinykv/timeout_heap.go:52-61 | the loop computes the sift function in place |
| Heaps.Heap.Down | pkg/tinykv/timeout_heap.go:63-81 | the loop computes the sift function in place and reports whether it moved |
| Heaps.Heap.Init | pkg/tinykv/heap.go:41-47 | any array becomes a heap with the same elements |
| Heaps.Heap.Push | pkg/tinykv/heap.go:51-54 | heap order kept, one element added |
| Heaps.Heap.Pop | pkg/tinykv/heap.go:59-64 | heap order kept, a minimum returned and removed |
| Heaps.Heap.Remove | pkg/tinykv/heap.go:68-77 | heap order kept, the element at the index returned and removed |
| Heaps.Heap.Fix | pkg/tinykv/heap.go:83-87 | heap order restored after any single change, same elements |
| TinyKV.StepAgrees | pkg/tinykv/tinykv.go:114-135 | one call keeps the store equal to the plain map up to expired keys, and answers as the plain map does |
| TinyKV.StoreRefinesPlainMap | pkg/tinykv/tinykv.go:114-222 | over every run with any sweeps, Get and Range answer exactly as a map of last put value and deadline |
| TinyKV.SweepsAreUnobservable | pkg/tinykv/tinykv.go:291-367 | two runs with the same calls and different sweeps give the same answers |
| TinyKV.WritesReachTheMap | pkg/tinykv/tinykv.go:210-222 | after a Put the key has the value, the duration and the deadline put; nothing is announced |
| TinyKV.PoppingKeepsIndex | pkg/tinykv/tinykv.go:322-346 | what the popping loop takes off is dead or seen expired; what it leaves at a live root is not expired at that reading |
| TinyKV.RunKeepsIndex | pkg/tinykv/tinykv.go:210-222 | in every reachable store the heap is ordered and holds the own timeout of every entry |
| TinyKV.PoppingHalves | pkg/tinykv/tinykv.go:323-346 | the loop ends at a live unexpired root or leaves at most half of the timeouts, and never removes more than the larger half |
| TinyKV.SweepHalvesOrFinishes | pkg/tinykv/tinykv.go:314-357 | one sweep halves the heap or leaves no entry that had expired; stopping at a live root leaves none expired at that reading |
| TinyKV.OneSweepSuffices | pkg/tinykv/tinykv.go:314-357 | one sweep leaves nothing that had expired when it began if and only if every expired key has a timeout in the larger half of the heap in deadline order |
| TinyKV.OneSweepSufficesForHalf | pkg/tinykv/tinykv.go:323-346 | without stale timeouts, that is if and only if at most half of the entries, rounded up, had expired |
| TinyKV.PoppingTakesDue | pkg/tinykv/tinykv.go:323-346 | from any round on, the loop takes only keys of the earliest timeouts that fit below its counter, and all of those that had expired |
| TinyKV.OneSweepIsNotEnough | pkg/tinykv/tinykv.go:323-328 | of two entries that expired together the next sweep leaves one |
| TinyKV.TwoPutsExpireTogether | pkg/tinykv/tinykv.go:210-222 | such a state is reachable |
| TinyKV.LogarithmicallyManySweepsSuffice | pkg/tinykv/tinykv.go:314-357 | without a Put, floor(log2 n) + 1 sweeps remove every entry expired when the first began |
| TinyKV.HalvingsIsLogarithm | pkg/tinykv/tinykv.go:314-357 | the number of sweeps in that bound is floor(log2 n) + 1 |
| Ledger.EveryPutHasOneFate | pkg/tinykv/tinykv.go:114-135 | every value put is held, overwritten, deleted or announced, exactly one of these |
| Ledger.AnnouncedOnlyWhenDue | pkg/tinykv/tinykv.go:342-358 | an announcement carries the last put value, comes after the current deadline, and removes the key |
| Ledger.AnnouncedAreTheDeparted | pkg/tinykv/tinykv.go:120-135 | reads and sweeps remove exactly the announced keys, with the values they had; a Get announces exactly an expired key |
| Ledger.CallsAreBooked | pkg/tinykv/tinykv.go:114-222 | only a Put overwrites, only a Delete deletes, and what is booked is what the key held |
| Ledger.AnnouncementsAreBooked | pkg/tinykv/tinykv.go:347-381 | over a run the callback gets exactly as many values as are booked announced, each booked under its key |
| Ledger.DueEntriesLeave | pkg/tinykv/tinykv.go:314-367 | after enough sweeps without a Put, no value whose deadline had passed is held |
| Snapshots.LoadedEntries | pkg/tinykv/tinykv.go:249-287 | which entries a load has put so far, and with which deadlines, in any key order |
| Snapshots.RestoreKeepsTheLiving | pkg/tinykv/tinykv.go:224-287 | save then load keeps exactly the keys not yet expired, same values, deadlines never earlier and equal if the clock stands still |
| Store.NextInterval | pkg/tinykv/tinykv.go:291-312 | the wait between sweeps stays positive and within the configured interval |
| Store.NextIntervalFollows | pkg/tinykv/tinykv.go:291-312 | what a sweep returns brings the wait a third of the way there, unless it is zero or longer than the configured interval |
| Store.Store.Put | pkg/tinykv/tinykv.go:210-222 | is the Put step, index invariant kept |
| Store.Store.Get | pkg/tinykv/tinykv.go:120-135 | is the Get step: answer and lazy removal; exactly what it removed is announced, with the value it had |
| Store.Store.Delete | pkg/tinykv/tinykv.go:114-118 | is the Delete step; the timeout stays in the heap |
| Store.Store.Range | pkg/tinykv/tinykv.go:187-207 | the snapshot under the lock is the Range answer, in any iteration order |
| Store.Store.PopExpired | pkg/tinykv/tinykv.go:318-346 | the popping loop with its counter is the popping function |
| Store.Store.DropRenewed | pkg/tinykv/tinykv.go:347-354 | keeps exactly the candidates whose current timeout has expired |
| Store.Store.ExpireFunc | pkg/tinykv/tinykv.go:314-367 | is the Sweep step, whatever the clock does meanwhile; exactly what it removed is announced, and it returns what the new root has left at some instant of the call |
| Store.Store.UnmarshalJSON | pkg/tinykv/tinykv.go:249-287 | is a load for some key order and some readings |
| Dependencies.Resolver.Resolve | pkg/sablier/instance_dependency.go:90-107 | terminates on cyclic relations, records only reachable names, and all of them unless one cannot be resolved |
| Dependencies.CycleSearch.Visit | pkg/sablier/instance_dependency.go:121-139 | finds a walk from the root that ends where it has been, or ranks everything visited |
| Dependencies.DependencyGraphCycle | pkg/sablier/instance_dependency.go:113-142 | true exactly if a cycle is reachable, with a real walk as evidence |
| Dependencies.RankedIsAcyclic | pkg/sablier/instance_dependency.go:109-142 | a rank excludes every cycle |
| Dependencies.PlanStart | pkg/sablier/instance_dependency.go:63-83 | fails exactly if a reachable name cannot be resolved, ignores dependencies exactly if a cycle is reachable, else the graph is exactly what is reachable |
| DependencyWalk.ConditionsNest | pkg/sablier/instance_dependency.go:35-51 | how the four conditions, and unknown ones, relate for every status |
| DependencyWalk.RunKeepsInv | pkg/sablier/instance_dependency.go:148-200 | the invariant of every interleaving |
| DependencyWalk.StartsAreOrdered | pkg/sablier/instance_dependency.go:63-83 | every start names a new instance, comes after each direct dependency was seen to meet its condition, and the root is last |
| DependencyWalk.FailureKeepsRootDown | pkg/sablier/instance_dependency.go:77-83 | after any dependency failure the root is not and never will be started |
| DependencyWalk.RootStartedUnlessFailure | pkg/sablier/instance_dependency.go:63-83 | when the call has returned, the root was started if and only if no dependency's goroutine failed, and success means it was started |
| DependencyWalk.StartedOnlyAfterMiss | pkg/sablier/instance_dependency.go:163-172 | a dependency that already satisfies its condition is left untouched: no other instance than the root is started without an earlier look at it that failed or found the condition unmet |
| DependencyWalk.NeverDeadlocked | pkg/sablier/instance_dependency.go:148-200 | in every reachable unfinished state some goroutine waits for no other and can move |
| DependencyWalk.StepsProgress | pkg/sablier/instance_dependency.go:148-274 | every enabled step takes some goroutine further, except a poll that found its condition not met, which changes nothing |
| DependencyWalk.BoundedlyManyChanges | pkg/sablier/instance_dependency.go:148-274 | no livelock: in every interleaving the steps that change anything are bounded by the graph's size |
| DependencyWalk.SomeoneBelowMoves | pkg/sablier/instance_dependency.go:182-191 | following who waits for whom descends in rank and ends at a goroutine that does not wait |
| DependencyWalk.EveryAnswerIsPossible | pkg/sablier/instance_dependency.go:148-274 | whoever asks the provider may get any answer, whoever waits may be cancelled, and nobody acts after finishing |
| DependencyOutcomes.CallReportsTheStart | pkg/sablier/instance_dependency.go:77-83 | over every run the call reports success exactly if the provider accepted the root's start, and an error exactly if it refused it or a dependency had failed |
| DependencyOutcomes.GoroutinesEndAsTold | pkg/sablier/instance_dependency.go:163-172 | a goroutine ends well exactly if it was told a status that meets its condition, and badly exactly if it was cancelled, asked in vain, or its node failed |
| DependencyOutcomes.NodesEndAsBrought | pkg/sablier/instance_dependency.go:177-200 | a node's `done` closes without an error exactly if its start was accepted or another start took its place, with one exactly if that was refused, given up, or a dependency had failed |
| DependencyOutcomes.NobodyPollsEarly | pkg/sablier/instance_dependency.go:163-200 | whoever waits for a dependency's condition does so only after its node's `done` closed without an error |
| DependencyOutcomes.TraceIsTrue | pkg/sablier/instance_dependency.go:148-240 | the trace holds exactly the InstanceStart calls made and the looks that found a condition met |
| DependencyOutcomes.FailureHasCause | pkg/sablier/instance_dependency.go:63-274 | nothing fails unless the provider refused a start, could not be asked, reported an error, or the call was cancelled |
| PendingStarts.AtMostOneStartPerName | pkg/sablier/instance_request.go:136-164 | at most one goroutine is inside a start of a name, and it is the table's entry |
| PendingStarts.ClosedEntriesFailed | pkg/sablier/instance_request.go:82-93 | an entry with `done` closed carries an error, so the fall-through is unreachable; the cleanup always finds its own entry |
| PendingStarts.FailureReturnedAtMostOnce | pkg/sablier/instance_request.go:29-50 | each failure is returned to at most one request, and once over is pending, returned or dropped exactly once |
| PendingStarts.AtMostOneFlightPerName | pkg/sablier/instance_dependency.go:206-240 | at most one dependency start of a name is in flight |
| PendingStarts.FlightIssuedOnlyWhenIdle | pkg/sablier/instance_dependency.go:206-225 | a dependency start is issued exactly if neither table knows a start of the name |
| PendingStarts.ManagedStartMeetsFlight | pkg/sablier/instance_request.go:138-164 | over every run, a managed start is dispatched while a dependency start of the name is in the air exactly if `depStarts` holds the name and `pendingStarts` no start still going on |
| PendingStarts.OverlapBegins | pkg/sablier/instance_request.go:138-164 | over every run, that registration is the only step by which two starts of one instance come to overlap |
| PendingStarts.ManagedStartMayOverlapFlight | pkg/sablier/instance_request.go:138-164 | two calls from the empty tables that bring such an overlap about |
| StartOutcomes.StartsEndAsReturned | pkg/sablier/instance_request.go:176-204 | over every run a start has failed exactly if its goroutine returned an error, is cleaned up only after a success, and closed exactly if the goroutine ended |
| StartOutcomes.ErrorsAreReal | pkg/sablier/instance_request.go:29-50 | each error handed to a request is that of a start that returned an error before |
| StartOutcomes.TablesMean | pkg/sablier/instance_request.go:77-164 | the tables hold exactly the starts under way, the failures nobody was told, and the dependency starts in the air |
| StartOutcomes.RequestsAreToldTheTruth | pkg/sablier/instance_request.go:29-164 | a request joins exactly the start of its name under way, is told exactly an unreported failure, and registers its own exactly if none is under way |
| StartOutcomes.DependencyStartsAreToldTheTruth | pkg/sablier/instance_dependency.go:206-225 | a dependency start defers exactly to a start in `pendingStarts`, else waits for exactly the flight of its name, else is issued |
| StartOutcomes.StartsAreAsDispatched | pkg/sablier/instance_request.go:138-164 | starts and flights are those dispatched and issued, in order and under their names; a flight is in the air until it lands |
| StartOutcomes.GoroutinesGoOn | pkg/sablier/instance_request.go:176-204 | a start's goroutine can always go on until it has closed `done` |
| StartTables.Tables.RequestStartEnter | pkg/sablier/instance_request.go:81-111 | first critical section, one step |
| StartTables.Tables.RequestStartRegister | pkg/sablier/instance_request.go:138-164 | second critical section, one step |
| StartTables.Tables.ConsumePendingError | pkg/sablier/instance_request.go:29-50 | one step |
| StartTables.Tables.CleanUpSuccess | pkg/sablier/instance_request.go:196-202 | one step, and it always removes the entry of its name |
| StartTables.Tables.EnsureDependencyStarted | pkg/sablier/instance_dependency.go:206-225 | one step |
| StartTables.Tables.DependencyStartReturned | pkg/sablier/instance_dependency.go:232-239 | one step, and it always removes the entry of its name |
| Registry.SyncIsExact | pkg/sablier/group_registry.go:97-117 | one instance gets exactly the requested groups; all other members keep membership and order; no group is left emptied |
| Registry.NewMemberComesLast | pkg/sablier/group_registry.go:97-117 | an instance joins a group as its last member and keeps its place where it was one |
| Registry.CompactInPlace | pkg/sablier/group_registry.go:157-164 | compaction over the same array leaves exactly the other members, in order |
| Registry.GroupRegistry.Sync | pkg/sablier/group_registry.go:97-117 | computes the synced registry in any iteration order, and reports the differences |
| Registry.GroupRegistry.Remove | pkg/sablier/group_registry.go:120-128 | the instance is in no group, others as before |
| Registry.GroupRegistry.RemoveFromGroup | pkg/sablier/group_registry.go:157-170 | the group loses the instance and disappears if nobody is left |
| Registry.GroupRegistry.InstanceSnapshot | pkg/sablier/group_registry.go:131-141 | is the inverse relation |
| Registry.GroupRegistry.Set | pkg/sablier/group_registry.go:37-62 | replaces the registry and says whether it changed |
| Registry.ReconcileGroups | pkg/sablier/group_watch.go:145-195 | from any registry ends with exactly the provider's relation and empties no group; an error or nil changes nothing |
| Registry.EqualStringSliceSets | pkg/sablier/group_watch.go:198-209 | true exactly if lengths agree and every element of the second occurs in the first |
| Registry.LooksEqualIsSetEquality | pkg/sablier/group_watch.go:197-209 | against a duplicate-free list the comparison is set equality if the other list has no duplicates; if it has, the two exclude each other: too generous on look-alikes, too strict on equal sets |
| Registry.UpdateIsExactUnlessMisjudged | pkg/sablier/group_watch.go:98-116 | an updated event leaves exactly the new groups if and only if the list is not misjudged |
| Registry.RepeatedLabelIsMisjudged | pkg/sablier/group_watch.go:98-103 | a concrete misjudged update |
| Registry.HandleGroupEvent | pkg/sablier/group_watch.go:84-141 | what each event does to the registry |
| AntiAffinity.EveryHeldDependentEndsIdle | pkg/sablier/anti_affinity.go:143-180 | whatever the order, every dependent of an active group was already marked or ends with no session |
| AntiAffinity.HeldEndIdle | pkg/sablier/anti_affinity.go:171-212 | whatever fails: a held instance marked before is left as it was; another with a readable session is stopped, marked exactly if the stop succeeds, and loses its session unless stop or delete fails |
| AntiAffinity.SecondReconcileIsIdle | pkg/sablier/anti_affinity.go:143-180 | if no declaring instance is in an antagonist group, a second reconciliation does nothing |
| AntiAffinity.RestoredUnlessHeldAtItsTurn | pkg/sablier/anti_affinity.go:224-232 | whatever fails: a free unmarked instance is left as it was; a marked one is requested once, keeps its mark exactly if the request fails, and comes back exactly if it is neither held at its turn nor fails |
| AntiAffinity.RestoredInEveryOrder | pkg/sablier/anti_affinity.go:143-232 | a marked dependent free at entry comes back in every order if and only if no other marked free dependent belongs to a group it yields to; some order always brings it back |
| AntiAffinity.RestoreMayDependOnOrder | pkg/sablier/anti_affinity.go:171-178 | a concrete state in which one order restores an instance and another never does |
| AntiAffinity.BothMarkedIsReached | pkg/sablier/anti_affinity.go:143-232 | that state is reached by reconciliations as the code makes them |
| AntiAffinity.UndeclaredIsNeverRevisited | pkg/sablier/anti_affinity.go:148-171 | an instance that dropped its label while marked is left as it is |
| AntiAffinity.RestoresAreOwed | pkg/sablier/anti_affinity.go:182-232 | over all runs a restore is requested only for an instance stopped with a session and not restored or forgotten since |
| Reconciler.Reconciler.IsGroupActive | pkg/sablier/anti_affinity.go:249-266 | true exactly if some member has a readable live session |
| Reconciler.Reconciler.AntiAffinityHold | pkg/sablier/anti_affinity.go:238-245 | finds an active antagonist group exactly if there is one |
| Reconciler.Reconciler.DesiredSuppress | pkg/sablier/anti_affinity.go:159-169 | maps every declaring instance to whether any of its antagonist groups is active |
| Reconciler.Reconciler.SuppressForAntiAffinity | pkg/sablier/anti_affinity.go:188-212 | is the suppress step |
| Reconciler.Reconciler.RestoreFromAntiAffinity | pkg/sablier/anti_affinity.go:224-232 | is the restore step |
| Reconciler.Reconciler.ReconcileAntiAffinity | pkg/sablier/anti_affinity.go:143-180 | is a reconciliation for some order of the declaring instances; the marks stay honest, and without errors nobody unmarked keeps a session beside a session of a group it yields to |
| Reconciler.Reconciler.HandleAntiAffinityEvent | pkg/sablier/anti_affinity.go:110-134 | the instance then declares exactly its labels, or nothing and has no mark if it was removed; all other declarations stay; the effect is a run of changes that reconciles exactly if the index changed |
| RunningHours.ClockRoundTrip | pkg/sablier/running_hours.go:45-61 | a clock time written as HH:MM is read back, with any white space around it |
| RunningHours.WindowRoundTrip | pkg/sablier/running_hours.go:17-43 | a window of two different minutes written as HH:MM-HH:MM is read back, however padded |
| RunningHours.ClockMeans | pkg/sablier/running_hours.go:45-61 | a text is a clock time if and only if it is two numbers in range around its only colon, white space around it aside |
| RunningHours.WindowMeans | pkg/sablier/running_hours.go:17-43 | a text is a window if and only if it is two different clock times around its only dash |
| RunningHours.WeekdaysCycle | pkg/sablier/running_hours.go:99-105 | weekdays are constant through a day, follow each other, and are anchored at 1 January 1970 |
| RunningHours.BadLabelsAreInvalid | pkg/sablier/running_hours.go:86-108 | an error is reported exactly for an unreadable window, or unreadable days inside a window |
| RunningHours.ParsedWindowsAreWellFormed | pkg/sablier/running_hours.go:17-61 | the windows that texts parse to are exactly those of two different minutes of the day |
| RunningHours.InsideIsBetween | pkg/sablier/running_hours.go:63-84 | inside exactly if the minute of the day is in the cyclic interval |
| RunningHours.BoundsEncloseNow | pkg/sablier/running_hours.go:63-84 | start <= now < end, the length is the cyclic difference, and less than a day remains |
| RunningHours.OneWindowOneAnswer | pkg/sablier/running_hours.go:63-84 | every instant of a window yields the same bounds |
| RunningHours.WarmOnTheDayItBegan | pkg/sablier/running_hours.go:86-108 | a window counts exactly on the weekday it began, also after midnight |
| RunningHours.RemainingIsExact | pkg/sablier/running_hours.go:106-107 | remaining time is end minus now, strictly between 0 and a day, and the whole window is warm |
| InstanceRequest.Request | pkg/sablier/instance_request.go:213-309 | which requests are served and with which state, for every answer of the store and of the provider; served ones put it for the effective duration, others renew nothing |
| InstanceRequest.SeedSession | pkg/sablier/autowarm.go:43-73 | seeding writes the inspected state for the default duration exactly if there is no session and the instance is ready |
| InstanceRequest.ExtendedOnlyToWindowEnd | pkg/sablier/instance_request.go:283-292 | the duration is the requested one or reaches exactly the window's end |
| InstanceRequest.RenewalReachesWindowEnd | pkg/sablier/instance_request.go:283-296 | inside a window the new deadline is never before its end |
| InstanceRequest.ServedInWindowIsWarm | pkg/sablier/instance_request.go:283-296 | a request served while its state's window is open renews for that window |
| InstanceRequest.LabelsSurvive | pkg/sablier/instance_request.go:248-281 | a found session is put back as it was, unless it was not ready and a fresh inspection replaced it |
| InstanceRequest.RequestJoinsRun | pkg/sablier/instance_request.go:213-309 | a request served in the middle of any run is one of those the run results speak about |
| InstanceRequest.RequestRenewsWarm | pkg/sablier/instance_request.go:248-296 | in any run, a request inside the window that begins on a warm session renews it for that window, if an inspection finds the label unchanged |
| InstanceRequest.SeedSparesWarm | pkg/sablier/autowarm.go:48-66 | seeding never writes over a warm session it began on |
| InstanceRequest.LastWriteDecides | pkg/sablier/instance_request.go:296-296 | in every run a Get finds the last write of the key up to that write's own deadline, and nothing after it |
| InstanceRequest.WarmIfLastWriteReachesEnd | pkg/sablier/instance_request.go:283-296 | after a renewal in a window, the session is found through the rest of it if and only if what was left of the window at the last write is at most the duration written, whoever wrote and whenever it had read |
| InstanceRequest.BegunBeforeMayCut | pkg/sablier/autowarm.go:48-66 | a concrete run in which a seeding or request begun before a renewal ends the session inside the window |
| InstanceRequest.WarmUntilWindowEnds | pkg/sablier/instance_request.go:283-296 | after one renewal in a window the session is found until the window ends, whatever requests and seedings begin later, interleaved with sweeps and other calls, as long as nobody deletes it and inspections find the label unchanged |
| ReadyPoll.PollLoop | pkg/sablier/session_request.go:113-161 | after k timer firings the wait is 100 ms doubled k times, capped |
| ReadyPoll.DelaysAreMonotone | pkg/sablier/session_request.go:118-139 | waits are positive, nondecreasing and double up to the limit |
| ReadyPoll.WaitsFollowFrequency | pkg/sablier/session_request.go:113-139 | waits begin at 100 ms, or the frequency if that is less, and double up to it; without a positive frequency they stay at 100 ms |
| ReadyPoll.RampReachesLimit | pkg/sablier/session_request.go:139-139 | how many firings it takes to reach the limit, exactly |
| ReadyPoll.RechecksAreBounded | pkg/sablier/session_request.go:134-161 | rechecks in time T are at most ceil(log2(maxDelay/100 ms)) + floor(T/maxDelay) + 1 |

## Left out

- HTTP, themes, webhooks, metrics, tracing, logging, configuration and command line: input and output around the core.
- Provider backends and the Valkey store: client libraries outside this repository; the provider's answers are arguments.
- JSON text and time formats: snapshots are maps, deadlines integers.
- InstanceRequest.Request: hold, pending start and start outcome are arguments; what decides them is proved in `Reconciler`, `StartTables` and `DependencyWalk`.
- InstanceRequest.WarmUntilWindowEnds: a request or seeding that read the store before the first renewal and writes after it is covered only if it makes a warm renewal too; what holds otherwise is `WarmIfLastWriteReachesEnd`.
- Parsing of day names and of labels: the model starts from the sets they yield.
- Daylight-saving shifts: local days have 24 hours.
- Machine integers: the overflow guard of `down` and the wrap-around of durations do not arise on unbounded integers.
- Aliasing of Go slices: heap and member lists are sequences, except that compaction runs on an array; `append` to a shared path is a new path.
- `Keys`, `Values`, `Entries`, `Stop` and `SetOnExpire` of the store: the first three also list expired entries not swept yet.
- Delivery of announcements: handing the map to the callback goroutine is modelled, the callback is not.
- The `select` loops of the watchers and `requestSession`'s fan-out: each event, tick or request is one call here.
- `reconcileAntiAffinityRegistry`: rebuilds the index by the `Sync` and `Remove` proved here, for the instances the provider lists.
- `ReadyAt`, provider fields and messages of an instance: they pass through unchanged and decide nothing here.
- Fairness and progress of the provider: somebody can move and only boundedly many moves exist; not claimed is that a dependency becomes healthy.
