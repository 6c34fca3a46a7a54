# A Dafny model of go-zero's core algorithms

This project models the stateful algorithms and the concurrent protocols at the core of go-zero, and
proves what each of them is for. `dafny verify dfyconfig.toml` checks all of it.

| files | component |
|---|---|
| `KeywordTheory`, `KeywordTrie` | Aho-Corasick keyword matcher and text filter (`core/stringx`) |
| `WheelTheory`, `TimingWheel`, `SafeMap` | hashed timing wheel and its two-generation index (`core/collection`) |
| `PeriodicalExecutor` | adders, background flusher, Flush and Wait (`core/executors`) |
| `RouteTheory`, `RouteTree` | backtracking route search tree (`core/search`) |
| `RingTheory`, `ConsistentHash` | consistent-hash ring (`core/hash`) |
| `WindowTheory`, `RollingWindow`, `GoogleBreaker` | rolling window and the breaker on it (`core/collection`, `core/breaker`) |
| `CacheAside` | cached rows and cached indexes beside a database (`core/stores/cache`, `core/stores/sqlc`) |
| `SingleFlight` | sharing of one execution per key (`core/syncx`) |
| `SqlTheory`, `SqlFormat` | query formatter and string escaper (`core/stores/sqlx`) |
| `TopTheory`, `TopK`, `Metrics` | heap selection and percentiles (`core/stat`) |
| `TokenLimiter` | token-bucket script and rescue mode (`core/limit`) |
| `Decimals` | decimal numerals, printed and read (`strconv` as used by `core/hash` and `core/stores/sqlx`) |
| `Arith`, `Options` | division with remainder; the optional value |

Code that updates objects in place is modelled by classes and loops; each method is proved against a
specification function, and what the component promises is proved about that function. The concurrent
components (`PeriodicalExecutor`, `SingleFlight`, the rescue mode of `TokenLimiter`) are state machines
whose events are the atomic steps of the goroutines, for any number of goroutines and any interleaving.

Modelling conventions: clocks, random draws, hash functions, JSON, and failures of Redis or the database
are parameters with stated contracts; one clock reading per operation; floats are reals; map iteration
order is arbitrary; strings are lists of characters.

## What turned out different from what one would expect

- **MoveTimer** can miss its target by exactly one revolution of the wheel. It fires on the promised tick
  if and only if it was re-inserted or its old and target slots lie on the same side of the current
  position (`WheelTheory.MoveDue`). With a delay below one interval it executes at once and then again
  (`WheelTheory.ShortMoveExecutesTwice`).
- **Wait** may return before a task whose Add has returned is executed, even when Adds never overlap each
  other: another Add takes the task in its batch before Wait's flush gets to it, whether that Add was in
  flight when Wait was called (`PeriodicalExecutor.WaitCanReturnEarly`) or came later
  (`PeriodicalExecutor.WaitCanMissALaterAdd`). Exactly the tasks that are executed or inside the wait group at
  the call are waited for (`PeriodicalExecutor.WaitExactlyAtCall`); all are if no Add overlaps the Wait
  (`PeriodicalExecutor.WaitAlone`).
- **format** drops a `:` or `$` that no digit follows (`SqlTheory.BareVanishes`), and formats the text after a
  quote that is not closed a second time (`SqlTheory.OpenQuoteIsScannedTwice`). `SqlTheory.FormatExactly` says
  for every query exactly when nothing but the placeholders changes.
- **The consistent-hash ring** can lose keys of nodes that stay. Remove takes one key away for every label a
  node could have, owned or not; the others keep theirs if and only if no label the node did not own sits on
  a point of another (`ConsistentHashing.ConsistentHash.Remove`). That always holds for nodes added with all
  replicas, and without collisions. Labels of nodes named `x` and `x1` clash under every hash function
  (`RingTheory.NumberedNamesClash`), and then the last key can go and every lookup panics
  (`ConsistentHashing.LookupCanPanic`). Minimal disruption can fail where three nodes share a point
  (`ConsistentHashing.RemovalCanMoveOthers`).
- **The token script** over-grants when its clock goes back and forth (`TokenLimiter.BackwardClockOvergrants`).
  The bound for a span holds, for a given limiter, if and only if what the clock refills on its way forward
  keeps within the span's worth (`TokenLimiter.SpanBoundExactly`). Redis expires
  keys by its own clock: when the tokens expire, the answers stay the same if and only if the bucket would
  have been full by the clock of the caller (`TokenLimiter.ExpiryExactly`). A request that fails while the
  monitor is stopping does not switch to rescue mode (`TokenLimiter.FailureStartsRescue`).

## Model

| member | source | states |
|---|---|---|
| `KeywordTheory.Longest` | core/stringx/node.go:65-86 | what the current node means: a suffix of the text read so far that is a path of the trie |
| `KeywordTheory.LongestIsMaximal` | core/stringx/node.go:65-86 | no longer suffix is a path, and every other suffix that is a path is a suffix of it |
| `KeywordTheory.FailIsLongestProperSuffix` | core/stringx/node.go:38-63 | a node is the fail target exactly when it spells the longest proper suffix in the trie |
| `KeywordTheory.StepExtendsLongest` | core/stringx/node.go:70-86 | climbing the fail links for one character keeps "longest suffix that is a path" |
| `KeywordTheory.FailOfChild` | core/stringx/node.go:47-61 | the fail target of a child is one such step from the fail target of its parent |
| `KeywordTheory.SkipToLongest` | core/stringx/node.go:88-96 | no occurrence is lost by looking only at suffixes that are paths |
| `KeywordTheory.ScanStep` | core/stringx/node.go:70-86 | one character of the scan and the reports it owes |
| `KeywordTheory.ReportStep` | core/stringx/node.go:88-96 | one fail link of the reporting loop skips no word |
| `KeywordTheory.OccurrencesAreExactlyTheMatches` | core/stringx/node.go:65-100 | the reference list holds exactly the (start, stop) pairs whose substring is a word |
| `KeywordTheory.OccurrencesOrdered` | core/stringx/node.go:65-100 | each pair once, ordered by end and then by start |
| `KeywordTheory.KeywordsAreTheOccurringWords` | core/stringx/trie.go:47-94 | matched substrings are the occurring words; positions inside a match are the covered ones |
| `KeywordTheory.NextLevel` | core/stringx/node.go:44-62 | breadth-first order: when the head of the queue is deeper, its whole level has been seen |
| `KeywordTheory.AllReached` | core/stringx/node.go:44-62 | when the queue is empty every node has been linked |
| `KeywordTheory.Advance` | core/stringx/node.go:44-62 | finishing a node and queueing its children keeps the frontier |
| `KeywordTrie.Trie.constructor` | core/stringx/trie.go:29-45 | the trie of the non-empty words, with every fail link right; an unset mask is '*' |
| `KeywordTrie.Trie.Add` | core/stringx/node.go:10-36 | the paths gain exactly the prefixes of the word, the words gain the word unless it is empty |
| `KeywordTrie.Trie.Build` | core/stringx/node.go:38-63 | every non-root node's fail link leads to its longest proper suffix in the trie; the root has none |
| `KeywordTrie.Trie.LinkTopLevel` | core/stringx/node.go:39-43 | the children of the root fail to the root and make the first frontier |
| `KeywordTrie.Trie.LinkChildren` | core/stringx/node.go:45-62 | the children of one node are queued and linked, the frontier advances |
| `KeywordTrie.Trie.FailTarget` | core/stringx/node.go:49-60 | the climbing loop ends, at the longest proper suffix of the child |
| `KeywordTrie.Trie.Find` | core/stringx/node.go:65-100 | returns exactly the brute-force list of occurrences, in order |
| `KeywordTrie.Trie.Goto` | core/stringx/node.go:71-86 | one character of the scan: the step, and null exactly when it ends at the root |
| `KeywordTrie.Trie.Report` | core/stringx/node.go:88-96 | appends every occurrence that ends here, longest first |
| `KeywordTrie.Trie.CollectKeywords` | core/stringx/trie.go:74-88 | the distinct matched substrings, each once |
| `KeywordTrie.Trie.FindKeywords` | core/stringx/trie.go:64-72 | exactly the words that occur in the text, each once |
| `KeywordTrie.Trie.Filter` | core/stringx/trie.go:47-62 | masks exactly the positions covered by an occurrence, reports exactly the occurring words, and says whether there is one |
| `KeywordTrie.Trie.ReplaceWithMask` | core/stringx/trie.go:90-94 | masks the range in place and nothing else |
| `SafeMaps.SafeMap.constructor` | core/collection/safemap.go:22-27 | an empty map |
| `SafeMaps.SafeMap.Del` | core/collection/safemap.go:30-56 | removes the key from the one map the clients see, through both merges; the generations stay disjoint |
| `SafeMaps.SafeMap.Compact` | core/collection/safemap.go:39-54 | the merges change nothing a client sees |
| `SafeMaps.SafeMap.Get` | core/collection/safemap.go:59-69 | looks up the one map |
| `SafeMaps.SafeMap.Set` | core/collection/safemap.go:72-88 | updates the one map, whichever generation takes the key |
| `SafeMaps.SafeMap.Size` | core/collection/safemap.go:91-96 | counts the one map |
| `WheelTheory.PlacedStepsAhead` | core/collection/timingwheel.go:181-187 | position and circle together place a timer exactly `steps` ticks ahead, for any slot count |
| `WheelTheory.TickLowersDue` | core/collection/timingwheel.go:228-232 | a tick lowers every timer's due count by one, through circles and relocations, and executes exactly those at one |
| `WheelTheory.ApplyKeepsOk` | core/collection/timingwheel.go:195-243 | every event keeps 0 <= diff < numSlots, so a relocation never targets the slot being scanned |
| `WheelTheory.OthersLeaveItAlone` | core/collection/timingwheel.go:245-263 | events on other keys do not touch a timer; a tick counts it down |
| `WheelTheory.ExecutesExactlyWhenDue` | core/collection/timingwheel.go:279-317 | in every interleaving with events on other keys a timer executes exactly once, on the tick its due count announces |
| `WheelTheory.AbsentNeverExecutes` | core/collection/timingwheel.go:279-317 | a key that is not in the wheel never executes |
| `WheelTheory.StepsReach` | core/collection/timingwheel.go:181-187 | the number of steps is the n with n * interval <= d < (n + 1) * interval, d the delay or, if longer, one interval |
| `WheelTheory.SetExecutesOnce` | core/collection/timingwheel.go:319-334 | a new timer executes exactly once and with its value, on the n-th tick with n * interval <= max(delay, interval) < (n + 1) * interval, and setting it executes nothing |
| `WheelTheory.ResetExecutesOnce` | core/collection/timingwheel.go:319-334 | setting a known key replaces the value and moves the timer: it executes once, with the new value, on the tick within the delay as above plus the slip of a move |
| `WheelTheory.MoveDue` | core/collection/timingwheel.go:195-226 | exactly when a moved timer is due on the promised tick; otherwise it is one revolution late or early |
| `WheelTheory.MoveExecutesOnce` | core/collection/timingwheel.go:195-226 | a timer moved by an interval or more executes once, with its value, on the tick within the delay as above plus the slip |
| `WheelTheory.MoveCanBeLate` | core/collection/timingwheel.go:210-212 | a run from the empty wheel: tick, set to four ticks ahead, move to three; whatever follows, it executes on the seventh tick |
| `WheelTheory.ShortMoveExecutesTwice` | core/collection/timingwheel.go:202-207 | a move by less than an interval executes at once and again when the timer was due |
| `WheelTheory.RemovedNeverExecutes` | core/collection/timingwheel.go:234-243 | a removed timer does not execute |
| `TimingWheels.TimingWheel.constructor` | core/collection/timingwheel.go:75-96 | an empty wheel whose first tick scans slot 0 |
| `TimingWheels.TimingWheel.SetTask` | core/collection/timingwheel.go:319-334 | is the Set event; each indexed key has its one live entry in the slot the index records |
| `TimingWheels.TimingWheel.SetTimer` | core/collection/timingwheel.go:139-157 | is the Set event, refusing exactly the delays that are not positive; a refusal changes nothing |
| `TimingWheels.TimingWheel.MoveTask` | core/collection/timingwheel.go:195-226 | is the Move event, in all four branches |
| `TimingWheels.TimingWheel.MoveTimer` | core/collection/timingwheel.go:108-123 | is the Move event with the tasks it executes at once, refusing exactly the delays that are not positive; a refusal or an unknown key changes and executes nothing |
| `TimingWheels.TimingWheel.RemoveTask` | core/collection/timingwheel.go:234-243 | is the Remove event, by a flag on the entry |
| `TimingWheels.TimingWheel.Reinsert` | core/collection/timingwheel.go:217-225 | the old entry stays behind as removed, the new one is the indexed one |
| `TimingWheels.TimingWheel.Visit` | core/collection/timingwheel.go:282-313 | one entry of the scan: dropped, counted down, relocated or executed, as its timer says |
| `TimingWheels.TimingWheel.Relocate` | core/collection/timingwheel.go:293-303 | the entry moves to another slot and the index follows |
| `TimingWheels.TimingWheel.ScanAndRunTasks` | core/collection/timingwheel.go:279-317 | visits exactly the timers of the slot, in place, and lists exactly those that execute, each once |
| `TimingWheels.TimingWheel.OnTick` | core/collection/timingwheel.go:228-232 | is the Tick event |
| `PeriodicalExecutor.InitInv` | core/executors/periodicalexecutor.go:48-64 | a new executor satisfies the invariant |
| `PeriodicalExecutor.AddKeepsInv` | core/executors/periodicalexecutor.go:99-116 | addAndCheck with the bulk container (core/executors/bulkexecutor.go:87-101) keeps the invariant and settles nothing |
| `PeriodicalExecutor.MoveKeepsInv` | core/executors/periodicalexecutor.go:75-200 | every step of one thread keeps the invariant, quitting only with nothing in flight included; a batch is settled when the flusher enters the wait group with it, before it is confirmed, a flush settles what it finds, and nothing else settles anything |
| `PeriodicalExecutor.KeepsInv` | core/executors/periodicalexecutor.go:67-200 | every step keeps the invariant, and what is executed or inside the wait group stays so |
| `PeriodicalExecutor.RunKeepsInv` | core/executors/periodicalexecutor.go:67-200 | so does every run |
| `PeriodicalExecutor.NothingLostNothingTwice` | core/executors/periodicalexecutor.go:67-200 | in every run a task is executed, collected or in exactly one batch, and never executed more often than added |
| `PeriodicalExecutor.OneFlusher` | core/executors/periodicalexecutor.go:99-148 | at most one flusher is starting or looping, and only while guarded |
| `PeriodicalExecutor.WorkIsAttended` | core/executors/periodicalexecutor.go:118-148 | collected tasks and batches in flight have a live flusher, or a quitting one whose final flush is to come |
| `PeriodicalExecutor.NoDeadlock` | core/executors/periodicalexecutor.go:67-148 | whenever a call or batch is under way some step other than a tick is possible |
| `PeriodicalExecutor.MeasureDrops` | core/executors/periodicalexecutor.go:67-200 | every step but a tick or a new call lowers a measure |
| `PeriodicalExecutor.EveryCallReturns` | core/executors/periodicalexecutor.go:67-200 | so every run without ticks and new calls ends, and where no such step is left every call has returned and every flusher idles |
| `PeriodicalExecutor.CollectedIsExecuted` | core/executors/periodicalexecutor.go:118-148 | from there at most two ticks of the flusher and the flush they start execute every task ever added |
| `PeriodicalExecutor.BatchesAreFull` | core/executors/bulkexecutor.go:87-101 | in every run a batch that an Add sends has exactly max(1, maxTasks) tasks, and the container always holds fewer |
| `PeriodicalExecutor.AddDoes` | core/executors/periodicalexecutor.go:67-116 | an Add collects its task, or takes it with all others as a batch when it is the maxTasks-th, and starts the flusher when none is guarded |
| `PeriodicalExecutor.BatchDoes` | core/executors/periodicalexecutor.go:67-169 | a batch sent to an idle flusher is executed, its adder returns, and the next tick only clears the mark the batch left |
| `PeriodicalExecutor.FlushDoes` | core/executors/periodicalexecutor.go:75-169 | a flush executes exactly what the container holds and leaves it empty, and its caller goes on as the reason of the flush says |
| `PeriodicalExecutor.FlushCallDoes` | core/executors/periodicalexecutor.go:75-82 | Flush returns with the container executed |
| `PeriodicalExecutor.WaitCallDoes` | core/executors/periodicalexecutor.go:92-97 | so does Wait when the wait group is empty |
| `PeriodicalExecutor.QuitDoes` | core/executors/periodicalexecutor.go:186-200 | a flusher that has been idle quits exactly when no batch is in flight, and then flushes once more |
| `PeriodicalExecutor.BarrierHolds` | core/executors/periodicalexecutor.go:154-158 | while a Wait holds the barrier nobody enters the wait group |
| `PeriodicalExecutor.SettledIsExecuted` | core/executors/periodicalexecutor.go:92-97 | what was executed or inside the wait group is executed when a later Wait returns |
| `PeriodicalExecutor.WaitWaitsForAll` | core/executors/periodicalexecutor.go:92-97 | with no Add in flight when its flush empties the container, Wait returns with every earlier task executed |
| `PeriodicalExecutor.WaitMayMiss` | core/executors/periodicalexecutor.go:67-97 | otherwise there is a continuation in which Wait returns without the exposed tasks |
| `PeriodicalExecutor.WaitExactly` | core/executors/periodicalexecutor.go:67-97 | all continuations execute the given tasks before Wait returns if and only if, once its flush has emptied the container, each is executed or inside the wait group as often as given |
| `PeriodicalExecutor.CallMayMiss` | core/executors/periodicalexecutor.go:67-97 | a task that is neither executed nor inside the wait group when Wait is called can be missed: new Adds take it away before the flush |
| `PeriodicalExecutor.WaitExactlyAtCall` | core/executors/periodicalexecutor.go:67-97 | what a caller can rely on whatever else happens: all continuations execute the given tasks before Wait returns if and only if each is executed or inside the wait group when Wait is called |
| `PeriodicalExecutor.WaitAlone` | core/executors/periodicalexecutor.go:92-97 | a Wait that no Add overlaps, neither one in flight at the call nor a later one, returns with everything executed |
| `PeriodicalExecutor.WaitCanReturnEarly` | core/executors/periodicalexecutor.go:67-97 | a run given event by event: Add(1) returns, then Add(2) is sending both tasks, and Wait returns with nothing executed |
| `PeriodicalExecutor.WaitCanMissALaterAdd` | core/executors/periodicalexecutor.go:67-97 | the same with no Add in flight when Wait is called |
| `RouteTheory.SplitJoin` | core/search/tree.go:99-104 | splitting a route inverts joining slash-free tokens |
| `RouteTheory.JoinSplit` | core/search/tree.go:99-104 | joining the tokens gives the route back |
| `RouteTheory.ParseIsSplit` | core/search/tree.go:152-198 | an added route names its tokens without a last empty one, and is refused exactly when an earlier token is empty |
| `RouteTheory.AcceptsIsRouteMatches` | core/search/tree.go:93-130 | the search's recursion accepts exactly the segment-by-segment matches, a trailing slash also ending at the parent |
| `RouteTheory.PreferredExactly` | core/search/tree.go:93-142 | a match is preferred exactly when, after equal segments, it ends first or has a static segment against a parameter |
| `RouteTheory.BestIsUniqueUpToNames` | core/search/tree.go:132-142 | two best matches part at two parameter names of one place |
| `RouteTheory.BindNames` | core/search/tree.go:110-112 | exactly the parameter names of the matched route are bound |
| `RouteTheory.BindFirst` | core/search/tree.go:200-206 | each to the token at its first occurrence, because bindings are added from the last segment to the first |
| `RouteTree.Tree.constructor` | core/search/tree.go:55-59 | no routes |
| `RouteTree.Tree.Add` | core/search/tree.go:62-80 | refused for the first of the four reasons that applies, leaving the route table alone; otherwise the table gains exactly this route |
| `RouteTree.Tree.AddAt` | core/search/tree.go:152-198 | the same below a node |
| `RouteTree.Tree.Attach` | core/search/tree.go:181-182 | a new child shows in one child map of its parent and nowhere else |
| `RouteTree.Tree.Search` | core/search/tree.go:83-91 | finds a route exactly when one of the table matches, and returns one no other match is preferred to, with its item and bindings |
| `RouteTree.Tree.Next` | core/search/tree.go:93-130 | the same below a node |
| `RouteTree.Tree.ForEach` | core/search/tree.go:132-142 | fails only if no route through this child map matches |
| `RouteTree.Tree.TryChild` | core/search/tree.go:105-129 | a match through one child is a match of its token and of the rest below it |
| `Decimals.DigitsAreTheDigits` | core/stores/sqlx/utils.go:73-90 | the characters taken as digits are exactly those that print the numbers below ten |
| `Decimals.ItoaIsRead` | core/hash/consistenthash.go:81 | the decimal of a label reads back as its number and has no zero in front |
| `Decimals.LeadingZero` | core/stores/sqlx/utils.go:73-90 | zeros in front of a number do not change what it reads as |
| `Decimals.ReadIsItoa` | core/stores/sqlx/utils.go:73-90 | a numeral without them is what its value prints as |
| `RingTheory.OwnLabelsDiffer` | core/hash/consistenthash.go:81 | the labels of one node are all different |
| `RingTheory.NoCollisionIsPossible` | core/hash/consistenthash.go:80-84 | some hash function gives these names no collision if and only if their labels are all different; so for a single node one always does |
| `RingTheory.ClockwiseIsNearest` | core/hash/consistenthash.go:110-112 | the point a lookup takes is the one nearest clockwise on a ring of any size |
| `RingTheory.OthersKeepTheirKeys` | core/hash/consistenthash.go:138-147 | removing a node keeps the keys of the others exactly when no label it could have but does not own sits on a point of theirs |
| `RingTheory.NoKeyTooMany` | core/hash/consistenthash.go:138-147 | removing a node never leaves a key that is not a point of the others |
| `RingTheory.AtWithout` | core/hash/consistenthash.go:152-166 | dropping a node point by point is dropping its virtual nodes, the order of the others kept |
| `RingTheory.AccountsWithout` | core/hash/consistenthash.go:128-150 | after a removal each other member still has exactly its labels |
| `RingTheory.AccountsAdd` | core/hash/consistenthash.go:80-84 | after an addition each member has exactly its labels |
| `RingTheory.BelongsToOne` | core/hash/consistenthash.go:101-125 | a value belongs to at most one node, for every hash function |
| `RingTheory.RemovalMovesOnlyItsOwn` | core/hash/consistenthash.go:101-166 | a value of another node stays where it is exactly when the nodes left at its point still give it that node; so it does when the removed node was not there, or one node is left |
| `RingTheory.AdditionUndone` | core/hash/consistenthash.go:68-89 | removing a node just added restores the ring |
| `RingTheory.RemovalWithoutCollisions` | core/hash/consistenthash.go:128-150 | without collisions removing a node moves only the values that belonged to it |
| `RingTheory.AdditionWithoutCollisions` | core/hash/consistenthash.go:68-89 | without collisions adding a node moves values only to it |
| `RingTheory.NoCollisionSparesOthers` | core/hash/consistenthash.go:138-147 | without collisions a removal loses no key of another node |
| `RingTheory.NoTwoAtOnePoint` | core/hash/consistenthash.go:80-84 | without collisions no two virtual nodes share a point |
| `RingTheory.SamePositions` | core/hash/consistenthash.go:68-150 | two histories with the same members occupy the same points equally often, for every hash function |
| `RingTheory.LookupForgetsHistory` | core/hash/consistenthash.go:101-125 | without collisions the lookup depends on the members alone |
| `RingTheory.NumberedNamesClash` | core/hash/consistenthash.go:81 | labels of a node and of its name followed by 1 clash under every hash function |
| `RingTheory.RemovalCanLoseAKey` | core/hash/consistenthash.go:138-147 | so removing a node with no replicas can take away the only key of another |
| `ConsistentHashing.SortedUnique` | core/hash/consistenthash.go:86-88 | a bag of keys has one sorted list |
| `ConsistentHashing.KeysForgetHistory` | core/hash/consistenthash.go:68-150 | two complete rings with the same members have the same key list |
| `ConsistentHashing.SortKeys` | core/hash/consistenthash.go:86-88 | a sorted permutation of the keys |
| `ConsistentHashing.SearchKeys` | core/hash/consistenthash.go:110-112 | the first key at or above the hash |
| `ConsistentHashing.ConsistentHash.constructor` | core/hash/consistenthash.go:42-57 | an empty, complete ring with at least 100 replicas |
| `ConsistentHashing.ConsistentHash.Get` | core/hash/consistenthash.go:101-125 | the node at place innerHash mod n among the n nodes at the first key clockwise; nothing exactly when the ring is empty; a panic exactly when the ring has nodes and no keys, so never when it is complete |
| `ConsistentHashing.ConsistentHash.AddWithReplicas` | core/hash/consistenthash.go:68-89 | the members gain the node with the truncated replica count n, replacing an earlier entry; the n last virtual nodes are at the hashes of the name followed by 0 to n - 1; no key goes missing exactly when the removal inside spares the others |
| `ConsistentHashing.ConsistentHash.AddPoints` | core/hash/consistenthash.go:80-88 | the labels join ring and keys, the keys end sorted, as many keys are missing as before |
| `ConsistentHashing.ConsistentHash.Remove` | core/hash/consistenthash.go:128-150 | the members and the ring lose exactly this node, for every hash function; a complete ring stays complete exactly when the labels the node did not own miss the others |
| `ConsistentHashing.ConsistentHash.NoCollisionSpares` | core/hash/consistenthash.go:128-150 | without collisions a removal keeps a complete ring complete |
| `ConsistentHashing.ConsistentHash.FullNodeSpares` | core/hash/consistenthash.go:128-150 | so does, for every hash function, the removal of a node with all its replicas |
| `ConsistentHashing.ConsistentHash.Replay` | core/hash/consistenthash.go:68-150 | after any sequence of adds and removes, without collisions among the names that occur, the keys are exactly the points of the members |
| `ConsistentHashing.ConsistentHash.RemovePoints` | core/hash/consistenthash.go:138-147 | the loop over all replicas: one key goes for every label the node could have |
| `ConsistentHashing.ConsistentHash.RemoveKey` | core/hash/consistenthash.go:140-145 | one occurrence of the key goes, if there is one |
| `ConsistentHashing.ConsistentHash.RemoveRingNode` | core/hash/consistenthash.go:152-166 | drops the node from one point, and the point when nobody else holds it |
| `ConsistentHashing.LookupCanPanic` | core/hash/consistenthash.go:105-112 | for every hash function there is a run to a ring that has a node and no keys, on which the lookup divides by zero |
| `ConsistentHashing.RemovalCanMoveOthers` | core/hash/consistenthash.go:101-166 | a complete ring and a hash function under which every value belongs to the second of three nodes, and after removing the first to the third |
| `WindowTheory.BucketsAddUp` | core/collection/rollingwindow.go:135-139 | consecutive buckets add up to the events of their intervals |
| `WindowTheory.BucketAppend` | core/collection/rollingwindow.go:105-108 | an event adds its value and one to the bucket of its interval, and to no other |
| `WindowTheory.Recycled` | core/collection/rollingwindow.go:87-96 | after any idle gap a position holds the bucket it should |
| `RollingWindows.RollingWindow.constructor` | core/collection/rollingwindow.go:28-43 | no events |
| `RollingWindows.RollingWindow.SlotLasts` | core/collection/rollingwindow.go:72-97 | interval n lasts from n to n + 1 times the interval after the window was made |
| `RollingWindows.RollingWindow.Span` | core/collection/rollingwindow.go:72-79 | how many intervals the window is behind the clock, at most the size |
| `RollingWindows.RollingWindow.UpdateOffset` | core/collection/rollingwindow.go:81-97 | the window moves to the interval of now and every bucket holds exactly the events of its interval |
| `RollingWindows.RollingWindow.Recycle` | core/collection/rollingwindow.go:89-91 | resets exactly the oldest buckets, in place |
| `RollingWindows.RollingWindow.Add` | core/collection/rollingwindow.go:46-51 | logs the event in the interval of now |
| `RollingWindows.RollingWindow.Reduce` | core/collection/rollingwindow.go:54-70 | visits, oldest first, buckets that hold exactly the events of the last `size` intervals, without the current one if ignored |
| `GoogleBreakers.SumCountsSuccesses` | core/breaker/googlebreaker.go:89-104 | the sum of a bucket counts its successes, at most its requests |
| `GoogleBreakers.DropRatioIsProbability` | core/breaker/googlebreaker.go:37-44 | the drop ratio is in [0, 1), and positive exactly when total - 5 exceeds 1.5 accepts |
| `GoogleBreakers.DropRatioScaled` | core/breaker/googlebreaker.go:37-44 | the ratio times total + 1 is how far total - 5 exceeds 1.5 accepts, or 0 |
| `GoogleBreakers.DrawDecides` | core/breaker/googlebreaker.go:46-51 | the draw reaches the ratio exactly when draw * (total + 1) >= total - 5 - 1.5 * accepts |
| `GoogleBreakers.OutcomesMoveTheRatio` | core/breaker/googlebreaker.go:37-44 | a success never raises the ratio, a failure never lowers it |
| `GoogleBreakers.GoogleBreaker.History` | core/breaker/googlebreaker.go:97-104 | the successes and the requests of the last 40 intervals, exactly, with 0 <= accepts <= total |
| `GoogleBreakers.GoogleBreaker.Accept` | core/breaker/googlebreaker.go:37-51 | refuses exactly when the draw falls below the drop ratio of the last 40 intervals, also stated without the division |
| `GoogleBreakers.GoogleBreaker.MarkSuccess` | core/breaker/googlebreaker.go:89-91 | logs a 1 in the current interval |
| `GoogleBreakers.GoogleBreaker.MarkFailure` | core/breaker/googlebreaker.go:93-95 | logs a 0 in the current interval |
| `CacheAside.CachedConn.ExecExactly` | core/stores/sqlc/cachedsql.go:100-112 | after a write the entries that are not deleted agree with the database if and only if every key it affects, as far as a reader would use its entry, was named |
| `CacheAside.CachedConn.Exec` | core/stores/sqlc/cachedsql.go:100-112 | a failed statement changes nothing; after a write that names the keys it affects every entry agrees with the database, but for the deletions that failed (core/stores/cache/cachenode.go:69-88) |
| `CacheAside.CachedConn.Retry` | core/stores/cache/cachenode.go:179-184 | a successful retry settles the failed deletions |
| `CacheAside.CachedConn.Expire` | core/stores/cache/cachenode.go:126-134 | entries may disappear at any time without harm |
| `CacheAside.CachedConn.GetCache` | core/stores/cache/cachenode.go:186-205 | hit, placeholder, miss or failure; an undecodable entry is a miss and may be dropped (lines 257-275), nothing else changes |
| `CacheAside.CachedConn.Put` | core/stores/cache/cachenode.go:277-279 | writing an answer of the database keeps the entries in agreement |
| `CacheAside.CachedConn.QueryRow` | core/stores/cache/cachenode.go:207-255 | answers as the database would, not-found included; fails with Redis exactly when the read fails and with the database exactly when it is asked on a miss and fails; afterwards, unless a write fails, the cache has the answer; no other entry changes |
| `CacheAside.CachedConn.LoadIndex` | core/stores/sqlc/cachedsql.go:161-170 | on a miss both the index entry and the row entry are written; a row that cannot be written is an error |
| `CacheAside.CachedConn.QueryRowIndex` | core/stores/sqlc/cachedsql.go:154-181 | answers as the database would, through the index cache and the row cache, whatever expires in between; the exact errors of each path, and what is cached and left alone afterwards |
| `SingleFlight.KeepsInv` | core/syncx/singleflight.go:36-81 | every step keeps the invariant; a call sticks to its execution and an execution to its result |
| `SingleFlight.RunKeepsInv` | core/syncx/singleflight.go:36-81 | so does every run |
| `SingleFlight.OneRunningPerKey` | core/syncx/singleflight.go:56-81 | at most one fn per key runs at a time |
| `SingleFlight.CallersShareRegisteredExecution` | core/syncx/singleflight.go:46-70 | a caller returns the result of the execution registered when it arrived, or of its own, and is fresh only then |
| `SingleFlight.ResultsComeFromFn` | core/syncx/singleflight.go:56-81 | in every run from the start: the fn of the leader of a returned call returned exactly once, with the value the call returned, the leader has returned too, and a call that is not fresh ran no fn |
| `SingleFlight.FreshExactlyOnce` | core/syncx/singleflight.go:46-54 | each execution is fresh to exactly one caller, its leader |
| `SingleFlight.WaitersMove` | core/syncx/singleflight.go:56-81 | a caller that has not returned can move, or the leader of its own execution can |
| `SqlTheory.UnescapeEscape` | core/stores/sqlx/utils.go:26-51 | nothing is lost by escaping |
| `SqlTheory.EscapeInjective` | core/stores/sqlx/utils.go:26-51 | escape is injective |
| `SqlTheory.EscapedText` | core/stores/sqlx/utils.go:26-51 | escaped text holds no NUL, CR, LF or ^Z, and text without a special character is left alone |
| `SqlTheory.EscapedIsBody` | core/stores/sqlx/utils.go:26-51 | escaped text may stand between single and between double quotes |
| `SqlTheory.ValueReadsBack` | core/stores/sqlx/utils.go:143-158 | every rendered value reads back as its argument: a boolean as 0 or 1, a string by unescaping what is between its quotes, anything else as its own text |
| `SqlTheory.QuoteExactly` | core/stores/sqlx/utils.go:101-119 | a literal ends at a quote exactly when what is before it holds no other quote that is not escaped; it is open, or ends in a dangling escape, exactly when all the rest is such text, or all but a last backslash |
| `SqlTheory.ScanIsFaithful` | core/stores/sqlx/utils.go:63-123 | the pieces and the rest spell the query, and the rest starts at a quote that is not closed |
| `SqlTheory.PlainExactly` | core/stores/sqlx/utils.go:63-123 | a query is plain text exactly when it holds no question mark, colon, dollar or quote of the three kinds |
| `SqlTheory.QuotedIsLiteral` | core/stores/sqlx/utils.go:101-119 | text between two equal quotes of any of the three kinds is one literal |
| `SqlTheory.PlaceholdersAre` | core/stores/sqlx/utils.go:66-100 | a question mark is a mark, and a printed number after a colon or dollar stands for that number |
| `SqlTheory.WalkFills` | core/stores/sqlx/utils.go:63-129 | on every query the loop fills the pieces before the first quote that is not closed, and goes on from there |
| `SqlTheory.FillsReach` | core/stores/sqlx/utils.go:66-100 | filling gets through iff every number names an argument and the placeholders do not go beyond the last one, and reaches as far as they do |
| `SqlTheory.FirstFailure` | core/stores/sqlx/utils.go:66-100 | filling fails at the first mark beyond the last argument or the first number that names none, with too few arguments, a number beyond 64 bits or a wrong index |
| `SqlTheory.FormatErrors` | core/stores/sqlx/utils.go:53-130 | with closed quotes: the error is "not matching" exactly when the placeholders get through and leave arguments over, and else that of the first failure |
| `SqlTheory.FormatMixed` | core/stores/sqlx/utils.go:53-130 | with marks and numbers in any mixture and closed quotes: exactly when it succeeds, and that it keeps all but the placeholders iff there is no bare colon or dollar |
| `SqlTheory.FormatMarks` | core/stores/sqlx/utils.go:53-130 | with '?' marks only: succeeds iff there are as many as arguments, and replaces exactly those |
| `SqlTheory.FillConcat` | core/stores/sqlx/utils.go:66-72 | marks take the arguments from left to right: a query in two parts is filled with the first arguments and the rest |
| `SqlTheory.FormatNumbers` | core/stores/sqlx/utils.go:73-100 | with numbers only: succeeds iff every number names an argument and the last one is named, and replaces each by its argument |
| `SqlTheory.PlaceholderAlone` | core/stores/sqlx/utils.go:66-100 | a mark alone gives the value of its one argument, and the number n alone that of the n-th of n arguments |
| `SqlTheory.BareVanishes` | core/stores/sqlx/utils.go:73-100 | a ':' or '$' without a number is dropped |
| `SqlTheory.CastLosesColons` | core/stores/sqlx/utils.go:73-100 | for example a type cast loses its colons |
| `SqlTheory.OpenQuoteIsScannedTwice` | core/stores/sqlx/utils.go:101-119 | for every query with an open quote: the pieces before it are filled, the query is copied from the quote on, and what follows the quote is formatted once more from the same argument |
| `SqlTheory.FormatSucceeds` | core/stores/sqlx/utils.go:53-130 | for every query, open quotes included: format succeeds iff no open quote ends in an escape character, every number it comes across names an argument, and the placeholders it comes across reach exactly the last one |
| `SqlTheory.FormatExactly` | core/stores/sqlx/utils.go:53-130 | for every query: on success all but the placeholders is kept if and only if no bare colon or dollar comes before the first open quote and nothing after that quote writes anything |
| `SqlTheory.OpenQuoteExample` | core/stores/sqlx/utils.go:101-119 | a concrete query whose text shows up twice |
| `SqlTheory.RenderedStringIsLiteral` | core/stores/sqlx/utils.go:151-154 | a rendered string is exactly one literal for format's own quote scanner |
| `SqlTheory.OutputKeepsStructure` | core/stores/sqlx/utils.go:53-158 | scanning the output gives the pieces of the query with each placeholder replaced by its value |
| `SqlTheory.FormatKeepsStructure` | core/stores/sqlx/utils.go:53-158 | formatting a query with closed quotes keeps its structure |
| `SqlFormat.EscapeText` | core/stores/sqlx/utils.go:26-51 | the loop computes the escape function |
| `SqlFormat.WriteValue` | core/stores/sqlx/utils.go:143-158 | appends the value of the argument, which reads back as the argument (`SqlTheory.ValueReadsBack`) |
| `SqlFormat.CopyQuoted` | core/stores/sqlx/utils.go:101-119 | copies up to the closing quote, or to the end, or reports the dangling escape |
| `SqlFormat.Format` | core/stores/sqlx/utils.go:53-130 | the loops compute the formatting function, errors included; without arguments the query is returned as it is |
| `TopTheory.KthAntitone` | core/stat/metrics.go:134-178 | a larger rank has no larger duration, so the k-th largest is unique |
| `TopTheory.NestedSelection` | core/stat/metrics.go:147-156 | a rank inside a selection is the same rank in the whole |
| `TopTheory.ShortestOfTop` | core/stat/metrics.go:139-146 | the shortest of the k longest tasks is the k-th largest |
| `TopK.TaskHeap.Push` | core/stat/topk.go:19-21 | keeps the heap and adds the task |
| `TopK.TaskHeap.Pop` | core/stat/topk.go:23-29 | keeps the heap and removes its shortest task |
| `TopK.TopTasks` | core/stat/topk.go:31-45 | min(k, n) of the tasks, none shorter than one left out, the shortest first |
| `Metrics.MillisScaled` | core/stat/metrics.go:139-158 | a reported duration times a million is the duration in nanoseconds |
| `Metrics.TotalAdds` | core/stat/metrics.go:107-118 | the total duration adds up over batches |
| `Metrics.TruncatedIsWhole` | core/stat/metrics.go:135 | the average counts whole milliseconds, rounded towards zero for either sign |
| `Metrics.MetricsContainer.AddTask` | core/stat/metrics.go:107-118 | collects the task or counts the drop |
| `Metrics.MetricsContainer.RemoveAll` | core/stat/metrics.go:183-196 | hands over everything collected, with the total duration, once |
| `Metrics.TopDuration` | core/stat/metrics.go:198-205 | the longest duration, 0 for no tasks |
| `Metrics.Tail` | core/stat/metrics.go:147-164 | the 99th and 99.9th percentile, selected from the top tenth, are ranks of the whole list |
| `Metrics.Execute` | core/stat/metrics.go:120-181 | requests per second times 60 and the average times the number of tasks are what was counted; every percentile is a k-th largest duration of the whole batch, and median <= 90th <= 99th <= 99.9th |
| `TokenLimiter.Conservation` | core/limit/tokenlimit.go:35-41 | for every clock: what is granted and left never exceeds what was there plus what the clock fills in on its way forward |
| `TokenLimiter.ConservationExactly` | core/limit/tokenlimit.go:35-41 | while the bucket cannot overflow: what is granted and left equals what was there plus rate times the time passed, from every level |
| `TokenLimiter.RefillBound` | core/limit/tokenlimit.go:35-41 | for every clock: at most the burst plus the refill after the first reading, where no forward step refills more than the bucket holds |
| `TokenLimiter.RefillIsForward` | core/limit/tokenlimit.go:35-36 | the refill is at most the forward run of the clock times the rate, and just that when the bucket can hold it |
| `TokenLimiter.ForwardIsElapsed` | core/limit/tokenlimit.go:35 | a clock that does not run back runs forward by exactly the time that passes |
| `TokenLimiter.SpanBound` | core/limit/tokenlimit.go:35-41 | at most burst + rate * (t - s) tokens in any span, whatever the bucket held |
| `TokenLimiter.RateBound` | core/limit/tokenlimit.go:19-46 | the same after any earlier run |
| `TokenLimiter.GreedyTakesAll` | core/limit/tokenlimit.go:35-41 | from every level, requests that take all there is get min(burst, level + refill) at the first reading and then everything the clock fills in |
| `TokenLimiter.GreedyFromFull` | core/limit/tokenlimit.go:35-41 | requests that take all there is reach the bound, so it is the exact maximum |
| `TokenLimiter.SpanBoundExactly` | core/limit/tokenlimit.go:19-46 | for a given limiter and given readings, all requests keep within burst + rate * span if and only if the refill after the first reading keeps within rate * span |
| `TokenLimiter.EveryBurstExactly` | core/limit/tokenlimit.go:19-46 | for every burst they do if and only if the clock runs forward by no more than the span in all |
| `TokenLimiter.BackwardClockOvergrants` | core/limit/tokenlimit.go:35 | 200 tokens within 50 seconds from a bucket of 100 that fills at one per second |
| `TokenLimiter.TtlPositive` | core/limit/tokenlimit.go:23-24 | the lifetime is the whole part of 2 * burst / rate, so it is positive exactly when 2 * burst >= rate |
| `TokenLimiter.FullByExpiry` | core/limit/tokenlimit.go:23-36 | by the time the keys expire the bucket would be full |
| `TokenLimiter.ExpiryExactly` | core/limit/tokenlimit.go:26-36 | expired keys change no answer if and only if the bucket the script then sees holds as much; with the tokens gone, iff the bucket would be full |
| `TokenLimiter.Store.Eval` | core/limit/tokenlimit.go:19-46 | the script, whichever keys have expired: it allows exactly the requests within min(burst, level + rate * time passed), takes them away and stamps the time; if no key expired before its lifetime was over, this is the ideal bucket |
| `TokenLimiter.RescueRuns` | core/limit/tokenlimit.go:134-163 | in every run one monitor exists exactly while it is marked as started, and Redis counts as dead exactly while it is pinged |
| `TokenLimiter.FailureStartsRescue` | core/limit/tokenlimit.go:114-146 | a failed request starts rescue mode and a monitor unless one is started; afterwards Redis counts as alive exactly if that monitor is stopping |
| `TokenLimiter.RescueLasts` | core/limit/tokenlimit.go:134-163 | rescue mode and its one monitor last, whatever fails, until a ping succeeds |

## Left out

- Everything but the listed components: service discovery, MapReduce and streams, unmarshalling, logging, tracing, HTTP and gRPC handlers, and the code generator are I/O, reflection or thin wrappers.
- `core/stringx/replacer.go`: its rescan loop need not end when a replacement brings a keyword back.
- TimingWheel.Drain and Stop: a drain empties the slots but not the index, so the wheel is modelled up to the first drain.
- KeywordTrie: texts are lists of characters; the replacement of invalid UTF-8 on conversion is not modelled.
- SqlTheory.EscapeInjective: for the same reason it speaks of valid UTF-8 only, since the source replaces invalid bytes.
- CacheAside: expiry times are not modelled (entries may expire at any time), nor are concurrent readers and writers of one key; a primary key decoded from JSON is taken to equal the one encoded.
- PeriodicalExecutor: a panicking Execute and the Sync method are not modelled; the idle time before quitting is a free choice at each check.
- SingleFlight: a panicking fn is not modelled.
- ConsistentHashing: the default hash function, and AddWithWeight, which only scales the replica count, are not modelled.
- RollingWindows.RollingWindow: two clock readings inside one operation are taken to be equal.
- GoogleBreakers and Metrics: floating-point rounding is not modelled.
- TokenLimiter.Store.Eval: equals the ideal bucket only if no key expires before its lifetime is over by the caller's clock, because Redis counts the lifetime by its own clock; how far the two clocks drift apart is not modelled.
- TokenLimiter: the in-process rescue limiter and the rounding of Lua numbers beyond 2^53 are not modelled.
- TopK: selecting k < 1 tasks from a non-empty list is excluded, since the source panics there.
- The LRU cache, FIFO, ring, set and the small synchronisation primitives of `core/collection` and `core/syncx` would only add easy members.
