# go-zero core, modelled and proved in Dafny

This project models the in-memory algorithms and the small concurrent protocols of the `core/` packages of
[go-zero](https://github.com/zeromicro/go-zero), and proves what they are for: each clever implementation against
a simple specification, each protocol over every interleaving. `dafny verify dfyconfig.toml` checks all of it.

Code that changes state is modelled by classes with the fields of the source and methods with its branches and
loops. A protocol between goroutines is modelled as a state machine whose steps are what one goroutine does in one
critical section or one channel operation.

| file | what it is about |
|---|---|
| `Keywords.dfy`, `KeywordNode.dfy`, `Trie.dfy` | the keyword automaton: a trie on the heap, its fail links built breadth first, one pass that finds exactly the occurrences of a naive search; masking and collecting |
| `Replacer.dfy` | sort and sweep over the occurrences is the leftmost-longest rewrite, applied twice |
| `ExecutorProtocol.dfy`, `ExecutorInvariants.dfy`, `ExecutorProperties.dfy`, `ExecutorFlushing.dfy`, `ExecutorCalls.dfy`, `ExecutorTermination.dfy`, `BulkContainer.dfy` | the periodical executor: no task lost or run twice, one flusher loop, ticks empty the container, `Wait` waits for everything, no deadlock, a bound on the steps of every run |
| `MapReduceProtocol.dfy`, `MapReduceProperties.dfy`, `MapReduceReading.dfy`, `MapReduceCapacity.dfy`, `MapReduceTermination.dfy` | a run of MapReduce without cancel or panic: all mapped once, nothing lost, nothing sent to a closed channel, the reducer reads all that was written unless it stops early, its result is returned, no deadlock, a bound on the steps of every run |
| `SafeMap.dfy`, `WheelMath.dfy`, `WheelModel.dfy`, `TimingWheel.dfy`, `WheelRuns.dfy` | the timing wheel: lazy removal, turns and shifts, an index that agrees with the slots; over whole runs of its loop a timer fires at its tick |
| `RoutePatterns.dfy`, `SearchTree.dfy` | the route tree with backtracking agrees with a flat table of patterns |
| `HashRing.dfy`, `ConsistentHash.dfy` | the hash ring for any hash function: keys and buckets in step, add and remove undo each other, only the keys concerned move |
| `RollingWindow.dfy`, `GoogleBreaker.dfy` | the ring of buckets is a sum over a log of events; the breaker on top of it |
| `TokenLimit.dfy` | the token bucket script with expiring keys is a bucket that never expires, and bounds every window |
| `Pool.dfy` | the resource pool: conservation, ageing, no lost wake-up |
| `TopK.dfy`, `Metrics.dfy` | nested top-k selection gives exact order statistics of all tasks |
| `Lookup.dfy` | cutting a file into ranges of whole lines |
| `Counting.dfy`, `Integers.dfy`, `Options.dfy`, `Sequences.dfy` | how many goroutines stand where, and the sum of their ranks; products and quotients; an optional value; sequences |

## Where the code does not do what one might expect

- A timing wheel is meant to fire a moved timer after the new delay. It does not always: when the entry stays in
  its slot and the wheel stands between the old and the new position, the timer fires a whole revolution early or
  late. `WheelMath.MoveDriftExample` gives inputs, `WheelMath.MoveDrifts` says by how much a move is off for all
  inputs, and `WheelMath.MoveExactIff` says exactly when it is not.
- Adding a node to the hash ring with fewer points than the ring has replicas and then removing it does not always
  restore the ring, since `Remove` goes over all replicas and may take the key of another node:
  `HashRing.PartialAddExample` gives a ring that is left with a bucket without a key.
  `HashRing.AddRemoveRestoresIff` and `HashRing.RemoveInStepIff` say exactly when it does no harm.
- The points of a node are told apart by a number behind its name, and nothing separates the two. So a node named like
  another with a number behind it shares points with it, whatever the hash (`HashRing.SharedPoint`), and keys of the
  one move to the other; the lemmas on which keys move hold for nodes at free points.
- `SplitLineChunks` fails on some files whose last line is not finished, for instance on three bytes without a break
  that are to be cut in two (`LineChunks.CutsFailExample`). `LineChunks.CutsFailIff` says exactly when: the
  unfinished line, together with the last range that the finished lines alone would have if that range is not full,
  is longer than the preferred size. An unfinished line longer than the preferred size always makes it fail, and a
  finished file never does (`LineChunks.LongLastLine`).
- A token request for a negative number gives tokens back, and the stored tokens then exceed the burst exactly when
  the number is below what was missing (`TokenLimits.TokenLimiter.Run`). Later grants stay within the bound for every
  window all the same.
- The pool accepts items that were never borrowed. What was created is then no longer what is idle or borrowed:
  it is iff only borrowed items were put back (`Pools.Pool.Put`). Wake-ups are not lost in either case.
- A success lowers the drop ratio of the breaker only if the ratio is above minus one half
  (`GoogleBreakers.SuccessLowersIff`); that includes every ratio at which requests are refused.

## Model

| member | source | states |
|---|---|---|
| Keywords.AllScopesExact | core/stringx/node.go:63-98 | the reference search lists exactly the scopes of non-empty words in the text, each once, by stop and then by start |
| Keywords.LongestSuffixIsLongest | core/stringx/node.go:36-61 | the state of the automaton is the longest suffix read that is a path of the trie |
| Keywords.FailIsLongestProper | core/stringx/node.go:36-61 | a fail link leads to the longest proper suffix that is a path, so depth falls along fail links and every walk ends at the root |
| Keywords.SuffixStep | core/stringx/node.go:68-84 | the next state depends on the present state and the next rune only |
| Keywords.FailStep | core/stringx/node.go:73-79 | where a child is missing, going on from the fail link gives the same state |
| Keywords.FailOfChild | core/stringx/node.go:47-58 | the fail link of a child is found from the fail link of its parent |
| Keywords.SkipToLongestSuffix | core/stringx/node.go:86-94 | no word starts between a position and the longest suffix from there that is a path |
| Keywords.ScopesOfLongestSuffix | core/stringx/node.go:86-94 | all words that stop here start within the longest suffix |
| Keywords.ScopesOfFail | core/stringx/node.go:86-94 | following one fail link passes no word but the node itself |
| Keywords.ReadOne | core/stringx/node.go:68-95 | what reading one rune does to the state and to the scopes found so far |
| KeywordNode.Node.Grow | core/stringx/node.go:17-31 | a new child keeps the trie: the nodes are the old ones and the child at its path |
| KeywordNode.Node.Add | core/stringx/node.go:10-34 | the word, if not empty, joins the words of the trie; nothing else changes |
| KeywordNode.Node.SetEnd | core/stringx/node.go:33 | the words are the old ones and this one |
| KeywordNode.Node.AddAll | core/stringx/trie.go:38-40 | the trie holds all non-empty words of the list |
| KeywordNode.Node.FailLink | core/stringx/node.go:47-58 | the walk up the fail links finds the node of the longest proper suffix of the child |
| KeywordNode.Node.LinkChildren | core/stringx/node.go:45-59 | all children of a node get their links and are queued |
| KeywordNode.Node.Build | core/stringx/node.go:36-61 | after it every node but the root has the fail link to its longest proper suffix in the trie |
| KeywordNode.FrontierPop | core/stringx/node.go:42-45 | taking a node from the queue keeps the breadth-first order |
| KeywordNode.Shallow | core/stringx/node.go:42-60 | every node no deeper than the head of the queue has been reached, so the links the walk needs are there |
| KeywordNode.Node.Step | core/stringx/node.go:69-84 | the cursor moves to the longest suffix of what it stood for and the rune |
| KeywordNode.Node.Outputs | core/stringx/node.go:86-94 | the fail chain yields exactly the words that stop at this rune, leftmost first |
| KeywordNode.Node.Find | core/stringx/node.go:63-98 | one pass finds the same scopes in the same order as the naive search of every word at every position |
| KeywordTrie.Trie.constructor | core/stringx/trie.go:29-45 | the trie is built for the non-empty words given, with the mask asked for or an asterisk |
| KeywordTrie.Trie.Filter | core/stringx/trie.go:47-62 | exactly the positions inside some occurrence are masked; the keywords are exactly those that occur, each once; found iff there is one |
| KeywordTrie.Trie.FindKeywords | core/stringx/trie.go:64-72 | exactly the words that occur, each once |
| KeywordTrie.Trie.CollectKeywords | core/stringx/trie.go:74-88 | from all scopes, exactly the words that occur, each once |
| KeywordTrie.Trie.ReplaceWithAsterisk | core/stringx/trie.go:90-94 | the runes of the scope become the mask and no others change |
| KeywordTrie.KeywordsExact | core/stringx/trie.go:61 | there are keywords iff some word occurs |
| KeywordReplacer.RewriteClear | core/stringx/replacer.go:69-81 | where no keyword starts, the rewrite copies |
| KeywordReplacer.RewriteIdentity | core/stringx/replacer.go:39-48 | where no keyword occurs, the rewrite is the identity, so the early exit loses nothing |
| KeywordReplacer.RewriteLongest | core/stringx/replacer.go:69-78 | where a keyword occurs and no longer one starts, it is replaced and the rewrite goes on behind it |
| KeywordReplacer.SortScopes | core/stringx/replacer.go:57-65 | the same scopes as a multiset, by start and, from one start, longest first |
| KeywordReplacer.RewriteAtScope | core/stringx/replacer.go:69-78 | the first sorted scope not behind the index is where the rewrite goes on, and it is the longest there |
| KeywordReplacer.RewriteRest | core/stringx/replacer.go:79-81 | once all scopes are behind the index, the rest is copied |
| KeywordReplacer.Replacer.constructor | core/stringx/replacer.go:25-36 | the automaton is built for the non-empty keywords of the mapping |
| KeywordReplacer.Replacer.DoReplace | core/stringx/replacer.go:50-84 | the greedy sweep is the recursive leftmost-longest rewrite; replaced iff some keyword occurs |
| KeywordReplacer.Replacer.Replace | core/stringx/replacer.go:39-48 | the rewrite applied twice |
| ExecutorInvariants.CountedStep | core/executors/periodicalexecutor.go:67-202 | every step keeps: guarded, inflight, the wait group and the barrier count the goroutines that stand where they should |
| ExecutorInvariants.OwnedStep | core/executors/periodicalexecutor.go:67-148 | every step keeps: each task added is in exactly one place, once |
| ExecutorInvariants.AttendedStep | core/executors/periodicalexecutor.go:118-148 | every step keeps: tasks in the container have a flusher loop or a pending final Flush |
| ExecutorInvariants.UndisturbedStep | core/executors/periodicalexecutor.go:154-158 | while a Wait that saw the counter at zero holds the barrier, the counter stays at zero |
| ExecutorInvariants.NeverFullStep | core/executors/periodicalexecutor.go:99-116 | a container that asks to be flushed is emptied in the same critical section |
| ExecutorInvariants.InvStep | core/executors/periodicalexecutor.go:67-202 | every step keeps the whole invariant |
| ExecutorInvariants.InvRun | core/executors/periodicalexecutor.go:67-202 | the invariant holds in every state of every run |
| ExecutorProperties.ExactlyOnePlace | core/executors/periodicalexecutor.go:67-148 | in every reachable state each task is in exactly one of container, batch on its way, batch executing, executed; none lost, none twice |
| ExecutorProperties.GuardedIffOneLoop | core/executors/periodicalexecutor.go:99-148 | guarded iff exactly one goroutine runs the flusher loop or is about to; in-flight batches imply guarded; a non-empty container is attended |
| ExecutorProperties.NothingLeft | core/executors/periodicalexecutor.go:91-97 | with no Add in progress, an empty container and a wait group at zero, all tasks have been executed |
| ExecutorProperties.QuietStep | core/executors/periodicalexecutor.go:91-97 | every step keeps what a Wait has secured so far |
| ExecutorProperties.WaitCompletes | core/executors/periodicalexecutor.go:91-97 | if no Add is in progress when Wait starts and none begins before it returns, every task added has been executed when it returns |
| ExecutorProperties.NoDeadlock | core/executors/periodicalexecutor.go:67-158 | while a call of Add, Flush or Wait has not returned, some goroutine can take a step |
| ExecutorFlushing.Settled | core/executors/periodicalexecutor.go:67-171 | where no step is left but new calls and ticks, every task added is in the container or executed |
| ExecutorCalls.AddRun | core/executors/periodicalexecutor.go:67-116 | a call of Add that has gone past its critical section has given its task to the container |
| ExecutorCalls.AddsSettle | core/executors/periodicalexecutor.go:67-116 | where a run settles, the task of every call of Add is in the container or has been executed |
| ExecutorCalls.CallFlushes | core/executors/periodicalexecutor.go:75-82 | when a call of Flush has returned, nothing that was in the container at its start is still there, and where the run settles all of it has been executed |
| ExecutorFlushing.TicksFlush | core/executors/periodicalexecutor.go:118-148 | after two ticks of a flusher loop with no batch received in between, all that was in the container at the first has been executed where the run settles |
| ExecutorFlushing.CommandSkipsTick | core/executors/periodicalexecutor.go:130-139 | after a batch the first tick only clears the mark: the loop waits again without a flush |
| ExecutorFlushing.QuitFlushes | core/executors/periodicalexecutor.go:118-202 | a loop that finds nothing in flight ends, no longer guards, and executes what is in the container; one that finds something goes on |
| ExecutorFlushing.IdleCanQuit | core/executors/periodicalexecutor.go:137-144 | a loop that waits with nothing in the container and nothing in flight can flush in vain and quit |
| ExecutorCalls.CommandsFullRun | core/executors/periodicalexecutor.go:99-116 | an Add hands over a batch only when the container was full with it; what is less waits for a flush |
| ExecutorTermination.RankMove | core/executors/periodicalexecutor.go:67-202 | a step moves the sum of the ranks by what its goroutine leaves and enters |
| ExecutorTermination.MeasureStep | core/executors/periodicalexecutor.go:67-202 | every step lowers the measure, but for what a call or a tick brings |
| ExecutorTermination.StepsBounded | core/executors/periodicalexecutor.go:67-202 | under every schedule a run takes at most 11 steps for each Add, 5 for each Flush, 8 for each Wait and 10 for each tick |
| ExecutorTermination.CallsReturn | core/executors/periodicalexecutor.go:67-158 | from any reachable state, going on without new calls and ticks ends after a bounded number of steps, and where it ends every Add, Flush and Wait has returned |
| BulkContainer.BatchFrom | core/executors/periodicalexecutor.go:67-171 | a goroutine keeps its batch or takes one from the container, the channel or its own addition |
| BulkContainer.Container.AddTask | core/executors/bulkexecutor.go:87-90 | the task is appended; full iff the number of tasks has reached the limit |
| BulkContainer.Container.RemoveAll | core/executors/bulkexecutor.go:97-101 | all tasks in order; the container is empty |
| BulkContainer.Container.AddAndCheck | core/executors/periodicalexecutor.go:99-116 | adding and removing are the container part of the step of the protocol |
| BulkContainer.BatchesBounded | core/executors/bulkexecutor.go:87-101 | in every interleaving no batch is larger than the limit, nor than one task if the limit is less |
| BulkContainer.CommandsExact | core/executors/bulkexecutor.go:87-101 | a batch that an Add hands to the flusher loop holds exactly as many tasks as the limit, or one if the limit is less |
| MapReduceProperties.InvDispatch | core/mr/mapreduce.go:292-331 | the steps of generator and dispatcher keep the invariant: items numbered as handed over, tokens and wait group counted, source closed before the collector |
| MapReduceProperties.InvMap | core/mr/mapreduce.go:316-328 | the steps of a mapper keep the invariant: what it wrote is on its way in order, and the collector is open while it works |
| MapReduceProperties.InvReduce | core/mr/mapreduce.go:183-226 | the steps of reducer and caller keep the invariant: who closes what and when, and what the caller has is what the reducer wrote |
| MapReduceProperties.InvRun | core/mr/mapreduce.go:146-226 | the invariant holds in every state of every run |
| MapReduceProperties.BoundedConcurrency | core/mr/mapreduce.go:292-331 | at most workers mappers are in user code; nothing is sent to or closed on a closed channel; no value or item is dropped; the collector closes only after all mappers |
| MapReduceProperties.ReturnsComplete | core/mr/mapreduce.go:146-226 | on return every item was mapped exactly once, all each mapper wrote was read or drained in order, and the result is what the reducer wrote, or no output iff it wrote nothing |
| MapReduceReading.ReadingStep | core/mr/mapreduce.go:183-192 | every step keeps: what the reducer read is a first part of what was taken from the collector, and all of it until the reducer returns |
| MapReduceReading.ReadsAllTaken | core/mr/mapreduce.go:183-192 | while the reducer has not returned, what was written is what it has read and what waits in the collector, in order |
| MapReduceReading.ReturnsRead | core/mr/mapreduce.go:183-226 | on return the reducer has read a first part of what was written; if it returned only when its pipe was closed and empty, it has read all that every mapper wrote, in order |
| MapReduceCapacity.AllWorkersBusy | core/mr/mapreduce.go:301-329 | for any number of workers some run has that many mappers in user code at once |
| MapReduceCapacity.PipeFills | core/mr/mapreduce.go:159 | with nobody reading, one mapper alone can go on until as many values wait as there are workers |
| MapReduceProperties.PanicsOnSecondOutput | core/mr/mapreduce.go:151-156 | the caller panics only after a second value, and after a second value never returns |
| MapReduceProperties.NoDeadlock | core/mr/mapreduce.go:146-226 | until the caller returns or panics some goroutine can take a step, even if nothing more is written and the reducer returns only when its pipe is closed and empty |
| MapReduceTermination.MeasureStep | core/mr/mapreduce.go:146-226 | every step lowers the measure, but for what an item or a value written brings |
| MapReduceTermination.StepsBounded | core/mr/mapreduce.go:146-226 | under every schedule a run takes at most 13 steps, and 6 for each item mapped, 1 for each item drained, 3 for each value of a mapper and 2 for each value of the reducer |
| MapReduceTermination.Returns | core/mr/mapreduce.go:146-226 | once nothing more is written and the generator has stopped, the run ends after a bounded number of steps, and there the caller has returned or panicked |
| SafeMap.SafeMap.Get | core/collection/safemap.go:59-69 | looks up the one map that both generations stand for |
| SafeMap.SafeMap.Set | core/collection/safemap.go:90-106 | updates that one map, in whichever generation |
| SafeMap.SafeMap.Del | core/collection/safemap.go:30-56 | deletes from that one map, across swaps and merges |
| SafeMap.SafeMap.DeleteEntry | core/collection/safemap.go:32-38 | deletes from the generation that has the key |
| SafeMap.SafeMap.SwapGenerations | core/collection/safemap.go:39-47 | the one map is unchanged |
| SafeMap.SafeMap.MergeGenerations | core/collection/safemap.go:48-54 | the one map is unchanged |
| SafeMap.SafeMap.Size | core/collection/safemap.go:109-114 | the size of the one map |
| SafeMap.CopyInto | core/collection/safemap.go:40-42 | copying entry by entry is the union |
| WheelMath.AheadIsMod | core/collection/timingwheel.go:229-233 | the distance to a slot is ((pos - ticked - 1) mod n) + 1 |
| WheelMath.RemainingNew | core/collection/timingwheel.go:182-188 | position and circle of a new entry make it fire after exactly delay / interval ticks |
| WheelMath.AheadTick | core/collection/timingwheel.go:230 | a tick brings every slot one closer, and the slot it reaches a whole turn away |
| WheelMath.RemainingShift | core/collection/timingwheel.go:294-302 | moving an entry on by its diff keeps its time, and never to the slot just reached |
| WheelMath.MoveDrifts | core/collection/timingwheel.go:210-226 | for all inputs, a move is off by exactly the drift, in whole revolutions |
| WheelMath.MoveExactIff | core/collection/timingwheel.go:210-226 | a move is exact iff it re-inserts the entry or the wheel does not stand between old and new slot |
| WheelMath.MoveDriftExample | core/collection/timingwheel.go:210-226 | a move that fires one revolution late and one that fires one revolution early |
| WheelModel.RemoveMeans | core/collection/timingwheel.go:235-244 | marking an entry removed and dropping its key removes that timer and keeps index and slots in one-to-one correspondence |
| WheelModel.SetValueMeans | core/collection/timingwheel.go:325-327 | the timer keeps its time and gets the value |
| WheelModel.PushMeans | core/collection/timingwheel.go:330-333 | a new entry adds its timer and keeps the correspondence |
| WheelModel.InsertMeans | core/collection/timingwheel.go:329-334 | a new timer fires after the steps of its delay |
| WheelModel.ResetMeans | core/collection/timingwheel.go:211-217 | new turns and shift give the timer the time they stand for |
| WheelModel.ReinsertMeans | core/collection/timingwheel.go:218-226 | a removed entry and a fresh one for the same key are one timer at the new slot |
| WheelModel.ScanStep | core/collection/timingwheel.go:283-315 | each entry scanned is dropped, turned, moved on or fired, and every other timer is untouched |
| WheelModel.ScanMeans | core/collection/timingwheel.go:280-318 | a scan fires exactly the timers that are due, each once |
| WheelModel.TickMeans | core/collection/timingwheel.go:229-233 | a tick fires exactly the timers that stand at 1 and brings all others one closer |
| WheelModel.EffectOfKey | core/collection/timingwheel.go:196-244 | an operation that removes or replaces the timer of a key touches no other timer |
| WheelModel.FiresOnTime | core/collection/timingwheel.go:196-335 | over any history, a timer left alone fires once, with its value, at exactly its tick |
| WheelRuns.Perform | core/collection/timingwheel.go:246-264 | one turn of the loop, for a tick, a set, a move or a removal, is a tick of the timers or touches the timer of its key only |
| WheelRuns.Run | core/collection/timingwheel.go:246-264 | any run of the loop is a history of the timers |
| WheelRuns.SetAndRun | core/collection/timingwheel.go:196-348 | a timer set for a fresh key fires exactly max(delay, interval) / interval ticks later, once and with its value, whatever commands for other keys come in between; at no other time is anything executed for its key |
| TimingWheel.TimingWheel.constructor | core/collection/timingwheel.go:66-97 | an empty wheel |
| TimingWheel.TimingWheel.GetPositionAndCircle | core/collection/timingwheel.go:182-188 | the slot and the turns for a delay |
| TimingWheel.TimingWheel.SetTimerPosition | core/collection/timingwheel.go:337-348 | the index has the entry at the slot |
| TimingWheel.TimingWheel.RemoveTask | core/collection/timingwheel.go:235-244 | exactly the timer of the key is gone |
| TimingWheel.TimingWheel.MoveTask | core/collection/timingwheel.go:196-227 | the timer fires after the delay, give or take the drift; below one interval its task runs at once and the timer stays |
| TimingWheel.TimingWheel.SetTask | core/collection/timingwheel.go:320-335 | a fresh key fires after max(delay, interval) / interval ticks with the value; a known key gets the value and is moved |
| TimingWheel.TimingWheel.ScanEntry | core/collection/timingwheel.go:283-315 | the heap follows the scan of one entry |
| TimingWheel.TimingWheel.OnTick | core/collection/timingwheel.go:229-318 | fires exactly the timers at 1, once each, with their values; all others come one closer |
| RoutePatterns.MatchesFlat | core/search/tree.go:93-130 | a pattern matches segment by segment, with at most one empty token left at the end |
| RoutePatterns.BindingsLeftmost | core/search/tree.go:200-206 | a parameter is bound to the token of its leftmost segment of that name |
| RoutePatterns.ParseTokens | core/search/tree.go:152-198 | a route without empty segments is its own list of tokens |
| RoutePatterns.ParseNoneIff | core/search/tree.go:152-198 | a route is refused for its slashes iff two of them meet in it |
| RoutePatterns.ParseSpells | core/search/tree.go:152-198 | the segments read from a route, joined by slashes and with at most one slash behind, give back the route; none is empty |
| RoutePatterns.SpellsUnique | core/search/tree.go:152-198 | a route spells at most one pattern |
| RoutePatterns.TokensJoin | core/search/tree.go:93-130 | the tokens of a path are without slashes and, joined, give back the path |
| RoutePatterns.JoinInjective | core/search/tree.go:93-198 | lists of segments without slashes that join to the same text are the same |
| RoutePatterns.BeforeFlat | core/search/tree.go:132-142 | which of two patterns is preferred is decided at the first segment in which they differ: a literal before a parameter, the end before going on |
| RoutePatterns.BeforeTotal | core/search/tree.go:132-142 | where two matching patterns do not go on with different parameters after the same segments, one is preferred to the other |
| RoutePatterns.MostLiteral | core/search/tree.go:132-142 | with at most one parameter child per node, a best match is preferred to every other matching pattern, so there is only one |
| SearchTree.Tree.constructor | core/search/tree.go:55-59 | an empty table of patterns |
| SearchTree.Tree.Link | core/search/tree.go:181-183 | a new child keeps the tree: the nodes are the old ones and the child at its path |
| SearchTree.Tree.AddAt | core/search/tree.go:152-198 | adds the pattern of the rest of the route, or answers by the table why not and leaves the table unchanged |
| SearchTree.Tree.Add | core/search/tree.go:62-80 | refuses a route that does not begin with a slash, an item that is nil, a route in which two slashes meet, iff it is that, in this order; else the route spells a pattern, which is refused as a duplicate iff the table has it, and otherwise added; a failing Add changes no pattern |
| SearchTree.Tree.TryChild | core/search/tree.go:100-112 | searches below one child: finds a best candidate there, or there is none |
| SearchTree.Tree.Next | core/search/tree.go:93-130 | backtracking finds a candidate to which no other is preferred, or there is none |
| SearchTree.Tree.Search | core/search/tree.go:83-91 | succeeds iff some added pattern matches, with the item and the bindings of one to which no matching pattern is preferred |
| SearchTree.AnswersUnique | core/search/tree.go:83-142 | with at most one parameter child per node the table of patterns determines the answer of a search |
| SearchTree.Match | core/search/tree.go:216-229 | a parameter matches every token, a literal its own |
| SearchTree.CandidateBelow | core/search/tree.go:106-116 | a candidate here is a candidate of the child for the rest of the path |
| SearchTree.FullBelow | core/search/tree.go:166-184 | adding below a child adds the same pattern |
| HashRing.PlaceInStep | core/hash/consistenthash.go:67-87 | placing an absent node, at any number of points, keeps each hash as many times a key as its bucket is long |
| HashRing.RemoveInStepIff | core/hash/consistenthash.go:127-165 | removing a node keeps that iff no other node is at a point it could have but has not; with full replicas always |
| HashRing.AddRemoveRestoresIff | core/hash/consistenthash.go:60-165 | adding an absent node and removing it restores buckets and nodes always, and the keys iff no unused point of it was a key; with full replicas always, collisions included |
| HashRing.PartialAddExample | core/hash/consistenthash.go:127-149 | with a hash that collides, adding a node with no points and removing it takes the key of another node, on a ring of any number of replicas |
| HashRing.ItoaValue | core/hash/consistenthash.go:80 | the decimal numeral of a number is read back as that number |
| HashRing.PointsDistinct | core/hash/consistenthash.go:78-82 | with a hash that does not collide, the points of a node are pairwise different |
| HashRing.SharedPoint | core/hash/consistenthash.go:78-82 | a node named like another with a number behind it shares points with it, whatever the hash |
| HashRing.PlacedHashes | core/hash/consistenthash.go:78-86 | after adding, the keys are those that were there and the hash of the name with each number below the replicas behind it |
| HashRing.FirstNodeKeys | core/hash/consistenthash.go:78-86 | with a hash that does not collide, the first node has as many different keys as points |
| HashRing.LookupServes | core/hash/consistenthash.go:100-124 | the answer is a node in the bucket of the key met first around the ring from the hash of the value; of several nodes there a second hash chooses |
| HashRing.DecidingKey | core/hash/consistenthash.go:108-111 | the key chosen by binary search and modulo is the first around the ring |
| HashRing.LookupFinds | core/hash/consistenthash.go:100-124 | a lookup fails iff no node has a point, never divides by zero, and finds a node that was added |
| HashRing.RemoveMovesOnlyItsOwn | core/hash/consistenthash.go:100-165 | after removing a node that shares no point, every key not mapped to it keeps its node |
| HashRing.AddMovesOnlyToIt | core/hash/consistenthash.go:67-124 | after adding a node at free points, every key keeps its node or maps to the new one, wrap-around included |
| HashRing.SortedUnique | core/hash/consistenthash.go:84-86 | the sorted keys are determined by how often each occurs |
| HashRing.TakeMeans | core/hash/consistenthash.go:137-142 | removing a key where the search finds it removes one occurrence and keeps the order |
| ConsistentHashing.ConsistentHash.constructor | core/hash/consistenthash.go:41-57 | an empty ring with at least the minimal number of replicas |
| ConsistentHashing.ConsistentHash.Add | core/hash/consistenthash.go:60-62 | the node has all its points: the keys gain the hash of its name with each number below the replicas behind it, pairwise different on an empty ring if the hash does not collide; with only full additions keys and buckets stay in step |
| ConsistentHashing.ConsistentHash.AddWithReplicas | core/hash/consistenthash.go:67-88 | what was there of the node is removed and its first points, at most the replicas of the ring, are placed |
| ConsistentHashing.ConsistentHash.AddWithWeight | core/hash/consistenthash.go:92-97 | the same for a share of the replicas in percent |
| ConsistentHashing.ConsistentHash.Get | core/hash/consistenthash.go:100-124 | the lookup of the ring, in the bucket of the first key around the ring; in step it never divides by zero and fails iff no node has a point |
| ConsistentHashing.ConsistentHash.Remove | core/hash/consistenthash.go:127-149 | removes the node; the ring stays in step iff removing it takes no key of another node |
| ConsistentHashing.ConsistentHash.AddPoints | core/hash/consistenthash.go:78-82 | each point is one more key and one more place in its bucket |
| ConsistentHashing.ConsistentHash.RemovePoints | core/hash/consistenthash.go:135-146 | each point takes one key, if there is one, and the node out of its bucket |
| ConsistentHashing.ConsistentHash.RemoveRingNode | core/hash/consistenthash.go:151-165 | exactly the entries of the node leave the bucket; an empty bucket leaves the ring |
| ConsistentHashing.ConsistentHash.Search | core/hash/consistenthash.go:109-111 | the index of the first key that is at least the hash |
| ConsistentHashing.ConsistentHash.SortKeys | core/hash/consistenthash.go:84-86 | the same keys, in order |
| RollingWindows.OverSplit | core/collection/rollingwindow.go:135-139 | what a log holds for an interval range is the sum over its parts |
| RollingWindows.TotalOver | core/collection/rollingwindow.go:135-139 | buckets of consecutive intervals add up to the log of all of them |
| RollingWindows.AgeMoved | core/collection/rollingwindow.go:93 | how far each slot lies behind after the offset moved |
| RollingWindows.IntervalFrom | core/collection/rollingwindow.go:72-97 | spans counted from the last bucket give the interval of the time, and the new last time is where it begins |
| RollingWindows.RollingWindow.constructor | core/collection/rollingwindow.go:28-43 | an empty window |
| RollingWindows.RollingWindow.Add | core/collection/rollingwindow.go:46-51 | the event joins the log in the interval of its time, and every bucket still holds its interval |
| RollingWindows.RollingWindow.UpdateOffset | core/collection/rollingwindow.go:81-97 | the offset stands for the interval of the time; expired buckets are empty; all hold their intervals |
| RollingWindows.RollingWindow.Reduce | core/collection/rollingwindow.go:54-70 | visits, oldest first, exactly the events of the last size intervals, without the current one if it is to be ignored, after any gap |
| GoogleBreakers.OverMarks | core/breaker/googlebreaker.go:97-104 | sum and count of a window of marks are its accepts and its requests |
| GoogleBreakers.RatioPositiveIff | core/breaker/googlebreaker.go:37-51 | the drop ratio is positive iff failures exceed 5 plus half the accepts, and always below 1 |
| GoogleBreakers.BelowRatioIff | core/breaker/googlebreaker.go:37-51 | a draw is below the ratio iff the draw times one more than the requests is below failures - 5 - accepts / 2 |
| GoogleBreakers.FailureRaises | core/breaker/googlebreaker.go:93-95 | a failure strictly raises the unclamped ratio |
| GoogleBreakers.SuccessLowersIff | core/breaker/googlebreaker.go:89-91 | a success strictly lowers the unclamped ratio iff it was above -1/2, so whenever it was positive |
| GoogleBreakers.GoogleBreaker.constructor | core/breaker/googlebreaker.go:27-35 | 40 buckets of 250 milliseconds, no marks |
| GoogleBreakers.GoogleBreaker.History | core/breaker/googlebreaker.go:97-104 | accepts and requests of the last 40 intervals |
| GoogleBreakers.GoogleBreaker.Accept | core/breaker/googlebreaker.go:37-51 | for the accepts and failures of the last 40 intervals, refused iff draw * (accepts + failures + 1) < failures - 5 - accepts / 2; so only if failures exceed 5 plus half the accepts |
| GoogleBreakers.GoogleBreaker.MarkSuccess | core/breaker/googlebreaker.go:89-91 | one more accept in the window of its time, no more failures |
| GoogleBreakers.GoogleBreaker.MarkFailure | core/breaker/googlebreaker.go:93-95 | one more failure in the window of its time, no more accepts |
| TokenLimits.TtlFills | core/limit/tokenlimit.go:30-31 | the time to live brings at least burst tokens, provided burst is at least half the rate |
| TokenLimits.FilledIsLevel | core/limit/tokenlimit.go:32-43 | whichever of the two keys have expired, the script works out the level of a bucket that never expires |
| TokenLimits.BoundedUpTo | core/limit/tokenlimit.go:41-48 | tokens granted up to now and tokens left are at most the burst and what the rate brought |
| TokenLimits.BoundedKept | core/limit/tokenlimit.go:41-48 | one more grant keeps every window bounded |
| TokenLimits.LevelFits | core/limit/tokenlimit.go:37-48 | while nothing was given back, the bucket has the tokens iff no window would get more than the burst and what the rate brings |
| TokenLimits.TightKept | core/limit/tokenlimit.go:41-48 | each decision keeps some window used up but for the tokens left: the bucket keeps back no more than it must |
| TokenLimits.Decided | core/limit/tokenlimit.go:41-48 | a decision by the level keeps every window bounded and the bucket tight, and is by the windows |
| TokenLimits.NoTtl | core/limit/tokenlimit.go:30-31 | the keys have no time to live iff twice the burst is below the rate |
| TokenLimits.TokenLimiter.constructor | core/limit/tokenlimit.go:70-83 | a full bucket |
| TokenLimits.TokenLimiter.Expire | core/limit/tokenlimit.go:50-51 | keys may go, each on its own, once their time is over; the level of the bucket that never expires is the same at every later time |
| TokenLimits.TokenLimiter.Fill | core/limit/tokenlimit.go:32-43 | the level of the bucket that never expires, whichever keys are left |
| TokenLimits.TokenLimiter.Store | core/limit/tokenlimit.go:50-51 | writing both keys keeps the promises for the log with one more grant |
| TokenLimits.TokenLimiter.Run | core/limit/tokenlimit.go:26-53 | granted iff the bucket that never expires has the tokens, for any number asked, and, while no tokens were given back, iff no window that ends now would get more than burst + rate * its time; in every window [s, e] of the run at most burst + rate * (e - s) are granted; stored tokens are never negative, and at most the burst iff the number asked is not below what was missing; an error iff there is no time to live |
| Pools.Pool.constructor | core/syncx/pool.go:38-57 | nothing created |
| Pools.Pool.Attempt | core/syncx/pool.go:60-84 | takes the head if its last use is at most maxAge ago; else all idle items are older and are destroyed, and a new one is created unless all that may exist are borrowed |
| Pools.Pool.Enter | core/syncx/pool.go:60-84 | waits iff all that may exist is out, else takes an item; created is at most the limit, and is idle + borrowed iff only borrowed items were put back |
| Pools.Pool.Resume | core/syncx/pool.go:60-84 | the same for a goroutine that was signalled |
| Pools.Pool.Put | core/syncx/pool.go:87-101 | any item becomes the head and one waiting goroutine, if any, is signalled; nil is ignored; what was created stays conserved in the same sense |
| Pools.PushLatest | core/syncx/pool.go:95-99 | idle items stay ordered by their last use, latest first |
| Pools.Pool.NoLostWakeup | core/syncx/pool.go:60-101 | while a goroutine waits unsignalled, what could serve it is at most what the signalled ones will take; without those, nothing is idle and all that may exist is out |
| TopTasks.CountPerm | core/stat/topk.go:31-45 | ranks do not depend on order |
| TopTasks.NthOrder | core/stat/topk.go:31-45 | a higher rank has no shorter a duration |
| TopTasks.TopIsNth | core/stat/topk.go:31-45 | the front of the k longest is the k-th longest of all |
| TopTasks.NestedNth | core/stat/metrics.go:134-178 | a rank within the longest is the same rank in all |
| TopTasks.Push | core/stat/topk.go:19-21 | the contract of heap.Push: one task more, a shortest in front |
| TopTasks.Pop | core/stat/topk.go:23-29 | the contract of heap.Pop: the front goes, a shortest in front |
| TopTasks.TopK | core/stat/topk.go:31-45 | the k longest as a multiset, none of the others longer, a shortest of them in front |
| MetricsReports.PercentilesOrdered | core/stat/metrics.go:134-178 | median <= top 90th <= top 99th <= top 99.9th |
| MetricsReports.PercentilesUnique | core/stat/metrics.go:134-178 | the tasks determine the percentiles |
| MetricsReports.PercentilesPerm | core/stat/metrics.go:134-178 | the order of the tasks does not matter |
| MetricsReports.TopOfTop | core/stat/metrics.go:134-160 | the longest of the longest are the longest of all |
| MetricsReports.LongestOfTop | core/stat/metrics.go:157-171 | the longest of a top part is the longest of all |
| MetricsReports.GetTopDuration | core/stat/metrics.go:198-205 | the longest duration in milliseconds, 0 without tasks |
| MetricsReports.MetricsContainer.AddTask | core/stat/metrics.go:107-118 | a drop is counted, a task kept, anything else ignored; never full |
| MetricsReports.MetricsContainer.RemoveAll | core/stat/metrics.go:183-196 | all tasks, their total duration and the drops; the container is empty |
| MetricsReports.MetricsContainer.Fill | core/stat/metrics.go:137-178 | the nested branches report the n/2-th, n/10-th, n/100-th and n/1000-th longest of all n tasks, or the longest where that would be none |
| MetricsReports.MetricsContainer.Execute | core/stat/metrics.go:120-181 | the report of a batch: rate, average and those percentiles, in order; zeros without tasks |
| LineChunks.CutsMean | core/filex/lookup.go:36-66 | cuts are ranges that follow one another to the end of the file, begin just after a break, and but for the last exceed the preferred size, by no more than the rest of a line and its breaks |
| LineChunks.LengthsAddUp | core/filex/lookup.go:36-66 | the n-th range begins no earlier than n preferred sizes |
| LineChunks.AtMostChunks | core/filex/lookup.go:36-66 | there are at most as many ranges as chunks |
| LineChunks.EndsWithBreak | core/filex/lookup.go:82-108 | a file that ends with a break is always cut |
| LineChunks.SkipMeans | core/filex/lookup.go:82-108 | a scan ends behind the first breaks at or after the offset: behind all of them, unless a buffer of 1024 bytes ends among them |
| LineChunks.SkipFinished | core/filex/lookup.go:82-108 | before an unfinished last line, a scan ends where it would without that line |
| LineChunks.CutsFailIff | core/filex/lookup.go:36-66 | cutting fails iff the unfinished last line, with the last range of the finished lines unless that is full, is longer than the preferred size |
| LineChunks.LongLastLine | core/filex/lookup.go:36-66 | an unfinished last line longer than the preferred size always makes cutting fail; a finished file never does |
| LineChunks.CutsFailExample | core/filex/lookup.go:36-66 | three bytes without a break cannot be cut in two |
| LineChunks.SkipPartialLine | core/filex/lookup.go:82-108 | reading by buffers ends, past the first breaks at or after the offset, within one buffer; or there are none |
| LineChunks.CutAll | core/filex/lookup.go:40-66 | the loop makes exactly these cuts |
| LineChunks.SplitLineChunks | core/filex/lookup.go:17-67 | contiguous from 0 to the size, whole lines, at most chunks ranges, each but the last longer than size / chunks and none going on past the first line end after size / chunks + 1 bytes; one range for at most one chunk; error iff the file ends inside a line that is too long for what is left of the finished lines |

## Left out

- KeywordTrie.Trie.Filter: texts are sequences of runes, so bytes that are not valid UTF-8 (which Go turns into replacement runes) are not modelled.
- KeywordReplacer.SortScopes: meets the contract of `sort.Slice` by an insertion sort; the order among equal scopes is not modelled.
- ExecutorTermination.CallsReturn: assumes of the scheduler only that it goes on while some goroutine can take a step; with ticks and new calls going on for ever, which goroutine is served is not modelled.
- ExecutorInvariants.InvRun: time is left out of the protocol; the ticker may tick at any moment, and whether the flusher has been idle long enough to quit is a free choice. A panic in user code during Execute, which the source recovers from, counts as an execution.
- MapReduceProperties.ReturnsComplete: runs with a cancel, a panic in user code or the end of a context are not modelled; nor are the variants Finish, ForEach and MapReduceVoid, which are thin calls.
- SafeMap.SafeMap.Get: the lock is not modelled; each method is one critical section. Range is left out.
- TimingWheel.TimingWheel.MoveTask: the channels that hand operations to the run loop, Stop, and Drain (which empties the slots at shutdown but not the index) are not modelled; each operation is one step of the loop.
- TimingWheel.TimingWheel.OnTick: returns the tasks in the order in which they would be executed; running them in a goroutine is left out.
- SearchTree.Tree.Search: among several parameter children of one node Go's map order decides; the model leaves that choice open. The error for a nil child cannot occur and is left out.
- ConsistentHashing.ConsistentHash.RemoveRingNode: the bucket is a value, so that the new slice shares memory with the old one is not modelled.
- ConsistentHashing.ConsistentHash.SortKeys: meets the contract of `sort.Slice` by insertion; hash values are natural numbers of any size, and how values are printed is left open.
- RollingWindows.RollingWindow.Add: each operation reads the clock once and the clock never goes back behind the last bucket; float64 is modelled by reals.
- GoogleBreakers.GoogleBreaker.Accept: the random draw is a parameter; running the request, its fallback and promises are left out.
- TokenLimits.TokenLimiter.Run: the script is one atomic step with times that never go back; the rescue limiter, the monitor and errors of the store are left out, and numbers are integers.
- Pools.Pool.Enter: the idle list is a sequence; create and destroy are calls into unknown code whose result is a parameter and which do not panic.
- TopTasks.TopK: the heap is modelled by its contract, a shortest task in front, and not by its array layout.
- MetricsReports.MetricsContainer.Execute: float32 is modelled by reals; name, time stamp and process id of the report, logging and writing are left out.
- LineChunks.SplitLineChunks: the file is a sequence of bytes that does not change during the call; errors of the file system other than a missing file are left out.
- Redis, SQL, Mongo, etcd, RPC and HTTP code, middleware, logging, tracing and code generation: input, output and plumbing around libraries.
- Configuration and mapping: driven by reflection and struct tags.
- Queue, Ring, Set, cache, atomics and bloom filter: they would only add easy members.
