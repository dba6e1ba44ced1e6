# Proofs about the query planner and load balancer

The repository plans SQL queries, estimates what they cost on each of several PostgreSQL replicas, and
sends each query to one of them. This project models five parts of it in Dafny and proves what they are
for. `dafny verify dfyconfig.toml` checks everything.

* **WHERE conditions** (`expressions`, `conditions`, `areas`, `condition_tree`). The planner pushes NOT down
  to the comparisons, rewriting the tree in place, and cuts the result into conjunctive areas. Both steps
  are specified on values and given a meaning on rows; the class `Select` works on heap nodes like the
  source and is proved against that specification. Two properties one might expect hold only under a
  condition, which is stated exactly: NOT keeps its meaning if and only if no comparison other than "=" and
  "<>" is under an odd number of NOTs (the source leaves those comparisons as they are), and the areas mean
  the same as the clause if and only if, besides, no OR is below an AND.
* **Joining per-table plans** (`filters`, `plans`, `connectivity`, `join_planner`, `names`, `link_graph`,
  `toposort`, `network`, `sequences`). The table-to-operation map acts as a union structure. It is proved
  which tables share an operation after the hash-join loop and that the last loop ends with one root that
  holds every starting plan once. Over each of these phases every filter charged is in the trees once, and
  no expression that mentions two tables joined in the phase is left unused. (Before them the code can lose
  filters: the scan that `Network` builds for a table mentioned twice takes its filters with it when it is
  dropped, and it is stated exactly when it has any.) It is also proved that the topological join order
  falls back exactly on cyclic links, and which prefix of an index is used.
* **Replica cache and loading factor** (`eviction`, `cache`, `loading`). The eviction loop is proved equal
  to a function, and that function is characterised completely: it is the least cut that meets the budget.
  Over every run of loads the cost multiplier stays between one half and one. While everything requested
  fits, the first request for a table decides what is cached of it: one that rows were fetched from first
  never counts as loaded whole.
* **Request queue and balancer** (`request_queue`, `reals`, `scheduling`, `start_values`, `balancer`). The
  mutex-guarded queue is a state machine over single steps of producers and worker. In every interleaving
  the requests are the finished and the queued queries, in order, and the total is the cost of the queued
  ones. The greedy dispatch has a scheduling bound for every run, whatever each query costs on each replica;
  it depends on how far the time spent on running queries spreads the estimates. Between replicas with the
  same cost constants the loading multiplier keeps a query's costs within a factor of two; then the bound
  also holds against twice what any other assignment costs. The bound one would expect before anything has
  run, an even share and one query, is not met by the code: a query that has not run has the start value it
  was created with, which nothing initialises. The bound is met over all arrivals up to a clock reading if
  and only if there is one replica, or all queries are created with one start value that the clock is not
  past; failing runs are given for both ways to miss this, and a bound that holds for any start values.
* **Scanner code** (`utf8`, `unescape`, `literals`, `longest_match`, `comments`, `dollar_quotes`, `refill`).
  The Unicode un-escaper (what it accepts and why it rejects), the comment and dollar-quote rules under
  longest match, and the buffer refill of the flex engine, each against an independent definition of what it
  should do. On top of the refill, the engine's tokens are those of longest match on the whole input,
  whatever the size of the buffer.

Conventions. A comparison's class is 1 for "=", 2 for "<>" and 0 otherwise. An `expression_info` object is
a value with an `id` that stands for its address. A row is reduced to the set of comparisons that hold on
it. A table whose entry in the operation map is null is absent from the map. Costs and times are reals,
sizes are unbounded integers; the clock is an arbitrary argument. Where the code and its comments disagree
the code is followed: a cache hit refreshes nothing, although `incrementTable` is written as if it did,
because it is given a node that is not in the set.

## Model

| member | source | states |
|---|---|---|
| Conditions.PushNotKeepsMeaningIff | src/structures/result.cpp:944-1001 | the rewritten tree has the truth value of the original on every row if and only if no comparison that is neither "=" nor "<>" lies below an odd number of NOTs |
| Conditions.PushNotMeaning | src/structures/result.cpp:944-1001 | under that condition, value by value, for a subtree below any number of NOTs |
| Conditions.PushNotShape | src/structures/result.cpp:944-1001 | the result has no NOT and the same leaf objects in the same order; their tables, columns and operations stay, and an ordering comparison stays one |
| Conditions.LostNotRow | src/structures/result.cpp:984-988 | once a NOT is lost there is a concrete row for each truth value on which the rewriting is wrong |
| Conditions.OrderingLosesNot | src/structures/result.cpp:984-988 | the smallest such condition: NOT over an ordering comparison is dropped, and a row shows the difference |
| ConditionTree.Select.DeMorgan | src/structures/result.cpp:944-1001 | the in-place rewriting yields an unshared, well-formed tree made of old nodes and new ones that represents exactly the normal form; null stays null |
| ConditionTree.Select.NegatePair | src/structures/result.cpp:952-975 | NOT over AND/OR becomes a new node of the other kind over two new NOTs, a smaller tree with the same normal form, without touching old nodes |
| ConditionTree.Select.RewritePair | src/structures/result.cpp:990-1000 | AND and OR keep their node and get rewritten children; the tree stays unshared |
| ConditionTree.Select.RewriteLeft | src/structures/result.cpp:991-994 | rewriting the left side leaves the right side's tree alone |
| ConditionTree.Select.RewriteRight | src/structures/result.cpp:995-998 | rewriting the right side leaves the left side's tree alone |
| ConditionTree.Select.Dfs | src/structures/result.cpp:917-941 | counts exactly the inner nodes that are not AND and collects exactly the known tables of the leaves |
| ConditionTree.Select.CollectTables | src/structures/result.cpp:932-938 | adds exactly the known tables a leaf mentions |
| ConditionTree.Select.CombineAreas | src/structures/result.cpp:874-912 | AND joins the two last areas, OR keeps both apart, all others are passed on, whatever the lengths |
| ConditionTree.Select.GetAreas | src/structures/result.cpp:863-915 | the recursion over heap nodes computes the areas of the condition; a null tree has none |
| Areas.AreasOf | src/structures/result.cpp:863-915 | there is one area more than there are inner nodes other than AND, and none is empty |
| Areas.AreasAreCutOff | src/structures/result.cpp:863-915 | every OR contributes one area, the leaves on its left that are on the left of no further OR, after those of the ORs below it; the last area is the leaves on the left of no OR |
| Areas.AreasHoldEachLeafOnce | src/structures/result.cpp:863-915 | together the areas hold every leaf exactly once |
| Areas.SingleArea | src/structures/result.cpp:381-385 | without OR the one area is all leaves from left to right, which the use of `areas[0]` needs |
| Areas.AreasCover | src/structures/result.cpp:863-915 | a row that satisfies the condition satisfies all leaves of some area |
| Areas.AreasSound | src/structures/result.cpp:863-915 | without OR below AND the converse holds |
| Areas.WeakArea | src/structures/result.cpp:891-896 | with OR below AND some area is too weak: its leaves alone never make the condition true |
| Areas.WeakAreaExample | src/structures/result.cpp:885-912 | the smallest such condition, with a row that one of its areas wrongly accepts |
| Areas.AreasExactIff | src/structures/result.cpp:863-915 | areas and condition agree on every row if and only if no OR is below an AND |
| Areas.WhereCovered | src/structures/result.cpp:863-1001 | from the WHERE tree to the areas no satisfying row is missed, unless a NOT was lost |
| Areas.WhereExactIff | src/structures/result.cpp:863-1001 | clause and areas agree on every row if and only if no NOT is lost and the rewritten tree has no OR below an AND |
| ConditionTree.Select.CutWhere | src/structures/result.cpp:191-305 | the passes together: the areas are those of the rewritten clause, `or_node + 1` of them; with no OR the single one is all leaves; unless a NOT was lost no row that satisfies the clause is missed; areas and clause agree on every row if and only if no NOT is lost and no OR is below an AND |
| JoinPlanning.JoinPlanner.HasFromTables | src/structures/database.h:101-111 | an empty list qualifies everything; otherwise some variable's table must be listed |
| JoinPlanning.JoinPlanner.Takes | src/structures/result.cpp:1103 | tells exactly whether an expression is unused and mentions both sides |
| JoinPlanning.JoinPlanner.CollectFilters | src/structures/result.cpp:1101-1108 | one request returns the charges of the expressions it takes, in area order, and marks exactly those used |
| JoinPlanning.JoinPlanner.NumOfFilter | src/structures/result.cpp:1092-1109 | each filter has the class and the operations of the expression it is for; these are expressions of the area that were unused and mention both sides, and none such is left unused; over all requests so far, what is marked used is what the requests took |
| Filters.TakenExactly | src/structures/result.cpp:1101-1108 | a request takes exactly the unused qualifying expressions, in area order |
| Filters.TakenInOrder | src/structures/result.cpp:1101-1108 | what a request takes stands at increasing places of the area |
| Filters.ChargesCarry | src/structures/result.cpp:1105 | the filters made from some expressions carry exactly their operations |
| Filters.TakenAtMostOnce | src/structures/result.cpp:1092-1109 | over any sequence of requests an expression becomes a filter at most once |
| Filters.TakenMissesNothing | src/structures/result.cpp:1101-1108 | after a request every expression that qualifies for it is used |
| Filters.TakesSomethingIff | src/structures/result.cpp:1101-1108 | a request takes something if and only if some unused expression qualifies for it |
| Filters.NothingLeft | src/algorithm/network.cpp:30-43 | no later request gets an expression that qualified for an earlier one |
| Filters.TakenOneMore | src/structures/result.cpp:1092-1109 | a further request takes what it would take alone from what the earlier ones left |
| Filters.ChargesConserved | src/structures/result.cpp:1092-1109 | charged operations and those still unused always add up to what was unused at the start |
| Filters.ChargesBounded | src/structures/result.cpp:1092-1109 | a plan is never charged more operations than its area holds |
| JoinPlanning.JoinPlanner.ChargedOnce | src/structures/result.cpp:1092-1109 | at every point of a planning run each expression was charged at most once, and no more operations than the area holds |
| JoinPlanning.JoinPlanner.PlannedCarry | src/structures/result.cpp:646-681 | the filters in the trees of a phase carry exactly the operations charged in it, never more than the area holds |
| JoinPlanning.JoinPlanner.AddFilters | src/structures/result.cpp:669-674 | filters are stacked first entry lowest, and nothing else changes in the plan |
| JoinPlanning.JoinPlanner.SetNewOperation | src/structures/result.cpp:1111-1118 | every table with the old operation gets the new one, every other table keeps its own |
| JoinPlanning.JoinPlanner.GetTables | src/structures/result.cpp:1076-1090 | exactly the tables with that operation, each once, in name order |
| Names.LeqFirstDifference | src/structures/result.cpp:1076-1090 | the order in which the map is walked is the lexicographic one |
| Plans.RedirectsMerge | src/structures/result.cpp:665-675 | the three redirections of a join amount to replacing both operations by the top of the new plan |
| JoinPlanning.JoinPlanner.JoinTables | src/structures/result.cpp:660-675 | one join: both sides become children in order, all their tables move to the new root, the filters on top are those taken for the tables of the two sides before the join |
| JoinPlanning.JoinPlanner.JoinInForest | src/structures/result.cpp:660-675 | a join keeps the forest of disjoint trees, its account of filters, and that no expression is missed |
| Plans.MergedForest | src/structures/result.cpp:665-675 | joining two different trees under a new root keeps every other tree and duplicates no starting plan |
| Plans.MergedFilters | src/structures/result.cpp:668-674 | a join adds its own filters to those of the forest and loses none |
| JoinPlanning.MergeMissesNothing | src/structures/result.cpp:660-675 | once two tables with different starting plans share an operation, every expression that mentions both is used |
| JoinPlanning.JoinPlanner.HashJoinFor | src/structures/result.cpp:649-677 | an equality of two columns with an index each joins exactly when both tables have operations and these differ, and leaves them with one; otherwise nothing changes |
| JoinPlanning.JoinPlanner.HashJoinRound | src/structures/result.cpp:648-679 | one pass settles every eligible equality; a pass over a settled map changes nothing |
| JoinPlanning.JoinPlanner.MergeIntoHashJoins | src/structures/result.cpp:646-681 | after the ten rounds two planned tables share an operation if and only if shared plans and eligible equalities connect them; every filter charged is in the trees once, every expression that mentions two tables joined here is used, all joins are hash joins; rounds two to ten change nothing; the filters carry exactly the operations charged in the phase |
| Connectivity.Problem.ConnectedSym | src/structures/result.cpp:647-681 | connection does not depend on the direction |
| Connectivity.Problem.ConnectedTrans | src/structures/result.cpp:647-681 | connections can be chained |
| Connectivity.Problem.MergeSound | src/structures/result.cpp:659-675 | a merge for an eligible equality never makes unconnected tables share |
| Connectivity.Problem.WalkAgrees | src/structures/result.cpp:647-681 | once settled, all tables along a chain share |
| Connectivity.Problem.SharesIffConnected | src/structures/result.cpp:647-681 | sound and settled together: sharing is connection |
| JoinPlanning.JoinPlanner.JoinFirstDifferent | src/structures/result.cpp:778-804 | a pass joins the first table's operation with the first different one in list order, or changes nothing when there is none |
| JoinPlanning.JoinPlanner.AllSame | src/structures/result.cpp:805-809 | the loop's exit test |
| JoinPlanning.JoinPlanner.JoinAll | src/structures/result.cpp:773-816 | the loop ends, all tables of the query have one root, it holds every starting plan of its tables exactly once under nested joins; every filter charged is in the trees once and every expression that mentions two tables joined here is used; the filters carry exactly the operations charged in the phase |
| Plans.DistinctDrops | src/structures/result.cpp:780-803 | each pass leaves exactly one different operation less, which is why the loop ends |
| Plans.TreeHoldsEachOnce | src/structures/result.cpp:773-816 | in a forest a root holds each starting plan of its tables once and nothing else |
| TopologicalSort.TopoSort.Declare | src/algorithm/toposort.cpp:32-44 | a table is listed in both maps, with no links if it is new |
| TopologicalSort.LinkedConsistent | src/algorithm/toposort.cpp:26-61 | declaring two tables and adding a link at both ends keep the maps mirrors of each other: as many equal links from a to b in one as in the other, all to listed tables, none foreign |
| TopologicalSort.LinkedLists | src/algorithm/toposort.cpp:26-61 | adding a link keeps every list, gives new tables empty ones, and puts exactly one more entry at the end of exactly one of them |
| TopologicalSort.TopoSort.AddLink | src/algorithm/toposort.cpp:26-61 | an ordinary link is appended at both ends, a foreign one is only noted; both tables are listed in either case and the two maps stay mirrors of each other |
| TopologicalSort.NoJoinFlagged | src/algorithm/toposort.cpp:168-181 | as no link held is foreign, no join of a spine carries the flag |
| TopologicalSort.EachOperationJoined | src/algorithm/toposort.cpp:126-182 | along a spine every operation is joined as often as there are tables in the order that have it |
| TopologicalSort.TopoSort.NoteForeign | src/algorithm/toposort.cpp:47-55 | the whole new list of foreign links |
| TopologicalSort.TopoSort.ChooseJoin | src/algorithm/toposort.cpp:150-181 | hash join if and only if some link is a hash join and all before it are merge joins, otherwise nested join; flagged if and only if some link is foreign |
| TopologicalSort.TopoSort.AllVisited | src/algorithm/toposort.cpp:111-121 | whether all predecessors are visited |
| TopologicalSort.TopoSort.FindPossible | src/algorithm/toposort.cpp:105-124 | exactly the unvisited tables with only visited predecessors, the first by name in front |
| TopologicalSort.TopoSort.JoinSource | src/algorithm/toposort.cpp:145-182 | joining the picked source keeps the order greedy and the operator spine in step with it, with null for a table without an operation |
| TopologicalSort.TopoSort.JoinRest | src/algorithm/toposort.cpp:126-143 | the fallback joins every unvisited table once, in name order |
| TopologicalSort.TopoSort.PerformTopoSort | src/algorithm/toposort.cpp:102-186 | from any visited set: the fallback is taken if and only if the links between unvisited tables are cyclic; each unvisited table is joined exactly once; before the fallback each follows all its predecessors and is the first by name that could come next; the operators form one spine over the starting parent, and none is flagged foreign; each join has the joined table's own operation, or null, on the left and everything before on the right; every operation is joined as often as tables joined have it |
| TopologicalSort.TopoSort.NoSourceIsCyclic | src/algorithm/toposort.cpp:126-130 | when no unvisited table is possible the links contain a cycle |
| LinkGraph.StuckIsCyclic | src/algorithm/toposort.cpp:126-130 | tables that all wait for each other contain a cycle |
| LinkGraph.TopologicalIsAcyclic | src/algorithm/toposort.cpp:124 | an order of all tables that respects the links rules cycles out |
| LinkGraph.GreedyIsTopological | src/algorithm/toposort.cpp:145-148 | picking ready tables respects all links |
| IndexUse.Network.UseIndex | src/algorithm/network.cpp:83-146 | records at most one entry: the longest covered leading run of columns, stopped at the first column with a non-equality; reports whether a unique index is used in full |
| IndexUse.BestUseUnique | src/algorithm/network.cpp:83-146 | those conditions leave one outcome |
| IndexUse.Network.CoverColumn | src/algorithm/network.cpp:89-126 | whether an available expression mentions the column, and whether a non-equality does |
| IndexUse.Network.IsAvailable | src/algorithm/network.cpp:94-103 | none of the expression's tables has an operation yet |
| IndexUse.Network.FindVariable | src/structures/database.h:143-150 | whether the expression mentions the column of the table |
| IndexUse.Network.CountMentions | src/algorithm/network.cpp:24-27 | how many of an expression's variables belong to the table |
| IndexUse.Network.Partition | src/algorithm/network.cpp:48-54 | unique and other indexes, each in the original order |
| IndexUse.OnlyParts | src/algorithm/network.cpp:48-54 | every index is on one side, as often as it was given |
| IndexUse.OnlyInOrder | src/algorithm/network.cpp:48-54 | the unique indexes are on one side and the others on the other, in their original order |
| IndexUse.Network.UseAll | src/algorithm/network.cpp:57-65 | the uses of the indexes in order, up to the first unique one used in full |
| IndexUse.AreUsesUnique | src/algorithm/network.cpp:57-65 | there is only one such list |
| IndexUse.Network.ChooseIndexes | src/algorithm/network.cpp:23-65 | a condition that mentions the table twice rules indexes out; otherwise unique indexes come first and the others count only if no unique one is used in full; filters are lost with the dropped scan if and only if some condition mentions the table twice and some unused one mentions it |
| IndexUse.Network.DropScan | src/algorithm/network.cpp:30-43 | the dropped scan's request charges filters and marks them used like any other; it charges some if and only if an unused condition mentions the table |
| IndexUse.DroppedFilterExample | src/algorithm/network.cpp:30-43 | the smallest loss: one condition that mentions the table twice goes into the dropped scan and no later request gets it |
| IndexUse.EstimatesInRange | src/structures/operations/indexcon.cpp:24-32 | for every recorded use the prefix length lies between 1 and the column count, so no estimate divides by zero; unique estimates lie in [1, columns], others in [3, 9), scans in [5%, 10%] of the rows |
| IndexUse.IndexConBounds | src/structures/operations/indexcon.cpp:24-32 | using more columns never raises the estimate of an index condition |
| IndexUse.ConEstimate | src/structures/operations/indexcon.cpp:24-32 | the estimate without a division: one row more than there are unused columns for a unique index, 3 and that part of 6 for another |
| IndexUse.IndexScanBounds | src/structures/operations/indexscan.cpp:31-36 | using more columns never lowers the estimate of an index scan |
| IndexUse.ScanEstimate | src/structures/operations/indexscan.cpp:31-36 | the estimate without a division, from 5% of the rows for one more part than there are unused columns; all rows for a full scan |
| Eviction.EvictCuts | src/structures/cache.cpp:60-91 | eviction ends below the budget, drops the oldest entries, shrinks only the oldest survivor and by whole chunks, leaves newer entries alone, and its last step was needed |
| Eviction.RemainderIs | src/structures/cache.cpp:107-119 | what is dropped last of an entry is all of an index and at most one chunk of a table |
| Eviction.EvictUnique | src/structures/cache.cpp:60-91 | those properties determine the outcome |
| Eviction.EvictStable | src/structures/cache.cpp:22-32 | evicting again, as loading a table does, changes nothing |
| Eviction.NewestSurvives | src/structures/cache.cpp:60-99 | the newest entry stays as it is if it alone is below the cache size |
| Eviction.LoadCaches | src/structures/cache.cpp:13-32 | a load adds its entry unless the key has one; nothing else goes if there is room, and the entry itself stays in full if it can; a load for a key that has an entry only evicts |
| Eviction.NoBudgetNeverMet | src/structures/cache.cpp:67-84 | with a cache size that is not positive no set of entries, not even the empty one, ends the loop |
| Caching.Cache.FindOldest | src/structures/cache.cpp:74-82 | the sum of sizes and the oldest node, whatever the order in which the set is walked |
| Caching.Cache.DeleteNode | src/structures/cache.cpp:101-105 | removes the oldest entry and its size from the running total |
| Caching.Cache.ReduceRatio | src/structures/cache.cpp:107-119 | removes a small table, shrinks another by 400 blocks |
| Caching.Cache.EvictOldest | src/structures/cache.cpp:73-87 | one round is one eviction step and the total is exact |
| Caching.Cache.RemoveOld | src/structures/cache.cpp:60-91 | with positive sizes the loop ends and computes the specified eviction; the total is exact and below the cache size |
| Caching.Cache.Find | src/structures/cache.h:61-72 | looking up by equivalence in the node order finds the node with that key, if any |
| Caching.KeyLessTotal | src/structures/cache.h:61-72 | in the node order exactly equal keys are equivalent, and it is asymmetric |
| Caching.KeyLessTransitive | src/structures/cache.h:61-72 | the node order is transitive |
| Caching.KeyLessOrder | src/structures/cache.h:61-72 | tables come before indexes, tables in lexicographic order, indexes in that of their hashes |
| Caching.Cache.GetSize | src/structures/cache.cpp:34-42 | the size of the entry with the table's key, 0 when there is none |
| Caching.Cache.InsertIntoSet | src/structures/cache.cpp:18 | an entry with the key of another is not inserted, any other becomes the newest |
| Caching.Cache.InsertNode | src/structures/cache.cpp:93-100 | the contents are those after that insertion and the evictions it causes |
| Caching.Cache.IncrementTable | src/structures/cache.cpp:44-58 | on a cache hit only the time moves on and eviction runs; no entry is refreshed |
| Caching.Cache.AddIndex | src/structures/cache.cpp:13-20 | an index with a new key becomes the newest entry, displacing nothing if there is room; one whose key is present only evicts |
| Caching.Cache.AddTable | src/structures/cache.cpp:22-32 | the same for a table, in full or by its row share; a new table below the cache size then has exactly that cached size |
| Caching.SumIsTotal | src/structures/cache.cpp:64-65 | summing over the unordered set gives the total of the ordered entries |
| Loading.RunWithin | src/structures/cache.cpp:13-32 | at every point of every run a cached table lies between nothing and the whole table |
| Loading.RunCachesFirst | src/structures/cache.cpp:13-32 | as long as all requests together stay below the cache size, the cache holds exactly what the first request for each table and index asked for |
| Loading.LoadedIsFirst | src/structures/cache.cpp:22-58 | so a table of which rows were fetched first never counts as loaded whole, however often it is loaded whole later |
| Loading.TablesLoadedBounds | src/structures/database.cpp:313-332 | so what is loaded of a list of tables never exceeds their size |
| Loading.ReadsOneMore | src/structures/result.cpp:121-154 | what one more table, fetched table or index adds to the size read and to the loaded part |
| Loading.MultiplierInRange | src/structures/result.cpp:121-154 | at every point of every run the multiplier lies in [0.5, 1], is 0.5 exactly when everything is loaded and 1 exactly when nothing is, and is no number exactly when nothing is read; it falls in proportion to the loaded part |
| Loading.Replica.GetLoadingCost | src/structures/result.cpp:121-154 | the loops compute that multiplier for the current cache, hence in range for every reachable replica |
| Loading.Replica.GetCurrRamLoaded | src/structures/database.cpp:313-332 | the loaded part of what a plan reads |
| Loading.Replica.StatusLoaded | src/structures/database.cpp:294-298 | the cached size of a table |
| Loading.Replica.LoadInCache | src/structures/database.cpp:304-311 | one load extends the replica's run by one step, which caches what was loaded as Eviction.LoadCaches says |
| Loading.Replica.LoadResources | src/structures/database.cpp:494-504 | a request loads indexes, whole tables and fetched tables in that order, each one step of the run |
| Loading.RequestsOf | src/structures/database.cpp:494-504 | these are the indexes, the whole tables and the fetched tables, each in its order |
| RequestQueue.StepKeepsInv | src/structures/database.cpp:132-149 | every single step of any thread keeps mutual exclusion, the cost account, the identity of front and executed query, and the histories |
| RequestQueue.RunKeepsInv | src/structures/database.cpp:132-149 | so does every interleaving |
| RequestQueue.EveryInterleaving | src/structures/database.cpp:458-508 | in every interleaving with producers the query removed is the one just executed, queries finish in arrival order and once, removal never meets an empty queue, and outside critical sections the total is the sum of the queued costs |
| RequestQueue.RequestsAreServed | src/structures/database.cpp:458-508 | in every interleaving what arrives is what the producers came with, in the order in which they got the mutex; when the mutex is free every request is finished or queued, and the total is the cost of all requests less that of the finished ones |
| RequestQueue.ProducerCanQueue | src/structures/database.cpp:478-508 | whenever the mutex is free any producer can queue any query in four steps, which add the query and its cost and nothing else |
| RequestQueue.NextActionProgresses | src/structures/database.cpp:132-149 | no reachable state is stuck |
| RequestQueue.CanAlwaysDrain | src/structures/database.cpp:132-149 | from every reachable state everything that arrived can be finished, and the total is then exactly zero |
| Balancing.Database.AddRequest | src/structures/database.cpp:478-490 | the query is queued last and the total follows |
| Balancing.Database.RemoveQueryFromQueue | src/structures/database.cpp:458-466 | the front is removed and the total follows |
| Balancing.Smart.Choose | src/structures/strategies/smart.cpp:30-61 | the first replica with the least estimated finish cost |
| Balancing.Smart.AddQuery | src/structures/strategies/smart.cpp:19-67 | the query goes to the first replica with the least estimate, with its cost there and the start value it was created with; no other queue changes |
| Balancing.Database.StartProcess | src/structures/database.cpp:143-145 | the worker stamps the front query's start value and changes nothing else |
| Balancing.Smart.StartFront | src/structures/database.cpp:143-145 | a start changes one replica's front only |
| Balancing.Smart.FinishFront | src/structures/database.cpp:458-466 | a completion removes one replica's front only |
| Scheduling.PickIsBelowOthers | src/structures/strategies/smart.cpp:30-61 | with the query, the chosen replica is above the average of the other ones by at most the largest cost and the spread of the adjustments |
| Scheduling.EstimateParts | src/structures/strategies/smart.cpp:36-51 | an estimate is the new query, what waits behind the front query, and how far the front query's cost is from the time spent on it |
| Scheduling.ArriveKeepsBalance | src/structures/strategies/smart.cpp:19-67 | an arrival keeps every replica within the bound |
| Scheduling.StartKeepsBalance | src/structures/result.cpp:1143-1145 | a start keeps every replica within the bound |
| Scheduling.FinishKeepsBalance | src/structures/database.cpp:458-466 | a completion keeps every replica within the bound |
| Scheduling.RunStaysBalanced | src/structures/strategies/smart.cpp:19-67 | so does every run of arrivals, starts and completions |
| Scheduling.GreedyBound | src/structures/strategies/smart.cpp:19-67 | from idle replicas, for any costs of each query on each replica, no queue ever exceeds an even share of all cost charged where the queries were sent by more than the largest cost less its own even share, plus the spread of the adjustments |
| Scheduling.CheapestIsLeast | src/structures/strategies/smart.cpp:19-67 | no assignment of the queries costs less altogether than each query where it is cheapest |
| Scheduling.CheapestAttained | src/structures/strategies/smart.cpp:19-67 | some assignment costs exactly that |
| Scheduling.ChargedIsAssigned | src/structures/strategies/smart.cpp:19-67 | what a run is charged with is what the balancer's own assignment costs |
| Scheduling.FinalCostsWithinTwo | src/structures/result.cpp:157-165 | a cost is a thousandth of the product of plan cost and multiplier, and 20 when that is negative |
| Scheduling.MultipliersWithinTwo | src/structures/result.cpp:157-165 | under multipliers from one half to one a plan's costs on any two replicas differ by at most a factor of two and none is negative, also when the product is negative and replaced |
| Scheduling.ChargedWithinTwo | src/structures/strategies/smart.cpp:19-67 | with such costs the queries are charged at most twice what they cost where they are cheapest |
| Scheduling.GreedyWithinTwo | src/structures/strategies/smart.cpp:19-67 | with such costs no queue exceeds twice an even share of what any assignment of the queries costs by more than the largest cost less its even share, plus the spread |
| Scheduling.EveryRunBounded | src/structures/strategies/smart.cpp:19-67 | every run has a largest cost and a spread, so the bound excludes none |
| Scheduling.AdjustmentZeroIff | src/structures/strategies/smart.cpp:39-49 | an estimate counts the front query in full if and only if no time, or exactly twice its cost, counts as spent on it |
| Scheduling.SpreadOfProgress | src/structures/strategies/smart.cpp:39-49 | while every front query has run for at most twice its cost, the spread is at most one query |
| StartValues.SpreadBeforeStart | src/structures/strategies/smart.cpp:39-49 | while nothing has run the spread is at most two queries and the range of the start values, and none with one replica or one start value that the clock is not past |
| StartValues.BoundBeforeStart | src/structures/strategies/smart.cpp:19-67 | before anything has run every queue stays within an even share, three queries and the range of the start values; within an even share and one query under that condition |
| StartValues.PassedExceeds | src/structures/result.h:113 | with several replicas and the clock past a created start value, some run exceeds an even share and one query |
| StartValues.DifferentExceeds | src/structures/result.h:113 | so does some run with several replicas and two different start values, neither of them passed |
| StartValues.BoundBeforeStartIff | src/structures/strategies/smart.cpp:19-67 | before anything has run the balancer keeps every queue within an even share and one query, over all arrivals up to a clock reading with start values from an interval, if and only if there is one replica, or the interval is a single value and the clock is not past it |
| StartValues.PassedExample | src/structures/result.h:113 | start values 0, costs 10, 1, 9 and 10 on two replicas: one queue ends at 29, beyond 30/2 + 10 |
| StartValues.DifferentExample | src/structures/result.h:113 | start values 2000, 5000 and three times 2000 at clock 1000, costs 1 on two replicas: one queue ends at 4, beyond 5/2 + 1 |
| Utf8.DecodeEncodeAll | examples/scan.l:1436-1437 | UTF-8 (section 3 of RFC 3629) loses no code point |
| Utf8.DecodeEncodeAny | examples/scan.l:1436-1437 | any other number decodes to its low 21 bits, which is all that four bytes hold |
| Utf8.SurrogateBytesIff | examples/scan.l:1436-1437 | the bytes written for a number that is no surrogate decode to one if and only if it is above FFFF and its low 21 bits are one; up to 10FFFF they decode to a scalar value |
| Utf8.Encode | examples/scan.l:1436-1437 | the lengths of UTF-8 sequences |
| Utf8.EncodedIffChar | examples/scan.l:1436-1437 | the encodings of scalar values are exactly the characters of the grammar in section 4 of RFC 3629 |
| Utf8.ZeroBytes | examples/scan.l:1436-1437 | only the code point zero gives a zero byte |
| Unescape.DecodeUndoesEscaping | examples/scan.l:1369-1516 | reading back any mixture of plain characters, doubled escapes, numeric escapes and surrogate pairs gives their meaning |
| Unescape.DecodedPieces | examples/scan.l:1369-1516 | the same in front of any further text, which keeps its own outcome |
| Unescape.DecodeUndoesEscapingIff | examples/scan.l:1369-1394 | this holds for all texts if and only if the platform's plain char can equal the escape character |
| Unescape.UnrecognisedIsCopied | examples/scan.l:1369-1394 | otherwise the text is copied unchanged |
| Unescape.SignedCharExample | examples/scan.l:1369-1394 | a text whose doubled escape character stays doubled |
| Unescape.AcceptedIsPieces | examples/scan.l:1369-1516 | conversely every accepted text is such a mixture, in which no code point computed is a lone surrogate |
| Unescape.RejectedIff | examples/scan.l:1369-1516 | a text is rejected with an error if and only if it reads as such a mixture, possibly with half a pair at the end, up to a place with that fault: no escape there, a code the encoding cannot hold, or a surrogate without its other half |
| Unescape.CodeDecodesToSurrogateIff | examples/scan.l:1441-1479 | which numeric escapes give bytes that nevertheless decode to a surrogate: exactly those above FFFF with a surrogate in their low 21 bits, so none up to 10FFFF |
| Unescape.MeaningsNoLonger | examples/scan.l:1382-1386 | the stated assumption: an expansion is never longer than its escape |
| Unescape.AcceptedNoLonger | examples/scan.l:1382-1386 | no accepted literal outgrows its text |
| Unescape.PairIsSupplementary | examples/scan.l:1317-1333 | a surrogate pair gives a code point of the supplementary planes, by section 2.2 of RFC 2781 |
| Unescape.ScalarsRoundTrip | examples/scan.l:1323-1516 | scalar values escaped as four digits, six digits or surrogate pairs, un-escaped and decoded from UTF-8, come back; the output has a zero byte if and only if U+0000 is among them; every digit may be of either case |
| Unescape.HexBound | examples/scan.l:1291-1301 | n hexadecimal digits are below 16 to the n |
| Unescape.DigitsValue | examples/scan.l:1291-1301 | written digits of either case read back as the number |
| Unescape.ValueDigits | examples/scan.l:1291-1301 | every digit text is what its value is written as |
| Unescape.HexDigitValues | examples/scan.l:1291-1301 | the value of a digit of either case is its place among the sixteen |
| Unescape.HexDigitIff | examples/scan.l:1404-1407 | there are no other digits |
| Unescape.UescapecharIff | examples/scan.l:1353-1366 | the characters that cannot be an escape character |
| Literals.LitbufUdeescape | examples/scan.l:1369-1516 | the pointer loop computes that meaning or that error, never writes outside a buffer of one byte more than the literal, leaves the literal as it was, and hands the result to the final verification |
| Literals.UnescapeOne | examples/scan.l:1390-1499 | one round keeps the output behind the input, five bytes behind a pending surrogate |
| Literals.WriteCode | examples/scan.l:1415-1439 | the common part of both numeric escapes |
| Literals.ReadEscape | examples/scan.l:1394-1457 | which escape stands at a position, never looking past the terminating zero |
| Literals.ReadFour | examples/scan.l:1404-1414 | the value of four hexadecimal digits, if they are there |
| Literals.ReadSix | examples/scan.l:1441-1457 | the value of six hexadecimal digits after a plus sign, if they are there |
| Literals.LiteralBuffer.AddLit | examples/scan.l:1219-1235 | the text is appended whatever its length, and a byte stays free behind it |
| Literals.LiteralBuffer.AddLitChar | examples/scan.l:1238-1251 | one doubling is enough for one character |
| Comments.ScanComment | examples/scan.l:427-465 | the rules with longest match and put-back stop where a character-by-character nesting counter stops, on every input |
| Comments.TokenKeepsStep | examples/scan.l:437-460 | whatever token is chosen, its action keeps in step with the counter |
| Comments.NextToken | examples/scan.l:344-346 | finds the longest match, the first rule among equals |
| DollarQuotes.ScanDollarQuote | examples/scan.l:705-748 | collects exactly the text before the first occurrence of the opening delimiter; unterminated if and only if there is none |
| DollarQuotes.TokenPassesNoDelim | examples/scan.l:718-747 | a token ends the string exactly when the delimiter stands there and otherwise passes no start of it, thanks to the dollar sign put back |
| DollarQuotes.TagCharsIff | examples/scan.l:292-293 | the characters a tag can start and go on with |
| DollarQuotes.NextToken | examples/scan.l:292-296 | finds the longest match, the first rule among equals |
| Refill.Buffer.GetNextBuffer | examples/lex.yy.c:913-1047 | consumed text, buffer and unread input always make up the whole input; the pending text is kept, more follows exactly when scanning goes on; both end markers stand; the internal error occurs exactly past the markers |
| Refill.Buffer.Refill | examples/lex.yy.c:943-1047 | the same for the part that reads |
| Refill.Buffer.Seal | examples/lex.yy.c:1029-1044 | the buffer never has to be extended by half: that branch is dead |
| Refill.Buffer.Conclude | examples/lex.yy.c:1010-1044 | which end of input is reported |
| Refill.Buffer.ReadMore | examples/lex.yy.c:954-1008 | what is read goes behind the moved text, after growing if needed; nothing only at the end of input |
| Refill.Buffer.Grow | examples/lex.yy.c:965-999 | doubling makes room and keeps the moved text; only a foreign buffer cannot grow |
| Refill.Buffer.MoveDown | examples/lex.yy.c:946-949 | the overlapping move keeps the unfinished token |
| Refill.Buffer.Input | examples/lex.yy.c:553-583 | input arrives in order, at most as much as asked, none only at its end |
| Refill.Buffer.ReadLine | examples/lex.yy.c:555-567 | an interactive read stops behind the first newline |
| Refill.Buffer.ReadBlock | examples/lex.yy.c:568-582 | another read takes a full block if there is one |
| Refill.Buffer.EndOfBuffer | examples/lex.yy.c:844-893 | behind the end marker the scanner resumes behind the text it had matched, takes it as the last match, or stops with nothing left |
| Refill.Buffer.Advance | examples/lex.yy.c:348-353 | the action sees exactly the token; after the held character is put back the rest is unchanged and nothing is lost |
| Refill.Buffer.DoBeforeAction | examples/lex.yy.c:348-353 | one character is held and replaced by a zero byte |
| Refill.Buffer.OnZeroByte | examples/lex.yy.c:776-895 | a zero byte before the first end marker is a character of the input; the marker itself ends the buffer, and what is still to be scanned is kept |
| Refill.Buffer.MatchLength | examples/lex.yy.c:669-713 | scanning on through refills and zero bytes finds the longest match on everything still to come |
| Refill.Buffer.NextToken | examples/lex.yy.c:669-895 | the next token is that match, or the input has ended |
| Refill.Buffer.ScanAll | examples/lex.yy.c:669-895 | until the end of the input, whatever the buffer's size and the source's kind, the tokens are those of longest match on the whole input, and all of it is consumed |
| Refill.Automaton.TokensUnique | examples/lex.yy.c:683-713 | there is only one such list of tokens |
| Refill.Automaton.ReadOne | examples/lex.yy.c:683-713 | the last accepting position is the longest match once no transition is left |

## Left out

- Machine arithmetic: sizes, buffer lengths and the logical time are unbounded integers and costs are reals, so `int` overflow (also of the doubled buffer size in `yy_get_next_buffer`, and its growth by an eighth) and the rounding of `float` and `double` (also in `reduceRatio`) are not modelled; the number of loads is assumed to stay below `MAX_INTEGER`.
- Cache and block sizes are taken to be positive: with a cache size of zero `removeOld` never ends (`Eviction.NoBudgetNeverMet`).
- SQL's third truth value: a comparison is true or false on a row, also next to NULL.
- Malformed condition trees, shared `expression_info` objects, and NOT leaves that the grammar does not mark terminal.
- The per-table planning phases, the foreign-key phase, the search for merge joins and the plan for OR over several tables; the merging phases start from an arbitrary map of plans.
- Balancing.Database.AddRequest: leaves out the creation time of a query and the cache loads in the same critical section, because the queue and its total do not depend on them; the loads are those of Loading.Replica.LoadResources.
- Operators get their children when they are created, where the source calls `addChild` right afterwards; the two redirections of a nested join are made in the order of those of a hash join, with the same result.
- `Network` fills further members (`used_expression`, `seq_scan`, `retr_data`), which are not modelled; nor are `Select::mergeResource`, costs of operators other than the two row estimates, and sorting, grouping and limits.
- `TopoSort::setUpForeign` and `TopoSort::addNode`: nodes come from `addLink`, so every table has both lists.
- Names of tables are compared as they are; the lower-casing in `getTable` and unknown tables are not part of this model.
- The queue model takes loading into the cache, logging and query execution as no part of or one opaque step of the threads; weak memory, and the balancer reading a replica's total before it takes the mutex, are not modelled.
- Start values and the clock are arbitrary values in the scheduling results, and the cost of a plan before its loading multiplier is a number.
- `RoundRobin` and `LeastWork`, the timing experiments, JSON, libpq, sockets and configuration.
- `pg_verifymbstr`, `unicode_to_utf8` and `pg_mblen` are defined outside the repository: the first is an arbitrary check of the result (it refuses zero bytes, so U+0000), the others follow RFC 3629, with the low 21 bits of a six-digit escape above 10FFFF, which the loop accepts. Error positions are left out, and the zero byte is not an escape character.
- Whether plain `char` is signed is a parameter; literals are bytes, and classification of characters is that of the C locale.
- Scanner rules outside the comment and dollar-quote states, the transition tables of the generated scanner (any automaton in which the default rule matches every single character), `yymore`, `unput`, the buffer's own copy of `yy_n_chars`, the refill inside `input()` and several stacked buffers.
- Read errors in `YY_INPUT`: input is a finite sequence of bytes.
