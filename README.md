# MMeter call-tree profiler, modelled in Dafny

MMeter is a small C++ profiler. A scope guard, `FuncProfiler`, is placed at
the head of each function by the `MMETER_FUNC_PROFILER` macro. It times the
activation and books the time on a `FuncProfilerTree`. That is a tree of
per-name nodes: each node has a measured duration and a "chore" duration,
which is the profiler's own overhead. Nodes are found by the path of
function names from the root. The root object also keeps a stack of the
open nodes. Two revisions of the code are modelled:

- **Current** (`include/MMeter.h`, `src/MMeter.cpp`):
  - each thread books into its own tree;
  - a thread's tree is merged into the process-wide tree when the thread
    ends;
  - a guard charges its entry and exit cost to its own node;
  - `realDuration()` subtracts the chore of the whole subtree.
- **Legacy** (`MMeter.h`, `MMeter.cpp`):
  - there is one global tree;
  - a guard charges its entry cost to every node on the stack;
  - nothing is charged on exit;
  - `realDuration()` subtracts the node's own chore only.

Both revisions share `totals()` and `totalsByDuration()`:

- `totals()` maps every function name to the sum of the real durations of
  all nodes of that name, at any depth.
- `totalsByDuration()` sorts those entries as a set of (duration, name)
  pairs.

How the model is laid out:

- **Values:**
  - a tree is the datatype `ProfileTree.Branch`;
  - durations are integers (clock ticks);
  - every reading of `system_clock::now()` is a parameter.
- **Classes:**
  - `MMeter.FuncProfilerTree` and `LegacyMMeter.FuncProfilerTree` model the
    root object, whose fields change in place;
  - the stack is a sequence of paths from the root;
  - the guards are the classes `FuncProfiler` in both modules. The
    constructor runs at function entry, and `Exit` is the destructor.
- **Loops** are methods with loop invariants, each proved equal to a
  specification function:
  - the walk over a `std::map` in ascending key order
    (`StringOrder.SortedKeys`);
  - `branchChoreDuration`;
  - `merge`;
  - the two loops of `totals()`;
  - the inserts of `totalsByDuration()`;
  - the legacy guard's charging loop.
- **Order:** `std::map` iterates its keys in `std::string` order.
  `StringOrder.Less` is that order. `StringOrder.Ascending` is the
  enumeration it gives, and it is proved complete, duplicate-free and
  strictly ascending.

The specifications are checked against independent definitions:

- **`totals()`** is proved equal to a per-name sum over `Reports.Occurrences`.
  `Occurrences` is the list of every node below the root with its name.
  Separate lemmas show that this list holds exactly the nodes reached by
  non-empty paths.
- **`merge`** is proved to act path by path. It is also commutative and
  associative. So the process-wide tree does not depend on the order in
  which threads end.
- **A guard's whole lifetime** is given per path, in both revisions, as its
  effect on presence, measured time, chore and real duration (the current
  real duration in the current revision, the legacy one in the legacy
  revision).

Where the sources disagree, the model follows the code:

- `src/MMeter.cpp:27` defines `existingOrNewBranch`. Its header still
  declares `operator[]` (`include/MMeter.h:36`). The model follows the
  definition.
- The current destructor writes the private fields `mDuration` and
  `mChoreDuration` of a node directly (`src/MMeter.cpp:170`, `:174`). The
  model does the same through `AddToBranch`.
- The current destructor reads the stack entry below the top
  (`src/MMeter.cpp:171`). The model keeps the condition this needs: at
  least two entries. It drops the unused value itself.
- The legacy constructor charges the stack after its own push
  (`MMeter.cpp:136-140`). So the new node's chore is charged too. The
  model does the same.

## Model

| member | source | states |
|---|---|---|
| StringOrder.Less | include/MMeter.h:89 | the order `std::string`'s `operator<` puts names in; a proper prefix comes before the longer name |
| StringOrder.Ascending | include/MMeter.h:89 | the key enumeration of a `std::map` has exactly one entry per key |
| StringOrder.AscendingEnumerates | include/MMeter.h:89 | the enumeration lists every key of the map, nothing else, and no key twice |
| StringOrder.AscendingOrdered | include/MMeter.h:89 | the enumeration is strictly ascending in `std::string` order |
| StringOrder.LessTrichotomy | include/MMeter.h:89 | two distinct names are ordered exactly one way |
| StringOrder.LessTransitive | include/MMeter.h:89 | the name order is transitive |
| StringOrder.LeastExists | include/MMeter.h:89 | every non-empty set of names has a least name |
| StringOrder.SortedKeys | src/MMeter.cpp:48 | collects a map's keys in the order a range-for over the map visits them |
| ProfileTree.EnsureChild | src/MMeter.cpp:27-30 | `mBranches[name]` inserts a zeroed child only when the name is absent; other children and both durations are kept |
| ProfileTree.EnsureChildAt | src/MMeter.cpp:34 | `existingOrNewBranch` on the node at a path: the root's durations are kept, and the root's child names grow by the name only when the path is the root itself (the per-path effect is `EnsureChildAtEffect`) |
| ProfileTree.AddAt | src/MMeter.cpp:170 | `+=` on the durations of the node at a path: the root's child names are kept, and the root's durations change only when the path is the root (the per-path effect is `AddAtEffect`) |
| ProfileTree.AtAppend | src/MMeter.cpp:34 | the node at `p + [name]` is the child `name` of the node at `p`, or a zeroed node when there is none |
| ProfileTree.EnsureChildAtEffect | src/MMeter.cpp:32-36 | creating a child at a node adds exactly that one path and changes no duration |
| ProfileTree.AddAtEffect | src/MMeter.cpp:170 | adding to one node's durations changes that node only and adds no path |
| ProfileTree.AddAtTwice | src/MMeter.cpp:170-174 | adding the measured time and then the chore equals adding both at once |
| ProfileTree.TreeExtensionality | include/MMeter.h:89-91 | two trees with the same paths and the same durations at each path are equal |
| ProfileTree.RootAnchoredPrefixes | src/MMeter.cpp:22-41 | entry `i` of a well-formed stack is the first `i` names of the top's path, so the stack lists the top's ancestors in order |
| ProfileTree.PushKeepsRootAnchored | src/MMeter.cpp:32-36 | pushing a child of the top keeps every stack entry a path of the tree, each the child of the one before |
| ProfileTree.PopKeepsRootAnchored | src/MMeter.cpp:38-41 | popping a stack of two or more entries keeps it well formed |
| ProfileTree.AddAtKeepsRootAnchored | src/MMeter.cpp:170 | adding durations keeps the stack well formed |
| ProfileTree.EnsureChildAtKeepsRootAnchored | src/MMeter.cpp:27-30 | creating a child keeps the stack well formed |
| ProfileTree.EnsureChildAtNonNegative | src/MMeter.cpp:27-30 | a created child does not make any chore negative |
| ProfileTree.AddAtNonNegative | src/MMeter.cpp:174 | adding a non-negative chore keeps every chore non-negative |
| Merging.MergeInto | src/MMeter.cpp:43-52 | the recursive merge loop computes `Merged`: durations added, each child of the other tree merged into the same-named child, created when absent |
| Merging.MergedAt | src/MMeter.cpp:43-52 | the node at any path of a merge is the merge of the nodes at that path |
| Merging.MergedAddsAtEveryPath | src/MMeter.cpp:45-46 | at every path, merging adds the measured and the chore durations |
| Merging.MergedHasPath | src/MMeter.cpp:48-51 | a path exists in a merge exactly when it exists in either tree |
| Merging.MergedEmptyRight | src/MMeter.cpp:43-52 | merging a fresh tree changes nothing |
| Merging.MergedEmptyLeft | src/MMeter.cpp:43-52 | merging into a fresh tree gives the merged tree |
| Merging.MergedCommutative | src/MMeter.cpp:43-52 | merging is commutative |
| Merging.MergedAssociative | src/MMeter.cpp:43-52 | merging is associative |
| Merging.MergedNonNegative | src/MMeter.cpp:43-52 | merging trees with non-negative chores gives such a tree |
| Merging.MergeAllTakeOut | src/MMeter.cpp:187-192 | any one thread's tree can be merged last without changing the global tree |
| Merging.MergeAllAnyOrder | src/MMeter.cpp:187-192 | the global tree does not depend on the order in which threads end |
| Durations.BranchChoreDuration | include/MMeter.h:58-66 | the loop over the children computes the node's chore plus every child's branch chore, which is the node's chore when it has no children |
| Durations.RealDuration | include/MMeter.h:67-70 | the real duration is the measured duration minus the chore of the whole subtree |
| Durations.BranchChoreAnyOrder | include/MMeter.h:61-64 | the branch chore does not depend on the order in which the children are summed |
| Durations.BranchChoreEmpty | src/MMeter.cpp:22 | a fresh node has no chore |
| Durations.BranchChoreBounds | include/MMeter.h:58-66 | with non-negative chores, the branch chore is at least the node's own chore and at least each child's branch chore |
| Durations.BranchChoreOfMerged | src/MMeter.cpp:43-52 | the branch chore of a merge is the sum of the branch chores |
| Durations.RealOfMerged | src/MMeter.cpp:43-52 | the real duration of a merge is the sum of the real durations, at the root and at every path |
| Durations.BranchChoreAddAt | src/MMeter.cpp:174 | adding a chore at any node adds it to the root's branch chore |
| Durations.BranchChoreEnsureChildAt | src/MMeter.cpp:32-36 | creating a child leaves the root's branch chore unchanged |
| Durations.RealAddAtAt | src/MMeter.cpp:170-174 | adding to a node changes its real duration by measured minus chore, each ancestor's by minus the chore, and no other node's |
| Durations.RealEnsureChildAtAt | src/MMeter.cpp:32-36 | creating a child changes no node's real duration |
| Reports.RealDurationOf | include/MMeter.h:67-70 | a report uses the real duration of its revision |
| Reports.LegacyRealVersusCurrent | MMeter.h:41 | the legacy real duration exceeds the current one by the descendants' chore, and the two agree on leaves |
| Reports.ChildrenOfAt | src/MMeter.cpp:58-61 | the direct-children part of the reference list counts each child's real duration once, under its name |
| Reports.DirectUpToAt | src/MMeter.cpp:58-61 | after the first loop of `totals()` has visited some names, the map holds exactly the visited names that are children, each with that child's real duration |
| Reports.DirectUpToAll | src/MMeter.cpp:58-61 | the first loop of `totals()`, run over all children in map order, gives the map from each child's name to its real duration |
| Reports.OccurrencesCoverPaths | src/MMeter.cpp:54-82 | every node reached by a non-empty path is among the occurrences, under the last name of its path |
| Reports.OccurrencesArePaths | src/MMeter.cpp:54-82 | every occurrence is a node reached by a non-empty path ending in its name |
| Reports.NamesOfOccurrences | src/MMeter.cpp:54-82 | the names reported are exactly the last names of the tree's non-empty paths |
| Reports.TotalsAt | src/MMeter.cpp:54-82 | `totals()` has an entry for a name iff the name occurs below the node, and the entry is the sum of the real durations of all its occurrences |
| Reports.TotalsAreOccurrenceSums | src/MMeter.cpp:54-82 | the whole map `totals()` returns is the per-name sum of real durations over all nodes below |
| Reports.AddEntry | src/MMeter.cpp:69-77 | a missing name is entered and a present name is increased, both giving the old value (zero when absent) plus the new one |
| Reports.AddEntries | src/MMeter.cpp:67-78 | the merged map has the union of keys, and each value is the sum of the two (absent counting as zero) |
| Reports.AddInto | src/MMeter.cpp:67-78 | the inner loop of `totals()` adds a child's totals into the result, key by key |
| Reports.ComputeTotals | src/MMeter.cpp:54-82 | the two loops and the recursion of `totals()` compute `Totals` |
| ByDuration.PairLessTransitive | include/MMeter.h:82 | the order of (duration, name) pairs is transitive |
| ByDuration.PairLessTrichotomy | include/MMeter.h:82 | two distinct pairs are ordered exactly one way |
| ByDuration.InsertPair | src/MMeter.cpp:90 | `std::set` insertion: the result holds exactly the old elements and the new pair |
| ByDuration.InsertPairSpec | src/MMeter.cpp:90 | inserting into the set keeps it ascending, adds exactly that pair, and grows it only when the pair was absent |
| ByDuration.ByDurationSpec | src/MMeter.cpp:84-94 | the result is ascending by duration then name, holds exactly the pairs (totals[n], n), and has one pair per name |
| ByDuration.ComputeByDuration | src/MMeter.cpp:84-94 | the insertion loop computes that ordered set |
| MMeter.FuncProfilerTree.Branches | include/MMeter.h:38-41 | `branches()` reads the tree without changing it; each entry is the node one name below the root |
| MMeter.FuncProfilerTree.MeasuredDuration | include/MMeter.h:46-49 | the const `measuredDuration()` reads the tree without changing it; it is the real duration plus the chore of the whole tree |
| MMeter.FuncProfilerTree.MeasuredNodeChoreDuration | include/MMeter.h:54-57 | the const `measuredNodeChoreDuration()` reads the tree without changing it; with no negative chore it lies between zero and the chore of the whole tree |
| MMeter.FuncProfilerTree.Stack | include/MMeter.h:74-77 | `stack()` reads the tree without changing it; on a well-formed tree its entries are nodes of the tree, entry `i` being the first `i` names of the top's path |
| MMeter.FuncProfilerTree.constructor | src/MMeter.cpp:22-25 | a new tree has zero durations, no children, and a stack holding only itself |
| MMeter.FuncProfilerTree.ExistingOrNewBranch | src/MMeter.cpp:27-30 | returns the existing child unchanged, or inserts a zeroed one; the stack is kept |
| MMeter.FuncProfilerTree.StackPush | src/MMeter.cpp:32-36 | the top's child is created if absent and pushed; the path to it is returned |
| MMeter.FuncProfilerTree.StackPop | src/MMeter.cpp:38-41 | removes the top entry and changes nothing else |
| MMeter.FuncProfilerTree.AddToBranch | src/MMeter.cpp:170-174 | the `+=` on a node's `mDuration` and `mChoreDuration` is `AddAt` at that node's path; the stack is kept and stays well formed |
| MMeter.FuncProfilerTree.Merge | src/MMeter.cpp:43-52 | the tree becomes `Merged(old tree, other)`; the stack is kept |
| MMeter.FuncProfilerTree.BranchChoreDuration | include/MMeter.h:58-66 | returns the subtree's chore, leaving the tree unchanged |
| MMeter.FuncProfilerTree.RealDuration | include/MMeter.h:67-70 | returns measured minus subtree chore, leaving the tree unchanged |
| MMeter.FuncProfilerTree.Totals | src/MMeter.cpp:54-82 | returns the current revision's `Totals` |
| MMeter.FuncProfilerTree.TotalsByDuration | src/MMeter.cpp:84-94 | returns those totals ordered by duration then name |
| MMeter.FuncProfiler.constructor | src/MMeter.cpp:159-165 | pushes the function's node and holds the entry cost, from the start reading to the reading after the push |
| MMeter.FuncProfiler.Exit | src/MMeter.cpp:167-175 | adds the elapsed time to the node's measured duration and entry plus exit cost to its chore, then pops the stack |
| MMeter.ProfiledCall | include/MMeter.h:128-140 | with `MMETER_ENABLE` 1 a call's tree changes as one guard lifetime; otherwise the tree is unchanged; the stack always ends as it began |
| MMeter.GuardLifetimeEffect | src/MMeter.cpp:159-175 | one lifetime adds the node if it was missing, adds the elapsed time and the chore to that node only, and leaves every other path alone |
| MMeter.GuardLifetimeReal | src/MMeter.cpp:159-175 | one lifetime raises the node's real duration by elapsed minus chore, lowers each enclosing node's by the chore, and changes no other |
| MMeter.GuardLifetimeNonNegative | src/MMeter.cpp:159-175 | with clock readings in order, a lifetime keeps every chore non-negative |
| MMeter.NewNodeReal | src/MMeter.cpp:163-174 | a node created by one guard ends with real duration `tEnd - tPush` minus the exit cost `tChore - tEnd`, which is negative when the exit cost exceeds the time from push to exit |
| MMeter.ThreadTeardown | src/MMeter.cpp:187-192 | a thread's end merges its tree into the global tree, whose stack is kept |
| LegacyMMeter.FuncProfilerTree.Branches | MMeter.h:36 | `branches()` reads the tree without changing it; each entry is the node one name below the root |
| LegacyMMeter.FuncProfilerTree.Duration | MMeter.h:38 | the const `duration()` reads the tree without changing it; it is the legacy real duration plus the node's own chore |
| LegacyMMeter.FuncProfilerTree.ChoreDuration | MMeter.h:40 | the const `choreDuration()` reads the tree without changing it; it is what the legacy real duration takes off the measured duration, and is non-negative when no chore is negative |
| LegacyMMeter.FuncProfilerTree.Stack | MMeter.h:45 | `stack()` reads the tree without changing it; on a well-formed tree its entries are nodes of the tree, entry `i` being the first `i` names of the top's path |
| LegacyMMeter.FuncProfilerTree.constructor | MMeter.cpp:8-13 | a new tree has zero durations, no children, and a stack holding only itself |
| LegacyMMeter.FuncProfilerTree.Index | MMeter.cpp:15-18 | `operator[]` returns the existing child or inserts a zeroed one |
| LegacyMMeter.FuncProfilerTree.StackPush | MMeter.cpp:20-24 | the top's child is created if absent and pushed |
| LegacyMMeter.FuncProfilerTree.StackPop | MMeter.cpp:26-29 | removes the top entry and changes nothing else |
| LegacyMMeter.FuncProfilerTree.AddToBranch | MMeter.h:37-40 | writing through `duration()` / `choreDuration()` changes one node's durations only |
| LegacyMMeter.FuncProfilerTree.RealDuration | MMeter.h:41 | returns the measured duration minus the node's own chore |
| LegacyMMeter.FuncProfilerTree.Totals | MMeter.cpp:31-59 | returns `Totals` using the legacy real duration |
| LegacyMMeter.FuncProfilerTree.TotalsByDuration | MMeter.cpp:61-71 | returns those totals ordered by duration then name |
| LegacyMMeter.AddChoreAlongEffect | MMeter.cpp:137-140 | charging a list of distinct existing paths adds the chore at exactly those paths, and nothing else changes |
| LegacyMMeter.StackIsPrefixes | MMeter.cpp:20-24 | the stack holds exactly the top's ancestors and the top itself, each once |
| LegacyMMeter.FuncProfiler.constructor | MMeter.cpp:130-141 | pushes the node, then the loop charges the entry cost to every entry of the stack |
| LegacyMMeter.FuncProfiler.Exit | MMeter.cpp:143-147 | adds the elapsed time to the node's measured duration, charges no chore, and pops |
| LegacyMMeter.ProfiledCall | MMeter.h:84-85 | a call's guard on the global tree changes it as one legacy lifetime; the stack ends as it began |
| LegacyMMeter.LegacyGuardLifetimeEffect | MMeter.cpp:130-147 | one lifetime adds the node if missing, adds the entry cost to the chore of the node and of every ancestor (root included), adds measured time to the node alone, and never changes the root's measured duration |
| LegacyMMeter.LegacyEntryEffect | MMeter.cpp:130-141 | the guard's constructor alone creates the node if missing and charges the entry cost to the chore of exactly the nodes from the root down to it |
| LegacyMMeter.LegacyGuardLifetimeReal | MMeter.cpp:130-147 | one lifetime raises the new node's legacy real duration by the measured time, and lowers it and every node above it by the entry cost; no other node changes |
| LegacyMMeter.RootRealDrops | MMeter.cpp:137-145 | each guard lowers the root's legacy real duration by its entry cost, since the root is charged chore but never measured |

## Left out

- Clock readings (`system_clock::now()`) are parameters. Durations are unbounded integers, not `std::chrono::duration<double>`. Rounding and floating point are not modelled.
- Real durations can be negative even when the clock readings are in order, so no non-negativity is claimed for them. There are two reasons:
  - the current destructor reads the exit cost after `endTime` (`src/MMeter.cpp:169-172`), so a node's chore can exceed its measured time. `MMeter.NewNodeReal` gives the amount; start 0, push 0, end 1 and exit reading 3 leave the node at -1;
  - the legacy root is charged every entry cost (`MMeter.cpp:137-140`) but is never measured (`MMeter.cpp:145`). `LegacyMMeter.RootRealDrops` shows its real duration falling by each entry cost.
- Only chores are shown to stay non-negative, and only for readings in order.
- Concurrency is not modelled:
  - the recursive mutex;
  - the `GlobalFuncProfilerTreePtr` lock guard and `getGlobalTreePtr`;
  - the `thread_local` wrapper;
  - the legacy function-local static.
- The global tree and each thread's tree are passed as parameters. `getThreadLocalTreePtr` and the legacy `getGlobalTree` are therefore not separate members.
- Thread end is `MMeter.ThreadTeardown` on two given trees.
- Text output is not modelled: `totalsStr`, `totalsByDurationStr`, `outputBranchDurationsToOStream` and `operator<<` only format values.
- `Test.cpp` is not part of this model. It uses a macro, percentages and CSV output that neither revision defines.
- Pointers are not modelled. The stack holds paths from the root, and a guard keeps its node's path. Dangling pointers, and `StringView` keys that outlive their strings, cannot be expressed.
- MMeter.FuncProfiler.Exit: the unused pointer to the parent is dropped. Only the condition that makes reading it defined is kept: at least two stack entries.
- MMeter.FuncProfilerTree.StackPop: popping an empty stack is undefined behaviour in C++. The model requires at least one entry, so it says nothing about that case. The same holds for LegacyMMeter.FuncProfilerTree.StackPop.
- `stackPush` on an empty stack is undefined behaviour too. The model requires a non-empty stack.
- MMeter.ProfiledCall: the body of the profiled function is not modelled. Nested calls are consecutive lifetimes on the stack the previous one leaves.
- `MMETER_ENABLE` is a parameter of MMeter.ProfiledCall. Its build-time default is 1 (`include/MMeter.h:128-130`), so an ordinary build passes 1.
- Names are Dafny strings, so each character is a Unicode scalar value. `std::string` compares bytes as `unsigned char`. The two orders agree on names that are valid UTF-8. Byte strings that are not valid UTF-8 cannot be expressed.
