/**
 * The current revision's objects: `FuncProfilerTree`, whose root object
 * owns the call tree and the open-activation stack, and the scope guard
 * `FuncProfiler`, which times one activation of a function.  The clock is
 * not read here: every reading of `system_clock::now()` is a parameter.
 */
module MMeter {
  import opened ProfileTree
  import opened Merging
  import opened Durations
  import opened Reports
  import opened ByDuration

  /** A `FuncProfilerTree` used as a root: its children by value, its stack
      of open nodes (as paths from itself) and its two durations. */
  class FuncProfilerTree {
    var branches: map<string, Branch>
    var stack: seq<Path>
    var measured: int
    var nodeChore: int

    /** The tree this object holds. */
    function Value(): Branch
      reads this
    {
      Branch(branches, measured, nodeChore)
    }

    ghost predicate Valid()
      reads this
    {
      StackOk(Value(), stack)
    }

    /** `branches()`: each entry is the node one name below the root. */
    function Branches(): (r: map<string, Branch>)
      reads this
      ensures forall k :: k in r ==> HasPath(Value(), [k]) && At(Value(), [k]) == r[k]
    {
      ChildrenAtPaths(Value());
      branches
    }

    /** The const `measuredDuration()`: the real duration plus the chore of
        the whole tree. */
    function MeasuredDuration(): (r: int)
      reads this
      ensures r == Real(Value()) + BranchChore(Value())
    {
      measured
    }

    /** The const `measuredNodeChoreDuration()`: with no negative chore it
        lies between zero and the chore of the whole tree. */
    function MeasuredNodeChoreDuration(): (r: int)
      reads this
      ensures ChoresNonNegative(Value()) ==> 0 <= r <= BranchChore(Value())
    {
      NodeChoreBounds(Value());
      nodeChore
    }

    /** `stack()`: on a well-formed tree its entries are nodes of the tree,
        and entry `i` is the first `i` names of the top's path. */
    function Stack(): (r: seq<Path>)
      reads this
      ensures Valid() && r != [] ==> StackNodes(Value(), r)
    {
      StackOkNodes(Value(), stack);
      stack
    }

    /** A fresh tree: zero durations, no children, and a stack holding only
        the tree itself. */
    constructor ()
      ensures Value() == Empty()
      ensures stack == [[]]
      ensures Valid()
    {
      branches := map[];
      stack := [[]];
      measured := 0;
      nodeChore := 0;
    }

    /** Installs `v` as the tree held, keeping the stack. */
    method SetValue(v: Branch)
      modifies this
      ensures Value() == v && stack == old(stack)
    {
      branches := v.branches;
      measured := v.measured;
      nodeChore := v.nodeChore;
    }

    /** `existingOrNewBranch(name)` on the root: the existing child is
        returned unchanged, otherwise a zeroed, childless child is inserted
        and returned; no other child changes. */
    method ExistingOrNewBranch(name: string) returns (child: Branch)
      requires Valid()
      modifies this
      ensures child == ChildOr(old(Value()), name)
      ensures Value() == EnsureChild(old(Value()), name)
      ensures stack == old(stack)
      ensures Valid()
    {
      if stack != [] {
        EnsureChildAtKeepsRootAnchored(Value(), stack, [], name);
      }
      if name !in branches {
        branches := branches[name := Empty()];
      }
      child := branches[name];
    }

    /** `stackPush(name)`: the child `name` of the top node, created when
        absent, becomes the new top; the path to it is returned. */
    method StackPush(name: string) returns (top: Path)
      requires Valid() && |stack| >= 1
      modifies this
      ensures top == old(stack[|stack| - 1]) + [name]
      ensures stack == old(stack) + [top]
      ensures Value() == EnsureChildAt(old(Value()), old(stack[|stack| - 1]), name)
      ensures Valid()
    {
      var parent := stack[|stack| - 1];
      PushKeepsRootAnchored(Value(), stack, name);
      SetValue(EnsureChildAt(Value(), parent, name));
      top := parent + [name];
      stack := stack + [top];
    }

    /** `stackPop()`: drops the top entry and nothing else. */
    method StackPop()
      requires Valid() && |stack| >= 1
      modifies this
      ensures stack == old(stack[..|stack| - 1])
      ensures Value() == old(Value())
      ensures Valid()
    {
      if |stack| > 1 {
        PopKeepsRootAnchored(Value(), stack);
      }
      stack := stack[..|stack| - 1];
    }

    /** `+=` on the durations of the node at `p`, through the reference
        that node's accessors or a guard's branch pointer give. */
    method AddToBranch(p: Path, dm: int, dc: int)
      requires Valid() && HasPath(Value(), p)
      modifies this
      ensures Value() == AddAt(old(Value()), p, dm, dc)
      ensures stack == old(stack)
      ensures Valid()
    {
      if stack != [] {
        AddAtKeepsRootAnchored(Value(), stack, p, dm, dc);
      }
      SetValue(AddAt(Value(), p, dm, dc));
    }

    /** `merge(other)`: both durations added and the other tree's children
        merged in by name, recursively; the stack stays as it is, and so
        does the other tree unless it is this one. */
    method Merge(other: FuncProfilerTree)
      requires Valid()
      modifies this
      ensures Value() == Merged(old(Value()), old(other.Value()))
      ensures stack == old(stack)
      ensures Valid()
    {
      var merged := MergeInto(Value(), other.Value());
      if stack != [] {
        forall i | 0 <= i < |stack|
          ensures HasPath(merged, stack[i])
        {
          MergedHasPath(Value(), other.Value(), stack[i]);
        }
      }
      SetValue(merged);
    }

    /** `branchChoreDuration()`, which leaves the tree unchanged. */
    method BranchChoreDuration() returns (d: int)
      ensures d == BranchChore(Value())
    {
      d := Durations.BranchChoreDuration(Value());
    }

    /** `realDuration()`, which leaves the tree unchanged. */
    method RealDuration() returns (r: int)
      ensures r == Real(Value())
    {
      r := Durations.RealDuration(Value());
    }

    /** `totals()`, which leaves the tree unchanged. */
    method Totals() returns (ret: map<string, int>)
      ensures ret == Reports.Totals(Current, Value())
    {
      ret := ComputeTotals(Current, Value());
    }

    /** `totalsByDuration()`, which leaves the tree unchanged. */
    method TotalsByDuration() returns (ret: seq<(int, string)>)
      ensures ret == ByDuration.ByDuration(Reports.Totals(Current, Value()))
    {
      var tot := ComputeTotals(Current, Value());
      ret := ComputeByDuration(tot);
    }
  }

  /** The scope guard: constructed at function entry, destroyed at exit. */
  class FuncProfiler {
    var startTime: int
    var chores: int
    const tree: FuncProfilerTree
    var branch: Path

    /** Construction at `startTime`: pushes `name` on the tree's stack and
        counts the time until `pushTime`, when the push is over, as chore. */
    constructor (startTime: int, name: string, tree: FuncProfilerTree, pushTime: int)
      requires tree.Valid() && |tree.stack| >= 1
      modifies tree
      ensures this.tree == tree && this.startTime == startTime
      ensures branch == old(tree.stack[|tree.stack| - 1]) + [name]
      ensures tree.stack == old(tree.stack) + [branch]
      ensures tree.Value() == EnsureChildAt(old(tree.Value()), old(tree.stack[|tree.stack| - 1]), name)
      ensures chores == pushTime - startTime
      ensures tree.Valid()
    {
      this.tree := tree;
      this.startTime := startTime;
      new;
      branch := tree.StackPush(name);
      chores := pushTime - startTime;
    }

    /** Destruction: the time since `startTime` up to `endTime` is added to
        the branch's measured duration; the time from `endTime` to
        `choreEnd`, when the bookkeeping is over, joins the chores; the
        stack is popped; the chores are added to the branch's node chore.
        The read of the entry below the top needs two entries. */
    method Exit(endTime: int, choreEnd: int)
      requires tree.Valid() && |tree.stack| >= 2 && HasPath(tree.Value(), branch)
      modifies this, tree
      ensures tree.Value() == AddAt(old(tree.Value()), branch, endTime - startTime, old(chores) + (choreEnd - endTime))
      ensures tree.stack == old(tree.stack[..|tree.stack| - 1])
      ensures chores == old(chores) + (choreEnd - endTime)
      ensures startTime == old(startTime) && branch == old(branch)
      ensures tree.Valid()
    {
      ghost var before := tree.Value();
      tree.AddToBranch(branch, endTime - startTime, 0);
      var parent := tree.stack[|tree.stack| - 2];
      chores := chores + (choreEnd - endTime);
      AddAtEffect(before, branch, endTime - startTime, 0, branch);
      tree.StackPop();
      tree.AddToBranch(branch, 0, chores);
      AddAtTwice(before, branch, endTime - startTime, chores);
    }
  }

  /** The tree after one guard's whole lifetime, entered from the node at
      `top`: child `name` created if absent, then its measured duration
      increased by `tEnd - start` and its chore by the push cost
      `tPush - start` plus the exit cost `tChore - tEnd`. */
  function GuardLifetime(t: Branch, top: Path, name: string, start: int, tPush: int, tEnd: int, tChore: int): Branch
  {
    AddAt(EnsureChildAt(t, top, name), top + [name], tEnd - start, (tPush - start) + (tChore - tEnd))
  }

  /** `MMETER_FUNC_PROFILER` at the head of the function `funcName`, on the
      calling thread's tree: with `MMETER_ENABLE` other than 1 it expands to
      nothing and the tree is untouched; otherwise one guard lives for the
      call.  Either way the stack ends as it began. */
  method ProfiledCall(enable: int, tree: FuncProfilerTree, funcName: string,
                      start: int, tPush: int, tEnd: int, tChore: int)
    requires tree.Valid() && |tree.stack| >= 1
    modifies tree
    ensures tree.stack == old(tree.stack)
    ensures enable != 1 ==> tree.Value() == old(tree.Value())
    ensures enable == 1 ==> tree.Value() == GuardLifetime(old(tree.Value()), old(tree.stack[|tree.stack| - 1]),
                                                           funcName, start, tPush, tEnd, tChore)
    ensures tree.Valid()
  {
    if enable == 1 {
      var guard := new FuncProfiler(start, funcName, tree, tPush);
      ghost var pushed := tree.stack;
      assert pushed[|pushed| - 1] == guard.branch;
      guard.Exit(tEnd, tChore);
      assert pushed[..|pushed| - 1] == old(tree.stack);
    }
  }

  /** A guard's lifetime creates exactly the node `top + [name]` if it was
      missing, adds `tEnd - start` to its measured duration and the push and
      exit costs to its chore, and changes no other node's durations, the
      root's included. */
  lemma GuardLifetimeEffect(t: Branch, top: Path, name: string, start: int, tPush: int, tEnd: int, tChore: int, q: Path)
    requires HasPath(t, top)
    ensures var r := GuardLifetime(t, top, name, start, tPush, tEnd, tChore);
            && (HasPath(r, q) <==> HasPath(t, q) || q == top + [name])
            && At(r, q).measured == At(t, q).measured + (if q == top + [name] then tEnd - start else 0)
            && At(r, q).nodeChore == At(t, q).nodeChore
                 + (if q == top + [name] then (tPush - start) + (tChore - tEnd) else 0)
  {
    var t' := EnsureChildAt(t, top, name);
    EnsureChildAtEffect(t, top, name, q);
    EnsureChildAtEffect(t, top, name, top + [name]);
    AddAtEffect(t', top + [name], tEnd - start, (tPush - start) + (tChore - tEnd), q);
  }

  /** A guard's lifetime changes the real duration of its own node by the
      measured time less the chores, takes the chores off the real duration
      of every enclosing node up to the root, and leaves every other node's
      real duration as it was. */
  lemma GuardLifetimeReal(t: Branch, top: Path, name: string, start: int, tPush: int, tEnd: int, tChore: int, q: Path)
    requires HasPath(t, top)
    ensures var chore := (tPush - start) + (tChore - tEnd);
            Real(At(GuardLifetime(t, top, name, start, tPush, tEnd, tChore), q))
              == Real(At(t, q)) + (if q == top + [name] then (tEnd - start) - chore
                                   else if IsPrefix(q, top) then -chore else 0)
  {
    var t', p := EnsureChildAt(t, top, name), top + [name];
    var dm, dc := tEnd - start, (tPush - start) + (tChore - tEnd);
    var before, created := Real(At(t, q)), Real(At(t', q));
    RealEnsureChildAtAt(t, top, name, q);
    EnsureChildAtEffect(t, top, name, p);
    RealAddAtAt(t', p, dm, dc, q);
    AboveChild(q, top, name);
    var delta := if q == p then dm - dc else if IsPrefix(q, top) then -dc else 0;
    assert created == before;
    assert Real(At(AddAt(t', p, dm, dc), q)) == created + delta;
  }

  /** The nodes strictly above a child are those up to its parent. */
  lemma AboveChild(q: Path, top: Path, name: string)
    ensures IsPrefix(q, top + [name]) && q != top + [name] <==> IsPrefix(q, top)
  {
    var p := top + [name];
    if IsPrefix(q, p) && q != p {
      assert p[..|q|] == top[..|q|];
    }
    if IsPrefix(q, top) {
      assert p[..|q|] == top[..|q|];
    }
  }

  /** With readings taken in order, a guard adds no negative chore. */
  lemma GuardLifetimeNonNegative(t: Branch, top: Path, name: string, start: int, tPush: int, tEnd: int, tChore: int)
    requires ChoresNonNegative(t) && HasPath(t, top)
    requires start <= tPush && tEnd <= tChore
    ensures ChoresNonNegative(GuardLifetime(t, top, name, start, tPush, tEnd, tChore))
  {
    var created := EnsureChildAt(t, top, name);
    var chore := (tPush - start) + (tChore - tEnd);
    EnsureChildAtNonNegative(t, top, name);
    AddAtNonNegative(created, top + [name], tEnd - start, chore);
    assert GuardLifetime(t, top, name, start, tPush, tEnd, tChore) == AddAt(created, top + [name], tEnd - start, chore);
  }

  /** A node created by one guard has real duration `tEnd - tPush` minus
      the exit cost `tChore - tEnd`.  The exit cost is read after `endTime`,
      so readings in order still give a negative real duration whenever the
      exit cost exceeds the time from push to exit. */
  lemma NewNodeReal(t: Branch, top: Path, name: string, start: int, tPush: int, tEnd: int, tChore: int)
    requires HasPath(t, top) && name !in At(t, top).branches
    ensures Real(At(GuardLifetime(t, top, name, start, tPush, tEnd, tChore), top + [name]))
              == (tEnd - tPush) - (tChore - tEnd)
  {
    GuardLifetimeReal(t, top, name, start, tPush, tEnd, tChore, top + [name]);
    assert Real(At(t, top + [name])) == 0 by {
      AtAppend(t, top, name);
      RealOfAbsentChild(At(t, top), name);
    }
  }

  /** A terminating thread's wrapper merges the thread's tree into the
      process-wide tree. */
  method ThreadTeardown(global: FuncProfilerTree, local: FuncProfilerTree)
    requires global.Valid()
    modifies global
    ensures global.Value() == Merged(old(global.Value()), old(local.Value()))
    ensures global.stack == old(global.stack)
    ensures global.Valid()
  {
    global.Merge(local);
  }
}
