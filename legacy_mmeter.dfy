/**
 * The older revision of the profiler (the top-level `MMeter.h` and
 * `MMeter.cpp`).  The tree and its stack work as in the current revision,
 * but the bookkeeping differs: a guard's entry cost is charged to the chore
 * of every node on the stack, nothing is charged on exit, and
 * `realDuration()` looks at the node alone.  Every guard works on the one
 * process-wide tree `getGlobalTree()` returns, which is passed in here.
 */
module LegacyMMeter {
  import opened ProfileTree
  import opened Reports
  import opened ByDuration

  /** The legacy `FuncProfilerTree` used as a root. */
  class FuncProfilerTree {
    var branches: map<string, Branch>
    var stack: seq<Path>
    var measured: int
    var nodeChore: int

    /** The tree this object holds. */
    function Value(): Branch
      reads this
    {
      Branch(branches, measured, nodeChore)
    }

    ghost predicate Valid()
      reads this
    {
      StackOk(Value(), stack)
    }

    /** `branches()`: each entry is the node one name below the root. */
    function Branches(): (r: map<string, Branch>)
      reads this
      ensures forall k :: k in r ==> HasPath(Value(), [k]) && At(Value(), [k]) == r[k]
    {
      ChildrenAtPaths(Value());
      branches
    }

    /** The const `duration()`: the legacy real duration plus the node's own
        chore. */
    function Duration(): (r: int)
      reads this
      ensures r == LegacyReal(Value()) + Value().nodeChore
    {
      measured
    }

    /** The const `choreDuration()`: what the legacy real duration takes off
        the measured duration. */
    function ChoreDuration(): (r: int)
      reads this
      ensures r == Value().measured - LegacyReal(Value())
      ensures ChoresNonNegative(Value()) ==> r >= 0
    {
      nodeChore
    }

    /** `stack()`: on a well-formed tree its entries are nodes of the tree,
        and entry `i` is the first `i` names of the top's path. */
    function Stack(): (r: seq<Path>)
      reads this
      ensures Valid() && r != [] ==> StackNodes(Value(), r)
    {
      StackOkNodes(Value(), stack);
      stack
    }

    /** A fresh tree: zero durations, no children, and a stack holding only
        the tree itself. */
    constructor ()
      ensures Value() == Empty()
      ensures stack == [[]]
      ensures Valid()
    {
      branches := map[];
      stack := [[]];
      measured := 0;
      nodeChore := 0;
    }

    /** Installs `v` as the tree held, keeping the stack. */
    method SetValue(v: Branch)
      modifies this
      ensures Value() == v && stack == old(stack)
    {
      branches := v.branches;
      measured := v.measured;
      nodeChore := v.nodeChore;
    }

    /** `operator[](name)` on the root: the existing child is returned
        unchanged, otherwise a zeroed, childless child is inserted and
        returned; no other child changes. */
    method Index(name: string) returns (child: Branch)
      requires Valid()
      modifies this
      ensures child == ChildOr(old(Value()), name)
      ensures Value() == EnsureChild(old(Value()), name)
      ensures stack == old(stack)
      ensures Valid()
    {
      if stack != [] {
        EnsureChildAtKeepsRootAnchored(Value(), stack, [], name);
      }
      if name !in branches {
        branches := branches[name := Empty()];
      }
      child := branches[name];
    }

    /** `stackPush(name)`: the child `name` of the top node, created when
        absent, becomes the new top; the path to it is returned. */
    method StackPush(name: string) returns (top: Path)
      requires Valid() && |stack| >= 1
      modifies this
      ensures top == old(stack[|stack| - 1]) + [name]
      ensures stack == old(stack) + [top]
      ensures Value() == EnsureChildAt(old(Value()), old(stack[|stack| - 1]), name)
      ensures Valid()
    {
      var parent := stack[|stack| - 1];
      PushKeepsRootAnchored(Value(), stack, name);
      SetValue(EnsureChildAt(Value(), parent, name));
      top := parent + [name];
      stack := stack + [top];
    }

    /** `stackPop()`: drops the top entry and nothing else. */
    method StackPop()
      requires Valid() && |stack| >= 1
      modifies this
      ensures stack == old(stack[..|stack| - 1])
      ensures Value() == old(Value())
      ensures Valid()
    {
      if |stack| > 1 {
        PopKeepsRootAnchored(Value(), stack);
      }
      stack := stack[..|stack| - 1];
    }

    /** `+=` through the mutable `duration()` and `choreDuration()`
        references of the node at `p`, the only way a node's numbers
        change. */
    method AddToBranch(p: Path, dm: int, dc: int)
      requires Valid() && HasPath(Value(), p)
      modifies this
      ensures Value() == AddAt(old(Value()), p, dm, dc)
      ensures stack == old(stack)
      ensures Valid()
    {
      if stack != [] {
        AddAtKeepsRootAnchored(Value(), stack, p, dm, dc);
      }
      SetValue(AddAt(Value(), p, dm, dc));
    }

    /** `realDuration()`, which leaves the tree unchanged. */
    method RealDuration() returns (r: int)
      ensures r == LegacyReal(Value())
    {
      r := measured - nodeChore;
    }

    /** `totals()`, which leaves the tree unchanged. */
    method Totals() returns (ret: map<string, int>)
      ensures ret == Reports.Totals(Legacy, Value())
    {
      ret := ComputeTotals(Legacy, Value());
    }

    /** `totalsByDuration()`, which leaves the tree unchanged. */
    method TotalsByDuration() returns (ret: seq<(int, string)>)
      ensures ret == ByDuration.ByDuration(Reports.Totals(Legacy, Value()))
    {
      var tot := ComputeTotals(Legacy, Value());
      ret := ComputeByDuration(tot);
    }
  }

  /** The tree after `c` has been added to the chore of the node at each of
      `paths`, in order. */
  function AddChoreAlong(t: Branch, paths: seq<Path>, c: int): Branch
  {
    if paths == [] then t
    else AddAt(AddChoreAlong(t, paths[..|paths| - 1], c), paths[|paths| - 1], 0, c)
  }

  /** Charging `c` along a list of existing, distinct paths adds `c` to the
      chore of exactly the nodes listed; no path appears or disappears and
      no measured duration changes. */
  lemma {:induction false} AddChoreAlongEffect(t: Branch, paths: seq<Path>, c: int, q: Path)
    requires forall i :: 0 <= i < |paths| ==> HasPath(t, paths[i])
    requires forall i, j :: 0 <= i < j < |paths| ==> paths[i] != paths[j]
    ensures HasPath(AddChoreAlong(t, paths, c), q) <==> HasPath(t, q)
    ensures At(AddChoreAlong(t, paths, c), q).measured == At(t, q).measured
    ensures At(AddChoreAlong(t, paths, c), q).nodeChore == At(t, q).nodeChore + (if q in paths then c else 0)
    decreases |paths|
  {
    if paths != [] {
      var init, last := paths[..|paths| - 1], paths[|paths| - 1];
      AddChoreAlongEffect(t, init, c, q);
      AddChoreAlongEffect(t, init, c, last);
      AddAtEffect(AddChoreAlong(t, init, c), last, 0, c, q);
      assert q in paths <==> q in init || q == last;
      if q == last {
        assert q !in init;
      }
    }
  }

  /** The legacy guard: constructed at function entry, destroyed at exit. */
  class FuncProfiler {
    var startTime: int
    var chores: int
    const tree: FuncProfilerTree
    var branch: Path

    /** Construction at `startTime`: pushes `name`, then charges the time
        until `pushTime`, when the push is over, to the chore of every node
        on the stack: the root, every open ancestor and the new branch. */
    constructor (name: string, tree: FuncProfilerTree, startTime: int, pushTime: int)
      requires tree.Valid() && |tree.stack| >= 1
      modifies tree
      ensures this.tree == tree && this.startTime == startTime
      ensures branch == old(tree.stack[|tree.stack| - 1]) + [name]
      ensures tree.stack == old(tree.stack) + [branch]
      ensures tree.Value() == AddChoreAlong(EnsureChildAt(old(tree.Value()), old(tree.stack[|tree.stack| - 1]), name),
                                            tree.stack, pushTime - startTime)
      ensures chores == pushTime - startTime
      ensures tree.Valid()
    {
      this.tree := tree;
      this.startTime := startTime;
      new;
      branch := tree.StackPush(name);
      chores := pushTime - startTime;
      ghost var pushed := tree.Value();
      var entries := tree.stack;
      for i := 0 to |entries|
        invariant tree.stack == entries
        invariant tree.Value() == AddChoreAlong(pushed, entries[..i], chores)
        invariant tree.Valid()
        invariant this.tree == tree && this.startTime == startTime
        invariant branch == entries[|entries| - 1] && chores == pushTime - startTime
      {
        tree.AddToBranch(entries[i], 0, chores);
        assert entries[..i + 1][..i] == entries[..i];
      }
      assert entries[..|entries|] == entries;
    }

    /** Destruction at `now`: the time since `startTime` is added to the
        branch's measured duration and the stack is popped; no chore is
        charged. */
    method Exit(now: int)
      requires tree.Valid() && |tree.stack| >= 1 && HasPath(tree.Value(), branch)
      modifies tree
      ensures tree.Value() == AddAt(old(tree.Value()), branch, now - startTime, 0)
      ensures tree.stack == old(tree.stack[..|tree.stack| - 1])
      ensures tree.Valid()
    {
      tree.AddToBranch(branch, now - startTime, 0);
      tree.StackPop();
    }
  }

  /** The tree after one legacy guard's whole lifetime, entered from the
      open stack `stack`: child `name` of the top created if absent, the
      push cost `tPush - start` charged to every node of the stack after the
      push, and `tEnd - start` added to the new branch's measured
      duration. */
  function LegacyGuardLifetime(t: Branch, stack: seq<Path>, name: string, start: int, tPush: int, tEnd: int): Branch
    requires |stack| >= 1
  {
    var branch := stack[|stack| - 1] + [name];
    AddAt(AddChoreAlong(EnsureChildAt(t, stack[|stack| - 1], name), stack + [branch], tPush - start),
          branch, tEnd - start, 0)
  }

  /** `MMETER_FUNC_PROFILER` at the head of the function `funcName`: one
      guard on the global tree for the call; the stack ends as it began. */
  method ProfiledCall(globalTree: FuncProfilerTree, funcName: string, start: int, tPush: int, tEnd: int)
    requires globalTree.Valid() && |globalTree.stack| >= 1
    modifies globalTree
    ensures globalTree.stack == old(globalTree.stack)
    ensures globalTree.Value() == LegacyGuardLifetime(old(globalTree.Value()), old(globalTree.stack), funcName, start, tPush, tEnd)
    ensures globalTree.Valid()
  {
    var guard := new FuncProfiler(funcName, globalTree, start, tPush);
    ghost var pushed := globalTree.stack;
    assert pushed[|pushed| - 1] == guard.branch;
    guard.Exit(tEnd);
    assert pushed[..|pushed| - 1] == old(globalTree.stack);
  }

  /** On a root-anchored stack the entries are exactly the nodes leading to
      the top: the root, every open ancestor and the top itself. */
  lemma StackIsPrefixes(t: Branch, stack: seq<Path>, q: Path)
    requires RootAnchored(t, stack)
    ensures q in stack <==> IsPrefix(q, stack[|stack| - 1])
    ensures forall i, j :: 0 <= i < j < |stack| ==> stack[i] != stack[j]
  {
    RootAnchoredPrefixes(t, stack);
    var top := stack[|stack| - 1];
    if IsPrefix(q, top) {
      assert stack[|q|] == q;
    }
  }

  /** A legacy guard's lifetime creates exactly the node `top + [name]` if
      it was missing, charges the push cost to the chore of every node from
      the root down to that node and of no other, and adds the measured
      time to that node alone: the root's measured duration never
      changes. */
  lemma LegacyGuardLifetimeEffect(t: Branch, stack: seq<Path>, name: string, start: int, tPush: int, tEnd: int, q: Path)
    requires RootAnchored(t, stack)
    ensures var r, branch := LegacyGuardLifetime(t, stack, name, start, tPush, tEnd), stack[|stack| - 1] + [name];
            && (HasPath(r, q) <==> HasPath(t, q) || q == branch)
            && At(r, q).measured == At(t, q).measured + (if q == branch then tEnd - start else 0)
            && At(r, q).nodeChore == At(t, q).nodeChore + (if IsPrefix(q, branch) then tPush - start else 0)
            && r.measured == t.measured
  {
    var branch := stack[|stack| - 1] + [name];
    var charged := AddChoreAlong(EnsureChildAt(t, stack[|stack| - 1], name), stack + [branch], tPush - start);
    LegacyEntryEffect(t, stack, name, tPush - start, q);
    LegacyEntryEffect(t, stack, name, tPush - start, branch);
    LegacyEntryEffect(t, stack, name, tPush - start, []);
    AddAtEffect(charged, branch, tEnd - start, 0, q);
    AddAtEffect(charged, branch, tEnd - start, 0, []);
    assert LegacyGuardLifetime(t, stack, name, start, tPush, tEnd) == AddAt(charged, branch, tEnd - start, 0);
  }

  /** The legacy guard's constructor alone: the child `name` of the top is
      created if absent, and `c` is charged to the chore of every node from
      the root down to it and of no other. */
  lemma LegacyEntryEffect(t: Branch, stack: seq<Path>, name: string, c: int, q: Path)
    requires RootAnchored(t, stack)
    ensures var branch := stack[|stack| - 1] + [name];
            var r := AddChoreAlong(EnsureChildAt(t, stack[|stack| - 1], name), stack + [branch], c);
            && (HasPath(r, q) <==> HasPath(t, q) || q == branch)
            && At(r, q).measured == At(t, q).measured
            && At(r, q).nodeChore == At(t, q).nodeChore + (if IsPrefix(q, branch) then c else 0)
  {
    var top := stack[|stack| - 1];
    var branch := top + [name];
    var t' := EnsureChildAt(t, top, name);
    var s' := stack + [branch];
    PushKeepsRootAnchored(t, stack, name);
    StackIsPrefixes(t', s', q);
    assert s'[|s'| - 1] == branch;
    AddChoreAlongEffect(t', s', c, q);
    EnsureChildAtEffect(t, top, name, q);
  }

  /** One legacy lifetime changes each node's legacy real duration by the
      measured time at the new node and by minus the entry cost at the new
      node and every node above it. */
  lemma LegacyGuardLifetimeReal(t: Branch, stack: seq<Path>, name: string, start: int, tPush: int, tEnd: int, q: Path)
    requires RootAnchored(t, stack)
    ensures var r, branch := LegacyGuardLifetime(t, stack, name, start, tPush, tEnd), stack[|stack| - 1] + [name];
            LegacyReal(At(r, q)) == LegacyReal(At(t, q))
              + (if q == branch then tEnd - start else 0)
              - (if IsPrefix(q, branch) then tPush - start else 0)
  {
    LegacyGuardLifetimeEffect(t, stack, name, start, tPush, tEnd, q);
  }

  /** The root is charged every entry cost but never measured: each guard
      lowers the root's legacy real duration by its push cost, so a fresh
      tree's root goes negative once a guard with a positive push cost has
      run. */
  lemma RootRealDrops(t: Branch, stack: seq<Path>, name: string, start: int, tPush: int, tEnd: int)
    requires RootAnchored(t, stack)
    ensures LegacyReal(LegacyGuardLifetime(t, stack, name, start, tPush, tEnd)) == LegacyReal(t) - (tPush - start)
  {
    LegacyGuardLifetimeReal(t, stack, name, start, tPush, tEnd, []);
  }
}
