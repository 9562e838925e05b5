/**
 * `totals()` and `totalsByDuration()`: the flat reports of a tree.
 *
 * `totals()` maps every name that occurs anywhere below a node to the sum of
 * the real durations of all nodes of that name, at whatever depth.  It first
 * enters the real duration of each direct child, then adds in each child's
 * own totals entry by entry.  `totalsByDuration()` orders those entries as a
 * `std::set` of (duration, name) pairs.  Both revisions share this code and
 * differ only in what `realDuration()` is.
 */
module Reports {
  import opened StringOrder
  import opened ProfileTree
  import opened DistinctNames
  import opened Durations

  /** The revision whose `realDuration()` a report uses. */
  datatype Revision = Current | Legacy

  /** Legacy `realDuration()`: the node's own measured time minus its own
      chore; the children are not consulted. */
  function LegacyReal(b: Branch): int
  {
    b.measured - b.nodeChore
  }

  ghost function RealOf(rev: Revision, b: Branch): int
  {
    if rev == Current then Real(b) else LegacyReal(b)
  }

  /** `realDuration()` as the given revision computes it. */
  method RealDurationOf(rev: Revision, b: Branch) returns (r: int)
    ensures r == RealOf(rev, b)
  {
    if rev == Current {
      r := RealDuration(b);
    } else {
      r := b.measured - b.nodeChore;
    }
  }

  /** The two revisions differ by the chore below the node; on a childless
      node they agree. */
  lemma LegacyRealVersusCurrent(b: Branch)
    ensures LegacyReal(b) == Real(b) + (BranchChore(b) - b.nodeChore)
    ensures b.branches == map[] ==> LegacyReal(b) == Real(b)
  {
    if b.branches == map[] {
      assert |Ascending(b.branches.Keys)| == 0;
    }
  }

  // ---------------------------------------------------------------------
  // The reference: every node below a node, with its name.

  /** Every node strictly below `t` with its name: the children in
      ascending name order, then everything below each child, child by
      child in the same order. */
  ghost function Occurrences(t: Branch): seq<(string, Branch)>
    decreases t, 1
  {
    ChildrenOf(t, Ascending(t.branches.Keys)) + BelowAll(t, Ascending(t.branches.Keys))
  }

  /** The children called `names`, with their names. */
  ghost function ChildrenOf(t: Branch, names: seq<string>): seq<(string, Branch)>
  {
    if names == [] then []
    else
      var k := names[|names| - 1];
      ChildrenOf(t, names[..|names| - 1]) + (if k in t.branches then [(k, t.branches[k])] else [])
  }

  /** Everything below the children called `names`. */
  ghost function BelowAll(t: Branch, names: seq<string>): seq<(string, Branch)>
    decreases t, 0, |names|
  {
    if names == [] then []
    else
      var k := names[|names| - 1];
      BelowAll(t, names[..|names| - 1]) + (if k in t.branches then Occurrences(t.branches[k]) else [])
  }

  /** The names occurring in `occ`. */
  ghost function NamesOf(occ: seq<(string, Branch)>): set<string>
  {
    set i | 0 <= i < |occ| :: occ[i].0
  }

  /** The sum of the real durations of the occurrences of `n` in `occ`. */
  ghost function Tally(rev: Revision, occ: seq<(string, Branch)>, n: string): int
  {
    if occ == [] then 0
    else
      var last := occ[|occ| - 1];
      Tally(rev, occ[..|occ| - 1], n) + (if last.0 == n then RealOf(rev, last.1) else 0)
  }

  lemma {:induction false} TallyAppend(rev: Revision, a: seq<(string, Branch)>, b: seq<(string, Branch)>, n: string)
    ensures Tally(rev, a + b, n) == Tally(rev, a, n) + Tally(rev, b, n)
    decreases |b|
  {
    if b == [] {
      assert a + b == a;
    } else {
      var b' := b[..|b| - 1];
      TallyAppend(rev, a, b', n);
      assert (a + b)[..|a + b| - 1] == a + b';
    }
  }

  lemma NamesOfAppend(a: seq<(string, Branch)>, b: seq<(string, Branch)>)
    ensures NamesOf(a + b) == NamesOf(a) + NamesOf(b)
  {
    forall x | x in NamesOf(a + b)
      ensures x in NamesOf(a) + NamesOf(b)
    {
      var i :| 0 <= i < |a + b| && (a + b)[i].0 == x;
      if i >= |a| {
        assert b[i - |a|].0 == x;
      }
    }
    forall x | x in NamesOf(a)
      ensures x in NamesOf(a + b)
    {
      var i :| 0 <= i < |a| && a[i].0 == x;
      assert (a + b)[i].0 == x;
    }
    forall x | x in NamesOf(b)
      ensures x in NamesOf(a + b)
    {
      var i :| 0 <= i < |b| && b[i].0 == x;
      assert (a + b)[|a| + i].0 == x;
    }
  }

  /** Over a list of names without repeats, the children contribute the
      real duration of the child called `n`, once, when there is one. */
  lemma {:induction false} ChildrenOfAt(rev: Revision, t: Branch, names: seq<string>, n: string)
    requires Distinct(names)
    ensures Tally(rev, ChildrenOf(t, names), n)
              == if n in names && n in t.branches then RealOf(rev, t.branches[n]) else 0
    ensures n in NamesOf(ChildrenOf(t, names)) <==> n in names && n in t.branches
    decreases |names|
  {
    if names != [] {
      var init, k := names[..|names| - 1], names[|names| - 1];
      assert Distinct(init);
      assert names == init + [k];
      ChildrenOfAt(rev, t, init, n);
      var last := if k in t.branches then [(k, t.branches[k])] else [];
      TallyAppend(rev, ChildrenOf(t, init), last, n);
      NamesOfAppend(ChildrenOf(t, init), last);
      if k in t.branches {
        assert Tally(rev, last, n) == (if k == n then RealOf(rev, t.branches[k]) else 0) by {
          assert last[..0] == [];
        }
        assert NamesOf(last) == {k};
      }
      if n == k {
        assert n !in init;
      }
    }
  }

  /** A listed child is among the children called `names`. */
  lemma {:induction false} ChildrenOfHas(t: Branch, names: seq<string>, k: string)
    requires k in names && k in t.branches
    ensures (k, t.branches[k]) in ChildrenOf(t, names)
    decreases |names|
  {
    var init, last := names[..|names| - 1], names[|names| - 1];
    assert names == init + [last];
    if k != last {
      ChildrenOfHas(t, init, k);
    }
  }

  /** Everything below a listed child is below the children called `names`. */
  lemma {:induction false} BelowAllHas(t: Branch, names: seq<string>, k: string, x: (string, Branch))
    requires k in names && k in t.branches && x in Occurrences(t.branches[k])
    ensures x in BelowAll(t, names)
    decreases |names|
  {
    var init, last := names[..|names| - 1], names[|names| - 1];
    assert names == init + [last];
    if k != last {
      BelowAllHas(t, init, k, x);
    }
  }

  /** An entry of the children called `names` is one of the children. */
  lemma {:induction false} ChildrenOfIn(t: Branch, names: seq<string>, x: (string, Branch))
    requires x in ChildrenOf(t, names)
    ensures x.0 in t.branches && x.1 == t.branches[x.0]
    decreases |names|
  {
    var init, last := names[..|names| - 1], names[|names| - 1];
    if x in ChildrenOf(t, init) {
      ChildrenOfIn(t, init, x);
    }
  }

  /** An entry below the children called `names` is below one child. */
  lemma {:induction false} BelowAllIn(t: Branch, names: seq<string>, x: (string, Branch))
    requires x in BelowAll(t, names)
    ensures exists k :: k in t.branches && x in Occurrences(t.branches[k])
    decreases |names|
  {
    var init, last := names[..|names| - 1], names[|names| - 1];
    if x in BelowAll(t, init) {
      BelowAllIn(t, init, x);
    }
  }

  /** Every node strictly below `t`, reached by a non-empty path, is listed
      with the last name of its path. */
  lemma {:induction false} OccurrencesCoverPaths(t: Branch, p: Path)
    requires p != [] && HasPath(t, p)
    ensures (p[|p| - 1], At(t, p)) in Occurrences(t)
    decreases |p|
  {
    var k, rest := p[0], p[1..];
    var names := Ascending(t.branches.Keys);
    AscendingEnumerates(t.branches.Keys);
    var child := t.branches[k];
    assert At(t, p) == At(child, rest);
    if rest == [] {
      ChildrenOfHas(t, names, k);
    } else {
      OccurrencesCoverPaths(child, rest);
      assert p[|p| - 1] == rest[|rest| - 1];
      BelowAllHas(t, names, k, (rest[|rest| - 1], At(child, rest)));
    }
  }

  /** The path `[k] + q` from `t` is the path `q` from its child `k`. */
  lemma PathThroughChild(t: Branch, k: string, q: Path)
    requires k in t.branches && q != []
    ensures var p := [k] + q;
            && p != []
            && (HasPath(t, p) <==> HasPath(t.branches[k], q))
            && At(t, p) == At(t.branches[k], q)
            && p[|p| - 1] == q[|q| - 1]
  {
    assert ([k] + q)[1..] == q;
  }

  /** Conversely, every listed entry is a node strictly below `t`, named by
      the last name of its path. */
  lemma {:induction false} OccurrencesArePaths(t: Branch, x: (string, Branch))
    requires x in Occurrences(t)
    ensures exists p :: p != [] && HasPath(t, p) && p[|p| - 1] == x.0 && At(t, p) == x.1
    decreases t
  {
    var names := Ascending(t.branches.Keys);
    if x in ChildrenOf(t, names) {
      ChildrenOfIn(t, names, x);
      var p := [x.0];
      assert At(t, p) == At(t.branches[x.0], []);
      assert p != [] && HasPath(t, p) && p[|p| - 1] == x.0 && At(t, p) == x.1;
    } else {
      BelowAllIn(t, names, x);
      var k :| k in t.branches && x in Occurrences(t.branches[k]);
      OccurrencesArePaths(t.branches[k], x);
      var q :| q != [] && HasPath(t.branches[k], q) && q[|q| - 1] == x.0 && At(t.branches[k], q) == x.1;
      PathThroughChild(t, k, q);
      var p := [k] + q;
      assert p != [] && HasPath(t, p) && p[|p| - 1] == x.0 && At(t, p) == x.1;
    }
  }

  /** The names reported are exactly the last names of the non-empty paths
      of the tree. */
  lemma NamesOfOccurrences(t: Branch, n: string)
    ensures n in NamesOf(Occurrences(t)) <==> exists p :: p != [] && HasPath(t, p) && p[|p| - 1] == n
  {
    var occ := Occurrences(t);
    if n in NamesOf(occ) {
      var i :| 0 <= i < |occ| && occ[i].0 == n;
      OccurrencesArePaths(t, occ[i]);
    }
    if exists p :: p != [] && HasPath(t, p) && p[|p| - 1] == n {
      var p :| p != [] && HasPath(t, p) && p[|p| - 1] == n;
      OccurrencesCoverPaths(t, p);
      var i :| 0 <= i < |occ| && occ[i] == (n, At(t, p));
    }
  }

  // ---------------------------------------------------------------------
  // What `totals()` computes.

  /** The value at `k`, zero when absent. */
  function Get(m: map<string, int>, k: string): int
  {
    if k in m then m[k] else 0
  }

  /** The inner loop of `totals()`: every entry of `sub` is added to the
      entry of the same name, which is created when missing. */
  function AddEntries(acc: map<string, int>, sub: map<string, int>): (r: map<string, int>)
    ensures r.Keys == acc.Keys + sub.Keys
    ensures forall k :: Get(r, k) == Get(acc, k) + Get(sub, k)
  {
    map k | k in acc.Keys + sub.Keys :: Get(acc, k) + Get(sub, k)
  }

  /** The first loop of `totals()`: the real duration of each child under
      its name. */
  ghost function DirectReals(rev: Revision, t: Branch): map<string, int>
  {
    map k | k in t.branches :: RealOf(rev, t.branches[k])
  }

  /** `totals()` of `t`. */
  ghost function Totals(rev: Revision, t: Branch): map<string, int>
    decreases t, 1
  {
    TotalsUpTo(rev, t, Ascending(t.branches.Keys))
  }

  /** `totals()` once the second loop has added in the totals of the
      children called `names`. */
  ghost function TotalsUpTo(rev: Revision, t: Branch, names: seq<string>): map<string, int>
    decreases t, 0, |names|
  {
    if names == [] then DirectReals(rev, t)
    else AddEntries(TotalsUpTo(rev, t, names[..|names| - 1]), SubTotals(rev, t, names[|names| - 1]))
  }

  /** `totals()` of the child called `k`; nothing when there is none. */
  ghost function SubTotals(rev: Revision, t: Branch, k: string): map<string, int>
    decreases t, 0, 0
  {
    if k in t.branches then Totals(rev, t.branches[k]) else map[]
  }

  /** `totals()` names exactly the names occurring below the node, and for
      each it holds the sum of the real durations of all its occurrences,
      whatever their depth. */
  lemma {:induction false} TotalsAt(rev: Revision, t: Branch, n: string)
    ensures n in Totals(rev, t) <==> n in NamesOf(Occurrences(t))
    ensures Get(Totals(rev, t), n) == Tally(rev, Occurrences(t), n)
    decreases t, 1
  {
    var names := Ascending(t.branches.Keys);
    AscendingEnumerates(t.branches.Keys);
    TotalsUpToAt(rev, t, names, n);
    TallyAppend(rev, ChildrenOf(t, names), BelowAll(t, names), n);
    NamesOfAppend(ChildrenOf(t, names), BelowAll(t, names));
    ChildrenOfAt(rev, t, names, n);
  }

  lemma {:induction false} TotalsUpToAt(rev: Revision, t: Branch, names: seq<string>, n: string)
    ensures n in TotalsUpTo(rev, t, names) <==> n in t.branches || n in NamesOf(BelowAll(t, names))
    ensures Get(TotalsUpTo(rev, t, names), n)
              == Get(DirectReals(rev, t), n) + Tally(rev, BelowAll(t, names), n)
    decreases t, 0, |names|
  {
    if names != [] {
      var init, k := names[..|names| - 1], names[|names| - 1];
      TotalsUpToAt(rev, t, init, n);
      if k in t.branches {
        TotalsAt(rev, t.branches[k], n);
        TallyAppend(rev, BelowAll(t, init), Occurrences(t.branches[k]), n);
        NamesOfAppend(BelowAll(t, init), Occurrences(t.branches[k]));
      } else {
        assert BelowAll(t, names) == BelowAll(t, init);
      }
    }
  }

  /** `totals()` as a whole: its names are those occurring below the node,
      each with the summed real duration of its occurrences. */
  lemma TotalsAreOccurrenceSums(rev: Revision, t: Branch)
    ensures Totals(rev, t).Keys == NamesOf(Occurrences(t))
    ensures forall n :: n in Totals(rev, t) ==> Totals(rev, t)[n] == Tally(rev, Occurrences(t), n)
  {
    forall n
      ensures n in Totals(rev, t) <==> n in NamesOf(Occurrences(t))
      ensures n in Totals(rev, t) ==> Totals(rev, t)[n] == Tally(rev, Occurrences(t), n)
    {
      TotalsAt(rev, t, n);
    }
  }

  // ---------------------------------------------------------------------
  // How `totals()` computes it.

  /** `acc` after the inner loop of `totals()` has added in the entries of
      `sub` called `names`, in that order. */
  function AddedUpTo(acc: map<string, int>, sub: map<string, int>, names: seq<string>): map<string, int>
  {
    if names == [] then acc
    else
      var prev, k := AddedUpTo(acc, sub, names[..|names| - 1]), names[|names| - 1];
      if k in sub then prev[k := Get(prev, k) + sub[k]] else prev
  }

  lemma AddedUpToNext(acc: map<string, int>, sub: map<string, int>, names: seq<string>, i: nat)
    requires i < |names| && names[i] in sub
    ensures var prev := AddedUpTo(acc, sub, names[..i]);
            AddedUpTo(acc, sub, names[..i + 1]) == prev[names[i] := Get(prev, names[i]) + sub[names[i]]]
  {
    assert names[..i + 1][..i] == names[..i];
  }

  /** Adding in the entries one by one, each name once, adds each entry
      once and creates the entries that were missing. */
  lemma {:induction false} AddedUpToAt(acc: map<string, int>, sub: map<string, int>, names: seq<string>, x: string)
    requires Distinct(names)
    ensures x in AddedUpTo(acc, sub, names) <==> x in acc || (x in names && x in sub)
    ensures Get(AddedUpTo(acc, sub, names), x) == Get(acc, x) + (if x in names && x in sub then sub[x] else 0)
    decreases |names|
  {
    if names != [] {
      var init := names[..|names| - 1];
      assert Distinct(init);
      assert forall y :: y in names <==> y in init || y == names[|names| - 1];
      AddedUpToAt(acc, sub, init, x);
    }
  }

  /** Over the keys of `sub` in ascending order, the loop computes
      `AddEntries`. */
  lemma AddedUpToAll(acc: map<string, int>, sub: map<string, int>)
    ensures AddedUpTo(acc, sub, Ascending(sub.Keys)) == AddEntries(acc, sub)
  {
    var names := Ascending(sub.Keys);
    AscendingEnumerates(sub.Keys);
    AddedUpToAgrees(acc, sub, names);
  }

  lemma AddedUpToAgrees(acc: map<string, int>, sub: map<string, int>, names: seq<string>)
    requires Distinct(names)
    requires forall x :: x in sub ==> x in names
    ensures AddedUpTo(acc, sub, names).Keys == AddEntries(acc, sub).Keys
    ensures forall x :: Get(AddedUpTo(acc, sub, names), x) == Get(AddEntries(acc, sub), x)
  {
    forall x
      ensures x in AddedUpTo(acc, sub, names) <==> x in AddEntries(acc, sub)
      ensures Get(AddedUpTo(acc, sub, names), x) == Get(AddEntries(acc, sub), x)
    {
      AddedUpToAt(acc, sub, names, x);
    }
  }

  /** One turn of the inner loop: find the entry `k`; create it with `v`
      when missing, otherwise add `v` to it. */
  method AddEntry(ret: map<string, int>, k: string, v: int) returns (r: map<string, int>)
    ensures r == ret[k := Get(ret, k) + v]
  {
    if k in ret {
      r := ret[k := ret[k] + v];
    } else {
      r := ret[k := v];
    }
  }

  /** The inner loop of `totals()`: walk `sub` in ascending name order,
      adding each entry to the entry of the same name or creating it. */
  method AddInto(acc: map<string, int>, sub: map<string, int>) returns (ret: map<string, int>)
    ensures ret == AddEntries(acc, sub)
  {
    ret := acc;
    var names := SortedKeys(sub);
    for i := 0 to |names|
      invariant ret == AddedUpTo(acc, sub, names[..i])
    {
      AscendingMember(sub.Keys, i);
      AddedUpToNext(acc, sub, names, i);
      ret := AddEntry(ret, names[i], sub[names[i]]);
    }
    assert names[..|names|] == names;
    AddedUpToAll(acc, sub);
  }

  /** The first loop of `totals()` after entering the children called
      `names`. */
  ghost function DirectUpTo(rev: Revision, t: Branch, names: seq<string>): map<string, int>
  {
    if names == [] then map[]
    else
      var prev, k := DirectUpTo(rev, t, names[..|names| - 1]), names[|names| - 1];
      if k in t.branches then prev[k := RealOf(rev, t.branches[k])] else prev
  }

  lemma {:induction false} DirectUpToAt(rev: Revision, t: Branch, names: seq<string>, x: string)
    ensures x in DirectUpTo(rev, t, names) <==> x in names && x in t.branches
    ensures x in DirectUpTo(rev, t, names) ==> DirectUpTo(rev, t, names)[x] == RealOf(rev, t.branches[x])
    decreases |names|
  {
    if names != [] {
      var init := names[..|names| - 1];
      assert forall y :: y in names <==> y in init || y == names[|names| - 1];
      DirectUpToAt(rev, t, init, x);
    }
  }

  /** Over all the children, the first loop enters every child's real
      duration. */
  lemma DirectUpToAll(rev: Revision, t: Branch)
    ensures DirectUpTo(rev, t, Ascending(t.branches.Keys)) == DirectReals(rev, t)
  {
    var names := Ascending(t.branches.Keys);
    AscendingEnumerates(t.branches.Keys);
    DirectUpToAgrees(rev, t, names);
  }

  lemma DirectUpToAgrees(rev: Revision, t: Branch, names: seq<string>)
    requires forall x :: x in t.branches ==> x in names
    ensures DirectUpTo(rev, t, names).Keys == DirectReals(rev, t).Keys
    ensures forall x :: x in DirectReals(rev, t) ==> DirectUpTo(rev, t, names)[x] == DirectReals(rev, t)[x]
  {
    forall x
      ensures x in DirectUpTo(rev, t, names) <==> x in DirectReals(rev, t)
      ensures x in DirectReals(rev, t) ==> DirectUpTo(rev, t, names)[x] == DirectReals(rev, t)[x]
    {
      DirectUpToAt(rev, t, names, x);
    }
  }

  lemma DirectUpToNext(rev: Revision, t: Branch, names: seq<string>, i: nat)
    requires i < |names| && names[i] in t.branches
    ensures DirectUpTo(rev, t, names[..i + 1])
              == DirectUpTo(rev, t, names[..i])[names[i] := RealOf(rev, t.branches[names[i]])]
  {
    assert names[..i + 1][..i] == names[..i];
  }

  lemma TotalsUpToNext(rev: Revision, t: Branch, names: seq<string>, i: nat)
    requires i < |names| && names[i] in t.branches
    ensures TotalsUpTo(rev, t, names[..i + 1])
              == AddEntries(TotalsUpTo(rev, t, names[..i]), Totals(rev, t.branches[names[i]]))
  {
    assert names[..i + 1][..i] == names[..i];
  }

  /** `totals()`: the first loop enters each child's real duration, the
      second adds in each child's totals; children in ascending name
      order. */
  method ComputeTotals(rev: Revision, t: Branch) returns (ret: map<string, int>)
    ensures ret == Totals(rev, t)
    decreases t
  {
    ret := map[];
    var names := SortedKeys(t.branches);
    for i := 0 to |names|
      invariant ret == DirectUpTo(rev, t, names[..i])
    {
      AscendingMember(t.branches.Keys, i);
      DirectUpToNext(rev, t, names, i);
      var r := RealDurationOf(rev, t.branches[names[i]]);
      ret := ret[names[i] := r];
    }
    assert names[..|names|] == names;
    DirectUpToAll(rev, t);
    assert ret == TotalsUpTo(rev, t, names[..0]);
    for i := 0 to |names|
      invariant ret == TotalsUpTo(rev, t, names[..i])
    {
      AscendingMember(t.branches.Keys, i);
      TotalsUpToNext(rev, t, names, i);
      var sub := ComputeTotals(rev, t.branches[names[i]]);
      ret := AddInto(ret, sub);
    }
    assert names[..|names|] == names;
  }
}
