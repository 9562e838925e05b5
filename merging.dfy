/**
 * `FuncProfilerTree::merge`: the recursive, additive combination of one tree
 * into another, matched by name path.  It is how a terminating thread's tree
 * is folded into the process-wide tree.
 */
module Merging {
  import opened StringOrder
  import opened ProfileTree

  /** The value `a.merge(b)` leaves in `a`: both durations added, and every
      child of `b` merged into the child of `a` with the same name, which is
      created zeroed first when `a` has none.  Children of `a` that `b` lacks
      are kept as they are. */
  function Merged(a: Branch, b: Branch): Branch
    decreases b
  {
    Branch(map k | k in a.branches.Keys + b.branches.Keys ::
             if k in b.branches then Merged(ChildOr(a, k), b.branches[k]) else a.branches[k],
           a.measured + b.measured,
           a.nodeChore + b.nodeChore)
  }

  /** `a` after the merge loop has handled the children of `b` named in
      `done`: durations added, those children merged, every other child of
      `a` untouched. */
  ghost function MergedSoFar(a: Branch, b: Branch, done: set<string>): Branch
    requires done <= b.branches.Keys
  {
    Branch(map k | k in a.branches.Keys + done ::
             if k in done then Merged(ChildOr(a, k), b.branches[k]) else a.branches[k],
           a.measured + b.measured,
           a.nodeChore + b.nodeChore)
  }

  /** One turn of the merge loop: fetch or create the child `k`, merge the
      other node's child `k` into it. */
  lemma MergeLoopStep(a: Branch, b: Branch, done: set<string>, k: string)
    requires done <= b.branches.Keys && k in b.branches && k !in done
    ensures var r := EnsureChild(MergedSoFar(a, b, done), k);
            r.(branches := r.branches[k := Merged(r.branches[k], b.branches[k])])
              == MergedSoFar(a, b, done + {k})
  {
    var r := EnsureChild(MergedSoFar(a, b, done), k);
    assert r.branches[k] == ChildOr(a, k);
    var lhs := r.branches[k := Merged(r.branches[k], b.branches[k])];
    var rhs := MergedSoFar(a, b, done + {k}).branches;
    assert lhs.Keys == rhs.Keys;
    forall j | j in lhs
      ensures lhs[j] == rhs[j]
    {
      if j != k && j !in done {
        assert lhs[j] == a.branches[j];
      }
    }
    assert lhs == rhs;
  }

  /** Before the loop only the durations have been added. */
  lemma MergeLoopStart(a: Branch, b: Branch)
    ensures a.(measured := a.measured + b.measured, nodeChore := a.nodeChore + b.nodeChore)
              == MergedSoFar(a, b, {})
  {
    assert a.branches == MergedSoFar(a, b, {}).branches;
  }

  /** When every child of the other node has been handled, the loop has
      computed the merge. */
  lemma MergeLoopDone(a: Branch, b: Branch, names: seq<string>)
    requires names == Ascending(b.branches.Keys)
    ensures (set j | 0 <= j < |names| :: names[j]) == b.branches.Keys
    ensures MergedSoFar(a, b, set j | 0 <= j < |names| :: names[j]) == Merged(a, b)
  {
    AscendingEnumerates(b.branches.Keys);
    assert (set j | 0 <= j < |names| :: names[j]) == b.branches.Keys;
    assert MergedSoFar(a, b, b.branches.Keys).branches == Merged(a, b).branches;
  }

  /** The merge loop itself: add the two durations, then walk the other
      node's children in ascending name order, fetching or creating the
      child of the same name and merging into it. */
  method MergeInto(a: Branch, b: Branch) returns (r: Branch)
    ensures r == Merged(a, b)
    decreases b
  {
    r := a.(measured := a.measured + b.measured, nodeChore := a.nodeChore + b.nodeChore);
    var names := SortedKeys(b.branches);
    ghost var done: set<string> := {};
    MergeLoopStart(a, b);
    for i := 0 to |names|
      invariant done == set j | 0 <= j < i :: names[j]
      invariant done <= b.branches.Keys
      invariant r == MergedSoFar(a, b, done)
    {
      var k := names[i];
      NextName(b.branches.Keys, names, i);
      MergeLoopStep(a, b, done, k);
      r := EnsureChild(r, k);
      var merged := MergeInto(r.branches[k], b.branches[k]);
      r := r.(branches := r.branches[k := merged]);
      done := done + {k};
    }
    MergeLoopDone(a, b, names);
  }

  /** Merging a zeroed node changes nothing. */
  lemma MergedEmptyRight(a: Branch)
    ensures Merged(a, Empty()) == a
  {
    assert Merged(a, Empty()).branches == a.branches;
  }

  /** Merging into a zeroed node gives the merged node. */
  lemma MergedEmptyLeft(b: Branch)
    ensures Merged(Empty(), b) == b
  {
    MergedCommutative(Empty(), b);
    MergedEmptyRight(b);
  }

  /** The child of a merge is the merge of the children. */
  lemma ChildOfMerged(a: Branch, b: Branch, k: string)
    ensures ChildOr(Merged(a, b), k) == Merged(ChildOr(a, k), ChildOr(b, k))
  {
    if k !in b.branches {
      MergedEmptyRight(ChildOr(a, k));
    }
  }

  /** Merging acts path by path: the node at any path of the result is the
      merge of the nodes at that path in the two trees. */
  lemma {:induction false} MergedAt(a: Branch, b: Branch, p: Path)
    ensures At(Merged(a, b), p) == Merged(At(a, p), At(b, p))
    decreases |p|
  {
    if p != [] {
      ChildOfMerged(a, b, p[0]);
      MergedAt(ChildOr(a, p[0]), ChildOr(b, p[0]), p[1..]);
    }
  }

  /** Per name path, merging adds the measured and the chore durations. */
  lemma MergedAddsAtEveryPath(a: Branch, b: Branch, p: Path)
    ensures At(Merged(a, b), p).measured == At(a, p).measured + At(b, p).measured
    ensures At(Merged(a, b), p).nodeChore == At(a, p).nodeChore + At(b, p).nodeChore
  {
    MergedAt(a, b, p);
  }

  /** A path exists in the merge exactly when it exists in either tree; in
      particular the child names of the result are the union. */
  lemma {:induction false} MergedHasPath(a: Branch, b: Branch, p: Path)
    ensures HasPath(Merged(a, b), p) <==> HasPath(a, p) || HasPath(b, p)
    decreases |p|
  {
    if p != [] {
      var k, p' := p[0], p[1..];
      var m := Merged(a, b);
      assert k in m.branches <==> k in a.branches || k in b.branches;
      ChildOfMerged(a, b, k);
      MergedHasPath(ChildOr(a, k), ChildOr(b, k), p');
      AtEmpty(p');
      if k in m.branches {
        assert m.branches[k] == ChildOr(m, k);
      }
    }
  }

  /** Merging is commutative. */
  lemma MergedCommutative(a: Branch, b: Branch)
    ensures Merged(a, b) == Merged(b, a)
  {
    forall q
      ensures HasPath(Merged(a, b), q) <==> HasPath(Merged(b, a), q)
      ensures At(Merged(a, b), q).measured == At(Merged(b, a), q).measured
      ensures At(Merged(a, b), q).nodeChore == At(Merged(b, a), q).nodeChore
    {
      MergedHasPath(a, b, q);
      MergedHasPath(b, a, q);
      MergedAddsAtEveryPath(a, b, q);
      MergedAddsAtEveryPath(b, a, q);
    }
    TreeExtensionality(Merged(a, b), Merged(b, a));
  }

  /** Merging is associative. */
  lemma MergedAssociative(a: Branch, b: Branch, c: Branch)
    ensures Merged(Merged(a, b), c) == Merged(a, Merged(b, c))
  {
    var l, r := Merged(Merged(a, b), c), Merged(a, Merged(b, c));
    forall q
      ensures HasPath(l, q) <==> HasPath(r, q)
      ensures At(l, q).measured == At(r, q).measured
      ensures At(l, q).nodeChore == At(r, q).nodeChore
    {
      MergedHasPath(Merged(a, b), c, q);
      MergedHasPath(a, b, q);
      MergedHasPath(a, Merged(b, c), q);
      MergedHasPath(b, c, q);
      MergedAddsAtEveryPath(Merged(a, b), c, q);
      MergedAddsAtEveryPath(a, b, q);
      MergedAddsAtEveryPath(a, Merged(b, c), q);
      MergedAddsAtEveryPath(b, c, q);
    }
    TreeExtensionality(l, r);
  }

  /** Merging trees whose chores are at least zero gives such a tree. */
  lemma {:induction false} MergedNonNegative(a: Branch, b: Branch)
    requires ChoresNonNegative(a) && ChoresNonNegative(b)
    ensures ChoresNonNegative(Merged(a, b))
    decreases b
  {
    var m := Merged(a, b);
    forall k | k in m.branches
      ensures ChoresNonNegative(m.branches[k])
    {
      if k in b.branches {
        assert ChoresNonNegative(ChildOr(a, k));
        MergedNonNegative(ChildOr(a, k), b.branches[k]);
      }
    }
  }

  /** A fresh global tree into which the thread trees `ts` were merged one
      after the other. */
  function MergeAll(ts: seq<Branch>): Branch
  {
    if ts == [] then Empty() else Merged(MergeAll(ts[..|ts| - 1]), ts[|ts| - 1])
  }

  /** Any one tree can be taken out and merged last. */
  lemma {:induction false} MergeAllTakeOut(ts: seq<Branch>, i: nat)
    requires i < |ts|
    ensures MergeAll(ts) == Merged(MergeAll(ts[..i] + ts[i + 1..]), ts[i])
    decreases |ts|
  {
    var n := |ts|;
    if i == n - 1 {
      assert ts[..i] + ts[i + 1..] == ts[..n - 1];
    } else {
      var init := ts[..n - 1];
      var rest := init[..i] + init[i + 1..];
      MergeAllTakeOut(init, i);
      var x, y, z := MergeAll(rest), ts[i], ts[n - 1];
      calc {
        MergeAll(ts);
        Merged(Merged(x, y), z);
        { MergedAssociative(x, y, z); MergedCommutative(y, z); MergedAssociative(x, z, y); }
        Merged(Merged(x, z), y);
      }
      var without := ts[..i] + ts[i + 1..];
      assert without[..|without| - 1] == rest && without[|without| - 1] == z;
    }
  }

  /** Threads may terminate in any order: merging the same trees into a
      fresh tree in any order gives the same tree. */
  lemma {:induction false} MergeAllAnyOrder(ts: seq<Branch>, us: seq<Branch>)
    requires multiset(ts) == multiset(us)
    ensures MergeAll(ts) == MergeAll(us)
    decreases |us|
  {
    if us == [] {
      assert |ts| == |multiset(ts)| == 0;
    } else {
      var n := |us|;
      var x := us[n - 1];
      assert us == us[..n - 1] + [x];
      assert x in multiset(ts);
      var i :| 0 <= i < |ts| && ts[i] == x;
      var without := ts[..i] + ts[i + 1..];
      assert ts == ts[..i] + [x] + ts[i + 1..];
      assert multiset(ts) == multiset(without) + multiset{x} by {
        assert ts == without[..i] + [x] + without[i..];
        assert without == without[..i] + without[i..];
      }
      assert multiset(without) == multiset(ts) - multiset{x};
      assert multiset(us[..n - 1]) == multiset(us) - multiset{x};
      MergeAllTakeOut(ts, i);
      MergeAllAnyOrder(without, us[..n - 1]);
    }
  }
}
