/**
 * The derived durations of the current revision: `branchChoreDuration`, the
 * profiler's bookkeeping time summed over a node and everything below it,
 * and `realDuration`, the measured time with that bookkeeping taken out.
 * Neither is stored; both are recomputed from the node's fields.
 */
module Durations {
  import opened StringOrder
  import opened ProfileTree
  import opened DistinctNames
  import opened Merging

  /** `branchChoreDuration()`: the node's own chore plus the branch chore of
      every child, the children visited in the map's ascending order. */
  ghost function BranchChore(b: Branch): int
    decreases b, 1, 0
  {
    b.nodeChore + ChildrenChore(b, Ascending(b.branches.Keys))
  }

  /** The branch chores of the children called `names`, accumulated in that
      order; a name without a child adds nothing. */
  ghost function ChildrenChore(b: Branch, names: seq<string>): int
    decreases b, 0, |names|
  {
    if names == [] then 0
    else ChildrenChore(b, names[..|names| - 1]) + ChildChore(b, names[|names| - 1])
  }

  /** The branch chore of the child called `k`, zero when there is none. */
  ghost function ChildChore(b: Branch, k: string): int
    decreases b, 0, 0
  {
    if k in b.branches then BranchChore(b.branches[k]) else 0
  }

  /** `realDuration()`: measured time minus the chore of the whole branch. */
  ghost function Real(b: Branch): int
  {
    b.measured - BranchChore(b)
  }

  /** The loop of `branchChoreDuration()`: start from the node chore and add
      each child's branch chore, recursively. */
  method BranchChoreDuration(b: Branch) returns (tot: int)
    ensures tot == BranchChore(b)
    ensures b.branches == map[] ==> tot == b.nodeChore
    decreases b
  {
    tot := b.nodeChore;
    var names := SortedKeys(b.branches);
    for i := 0 to |names|
      invariant tot == b.nodeChore + ChildrenChore(b, names[..i])
    {
      AscendingMember(b.branches.Keys, i);
      var sub := BranchChoreDuration(b.branches[names[i]]);
      ChildrenChoreNext(b, names, i);
      tot := tot + sub;
    }
    assert names[..|names|] == names;
  }

  /** `realDuration()` as computed. */
  method RealDuration(b: Branch) returns (r: int)
    ensures r == Real(b)
    ensures b.branches == map[] ==> r == b.measured - b.nodeChore
  {
    var chore := BranchChoreDuration(b);
    r := b.measured - chore;
  }

  /** One more name of a list accumulates one more child. */
  lemma ChildrenChoreNext(b: Branch, names: seq<string>, i: nat)
    requires i < |names|
    ensures ChildrenChore(b, names[..i + 1]) == ChildrenChore(b, names[..i]) + ChildChore(b, names[i])
  {
    assert names[..i + 1][..i] == names[..i];
  }

  /** Entry `j` can be accumulated last. */
  lemma {:induction false} ChildrenChoreRemove(t: Branch, names: seq<string>, j: nat)
    requires j < |names|
    ensures ChildrenChore(t, names) == ChildrenChore(t, names[..j] + names[j + 1..]) + ChildChore(t, names[j])
    decreases |names|
  {
    var n := |names|;
    if j < n - 1 {
      var init := names[..n - 1];
      ChildrenChoreRemove(t, init, j);
      var rest := names[..j] + names[j + 1..];
      assert init[..j] + init[j + 1..] == rest[..|rest| - 1];
      assert rest[|rest| - 1] == names[n - 1];
    } else {
      assert names[..j] + names[j + 1..] == names[..n - 1];
    }
  }

  /** Two lists of names without repeats accumulate the same chore when the
      names only the longer one lists have no child. */
  lemma {:induction false} ChildrenChoreZeros(t: Branch, s: seq<string>, u: seq<string>)
    requires Distinct(s) && Distinct(u)
    requires forall i :: 0 <= i < |s| ==> s[i] in u
    requires forall x :: x in u && x !in s ==> x !in t.branches
    ensures ChildrenChore(t, s) == ChildrenChore(t, u)
    decreases |u|
  {
    if u != [] {
      var n := |u|;
      var x, u' := u[n - 1], u[..n - 1];
      if x in s {
        var j :| 0 <= j < |s| && s[j] == x;
        var s' := s[..j] + s[j + 1..];
        ZerosDropBoth(t, s, u, j);
        ChildrenChoreRemove(t, s, j);
        ChildrenChoreZeros(t, s', u');
      } else {
        ZerosDropLast(t, s, u);
        ChildrenChoreZeros(t, s, u');
      }
    }
  }

  /** The shared last name removed from both lists keeps the conditions of
      `ChildrenChoreZeros`. */
  lemma ZerosDropBoth(t: Branch, s: seq<string>, u: seq<string>, j: nat)
    requires Distinct(s) && Distinct(u) && u != []
    requires forall i :: 0 <= i < |s| ==> s[i] in u
    requires forall x :: x in u && x !in s ==> x !in t.branches
    requires j < |s| && s[j] == u[|u| - 1]
    ensures var s', u' := s[..j] + s[j + 1..], u[..|u| - 1];
            && Distinct(s') && Distinct(u')
            && (forall i :: 0 <= i < |s'| ==> s'[i] in u')
            && (forall x :: x in u' && x !in s' ==> x !in t.branches)
  {
    var n := |u|;
    var s', u' := s[..j] + s[j + 1..], u[..n - 1];
    RemoveAt(u, n - 1);
    assert u[..n - 1] + u[n..] == u';
    RemoveAt(s, j);
    forall i | 0 <= i < |s'|
      ensures s'[i] in u'
    {
      assert s'[i] in s';
    }
  }

  /** A last name of the longer list that the shorter one lacks can be
      dropped, keeping the conditions of `ChildrenChoreZeros`. */
  lemma ZerosDropLast(t: Branch, s: seq<string>, u: seq<string>)
    requires Distinct(s) && Distinct(u) && u != []
    requires forall i :: 0 <= i < |s| ==> s[i] in u
    requires forall x :: x in u && x !in s ==> x !in t.branches
    requires u[|u| - 1] !in s
    ensures var u' := u[..|u| - 1];
            && Distinct(u')
            && (forall i :: 0 <= i < |s| ==> s[i] in u')
            && (forall x :: x in u' && x !in s ==> x !in t.branches)
            && ChildChore(t, u[|u| - 1]) == 0
  {
    var n := |u|;
    var u' := u[..n - 1];
    RemoveAt(u, n - 1);
    assert u[..n - 1] + u[n..] == u';
    forall i | 0 <= i < |s|
      ensures s[i] in u'
    {
      assert s[i] != u[n - 1];
    }
  }

  /** Child-by-child sums add up. */
  lemma {:induction false} ChildrenChoreAdd(m: Branch, a: Branch, b: Branch, names: seq<string>)
    requires forall x :: x in names ==> ChildChore(m, x) == ChildChore(a, x) + ChildChore(b, x)
    ensures ChildrenChore(m, names) == ChildrenChore(a, names) + ChildrenChore(b, names)
    decreases |names|
  {
    if names != [] {
      ChildrenChoreAdd(m, a, b, names[..|names| - 1]);
    }
  }

  /** Changing the chore of the one child `k` by `d` changes the sum by `d`
      when `k` is listed, and not at all otherwise. */
  lemma {:induction false} ChildrenChoreShift(t: Branch, t': Branch, names: seq<string>, k: string, d: int)
    requires Distinct(names)
    requires forall x :: x in names ==> ChildChore(t', x) == ChildChore(t, x) + (if x == k then d else 0)
    ensures ChildrenChore(t', names) == ChildrenChore(t, names) + (if k in names then d else 0)
    decreases |names|
  {
    if names != [] {
      var init := names[..|names| - 1];
      assert Distinct(init);
      assert forall y :: y in init ==> y in names;
      ChildrenChoreShift(t, t', init, k, d);
      if names[|names| - 1] == k {
        assert k !in init;
      }
    }
  }

  /** The branch chore is the node chore plus the children's branch chores
      accumulated in any order, over any list of names without repeats that
      covers every child. */
  lemma BranchChoreAnyOrder(b: Branch, names: seq<string>)
    requires Distinct(names)
    requires forall k :: k in b.branches ==> k in names
    ensures BranchChore(b) == b.nodeChore + ChildrenChore(b, names)
  {
    AscendingEnumerates(b.branches.Keys);
    ChildrenChoreZeros(b, Ascending(b.branches.Keys), names);
  }

  /** A zeroed node has no chore. */
  lemma BranchChoreEmpty()
    ensures BranchChore(Empty()) == 0
  {
    assert |Ascending(Empty().branches.Keys)| == 0;
  }

  /** A node without children has only its own chore. */
  lemma BranchChoreChildless(b: Branch)
    requires b.branches == map[]
    ensures BranchChore(b) == b.nodeChore
  {
    assert |Ascending(b.branches.Keys)| == 0;
  }

  /** Under non-negative node chores, the branch chore covers the node's own
      chore and the branch chore of each child. */
  lemma {:induction false} BranchChoreBounds(b: Branch)
    requires ChoresNonNegative(b)
    ensures BranchChore(b) >= b.nodeChore >= 0
    ensures forall k :: k in b.branches ==> BranchChore(b) >= BranchChore(b.branches[k])
    decreases b
  {
    forall k | k in b.branches
      ensures BranchChore(b.branches[k]) >= 0
    {
      BranchChoreBounds(b.branches[k]);
    }
    var asc := Ascending(b.branches.Keys);
    AscendingEnumerates(b.branches.Keys);
    ChildrenChoreBounds(b, asc);
    forall k | k in b.branches
      ensures BranchChore(b) >= BranchChore(b.branches[k])
    {
      var i :| 0 <= i < |asc| && asc[i] == k;
      assert ChildChore(b, asc[i]) == BranchChore(b.branches[k]);
    }
  }

  /** A child that does not exist reads as a zeroed node, whose real
      duration is zero. */
  lemma RealOfAbsentChild(b: Branch, name: string)
    requires name !in b.branches
    ensures Real(ChildOr(b, name)) == 0
  {
    var c := ChildOr(b, name);
    assert c == Empty();
    assert c.branches == map[] && c.measured == 0 && c.nodeChore == 0;
    BranchChoreChildless(c);
    assert BranchChore(c) == 0;
  }

  /** With no negative chore, a node's own chore lies between zero and its
      branch chore. */
  lemma NodeChoreBounds(b: Branch)
    ensures ChoresNonNegative(b) ==> 0 <= b.nodeChore <= BranchChore(b)
  {
    if ChoresNonNegative(b) {
      BranchChoreBounds(b);
    }
  }

  lemma {:induction false} ChildrenChoreBounds(b: Branch, names: seq<string>)
    requires forall k :: k in b.branches ==> BranchChore(b.branches[k]) >= 0
    ensures ChildrenChore(b, names) >= 0
    ensures forall i :: 0 <= i < |names| ==> ChildrenChore(b, names) >= ChildChore(b, names[i])
    decreases |names|
  {
    if names != [] {
      var init, last := names[..|names| - 1], names[|names| - 1];
      ChildrenChoreBounds(b, init);
      assert ChildrenChore(b, names) == ChildrenChore(b, init) + ChildChore(b, last);
      forall i | 0 <= i < |names|
        ensures ChildrenChore(b, names) >= ChildChore(b, names[i])
      {
        if i < |names| - 1 {
          assert names[i] == init[i];
        }
      }
    }
  }

  /** Merging adds branch chores. */
  lemma {:induction false} BranchChoreOfMerged(a: Branch, b: Branch)
    ensures BranchChore(Merged(a, b)) == BranchChore(a) + BranchChore(b)
    decreases b, 1
  {
    var m := Merged(a, b);
    var names := Ascending(m.branches.Keys);
    AscendingEnumerates(m.branches.Keys);
    assert m.branches.Keys == a.branches.Keys + b.branches.Keys;
    forall x | x in names
      ensures ChildChore(m, x) == ChildChore(a, x) + ChildChore(b, x)
    {
      ChildChoreOfMerged(a, b, x);
    }
    ChildrenChoreAdd(m, a, b, names);
    BranchChoreAnyOrder(m, names);
    BranchChoreAnyOrder(a, names);
    BranchChoreAnyOrder(b, names);
  }

  lemma {:induction false} ChildChoreOfMerged(a: Branch, b: Branch, k: string)
    ensures ChildChore(Merged(a, b), k) == ChildChore(a, k) + ChildChore(b, k)
    decreases b, 0
  {
    var m := Merged(a, b);
    assert k in m.branches <==> k in a.branches || k in b.branches;
    if k in b.branches {
      if k in a.branches {
        assert m.branches[k] == Merged(a.branches[k], b.branches[k]);
        BranchChoreOfMerged(a.branches[k], b.branches[k]);
      } else {
        assert m.branches[k] == Merged(Empty(), b.branches[k]);
        MergedEmptyLeft(b.branches[k]);
      }
    } else if k in a.branches {
      assert m.branches[k] == a.branches[k];
    }
  }

  /** Merging adds real durations, at the root and at every name path. */
  lemma RealOfMerged(a: Branch, b: Branch, p: Path)
    ensures Real(Merged(a, b)) == Real(a) + Real(b)
    ensures Real(At(Merged(a, b), p)) == Real(At(a, p)) + Real(At(b, p))
  {
    BranchChoreOfMerged(a, b);
    MergedAt(a, b, p);
    BranchChoreOfMerged(At(a, p), At(b, p));
  }

  /** Adding `dc` to the node chore of any node of a branch adds `dc` to the
      branch chore. */
  lemma {:induction false} BranchChoreAddAt(t: Branch, p: Path, dm: int, dc: int)
    requires HasPath(t, p)
    ensures BranchChore(AddAt(t, p, dm, dc)) == BranchChore(t) + dc
    decreases |p|
  {
    if p != [] {
      var k := p[0];
      var c := t.branches[k];
      BranchChoreAddAt(c, p[1..], dm, dc);
      ReplaceChild(t, k, AddAt(c, p[1..], dm, dc), dc);
    } else {
      var t' := AddAt(t, [], dm, dc);
      var names := Ascending(t.branches.Keys);
      AscendingEnumerates(t.branches.Keys);
      ChildrenChoreShift(t, t', names, "", 0);
      BranchChoreAnyOrder(t, names);
      BranchChoreAnyOrder(t', names);
    }
  }

  /** Replacing one existing child by a node whose branch chore is larger by
      `d` makes the branch chore larger by `d`. */
  lemma ReplaceChild(t: Branch, k: string, c': Branch, d: int)
    requires k in t.branches
    requires BranchChore(c') == BranchChore(t.branches[k]) + d
    ensures BranchChore(t.(branches := t.branches[k := c'])) == BranchChore(t) + d
  {
    var t' := t.(branches := t.branches[k := c']);
    var names := Ascending(t.branches.Keys);
    AscendingEnumerates(t.branches.Keys);
    assert t'.branches.Keys == t.branches.Keys;
    ChildrenChoreShift(t, t', names, k, d);
    BranchChoreAnyOrder(t, names);
    BranchChoreAnyOrder(t', names);
  }

  /** Creating a child anywhere leaves the branch chore as it was. */
  lemma {:induction false} BranchChoreEnsureChildAt(t: Branch, p: Path, name: string)
    requires HasPath(t, p)
    ensures BranchChore(EnsureChildAt(t, p, name)) == BranchChore(t)
    decreases |p|
  {
    if p != [] {
      var k := p[0];
      var c := t.branches[k];
      BranchChoreEnsureChildAt(c, p[1..], name);
      ReplaceChild(t, k, EnsureChildAt(c, p[1..], name), 0);
    } else {
      BranchChoreEnsureChild(t, name);
    }
  }

  lemma BranchChoreEnsureChild(t: Branch, name: string)
    ensures BranchChore(EnsureChild(t, name)) == BranchChore(t)
  {
    if name !in t.branches {
      var t' := EnsureChild(t, name);
      var names := Ascending(t'.branches.Keys);
      AscendingEnumerates(t'.branches.Keys);
      SameChildChores(t, name, names);
      BranchChoreAnyOrder(t, names);
      BranchChoreAnyOrder(t', names);
      SameParts(t, t', names);
    }
  }

  /** Every child, old or new, keeps its branch chore. */
  lemma SameChildChores(t: Branch, name: string, names: seq<string>)
    requires Distinct(names)
    ensures ChildrenChore(EnsureChild(t, name), names) == ChildrenChore(t, names)
  {
    var t' := EnsureChild(t, name);
    forall x | x in names
      ensures ChildChore(t', x) == ChildChore(t, x)
    {
      if x == name {
        NewChildChore(t, name);
      }
    }
    ChildrenChoreShift(t, t', names, name, 0);
  }

  /** Equal node chores and equal child sums give equal branch chores. */
  lemma SameParts(t: Branch, t': Branch, names: seq<string>)
    requires BranchChore(t) == t.nodeChore + ChildrenChore(t, names)
    requires BranchChore(t') == t'.nodeChore + ChildrenChore(t', names)
    requires t'.nodeChore == t.nodeChore
    requires ChildrenChore(t', names) == ChildrenChore(t, names)
    ensures BranchChore(t') == BranchChore(t)
  {
  }

  /** A child created zeroed adds no chore. */
  lemma NewChildChore(t: Branch, name: string)
    ensures ChildChore(EnsureChild(t, name), name) == ChildChore(t, name)
  {
    if name !in t.branches {
      BranchChoreEmpty();
    }
  }

  /** Seen from any node, adding `dm` measured and `dc` chore at `p` changes
      the real duration of `p` itself by `dm - dc`, takes `dc` off the real
      duration of every node above `p`, and leaves every other node's real
      duration alone. */
  lemma RealAddAtAt(t: Branch, p: Path, dm: int, dc: int, q: Path)
    requires HasPath(t, p)
    ensures Real(At(AddAt(t, p, dm, dc), q))
              == Real(At(t, q)) + (if q == p then dm - dc else if IsPrefix(q, p) then -dc else 0)
  {
    AtAddAt(t, p, dm, dc, q);
    if IsPrefix(q, p) {
      var s, r := At(t, q), p[|q|..];
      HasPathBelow(t, q, p);
      BranchChoreAddAt(s, r, dm, dc);
      AddAtEffect(s, r, dm, dc, []);
      assert r == [] <==> q == p;
    }
  }

  /** Creating a child anywhere changes no node's real duration. */
  lemma RealEnsureChildAtAt(t: Branch, p: Path, name: string, q: Path)
    requires HasPath(t, p)
    ensures Real(At(EnsureChildAt(t, p, name), q)) == Real(At(t, q))
  {
    AtEnsureChildAt(t, p, name, q);
    if IsPrefix(q, p) {
      var s, r := At(t, q), p[|q|..];
      HasPathBelow(t, q, p);
      BranchChoreEnsureChildAt(s, r, name);
      EnsureChildAtEffect(s, r, name, []);
    }
  }
}
