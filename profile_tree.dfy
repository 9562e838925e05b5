/**
 * The call tree as a value.
 *
 * A `FuncProfilerTree` node holds its children by value in a map keyed by
 * name, and two accumulated durations: the measured wall time and the
 * "node chore" time the profiler spent on its own bookkeeping for this node.
 * Durations are whole numbers of clock ticks.  A node is addressed from the
 * root by the path of names leading to it; the open-activation stack of a
 * tree is a sequence of such paths.
 */
module ProfileTree {
  import opened StringOrder

  /** One node of the call tree. */
  datatype Branch = Branch(branches: map<string, Branch>, measured: int, nodeChore: int)

  /** Names from the root down to a node; `[]` is the root itself. */
  type Path = seq<string>

  /** A default-constructed node: no children, zero durations. */
  function Empty(): Branch
  {
    Branch(map[], 0, 0)
  }

  /** The child called `name`, or a zeroed node when there is none. */
  function ChildOr(t: Branch, name: string): Branch
  {
    if name in t.branches then t.branches[name] else Empty()
  }

  /** `p` names a node that exists in `t`. */
  predicate HasPath(t: Branch, p: Path)
    decreases |p|
  {
    p == [] || (p[0] in t.branches && HasPath(t.branches[p[0]], p[1..]))
  }

  /** The node at `p`, or a zeroed node when `p` leaves the tree: an absent
      node contributes nothing to any sum. */
  function At(t: Branch, p: Path): Branch
    decreases |p|
  {
    if p == [] then t else At(ChildOr(t, p[0]), p[1..])
  }

  lemma {:induction false} AtEmpty(p: Path)
    ensures At(Empty(), p) == Empty()
    ensures HasPath(Empty(), p) <==> p == []
    decreases |p|
  {
    if p != [] {
      AtEmpty(p[1..]);
    }
  }

  /** A tree is determined by which paths exist and the two durations at each. */
  lemma {:induction false} TreeExtensionality(a: Branch, b: Branch)
    requires forall q :: HasPath(a, q) <==> HasPath(b, q)
    requires forall q :: HasPath(a, q) ==> At(a, q).measured == At(b, q).measured
    requires forall q :: HasPath(a, q) ==> At(a, q).nodeChore == At(b, q).nodeChore
    ensures a == b
    decreases a
  {
    assert HasPath(a, []) && At(a, []) == a && At(b, []) == b;
    forall k | k in a.branches
      ensures k in b.branches && a.branches[k] == b.branches[k]
    {
      assert HasPath(a, [k]);
      var ca, cb := a.branches[k], b.branches[k];
      forall q
        ensures HasPath(ca, q) <==> HasPath(cb, q)
        ensures HasPath(ca, q) ==> At(ca, q).measured == At(cb, q).measured
        ensures HasPath(ca, q) ==> At(ca, q).nodeChore == At(cb, q).nodeChore
      {
        var kq := [k] + q;
        assert kq[0] == k && kq[1..] == q;
        assert HasPath(a, kq) <==> HasPath(ca, q);
        assert HasPath(b, kq) <==> HasPath(cb, q);
        assert At(a, kq) == At(ca, q) && At(b, kq) == At(cb, q);
      }
      TreeExtensionality(ca, cb);
    }
    forall k | k in b.branches
      ensures k in a.branches
    {
      assert HasPath(b, [k]);
    }
    assert a.branches == b.branches;
  }

  /** `existingOrNewBranch(name)` on one node: the existing child is kept
      as it is, otherwise a zeroed, childless child is inserted. */
  function EnsureChild(t: Branch, name: string): (r: Branch)
    ensures name in r.branches && r.branches[name] == ChildOr(t, name)
    ensures r.branches.Keys == t.branches.Keys + {name}
    ensures forall k :: k in t.branches ==> r.branches[k] == t.branches[k]
    ensures r.measured == t.measured && r.nodeChore == t.nodeChore
  {
    if name in t.branches then t else t.(branches := t.branches[name := Empty()])
  }

  /** `existingOrNewBranch(name)` applied to the node at `p`. */
  function EnsureChildAt(t: Branch, p: Path, name: string): (r: Branch)
    ensures r.measured == t.measured && r.nodeChore == t.nodeChore
    ensures r.branches.Keys == if p == [] then t.branches.Keys + {name} else t.branches.Keys
    decreases |p|
  {
    if p == [] then EnsureChild(t, name)
    else if p[0] in t.branches then
      t.(branches := t.branches[p[0] := EnsureChildAt(t.branches[p[0]], p[1..], name)])
    else t
  }

  /** Adds `dm` to the measured and `dc` to the node-chore duration of the
      node at `p`, the in-place `+=` through a node's duration fields. */
  function AddAt(t: Branch, p: Path, dm: int, dc: int): (r: Branch)
    ensures r.branches.Keys == t.branches.Keys
    ensures r.measured == t.measured + (if p == [] then dm else 0)
    ensures r.nodeChore == t.nodeChore + (if p == [] then dc else 0)
    decreases |p|
  {
    if p == [] then t.(measured := t.measured + dm, nodeChore := t.nodeChore + dc)
    else if p[0] in t.branches then
      t.(branches := t.branches[p[0] := AddAt(t.branches[p[0]], p[1..], dm, dc)])
    else t
  }

  /** The node at `p + [name]` is the child `name` of the node at `p`, or a
      zeroed node when there is none. */
  lemma {:induction false} AtAppend(t: Branch, p: Path, name: string)
    ensures At(t, p + [name]) == ChildOr(At(t, p), name)
    decreases |p|
  {
    if p != [] {
      assert (p + [name])[0] == p[0] && (p + [name])[1..] == p[1..] + [name];
      AtAppend(ChildOr(t, p[0]), p[1..], name);
    }
  }

  /** The children of a node are the nodes one name below it. */
  lemma ChildrenAtPaths(t: Branch)
    ensures forall k :: k in t.branches ==> HasPath(t, [k]) && At(t, [k]) == t.branches[k]
  {
    forall k | k in t.branches
      ensures HasPath(t, [k]) && At(t, [k]) == t.branches[k]
    {
      assert [k][0] == k && [k][1..] == [];
    }
  }

  /** Creating the child `name` of the node at `p` adds exactly the path
      `p + [name]` when it was absent, and changes no duration anywhere. */
  lemma {:induction false} EnsureChildAtEffect(t: Branch, p: Path, name: string, q: Path)
    requires HasPath(t, p)
    ensures HasPath(EnsureChildAt(t, p, name), q) <==> HasPath(t, q) || q == p + [name]
    ensures At(EnsureChildAt(t, p, name), q).measured == At(t, q).measured
    ensures At(EnsureChildAt(t, p, name), q).nodeChore == At(t, q).nodeChore
    decreases |p|
  {
    var r := EnsureChildAt(t, p, name);
    if q != [] {
      var k, q' := q[0], q[1..];
      assert HasPath(r, q) <==> k in r.branches && HasPath(r.branches[k], q');
      assert At(r, q) == At(ChildOr(r, k), q');
      if p == [] {
        if k == name && name !in t.branches {
          AtEmpty(q');
        }
        assert q == p + [name] <==> k == name && q' == [];
      } else {
        var pk := p[0];
        assert (p + [name])[0] == pk && (p + [name])[1..] == p[1..] + [name];
        if k == pk {
          EnsureChildAtEffect(t.branches[pk], p[1..], name, q');
        }
      }
    }
  }

  /** The additions land on the node at `p` and nowhere else. */
  lemma {:induction false} AddAtEffect(t: Branch, p: Path, dm: int, dc: int, q: Path)
    requires HasPath(t, p)
    ensures HasPath(AddAt(t, p, dm, dc), q) <==> HasPath(t, q)
    ensures At(AddAt(t, p, dm, dc), q).measured == At(t, q).measured + (if q == p then dm else 0)
    ensures At(AddAt(t, p, dm, dc), q).nodeChore == At(t, q).nodeChore + (if q == p then dc else 0)
    decreases |p|
  {
    var r := AddAt(t, p, dm, dc);
    if q != [] {
      var k, q' := q[0], q[1..];
      assert HasPath(r, q) <==> k in r.branches && HasPath(r.branches[k], q');
      assert At(r, q) == At(ChildOr(r, k), q');
      if p != [] {
        if k == p[0] {
          AddAtEffect(t.branches[k], p[1..], dm, dc, q');
          assert q == p <==> q' == p[1..];
        }
      }
    }
  }

  /** Adding the measured part and then the chore part at one node is the
      same as adding both at once. */
  lemma {:induction false} AddAtTwice(t: Branch, p: Path, dm: int, dc: int)
    ensures AddAt(AddAt(t, p, dm, 0), p, 0, dc) == AddAt(t, p, dm, dc)
    decreases |p|
  {
    if p != [] && p[0] in t.branches {
      AddAtTwice(t.branches[p[0]], p[1..], dm, dc);
    }
  }

  /** `q` leads to `p` or to one of its ancestors. */
  predicate IsPrefix(q: Path, p: Path)
  {
    |q| <= |p| && p[..|q|] == q
  }

  /** Below an existing node the rest of an existing path exists too. */
  lemma {:induction false} HasPathBelow(t: Branch, q: Path, p: Path)
    requires HasPath(t, p) && IsPrefix(q, p)
    ensures HasPath(At(t, q), p[|q|..])
    decreases |q|
  {
    if q != [] {
      assert p[1..][..|q| - 1] == q[1..];
      HasPathBelow(t.branches[p[0]], q[1..], p[1..]);
      assert p[1..][|q| - 1..] == p[|q|..];
    }
  }

  /** Seen from a node, an addition at `p` is an addition below it when the
      node leads to `p`, and nothing at all otherwise. */
  lemma {:induction false} AtAddAt(t: Branch, p: Path, dm: int, dc: int, q: Path)
    requires HasPath(t, p)
    ensures At(AddAt(t, p, dm, dc), q)
              == if IsPrefix(q, p) then AddAt(At(t, q), p[|q|..], dm, dc) else At(t, q)
    decreases |q|
  {
    if q != [] && p != [] && q[0] == p[0] {
      AtAddAt(t.branches[p[0]], p[1..], dm, dc, q[1..]);
      assert IsPrefix(q, p) <==> IsPrefix(q[1..], p[1..]);
      assert IsPrefix(q, p) ==> p[1..][|q| - 1..] == p[|q|..];
    }
  }

  /** Seen from a node, creating a child below `p` is the same creation when
      the node leads to `p`, and nothing at all otherwise. */
  lemma {:induction false} AtEnsureChildAt(t: Branch, p: Path, name: string, q: Path)
    requires HasPath(t, p)
    ensures At(EnsureChildAt(t, p, name), q)
              == if IsPrefix(q, p) then EnsureChildAt(At(t, q), p[|q|..], name) else At(t, q)
    decreases |q|
  {
    if q != [] && p != [] && q[0] == p[0] {
      AtEnsureChildAt(t.branches[p[0]], p[1..], name, q[1..]);
      assert IsPrefix(q, p) <==> IsPrefix(q[1..], p[1..]);
      assert IsPrefix(q, p) ==> p[1..][|q| - 1..] == p[|q|..];
    }
  }

  /** `child` names a child of the node named by `parent`. */
  predicate IsChildPath(parent: Path, child: Path)
  {
    |child| == |parent| + 1 && child[..|parent|] == parent
  }

  /** The open-activation stack is a path through the tree anchored at the
      root: entry 0 is the root, each entry is a child of the one below it,
      and every entry exists in the tree. */
  ghost predicate RootAnchored(t: Branch, stack: seq<Path>)
  {
    && |stack| >= 1
    && stack[0] == []
    && (forall i :: 0 < i < |stack| ==> IsChildPath(stack[i - 1], stack[i]))
    && (forall i :: 0 <= i < |stack| ==> HasPath(t, stack[i]))
  }

  /** What the stack of a tree object can be: root-anchored, or empty once
      the root entry itself has been popped. */
  ghost predicate StackOk(t: Branch, stack: seq<Path>)
  {
    stack == [] || RootAnchored(t, stack)
  }

  /** The entries of `stack` are nodes of `t`, and entry `i` is the first
      `i` names of the top's path. */
  ghost predicate StackNodes(t: Branch, stack: seq<Path>)
    requires stack != []
  {
    && |stack[|stack| - 1]| == |stack| - 1
    && forall i :: 0 <= i < |stack| ==> HasPath(t, stack[i]) && stack[i] == stack[|stack| - 1][..i]
  }

  /** A well-formed, non-empty stack lists nodes of the tree, from the
      root down to the top. */
  lemma StackOkNodes(t: Branch, stack: seq<Path>)
    ensures StackOk(t, stack) && stack != [] ==> StackNodes(t, stack)
  {
    if StackOk(t, stack) && stack != [] {
      RootAnchoredPrefixes(t, stack);
    }
  }

  /** On a root-anchored stack entry `i` is the length-`i` prefix of the top:
      the stack holds exactly the root, the open ancestors and the top. */
  lemma {:induction false} RootAnchoredPrefixes(t: Branch, stack: seq<Path>)
    requires RootAnchored(t, stack)
    ensures forall i :: 0 <= i < |stack| ==> |stack[i]| == i
    ensures forall i :: 0 <= i < |stack| ==> stack[i] == stack[|stack| - 1][..i]
    decreases |stack|
  {
    if |stack| > 1 {
      var below := stack[..|stack| - 1];
      assert forall i :: 0 <= i < |below| ==> below[i] == stack[i];
      RootAnchoredPrefixes(t, below);
      var top := stack[|stack| - 1];
      assert IsChildPath(below[|below| - 1], top);
      forall i | 0 <= i < |stack|
        ensures stack[i] == top[..i]
      {
        if i < |stack| - 1 {
          assert stack[i] == below[|below| - 1][..i];
          assert top[..|stack| - 2][..i] == top[..i];
        }
      }
    }
  }

  /** Pushing the child `name` of the top keeps the stack root-anchored. */
  lemma PushKeepsRootAnchored(t: Branch, stack: seq<Path>, name: string)
    requires RootAnchored(t, stack)
    ensures RootAnchored(EnsureChildAt(t, stack[|stack| - 1], name),
                         stack + [stack[|stack| - 1] + [name]])
  {
    var top := stack[|stack| - 1];
    var t', s' := EnsureChildAt(t, top, name), stack + [top + [name]];
    forall i | 0 <= i < |s'|
      ensures HasPath(t', s'[i])
    {
      EnsureChildAtEffect(t, top, name, s'[i]);
    }
    assert IsChildPath(top, top + [name]) by {
      assert (top + [name])[..|top|] == top;
    }
  }

  /** Popping above the root keeps the stack root-anchored. */
  lemma PopKeepsRootAnchored(t: Branch, stack: seq<Path>)
    requires RootAnchored(t, stack) && |stack| > 1
    ensures RootAnchored(t, stack[..|stack| - 1])
  {
  }

  /** Adding durations at an existing node keeps every stack entry in place. */
  lemma AddAtKeepsRootAnchored(t: Branch, stack: seq<Path>, p: Path, dm: int, dc: int)
    requires RootAnchored(t, stack) && HasPath(t, p)
    ensures RootAnchored(AddAt(t, p, dm, dc), stack)
  {
    forall i | 0 <= i < |stack|
      ensures HasPath(AddAt(t, p, dm, dc), stack[i])
    {
      AddAtEffect(t, p, dm, dc, stack[i]);
    }
  }

  /** Creating a child anywhere keeps every stack entry in place. */
  lemma EnsureChildAtKeepsRootAnchored(t: Branch, stack: seq<Path>, p: Path, name: string)
    requires RootAnchored(t, stack) && HasPath(t, p)
    ensures RootAnchored(EnsureChildAt(t, p, name), stack)
  {
    forall i | 0 <= i < |stack|
      ensures HasPath(EnsureChildAt(t, p, name), stack[i])
    {
      EnsureChildAtEffect(t, p, name, stack[i]);
    }
  }

  /** Every node chore in the tree is at least zero. */
  ghost predicate ChoresNonNegative(t: Branch)
    decreases t
  {
    t.nodeChore >= 0 && forall k :: k in t.branches ==> ChoresNonNegative(t.branches[k])
  }

  /** A created child is zeroed, so it brings no negative chore. */
  lemma {:induction false} EnsureChildAtNonNegative(t: Branch, p: Path, name: string)
    requires ChoresNonNegative(t)
    ensures ChoresNonNegative(EnsureChildAt(t, p, name))
    decreases |p|
  {
    if p == [] {
      assert ChoresNonNegative(Empty());
    } else if p[0] in t.branches {
      EnsureChildAtNonNegative(t.branches[p[0]], p[1..], name);
    }
  }

  /** Adding a chore of at least zero keeps every chore at least zero. */
  lemma {:induction false} AddAtNonNegative(t: Branch, p: Path, dm: int, dc: int)
    requires ChoresNonNegative(t) && dc >= 0
    ensures ChoresNonNegative(AddAt(t, p, dm, dc))
    decreases |p|
  {
    if p != [] && p[0] in t.branches {
      AddAtNonNegative(t.branches[p[0]], p[1..], dm, dc);
    }
  }
}
