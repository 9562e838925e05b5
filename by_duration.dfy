/**
 * `totalsByDuration()`: the entries of `totals()` as a
 * `std::set<std::pair<Duration, String>>`, which keeps its elements
 * ascending under `std::pair`'s `operator<` (duration first, then name) and
 * holds each element once.  The set is modelled by the sequence in which it
 * iterates its elements.
 */
module ByDuration {
  import opened StringOrder
  import opened DistinctNames

  /** `std::pair<Duration, String>`'s `operator<`. */
  predicate PairLess(a: (int, string), b: (int, string))
  {
    a.0 < b.0 || (a.0 == b.0 && Less(a.1, b.1))
  }

  lemma PairLessTransitive(a: (int, string), b: (int, string), c: (int, string))
    requires PairLess(a, b) && PairLess(b, c)
    ensures PairLess(a, c)
  {
    if a.0 == b.0 && b.0 == c.0 {
      LessTransitive(a.1, b.1, c.1);
    }
  }

  lemma PairLessTrichotomy(a: (int, string), b: (int, string))
    ensures a == b || PairLess(a, b) || PairLess(b, a)
    ensures !(PairLess(a, b) && PairLess(b, a))
  {
    LessTrichotomy(a.1, b.1);
  }

  /** Iteration order of the set: every element before every later one. */
  ghost predicate PairsAscending(s: seq<(int, string)>)
  {
    forall i, j :: 0 <= i < j < |s| ==> PairLess(s[i], s[j])
  }

  /** `std::set::insert`: an element already present leaves the set as it
      is; otherwise it goes in at its place in the order. */
  function InsertPair(s: seq<(int, string)>, x: (int, string)): (r: seq<(int, string)>)
    ensures forall e :: e in r <==> e in s || e == x
    decreases |s|
  {
    if s == [] then [x]
    else if x == s[0] then s
    else if PairLess(x, s[0]) then [x] + s
    else [s[0]] + InsertPair(s[1..], x)
  }

  /** Insertion keeps the order, adds exactly `x`, and grows the set by one
      exactly when `x` was absent. */
  lemma {:induction false} InsertPairSpec(s: seq<(int, string)>, x: (int, string))
    requires PairsAscending(s)
    ensures PairsAscending(InsertPair(s, x))
    ensures forall e :: e in InsertPair(s, x) <==> e in s || e == x
    ensures |InsertPair(s, x)| == if x in s then |s| else |s| + 1
    decreases |s|
  {
    if s != [] && x != s[0] {
      if PairLess(x, s[0]) {
        var r := [x] + s;
        forall i, j | 0 <= i < j < |r|
          ensures PairLess(r[i], r[j])
        {
          if i == 0 && j > 1 {
            PairLessTransitive(x, s[0], s[j - 1]);
          }
        }
        forall e | e in s
          ensures e != x
        {
          var j :| 0 <= j < |s| && s[j] == e;
          if j > 0 {
            PairLessTransitive(x, s[0], s[j]);
          }
          PairLessTrichotomy(x, e);
        }
      } else {
        var rest := s[1..];
        assert PairsAscending(rest);
        InsertPairSpec(rest, x);
        PairLessTrichotomy(x, s[0]);
        var r := [s[0]] + InsertPair(rest, x);
        forall j | 0 < j < |r|
          ensures PairLess(s[0], r[j])
        {
          assert r[j] in InsertPair(rest, x);
          if r[j] != x {
            var k :| 0 <= k < |rest| && rest[k] == r[j];
            assert rest[k] == s[k + 1];
          }
        }
        assert s == [s[0]] + rest;
        assert x in s <==> x in rest;
      }
    }
  }

  /** The set after inserting the entries of `tot` called `names`, in that
      order. */
  function ByDurationOf(tot: map<string, int>, names: seq<string>): seq<(int, string)>
  {
    if names == [] then []
    else
      var prev, k := ByDurationOf(tot, names[..|names| - 1]), names[|names| - 1];
      if k in tot then InsertPair(prev, (tot[k], k)) else prev
  }

  /** `totalsByDuration()` of the totals `tot`: their entries inserted in the
      map's ascending name order. */
  ghost function ByDuration(tot: map<string, int>): seq<(int, string)>
  {
    ByDurationOf(tot, Ascending(tot.Keys))
  }

  lemma {:induction false} ByDurationOfSpec(tot: map<string, int>, names: seq<string>)
    requires Distinct(names)
    requires forall i :: 0 <= i < |names| ==> names[i] in tot
    ensures PairsAscending(ByDurationOf(tot, names))
    ensures forall e :: e in ByDurationOf(tot, names) <==> e.1 in names && e.1 in tot && e.0 == tot[e.1]
    ensures |ByDurationOf(tot, names)| == |names|
    decreases |names|
  {
    if names != [] {
      var init, k := names[..|names| - 1], names[|names| - 1];
      assert Distinct(init);
      assert forall y :: y in names <==> y in init || y == k;
      ByDurationOfSpec(tot, init);
      InsertPairSpec(ByDurationOf(tot, init), (tot[k], k));
    }
  }

  /** `totalsByDuration()` holds exactly one (duration, name) pair for each
      entry of the totals, and nothing else, in ascending order of duration
      and then of name. */
  lemma ByDurationSpec(tot: map<string, int>)
    ensures PairsAscending(ByDuration(tot))
    ensures forall e :: e in ByDuration(tot) <==> e.1 in tot && e.0 == tot[e.1]
    ensures |ByDuration(tot)| == |tot|
  {
    AscendingEnumerates(tot.Keys);
    ByDurationOfSpec(tot, Ascending(tot.Keys));
  }

  /** `totalsByDuration()` given the totals: one insertion per entry, the
      entries taken in ascending name order. */
  method ComputeByDuration(tot: map<string, int>) returns (ret: seq<(int, string)>)
    ensures ret == ByDuration(tot)
  {
    ret := [];
    var names := SortedKeys(tot);
    for i := 0 to |names|
      invariant ret == ByDurationOf(tot, names[..i])
    {
      AscendingMember(tot.Keys, i);
      assert names[..i + 1][..i] == names[..i];
      ret := InsertPair(ret, (tot[names[i]], names[i]));
    }
    assert names[..|names|] == names;
  }
}
