/**
 * Names and their order.
 *
 * A `std::map<String, FuncProfilerTree>` keeps its children keyed by name and
 * iterates them in ascending order of `std::string`'s `operator<`, which is
 * lexicographic by character.  `Less` is that order; `Ascending` enumerates a
 * finite set of names the way such a map iterates its keys, and `SortedKeys`
 * computes that enumeration.
 */
module StringOrder {

  /** `a < b` for strings: `a` is a proper prefix of `b`, or at the first
      position where they differ `a` holds the smaller character. */
  predicate Less(a: string, b: string)
    ensures |a| < |b| && a == b[..|a|] ==> Less(a, b)
    decreases |a|
  {
    if |a| == 0 then |b| > 0
    else if |b| == 0 then false
    else if a[0] != b[0] then a[0] < b[0]
    else Less(a[1..], b[1..])
  }

  lemma {:induction false} LessIrreflexive(a: string)
    ensures !Less(a, a)
    decreases |a|
  {
    if |a| > 0 {
      LessIrreflexive(a[1..]);
    }
  }

  lemma {:induction false} LessTransitive(a: string, b: string, c: string)
    requires Less(a, b) && Less(b, c)
    ensures Less(a, c)
    decreases |a|
  {
    if |a| > 0 && a[0] == b[0] && b[0] == c[0] {
      LessTransitive(a[1..], b[1..], c[1..]);
    }
  }

  /** Any two distinct names are ordered one way or the other, and not both. */
  lemma {:induction false} LessTrichotomy(a: string, b: string)
    ensures a == b || Less(a, b) || Less(b, a)
    ensures !(Less(a, b) && Less(b, a))
    decreases |a|
  {
    if |a| > 0 && |b| > 0 && a[0] == b[0] {
      LessTrichotomy(a[1..], b[1..]);
      if a[1..] == b[1..] {
        assert a == [a[0]] + a[1..] && b == [b[0]] + b[1..];
      }
    }
  }

  /** `m` is the smallest name of `s`. */
  predicate IsLeast(m: string, s: set<string>)
  {
    m in s && forall x :: x in s && x != m ==> Less(m, x)
  }

  lemma {:induction false} LeastExists(s: set<string>)
    requires s != {}
    ensures exists m :: IsLeast(m, s)
    decreases |s|
  {
    var x :| x in s;
    if s != {x} {
      var rest := s - {x};
      LeastExists(rest);
      var m :| IsLeast(m, rest);
      LessTrichotomy(m, x);
      if Less(m, x) {
        assert IsLeast(m, s);
      } else {
        forall y | y in s && y != x
          ensures Less(x, y)
        {
          if y != m {
            LessTransitive(x, m, y);
          }
        }
        assert IsLeast(x, s);
      }
    } else {
      assert IsLeast(x, s);
    }
  }

  lemma LeastUnique(m: string, m': string, s: set<string>)
    requires IsLeast(m, s) && IsLeast(m', s)
    ensures m == m'
  {
    if m != m' {
      LessTrichotomy(m, m');
    }
  }

  /** Every name is smaller than every later name. */
  ghost predicate StrictlyAscending(names: seq<string>)
  {
    forall i, j :: 0 <= i < j < |names| ==> Less(names[i], names[j])
  }

  /** The names of `s` in ascending order: the order in which a `std::map`
      whose key set is `s` visits its entries.  What the enumeration holds
      is `AscendingEnumerates`; that it is ascending is `AscendingOrdered`. */
  ghost function Ascending(s: set<string>): (r: seq<string>)
    ensures |r| == |s|
    decreases |s|
  {
    if s == {} then []
    else
      LeastExists(s);
      var m :| IsLeast(m, s);
      assert |s - {m}| == |s| - 1;
      [m] + Ascending(s - {m})
  }

  /** The enumeration of a non-empty set starts with its least name and goes
      on with the enumeration of the rest. */
  lemma AscendingFirst(s: set<string>)
    requires s != {}
    ensures IsLeast(Ascending(s)[0], s)
    ensures Ascending(s)[1..] == Ascending(s - {Ascending(s)[0]})
  {
    LeastExists(s);
  }

  /** The enumeration lists every name of `s`, nothing else, and no name
      twice. */
  lemma {:induction false} AscendingEnumerates(s: set<string>)
    ensures forall i :: 0 <= i < |Ascending(s)| ==> Ascending(s)[i] in s
    ensures forall x :: x in s ==> x in Ascending(s)
    ensures forall i, j :: 0 <= i < j < |Ascending(s)| ==> Ascending(s)[i] != Ascending(s)[j]
    decreases |s|
  {
    if s != {} {
      var r := Ascending(s);
      AscendingFirst(s);
      AscendingEnumerates(s - {r[0]});
      EnumeratesCons(s, r[0], r[1..]);
      assert r == [r[0]] + r[1..];
    }
  }

  /** Putting a name of `s` in front of an enumeration of the rest of `s`
      gives an enumeration of `s`. */
  lemma EnumeratesCons(s: set<string>, m: string, rest: seq<string>)
    requires m in s
    requires forall i :: 0 <= i < |rest| ==> rest[i] in s - {m}
    requires forall x :: x in s - {m} ==> x in rest
    requires forall i, j :: 0 <= i < j < |rest| ==> rest[i] != rest[j]
    ensures var r := [m] + rest;
            && (forall i :: 0 <= i < |r| ==> r[i] in s)
            && (forall x :: x in s ==> x in r)
            && (forall i, j :: 0 <= i < j < |r| ==> r[i] != r[j])
  {
    var r := [m] + rest;
    forall x | x in s
      ensures x in r
    {
      if x != m {
        assert x in rest;
      }
    }
    forall i, j | 0 <= i < j < |r|
      ensures r[i] != r[j]
    {
      assert r[j] == rest[j - 1];
      if i > 0 {
        assert r[i] == rest[i - 1];
      }
    }
  }

  /** Each entry of the enumeration is a name of the set. */
  lemma AscendingMember(s: set<string>, i: nat)
    requires i < |Ascending(s)|
    ensures Ascending(s)[i] in s
  {
    AscendingEnumerates(s);
  }

  /** The next name of an ascending enumeration is not among the earlier ones. */
  lemma NextName(s: set<string>, names: seq<string>, i: nat)
    requires names == Ascending(s) && i < |names|
    ensures names[i] in s
    ensures names[i] !in set j | 0 <= j < i :: names[j]
    ensures (set j | 0 <= j < i :: names[j]) + {names[i]} == set j | 0 <= j < i + 1 :: names[j]
  {
    AscendingMember(s, i);
    AscendingNotEarlier(s, names, i);
    PrefixNamesStep(names, i);
  }

  /** No name of the enumeration appears at an earlier position. */
  lemma AscendingNotEarlier(s: set<string>, names: seq<string>, i: nat)
    requires names == Ascending(s) && i < |names|
    ensures names[i] !in set j | 0 <= j < i :: names[j]
  {
    AscendingEnumerates(s);
    assert forall j :: 0 <= j < i ==> names[j] != names[i];
  }

  /** The names at the first `i + 1` positions are those at the first `i`
      and the one at position `i`. */
  lemma PrefixNamesStep(names: seq<string>, i: nat)
    requires i < |names|
    ensures (set j | 0 <= j < i :: names[j]) + {names[i]} == set j | 0 <= j < i + 1 :: names[j]
  {
    var before := set j | 0 <= j < i :: names[j];
    var after := set j | 0 <= j < i + 1 :: names[j];
    forall x | x in before
      ensures x in after
    {
      var j :| 0 <= j < i && names[j] == x;
      assert names[j] in after;
    }
    assert names[i] in after;
    forall x | x in after
      ensures x in before + {names[i]}
    {
      var j :| 0 <= j < i + 1 && names[j] == x;
      if j < i {
        assert names[j] in before;
      }
    }
  }

  /** All the names of the enumeration make up the set. */
  lemma AscendingAll(s: set<string>, names: seq<string>)
    requires names == Ascending(s)
    ensures (set j | 0 <= j < |names| :: names[j]) == s
  {
    AscendingEnumerates(s);
  }

  /** The enumeration is strictly ascending. */
  lemma {:induction false} AscendingOrdered(s: set<string>)
    ensures StrictlyAscending(Ascending(s))
    decreases |s|
  {
    if s != {} {
      var r := Ascending(s);
      AscendingFirst(s);
      var m := r[0];
      var rest := r[1..];
      AscendingOrdered(s - {m});
      AscendingEnumerates(s - {m});
      forall i, j | 0 <= i < j < |r|
        ensures Less(r[i], r[j])
      {
        assert r[j] == rest[j - 1];
        if i > 0 {
          assert r[i] == rest[i - 1];
        } else {
          assert r[j] in s - {m};
        }
      }
    }
  }

  /** The enumeration starting with the least name `m`. */
  lemma AscendingUnfold(s: set<string>, m: string)
    requires IsLeast(m, s)
    ensures Ascending(s) == [m] + Ascending(s - {m})
  {
    AscendingFirst(s);
    LeastUnique(m, Ascending(s)[0], s);
  }

  /** One step of `SortedKeys`: moving the least remaining name to the end of
      the names collected so far keeps the whole enumeration. */
  lemma CollectLeast(names: seq<string>, rest: set<string>, m: string)
    requires IsLeast(m, rest)
    ensures (names + [m]) + Ascending(rest - {m}) == names + Ascending(rest)
    ensures |rest - {m}| < |rest|
  {
    AscendingUnfold(rest, m);
  }

  /** Collects the keys of `m` in the order the map iterates them. */
  method SortedKeys<V>(m: map<string, V>) returns (names: seq<string>)
    ensures names == Ascending(m.Keys)
  {
    names := [];
    var rest := m.Keys;
    while rest != {}
      invariant rest <= m.Keys
      invariant names + Ascending(rest) == Ascending(m.Keys)
      decreases |rest|
    {
      LeastExists(rest);
      var k :| IsLeast(k, rest);
      CollectLeast(names, rest, k);
      names := names + [k];
      rest := rest - {k};
    }
  }
}
