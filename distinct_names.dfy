/**
 * Sequences of names without repeats, as enumerations of a set of names
 * are.
 */
module DistinctNames {

  ghost predicate Distinct(names: seq<string>)
  {
    forall i, j :: 0 <= i < j < |names| ==> names[i] != names[j]
  }

  /** Dropping entry `j` of a sequence without repeats keeps it without
      repeats and removes exactly the name `s[j]`. */
  lemma RemoveAt(s: seq<string>, j: nat)
    requires Distinct(s) && j < |s|
    ensures Distinct(s[..j] + s[j + 1..])
    ensures forall y :: y in s[..j] + s[j + 1..] <==> y in s && y != s[j]
  {
    var s' := s[..j] + s[j + 1..];
    assert forall i :: 0 <= i < |s'| ==> s'[i] == if i < j then s[i] else s[i + 1];
    forall y
      ensures y in s' <==> y in s && y != s[j]
    {
      if y in s && y != s[j] {
        var i :| 0 <= i < |s| && s[i] == y;
        assert s'[if i < j then i else i - 1] == y;
      }
    }
  }
}
