/** The list of undrawn catalog indices `Start` draws from without replacement. */
module Draw {

  /** Strictly increasing, hence free of repeats; `Enumerable.Range(0, 36)` is. */
  ghost predicate Increasing(s: seq<nat>) {
    forall i, j :: 0 <= i < j < |s| ==> s[i] < s[j]
  }

  /** `List<int>.Remove(x)`: drops the first occurrence of `x`, if any. */
  function Remove(s: seq<nat>, x: nat): (r: seq<nat>)
    ensures x in s ==> |r| == |s| - 1
    ensures x !in s ==> r == s
  {
    if s == [] then []
    else if s[0] == x then s[1..]
    else [s[0]] + Remove(s[1..], x)
  }

  /** `Remove` takes away one copy of `x`, and nothing else. */
  lemma {:induction false} RemoveTakesOneCopy(s: seq<nat>, x: nat)
    ensures multiset(Remove(s, x)) == multiset(s) - multiset{x}
  {
    if s != [] {
      assert s == [s[0]] + s[1..];
      if s[0] != x {
        RemoveTakesOneCopy(s[1..], x);
      }
    }
  }

  /** In an increasing list the head is below everything after it. */
  lemma HeadBelowTail(s: seq<nat>)
    requires Increasing(s) && s != []
    ensures forall y :: y in s[1..] ==> s[0] < y
  {
    forall y | y in s[1..] ensures s[0] < y {
      var k :| 0 <= k < |s[1..]| && s[1..][k] == y;
      assert s[k + 1] == y;
    }
  }

  /** A value below every element of an increasing list extends it at the front. */
  lemma ConsIncreasing(a: nat, t: seq<nat>)
    requires Increasing(t) && forall y :: y in t ==> a < y
    ensures Increasing([a] + t)
  {
    forall i, j | 0 <= i < j < |[a] + t| ensures ([a] + t)[i] < ([a] + t)[j] {
      assert ([a] + t)[j] == t[j - 1];
      if i > 0 {
        assert ([a] + t)[i] == t[i - 1];
      } else {
        assert t[j - 1] in t;
      }
    }
  }

  /** Removing a drawn value from an increasing list drops exactly that value,
      shortens the list by one and keeps it increasing. */
  lemma {:induction false} RemoveFromIncreasing(s: seq<nat>, x: nat)
    requires Increasing(s) && x in s
    ensures var r := Remove(s, x);
      && |r| == |s| - 1
      && Increasing(r)
      && (forall y :: y in r <==> y in s && y != x)
  {
    HeadBelowTail(s);
    assert s == [s[0]] + s[1..];
    if s[0] != x {
      var t := Remove(s[1..], x);
      RemoveFromIncreasing(s[1..], x);
      assert Remove(s, x) == [s[0]] + t;
      ConsIncreasing(s[0], t);
    }
  }
}
