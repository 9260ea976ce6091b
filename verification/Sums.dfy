/** Sums over sequences, for counting clients and worker bodies. */
module Sums {

  function Sum<T>(s: seq<T>, f: T -> nat): nat {
    if s == [] then 0 else f(s[0]) + Sum(s[1..], f)
  }

  lemma {:induction false} SumUpdate<T>(s: seq<T>, f: T -> nat, i: nat, x: T)
    requires i < |s|
    ensures Sum(s[i := x], f) + f(s[i]) == Sum(s, f) + f(x)
  {
    if i == 0 {
      assert s[0 := x][1..] == s[1..];
    } else {
      assert s[i := x][1..] == s[1..][i - 1 := x];
      SumUpdate(s[1..], f, i - 1, x);
    }
  }

  lemma {:induction false} SumAppend<T>(s: seq<T>, f: T -> nat, x: T)
    ensures Sum(s + [x], f) == Sum(s, f) + f(x)
  {
    if s == [] {
      assert s + [x] == [x];
    } else {
      assert (s + [x])[1..] == s[1..] + [x];
      SumAppend(s[1..], f, x);
    }
  }

  lemma {:induction false} SumAtMost<T>(s: seq<T>, f: T -> nat, g: T -> nat)
    requires forall x :: x in s ==> f(x) <= g(x)
    ensures Sum(s, f) <= Sum(s, g)
  {
    if s == [] {
    } else {
      SumAtMost(s[1..], f, g);
    }
  }

  /** A strict difference at one place carries over. */
  lemma {:induction false} SumBelow<T>(s: seq<T>, f: T -> nat, g: T -> nat, i: nat)
    requires i < |s| && f(s[i]) < g(s[i])
    requires forall x :: x in s ==> f(x) <= g(x)
    ensures Sum(s, f) < Sum(s, g)
  {
    if i == 0 {
      SumAtMost(s[1..], f, g);
    } else {
      SumBelow(s[1..], f, g, i - 1);
    }
  }

  /** A sum is positive exactly when some member contributes. */
  lemma {:induction false} SumPositive<T>(s: seq<T>, f: T -> nat)
    ensures Sum(s, f) > 0 <==> exists i :: 0 <= i < |s| && f(s[i]) > 0
  {
    if s == [] {
    } else {
      SumPositive(s[1..], f);
      if f(s[0]) == 0 && Sum(s[1..], f) > 0 {
        var i :| 0 <= i < |s[1..]| && f(s[1..][i]) > 0;
        assert f(s[i + 1]) > 0;
      }
      if i :| 0 < i < |s| && f(s[i]) > 0 {
        assert f(s[1..][i - 1]) > 0;
      }
    }
  }

  /** Summing ones and noughts counts the places of the ones. */
  lemma {:induction false} SumCounts<T>(s: seq<T>, f: T -> nat, places: set<int>)
    requires forall x :: x in s ==> f(x) <= 1
    requires forall i :: i in places <==> 0 <= i < |s| && f(s[i]) == 1
    ensures Sum(s, f) == |places|
    decreases |s|
  {
    if s == [] {
      assert forall i :: i in places ==> 0 <= i < 0;
      assert places == {};
    } else {
      var n := |s| - 1;
      var init := s[..n];
      SumCounts(init, f, places - {n});
      SumAppend(init, f, s[n]);
      assert init + [s[n]] == s;
    }
  }
}
