/**
 What `snakeCase` and `dotCase` return, unit by unit, without reference to how they
 get there: which units of the input come out, how each is written, and where the
 delimiters stand.
 */
module Spelling {
  import opened CodeUnits
  import opened CaseConversion

  /** A mark is due between the alphanumeric units at `a` and, next in the text, at `b`. */
  predicate Parted(s: Text, a: nat, b: nat)
    requires a < b < |s|
  {
    b > a + 1 || Boundary(s, b)
  }

  /** `ks` are the places of the alphanumeric units of `s` from `i` on. */
  predicate Places(s: Text, i: nat, ks: seq<nat>) {
    && (forall n :: 0 <= n < |ks| ==> i <= ks[n] < |s| && IsAlnum(s[ks[n]]))
    && (forall n, m :: 0 <= n < m < |ks| ==> ks[n] < ks[m])
    && (forall j: nat :: i <= j < |s| && IsAlnum(s[j]) ==> j in ks)
  }

  /** Units at `a` and `b` stand at `x` and `y` in `o`, with a mark between if they are parted. */
  predicate Gap(s: Text, a: nat, b: nat, o: Text, x: nat, y: nat)
    requires a < b < |s|
  {
    if Parted(s, a, b) then y == x + 2 && y <= |o| && o[y - 1] == NUL else y == x + 1
  }

  /** They stand at `ps` in `o`, from `lead` on, with single marks where they are parted. */
  predicate Stand(s: Text, ks: seq<nat>, o: Text, ps: seq<nat>, lead: nat)
    requires forall n :: 0 <= n < |ks| ==> ks[n] < |s|
    requires forall n, m :: 0 <= n < m < |ks| ==> ks[n] < ks[m]
  {
    && |ps| == |ks|
    && (ps != [] ==> ps[0] == lead)
    && (forall n :: 0 <= n < |ps| ==> ps[n] < |o| && o[ps[n]] == s[ks[n]])
    && (forall n :: 0 < n < |ps| ==> Gap(s, ks[n - 1], ks[n], o, ps[n - 1], ps[n]))
  }

  /** Nothing but marks before and after the units. */
  predicate MarksAround(o: Text, ps: seq<nat>) {
    if ps == [] then forall x :: 0 <= x < |o| ==> o[x] == NUL
    else forall x :: 0 <= x < |o| && (x < ps[0] || ps[|ps| - 1] < x) ==> o[x] == NUL
  }

  predicate Spelled(s: Text, i: nat, pending: bool, o: Text, ks: seq<nat>, ps: seq<nat>) {
    && Places(s, i, ks)
    && Stand(s, ks, o, ps, if pending || (ks != [] && ks[0] > i) then 1 else 0)
    && MarksAround(o, ps)
  }

  /** Places found after one more unit in front. */
  function Shifted(first: nat, ps: seq<nat>, d: nat): (r: seq<nat>)
    ensures |r| == |ps| + 1 && r[0] == first && forall n :: 0 < n < |r| ==> r[n] == ps[n - 1] + d
  {
    [first] + seq(|ps|, n requires 0 <= n < |ps| => ps[n] + d)
  }

  lemma PlacesCons(s: Text, i: nat, ks: seq<nat>)
    requires i < |s| && IsAlnum(s[i]) && Places(s, i + 1, ks)
    ensures Places(s, i, [i] + ks)
  {
    var more := [i] + ks;
    forall j: nat | i <= j < |s| && IsAlnum(s[j]) ensures j in more {
      assert j == i ==> more[0] == j;
    }
  }

  lemma PlacesSkip(s: Text, i: nat, ks: seq<nat>)
    requires i < |s| && !IsAlnum(s[i]) && Places(s, i + 1, ks)
    ensures Places(s, i, ks)
  {
  }

  lemma GapLater(s: Text, a: nat, b: nat, before: Text, sub: Text, x: nat, y: nat)
    requires a < b < |s| && Gap(s, a, b, sub, x, y)
    ensures Gap(s, a, b, before + sub, |before| + x, |before| + y)
  {
  }

  /** The gap between a unit in front and the first one after it. */
  lemma FirstGap(s: Text, i: nat, k: nat, before: Text, sub: Text, y: nat)
    requires i < k < |s| && before != [] && y < |sub|
    requires y == if Parted(s, i, k) then 1 else 0
    requires y == 1 ==> sub[0] == NUL
    ensures Gap(s, i, k, before + sub, |before| - 1, |before| + y)
  {
  }

  /** `all` is `ks` with `i` in front. */
  predicate Prepended(s: Text, i: nat, ks: seq<nat>, all: seq<nat>) {
    && |all| == |ks| + 1 && all[0] == i
    && (forall n :: 0 < n < |all| ==> all[n] == ks[n - 1])
    && (forall n :: 0 <= n < |all| ==> all[n] < |s|)
    && (forall n, m :: 0 <= n < m < |all| ==> all[n] < all[m])
  }

  lemma PlacesPrepended(s: Text, i: nat, ks: seq<nat>)
    requires i < |s| && Places(s, i + 1, ks)
    ensures Prepended(s, i, ks, [i] + ks)
  {
  }

  lemma StandCons(s: Text, i: nat, before: Text, sub: Text, ks: seq<nat>, all: seq<nat>, ps: seq<nat>)
    requires i < |s| && before != [] && before[|before| - 1] == s[i]
    requires Prepended(s, i, ks, all) && MarksAround(sub, ps)
    requires forall n :: 0 <= n < |ks| ==> ks[n] == all[n + 1]
    requires Stand(s, ks, sub, ps, if ks != [] && Parted(s, i, ks[0]) then 1 else 0)
    ensures Stand(s, all, before + sub, Shifted(|before| - 1, ps, |before|), |before| - 1)
  {
    var o, places := before + sub, Shifted(|before| - 1, ps, |before|);
    forall n | 0 <= n < |places| ensures places[n] < |o| && o[places[n]] == s[all[n]] {
      UnitCons(s, i, before, sub, ks, all, ps, n);
    }
    forall n | 0 < n < |places| ensures Gap(s, all[n - 1], all[n], o, places[n - 1], places[n]) {
      GapCons(s, i, before, sub, ks, all, ps, n);
    }
  }

  lemma UnitCons(s: Text, i: nat, before: Text, sub: Text, ks: seq<nat>, all: seq<nat>, ps: seq<nat>, n: nat)
    requires i < |s| && before != [] && before[|before| - 1] == s[i]
    requires Prepended(s, i, ks, all) && |ps| == |ks| && n <= |ps|
    requires forall m :: 0 <= m < |ks| ==> ks[m] < |s| && ps[m] < |sub| && sub[ps[m]] == s[ks[m]]
    ensures var o, x := before + sub, if n == 0 then |before| - 1 else ps[n - 1] + |before|;
            x < |o| && o[x] == s[all[n]]
  {
    if n > 0 {
      assert (before + sub)[ps[n - 1] + |before|] == sub[ps[n - 1]];
    }
  }

  lemma GapCons(s: Text, i: nat, before: Text, sub: Text, ks: seq<nat>, all: seq<nat>, ps: seq<nat>, n: nat)
    requires i < |s| && before != [] && before[|before| - 1] == s[i]
    requires Prepended(s, i, ks, all) && MarksAround(sub, ps)
    requires forall m :: 0 <= m < |ks| ==> ks[m] == all[m + 1]
    requires Stand(s, ks, sub, ps, if ks != [] && Parted(s, i, ks[0]) then 1 else 0)
    requires 0 < n <= |ps|
    ensures Gap(s, all[n - 1], all[n], before + sub,
                if n == 1 then |before| - 1 else ps[n - 2] + |before|, ps[n - 1] + |before|)
  {
    if n == 1 {
      assert all[0] == i && all[1] == ks[0] && ps[0] < |sub|;
      FirstGap(s, i, ks[0], before, sub, ps[0]);
    } else {
      assert all[n - 1] == ks[n - 2] && all[n] == ks[n - 1];
      assert Gap(s, ks[n - 2], ks[n - 1], sub, ps[n - 2], ps[n - 1]);
      GapLater(s, ks[n - 2], ks[n - 1], before, sub, ps[n - 2], ps[n - 1]);
    }
  }

  lemma MarksCons(before: Text, sub: Text, ps: seq<nat>)
    requires MarksAround(sub, ps) && before != []
    requires forall x :: 0 <= x < |before| - 1 ==> before[x] == NUL
    ensures MarksAround(before + sub, Shifted(|before| - 1, ps, |before|))
  {
    var o, places := before + sub, Shifted(|before| - 1, ps, |before|);
    forall x | 0 <= x < |o| && (x < places[0] || places[|places| - 1] < x) ensures o[x] == NUL {
      if x >= |before| {
        assert o[x] == sub[x - |before|];
      }
    }
  }

  /** A unit in front of what is spelled, with a mark before it if one is pending. */
  lemma SpelledCons(s: Text, i: nat, pending: bool, before: Text, sub: Text, ks: seq<nat>, ps: seq<nat>)
    requires i < |s| && IsAlnum(s[i]) && before == if pending then [NUL, s[i]] else [s[i]]
    requires Spelled(s, i + 1, i + 1 < |s| && Boundary(s, i + 1), sub, ks, ps)
    ensures Spelled(s, i, pending, before + sub, [i] + ks, Shifted(|before| - 1, ps, |before|))
  {
    PlacesCons(s, i, ks);
    LeadIs(s, i, ks);
    PlacesPrepended(s, i, ks);
    StandCons(s, i, before, sub, ks, [i] + ks, ps);
    MarksCons(before, sub, ps);
    assert ([i] + ks)[0] == i;
  }

  lemma LeadIs(s: Text, i: nat, ks: seq<nat>)
    requires i < |s| && Places(s, i + 1, ks)
    ensures (i + 1 < |s| && Boundary(s, i + 1)) || (ks != [] && ks[0] > i + 1) <==>
            (ks != [] && Parted(s, i, ks[0])) || (ks == [] && i + 1 < |s| && Boundary(s, i + 1))
  {
  }

  /** What one pass over the input writes. */
  lemma {:induction false} OnePassSpells(s: Text, i: nat, pending: bool) returns (ks: seq<nat>, ps: seq<nat>)
    requires i <= |s|
    ensures Spelled(s, i, pending, OnePass(s, i, pending), ks, ps)
    decreases |s| - i
  {
    if i == |s| {
      ks, ps := [], [];
    } else if !IsAlnum(s[i]) {
      ks, ps := OnePassSpells(s, i + 1, true);
      PlacesSkip(s, i, ks);
    } else {
      var after := i + 1 < |s| && Boundary(s, i + 1);
      var ks', ps' := OnePassSpells(s, i + 1, after);
      var before := if pending then [NUL, s[i]] else [s[i]];
      SpelledCons(s, i, pending, before, OnePass(s, i + 1, after), ks', ps');
      ks, ps := [i] + ks', Shifted(|before| - 1, ps', |before|);
    }
  }

  lemma StandIncrease(s: Text, ks: seq<nat>, o: Text, ps: seq<nat>, lead: nat, n: nat)
    requires forall m :: 0 <= m < |ks| ==> ks[m] < |s|
    requires forall n, m :: 0 <= n < m < |ks| ==> ks[n] < ks[m]
    requires Stand(s, ks, o, ps, lead) && n < |ps|
    ensures lead + n <= ps[n] && ps[n] + (|ps| - 1 - n) <= ps[|ps| - 1]
    decreases |ps| - n
  {
    StandAfter(s, ks, o, ps, lead, n);
    if n < |ps| - 1 {
      StandIncrease(s, ks, o, ps, lead, n + 1);
    }
  }

  lemma {:induction false} StandAfter(s: Text, ks: seq<nat>, o: Text, ps: seq<nat>, lead: nat, n: nat)
    requires forall m :: 0 <= m < |ks| ==> ks[m] < |s|
    requires forall n, m :: 0 <= n < m < |ks| ==> ks[n] < ks[m]
    requires Stand(s, ks, o, ps, lead) && n < |ps|
    ensures lead + n <= ps[n]
  {
    if n == 0 {
    } else {
      StandAfter(s, ks, o, ps, lead, n - 1);
    }
  }

  /** The marks around are what trimming removes. */
  lemma TrimmedIs(o: Text, lo: nat, hi: nat)
    requires lo < hi <= |o| && o[lo] != NUL && o[hi - 1] != NUL
    requires forall x :: 0 <= x < lo || hi <= x < |o| ==> o[x] == NUL
    ensures TrimBy(o, IsNul) == o[lo..hi]
  {
    var l, h := TrimIs(o, IsNul);
    assert l <= lo < h;
    assert l == lo && h == hi;
  }

  lemma AllMarks(o: Text)
    requires forall x :: 0 <= x < |o| ==> o[x] == NUL
    ensures TrimBy(o, IsNul) == []
  {
    var l, h := TrimIs(o, IsNul);
  }

  /** The words, with where their units stand. */
  lemma WordsSpelled(input: Text) returns (ks: seq<nat>, ps: seq<nat>)
    ensures Places(input, 0, ks) && Stand(input, ks, Words(input), ps, 0)
    ensures if ks == [] then Words(input) == [] else ps[|ps| - 1] == |Words(input)| - 1
  {
    var o := OnePass(input, 0, false);
    WordsInOnePass(input);
    var qs;
    ks, qs := OnePassSpells(input, 0, false);
    if ks == [] {
      ps := [];
      AllMarks(o);
    } else {
      ps := seq(|qs|, n requires 0 <= n < |qs| => if qs[n] < qs[0] then 0 else qs[n] - qs[0]);
      WordsTrimmed(input, o, ks, qs, ps);
    }
  }

  /** Trimming takes away what stands before the first unit, and after the last. */
  lemma WordsTrimmed(s: Text, o: Text, ks: seq<nat>, qs: seq<nat>, ps: seq<nat>)
    requires qs != [] && Places(s, 0, ks) && Stand(s, ks, o, qs, qs[0]) && MarksAround(o, qs) && |ps| == |qs|
    requires forall n :: 0 <= n < |qs| ==> ps[n] == if qs[n] < qs[0] then 0 else qs[n] - qs[0]
    ensures Stand(s, ks, TrimBy(o, IsNul), ps, 0) && ps[|ps| - 1] == |TrimBy(o, IsNul)| - 1
  {
    var last := qs[|qs| - 1];
    forall n | 0 <= n < |qs| ensures qs[0] <= qs[n] <= last {
      StandIncrease(s, ks, o, qs, qs[0], n);
    }
    TrimmedIs(o, qs[0], last + 1);
    StandTrimmed(s, ks, o, qs, ps);
  }

  lemma StandTrimmed(s: Text, ks: seq<nat>, o: Text, qs: seq<nat>, ps: seq<nat>)
    requires forall m :: 0 <= m < |ks| ==> ks[m] < |s|
    requires forall n, m :: 0 <= n < m < |ks| ==> ks[n] < ks[m]
    requires qs != [] && Stand(s, ks, o, qs, qs[0]) && |ps| == |qs|
    requires forall n :: 0 <= n < |qs| ==> qs[0] <= qs[n] <= qs[|qs| - 1] && ps[n] == qs[n] - qs[0]
    ensures Stand(s, ks, o[qs[0]..qs[|qs| - 1] + 1], ps, 0)
  {
    var w := o[qs[0]..qs[|qs| - 1] + 1];
    forall n | 0 <= n < |ps| ensures ps[n] < |w| && w[ps[n]] == s[ks[n]] {
      assert w[ps[n]] == o[qs[n]];
    }
    forall n | 0 < n < |ps| ensures Gap(s, ks[n - 1], ks[n], w, ps[n - 1], ps[n]) {
      assert Gap(s, ks[n - 1], ks[n], o, qs[n - 1], qs[n]);
      assert Parted(s, ks[n - 1], ks[n]) ==> w[ps[n] - 1] == o[qs[n] - 1];
    }
  }

  /**
   The whole conversion.  `ks` are the places of the input's letters and digits, `ps` where
   they stand in the output: each capital as the letter 32 further on, every other one as it
   is, one after the other from first to last, with one delimiter between two of them if
   and only if something else stands between them in the input, or the first is a small
   letter or digit and the second a capital, or both are capitals and a small letter follows.
   */
  lemma ConversionExactly(input: Text, d: Unit) returns (ks: seq<nat>, ps: seq<nat>)
    ensures |ks| == |ps|
    ensures forall n :: 0 <= n < |ks| ==> ks[n] < |input|
    ensures forall n :: 0 <= n < |ks| ==>
              var c := input[ks[n]]; 48 <= c <= 57 || 65 <= c <= 90 || 97 <= c <= 122
    ensures forall n, m :: 0 <= n < m < |ks| ==> ks[n] < ks[m]
    ensures forall j: nat | j < |input| ::
              48 <= input[j] <= 57 || 65 <= input[j] <= 90 || 97 <= input[j] <= 122 ==> j in ks
    ensures var out := NoCaseOf(input, LowerPart, [d]);
            && (if ks == [] then out == [] else ps[0] == 0 && ps[|ps| - 1] == |out| - 1)
            && (forall n :: 0 <= n < |ps| ==>
                  && ps[n] < |out|
                  && var c := input[ks[n]]; out[ps[n]] == if 65 <= c <= 90 then c + 32 else c)
            && (forall n :: 0 < n < |ps| ==>
                  var a, b := ks[n - 1], ks[n];
                  if || b > a + 1
                     || ((97 <= input[a] <= 122 || 48 <= input[a] <= 57) && 65 <= input[b] <= 90)
                     || (65 <= input[a] <= 90 && 65 <= input[b] <= 90 && b + 1 < |input| && 97 <= input[b + 1] <= 122)
                  then ps[n] == ps[n - 1] + 2 && out[ps[n] - 1] == d
                  else ps[n] == ps[n - 1] + 1)
  {
    ks, ps := WordsSpelled(input);
    DelimitedIsRendered(input, d);
  }

  /** `snakeCase` delimits with the underscore, `dotCase` with the full stop. */
  lemma Delimiters(input: Text)
    ensures SnakeCase(input) == NoCaseOf(input, LowerPart, [95])
    ensures DotCase(input) == NoCaseOf(input, LowerPart, [46])
  {
  }
}
