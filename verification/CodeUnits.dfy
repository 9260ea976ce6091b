/** Strings as the code generator's language has them: sequences of UTF-16 code units. */
module CodeUnits {

  type Unit = x: int | 0 <= x < 0x1_0000
  type Text = seq<Unit>

  const NUL: Unit := 0
  const NEWLINE: Unit := 10
  const SPACE: Unit := 32

  predicate IsUpper(c: Unit) { 65 <= c <= 90 }
  predicate IsLower(c: Unit) { 97 <= c <= 122 }
  predicate IsDigit(c: Unit) { 48 <= c <= 57 }
  predicate IsAlnum(c: Unit) { IsUpper(c) || IsLower(c) || IsDigit(c) }

  /** Lower-casing of an ASCII unit. */
  function Lower(c: Unit): Unit { if IsUpper(c) then c + 32 else c }

  /** The white space and line terminators that `String.prototype.trim` removes. */
  predicate IsWhite(c: Unit) {
    || 9 <= c <= 13 || c == 32 || c == 0xA0 || c == 0xFEFF
    || c == 0x1680 || 0x2000 <= c <= 0x200A || c == 0x2028 || c == 0x2029
    || c == 0x202F || c == 0x205F || c == 0x3000
  }

  function Keep(t: Text, p: Unit -> bool): Text {
    if t == [] then [] else (if p(t[0]) then [t[0]] else []) + Keep(t[1..], p)
  }

  lemma Associative(a: Text, b: Text, c: Text)
    ensures (a + b) + c == a + (b + c)
  {
  }

  lemma KeepOne(c: Unit, p: Unit -> bool)
    ensures Keep([c], p) == if p(c) then [c] else []
  {
    assert [c][1..] == [];
  }

  lemma {:induction false} KeepAppend(t: Text, u: Text, p: Unit -> bool)
    ensures Keep(t + u, p) == Keep(t, p) + Keep(u, p)
  {
    if t == [] {
      assert t + u == u;
    } else {
      assert (t + u)[0] == t[0] && (t + u)[1..] == t[1..] + u;
      KeepAppend(t[1..], u, p);
      Associative(if p(t[0]) then [t[0]] else [], Keep(t[1..], p), Keep(u, p));
    }
  }

  /** The units kept are those at the places where `p` holds, in order: all of them. */
  lemma {:induction false} KeepIs(t: Text, p: Unit -> bool) returns (ks: seq<nat>)
    ensures |ks| == |Keep(t, p)|
    ensures forall n :: 0 <= n < |ks| ==> ks[n] < |t| && p(t[ks[n]]) && Keep(t, p)[n] == t[ks[n]]
    ensures forall n, m :: 0 <= n < m < |ks| ==> ks[n] < ks[m]
    ensures forall i: nat :: i < |t| && p(t[i]) ==> i in ks
  {
    if t == [] {
      ks := [];
    } else {
      var init, c := t[..|t| - 1], t[|t| - 1];
      var fewer := KeepIs(init, p);
      KeepAppend(init, [c], p);
      KeepOne(c, p);
      assert t == init + [c];
      ks := fewer + if p(c) then [|t| - 1] else [];
      forall i: nat | i < |t| && p(t[i]) ensures i in ks {
        if i < |init| {
          assert init[i] == t[i] && i in fewer;
        } else {
          assert ks[|ks| - 1] == i;
        }
      }
    }
  }

  /** Text without units satisfying `drop` at either end. */
  function DropLeading(t: Text, drop: Unit -> bool): Text {
    if t != [] && drop(t[0]) then DropLeading(t[1..], drop) else t
  }

  function DropTrailing(t: Text, drop: Unit -> bool): Text {
    if t != [] && drop(t[|t| - 1]) then DropTrailing(t[..|t| - 1], drop) else t
  }

  function TrimBy(t: Text, drop: Unit -> bool): Text {
    DropTrailing(DropLeading(t, drop), drop)
  }

  lemma {:induction false} DropLeadingIs(t: Text, drop: Unit -> bool) returns (n: nat)
    ensures n <= |t| && DropLeading(t, drop) == t[n..]
    ensures (forall i :: 0 <= i < n ==> drop(t[i])) && (n < |t| ==> !drop(t[n]))
  {
    if t != [] && drop(t[0]) {
      var m := DropLeadingIs(t[1..], drop);
      n := m + 1;
      assert t[1..][m..] == t[n..];
      forall i | 0 <= i < n ensures drop(t[i]) {
        assert i > 0 ==> t[i] == t[1..][i - 1];
      }
    } else {
      n := 0;
    }
  }

  lemma {:induction false} DropTrailingIs(t: Text, drop: Unit -> bool) returns (n: nat)
    ensures n <= |t| && DropTrailing(t, drop) == t[..n]
    ensures (forall i :: n <= i < |t| ==> drop(t[i])) && (n > 0 ==> !drop(t[n - 1]))
  {
    if t != [] && drop(t[|t| - 1]) {
      n := DropTrailingIs(t[..|t| - 1], drop);
      assert t[..|t| - 1][..n] == t[..n];
    } else {
      n := |t|;
    }
  }

  /** Trimming cuts out the stretch between the first and the last unit not dropped. */
  lemma TrimIs(t: Text, drop: Unit -> bool) returns (lo: nat, hi: nat)
    ensures lo <= hi <= |t| && TrimBy(t, drop) == t[lo..hi]
    ensures forall i :: 0 <= i < lo || hi <= i < |t| ==> drop(t[i])
    ensures lo < hi ==> !drop(t[lo]) && !drop(t[hi - 1])
  {
    lo := DropLeadingIs(t, drop);
    var n := DropTrailingIs(t[lo..], drop);
    hi := lo + n;
    assert t[lo..][..n] == t[lo..hi];
    forall i | hi <= i < |t| ensures drop(t[i]) {
      assert t[i] == t[lo..][i - lo];
    }
    if lo < hi {
      assert t[hi - 1] == t[lo..][n - 1];
    }
  }

  lemma {:induction false} KeepNothing(t: Text, p: Unit -> bool)
    requires forall c :: c in t ==> !p(c)
    ensures Keep(t, p) == []
  {
    if t == [] {
    } else {
      KeepNothing(t[1..], p);
    }
  }

  /** Trimming loses none of the units it is not told to drop. */
  lemma KeepTrim(t: Text, drop: Unit -> bool, p: Unit -> bool)
    requires forall c :: drop(c) ==> !p(c)
    ensures Keep(TrimBy(t, drop), p) == Keep(t, p)
  {
    var lo, hi := TrimIs(t, drop);
    KeepNothing(t[..lo], p);
    KeepNothing(t[hi..], p);
    KeepAppend(t[..lo], t[lo..hi], p);
    KeepAppend(t[..lo] + t[lo..hi], t[hi..], p);
    assert t == t[..lo] + t[lo..hi] + t[hi..];
  }

  /** `split`: the pieces between occurrences of `sep`; always at least one. */
  function Split(t: Text, sep: Unit): (parts: seq<Text>)
    ensures |parts| >= 1
  {
    if t == [] then [[]]
    else
      var rest := Split(t[1..], sep);
      if t[0] == sep then [[]] + rest else [[t[0]] + rest[0]] + rest[1..]
  }

  /** `join`. */
  function Join(parts: seq<Text>, delimiter: Text): Text {
    if parts == [] then []
    else if |parts| == 1 then parts[0]
    else parts[0] + delimiter + Join(parts[1..], delimiter)
  }

  /** Where a part stands in the joined text. */
  function Start(parts: seq<Text>, gap: nat, i: nat): nat
    requires i < |parts|
  {
    if i == 0 then 0 else |parts[0]| + gap + Start(parts[1..], gap, i - 1)
  }

  lemma Later(first: Text, tail: Text, lo: nat, hi: nat)
    requires lo <= hi <= |tail|
    ensures (first + tail)[|first| + lo..|first| + hi] == tail[lo..hi]
  {
  }

  /** The parts stand in the joined text in order, each after the delimiter that follows the
      one before, and there is nothing else. */
  lemma {:induction false} JoinIs(parts: seq<Text>, delimiter: Text, i: nat)
    requires i < |parts|
    ensures var joined, lo := Join(parts, delimiter), Start(parts, |delimiter|, i);
            && lo + |parts[i]| <= |joined|
            && joined[lo..lo + |parts[i]|] == parts[i]
            && (i == |parts| - 1 ==> lo + |parts[i]| == |joined|)
            && (i > 0 ==> lo == Start(parts, |delimiter|, i - 1) + |parts[i - 1]| + |delimiter|)
            && (i > 0 ==> joined[lo - |delimiter|..lo] == delimiter)
    decreases i
  {
    var rest := parts[1..];
    if |parts| > 1 {
      var before := parts[0] + delimiter;
      assert Join(parts, delimiter) == before + Join(rest, delimiter);
      if i == 0 {
        assert Join(parts, delimiter)[..|parts[0]|] == parts[0];
      } else {
        JoinIs(rest, delimiter, i - 1);
        var lo := Start(rest, |delimiter|, i - 1);
        Later(before, Join(rest, delimiter), lo, lo + |parts[i]|);
        if i == 1 {
          assert (before + Join(rest, delimiter))[|parts[0]|..|before|] == delimiter;
        } else {
          Later(before, Join(rest, delimiter), lo - |delimiter|, lo);
        }
      }
    }
  }

  /** Splitting is undone by joining, and leaves no separator in the parts. */
  lemma {:induction false} SplitJoins(t: Text, sep: Unit)
    ensures Join(Split(t, sep), [sep]) == t
    ensures forall part :: part in Split(t, sep) ==> sep !in part
  {
    if t == [] {
    } else {
      SplitJoins(t[1..], sep);
      var rest := Split(t[1..], sep);
      if t[0] == sep {
        assert ([[]] + rest)[1..] == rest;
        assert [] + [sep] == [sep];
        assert Split(t, sep) == [[]] + rest;
      } else {
        var parts := Split(t, sep);
        assert parts == [[t[0]] + rest[0]] + rest[1..] && parts[1..] == rest[1..];
        assert t == [t[0]] + t[1..];
        if |rest| > 1 {
          Associative([t[0]] + rest[0], [sep], Join(rest[1..], [sep]));
          Associative([t[0]], rest[0], [sep] + Join(rest[1..], [sep]));
          Associative(rest[0], [sep], Join(rest[1..], [sep]));
        }
      }
    }
  }
}
