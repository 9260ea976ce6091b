/**
 The identifier conversions of the code generator: `noCase` and its
 specialisations `snakeCase` and `dotCase`.
 */
module CaseConversion {
  import opened CodeUnits

  // ------------------------------------------------------ the two regex passes

  predicate LowerOrDigit(c: Unit) { IsLower(c) || IsDigit(c) }

  /** `replace(/([a-z0-9])([A-Z])/g, "$1\0$2")`: leftmost matches, each search starting
      where the last match ended. */
  function SplitLowerUpper(s: Text): Text {
    if |s| >= 2 && LowerOrDigit(s[0]) && IsUpper(s[1]) then [s[0], NUL, s[1]] + SplitLowerUpper(s[2..])
    else if s == [] then []
    else [s[0]] + SplitLowerUpper(s[1..])
  }

  /** `replace(/([A-Z])([A-Z][a-z])/g, "$1\0$2")`. */
  function SplitUpperWord(s: Text): Text {
    if |s| >= 3 && IsUpper(s[0]) && IsUpper(s[1]) && IsLower(s[2]) then
      [s[0], NUL, s[1], s[2]] + SplitUpperWord(s[3..])
    else if s == [] then []
    else [s[0]] + SplitUpperWord(s[1..])
  }

  /** There is a word boundary between positions i-1 and i of `s`. */
  predicate Boundary(s: Text, i: nat)
    requires 0 < i < |s|
  {
    || (LowerOrDigit(s[i - 1]) && IsUpper(s[i]))
    || (IsUpper(s[i - 1]) && IsUpper(s[i]) && i + 1 < |s| && IsLower(s[i + 1]))
  }

  /** `s` from position i on, with a mark at each boundary after i. */
  function MarkedFrom(s: Text, i: nat): Text
    requires i <= |s|
    decreases |s| - i
  {
    if i == |s| then []
    else if i + 1 < |s| && Boundary(s, i + 1) then [s[i], NUL] + MarkedFrom(s, i + 1)
    else [s[i]] + MarkedFrom(s, i + 1)
  }

  /** The declarative form of both passes. */
  function Marked(s: Text): Text {
    MarkedFrom(s, 0)
  }

  predicate LowerUpperAt(s: Text, i: nat) {
    i + 1 < |s| && LowerOrDigit(s[i]) && IsUpper(s[i + 1])
  }

  predicate UpperWordAt(s: Text, i: nat) {
    i + 2 < |s| && IsUpper(s[i]) && IsUpper(s[i + 1]) && IsLower(s[i + 2])
  }

  /** The first pass alone, position by position. */
  function LowerUpperFrom(s: Text, i: nat): Text
    requires i <= |s|
    decreases |s| - i, 1
  {
    if i == |s| then [] else [s[i]] + LowerUpperAfter(s, i)
  }

  function LowerUpperAfter(s: Text, i: nat): Text
    requires i < |s|
    decreases |s| - i, 0
  {
    if LowerUpperAt(s, i) then [NUL] + LowerUpperFrom(s, i + 1) else LowerUpperFrom(s, i + 1)
  }

  /** One match of the first pass, given the rest. */
  lemma FirstPassMatch(s: Text, i: nat)
    requires LowerUpperAt(s, i)
    requires SplitLowerUpper(s[i + 2..]) == LowerUpperFrom(s, i + 2)
    ensures SplitLowerUpper(s[i..]) == LowerUpperFrom(s, i)
  {
    var rest := LowerUpperFrom(s, i + 2);
    assert s[i..][2..] == s[i + 2..];
    assert SplitLowerUpper(s[i..]) == [s[i], NUL, s[i + 1]] + rest;
    assert !LowerUpperAt(s, i + 1);
    assert LowerUpperFrom(s, i + 1) == [s[i + 1]] + rest;
    assert [s[i], NUL, s[i + 1]] + rest == [s[i]] + ([NUL] + ([s[i + 1]] + rest));
  }

  /** One unit where the first pass does not match. */
  lemma FirstPassMove(s: Text, i: nat)
    requires i < |s| && !LowerUpperAt(s, i)
    requires SplitLowerUpper(s[i + 1..]) == LowerUpperFrom(s, i + 1)
    ensures SplitLowerUpper(s[i..]) == LowerUpperFrom(s, i)
  {
    assert s[i..][1..] == s[i + 1..];
  }

  /** Non-overlapping search misses no place of the first pass: a match ends in a capital,
      which cannot begin another. */
  lemma {:induction false} FirstPassIsPointwise(s: Text, i: nat)
    requires i <= |s|
    ensures SplitLowerUpper(s[i..]) == LowerUpperFrom(s, i)
    decreases |s| - i
  {
    if i == |s| {
    } else if LowerUpperAt(s, i) {
      FirstPassIsPointwise(s, i + 2);
      FirstPassMatch(s, i);
    } else {
      FirstPassIsPointwise(s, i + 1);
      FirstPassMove(s, i);
    }
  }

  /** A match of the second pass on the first pass's result is one on the original. */
  lemma UpperWordStarts(s: Text, i: nat)
    requires i < |s|
    ensures UpperWordAt(LowerUpperFrom(s, i), 0) <==> UpperWordAt(s, i)
    ensures UpperWordAt(s, i) ==> LowerUpperFrom(s, i) == [s[i], s[i + 1], s[i + 2]] + LowerUpperAfter(s, i + 2)
  {
    var f := LowerUpperFrom(s, i);
    assert f == [s[i]] + LowerUpperAfter(s, i);
    if LowerUpperAt(s, i) {
      assert f[1] == NUL;
    } else if i + 1 < |s| {
      var g := LowerUpperFrom(s, i + 1);
      assert g == [s[i + 1]] + LowerUpperAfter(s, i + 1);
      assert f == [s[i]] + g;
      if LowerUpperAt(s, i + 1) {
        assert g[1] == NUL && f[2] == NUL;
      } else if i + 2 < |s| {
        assert LowerUpperFrom(s, i + 2) == [s[i + 2]] + LowerUpperAfter(s, i + 2);
        assert f == [s[i], s[i + 1], s[i + 2]] + LowerUpperAfter(s, i + 2);
      }
    }
  }

  /** A mark ends no match of the second pass, and begins none. */
  lemma SecondPassAfter(s: Text, i: nat)
    requires i < |s|
    ensures SplitUpperWord(LowerUpperAfter(s, i)) ==
            if LowerUpperAt(s, i) then [NUL] + SplitUpperWord(LowerUpperFrom(s, i + 1))
            else SplitUpperWord(LowerUpperFrom(s, i + 1))
  {
    if LowerUpperAt(s, i) {
      assert LowerUpperAfter(s, i)[1..] == LowerUpperFrom(s, i + 1);
    }
  }

  /** After a small letter only the first pass's rule can put a mark. */
  lemma MarkedAtLower(s: Text, j: nat)
    requires j < |s| && IsLower(s[j])
    ensures MarkedFrom(s, j) ==
            [s[j]] + if LowerUpperAt(s, j) then [NUL] + MarkedFrom(s, j + 1) else MarkedFrom(s, j + 1)
  {
    if LowerUpperAt(s, j) {
      assert Boundary(s, j + 1);
      Associative([s[j]], [NUL], MarkedFrom(s, j + 1));
    }
  }

  lemma MarkedAtUpperWord(s: Text, i: nat)
    requires UpperWordAt(s, i)
    ensures MarkedFrom(s, i) == [s[i], NUL] + ([s[i + 1]] + MarkedFrom(s, i + 2))
  {
    assert Boundary(s, i + 1) && !Boundary(s, i + 2);
    assert MarkedFrom(s, i + 1) == [s[i + 1]] + MarkedFrom(s, i + 2);
  }

  /** The second pass on a text that begins with a match. */
  lemma SplitAtUpperWord(f: Text, a: Unit, b: Unit, c: Unit, after: Text)
    requires f == [a, b, c] + after && IsUpper(a) && IsUpper(b) && IsLower(c)
    ensures SplitUpperWord(f) == [a, NUL] + ([b] + ([c] + SplitUpperWord(after)))
  {
    assert f[3..] == after;
    var rest := SplitUpperWord(after);
    assert [a, NUL, b, c] + rest == [a, NUL] + ([b] + ([c] + rest));
  }

  /** One match of the second pass, given the rest. */
  lemma SecondPassMatch(s: Text, i: nat)
    requires UpperWordAt(s, i)
    requires SplitUpperWord(LowerUpperFrom(s, i + 3)) == MarkedFrom(s, i + 3)
    ensures SplitUpperWord(LowerUpperFrom(s, i)) == MarkedFrom(s, i)
  {
    UpperWordStarts(s, i);
    SplitAtUpperWord(LowerUpperFrom(s, i), s[i], s[i + 1], s[i + 2], LowerUpperAfter(s, i + 2));
    SecondPassAfter(s, i + 2);
    MarkedAtLower(s, i + 2);
    MarkedAtUpperWord(s, i);
  }

  /** One unit where the second pass does not match. */
  lemma SecondPassMove(s: Text, i: nat)
    requires i < |s| && !UpperWordAt(s, i)
    requires SplitUpperWord(LowerUpperFrom(s, i + 1)) == MarkedFrom(s, i + 1)
    ensures SplitUpperWord(LowerUpperFrom(s, i)) == MarkedFrom(s, i)
  {
    UpperWordStarts(s, i);
    SecondPassAfter(s, i);
    assert LowerUpperFrom(s, i)[1..] == LowerUpperAfter(s, i);
  }

  lemma {:induction false} SecondPassIsPointwise(s: Text, i: nat)
    requires i <= |s|
    ensures SplitUpperWord(LowerUpperFrom(s, i)) == MarkedFrom(s, i)
    decreases |s| - i
  {
    if i == |s| {
    } else {
      if UpperWordAt(s, i) {
        SecondPassIsPointwise(s, i + 3);
        SecondPassMatch(s, i);
      } else {
        SecondPassIsPointwise(s, i + 1);
        SecondPassMove(s, i);
      }
    }
  }

  /** The two scanning passes insert a mark at every word boundary and nowhere else. */
  lemma PassesMarkBoundaries(s: Text)
    ensures SplitUpperWord(SplitLowerUpper(s)) == Marked(s)
  {
    assert s[0..] == s;
    FirstPassIsPointwise(s, 0);
    SecondPassIsPointwise(s, 0);
  }

  // ------------------------------------------------------------------ noCase

  predicate NotAlnum(c: Unit) { !IsAlnum(c) }

  /** `replace(/[^A-Z0-9]+/gi, "\0")`: each maximal run becomes one mark. */
  function Strip(s: Text): Text
    decreases |s|
  {
    if s == [] then []
    else if IsAlnum(s[0]) then [s[0]] + Strip(s[1..])
    else
      DropShortens(s[1..]);
      [NUL] + Strip(DropLeading(s[1..], NotAlnum))
  }

  lemma DropShortens(s: Text)
    ensures |DropLeading(s, NotAlnum)| <= |s|
  {
    var n := DropLeadingIs(s, NotAlnum);
  }

  type Transform = (Text, nat) -> Text

  function Transformed(parts: seq<Text>, transform: Transform): seq<Text> {
    seq(|parts|, i requires 0 <= i < |parts| => transform(parts[i], i))
  }

  predicate IsNul(c: Unit) { c == NUL }

  /** The words of an input, still in their own case, with one mark between them. */
  function Words(input: Text): Text {
    TrimBy(Strip(SplitUpperWord(SplitLowerUpper(input))), IsNul)
  }

  function NoCaseOf(input: Text, transform: Transform, delimiter: Text): Text {
    Join(Transformed(Split(Words(input), NUL), transform), delimiter)
  }

  /** `charAt(i) === "\0"`; outside the text `charAt` is the empty string. */
  predicate NulAt(s: Text, i: int) {
    0 <= i < |s| && s[i] == NUL
  }

  /** The two trimming loops of `noCase`. */
  method TrimMarks(result: Text) returns (slice: Text)
    ensures slice == TrimBy(result, IsNul)
  {
    ghost var lo, hi := TrimIs(result, IsNul);
    var start := 0;
    var end := |result|;
    while NulAt(result, start)
      invariant 0 <= start <= |result|
      invariant forall i :: 0 <= i < start ==> result[i] == NUL
      decreases |result| - start
    {
      start := start + 1;
    }
    while NulAt(result, end - 1)
      invariant 0 <= end <= |result|
      invariant forall i :: end <= i < |result| ==> result[i] == NUL
      decreases end
    {
      end := end - 1;
    }
    slice := if start <= end then result[start..end] else [];
    if lo < hi {
      assert start == lo && end == hi;
    } else {
      assert start == |result| && end == 0;
    }
  }

  /** `noCase`: the parts between the marks, each transformed at its own place. */
  method NoCase(input: Text, transform: Transform, delimiter: Text)
    returns (output: Text, ghost parts: seq<Text>, ghost transformed: seq<Text>)
    ensures output == NoCaseOf(input, transform, delimiter)
    ensures Join(parts, [NUL]) == Words(input) && forall part :: part in parts ==> NUL !in part
    ensures |transformed| == |parts| && forall i :: 0 <= i < |parts| ==> transformed[i] == transform(parts[i], i)
    ensures output == Join(transformed, delimiter)
  {
    var slice := TrimMarks(Strip(SplitUpperWord(SplitLowerUpper(input))));
    SplitJoins(slice, NUL);
    parts, transformed := Split(slice, NUL), Transformed(Split(slice, NUL), transform);
    output := Join(Transformed(Split(slice, NUL), transform), delimiter);
  }

  function LowerAll(t: Text): Text {
    seq(|t|, i requires 0 <= i < |t| => Lower(t[i]))
  }

  const UNDERSCORE: Unit := 95
  const DOT: Unit := 46

  function LowerPart(part: Text, index: nat): Text {
    LowerAll(part)
  }

  /** `snakeCase` and `dotCase`. */
  function SnakeCase(input: Text): Text {
    NoCaseOf(input, LowerPart, [UNDERSCORE])
  }

  function DotCase(input: Text): Text {
    NoCaseOf(input, LowerPart, [DOT])
  }

  // ------------------------------------------------- the shape of the words

  /** Alphanumeric units and single marks. */
  predicate Tidy(r: Text) {
    && (forall i :: 0 <= i < |r| ==> IsAlnum(r[i]) || r[i] == NUL)
    && (forall i :: 0 < i < |r| ==> r[i - 1] != NUL || r[i] != NUL)
  }

  /** Alphanumeric words with single marks between them. */
  predicate Neat(r: Text) {
    Tidy(r) && (r != [] ==> r[0] != NUL && r[|r| - 1] != NUL)
  }

  lemma {:induction false} KeepMarked(s: Text, i: nat)
    requires i <= |s|
    ensures Keep(MarkedFrom(s, i), IsAlnum) == Keep(s[i..], IsAlnum)
    decreases |s| - i
  {
    if i == |s| {
    } else {
      KeepMarked(s, i + 1);
      assert s[i..] == [s[i]] + s[i + 1..];
      KeepAppend([s[i]], s[i + 1..], IsAlnum);
      if i + 1 < |s| && Boundary(s, i + 1) {
        KeepAppend([s[i], NUL], MarkedFrom(s, i + 1), IsAlnum);
        assert [s[i], NUL][1..] == [NUL];
        assert Keep([s[i], NUL], IsAlnum) == Keep([s[i]], IsAlnum);
      } else {
        KeepAppend([s[i]], MarkedFrom(s, i + 1), IsAlnum);
      }
    }
  }

  lemma {:induction false} StripTidies(s: Text)
    ensures Tidy(Strip(s))
    ensures s != [] && IsAlnum(s[0]) ==> Strip(s) != [] && Strip(s)[0] == s[0]
    ensures s == [] ==> Strip(s) == []
    decreases |s|
  {
    if s == [] {
    } else if IsAlnum(s[0]) {
      StripTidies(s[1..]);
    } else {
      var _ := DropLeadingIs(s[1..], NotAlnum);
      StripTidies(DropLeading(s[1..], NotAlnum));
    }
  }

  lemma KeepDropped(t: Text)
    ensures Keep(DropLeading(t, NotAlnum), IsAlnum) == Keep(t, IsAlnum)
  {
    var n := DropLeadingIs(t, NotAlnum);
    KeepNothing(t[..n], IsAlnum);
    KeepAppend(t[..n], t[n..], IsAlnum);
    assert t == t[..n] + t[n..];
  }

  lemma {:induction false} StripKeepsAlnum(s: Text)
    ensures Keep(Strip(s), IsAlnum) == Keep(s, IsAlnum)
    decreases |s|
  {
    if s == [] {
    } else if IsAlnum(s[0]) {
      StripKeepsAlnum(s[1..]);
      assert Strip(s)[1..] == Strip(s[1..]);
    } else {
      DropShortens(s[1..]);
      var rest := DropLeading(s[1..], NotAlnum);
      StripKeepsAlnum(rest);
      KeepDropped(s[1..]);
      assert Strip(s)[1..] == Strip(rest);
    }
  }

  lemma TrimTidies(r: Text)
    requires Tidy(r)
    ensures Neat(TrimBy(r, IsNul))
  {
    var lo, hi := TrimIs(r, IsNul);
    var t := TrimBy(r, IsNul);
    forall i | 0 < i < |t| ensures t[i - 1] != NUL || t[i] != NUL {
      assert t[i] == r[lo + i] && t[i - 1] == r[lo + i - 1];
    }
  }

  /** The words are neat, and hold exactly the alphanumeric units of the input. */
  lemma WordsAreNeat(input: Text)
    ensures Neat(Words(input))
    ensures Keep(Words(input), IsAlnum) == Keep(input, IsAlnum)
  {
    PassesMarkBoundaries(input);
    StripTidies(Marked(input));
    StripKeepsAlnum(Marked(input));
    KeepMarked(input, 0);
    assert input[0..] == input;
    TrimTidies(Strip(Marked(input)));
    KeepTrim(Strip(Marked(input)), IsNul, IsAlnum);
  }

  /** One pass over the input.  `pending` says that a mark is due before the next
      alphanumeric unit: other units stand between it and the last one, or a boundary does. */
  function OnePass(s: Text, i: nat, pending: bool): Text
    requires i <= |s|
    decreases |s| - i
  {
    if i == |s| then if pending then [NUL] else []
    else if !IsAlnum(s[i]) then OnePass(s, i + 1, true)
    else if pending then [NUL, s[i]] + OnePass(s, i + 1, i + 1 < |s| && Boundary(s, i + 1))
    else [s[i]] + OnePass(s, i + 1, i + 1 < |s| && Boundary(s, i + 1))
  }

  /** Stripping a text that begins with an alphanumeric unit. */
  lemma StripKeeps(c: Unit, t: Text)
    requires IsAlnum(c)
    ensures Strip([c] + t) == [c] + Strip(t)
    ensures DropLeading([c] + t, NotAlnum) == [c] + t
  {
    assert ([c] + t)[1..] == t;
  }

  /** Stripping a text that begins with another unit. */
  lemma StripMarks(c: Unit, t: Text)
    requires !IsAlnum(c)
    ensures Strip([c] + t) == [NUL] + Strip(DropLeading(t, NotAlnum))
    ensures DropLeading([c] + t, NotAlnum) == DropLeading(t, NotAlnum)
  {
    assert ([c] + t)[1..] == t;
  }

  /** Stripping from an alphanumeric position on: a boundary's mark is kept, and ends at once. */
  lemma StripMarkedWord(s: Text, i: nat, after: bool)
    requires i < |s| && IsAlnum(s[i])
    requires after == (i + 1 < |s| && Boundary(s, i + 1))
    ensures Strip(MarkedFrom(s, i)) == [s[i]] +
            if after then [NUL] + Strip(DropLeading(MarkedFrom(s, i + 1), NotAlnum)) else Strip(MarkedFrom(s, i + 1))
    ensures DropLeading(MarkedFrom(s, i), NotAlnum) == MarkedFrom(s, i)
  {
    var rest := MarkedFrom(s, i + 1);
    if after {
      Associative([s[i]], [NUL], rest);
      StripKeeps(s[i], [NUL] + rest);
      StripMarks(NUL, rest);
    } else {
      StripKeeps(s[i], rest);
    }
  }

  lemma {:induction false} StripMarked(s: Text, i: nat)
    requires i <= |s|
    ensures OnePass(s, i, false) == Strip(MarkedFrom(s, i))
    ensures OnePass(s, i, true) == [NUL] + Strip(DropLeading(MarkedFrom(s, i), NotAlnum))
    decreases |s| - i
  {
    if i == |s| {
    } else {
      StripMarked(s, i + 1);
      if IsAlnum(s[i]) {
        var after := i + 1 < |s| && Boundary(s, i + 1);
        StripMarkedWord(s, i, after);
        Associative([NUL], [s[i]], OnePass(s, i + 1, after));
      } else {
        StripMarks(s[i], MarkedFrom(s, i + 1));
      }
    }
  }

  /** The two splitting passes, the stripping pass and the trimming together do what one
      pass over the input does: alphanumeric neighbours in the output are parted by a mark
      exactly if other units part them in the input, or a word boundary. */
  lemma WordsInOnePass(input: Text)
    ensures Words(input) == TrimBy(OnePass(input, 0, false), IsNul)
  {
    PassesMarkBoundaries(input);
    StripMarked(input, 0);
  }

  // ---------------------------------------------------- the output, directly

  /** Every unit lower-cased, and every mark replaced by the delimiter. */
  function Rendered(r: Text, d: Unit): Text {
    seq(|r|, i requires 0 <= i < |r| => if r[i] == NUL then d else Lower(r[i]))
  }

  function LowerParts(parts: seq<Text>): seq<Text> {
    seq(|parts|, i requires 0 <= i < |parts| => LowerAll(parts[i]))
  }

  lemma LowerPartsCons(first: Text, rest: seq<Text>)
    ensures LowerParts([first] + rest) == [LowerAll(first)] + LowerParts(rest)
  {
  }

  lemma LowerCons(c: Unit, t: Text)
    ensures LowerAll([c] + t) == [Lower(c)] + LowerAll(t)
  {
  }

  lemma RenderedCons(c: Unit, t: Text, d: Unit)
    ensures Rendered([c] + t, d) == [if c == NUL then d else Lower(c)] + Rendered(t, d)
  {
  }

  /** A unit put before the first part comes out before the whole. */
  lemma JoinCons(c: Unit, first: Text, rest: seq<Text>, delimiter: Text)
    ensures Join([[c] + first] + rest, delimiter) == [c] + Join([first] + rest, delimiter)
  {
    assert ([[c] + first] + rest)[1..] == rest && ([first] + rest)[1..] == rest;
    if rest == [] {
    } else {
      Associative([c] + first, delimiter, Join(rest, delimiter));
      Associative([c], first, delimiter);
      Associative([c], first + delimiter, Join(rest, delimiter));
    }
  }

  lemma JoinBlank(parts: seq<Text>, delimiter: Text)
    requires parts != []
    ensures Join([[]] + parts, delimiter) == delimiter + Join(parts, delimiter)
  {
    assert ([[]] + parts)[1..] == parts && [] + delimiter == delimiter;
  }

  lemma {:induction false} JoinOfSplit(r: Text, d: Unit)
    ensures Join(LowerParts(Split(r, NUL)), [d]) == Rendered(r, d)
  {
    if r == [] {
      assert LowerParts([[]]) == [LowerAll([])];
    } else {
      JoinOfSplit(r[1..], d);
      var rest := Split(r[1..], NUL);
      assert [r[0]] + r[1..] == r;
      RenderedCons(r[0], r[1..], d);
      if r[0] == NUL {
        LowerPartsCons([], rest);
        assert LowerAll([]) == [];
        JoinBlank(LowerParts(rest), [d]);
      } else {
        assert [rest[0]] + rest[1..] == rest;
        LowerPartsCons([r[0]] + rest[0], rest[1..]);
        LowerPartsCons(rest[0], rest[1..]);
        LowerCons(r[0], rest[0]);
        JoinCons(Lower(r[0]), LowerAll(rest[0]), LowerParts(rest[1..]), [d]);
      }
    }
  }

  /** Split, transform and join amount to a unit-by-unit rewriting of the words. */
  lemma DelimitedIsRendered(input: Text, d: Unit)
    ensures NoCaseOf(input, LowerPart, [d]) == Rendered(Words(input), d)
  {
    var parts := Split(Words(input), NUL);
    var transformed, lowered := Transformed(parts, LowerPart), LowerParts(parts);
    forall i | 0 <= i < |parts| ensures transformed[i] == lowered[i] {
      assert transformed[i] == LowerPart(parts[i], i);
    }
    assert transformed == lowered;
    JoinOfSplit(Words(input), d);
  }

  function Without(t: Text, d: Unit): Text {
    Keep(t, (c: Unit) => c != d)
  }

  lemma {:induction false} WithoutRendered(r: Text, d: Unit)
    requires !IsAlnum(d) && forall i :: 0 <= i < |r| ==> IsAlnum(r[i]) || r[i] == NUL
    ensures Without(Rendered(r, d), d) == LowerAll(Keep(r, IsAlnum))
  {
    if r == [] {
    } else {
      WithoutRendered(r[1..], d);
      var x := if r[0] == NUL then d else Lower(r[0]);
      assert Rendered(r, d) == [x] + Rendered(r[1..], d);
      KeepAppend([x], Rendered(r[1..], d), (c: Unit) => c != d);
      assert r[0] != NUL ==> LowerAll([r[0]] + Keep(r[1..], IsAlnum)) == [x] + LowerAll(Keep(r[1..], IsAlnum));
    }
  }

  /** The output has no leading, trailing or doubled delimiter, and without its delimiters
      it is the lower-cased alphanumeric part of the input. */
  lemma DelimitedShape(input: Text, d: Unit)
    requires !IsAlnum(d)
    ensures var out := NoCaseOf(input, LowerPart, [d]);
            && (out != [] ==> out[0] != d && out[|out| - 1] != d)
            && (forall i :: 0 < i < |out| ==> out[i - 1] != d || out[i] != d)
            && (forall i :: 0 <= i < |out| ==> out[i] == d || (IsAlnum(out[i]) && !IsUpper(out[i])))
            && Without(out, d) == LowerAll(Keep(input, IsAlnum))
  {
    DelimitedIsRendered(input, d);
    WordsAreNeat(input);
    WithoutRendered(Words(input), d);
  }

  // --------------------------------------------------------------- idempotence

  lemma {:induction false} NoCapitalsNoMarks(s: Text)
    requires forall i :: 0 <= i < |s| ==> !IsUpper(s[i])
    ensures SplitLowerUpper(s) == s && SplitUpperWord(s) == s
  {
    if s == [] {
    } else {
      NoCapitalsNoMarks(s[1..]);
    }
  }

  lemma {:induction false} StripRendered(r: Text, d: Unit)
    requires Tidy(r) && !IsAlnum(d)
    ensures Strip(Rendered(r, d)) == Rendered(r, NUL)
  {
    if r == [] {
    } else {
      var tail := r[1..];
      StripRendered(tail, d);
      var y := Rendered(r, d);
      assert y[1..] == Rendered(tail, d);
      assert Rendered(r, NUL) == [if r[0] == NUL then NUL else Lower(r[0])] + Rendered(tail, NUL);
      if r[0] == NUL {
        assert tail != [] ==> IsAlnum(y[1..][0]);
        assert DropLeading(y[1..], NotAlnum) == y[1..];
      }
    }
  }

  lemma TrimNothing(r: Text)
    requires r != [] ==> r[0] != NUL && r[|r| - 1] != NUL
    ensures TrimBy(r, IsNul) == r
  {
    var lo, hi := TrimIs(r, IsNul);
    if r != [] {
      assert !IsNul(r[0]) && !IsNul(r[|r| - 1]);
      assert lo == 0 && hi == |r|;
    }
  }

  /** The words of an output are the words it was made of, lower-cased. */
  lemma WordsOfRendered(r: Text, d: Unit)
    requires Neat(r) && !IsAlnum(d)
    ensures Words(Rendered(r, d)) == Rendered(r, NUL)
  {
    NoCapitalsNoMarks(Rendered(r, d));
    StripRendered(r, d);
    TrimNothing(Rendered(r, NUL));
  }

  /** Converting an output again, with whatever delimiter, is converting the input: in
      particular each conversion is idempotent. */
  lemma ConversionsAbsorb(input: Text, d: Unit, e: Unit)
    requires !IsAlnum(d)
    ensures NoCaseOf(NoCaseOf(input, LowerPart, [d]), LowerPart, [e]) == NoCaseOf(input, LowerPart, [e])
  {
    var r := Words(input);
    WordsAreNeat(input);
    DelimitedIsRendered(input, d);
    DelimitedIsRendered(input, e);
    WordsOfRendered(r, d);
    DelimitedIsRendered(Rendered(r, d), e);
    assert Rendered(Rendered(r, NUL), e) == Rendered(r, e);
  }

  lemma SnakeCaseIdempotent(input: Text)
    ensures SnakeCase(SnakeCase(input)) == SnakeCase(input)
    ensures DotCase(DotCase(input)) == DotCase(input)
    ensures DotCase(SnakeCase(input)) == DotCase(input)
  {
    ConversionsAbsorb(input, UNDERSCORE, UNDERSCORE);
    ConversionsAbsorb(input, DOT, DOT);
    ConversionsAbsorb(input, UNDERSCORE, DOT);
  }
}
