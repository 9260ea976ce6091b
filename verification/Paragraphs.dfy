/**
 What becomes of the newlines that the first pass of `formatComment` leaves: which
 of them part the lines that come out, and when two paragraphs stay apart.
 */
module Paragraphs {
  import opened CodeUnits
  import opened CommentFormat

  // ------------------------------------------------------ wrapping piecewise

  /** The lines that come out, without their prefixes. */
  function LineBodies(pieces: seq<Piece>): seq<Text> {
    seq(|pieces|, i requires 0 <= i < |pieces| => Body(pieces[i]))
  }

  lemma LineBodiesAppend(a: seq<Piece>, b: seq<Piece>)
    ensures LineBodies(a + b) == LineBodies(a) + LineBodies(b)
  {
  }

  lemma LineBodiesCons(p: Piece, rest: seq<Piece>)
    ensures LineBodies([p] + rest) == [Body(p)] + LineBodies(rest)
  {
  }

  lemma OneLine(p: Piece)
    ensures LineBodies([p]) == [Body(p)]
  {
  }

  lemma {:induction false} FromAppend(w: Wrapper, t: Text, u: Text, wrapLength: int)
    ensures From(w, t + u, wrapLength) == From(From(w, t, wrapLength), u, wrapLength)
  {
    if u == [] {
      assert t + u == t;
    } else {
      var init := u[..|u| - 1];
      assert (t + u)[..|t + u| - 1] == t + init;
      FromAppend(w, t, init, wrapLength);
    }
  }

  lemma FromOne(w: Wrapper, c: Unit, wrapLength: int)
    ensures From(w, [c], wrapLength) == Feed(w, c, wrapLength)
  {
    assert [c][..0] == [];
  }

  /** A wrapper that has put out `before` in addition. */
  function Onto(before: seq<Piece>, w: Wrapper): Wrapper {
    w.(pieces := before + w.pieces)
  }

  lemma PiecesAssociative(a: seq<Piece>, b: seq<Piece>, c: seq<Piece>)
    ensures (a + b) + c == a + (b + c)
  {
  }

  lemma FeedOnto(before: seq<Piece>, w: Wrapper, c: Unit, wrapLength: int)
    ensures Feed(Onto(before, w), c, wrapLength) == Onto(before, Feed(w, c, wrapLength))
  {
    PiecesAssociative(before, w.pieces, [Piece(w.line, Overflow(w.word))]);
    PiecesAssociative(before, w.pieces, [Piece(w.line + w.word, AtNewline)]);
  }

  /** What has been put out does not matter to what follows. */
  lemma {:induction false} FromOnto(before: seq<Piece>, w: Wrapper, t: Text, wrapLength: int)
    ensures From(Onto(before, w), t, wrapLength) == Onto(before, From(w, t, wrapLength))
  {
    if t == [] {
    } else {
      var init := t[..|t| - 1];
      FromOnto(before, w, init, wrapLength);
      FeedOnto(before, From(w, init, wrapLength), t[|t| - 1], wrapLength);
    }
  }

  lemma EndedOnto(before: seq<Piece>, w: Wrapper, wrapLength: int)
    ensures Ended(Onto(before, w), wrapLength) == before + Ended(w, wrapLength)
  {
    PiecesAssociative(before, w.pieces, [Piece(w.line, Overflow(w.word))]);
    var s := Settled(w, wrapLength);
    PiecesAssociative(before, s.pieces, [Piece(s.line, AtEnd)]);
  }

  /** The lines a text leads to from a line and a word under way. */
  function Rest(line: Text, word: Text, t: Text, wrapLength: int): seq<Piece> {
    Ended(From(Wrapper([], line, word), t, wrapLength), wrapLength)
  }

  lemma RestOf(w: Wrapper, t: Text, wrapLength: int)
    ensures Ended(From(w, t, wrapLength), wrapLength) == w.pieces + Rest(w.line, w.word, t, wrapLength)
  {
    var open := Wrapper([], w.line, w.word);
    assert w == Onto(w.pieces, open);
    FromOnto(w.pieces, open, t, wrapLength);
    EndedOnto(w.pieces, From(open, t, wrapLength), wrapLength);
  }

  // ------------------------------------------------------- a single newline

  /** One unit in the middle of a text, and what follows. */
  lemma LaidOutAt(t: Text, at: nat, wrapLength: int)
    requires at < |t|
    ensures var w := Feed(Wrapped(t[..at], wrapLength), t[at], wrapLength);
            LaidOut(t, wrapLength) == w.pieces + Rest(w.line, w.word, t[at + 1..], wrapLength)
  {
    var w := Wrapped(t[..at], wrapLength);
    assert t == t[..at] + ([t[at]] + t[at + 1..]);
    FromAppend(FRESH, t[..at], [t[at]] + t[at + 1..], wrapLength);
    FromAppend(w, [t[at]], t[at + 1..], wrapLength);
    FromOne(w, t[at], wrapLength);
    RestOf(Feed(w, t[at], wrapLength), t[at + 1..], wrapLength);
  }

  /**
   Every newline that the first pass leaves has one of two effects on the lines.  If line
   and word before it are too long they are those of the text with a space in its place.
   Otherwise they are those of the text before it, a blank one if nothing was under way,
   and those of the text after it on its own.
   */
  lemma NewlineDecides(text: Text, wrapLength: int, at: nat)
    requires at < |text| && Collapsed(text)[at] == NEWLINE
    ensures var t := Collapsed(text);
            var w := Wrapped(t[..at], wrapLength);
            LineBodies(Layout(text, wrapLength)) ==
            if TooLong(w, wrapLength) then LineBodies(LaidOut(t[at := SPACE], wrapLength))
            else LineBodies(LaidOut(t[..at], wrapLength)) + (if w.line + w.word == [] then [[]] else [])
                 + LineBodies(LaidOut(t[at + 1..], wrapLength))
  {
    var t := Collapsed(text);
    var w := Wrapped(t[..at], wrapLength);
    LaidOutAt(t, at, wrapLength);
    if TooLong(w, wrapLength) {
      var other := t[at := SPACE];
      assert other[..at] == t[..at] && other[at + 1..] == t[at + 1..];
      LaidOutAt(other, at, wrapLength);
    } else {
      var line := w.line + w.word;
      assert Layout(text, wrapLength) ==
             w.pieces + [Piece(line, AtNewline)] + LaidOut(t[at + 1..], wrapLength);
      LineBodiesAppend(w.pieces + [Piece(line, AtNewline)], LaidOut(t[at + 1..], wrapLength));
      LineBodiesAppend(w.pieces, [Piece(line, AtNewline)]);
      LineBodiesAppend(w.pieces, [Piece(line, AtEnd)]);
      assert LineBodies([Piece(line, AtNewline)]) == [Trim(line)] == LineBodies([Piece(line, AtEnd)]);
      if line == [] {
        TrimBlank(line);
      }
    }
  }

  // --------------------------------------------------------------- trimming

  /** What is left of a text between two positions, when the rest is white and it is not. */
  lemma TrimUnique(t: Text, lo: nat, hi: nat)
    requires lo < hi <= |t| && !IsWhite(t[lo]) && !IsWhite(t[hi - 1])
    requires forall i :: 0 <= i < lo || hi <= i < |t| ==> IsWhite(t[i])
    ensures Trim(t) == t[lo..hi]
  {
    var l, h := TrimIs(t, IsWhite);
    assert l <= lo < h;
    assert l == lo && h == hi;
  }

  lemma TrimBlank(t: Text)
    requires forall i :: 0 <= i < |t| ==> IsWhite(t[i])
    ensures Trim(t) == []
  {
    var l, h := TrimIs(t, IsWhite);
  }

  predicate Inked(t: Text) {
    exists i :: 0 <= i < |t| && !IsWhite(t[i])
  }

  /** A text with ink has a first and a last inked unit. */
  lemma InkEnds(t: Text) returns (lo: nat, hi: nat)
    requires Inked(t)
    ensures lo < hi <= |t| && !IsWhite(t[lo]) && !IsWhite(t[hi - 1])
    ensures forall i :: 0 <= i < lo || hi <= i < |t| ==> IsWhite(t[i])
    ensures Trim(t) == t[lo..hi] && Trim(t) != []
  {
    var i :| 0 <= i < |t| && !IsWhite(t[i]);
    lo, hi := TrimIs(t, IsWhite);
    assert lo <= i < hi;
  }

  lemma TrimSpaces(t: Text)
    requires Inked(t)
    ensures Trim([SPACE] + t) == Trim(t) && Trim(t + [SPACE]) == Trim(t) && Trim(Trim(t)) == Trim(t)
    ensures Trim(Trim(t) + [SPACE]) == Trim(t)
  {
    var lo, hi := InkEnds(t);
    TrimUnique([SPACE] + t, lo + 1, hi + 1);
    assert ([SPACE] + t)[lo + 1..hi + 1] == t[lo..hi];
    TrimUnique(t + [SPACE], lo, hi);
    var trimmed := Trim(t);
    TrimUnique(trimmed, 0, |trimmed|);
    TrimUnique(trimmed + [SPACE], 0, |trimmed|);
  }

  // ------------------------------------------------- the first line of a text

  /** The first line that will come out is not blank. */
  predicate FirstInked(w: Wrapper) {
    if w.pieces == [] then Inked(w.line) else Inked(w.pieces[0].raw)
  }

  lemma InkedAppend(t: Text, u: Text)
    ensures Inked(t) || Inked(u) ==> Inked(t + u)
  {
    if i :| 0 <= i < |t| && !IsWhite(t[i]) {
      assert !IsWhite((t + u)[i]);
    }
    if i :| 0 <= i < |u| && !IsWhite(u[i]) {
      assert !IsWhite((t + u)[|t| + i]);
    }
  }

  lemma {:induction false} FromFirstInked(w: Wrapper, t: Text, wrapLength: int)
    requires FirstInked(w)
    ensures FirstInked(From(w, t, wrapLength))
  {
    if t == [] {
    } else {
      var v := From(w, t[..|t| - 1], wrapLength);
      FromFirstInked(w, t[..|t| - 1], wrapLength);
      InkedAppend(v.line, v.word);
    }
  }

  lemma EndedFirstInked(w: Wrapper, wrapLength: int)
    requires FirstInked(w)
    ensures Ended(w, wrapLength) != [] && Body(Ended(w, wrapLength)[0]) != []
  {
    InkedAppend(w.line, w.word);
    var first := Ended(w, wrapLength)[0].raw;
    assert Inked(first);
    var lo, hi := InkEnds(first);
  }

  // ---------------------------------------------------------- the first word

  /** The units before the first space or newline. */
  function FirstWord(t: Text): Text {
    if t == [] || t[0] == SPACE || t[0] == NEWLINE then [] else [t[0]] + FirstWord(t[1..])
  }

  lemma {:induction false} FirstWordIs(t: Text)
    ensures var n := |FirstWord(t)|;
            && n <= |t| && FirstWord(t) == t[..n]
            && (forall i :: 0 <= i < n ==> t[i] != SPACE && t[i] != NEWLINE)
            && (n < |t| ==> t[n] == SPACE || t[n] == NEWLINE)
  {
    if t == [] || t[0] == SPACE || t[0] == NEWLINE {
    } else {
      FirstWordIs(t[1..]);
      var m := |FirstWord(t[1..])|;
      forall i | 0 <= i < m + 1 ensures t[i] != SPACE && t[i] != NEWLINE {
        assert i > 0 ==> t[i] == t[1..][i - 1];
      }
      assert t[..m + 1] == [t[0]] + t[1..][..m];
      assert m + 1 < |t| ==> t[m + 1] == t[1..][m];
    }
  }

  /** The first pass turns separators into separators. */
  lemma FirstWordCollapsed(t: Text)
    ensures FirstWord(Collapsed(t)) == FirstWord(t)
  {
    FirstWordIs(t);
    FirstWordIs(Collapsed(t));
    var n, m := |FirstWord(t)|, |FirstWord(Collapsed(t))|;
    assert forall i :: 0 <= i < |t| && t[i] != NEWLINE ==> Collapsed(t)[i] == t[i];
    assert m < |t| ==> t[m] == SPACE || t[m] == NEWLINE;
    assert n < |t| ==> Collapsed(t)[n] == SPACE || Collapsed(t)[n] == NEWLINE;
    assert Collapsed(t)[..n] == t[..n];
  }

  lemma {:induction false} NoBreak(w: Wrapper, r: Text, wrapLength: int)
    requires forall i :: 0 <= i < |r| ==> r[i] != SPACE && r[i] != NEWLINE
    ensures From(w, r, wrapLength) == w.(word := w.word + r)
  {
    if r == [] {
      assert w.word + r == w.word;
    } else {
      var init, c := r[..|r| - 1], r[|r| - 1];
      NoBreak(w, init, wrapLength);
      assert w.word + r == (w.word + init) + [c];
    }
  }

  /** Reading a text is reading its first word, and then from its separator on. */
  lemma RestByWord(word: Text, t: Text, wrapLength: int)
    ensures |FirstWord(t)| <= |t|
    ensures Rest([], word, t, wrapLength) == Rest([], word + FirstWord(t), t[|FirstWord(t)|..], wrapLength)
  {
    FirstWordIs(t);
    var r := FirstWord(t);
    var u := t[|r|..];
    assert t == r + u;
    FromAppend(Wrapper([], [], word), r, u, wrapLength);
    NoBreak(Wrapper([], [], word), r, wrapLength);
  }

  /** Reading on from a separator. */
  lemma RestAfterOne(line: Text, word: Text, u: Text, wrapLength: int)
    requires u != []
    ensures var fed := Feed(Wrapper([], line, word), u[0], wrapLength);
            Rest(line, word, u, wrapLength) == fed.pieces + Rest(fed.line, fed.word, u[1..], wrapLength)
  {
    var open := Wrapper([], line, word);
    assert u == [u[0]] + u[1..];
    FromAppend(open, [u[0]], u[1..], wrapLength);
    FromOne(open, u[0], wrapLength);
    RestOf(Feed(open, u[0], wrapLength), u[1..], wrapLength);
  }

  lemma FedSeparator(line: Text, word: Text, c: Unit, wrapLength: int)
    requires c == SPACE || c == NEWLINE
    ensures Feed(Wrapper([], line, word), c, wrapLength) ==
            if |line| + |word| > wrapLength then Wrapper([Piece(line, Overflow(word))], Trim(word), [SPACE])
            else if c == NEWLINE then Wrapper([Piece(line + word, AtNewline)], [], [])
            else Wrapper([], line + word, [SPACE])
  {
    assert [] + [Piece(line, Overflow(word))] == [Piece(line, Overflow(word))];
    assert [] + [Piece(line + word, AtNewline)] == [Piece(line + word, AtNewline)];
  }

  lemma RestBySeparator(line: Text, word: Text, u: Text, wrapLength: int)
    requires u != [] && (u[0] == SPACE || u[0] == NEWLINE)
    ensures Rest(line, word, u, wrapLength) ==
            if |line| + |word| > wrapLength then
              [Piece(line, Overflow(word))] + Rest(Trim(word), [SPACE], u[1..], wrapLength)
            else if u[0] == NEWLINE then [Piece(line + word, AtNewline)] + LaidOut(u[1..], wrapLength)
            else Rest(line + word, [SPACE], u[1..], wrapLength)
  {
    FedSeparator(line, word, u[0], wrapLength);
    RestAfterOne(line, word, u, wrapLength);
    NoneBefore(Rest(line + word, [SPACE], u[1..], wrapLength));
  }

  lemma NoneBefore(pieces: seq<Piece>)
    ensures [] + pieces == pieces
  {
  }

  /** Coming to the end. */
  lemma RestAtEnd(line: Text, word: Text, wrapLength: int)
    ensures Rest(line, word, [], wrapLength) ==
            if |line| + |word| > wrapLength then
              [Piece(line, Overflow(word))] + if Trim(word) == [] then [] else [Piece(Trim(word), AtEnd)]
            else if line + word == [] then [] else [Piece(line + word, AtEnd)]
  {
  }

  /** The text begins with ink. */
  predicate Opens(q: Text) {
    q != [] && !IsWhite(q[0])
  }

  lemma OpensWithWord(q: Text)
    requires Opens(q)
    ensures FirstWord(q) != [] && Inked(FirstWord(q)) && |FirstWord(q)| <= |q|
    ensures |FirstWord(q)| < |q| ==> q[|FirstWord(q)|] == SPACE || q[|FirstWord(q)|] == NEWLINE
  {
    FirstWordIs(q);
    assert !IsWhite(FirstWord(q)[0]);
  }

  /** A first word that fits, with the space left by a lost newline if there is one, comes
      out on the first line. */
  lemma WordThatFits(blank: Text, q: Text, wrapLength: int)
    requires Opens(q) && |blank| + |FirstWord(q)| <= wrapLength
    ensures var lines := Rest([], blank, q, wrapLength);
            lines != [] && Body(lines[0]) != []
  {
    OpensWithWord(q);
    var line := blank + FirstWord(q);
    var u := q[|FirstWord(q)|..];
    RestByWord(blank, q, wrapLength);
    InkedAppend(blank, FirstWord(q));
    assert [] + line == line;
    var _, _ := InkEnds(line);
    if u == [] {
      RestAtEnd([], line, wrapLength);
    } else {
      RestBySeparator([], line, u, wrapLength);
      RestStartsInked(line, [SPACE], u[1..], wrapLength);
    }
  }

  lemma RestStartsInked(line: Text, word: Text, t: Text, wrapLength: int)
    requires Inked(line)
    ensures var lines := Rest(line, word, t, wrapLength);
            lines != [] && Body(lines[0]) != []
  {
    var open := Wrapper([], line, word);
    FromFirstInked(open, t, wrapLength);
    EndedFirstInked(From(open, t, wrapLength), wrapLength);
  }

  /** To a first word longer than a line the space left by a lost newline makes no difference. */
  lemma WordTooLong(q: Text, wrapLength: int)
    requires Opens(q) && |FirstWord(q)| > wrapLength
    ensures LineBodies(Rest([], [SPACE], q, wrapLength)) == LineBodies(LaidOut(q, wrapLength))
  {
    OpensWithWord(q);
    var r := FirstWord(q);
    var u := q[|r|..];
    RestByWord([SPACE], q, wrapLength);
    RestByWord([], q, wrapLength);
    assert [] + r == r;
    LongWord([SPACE] + r, r, u, wrapLength);
    LongWord(r, r, u, wrapLength);
  }

  /** What comes of a word longer than a line depends on its ink alone. */
  lemma LongWord(word: Text, r: Text, u: Text, wrapLength: int)
    requires Inked(r) && (word == r || word == [SPACE] + r) && |word| > wrapLength
    requires u != [] ==> u[0] == SPACE || u[0] == NEWLINE
    ensures LineBodies(Rest([], word, u, wrapLength)) ==
            [[]] + if u == [] then [Trim(Trim(r))] else LineBodies(Rest(Trim(r), [SPACE], u[1..], wrapLength))
  {
    TrimSpaces(r);
    TrimBlank([]);
    var _, _ := InkEnds(r);
    if u == [] {
      RestAtEnd([], word, wrapLength);
      LineBodiesCons(Piece([], Overflow(word)), [Piece(Trim(r), AtEnd)]);
    } else {
      RestBySeparator([], word, u, wrapLength);
      LineBodiesCons(Piece([], Overflow(word)), Rest(Trim(r), [SPACE], u[1..], wrapLength));
    }
  }

  /** A first word that takes up a whole line, ends in ink, and is not followed by a newline
      that the first pass leaves. */
  predicate FillsLine(q: Text, wrapLength: int) {
    var n := |FirstWord(q)|;
    n == wrapLength && 0 < n <= |q| && !IsWhite(q[n - 1]) && (n < |q| ==> q[n] == SPACE)
  }

  lemma WordEndsInInk(q: Text, wrapLength: int)
    requires Opens(q) && 0 < |FirstWord(q)| == wrapLength <= |q| && !IsWhite(q[wrapLength - 1])
    ensures var r := FirstWord(q);
            r != [] && Inked(r) && Trim(r) == r && |r| <= |q|
  {
    FirstWordIs(q);
    var r := FirstWord(q);
    assert !IsWhite(r[0]) && !IsWhite(r[|r| - 1]);
    TrimUnique(r, 0, |r|);
  }

  lemma ShortWord(r: Text, u: Text, wrapLength: int)
    requires r != [] && |r| <= wrapLength && (u != [] ==> u[0] == SPACE)
    ensures LineBodies(Rest([], r, u, wrapLength)) ==
            if u == [] then [Trim(r)] else LineBodies(Rest(r, [SPACE], u[1..], wrapLength))
  {
    assert [] + r == r;
    if u == [] {
      RestAtEnd([], r, wrapLength);
      OneLine(Piece(r, AtEnd));
    } else {
      RestBySeparator([], r, u, wrapLength);
    }
  }

  /** With the space such a word is a unit too long, and a blank line comes out before it. */
  lemma WordThatFills(q: Text, wrapLength: int)
    requires Opens(q) && FillsLine(q, wrapLength)
    ensures LineBodies(Rest([], [SPACE], q, wrapLength)) == [[]] + LineBodies(LaidOut(q, wrapLength))
  {
    WordEndsInInk(q, wrapLength);
    var r := FirstWord(q);
    var u := q[|r|..];
    RestByWord([SPACE], q, wrapLength);
    RestByWord([], q, wrapLength);
    assert [] + r == r;
    LongWord([SPACE] + r, r, u, wrapLength);
    ShortWord(r, u, wrapLength);
  }

  // --------------------------------- a paragraph behind the space of a lost newline

  /** What the first pass makes of a text without tabs or other odd white space whose
      paragraphs are not indented: spaces and newlines only, no space after a newline, and
      no newline alone between other units. */
  predicate Plain(t: Text) {
    && (forall i :: 0 <= i < |t| && IsWhite(t[i]) ==> t[i] == SPACE || t[i] == NEWLINE)
    && (forall i :: 0 < i < |t| && t[i - 1] == NEWLINE ==> t[i] != SPACE)
    && (forall i :: 0 < i < |t| - 1 ==> !LoneNewline(t, i))
  }

  /** A text whose only white space is the space is plain, on one line or in paragraphs. */
  lemma SpacedIsPlain(t: Text)
    requires forall i :: 0 <= i < |t| && IsWhite(t[i]) ==> t[i] == 32
    ensures Plain(t) && (t != [] && !IsWhite(t[0]) ==> Plain([NEWLINE, NEWLINE] + t))
  {
  }

  /** The text's paragraphs are single words that take up a whole line, up to one that goes
      on after such a word, or the end. */
  predicate FillsLines(t: Text, wrapLength: int)
    decreases |t|
  {
    var n := |FirstWord(t)|;
    t == [] ||
    (n == wrapLength && 0 < n <= |t| &&
     (n == |t| || t[n] == SPACE || n + 1 == |t| || FillsLines(t[n + 2..], wrapLength)))
  }

  lemma BlankThenLines(word: Text, t: Text, wrapLength: int)
    requires |word| <= wrapLength && (word == [] || word == [SPACE]) && t != [] && t[0] == NEWLINE
    ensures LineBodies(Rest([], word, t, wrapLength)) == [[]] + LineBodies(LaidOut(t[1..], wrapLength))
  {
    RestBySeparator([], word, t, wrapLength);
    TrimBlank([] + word);
    LineBodiesCons(Piece([] + word, AtNewline), LaidOut(t[1..], wrapLength));
  }

  lemma NothingAfterSpace(wrapLength: int)
    requires wrapLength > 0
    ensures LineBodies(Rest([], [SPACE], [], wrapLength)) == [[]] && LineBodies(LaidOut([], wrapLength)) == []
  {
    RestAtEnd([], [SPACE], wrapLength);
    assert [] + [SPACE] == [SPACE];
    TrimBlank([SPACE]);
    OneLine(Piece([SPACE], AtEnd));
    RestAtEnd([], [], wrapLength);
  }

  /** A word that fills a line, at the end of its paragraph. */
  predicate FilledWord(t: Text, wrapLength: int) {
    && Opens(t) && 0 < |FirstWord(t)| == wrapLength < |t|
    && !IsWhite(t[wrapLength - 1]) && t[wrapLength] == NEWLINE
  }

  lemma FilledAlone(t: Text, wrapLength: int)
    requires FilledWord(t, wrapLength)
    ensures LineBodies(LaidOut(t, wrapLength)) == [FirstWord(t)] + LineBodies(LaidOut(t[wrapLength + 1..], wrapLength))
  {
    WordEndsInInk(t, wrapLength);
    var r, u := FirstWord(t), t[wrapLength..];
    assert u[1..] == t[wrapLength + 1..] && [] + r == r;
    RestByWord([], t, wrapLength);
    RestBySeparator([], r, u, wrapLength);
    LineBodiesCons(Piece(r, AtNewline), LaidOut(u[1..], wrapLength));
  }

  lemma FilledBehind(t: Text, wrapLength: int)
    requires FilledWord(t, wrapLength)
    ensures LineBodies(Rest([], [SPACE], t, wrapLength)) ==
            [[]] + LineBodies(Rest(FirstWord(t), [SPACE], t[wrapLength + 1..], wrapLength))
  {
    WordEndsInInk(t, wrapLength);
    var r, u := FirstWord(t), t[wrapLength..];
    assert u[1..] == t[wrapLength + 1..];
    RestByWord([SPACE], t, wrapLength);
    LongWord([SPACE] + r, r, u, wrapLength);
  }

  /** The word is put out; at a second newline the space stays behind. */
  lemma AfterFilled(r: Text, v: Text, wrapLength: int)
    requires |r| == wrapLength && Trim(r) == r && (v != [] ==> v[0] == NEWLINE)
    ensures LineBodies(Rest(r, [SPACE], v, wrapLength)) ==
            [r] + if v == [] then [] else LineBodies(Rest([], [SPACE], v[1..], wrapLength))
  {
    TrimBlank([SPACE]);
    if v == [] {
      RestAtEnd(r, [SPACE], wrapLength);
      LineBodiesCons(Piece(r, Overflow([SPACE])), []);
    } else {
      RestBySeparator(r, [SPACE], v, wrapLength);
      LineBodiesCons(Piece(r, Overflow([SPACE])), Rest([], [SPACE], v[1..], wrapLength));
    }
  }

  lemma FilledLast(t: Text, wrapLength: int)
    requires FilledWord(t, wrapLength) && |t| == wrapLength + 1
    ensures LineBodies(Rest([], [SPACE], t, wrapLength)) == [[]] + LineBodies(LaidOut(t, wrapLength))
  {
    assert t[wrapLength + 1..] == [];
    WordEndsInInk(t, wrapLength);
    FilledAlone(t, wrapLength);
    FilledBehind(t, wrapLength);
    AfterFilled(FirstWord(t), [], wrapLength);
    NothingAfterSpace(wrapLength);
  }

  /** So the question moves on to the next paragraph. */
  lemma FilledParagraph(t: Text, wrapLength: int)
    requires FilledWord(t, wrapLength) && wrapLength + 1 < |t| && t[wrapLength + 1] == NEWLINE
    ensures var u := t[wrapLength + 2..];
            LineBodies(Rest([], [SPACE], t, wrapLength)) == [[]] + LineBodies(LaidOut(t, wrapLength)) <==>
            LineBodies(Rest([], [SPACE], u, wrapLength)) == [[]] + LineBodies(LaidOut(u, wrapLength))
  {
    var r, v := FirstWord(t), t[wrapLength + 1..];
    assert v[1..] == t[wrapLength + 2..];
    WordEndsInInk(t, wrapLength);
    FilledAlone(t, wrapLength);
    BlankThenLines([], v, wrapLength);
    FilledBehind(t, wrapLength);
    AfterFilled(r, v, wrapLength);
    MovesOn(r, LineBodies(Rest([], [SPACE], v[1..], wrapLength)), LineBodies(LaidOut(v[1..], wrapLength)));
  }

  lemma MovesOn(r: Text, tail: seq<Text>, second: seq<Text>)
    ensures [[]] + ([r] + tail) == [[]] + ([r] + ([[]] + second)) <==> tail == [[]] + second
  {
    assert ([[]] + ([r] + tail))[2..] == tail;
    assert ([[]] + ([r] + ([[]] + second)))[2..] == [[]] + second;
  }

  lemma PlainAfter(t: Text, n: nat)
    requires Plain(t) && n <= |t|
    ensures Plain(t[n..])
  {
    var u := t[n..];
    forall i | 0 < i < |u| - 1 ensures !LoneNewline(u, i) {
      assert !LoneNewline(t, n + i);
    }
  }

  /** Behind a space a text comes out as on its own after a blank line exactly if its
      paragraphs fill their lines. */
  lemma {:induction false} SpaceBefore(t: Text, wrapLength: int)
    requires Plain(t) && (t == [] || t[0] != SPACE) && wrapLength > 0
    ensures LineBodies(Rest([], [SPACE], t, wrapLength)) == [[]] + LineBodies(LaidOut(t, wrapLength)) <==>
            FillsLines(t, wrapLength)
    decreases |t|
  {
    var n := |FirstWord(t)|;
    FirstWordIs(t);
    if t == [] {
      NothingAfterSpace(wrapLength);
    } else if t[0] == NEWLINE {
      BlankThenLines([SPACE], t, wrapLength);
      BlankThenLines([], t, wrapLength);
      BlankFirst([], LineBodies(LaidOut(t, wrapLength)), LineBodies(LaidOut(t, wrapLength)));
    } else if n != wrapLength || n == |t| || t[n] == SPACE {
      SpaceBeforeWord(t, wrapLength);
    } else if n + 1 == |t| {
      FilledLast(t, wrapLength);
    } else {
      assert !LoneNewline(t, n);
      PlainAfter(t, n + 2);
      SpaceBefore(t[n + 2..], wrapLength);
      FilledParagraph(t, wrapLength);
    }
  }

  /** Where the first word's length alone decides. */
  lemma SpaceBeforeWord(t: Text, wrapLength: int)
    requires Opens(t) && (|FirstWord(t)| == wrapLength ==> FillsLine(t, wrapLength))
    ensures LineBodies(Rest([], [SPACE], t, wrapLength)) == [[]] + LineBodies(LaidOut(t, wrapLength)) <==>
            |FirstWord(t)| == wrapLength
  {
    var tail, alone := LineBodies(Rest([], [SPACE], t, wrapLength)), LineBodies(LaidOut(t, wrapLength));
    if |FirstWord(t)| > wrapLength {
      WordTooLong(t, wrapLength);
      assert |tail| != |[[]] + alone|;
    } else if |FirstWord(t)| == wrapLength {
      WordThatFills(t, wrapLength);
    } else {
      WordThatFits([SPACE], t, wrapLength);
      assert tail[0] != ([[]] + alone)[0];
    }
  }

  lemma BlankFirst(first: seq<Text>, tail: seq<Text>, second: seq<Text>)
    ensures first + tail == first + [[]] + second <==> tail == [[]] + second
    ensures tail == second ==> tail != [[]] + second
  {
    assert first + [[]] + second == first + ([[]] + second);
    assert (first + tail)[|first|..] == tail;
    assert (first + ([[]] + second))[|first|..] == [[]] + second;
    assert |[[]] + second| == |second| + 1;
  }

  // ---------------------------------------------------------- two paragraphs

  /** The text ends in ink. */
  predicate Closes(p: Text) {
    p != [] && !IsWhite(p[|p| - 1])
  }

  /** Two texts with an empty line between them. */
  function Apart(p: Text, q: Text): Text {
    p + [NEWLINE, NEWLINE] + q
  }

  /** The first pass works on each of them alone. */
  lemma CollapsedApart(p: Text, q: Text)
    requires Closes(p) && Opens(q)
    ensures Collapsed(Apart(p, q)) == Collapsed(p) + [NEWLINE, NEWLINE] + Collapsed(q)
    ensures Closes(Collapsed(p)) && Opens(Collapsed(q))
  {
    var t, n := Apart(p, q), |p|;
    forall i | 0 <= i < |t|
      ensures Collapsed(t)[i] == (Collapsed(p) + [NEWLINE, NEWLINE] + Collapsed(q))[i]
    {
      if i < n {
        assert t[i] == p[i] && (i + 1 < n ==> t[i + 1] == p[i + 1]) && (i > 0 ==> t[i - 1] == p[i - 1]);
      } else if n + 2 <= i {
        var j := i - n - 2;
        assert t[i] == q[j] && (j + 1 < |q| ==> t[i + 1] == q[j + 1]) && (j > 0 ==> t[i - 1] == q[j - 1]);
      }
    }
  }

  /** The wrapper has the last ink of what it has read in its word. */
  lemma WordHasInk(t: Text, wrapLength: int)
    requires Closes(t)
    ensures Inked(Wrapped(t, wrapLength).word)
  {
    var w := Wrapped(t, wrapLength);
    assert w.word[|w.word| - 1] == t[|t| - 1];
  }

  /** Both paragraphs come out as they do alone, with a blank line between them. */
  predicate StayApart(p: Text, q: Text, wrapLength: int) {
    LineBodies(Layout(Apart(p, q), wrapLength)) ==
    LineBodies(Layout(p, wrapLength)) + [[]] + LineBodies(Layout(q, wrapLength))
  }

  /** The second paragraph begins on the very line after the first. */
  predicate RunOn(p: Text, q: Text, wrapLength: int) {
    var first, all := LineBodies(Layout(p, wrapLength)), LineBodies(Layout(Apart(p, q), wrapLength));
    |first| < |all| && all[..|first|] == first && all[|first|] != []
  }

  lemma LaidOutApart(s: Text, t: Text, wrapLength: int)
    ensures var w := Wrapped(s, wrapLength);
            var v := Feed(Feed(w, NEWLINE, wrapLength), NEWLINE, wrapLength);
            LaidOut(Apart(s, t), wrapLength) == v.pieces + Rest(v.line, v.word, t, wrapLength)
  {
    var w := Wrapped(s, wrapLength);
    var two := [NEWLINE, NEWLINE];
    assert Apart(s, t) == (s + two) + t && two == [NEWLINE] + [NEWLINE];
    FromAppend(FRESH, s + two, t, wrapLength);
    FromAppend(FRESH, s, two, wrapLength);
    FromAppend(w, [NEWLINE], [NEWLINE], wrapLength);
    FromOne(w, NEWLINE, wrapLength);
    FromOne(Feed(w, NEWLINE, wrapLength), NEWLINE, wrapLength);
    RestOf(From(FRESH, s + two, wrapLength), t, wrapLength);
  }

  lemma TwoNewlinesFit(w: Wrapper, wrapLength: int)
    requires !TooLong(w, wrapLength) && w.word != []
    ensures Feed(Feed(w, NEWLINE, wrapLength), NEWLINE, wrapLength) ==
            Wrapper(w.pieces + [Piece(w.line + w.word, AtNewline)] + [Piece([], AtNewline)], [], [])
  {
    var fed := Feed(w, NEWLINE, wrapLength);
    assert fed.line + fed.word == [];
  }

  lemma EndsWithLine(w: Wrapper, wrapLength: int)
    requires !TooLong(w, wrapLength) && w.word != []
    ensures LineBodies(Ended(w, wrapLength)) == LineBodies(w.pieces + [Piece(w.line + w.word, AtNewline)])
  {
    assert Ended(w, wrapLength) == w.pieces + [Piece(w.line + w.word, AtEnd)];
    LineBodiesAppend(w.pieces, [Piece(w.line + w.word, AtNewline)]);
    LineBodiesAppend(w.pieces, [Piece(w.line + w.word, AtEnd)]);
    OneLine(Piece(w.line + w.word, AtNewline));
    OneLine(Piece(w.line + w.word, AtEnd));
  }

  /** A first paragraph whose end fits is put out with a blank line after it. */
  lemma ApartIfFits(s: Text, t: Text, wrapLength: int)
    requires Closes(s) && !TooLong(Wrapped(s, wrapLength), wrapLength)
    ensures LineBodies(LaidOut(Apart(s, t), wrapLength)) ==
            LineBodies(LaidOut(s, wrapLength)) + [[]] + LineBodies(LaidOut(t, wrapLength))
  {
    var w := Wrapped(s, wrapLength);
    WordHasInk(s, wrapLength);
    LaidOutApart(s, t, wrapLength);
    TwoNewlinesFit(w, wrapLength);
    EndsWithLine(w, wrapLength);
    TrimBlank([]);
    var before := w.pieces + [Piece(w.line + w.word, AtNewline)];
    LineBodiesAppend(before + [Piece([], AtNewline)], LaidOut(t, wrapLength));
    LineBodiesAppend(before, [Piece([], AtNewline)]);
    OneLine(Piece([], AtNewline));
  }

  /** Where two newlines leave the wrapper if line and word are too long: after a space if
      the word takes up a line, afresh if it does not. */
  lemma TwoNewlinesTooLong(w: Wrapper, wrapLength: int)
    requires TooLong(w, wrapLength)
    ensures var before := w.pieces + [Piece(w.line, Overflow(w.word))];
            var last := Trim(w.word);
            Feed(Feed(w, NEWLINE, wrapLength), NEWLINE, wrapLength) ==
            if |last| >= wrapLength then Wrapper(before + [Piece(last, Overflow([SPACE]))], [], [SPACE])
            else Wrapper(before + [Piece(last + [SPACE], AtNewline)], [], [])
  {
    TrimBlank([SPACE]);
  }

  lemma EndsWithWord(w: Wrapper, wrapLength: int, last: Piece)
    requires TooLong(w, wrapLength) && Inked(w.word) && Body(last) == Trim(w.word)
    ensures LineBodies(Ended(w, wrapLength)) == LineBodies(w.pieces + [Piece(w.line, Overflow(w.word))] + [last])
  {
    var before := w.pieces + [Piece(w.line, Overflow(w.word))];
    TrimSpaces(w.word);
    var _, _ := InkEnds(w.word);
    assert Ended(w, wrapLength) == before + [Piece(Trim(w.word), AtEnd)];
    LineBodiesAppend(before, [Piece(Trim(w.word), AtEnd)]);
    LineBodiesAppend(before, [last]);
  }

  /** After a first paragraph whose end does not fit the second begins at once. */
  lemma RunsOnIfTooLong(s: Text, t: Text, wrapLength: int)
    requires Closes(s) && TooLong(Wrapped(s, wrapLength), wrapLength)
    ensures LineBodies(LaidOut(Apart(s, t), wrapLength)) ==
            LineBodies(LaidOut(s, wrapLength)) +
            LineBodies(if |Trim(Wrapped(s, wrapLength).word)| >= wrapLength then Rest([], [SPACE], t, wrapLength)
                       else LaidOut(t, wrapLength))
  {
    var w := Wrapped(s, wrapLength);
    var last := Trim(w.word);
    WordHasInk(s, wrapLength);
    TrimSpaces(w.word);
    LaidOutApart(s, t, wrapLength);
    TwoNewlinesTooLong(w, wrapLength);
    var before := w.pieces + [Piece(w.line, Overflow(w.word))];
    if |last| >= wrapLength {
      EndsWithWord(w, wrapLength, Piece(last, Overflow([SPACE])));
      LineBodiesAppend(before + [Piece(last, Overflow([SPACE]))], Rest([], [SPACE], t, wrapLength));
    } else {
      EndsWithWord(w, wrapLength, Piece(last + [SPACE], AtNewline));
      LineBodiesAppend(before + [Piece(last + [SPACE], AtNewline)], LaidOut(t, wrapLength));
    }
  }

  /** The last word of `p` takes up a line. */
  predicate LastWordFills(p: Text, wrapLength: int) {
    |Trim(Wrapped(Collapsed(p), wrapLength).word)| >= wrapLength
  }

  /**
   When two paragraphs stay apart.  `p` ends in ink and `q` begins with it; what is left
   out is a first word of `q` as long as a line, in a `q` with tabs or indented paragraphs
   (`Plain`), and then only if the word ends in white space or at a newline.  The blank
   line comes out if and only if the last line and word of `p` still fit together, or the
   last word of `p` and the paragraphs of `q` all fill their lines.
   */
  lemma ParagraphsStayApartExactly(p: Text, q: Text, wrapLength: int)
    requires Closes(p) && Opens(q)
    requires Plain(Collapsed(q)) || |FirstWord(q)| != wrapLength || FillsLine(Collapsed(q), wrapLength)
    ensures StayApart(p, q, wrapLength) <==>
            || !TooLong(Wrapped(Collapsed(p), wrapLength), wrapLength)
            || (LastWordFills(p, wrapLength) && FillsLines(Collapsed(q), wrapLength))
  {
    var s, t := Collapsed(p), Collapsed(q);
    CollapsedApart(p, q);
    FirstWordCollapsed(q);
    if !TooLong(Wrapped(s, wrapLength), wrapLength) {
      ApartIfFits(s, t, wrapLength);
    } else {
      RunsOnIfTooLong(s, t, wrapLength);
      var filled := LastWordFills(p, wrapLength);
      var tail := LineBodies(if filled then Rest([], [SPACE], t, wrapLength) else LaidOut(t, wrapLength));
      BlankFirst(LineBodies(LaidOut(s, wrapLength)), tail, LineBodies(LaidOut(t, wrapLength)));
      if filled {
        SpaceBeforeOpening(t, wrapLength);
      }
    }
  }

  lemma SpaceBeforeOpening(t: Text, wrapLength: int)
    requires Opens(t)
    requires Plain(t) || |FirstWord(t)| != wrapLength || FillsLine(t, wrapLength)
    ensures LineBodies(Rest([], [SPACE], t, wrapLength)) == [[]] + LineBodies(LaidOut(t, wrapLength)) <==>
            FillsLines(t, wrapLength)
  {
    if |FirstWord(t)| != wrapLength || FillsLine(t, wrapLength) {
      SpaceBeforeWord(t, wrapLength);
    } else {
      OpensWithWord(t);
      SpaceBefore(t, wrapLength);
    }
  }

  /** A second paragraph whose first word is shorter than a line is either kept apart or
      begins on the very next line, and which of the two is decided by the first alone. */
  lemma ApartOrRunOn(p: Text, q: Text, wrapLength: int)
    requires Closes(p) && Opens(q) && |FirstWord(q)| < wrapLength
    ensures StayApart(p, q, wrapLength) <==> !TooLong(Wrapped(Collapsed(p), wrapLength), wrapLength)
    ensures RunOn(p, q, wrapLength) <==> TooLong(Wrapped(Collapsed(p), wrapLength), wrapLength)
  {
    var s, t := Collapsed(p), Collapsed(q);
    ParagraphsStayApartExactly(p, q, wrapLength);
    CollapsedApart(p, q);
    FirstWordCollapsed(q);
    if TooLong(Wrapped(s, wrapLength), wrapLength) {
      RunsOnIfTooLong(s, t, wrapLength);
      WordThatFits([SPACE], t, wrapLength);
      WordThatFits([], t, wrapLength);
    }
  }

  /** A word of ink, and nothing else. */
  predicate IsWord(word: Text) {
    word != [] && forall i :: 0 <= i < |word| ==> !IsWhite(word[i])
  }

  lemma WordIsWrapped(w: Wrapper, word: Text, wrapLength: int)
    requires IsWord(word)
    ensures Closes(word) && Opens(word) && Collapsed(word) == word && Trim(word) == word
    ensures From(w, word, wrapLength) == w.(word := w.word + word)
  {
    NoBreak(w, word, wrapLength);
    TrimUnique(word, 0, |word|);
  }

  /** After a first paragraph that is one word longer than a line the second one runs on. */
  lemma LongWordRunsOn(word: Text, q: Text, wrapLength: int)
    requires IsWord(word) && |word| > wrapLength && Opens(q) && |FirstWord(q)| < wrapLength
    ensures RunOn(word, q, wrapLength) && !StayApart(word, q, wrapLength)
  {
    WordIsWrapped(FRESH, word, wrapLength);
    ApartOrRunOn(word, q, wrapLength);
  }

  lemma ShortWordAlone(blank: Text, word: Text, wrapLength: int)
    requires IsWord(word) && (blank == [] || blank == [SPACE]) && |blank| + |word| <= wrapLength
    ensures LineBodies(Rest([], blank, word, wrapLength)) == [word]
  {
    WordIsWrapped(Wrapper([], [], blank), word, wrapLength);
    ShortWord(blank + word, [], wrapLength);
    TrimUnique(blank + word, |blank|, |blank| + |word|);
  }

  lemma LongWordAlone(word: Text, wrapLength: int)
    requires IsWord(word) && |word| > wrapLength
    ensures LineBodies(LaidOut(word, wrapLength)) == [[], word]
  {
    WordIsWrapped(FRESH, word, wrapLength);
    assert [] + word == word;
    RestAtEnd([], word, wrapLength);
    TrimBlank([]);
    OneLine(Piece(word, AtEnd));
    LineBodiesCons(Piece([], Overflow(word)), [Piece(word, AtEnd)]);
  }

  /** A short word after a long one. */
  lemma TwoWords(word: Text, short: Text, wrapLength: int)
    requires IsWord(word) && IsWord(short) && |short| < wrapLength < |word|
    ensures LineBodies(LaidOut(Apart(word, short), wrapLength)) == [[], word] + [short]
  {
    WordIsWrapped(FRESH, word, wrapLength);
    LongWordAlone(word, wrapLength);
    ShortWordAlone([SPACE], short, wrapLength);
    RunsOnIfTooLong(word, short, wrapLength);
  }

  const ABCD: Text := [97, 98, 99, 100]
  const EF: Text := [101, 102]

  /** Two paragraphs that come out without the line between them. */
  lemma BreakLost()
    ensures LineBodies(Layout(ABCD, 3)) == [[], ABCD] && LineBodies(Layout(EF, 3)) == [EF]
    ensures LineBodies(Layout(Apart(ABCD, EF), 3)) == [[], ABCD, EF]
    ensures !StayApart(ABCD, EF, 3)
  {
    WordIsWrapped(FRESH, ABCD, 3);
    WordIsWrapped(FRESH, EF, 3);
    LongWordAlone(ABCD, 3);
    ShortWordAlone([], EF, 3);
    CollapsedApart(ABCD, EF);
    TwoWords(ABCD, EF, 3);
    assert [[], ABCD] + [EF] == [[], ABCD, EF];
    assert |[[], ABCD] + [[]] + [EF]| == 4;
  }

  // ------------------------------------------------------ in the output itself

  lemma {:induction false} SameBodiesRender(prefix: Text, a: seq<Piece>, b: seq<Piece>)
    requires LineBodies(a) == LineBodies(b)
    ensures Rendered(prefix, a) == Rendered(prefix, b)
  {
    assert |a| == |LineBodies(a)| == |b|;
    if a == [] {
    } else {
      var n := |a| - 1;
      assert LineBodies(a[..n]) == LineBodies(a)[..n] && LineBodies(b[..n]) == LineBodies(b)[..n];
      SameBodiesRender(prefix, a[..n], b[..n]);
      assert Body(a[n]) == LineBodies(a)[n] == LineBodies(b)[n] == Body(b[n]);
    }
  }

  lemma {:induction false} RenderedAppend(prefix: Text, a: seq<Piece>, b: seq<Piece>)
    ensures Rendered(prefix, a + b) == Rendered(prefix, a) + Rendered(prefix, b)
  {
    if b == [] {
      assert a + b == a;
    } else {
      var n := |b| - 1;
      assert (a + b)[..|a + b| - 1] == a + b[..n];
      RenderedAppend(prefix, a, b[..n]);
      Associative(Rendered(prefix, a), Rendered(prefix, b[..n]), FullLine(prefix, b[n]));
    }
  }

  lemma RenderingShowsBodies(prefix: Text, a: seq<Piece>, b: seq<Piece>)
    requires NEWLINE !in prefix
    requires (forall x :: x in a ==> NEWLINE !in Body(x)) && (forall x :: x in b ==> NEWLINE !in Body(x))
    ensures Rendered(prefix, a) == Rendered(prefix, b) <==> LineBodies(a) == LineBodies(b)
  {
    if Rendered(prefix, a) == Rendered(prefix, b) {
      SplitRendered(prefix, a);
      SplitRendered(prefix, b);
      var lines := Lines(prefix, a);
      assert (lines + [[]])[..|lines|] == (Lines(prefix, b) + [[]])[..|Lines(prefix, b)|];
      assert lines == Lines(prefix, b);
      forall i | 0 <= i < |a| ensures Body(a[i]) == Body(b[i]) {
        assert lines[i][|prefix|..] == Body(a[i]) && Lines(prefix, b)[i][|prefix|..] == Body(b[i]);
      }
    } else {
      if LineBodies(a) == LineBodies(b) {
        SameBodiesRender(prefix, a, b);
      }
    }
  }

  lemma OutputIsLines(prefix: Text, text: Text, wrapLength: int)
    requires prefix != []
    ensures Output(prefix, text, wrapLength) == Rendered(prefix, Layout(text, wrapLength))
    ensures forall p :: p in Layout(text, wrapLength) ==> NEWLINE !in Body(p)
  {
    OutputIsRendered(prefix, Layout(text, wrapLength));
    LayoutIsWellCut(text, wrapLength);
  }

  lemma BlankBetween(prefix: Text, first: seq<Piece>, second: seq<Piece>)
    ensures var blank := Piece([], AtEnd);
            && LineBodies(first + [blank] + second) == LineBodies(first) + [[]] + LineBodies(second)
            && Rendered(prefix, first + [blank] + second) ==
               Rendered(prefix, first) + (prefix + [NEWLINE]) + Rendered(prefix, second)
  {
    var blank := Piece([], AtEnd);
    TrimBlank([]);
    LineBodiesAppend(first + [blank], second);
    LineBodiesAppend(first, [blank]);
    RenderedAppend(prefix, first + [blank], second);
    assert (first + [blank])[..|first|] == first;
    assert FullLine(prefix, blank) == prefix + [NEWLINE];
  }

  /** Paragraphs stay apart exactly when the output is the two outputs with a line between
      them that holds the prefix alone. */
  lemma StayApartInOutput(prefix: Text, p: Text, q: Text, wrapLength: int)
    requires prefix != [] && NEWLINE !in prefix
    ensures StayApart(p, q, wrapLength) <==>
            Output(prefix, Apart(p, q), wrapLength) ==
            Output(prefix, p, wrapLength) + (prefix + [NEWLINE]) + Output(prefix, q, wrapLength)
  {
    var first, second := Layout(p, wrapLength), Layout(q, wrapLength);
    OutputIsLines(prefix, Apart(p, q), wrapLength);
    OutputIsLines(prefix, p, wrapLength);
    OutputIsLines(prefix, q, wrapLength);
    BlankBetween(prefix, first, second);
    var between := first + [Piece([], AtEnd)] + second;
    forall x | x in between ensures NEWLINE !in Body(x) {
      TrimBlank([]);
      assert x in first || x in second || x == Piece([], AtEnd);
    }
    RenderingShowsBodies(prefix, Layout(Apart(p, q), wrapLength), between);
  }
}
