/**
 `formatComment`: the newline pass and the word wrapper.
 */
module CommentFormat {
  import opened CodeUnits

  // ------------------------------------------------------- the newline pass

  /** An interior newline with no newline beside it. */
  predicate LoneNewline(text: Text, i: nat)
    requires i < |text|
  {
    0 < i < |text| - 1 && text[i] == NEWLINE && text[i - 1] != NEWLINE && text[i + 1] != NEWLINE
  }

  function Collapsed(text: Text): Text {
    seq(|text|, i requires 0 <= i < |text| => if LoneNewline(text, i) then SPACE else text[i])
  }

  /** The pass rewrites the text it is reading, yet decides every position by the original. */
  method CollapseNewlines(text: Text) returns (textValue: Text)
    ensures textValue == Collapsed(text)
    ensures |textValue| == |text| && forall i :: 0 <= i < |text| ==>
              textValue[i] == if 0 < i < |text| - 1 && text[i] == 10 && text[i - 1] != 10 && text[i + 1] != 10 then 32
                              else text[i]
  {
    textValue := text;
    var i := 1;
    while i < |textValue| - 1
      invariant |textValue| == |text| && 1 <= i
      invariant forall j :: 0 <= j < |text| && j < i ==> textValue[j] == Collapsed(text)[j]
      invariant forall j :: i <= j < |text| ==> textValue[j] == text[j]
    {
      if textValue[i] == NEWLINE && textValue[i - 1] != NEWLINE && textValue[i + 1] != NEWLINE {
        textValue := textValue[..i] + [SPACE] + textValue[i + 1..];
      }
      i := i + 1;
    }
  }

  /** Of a run of newlines the first pass leaves every one. */
  lemma RunsOfNewlinesSurvive(text: Text, i: nat)
    requires i + 1 < |text| && text[i] == text[i + 1] == NEWLINE
    ensures Collapsed(text)[i] == NEWLINE && Collapsed(text)[i + 1] == NEWLINE
  {
  }

  // -------------------------------------------------------------- the wrapper

  /** Why a line ended: at a newline, because the next word did not fit, or at the end. */
  datatype Why = AtNewline | Overflow(next: Text) | AtEnd

  /** One output line, before trimming. */
  datatype Piece = Piece(raw: Text, why: Why)

  /** The wrapper's state: the lines it has put out, and the line and the word it is building. */
  datatype Wrapper = Wrapper(pieces: seq<Piece>, line: Text, word: Text)

  const FRESH := Wrapper([], [], [])

  function Trim(t: Text): Text {
    TrimBy(t, IsWhite)
  }

  predicate TooLong(w: Wrapper, wrapLength: int) {
    |w.line| + |w.word| > wrapLength
  }

  function Feed(w: Wrapper, c: Unit, wrapLength: int): Wrapper {
    if c != SPACE && c != NEWLINE then Wrapper(w.pieces, w.line, w.word + [c])
    else if TooLong(w, wrapLength) then
      Wrapper(w.pieces + [Piece(w.line, Overflow(w.word))], Trim(w.word), [SPACE])
    else if c == NEWLINE then
      Wrapper(w.pieces + [Piece(w.line + w.word, AtNewline)], [], [])
    else Wrapper(w.pieces, w.line + w.word, [c])
  }

  function From(w: Wrapper, text: Text, wrapLength: int): Wrapper {
    if text == [] then w
    else Feed(From(w, text[..|text| - 1], wrapLength), text[|text| - 1], wrapLength)
  }

  function Wrapped(text: Text, wrapLength: int): Wrapper {
    From(FRESH, text, wrapLength)
  }

  /** The last word, after the loop. */
  function Settled(w: Wrapper, wrapLength: int): Wrapper {
    if TooLong(w, wrapLength) then
      Wrapper(w.pieces + [Piece(w.line, Overflow(w.word))], Trim(w.word), [])
    else Wrapper(w.pieces, w.line + w.word, [])
  }

  function Finished(w: Wrapper): seq<Piece> {
    if |w.line| > 0 then w.pieces + [Piece(w.line, AtEnd)] else w.pieces
  }

  function Ended(w: Wrapper, wrapLength: int): seq<Piece> {
    Finished(Settled(w, wrapLength))
  }

  /** The lines the wrapper makes of a text. */
  function LaidOut(text: Text, wrapLength: int): seq<Piece> {
    Ended(Wrapped(text, wrapLength), wrapLength)
  }

  /** The lines `formatComment` lays a text out in. */
  function Layout(text: Text, wrapLength: int): seq<Piece> {
    LaidOut(Collapsed(text), wrapLength)
  }

  /** `comment`, built up as the code does: a separator unless nothing is there yet. */
  function Comment(prefix: Text, pieces: seq<Piece>): Text {
    if pieces == [] then []
    else Appended(Comment(prefix, pieces[..|pieces| - 1]), prefix + Trim(pieces[|pieces| - 1].raw))
  }

  function Appended(comment: Text, line: Text): Text {
    (if |comment| > 0 then comment + [NEWLINE] else comment) + line
  }

  function Terminated(comment: Text): Text {
    if |comment| > 0 then comment + [NEWLINE] else comment
  }

  /** What `formatComment` returns for a text that is given; an undefined one yields the empty
      string. */
  function Output(prefix: Text, text: Text, wrapLength: int): Text {
    Terminated(Comment(prefix, Layout(text, wrapLength)))
  }

  lemma CommentSnoc(prefix: Text, pieces: seq<Piece>, p: Piece)
    ensures Comment(prefix, pieces + [p]) == Appended(Comment(prefix, pieces), prefix + Trim(p.raw))
  {
    assert (pieces + [p])[..|pieces|] == pieces;
  }

  /** What feeding one unit does to the comment. */
  lemma CommentFed(prefix: Text, w: Wrapper, c: Unit, wrapLength: int)
    ensures Comment(prefix, Feed(w, c, wrapLength).pieces) ==
            if c != SPACE && c != NEWLINE then Comment(prefix, w.pieces)
            else if TooLong(w, wrapLength) then Appended(Comment(prefix, w.pieces), prefix + Trim(w.line))
            else if c == NEWLINE then Appended(Comment(prefix, w.pieces), prefix + Trim(w.line + w.word))
            else Comment(prefix, w.pieces)
  {
    CommentSnoc(prefix, w.pieces, Piece(w.line, Overflow(w.word)));
    CommentSnoc(prefix, w.pieces, Piece(w.line + w.word, AtNewline));
  }

  /** And what the end of the text does. */
  lemma CommentSettled(prefix: Text, w: Wrapper, wrapLength: int)
    ensures Comment(prefix, Settled(w, wrapLength).pieces) ==
            if TooLong(w, wrapLength) then Appended(Comment(prefix, w.pieces), prefix + Trim(w.line))
            else Comment(prefix, w.pieces)
  {
    CommentSnoc(prefix, w.pieces, Piece(w.line, Overflow(w.word)));
  }

  lemma WrappedSnoc(text: Text, i: nat, wrapLength: int)
    requires i < |text|
    ensures Wrapped(text[..i + 1], wrapLength) == Feed(Wrapped(text[..i], wrapLength), text[i], wrapLength)
  {
    assert text[..i + 1][..i] == text[..i];
  }

  method Append(comment: Text, line: Text) returns (longer: Text)
    ensures longer == Appended(comment, line)
  {
    longer := comment;
    if |longer| > 0 {
      longer := longer + [NEWLINE];
    }
    longer := longer + line;
  }

  /** `formatComment`. */
  method FormatComment(prefix: Text, text: Text, wrapLength: int := 80) returns (comment: Text)
    ensures comment == Output(prefix, text, wrapLength)
  {
    var textValue := CollapseNewlines(text);
    comment := [];
    var line: Text, word: Text := [], [];
    ghost var w := FRESH;
    var i := 0;
    while i < |textValue|
      invariant 0 <= i <= |textValue|
      invariant w == Wrapped(textValue[..i], wrapLength)
      invariant line == w.line && word == w.word && comment == Comment(prefix, w.pieces)
    {
      var c := textValue[i];
      WrappedSnoc(textValue, i, wrapLength);
      CommentFed(prefix, w, c, wrapLength);
      w := Feed(w, c, wrapLength);
      if c == SPACE || c == NEWLINE {
        if |line| + |word| > wrapLength {
          comment := Append(comment, prefix + Trim(line));
          line := Trim(word);
          word := [SPACE];
        } else if c == NEWLINE {
          line := line + word;
          comment := Append(comment, prefix + Trim(line));
          line, word := [], [];
        } else {
          line := line + word;
          word := [c];
        }
      } else {
        word := word + [c];
      }
      i := i + 1;
    }
    assert textValue[..i] == textValue;
    CommentSettled(prefix, w, wrapLength);
    w := Settled(w, wrapLength);
    if |line| + |word| > wrapLength {
      comment := Append(comment, prefix + Trim(line));
      line := Trim(word);
    } else {
      line := line + word;
    }
    CommentSnoc(prefix, w.pieces, Piece(line, AtEnd));
    if |line| > 0 {
      comment := Append(comment, prefix + Trim(line));
    }
    if |comment| > 0 {
      comment := comment + [NEWLINE];
    }
  }

  // -------------------------------------------------- what the output is like

  function Body(p: Piece): Text {
    Trim(p.raw)
  }

  function FullLine(prefix: Text, p: Piece): Text {
    prefix + Body(p) + [NEWLINE]
  }

  /** One full line per piece. */
  function Rendered(prefix: Text, pieces: seq<Piece>): Text {
    if pieces == [] then []
    else Rendered(prefix, pieces[..|pieces| - 1]) + FullLine(prefix, pieces[|pieces| - 1])
  }

  lemma {:induction false} CommentIsRendered(prefix: Text, pieces: seq<Piece>)
    requires pieces != [] && (prefix != [] || Body(pieces[0]) != [])
    ensures |Comment(prefix, pieces)| > 0
    ensures Comment(prefix, pieces) + [NEWLINE] == Rendered(prefix, pieces)
  {
    var init := pieces[..|pieces| - 1];
    if init == [] {
    } else {
      CommentIsRendered(prefix, init);
    }
  }

  lemma {:induction false} CommentIsNoLonger(prefix: Text, pieces: seq<Piece>)
    ensures |Terminated(Comment(prefix, pieces))| <= |Rendered(prefix, pieces)|
    ensures pieces != [] && prefix == [] && Body(pieces[0]) == [] ==>
              |Terminated(Comment(prefix, pieces))| < |Rendered(prefix, pieces)|
  {
    if pieces == [] {
    } else {
      var init := pieces[..|pieces| - 1];
      CommentIsNoLonger(prefix, init);
      assert init != [] ==> init[0] == pieces[0];
    }
  }

  /** The output is one full line per piece exactly when the prefix is not empty or there
      is no blank first line for an empty prefix to swallow. */
  lemma OutputIsRendered(prefix: Text, pieces: seq<Piece>)
    ensures Terminated(Comment(prefix, pieces)) == Rendered(prefix, pieces) <==>
            prefix != [] || pieces == [] || Body(pieces[0]) != []
  {
    if pieces != [] {
      if prefix != [] || Body(pieces[0]) != [] {
        CommentIsRendered(prefix, pieces);
      } else {
        CommentIsNoLonger(prefix, pieces);
      }
    }
  }

  // ----------------------------------------------------- nothing is lost

  predicate IsInk(c: Unit) { !IsWhite(c) }

  function Ink(t: Text): Text {
    Keep(t, IsInk)
  }

  function AllInk(pieces: seq<Piece>): Text {
    if pieces == [] then [] else AllInk(pieces[..|pieces| - 1]) + Ink(pieces[|pieces| - 1].raw)
  }

  function Bodies(pieces: seq<Piece>): Text {
    if pieces == [] then [] else Bodies(pieces[..|pieces| - 1]) + Body(pieces[|pieces| - 1])
  }

  lemma AllInkSnoc(pieces: seq<Piece>, p: Piece)
    ensures AllInk(pieces + [p]) == AllInk(pieces) + Ink(p.raw)
  {
    assert (pieces + [p])[..|pieces|] == pieces;
  }

  lemma InkTrim(t: Text)
    ensures Ink(Trim(t)) == Ink(t)
  {
    KeepTrim(t, IsWhite, IsInk);
  }

  /** Ink in the lines put out, the line and the word, together. */
  function InkSoFar(w: Wrapper): Text {
    AllInk(w.pieces) + Ink(w.line) + Ink(w.word)
  }

  lemma InkFlushed(w: Wrapper, wrapLength: int)
    requires TooLong(w, wrapLength)
    ensures InkSoFar(Feed(w, SPACE, wrapLength)) == InkSoFar(w)
    ensures InkSoFar(Feed(w, NEWLINE, wrapLength)) == InkSoFar(w)
  {
    KeepOne(SPACE, IsInk);
    AllInkSnoc(w.pieces, Piece(w.line, Overflow(w.word)));
    InkTrim(w.word);
  }

  lemma InkMoved(w: Wrapper, wrapLength: int)
    requires !TooLong(w, wrapLength)
    ensures InkSoFar(Feed(w, SPACE, wrapLength)) == InkSoFar(w)
    ensures InkSoFar(Feed(w, NEWLINE, wrapLength)) == InkSoFar(w)
  {
    KeepOne(SPACE, IsInk);
    KeepAppend(w.line, w.word, IsInk);
    Associative(AllInk(w.pieces), Ink(w.line), Ink(w.word));
    AllInkSnoc(w.pieces, Piece(w.line + w.word, AtNewline));
  }

  lemma InkFed(w: Wrapper, c: Unit, wrapLength: int)
    ensures InkSoFar(Feed(w, c, wrapLength)) == InkSoFar(w) + Ink([c])
  {
    KeepOne(c, IsInk);
    if c != SPACE && c != NEWLINE {
      KeepAppend(w.word, [c], IsInk);
      Associative(AllInk(w.pieces) + Ink(w.line), Ink(w.word), Ink([c]));
    } else if TooLong(w, wrapLength) {
      InkFlushed(w, wrapLength);
    } else {
      InkMoved(w, wrapLength);
    }
  }

  lemma {:induction false} InkWrapped(text: Text, wrapLength: int)
    ensures InkSoFar(Wrapped(text, wrapLength)) == Ink(text)
  {
    if text == [] {
    } else {
      var init, c := text[..|text| - 1], text[|text| - 1];
      InkWrapped(init, wrapLength);
      InkFed(Wrapped(init, wrapLength), c, wrapLength);
      KeepAppend(init, [c], IsInk);
      assert text == init + [c];
    }
  }

  lemma {:induction false} InkSame(t: Text, u: Text)
    requires |t| == |u| && forall i :: 0 <= i < |t| ==> t[i] == u[i] || (IsWhite(t[i]) && IsWhite(u[i]))
    ensures Ink(t) == Ink(u)
  {
    if t == [] {
    } else {
      InkSame(t[1..], u[1..]);
    }
  }

  lemma {:induction false} InkOfBodies(pieces: seq<Piece>)
    ensures Ink(Bodies(pieces)) == AllInk(pieces)
  {
    if pieces == [] {
    } else {
      var init := pieces[..|pieces| - 1];
      InkOfBodies(init);
      KeepAppend(Bodies(init), Body(pieces[|pieces| - 1]), IsInk);
      InkTrim(pieces[|pieces| - 1].raw);
    }
  }

  /** Behind the prefixes the output holds the text's non-white units, all of them, in order. */
  lemma InkKept(text: Text, wrapLength: int)
    ensures Ink(Bodies(Layout(text, wrapLength))) == Ink(text)
  {
    var w := Wrapped(Collapsed(text), wrapLength);
    InkWrapped(Collapsed(text), wrapLength);
    InkSame(Collapsed(text), text);
    var s := Settled(w, wrapLength);
    if TooLong(w, wrapLength) {
      AllInkSnoc(w.pieces, Piece(w.line, Overflow(w.word)));
      InkTrim(w.word);
    } else {
      KeepAppend(w.line, w.word, IsInk);
    }
    assert AllInk(s.pieces) + Ink(s.line) == Ink(text);
    AllInkSnoc(s.pieces, Piece(s.line, AtEnd));
    InkOfBodies(Layout(text, wrapLength));
  }

  // ------------------------------------------------- every line is well cut

  /** At most `wrapLength` long, or without a space to break at. */
  predicate Fitting(t: Text, wrapLength: int) {
    |t| <= wrapLength || SPACE !in t
  }

  /** A break for lack of room is forced, and what did not fit opens the next line. */
  predicate Forced(pieces: seq<Piece>, i: nat, wrapLength: int, after: Text)
    requires i < |pieces|
  {
    pieces[i].why.Overflow? ==>
      && |pieces[i].raw| + |pieces[i].why.next| > wrapLength
      && Trim(pieces[i].why.next) <= (if i + 1 < |pieces| then pieces[i + 1].raw else after)
  }

  predicate WellCut(pieces: seq<Piece>, wrapLength: int, after: Text) {
    forall i :: 0 <= i < |pieces| ==>
      && Fitting(pieces[i].raw, wrapLength)
      && NEWLINE !in pieces[i].raw
      && Forced(pieces, i, wrapLength, after)
  }

  predicate WrapperOk(w: Wrapper, wrapLength: int) {
    && WellCut(w.pieces, wrapLength, w.line)
    && Fitting(w.line, wrapLength)
    && NEWLINE !in w.line && NEWLINE !in w.word
    && (forall i :: 0 < i < |w.word| ==> w.word[i] != SPACE)
  }

  lemma TrimIsPart(t: Text, c: Unit)
    ensures |Trim(t)| <= |t| && (c in Trim(t) ==> c in t)
  {
    var lo, hi := TrimIs(t, IsWhite);
  }

  /** A word has at most a leading space, which trimming removes. */
  lemma WordHasNoSpace(word: Text)
    requires forall i :: 0 < i < |word| ==> word[i] != SPACE
    ensures SPACE !in Trim(word)
  {
    var lo, hi := TrimIs(word, IsWhite);
    if lo == 0 < hi {
      assert !IsWhite(word[0]);
    }
  }

  /** Adding a line keeps earlier cuts in order. */
  lemma CutAgain(pieces: seq<Piece>, wrapLength: int, p: Piece, after: Text)
    requires WellCut(pieces, wrapLength, p.raw)
    requires Fitting(p.raw, wrapLength) && NEWLINE !in p.raw
    requires p.why.Overflow? ==> |p.raw| + |p.why.next| > wrapLength && Trim(p.why.next) <= after
    ensures WellCut(pieces + [p], wrapLength, after)
  {
    var more := pieces + [p];
    forall i | 0 <= i < |more|
      ensures Fitting(more[i].raw, wrapLength) && NEWLINE !in more[i].raw && Forced(more, i, wrapLength, after)
    {
      if i < |pieces| {
        assert Forced(pieces, i, wrapLength, p.raw);
      }
    }
  }

  lemma LongerLine(pieces: seq<Piece>, wrapLength: int, line: Text, word: Text)
    requires WellCut(pieces, wrapLength, line)
    ensures WellCut(pieces, wrapLength, line + word)
  {
    forall i | 0 <= i < |pieces| ensures Forced(pieces, i, wrapLength, line + word) {
      assert Forced(pieces, i, wrapLength, line);
    }
  }

  lemma FeedOk(w: Wrapper, c: Unit, wrapLength: int)
    requires WrapperOk(w, wrapLength)
    ensures WrapperOk(Feed(w, c, wrapLength), wrapLength)
  {
    if c == SPACE || c == NEWLINE {
      WordHasNoSpace(w.word);
      TrimIsPart(w.word, NEWLINE);
      if TooLong(w, wrapLength) {
        CutAgain(w.pieces, wrapLength, Piece(w.line, Overflow(w.word)), Trim(w.word));
      } else {
        LongerLine(w.pieces, wrapLength, w.line, w.word);
        if c == NEWLINE {
          CutAgain(w.pieces, wrapLength, Piece(w.line + w.word, AtNewline), []);
        }
      }
    }
  }

  lemma {:induction false} WrappedOk(text: Text, wrapLength: int)
    ensures WrapperOk(Wrapped(text, wrapLength), wrapLength)
  {
    if text == [] {
    } else {
      WrappedOk(text[..|text| - 1], wrapLength);
      FeedOk(Wrapped(text[..|text| - 1], wrapLength), text[|text| - 1], wrapLength);
    }
  }

  /** Every line of the layout fits or cannot be broken; none holds a newline; and a line
      was ended without a newline only because the next word did not fit, which then
      opens the following line (or was blank and the text's end). */
  lemma LayoutIsWellCut(text: Text, wrapLength: int)
    ensures WellCut(Layout(text, wrapLength), wrapLength, [])
    ensures var pieces := Layout(text, wrapLength);
            forall i :: 0 <= i < |pieces| && pieces[i].why.Overflow? ==>
              && |pieces[i].raw| + |pieces[i].why.next| > wrapLength
              && Trim(pieces[i].why.next) <= if i + 1 < |pieces| then pieces[i + 1].raw else []
    ensures forall p :: p in Layout(text, wrapLength) ==>
              && (|Body(p)| <= wrapLength || SPACE !in Body(p))
              && NEWLINE !in Body(p)
  {
    var w := Wrapped(Collapsed(text), wrapLength);
    WrappedOk(Collapsed(text), wrapLength);
    var s := Settled(w, wrapLength);
    WordHasNoSpace(w.word);
    TrimIsPart(w.word, NEWLINE);
    if TooLong(w, wrapLength) {
      CutAgain(w.pieces, wrapLength, Piece(w.line, Overflow(w.word)), Trim(w.word));
    } else {
      LongerLine(w.pieces, wrapLength, w.line, w.word);
    }
    if |s.line| > 0 {
      CutAgain(s.pieces, wrapLength, Piece(s.line, AtEnd), []);
    } else {
      assert s.line == [];
    }
    var pieces := Layout(text, wrapLength);
    assert forall i :: 0 <= i < |pieces| ==> Forced(pieces, i, wrapLength, []);
    forall p | p in pieces
      ensures (|Body(p)| <= wrapLength || SPACE !in Body(p)) && NEWLINE !in Body(p)
    {
      var i :| 0 <= i < |pieces| && pieces[i] == p;
      TrimIsPart(p.raw, SPACE);
      TrimIsPart(p.raw, NEWLINE);
      assert Fitting(pieces[i].raw, wrapLength) && NEWLINE !in pieces[i].raw;
    }
  }

  // ---------------------------------------------- the output, read line by line

  /** Splitting at newlines gives back exactly the prefixed lines, and a final blank. */
  function Lines(prefix: Text, pieces: seq<Piece>): seq<Text> {
    seq(|pieces|, i requires 0 <= i < |pieces| => prefix + Body(pieces[i]))
  }

  lemma {:induction false} SplitLine(line: Text, rest: Text)
    requires NEWLINE !in line
    ensures Split(line + [NEWLINE] + rest, NEWLINE) == [line] + Split(rest, NEWLINE)
  {
    if line == [] {
      assert line + [NEWLINE] + rest == [NEWLINE] + rest;
      assert ([NEWLINE] + rest)[1..] == rest;
    } else {
      var t := line + [NEWLINE] + rest;
      assert t[0] == line[0] && t[1..] == line[1..] + [NEWLINE] + rest;
      SplitLine(line[1..], rest);
      assert [line[0]] + line[1..] == line;
      assert ([line[1..]] + Split(rest, NEWLINE))[1..] == Split(rest, NEWLINE);
    }
  }

  lemma {:induction false} RenderedUncons(prefix: Text, pieces: seq<Piece>)
    requires pieces != []
    ensures Rendered(prefix, pieces) == FullLine(prefix, pieces[0]) + Rendered(prefix, pieces[1..])
  {
    var init, last := pieces[..|pieces| - 1], FullLine(prefix, pieces[|pieces| - 1]);
    if init == [] {
      assert pieces[1..] == [];
    } else {
      RenderedUncons(prefix, init);
      var first, middle := FullLine(prefix, pieces[0]), Rendered(prefix, init[1..]);
      var tail := pieces[1..];
      assert tail[..|tail| - 1] == init[1..] && tail[|tail| - 1] == pieces[|pieces| - 1];
      assert Rendered(prefix, tail) == middle + last;
      Associative(first, middle, last);
    }
  }

  lemma {:induction false} SplitRendered(prefix: Text, pieces: seq<Piece>)
    requires NEWLINE !in prefix && forall p :: p in pieces ==> NEWLINE !in Body(p)
    ensures Split(Rendered(prefix, pieces), NEWLINE) == Lines(prefix, pieces) + [[]]
  {
    if pieces == [] {
    } else {
      RenderedUncons(prefix, pieces);
      SplitRendered(prefix, pieces[1..]);
      assert pieces[0] in pieces;
      SplitLine(prefix + Body(pieces[0]), Rendered(prefix, pieces[1..]));
      assert Lines(prefix, pieces) == [prefix + Body(pieces[0])] + Lines(prefix, pieces[1..]);
    }
  }

  /**
   `formatComment` as its callers rely on it: for a non-empty prefix without newline the
   output is a sequence of full lines, each of them the prefix and a body that fits or
   cannot be broken, and the bodies carry the text's non-white units in order.
   */
  lemma FormattedComment(prefix: Text, text: Text, wrapLength: int)
    requires prefix != [] && NEWLINE !in prefix
    ensures var pieces := Layout(text, wrapLength);
            var output := Output(prefix, text, wrapLength);
            && Split(output, NEWLINE) == Lines(prefix, pieces) + [[]]
            && (forall p :: p in pieces ==> |Body(p)| <= wrapLength || SPACE !in Body(p))
            && Ink(Bodies(pieces)) == Ink(text)
  {
    OutputIsRendered(prefix, Layout(text, wrapLength));
    LayoutIsWellCut(text, wrapLength);
    SplitRendered(prefix, Layout(text, wrapLength));
    InkKept(text, wrapLength);
  }
}
