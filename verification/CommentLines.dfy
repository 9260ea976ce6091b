/**
 What `formatComment` returns, line by line, without reference to how it gets there.
 */
module CommentLines {
  import opened CodeUnits
  import opened CommentFormat
  import opened Paragraphs

  lemma {:induction false} KeepSame(t: Text, p: Unit -> bool, q: Unit -> bool)
    requires forall c :: p(c) == q(c)
    ensures Keep(t, p) == Keep(t, q)
  {
    if t == [] {
    } else {
      KeepSame(t[1..], p, q);
    }
  }

  lemma {:induction false} JoinSnoc(parts: seq<Text>, last: Text)
    ensures Join(parts + [last], []) == Join(parts, []) + last
  {
    if parts == [] {
      assert parts + [last] == [last];
    } else {
      JoinSnoc(parts[1..], last);
      assert (parts + [last])[0] == parts[0] && (parts + [last])[1..] == parts[1..] + [last];
      assert parts[0] + [] == parts[0];
      if |parts| == 1 {
        assert parts[1..] == [] && Join(parts[1..] + [last], []) == last;
      } else {
        Associative(parts[0], Join(parts[1..], []), last);
      }
    }
  }

  lemma {:induction false} BodiesJoin(pieces: seq<Piece>)
    ensures Bodies(pieces) == Join(LineBodies(pieces), [])
  {
    if pieces == [] {
    } else {
      var init := pieces[..|pieces| - 1];
      BodiesJoin(init);
      JoinSnoc(LineBodies(init), Body(pieces[|pieces| - 1]));
      assert LineBodies(pieces) == LineBodies(init) + [Body(pieces[|pieces| - 1])];
    }
  }

  /** White space and line terminators, by section 12.2 and 12.3 of ECMA-262. */
  lemma WhiteIs(c: Unit)
    ensures IsWhite(c) <==>
            c in {0x9, 0xA, 0xB, 0xC, 0xD, 0x20, 0xA0, 0x1680, 0x2000, 0x2001, 0x2002, 0x2003, 0x2004, 0x2005,
                  0x2006, 0x2007, 0x2008, 0x2009, 0x200A, 0x2028, 0x2029, 0x202F, 0x205F, 0x3000, 0xFEFF}
  {
  }

  lemma BodyEnds(p: Piece)
    requires Body(p) != []
    ensures !IsWhite(Body(p)[0]) && !IsWhite(Body(p)[|Body(p)| - 1])
  {
    var lo, hi := TrimIs(p.raw, IsWhite);
  }

  lemma BodiesAre(text: Text, wrapLength: int)
    ensures forall body :: body in LineBodies(Layout(text, wrapLength)) ==>
              && NEWLINE !in body && (|body| <= wrapLength || SPACE !in body)
              && (body != [] ==> !IsWhite(body[0]) && !IsWhite(body[|body| - 1]))
  {
    var pieces := Layout(text, wrapLength);
    LayoutIsWellCut(text, wrapLength);
    forall body | body in LineBodies(pieces)
      ensures NEWLINE !in body && (|body| <= wrapLength || SPACE !in body)
      ensures body != [] ==> !IsWhite(body[0]) && !IsWhite(body[|body| - 1])
    {
      var i :| 0 <= i < |pieces| && LineBodies(pieces)[i] == body;
      assert pieces[i] in pieces;
      if body != [] {
        BodyEnds(pieces[i]);
      }
    }
  }

  lemma ShownKept(text: Text, wrapLength: int, shown: Unit -> bool)
    requires forall c :: shown(c) <==> !IsWhite(c)
    ensures Keep(Join(LineBodies(Layout(text, wrapLength)), []), shown) == Keep(text, shown)
  {
    var pieces := Layout(text, wrapLength);
    BodiesJoin(pieces);
    InkKept(text, wrapLength);
    KeepSame(text, IsInk, shown);
    KeepSame(Bodies(pieces), IsInk, shown);
  }

  /**
   For a non-empty prefix without newline the output is a sequence of lines, each of them
   the prefix and a body, and ends with a newline if there is any.  A body fits or has no
   space, and neither begins nor ends with white space; and the bodies hold the units of
   the text that are not white space, all of them, in order.
   */
  lemma OutputExactly(prefix: Text, text: Text, wrapLength: int) returns (bodies: seq<Text>)
    requires prefix != [] && 10 !in prefix
    ensures var lines := Split(Output(prefix, text, wrapLength), 10);
            && |lines| == |bodies| + 1 && lines[|bodies|] == []
            && (forall i :: 0 <= i < |bodies| ==> lines[i] == prefix + bodies[i])
    ensures forall body :: body in bodies ==> 10 !in body && (|body| <= wrapLength || 32 !in body)
    ensures var shown := (c: Unit) =>
              c !in {0x9, 0xA, 0xB, 0xC, 0xD, 0x20, 0xA0, 0x1680, 0x2000, 0x2001, 0x2002, 0x2003, 0x2004, 0x2005,
                     0x2006, 0x2007, 0x2008, 0x2009, 0x200A, 0x2028, 0x2029, 0x202F, 0x205F, 0x3000, 0xFEFF};
            && Keep(Join(bodies, []), shown) == Keep(text, shown)
            && forall body :: body in bodies && body != [] ==> shown(body[0]) && shown(body[|body| - 1])
  {
    bodies := LineBodies(Layout(text, wrapLength));
    FormattedComment(prefix, text, wrapLength);
    BodiesAre(text, wrapLength);
    var shown := (c: Unit) =>
      c !in {0x9, 0xA, 0xB, 0xC, 0xD, 0x20, 0xA0, 0x1680, 0x2000, 0x2001, 0x2002, 0x2003, 0x2004, 0x2005,
             0x2006, 0x2007, 0x2008, 0x2009, 0x200A, 0x2028, 0x2029, 0x202F, 0x205F, 0x3000, 0xFEFF};
    forall c: Unit ensures shown(c) <==> !IsWhite(c) {
      WhiteIs(c);
    }
    ShownKept(text, wrapLength, shown);
  }
}
