// Concrete replies and lines, worked through the model: what the code does
// with them, including where it differs from what a reader of the markup
// might expect.
module Scenarios {
  import opened Wrappers
  import opened JsText
  import opened Bold
  import opened Format

  /** The split of a line that opens with bold text starts with an empty piece. */
  lemma PartsOfLeadingBold()
    ensures Parts("**Hi** there") == ["", "**Hi**", " there"]
  {
    var s := "**Hi** there";
    assert s[0..6] == "**Hi**" && s[0..0] == "" && s[6..] == " there";
    assert IsBoldSpan("**Hi**");
    MatchAtComplete(s, 0, 6);
    SplitMarkerFree(s, 6, 6);
  }

  /** How each of those pieces is shown. */
  lemma ShowLeadingBold()
    ensures ShowParts(["", "**Hi**", " there"]) == [Frag(false, ""), Frag(true, "Hi"), Frag(false, " there")]
  {
    var b := "**Hi**";
    assert IsBoldSpan(b);
    SpanText(b);
    assert b[2..4] == "Hi";
    assert b[..2] == "**" && b[4..] == "**";
    assert ShowPart(b) == Frag(true, "Hi");
    assert " there"[..2] != "**" by { assert " there"[..2][0] == ' '; }
    assert ShowPart(" there") == Frag(false, " there");
    assert ShowPart("") == Frag(false, "");
    ShowPartsAt(["", b, " there"]);
  }

  /**
   * A line that opens with bold text renders as an empty plain fragment,
   * the bold text, and the rest.
   */
  lemma LeadingEmptyFragment()
    ensures RenderWithBold("**Hi** there") == [Frag(false, ""), Frag(true, "Hi"), Frag(false, " there")]
  {
    PartsOfLeadingBold();
    ShowLeadingBold();
  }

  /** "* x" for a character x that is not white space: a bullet holding x, opening a list unless one is open. */
  lemma PlainBullet(x: char, inList: bool)
    requires !IsJsSpace(x)
    ensures RenderLine(['*', ' ', x], inList) ==
              Some(if inList then ListItem([Frag(false, [x])]) else ListOpen([Frag(false, [x])]))
    ensures NextFlag(['*', ' ', x], inList)
  {
    var line := ['*', ' ', x];
    TrimUnpadded(line);
    assert !AllSpace(line) by { assert !IsJsSpace(line[0]); }
    assert !IsHeading(line) by { assert line[..2][1] != '*'; }
    assert line[..2] == "* ";
    assert IsBullet(line);
    assert Classify(line) == BulletLine;
    LineElement(line, inList);
    assert line[..0] + line[2..] == [x];
    assert MarkerFree([x]);
    RenderWithBoldShape([x]);
  }

  /** A line of one character that is neither white space nor a digit: a paragraph, which closes any list. */
  lemma PlainParagraph(x: char, inList: bool)
    requires !IsJsSpace(x) && !IsDigit(x)
    ensures RenderLine([x], inList) == Some(Para([Frag(false, [x])]))
    ensures !NextFlag([x], inList)
  {
    var line := [x];
    TrimUnpadded(line);
    assert !AllSpace(line) by { assert !IsJsSpace(line[0]); }
    assert DigitRun(line) == 0;
    assert Classify(line) == ParagraphLine;
    assert MarkerFree(line);
    RenderWithBoldShape(line);
  }

  /** "**t**" is classified a heading. */
  lemma BoldLineKind(t: char)
    ensures Classify(['*', '*', t, '*', '*']) == HeadingLine
  {
    var line := ['*', '*', t, '*', '*'];
    assert !AllSpace(line) by { assert !IsJsSpace(line[0]); }
    assert line[..2] == "**" && line[3..] == "**";
  }

  /** Deleting the markers of "**t**" leaves t, for a character t other than '*'. */
  lemma BoldLineTitle(t: char)
    requires t != '*' && !IsLineTerminator(t)
    ensures RemoveMarkers(['*', '*', t, '*', '*']) == [t]
  {
    var line := ['*', '*', t, '*', '*'];
    assert IsBoldSpan(line) by {
      assert MarkerAt(line, 0) && MarkerAt(line, 3) && !MarkerAt(line, 2);
    }
    SpanText(line);
    assert line[2..3] == [t];
  }

  /** "**t**" for a character t other than '*' and a line terminator: a heading t, leaving the flag as it was. */
  lemma BoldHeading(t: char, inList: bool)
    requires t != '*' && !IsLineTerminator(t)
    ensures RenderLine(['*', '*', t, '*', '*'], inList) == Some(Heading([t]))
    ensures NextFlag(['*', '*', t, '*', '*'], inList) == inList
  {
    BoldLineKind(t);
    BoldLineTitle(t);
  }

  /** A reply whose lines hold no line feed is formatted line by line. */
  lemma FormattedJoin(lines: seq<string>)
    requires |lines| >= 1
    requires forall i :: 0 <= i < |lines| ==> '\n' !in lines[i]
    ensures Formatted(JoinLines(lines)) == Present(MapLines(lines).mapped)
  {
    SplitJoin(lines);
  }

  /** The map over three lines, step by step. */
  lemma MapThree<L, E>(a: L, b: L, c: L, render: (L, bool) -> E, next: (L, bool) -> bool)
    ensures var f1 := next(a, false); var f2 := next(b, f1);
      MapWithFlag([a, b, c], render, next).mapped == [render(a, false), render(b, f1), render(c, f2)]
  {
    MapTwo(a, b, render, next);
    assert [a, b, c][..2] == [a, b];
  }

  /** The map over two lines, step by step. */
  lemma MapTwo<L, E>(a: L, b: L, render: (L, bool) -> E, next: (L, bool) -> bool)
    ensures MapWithFlag([a, b], render, next) ==
              MapState([render(a, false), render(b, next(a, false))], next(b, next(a, false)))
  {
    assert [a][..0] == [];
    assert MapWithFlag([a], render, next) == MapState([render(a, false)], next(a, false));
    assert [a, b][..1] == [a];
  }

  /** The filter keeps entries that are all there. */
  lemma PresentThree<T>(u: T, v: T, w: T)
    ensures Present([Some(u), Some(v)]) == [u, v]
    ensures Present([Some(u), Some(v), Some(w)]) == [u, v, w]
  {
    assert [Some(u)][..0] == [];
    assert Present([Some(u)]) == [u];
    assert [Some(u), Some(v)][..1] == [Some(u)];
    assert Present([Some(u), Some(v)]) == [u, v];
    assert [Some(u), Some(v), Some(w)][..2] == [Some(u), Some(v)];
  }

  /** The two lines "* x" and "* y", joined. */
  lemma TwoBulletsJoin(x: char, y: char)
    ensures var a, b := ['*', ' ', x], ['*', ' ', y];
      JoinLines([a, b]) == ['*', ' ', x, '\n', '*', ' ', y]
  {
  }

  /**
   * Two bullets in a row are a list opener and a bare item: siblings, the
   * second not inside the first's list.
   */
  lemma BulletsAreSiblings(x: char, y: char)
    requires !IsJsSpace(x) && !IsJsSpace(y)
    ensures Formatted(['*', ' ', x, '\n', '*', ' ', y]) ==
              [ListOpen([Frag(false, [x])]), ListItem([Frag(false, [y])])]
  {
    var a, b := ['*', ' ', x], ['*', ' ', y];
    var u, v := ListOpen([Frag(false, [x])]), ListItem([Frag(false, [y])]);
    TwoBulletsJoin(x, y);
    FormattedJoin([a, b]);
    PlainBullet(x, false);
    PlainBullet(y, true);
    MapTwo(a, b, RenderLine, NextFlag);
    PresentThree(u, v, v);
  }

  /** Three lines, joined. */
  lemma ThreeLinesJoin(a: string, b: string, c: string)
    requires |a| == 3 && |b| >= 1 && |c| == 3
    ensures JoinLines([a, b, c]) == a + ['\n'] + b + ['\n'] + c
  {
    assert [a, b, c][1..] == [b, c];
    assert [b, c][1..] == [c];
    assert JoinLines([b, c]) == b + "\n" + c;
    assert a + "\n" + (b + "\n" + c) == a + ['\n'] + b + ['\n'] + c;
  }

  /**
   * A heading between two bullets does not close the list: the second
   * bullet is a bare item.
   */
  lemma HeadingKeepsListOpen(x: char, t: char, y: char)
    requires !IsJsSpace(x) && !IsJsSpace(y)
    requires t != '*' && !IsLineTerminator(t)
    ensures Formatted(['*', ' ', x, '\n', '*', '*', t, '*', '*', '\n', '*', ' ', y]) ==
              [ListOpen([Frag(false, [x])]), Heading([t]), ListItem([Frag(false, [y])])]
  {
    var a, b, c := ['*', ' ', x], ['*', '*', t, '*', '*'], ['*', ' ', y];
    ThreeLinesJoin(a, b, c);
    assert a + ['\n'] + b + ['\n'] + c == ['*', ' ', x, '\n', '*', '*', t, '*', '*', '\n', '*', ' ', y];
    FormattedJoin([a, b, c]);
    PlainBullet(x, false);
    BoldHeading(t, true);
    PlainBullet(y, true);
    MapThree(a, b, c, RenderLine, NextFlag);
    PresentThree(ListOpen([Frag(false, [x])]), Heading([t]), ListItem([Frag(false, [y])]));
  }

  /**
   * A paragraph between two bullets closes the list: the second bullet
   * opens a new one.
   */
  lemma ParagraphClosesList(x: char, p: char, y: char)
    requires !IsJsSpace(x) && !IsJsSpace(y)
    requires !IsJsSpace(p) && !IsDigit(p)
    ensures Formatted(['*', ' ', x, '\n', p, '\n', '*', ' ', y]) ==
              [ListOpen([Frag(false, [x])]), Para([Frag(false, [p])]), ListOpen([Frag(false, [y])])]
  {
    var a, b, c := ['*', ' ', x], [p], ['*', ' ', y];
    ThreeLinesJoin(a, b, c);
    assert a + ['\n'] + b + ['\n'] + c == ['*', ' ', x, '\n', p, '\n', '*', ' ', y];
    FormattedJoin([a, b, c]);
    PlainBullet(x, false);
    PlainParagraph(p, true);
    PlainBullet(y, false);
    MapThree(a, b, c, RenderLine, NextFlag);
    PresentThree(ListOpen([Frag(false, [x])]), Para([Frag(false, [p])]), ListOpen([Frag(false, [y])]));
  }

  /** "**" alone starts and ends with "**": an empty heading. */
  lemma MarkerAloneIsHeading(inList: bool)
    ensures RenderLine(['*', '*'], inList) == Some(Heading([]))
  {
    var line := ['*', '*'];
    assert MarkerAt(line, 0) && line[2..] == [];
    assert RemoveMarkers(line) == [];
    assert !AllSpace(line) by { assert !IsJsSpace(line[0]); }
    assert IsHeading(line) by { assert line[..2] == "**" && line[|line| - 2..] == "**"; }
    assert Classify(line) == HeadingLine;
  }

  /** A leading "**" is deleted. */
  lemma DropMarker(s: string)
    requires |s| >= 2 && s[0] == '*' && s[1] == '*'
    ensures RemoveMarkers(s) == RemoveMarkers(s[2..])
  {
    assert MarkerAt(s, 0);
  }

  /** A leading character other than '*' is kept. */
  lemma KeepChar(s: string)
    requires s != [] && s[0] != '*'
    ensures RemoveMarkers(s) == [s[0]] + RemoveMarkers(s[1..])
  {
  }

  /** The markers of " b **c**" deleted, for characters other than '*'. */
  lemma BoldWordTail(b: char, c: char)
    requires b != '*' && c != '*'
    ensures RemoveMarkers([' ', b, ' ', '*', '*', c, '*', '*']) == [' ', b, ' ', c]
  {
    var s5 := [' ', b, ' ', '*', '*', c, '*', '*'];
    var s6 := [b, ' ', '*', '*', c, '*', '*'];
    var s7 := [' ', '*', '*', c, '*', '*'];
    var s8 := ['*', '*', c, '*', '*'];
    var s10 := [c, '*', '*'];
    var s11 := ['*', '*'];
    DropMarker(s11);
    assert s11[2..] == [];
    KeepChar(s10);
    assert s10[1..] == s11;
    DropMarker(s8);
    assert s8[2..] == s10;
    KeepChar(s7);
    assert s7[1..] == s8;
    KeepChar(s6);
    assert s6[1..] == s7;
    KeepChar(s5);
    assert s5[1..] == s6;
  }

  /** The first bold word of "**a** b **c**": its markers go and `a` stays. */
  lemma FirstBoldWord(a: char, b: char, c: char)
    requires a != '*'
    ensures RemoveMarkers(['*', '*', a, '*', '*', ' ', b, ' ', '*', '*', c, '*', '*']) ==
              [a] + RemoveMarkers(['*', '*', ' ', b, ' ', '*', '*', c, '*', '*'])
  {
    var s0 := ['*', '*', a, '*', '*', ' ', b, ' ', '*', '*', c, '*', '*'];
    var s2 := [a, '*', '*', ' ', b, ' ', '*', '*', c, '*', '*'];
    var s3 := ['*', '*', ' ', b, ' ', '*', '*', c, '*', '*'];
    KeepChar(s2);
    assert s2[1..] == s3;
    DropMarker(s0);
    assert s0[2..] == s2;
  }

  /** The rest of "**a** b **c**" after the first bold word loses its markers. */
  lemma RestAfterFirstWord(b: char, c: char)
    requires b != '*' && c != '*'
    ensures RemoveMarkers(['*', '*', ' ', b, ' ', '*', '*', c, '*', '*']) == [' ', b, ' ', c]
  {
    var s3 := ['*', '*', ' ', b, ' ', '*', '*', c, '*', '*'];
    var s5 := [' ', b, ' ', '*', '*', c, '*', '*'];
    BoldWordTail(b, c);
    DropMarker(s3);
    assert s3[2..] == s5;
  }

  /** The markers of "**a** b **c**" deleted, for characters other than '*'. */
  lemma TwoBoldWordsTitle(a: char, b: char, c: char)
    requires a != '*' && b != '*' && c != '*'
    ensures RemoveMarkers(['*', '*', a, '*', '*', ' ', b, ' ', '*', '*', c, '*', '*']) == [a, ' ', b, ' ', c]
  {
    FirstBoldWord(a, b, c);
    RestAfterFirstWord(b, c);
  }

  /**
   * "**a** b **c**" starts and ends with "**", so it is a heading, not a
   * paragraph with two bold words; all its markers go.
   */
  lemma TwoBoldWordsAreHeading(a: char, b: char, c: char, inList: bool)
    requires a != '*' && b != '*' && c != '*'
    ensures RenderLine(['*', '*', a, '*', '*', ' ', b, ' ', '*', '*', c, '*', '*'], inList) ==
              Some(Heading([a, ' ', b, ' ', c]))
  {
    var line := ['*', '*', a, '*', '*', ' ', b, ' ', '*', '*', c, '*', '*'];
    assert !AllSpace(line) by { assert !IsJsSpace(line[0]); }
    assert line[..2] == "**" && line[11..] == "**";
    assert Classify(line) == HeadingLine;
    TwoBoldWordsTitle(a, b, c);
  }
}
