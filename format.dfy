// formatResponse (front/src/components/Chat.jsx:31-89): a reply is split
// on "\n"; each line that is not blank becomes one element, classified
// heading, bullet, numbered line or paragraph, in that order of precedence.
// A flag `inList`, threaded through the lines, decides whether a bullet
// opens a list (<ul><li>) or is a bare <li>; bullets set it, numbered lines
// and paragraphs clear it, blank lines and headings leave it alone.
module Format {
  import opened Wrappers
  import opened JsText
  import opened Bold

  /** One rendered element of a reply. */
  datatype Element =
    | Heading(title: string)        // <h3>
    | ListOpen(frags: seq<Frag>)    // <ul> around one <li>
    | ListItem(frags: seq<Frag>)    // a bare <li>
    | Numbered(frags: seq<Frag>)    // <p> for "1. step"
    | Para(frags: seq<Frag>)        // <p> for anything else

  datatype LineKind = BlankLine | HeadingLine | BulletLine | NumberedLine | ParagraphLine

  /** `!line.trim()`. */
  predicate IsBlank(line: string) {
    Trim(line) == []
  }

  /** `line.startsWith("**") && line.endsWith("**")`, on the untrimmed line. */
  predicate IsHeading(line: string) {
    StartsWith(line, "**") && EndsWith(line, "**")
  }

  /** `line.trim().startsWith("* ")`. */
  predicate IsBullet(line: string) {
    StartsWith(Trim(line), "* ")
  }

  /** `\d`: an ASCII digit. */
  predicate IsDigit(c: char) {
    '0' <= c <= '9'
  }

  predicate AllDigits(s: string) {
    forall i :: 0 <= i < |s| ==> IsDigit(s[i])
  }

  /** The length of the longest run of digits `s` starts with. */
  function DigitRun(s: string): (n: nat)
    ensures n <= |s| && AllDigits(s[..n])
    ensures n < |s| ==> !IsDigit(s[n])
  {
    if s != [] && IsDigit(s[0]) then
      var n := 1 + DigitRun(s[1..]);
      assert s[..n] == [s[0]] + s[1..][..n - 1];
      n
    else 0
  }

  /** `/^\d+\.\s/.test(line)`, with the greedy `\d+` taking the whole run of digits. */
  predicate IsNumbered(line: string) {
    var n := DigitRun(line);
    1 <= n && n + 1 < |line| && line[n] == '.' && IsJsSpace(line[n + 1])
  }

  /** The test holds exactly when some non-empty run of digits is followed by "." and white space. */
  lemma NumberedIff(line: string)
    ensures IsNumbered(line) <==>
      exists n :: 1 <= n && n + 1 < |line| && AllDigits(line[..n]) && line[n] == '.' && IsJsSpace(line[n + 1])
  {
    if n :| 1 <= n && n + 1 < |line| && AllDigits(line[..n]) && line[n] == '.' && IsJsSpace(line[n + 1]) {
      DigitRunIs(line, n);
    }
  }

  /** A run of digits followed by a non-digit (or the end) is the run DigitRun finds. */
  lemma {:induction false} DigitRunIs(s: string, n: nat)
    requires n <= |s| && AllDigits(s[..n]) && (n < |s| ==> !IsDigit(s[n]))
    ensures DigitRun(s) == n
    decreases n
  {
    if n > 0 {
      assert IsDigit(s[..n][0]);
      var u := s[1..][..n - 1];
      forall j | 0 <= j < |u| ensures IsDigit(u[j]) {
        assert u[j] == s[..n][j + 1];
      }
      DigitRunIs(s[1..], n - 1);
    }
  }

  /** The kind of a line, tested in the order of the source. */
  function Classify(line: string): (k: LineKind)
    ensures k == BlankLine <==> AllSpace(line)
  {
    TrimEmptyIffAllSpace(line);
    if IsBlank(line) then BlankLine
    else if IsHeading(line) then HeadingLine
    else if IsBullet(line) then BulletLine
    else if IsNumbered(line) then NumberedLine
    else ParagraphLine
  }

  /** The flag after a line of the given kind. */
  function NextInList(kind: LineKind, inList: bool): bool {
    match kind
    case BlankLine => inList
    case HeadingLine => inList
    case BulletLine => true
    case _ => false
  }

  /**
   * What the callback of the `map` returns for a line, given the flag on
   * arrival: nothing (null) for a blank line, else the line's element.
   */
  function RenderLine(line: string, inList: bool): (r: Option<Element>)
    ensures r.None? <==> AllSpace(line)
  {
    match Classify(line)
    case BlankLine => None
    case HeadingLine => Some(Heading(RemoveMarkers(line)))
    case BulletLine =>
      var item := RenderWithBold(RemoveFirst(line, "* "));
      Some(if inList then ListItem(item) else ListOpen(item))
    case NumberedLine => Some(Numbered(RenderWithBold(line)))
    case ParagraphLine => Some(Para(RenderWithBold(line)))
  }

  /** The flag after a line. */
  function NextFlag(line: string, inList: bool): bool {
    NextInList(Classify(line), inList)
  }

  /** The array a `map` has built so far, and the flag it threads. */
  datatype MapState<E> = MapState(mapped: seq<E>, inList: bool)

  /**
   * A `map` whose callback reads and updates one boolean flag, starting
   * from false: `render` is what the callback returns, `next` the flag it
   * leaves behind.
   */
  function MapWithFlag<L, E>(lines: seq<L>, render: (L, bool) -> E, next: (L, bool) -> bool): MapState<E> {
    if lines == [] then MapState([], false)
    else
      var st := MapWithFlag(lines[..|lines| - 1], render, next);
      var line := lines[|lines| - 1];
      MapState(st.mapped + [render(line, st.inList)], next(line, st.inList))
  }

  /** One more line: the map takes one more step from where the prefix left it. */
  lemma MapWithFlagStep<L, E>(lines: seq<L>, render: (L, bool) -> E, next: (L, bool) -> bool, i: nat)
    requires i < |lines|
    ensures var st := MapWithFlag(lines[..i], render, next);
      MapWithFlag(lines[..i + 1], render, next) ==
        MapState(st.mapped + [render(lines[i], st.inList)], next(lines[i], st.inList))
  {
    assert lines[..i + 1][..i] == lines[..i];
  }

  /** The `map` over the lines of a reply. */
  function MapLines(lines: seq<string>): MapState<Option<Element>> {
    MapWithFlag(lines, RenderLine, NextFlag)
  }

  /** `filter(Boolean)`: the entries that are there, in order. */
  function Present<T>(xs: seq<Option<T>>): seq<T> {
    if xs == [] then []
    else Present(xs[..|xs| - 1]) + (if xs[|xs| - 1].Some? then [xs[|xs| - 1].value] else [])
  }

  /** The indexes of the entries that are there, in order. */
  function SomeIndexes<T>(xs: seq<Option<T>>): seq<nat> {
    if xs == [] then []
    else SomeIndexes(xs[..|xs| - 1]) + (if xs[|xs| - 1].Some? then [|xs| - 1] else [])
  }

  /**
   * The filter keeps the entries that are there and only those, in their
   * order: its j-th result is the entry at the j-th index that holds one.
   */
  lemma PresentAt<T>(xs: seq<Option<T>>)
    ensures |Present(xs)| == |SomeIndexes(xs)|
    ensures forall j :: 0 <= j < |SomeIndexes(xs)| ==>
              SomeIndexes(xs)[j] < |xs| && xs[SomeIndexes(xs)[j]] == Some(Present(xs)[j])
    ensures forall j, k :: 0 <= j < k < |SomeIndexes(xs)| ==> SomeIndexes(xs)[j] < SomeIndexes(xs)[k]
    ensures forall i :: 0 <= i < |xs| && xs[i].Some? ==> i in SomeIndexes(xs)
  {
    PresentAtIndexes(xs);
    SomeIndexesOrdered(xs);
    SomeIndexesComplete(xs);
  }

  /** The j-th kept entry is the one at the j-th index that holds one. */
  lemma {:induction false} PresentAtIndexes<T>(xs: seq<Option<T>>)
    ensures |Present(xs)| == |SomeIndexes(xs)|
    ensures forall j :: 0 <= j < |SomeIndexes(xs)| ==>
              SomeIndexes(xs)[j] < |xs| && xs[SomeIndexes(xs)[j]] == Some(Present(xs)[j])
  {
    if xs != [] {
      var n := |xs|;
      var init := xs[..n - 1];
      PresentAtIndexes(init);
      assert forall i :: 0 <= i < n - 1 ==> init[i] == xs[i];
      if xs[n - 1].Some? {
        assert SomeIndexes(xs) == SomeIndexes(init) + [n - 1];
        assert Present(xs) == Present(init) + [xs[n - 1].value];
      } else {
        assert SomeIndexes(xs) == SomeIndexes(init);
        assert Present(xs) == Present(init);
      }
    }
  }

  /** The indexes that hold an entry are listed in increasing order. */
  lemma {:induction false} SomeIndexesOrdered<T>(xs: seq<Option<T>>)
    ensures forall j :: 0 <= j < |SomeIndexes(xs)| ==> SomeIndexes(xs)[j] < |xs|
    ensures forall j, k :: 0 <= j < k < |SomeIndexes(xs)| ==> SomeIndexes(xs)[j] < SomeIndexes(xs)[k]
  {
    if xs != [] {
      var n := |xs|;
      SomeIndexesOrdered(xs[..n - 1]);
    }
  }

  /** Every index that holds an entry is listed. */
  lemma {:induction false} SomeIndexesComplete<T>(xs: seq<Option<T>>)
    ensures forall i :: 0 <= i < |xs| && xs[i].Some? ==> i in SomeIndexes(xs)
  {
    if xs != [] {
      var n := |xs|;
      var init := xs[..n - 1];
      SomeIndexesComplete(init);
      assert forall i :: 0 <= i < n - 1 ==> init[i] == xs[i];
    }
  }

  /** The elements formatResponse returns for a reply. */
  function Formatted(text: string): seq<Element> {
    Present(MapLines(SplitLines(text)).mapped)
  }

  /**
   * The callback formatResponse passes to `map`, run on one line with the
   * flag as it stands: what the line becomes, and the flag it leaves.
   */
  method FormatLine(line: string, inList: bool) returns (out: Option<Element>, inListAfter: bool)
    ensures out == RenderLine(line, inList)
    ensures inListAfter == NextFlag(line, inList)
  {
    inListAfter := inList;
    if IsBlank(line) {
      assert Classify(line) == BlankLine;
      out := None;
    } else if IsHeading(line) {
      assert Classify(line) == HeadingLine;
      out := Some(Heading(RemoveMarkers(line)));
    } else if IsBullet(line) {
      assert Classify(line) == BulletLine;
      var item := RenderWithBold(RemoveFirst(line, "* "));
      if !inListAfter {
        inListAfter := true;
        out := Some(ListOpen(item));
      } else {
        out := Some(ListItem(item));
      }
    } else {
      if inListAfter {
        inListAfter := false;
      }
      if IsNumbered(line) {
        assert Classify(line) == NumberedLine;
        out := Some(Numbered(RenderWithBold(line)));
      } else {
        assert Classify(line) == ParagraphLine;
        out := Some(Para(RenderWithBold(line)));
      }
    }
  }

  /**
   * The `map` as the source runs it: one pass over the lines with a
   * mutable flag, building the mapped array (null for blank lines).
   */
  method MapResponseLines(lines: seq<string>) returns (mapped: seq<Option<Element>>)
    ensures mapped == MapLines(lines).mapped
  {
    var inList := false;
    mapped := [];
    for i := 0 to |lines|
      invariant MapLines(lines[..i]) == MapState(mapped, inList)
    {
      var out;
      MapWithFlagStep(lines, RenderLine, NextFlag, i);
      out, inList := FormatLine(lines[i], inList);
      mapped := mapped + [out];
    }
    assert lines[..|lines|] == lines;
  }

  /** formatResponse: split into lines, the `map` with its flag, then the filter. */
  method FormatResponse(text: string) returns (elements: seq<Element>)
    ensures elements == Formatted(text)
  {
    var lines := SplitLines(text);
    var mapped := MapResponseLines(lines);
    elements := Present(mapped);
  }

  /** A bullet line keeps its leading white space and loses the "* " after it. */
  lemma BulletItemText(line: string)
    requires IsBullet(line)
    ensures var k := |line| - |TrimStart(line)|;
            k + 2 <= |line| && RemoveFirst(line, "* ") == line[..k] + line[k + 2..]
  {
    var k := |line| - |TrimStart(line)|;
    TrimmedPrefix(line, "* ");
    assert line[k..k + 2] == TrimStart(line)[..2];
    NoBulletInSpace(line, k);
    RemoveFirstAt(line, "* ", k);
  }

  /** "* " does not start inside the leading white space. */
  lemma NoBulletInSpace(line: string, k: nat)
    requires k <= |line| && AllSpace(line[..k])
    ensures forall j :: 0 <= j < k ==> !OccursAt(line, "* ", j)
  {
    forall j | 0 <= j < k ensures !OccursAt(line, "* ", j) {
      assert IsJsSpace(line[..k][j]);
      assert line[..k][j] == line[j];
      if j + 2 <= |line| {
        assert line[j..j + 2][0] == line[j];
      }
    }
  }

  /**
   * What a non-blank line becomes, in the order of precedence: a heading
   * (markers deleted, none left), else a bullet (list opener unless the flag
   * is set; its text is the line with the "* " after its leading white space
   * deleted), else a numbered line or a paragraph, both rendered from the
   * whole unmodified line.
   */
  lemma LineElement(line: string, inList: bool)
    requires !AllSpace(line)
    ensures var e := RenderLine(line, inList);
      && (IsHeading(line) ==> e == Some(Heading(RemoveMarkers(line))) && MarkerFree(e.value.title))
      && (!IsHeading(line) && IsBullet(line) ==>
            var k := |line| - |TrimStart(line)|;
            var item := RenderWithBold(line[..k] + line[k + 2..]);
            e == Some(if inList then ListItem(item) else ListOpen(item)))
      && (!IsHeading(line) && !IsBullet(line) && IsNumbered(line) ==> e == Some(Numbered(RenderWithBold(line))))
      && (!IsHeading(line) && !IsBullet(line) && !IsNumbered(line) ==> e == Some(Para(RenderWithBold(line))))
  {
    if !IsHeading(line) && IsBullet(line) {
      BulletItemText(line);
    }
  }

  /** The kind of every line, by a given classifier. */
  function KindsBy<L>(lines: seq<L>, kindOf: L -> LineKind): (kinds: seq<LineKind>)
    ensures |kinds| == |lines|
  {
    if lines == [] then [] else KindsBy(lines[..|lines| - 1], kindOf) + [kindOf(lines[|lines| - 1])]
  }

  /** The kind of every line of a reply. */
  function Kinds(lines: seq<string>): seq<LineKind> {
    KindsBy(lines, Classify)
  }

  /** Classifying a prefix gives the prefix of the kinds. */
  lemma {:induction false} KindsByPrefix<L>(lines: seq<L>, kindOf: L -> LineKind, i: nat)
    requires i <= |lines|
    ensures KindsBy(lines[..i], kindOf) == KindsBy(lines, kindOf)[..i]
    decreases |lines|
  {
    if i < |lines| {
      var n := |lines|;
      assert lines[..n - 1][..i] == lines[..i];
      KindsByPrefix(lines[..n - 1], kindOf, i);
    } else {
      assert lines[..i] == lines;
    }
  }

  /** The flag after lines of the given kinds, starting from false. */
  function FlagAfter(kinds: seq<LineKind>): bool {
    if kinds == [] then false else NextInList(kinds[|kinds| - 1], FlagAfter(kinds[..|kinds| - 1]))
  }

  /** A kind after which the flag is false. */
  predicate ClosesList(kind: LineKind) {
    kind == NumberedLine || kind == ParagraphLine
  }

  /**
   * The flag on arrival at line i, stated without the fold: some earlier
   * line is a bullet and no numbered line or paragraph comes after it.
   */
  ghost predicate OpenBefore(kinds: seq<LineKind>, i: nat)
    requires i <= |kinds|
  {
    exists j :: 0 <= j < i && kinds[j] == BulletLine && forall k :: j < k < i ==> !ClosesList(kinds[k])
  }

  /** The flag computed step by step is the flag described by OpenBefore. */
  lemma {:induction false} FlagIsOpenBefore(kinds: seq<LineKind>, i: nat)
    requires i <= |kinds|
    ensures FlagAfter(kinds[..i]) == OpenBefore(kinds, i)
  {
    if i > 0 {
      FlagIsOpenBefore(kinds, i - 1);
      assert kinds[..i][..i - 1] == kinds[..i - 1];
      var kind := kinds[i - 1];
      if kind == BulletLine {
        assert OpenBefore(kinds, i);
      } else if ClosesList(kind) {
        assert !OpenBefore(kinds, i);
      } else {
        if OpenBefore(kinds, i) {
          var j :| 0 <= j < i && kinds[j] == BulletLine && forall k :: j < k < i ==> !ClosesList(kinds[k]);
          assert OpenBefore(kinds, i - 1);
        }
        if OpenBefore(kinds, i - 1) {
          var j :| 0 <= j < i - 1 && kinds[j] == BulletLine && forall k :: j < k < i - 1 ==> !ClosesList(kinds[k]);
          assert forall k :: j < k < i ==> !ClosesList(kinds[k]);
        }
      }
    }
  }

  /** The flag of a map whose callback updates it by the kind of each line. */
  lemma {:induction false} FlagOfKinds<L, E>(lines: seq<L>, kindOf: L -> LineKind,
                                             render: (L, bool) -> E, next: (L, bool) -> bool)
    requires forall line, inList :: next(line, inList) == NextInList(kindOf(line), inList)
    ensures MapWithFlag(lines, render, next).inList == FlagAfter(KindsBy(lines, kindOf))
  {
    if lines != [] {
      FlagOfKinds(lines[..|lines| - 1], kindOf, render, next);
    }
  }

  /** The map calls the callback once per line, in order, each time with the flag on arrival. */
  lemma {:induction false} MapWithFlagAt<L, E>(lines: seq<L>, render: (L, bool) -> E, next: (L, bool) -> bool)
    ensures |MapWithFlag(lines, render, next).mapped| == |lines|
    ensures forall i {:trigger MapWithFlag(lines, render, next).mapped[i]} :: 0 <= i < |lines| ==>
              MapWithFlag(lines, render, next).mapped[i] == render(lines[i], MapWithFlag(lines[..i], render, next).inList)
  {
    if lines != [] {
      var n := |lines|;
      var init := lines[..n - 1];
      MapWithFlagAt(init, render, next);
      var st := MapWithFlag(init, render, next);
      var all := MapWithFlag(lines, render, next).mapped;
      assert all == st.mapped + [render(lines[n - 1], st.inList)];
      forall i | 0 <= i < n
        ensures all[i] == render(lines[i], MapWithFlag(lines[..i], render, next).inList)
      {
        if i < n - 1 {
          assert init[..i] == lines[..i];
          assert all[i] == st.mapped[i];
        } else {
          assert lines[..i] == init;
        }
      }
    }
  }

  /**
   * A map whose flag follows the kinds of the lines, described without the
   * fold: entry i is the callback's result on line i under the flag
   * OpenBefore describes.
   */
  lemma MapWithFlagReference<L, E>(lines: seq<L>, kindOf: L -> LineKind,
                                  render: (L, bool) -> E, next: (L, bool) -> bool)
    requires forall line, inList :: next(line, inList) == NextInList(kindOf(line), inList)
    ensures |MapWithFlag(lines, render, next).mapped| == |lines|
    ensures forall i :: 0 <= i < |lines| ==>
              MapWithFlag(lines, render, next).mapped[i] == render(lines[i], OpenBefore(KindsBy(lines, kindOf), i))
  {
    MapWithFlagAt(lines, render, next);
    forall i | 0 <= i < |lines|
      ensures MapWithFlag(lines, render, next).mapped[i] == render(lines[i], OpenBefore(KindsBy(lines, kindOf), i))
    {
      FlagOfKinds(lines[..i], kindOf, render, next);
      KindsByPrefix(lines, kindOf, i);
      FlagIsOpenBefore(KindsBy(lines, kindOf), i);
    }
  }

  /** The indexes of the lines whose trim is not empty, in order. */
  function NonBlankIndexes(lines: seq<string>): seq<nat> {
    if lines == [] then []
    else NonBlankIndexes(lines[..|lines| - 1]) + (if AllSpace(lines[|lines| - 1]) then [] else [|lines| - 1])
  }

  /** Entries that are missing exactly at the blank lines sit at the non-blank indexes. */
  lemma {:induction false} SomeIndexesOfLines<T>(xs: seq<Option<T>>, lines: seq<string>)
    requires |xs| == |lines|
    requires forall i :: 0 <= i < |xs| ==> (xs[i].None? <==> AllSpace(lines[i]))
    ensures SomeIndexes(xs) == NonBlankIndexes(lines)
  {
    if xs != [] {
      var n := |xs|;
      assert forall i :: 0 <= i < n - 1 ==> xs[..n - 1][i] == xs[i] && lines[..n - 1][i] == lines[i];
      SomeIndexesOfLines(xs[..n - 1], lines[..n - 1]);
    }
  }

  /** The mapped array has an entry per line, missing exactly for the blank lines. */
  lemma MappedBlank(lines: seq<string>)
    ensures |MapLines(lines).mapped| == |lines|
    ensures forall i :: 0 <= i < |lines| ==> (MapLines(lines).mapped[i].None? <==> AllSpace(lines[i]))
  {
    MapWithFlagAt(lines, RenderLine, NextFlag);
    forall i | 0 <= i < |lines| ensures MapLines(lines).mapped[i].None? <==> AllSpace(lines[i]) {
      var flag := MapWithFlag(lines[..i], RenderLine, NextFlag).inList;
      assert MapLines(lines).mapped[i] == RenderLine(lines[i], flag);
    }
  }

  /**
   * The mapped array of a reply, described without the fold: entry i is
   * what line i renders to under the flag OpenBefore describes (nothing for
   * a blank line).
   */
  lemma MappedIsReference(lines: seq<string>)
    ensures |MapLines(lines).mapped| == |lines|
    ensures forall i :: 0 <= i < |lines| ==>
              MapLines(lines).mapped[i] == RenderLine(lines[i], OpenBefore(Kinds(lines), i))
  {
    MapWithFlagReference(lines, Classify, RenderLine, NextFlag);
  }

  /** The non-blank indexes are exactly the lines whose trim is not empty. */
  lemma {:induction false} NonBlankIndexesAt(lines: seq<string>)
    ensures forall k :: k in NonBlankIndexes(lines) ==> k < |lines|
    ensures forall i :: 0 <= i < |lines| ==> (i in NonBlankIndexes(lines) <==> !AllSpace(lines[i]))
  {
    if lines != [] {
      var n := |lines|;
      var init := lines[..n - 1];
      NonBlankIndexesAt(init);
      assert forall i :: 0 <= i < n - 1 ==> init[i] == lines[i];
    }
  }

  /**
   * The filtered array of a reply's lines, read at the non-blank indexes:
   * in order, and each element the rendering of its line under the flag
   * OpenBefore describes.
   */
  lemma PresentIsReference(lines: seq<string>)
    ensures var out, idx := Present(MapLines(lines).mapped), NonBlankIndexes(lines);
      && |out| == |idx|
      && (forall j, k :: 0 <= j < k < |idx| ==> idx[j] < idx[k])
      && (forall j :: 0 <= j < |idx| ==>
            idx[j] < |lines| && Some(out[j]) == RenderLine(lines[idx[j]], OpenBefore(Kinds(lines), idx[j])))
  {
    var xs := MapLines(lines).mapped;
    MappedBlank(lines);
    MappedIsReference(lines);
    SomeIndexesOfLines(xs, lines);
    PresentAt(xs);
    var idx := SomeIndexes(xs);
    forall j | 0 <= j < |idx|
      ensures Some(Present(xs)[j]) == RenderLine(lines[idx[j]], OpenBefore(Kinds(lines), idx[j]))
    {
      assert xs[idx[j]] == Some(Present(xs)[j]);
    }
  }

  /**
   * formatResponse emits one element per line whose trim is not empty, in
   * the order of the lines, and nothing for the other lines; the element
   * for a line is what the line renders to under the flag OpenBefore
   * describes.
   */
  lemma FormattedLines(text: string)
    ensures var lines, out, idx := SplitLines(text), Formatted(text), NonBlankIndexes(SplitLines(text));
      && |out| == |idx|
      && (forall j, k :: 0 <= j < k < |idx| ==> idx[j] < idx[k])
      && (forall i :: 0 <= i < |lines| ==> (i in idx <==> !AllSpace(lines[i])))
      && (forall j :: 0 <= j < |idx| ==>
            idx[j] < |lines| && Some(out[j]) == RenderLine(lines[idx[j]], OpenBefore(Kinds(lines), idx[j])))
  {
    var lines := SplitLines(text);
    NonBlankIndexesAt(lines);
    PresentIsReference(lines);
    assert Formatted(text) == Present(MapLines(lines).mapped);
  }
}
