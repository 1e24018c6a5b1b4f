// renderWithBold (front/src/components/Chat.jsx:16-28): a line is split
// with the regular expression (\*\*.*?\*\*) under the split algorithm of
// ECMA-262 (RegExp.prototype[@@split]); because the group captures, every
// match is kept in the result between the pieces of text around it. A
// piece that starts and ends with "**" is shown emphasized with every "**"
// deleted; any other piece is shown as it is.
module Bold {
  import opened Wrappers
  import opened JsText

  /** One piece of a rendered line: emphasized (the <strong> element) or plain text. */
  datatype Frag = Frag(emphasized: bool, text: string)

  /**
   * A string the pattern matches as a whole: "**", then characters that
   * are not line terminators and hold no "**", then the first "**" after
   * that (the lazy `.*?` stops at the earliest closing marker).
   */
  predicate IsBoldSpan(t: string) {
    |t| >= 4 && MarkerAt(t, 0) && MarkerAt(t, |t| - 2) &&
    forall j :: 2 <= j < |t| - 2 ==> !IsLineTerminator(t[j]) && !MarkerAt(t, j)
  }

  /** A bold span of `s` ending at `e` fixes that end: no two spans start at one place. */
  lemma BoldSpanEndUnique(s: string, q: nat, e1: nat, e2: nat)
    requires q <= e1 <= |s| && q <= e2 <= |s|
    requires IsBoldSpan(s[q..e1]) && IsBoldSpan(s[q..e2])
    ensures e1 == e2
  {
    if e1 < e2 {
      var j := e1 - 2 - q;
      assert MarkerAt(s[q..e1], j);
      assert MarkerAt(s[q..e2], j);
    } else if e2 < e1 {
      var j := e2 - 2 - q;
      assert MarkerAt(s[q..e2], j);
      assert MarkerAt(s[q..e1], j);
    }
  }

  /**
   * The lazy tail `.*?\*\*` tried from index k: the end of the first "**"
   * at or after k that is reached without crossing a line terminator.
   */
  function CloseFrom(s: string, k: nat): (r: Option<nat>)
    requires k <= |s|
    ensures r.Some? ==> k + 2 <= r.value <= |s| && MarkerAt(s, r.value - 2)
    ensures r.Some? ==> forall j :: k <= j < r.value - 2 ==> !IsLineTerminator(s[j]) && !MarkerAt(s, j)
    ensures r.None? ==> forall j :: k <= j && MarkerAt(s, j) ==> exists t :: k <= t < j && IsLineTerminator(s[t])
    decreases |s| - k
  {
    if MarkerAt(s, k) then Some(k + 2)
    else if k < |s| && !IsLineTerminator(s[k]) then CloseFrom(s, k + 1)
    else None
  }

  /**
   * The match of the pattern at index q, as its end index: when there is
   * one, it is a bold span starting at q (MatchAtComplete: and every bold
   * span starting at q is it).
   */
  function MatchAt(s: string, q: nat): (r: Option<nat>)
    requires q <= |s|
    ensures r.Some? ==> q + 4 <= r.value <= |s| && IsBoldSpan(s[q..r.value])
  {
    var r := if MarkerAt(s, q) then CloseFrom(s, q + 2) else None;
    assert r.Some? ==> IsBoldSpan(s[q..r.value]) by {
      if r.Some? {
        var t := s[q..r.value];
        forall j | 2 <= j < |t| - 2 ensures !IsLineTerminator(t[j]) && !MarkerAt(t, j) {
          assert !MarkerAt(s, q + j);
        }
        assert MarkerAt(s, r.value - 2);
      }
    }
    r
  }

  /** A bold span starting at q is found by the match there: the lazy match misses no span. */
  lemma MatchAtComplete(s: string, q: nat, e: nat)
    requires q <= e <= |s| && IsBoldSpan(s[q..e])
    ensures MatchAt(s, q) == Some(e)
  {
    var t := s[q..e];
    assert MarkerAt(t, 0);
    assert MarkerAt(s, e - 2) by { assert MarkerAt(t, |t| - 2); }
    assert MatchAt(s, q).Some?;
    BoldSpanEndUnique(s, q, MatchAt(s, q).value, e);
  }

  /**
   * The ES split loop: p is where the current piece of text began, q the
   * next index to try a match at. A match [q, e) closes the piece s[p..q],
   * is itself kept (the capture), and the scan resumes at e.
   */
  function SplitFrom(s: string, p: nat, q: nat): seq<string>
    requires p <= q <= |s|
    decreases |s| - q
  {
    if q == |s| then [s[p..]]
    else
      match MatchAt(s, q)
      case Some(e) => [s[p..q], s[q..e]] + SplitFrom(s, e, e)
      case None => SplitFrom(s, p, q + 1)
  }

  /** Two pieces put in front of the rest: where each piece lands. */
  lemma ConsTwo(g: string, b: string, rest: seq<string>)
    ensures |[g, b] + rest| == |rest| + 2
    ensures ([g, b] + rest)[0] == g && ([g, b] + rest)[1] == b && ([g, b] + rest)[2..] == rest
    ensures forall i :: 2 <= i < |rest| + 2 ==> ([g, b] + rest)[i] == rest[i - 2]
  {
  }

  /** Two pieces put in front of the rest lay out the two, then the rest. */
  lemma ConsTwoConcat(g: string, b: string, rest: seq<string>)
    ensures |[g, b] + rest| == |rest| + 2
    ensures Concat([g, b] + rest) == g + (b + Concat(rest))
  {
    var parts := [g, b] + rest;
    assert parts[1..] == [b] + rest;
    assert parts[1..][1..] == rest;
  }

  /** A suffix cut at two more places. */
  lemma SliceThree(s: string, p: nat, q: nat, e: nat)
    requires p <= q <= e <= |s|
    ensures s[p..] == s[p..q] + (s[q..e] + s[e..])
  {
  }

  /** The pieces from p on give back s[p..] when laid end to end, and are odd in number. */
  lemma {:induction false} SplitFromConcat(s: string, p: nat, q: nat)
    requires p <= q <= |s|
    ensures |SplitFrom(s, p, q)| % 2 == 1
    ensures Concat(SplitFrom(s, p, q)) == s[p..]
    decreases |s| - q
  {
    if q == |s| {
      assert Concat([s[p..]]) == s[p..] + Concat([]);
    } else {
      match MatchAt(s, q)
      case Some(e) =>
        var rest := SplitFrom(s, e, e);
        SplitFromConcat(s, e, e);
        ConsTwoConcat(s[p..q], s[q..e], rest);
        SliceThree(s, p, q, e);
        assert SplitFrom(s, p, q) == [s[p..q], s[q..e]] + rest;
        ParityPlusTwo(|rest|);
      case None =>
        SplitFromConcat(s, p, q + 1);
    }
  }

  /** The pieces from p on at odd indexes are bold spans. */
  lemma {:induction false} SplitFromSpans(s: string, p: nat, q: nat)
    requires p <= q <= |s|
    ensures forall i :: 0 <= i < |SplitFrom(s, p, q)| && i % 2 == 1 ==> IsBoldSpan(SplitFrom(s, p, q)[i])
    decreases |s| - q
  {
    if q < |s| {
      match MatchAt(s, q)
      case Some(e) =>
        SplitFromSpans(s, e, e);
        ConsTwo(s[p..q], s[q..e], SplitFrom(s, e, e));
      case None =>
        SplitFromSpans(s, p, q + 1);
    }
  }

  /**
   * The pieces from p on give back s[p..] when laid end to end, are odd in
   * number, and those at odd indexes are bold spans.
   */
  lemma SplitFromShape(s: string, p: nat, q: nat)
    requires p <= q <= |s|
    ensures |SplitFrom(s, p, q)| % 2 == 1
    ensures Concat(SplitFrom(s, p, q)) == s[p..]
    ensures forall i :: 0 <= i < |SplitFrom(s, p, q)| && i % 2 == 1 ==> IsBoldSpan(SplitFrom(s, p, q)[i])
  {
    SplitFromConcat(s, p, q);
    SplitFromSpans(s, p, q);
  }

  /** No bold span lies anywhere inside `g`. */
  predicate SpanFree(g: string) {
    forall a, b :: 0 <= a <= b <= |g| ==> !IsBoldSpan(g[a..b])
  }

  /** A stretch of `s` at none of whose indexes a match starts holds no bold span. */
  lemma SpanFreeSlice(s: string, p: nat, q: nat)
    requires p <= q <= |s|
    requires forall t :: p <= t < q ==> MatchAt(s, t).None?
    ensures SpanFree(s[p..q])
  {
    forall a, b | 0 <= a <= b <= q - p ensures !IsBoldSpan(s[p..q][a..b]) {
      assert forall k :: 0 <= k < b - a ==> s[p..q][a..b][k] == s[p + a..p + b][k];
      assert s[p..q][a..b] == s[p + a..p + b];
      NoMatchNoSpan(s, p + a);
    }
  }

  /** No bold span of `s` starts at index t. */
  predicate NoSpanAt(s: string, t: nat)
    requires t <= |s|
  {
    forall e {:trigger IsBoldSpan(s[t..e])} :: t <= e <= |s| ==> !IsBoldSpan(s[t..e])
  }

  /** The match test at an index fails exactly when no bold span starts there. */
  lemma NoMatchNoSpan(s: string, t: nat)
    requires t <= |s|
    ensures MatchAt(s, t).None? <==> NoSpanAt(s, t)
  {
    if MatchAt(s, t).Some? {
      var e := MatchAt(s, t).value;
      assert IsBoldSpan(s[t..e]);
    }
    forall e | t <= e <= |s| && IsBoldSpan(s[t..e]) ensures MatchAt(s, t).Some? {
      MatchAtComplete(s, t, e);
    }
  }

  /**
   * The split of s[p..] described without the scan, in terms of the whole
   * line: the pieces alternate between text at none of whose indexes a
   * bold span of `s` starts and the bold span of `s` that starts right
   * after it, and the last piece runs to the end of `s`, again with no
   * bold span starting inside it.
   */
  predicate SplitsAs(s: string, p: nat, parts: seq<string>)
    requires p <= |s|
    decreases |parts|
  {
    if |parts| == 1 then
      parts[0] == s[p..] && forall t :: p <= t < |s| ==> NoSpanAt(s, t)
    else
      |parts| >= 3 &&
      var m, e := p + |parts[0]|, p + |parts[0]| + |parts[1]|;
      e <= |s| && s[p..m] == parts[0] && s[m..e] == parts[1] && IsBoldSpan(parts[1]) &&
      (forall t :: p <= t < m ==> NoSpanAt(s, t)) &&
      SplitsAs(s, e, parts[2..])
  }

  /** A gap, the bold span after it, and a description of the rest describe the whole. */
  lemma SplitsAsIntro(s: string, p: nat, m: nat, e: nat, rest: seq<string>)
    requires p <= m <= e <= |s| && IsBoldSpan(s[m..e])
    requires forall t :: p <= t < m ==> NoSpanAt(s, t)
    requires SplitsAs(s, e, rest)
    ensures SplitsAs(s, p, [s[p..m], s[m..e]] + rest)
  {
    ConsTwo(s[p..m], s[m..e], rest);
  }

  /** The split from a scan position with no match before it fits the description. */
  lemma {:induction false} SplitFromSplitsAs(s: string, p: nat, q: nat)
    requires p <= q <= |s|
    requires forall t :: p <= t < q ==> NoSpanAt(s, t)
    ensures SplitsAs(s, p, SplitFrom(s, p, q))
    decreases |s| - q
  {
    if q == |s| {
      assert SplitFrom(s, p, q) == [s[p..]];
    } else {
      NoMatchNoSpan(s, q);
      match MatchAt(s, q)
      case Some(e) =>
        var rest := SplitFrom(s, e, e);
        SplitFromSplitsAs(s, e, e);
        SplitsAsIntro(s, p, q, e, rest);
        assert SplitFrom(s, p, q) == [s[p..q], s[q..e]] + rest;
      case None =>
        SplitFromSplitsAs(s, p, q + 1);
    }
  }

  /**
   * Every piece of text the split keeps between matches is free of bold
   * spans, on its own and within the line: no span of the line starts
   * inside it, so the split takes each span at its leftmost start and
   * misses none.
   */
  lemma {:induction false} GapsSpanFree(s: string, p: nat, q: nat)
    requires p <= q <= |s|
    requires forall t :: p <= t < q ==> MatchAt(s, t).None?
    ensures SplitsAs(s, p, SplitFrom(s, p, q))
    ensures forall i :: 0 <= i < |SplitFrom(s, p, q)| && i % 2 == 0 ==> SpanFree(SplitFrom(s, p, q)[i])
    decreases |s| - q
  {
    forall t | p <= t < q ensures NoSpanAt(s, t) {
      NoMatchNoSpan(s, t);
    }
    SplitFromSplitsAs(s, p, q);
    GapsIsolated(s, p, q);
  }

  /** The gaps of the split from p on, each on its own, hold no bold span. */
  lemma {:induction false} GapsIsolated(s: string, p: nat, q: nat)
    requires p <= q <= |s|
    requires forall t :: p <= t < q ==> MatchAt(s, t).None?
    ensures forall i :: 0 <= i < |SplitFrom(s, p, q)| && i % 2 == 0 ==> SpanFree(SplitFrom(s, p, q)[i])
    decreases |s| - q
  {
    if q == |s| {
      SpanFreeSlice(s, p, q);
      assert s[p..q] == s[p..];
    } else {
      match MatchAt(s, q)
      case Some(e) =>
        SpanFreeSlice(s, p, q);
        GapsIsolated(s, e, e);
        ConsTwo(s[p..q], s[q..e], SplitFrom(s, e, e));
      case None =>
        GapsIsolated(s, p, q + 1);
    }
  }

  /** A description with more than one piece has a bold span starting inside the line. */
  lemma FirstSpan(s: string, p: nat, parts: seq<string>)
    requires p <= |s| && SplitsAs(s, p, parts)
    ensures |parts| != 1 ==> p + |parts[0]| < |s| && !NoSpanAt(s, p + |parts[0]|)
  {
    if |parts| != 1 {
      var m, e := p + |parts[0]|, p + |parts[0]| + |parts[1]|;
      assert IsBoldSpan(s[m..e]);
    }
  }

  /** A description of s[p..] as one piece leaves no room for another with more. */
  lemma SingleOnly(s: string, p: nat, a: seq<string>, b: seq<string>)
    requires p <= |s|
    requires SplitsAs(s, p, a) && SplitsAs(s, p, b)
    ensures |a| == 1 ==> |b| == 1
  {
    FirstSpan(s, p, b);
    if |a| == 1 && |b| != 1 {
      assert false;
    }
  }

  /** Two descriptions with a span each put their first span at the same index. */
  lemma SameFirstGap(s: string, p: nat, a: seq<string>, b: seq<string>)
    requires p <= |s|
    requires SplitsAs(s, p, a) && SplitsAs(s, p, b) && |a| != 1 && |b| != 1
    ensures |a[0]| == |b[0]|
  {
    FirstSpan(s, p, a);
    FirstSpan(s, p, b);
    if |a[0]| != |b[0]| {
      assert false;
    }
  }

  /** A description with more than one piece: its first gap, its first span, and the rest. */
  lemma SplitsAsCons(s: string, p: nat, parts: seq<string>)
    requires p <= |s| && SplitsAs(s, p, parts) && |parts| != 1
    ensures var m := p + |parts[0]|; var e := m + |parts[1]|;
      && |parts| >= 3 && e <= |s|
      && parts[0] == s[p..m] && parts[1] == s[m..e] && IsBoldSpan(s[m..e])
      && SplitsAs(s, e, parts[2..])
  {
  }

  /** Lists that agree on their first two entries and on the rest are equal. */
  lemma SameHeadTail(a: seq<string>, b: seq<string>)
    requires |a| >= 2 && |b| >= 2
    requires a[0] == b[0] && a[1] == b[1] && a[2..] == b[2..]
    ensures a == b
  {
    assert a == [a[0], a[1]] + a[2..];
    assert b == [b[0], b[1]] + b[2..];
  }

  /** Two descriptions with a span each agree on their first gap and first span. */
  lemma SameFirstTwo(s: string, p: nat, a: seq<string>, b: seq<string>)
    requires p <= |s|
    requires SplitsAs(s, p, a) && SplitsAs(s, p, b) && |a| != 1 && |b| != 1
    ensures |a| >= 3 && |b| >= 3 && a[0] == b[0] && a[1] == b[1]
    ensures p + |a[0]| + |a[1]| <= |s|
    ensures SplitsAs(s, p + |a[0]| + |a[1]|, a[2..]) && SplitsAs(s, p + |a[0]| + |a[1]|, b[2..])
  {
    SameFirstGap(s, p, a, b);
    SplitsAsCons(s, p, a);
    SplitsAsCons(s, p, b);
    var m := p + |a[0]|;
    BoldSpanEndUnique(s, m, m + |a[1]|, m + |b[1]|);
  }

  /** The description fits one list of pieces only. */
  lemma {:induction false} SplitsAsUnique(s: string, p: nat, a: seq<string>, b: seq<string>)
    requires p <= |s|
    requires SplitsAs(s, p, a) && SplitsAs(s, p, b)
    ensures a == b
    decreases |a|
  {
    SingleOnly(s, p, a, b);
    SingleOnly(s, p, b, a);
    if |a| != 1 {
      SameFirstTwo(s, p, a, b);
      SplitsAsUnique(s, p + |a[0]| + |a[1]|, a[2..], b[2..]);
      SameHeadTail(a, b);
    }
  }

  /** With no "**" left from the scan position on, the rest is one last piece. */
  lemma {:induction false} SplitMarkerFree(s: string, p: nat, q: nat)
    requires p <= q <= |s|
    requires forall j :: q <= j < |s| ==> !MarkerAt(s, j)
    ensures SplitFrom(s, p, q) == [s[p..]]
    decreases |s| - q
  {
    if q < |s| {
      assert !MarkerAt(s, q);
      SplitMarkerFree(s, p, q + 1);
    }
  }

  /** The pieces of `text.split(/(\*\*.*?\*\*)/g)`. */
  function Parts(text: string): seq<string> {
    SplitFrom(text, 0, 0)
  }

  /**
   * The split loses nothing and misses nothing: laid end to end the pieces
   * give back the text; they alternate between text that holds no bold
   * span (even indexes) and bold spans (odd indexes); a text with no "**"
   * stays whole.
   */
  lemma PartsShape(text: string)
    ensures Concat(Parts(text)) == text
    ensures |Parts(text)| % 2 == 1
    ensures forall i :: 0 <= i < |Parts(text)| && i % 2 == 1 ==> IsBoldSpan(Parts(text)[i])
    ensures forall i :: 0 <= i < |Parts(text)| && i % 2 == 0 ==> SpanFree(Parts(text)[i])
    ensures SplitsAs(text, 0, Parts(text))
    ensures MarkerFree(text) ==> Parts(text) == [text]
  {
    SplitFromShape(text, 0, 0);
    GapsSpanFree(text, 0, 0);
    if MarkerFree(text) {
      SplitMarkerFree(text, 0, 0);
      assert text[0..] == text;
    }
  }

  /** The pieces are the only ones that fit the description of the split. */
  lemma PartsUnique(text: string, parts: seq<string>)
    requires SplitsAs(text, 0, parts)
    ensures parts == Parts(text)
  {
    PartsShape(text);
    SplitsAsUnique(text, 0, parts, Parts(text));
  }

  /** Deleting the markers from a bold span leaves exactly the text between them. */
  lemma SpanText(t: string)
    requires IsBoldSpan(t)
    ensures RemoveMarkers(t) == t[2..|t| - 2]
  {
    var u := t[2..];
    forall j | 0 <= j < |u| - 2 ensures !MarkerAt(u, j) { assert !MarkerAt(t, j + 2); }
    assert MarkerAt(u, |u| - 2) by { assert MarkerAt(t, |t| - 2); }
    InnerThenMarker(u);
  }

  lemma {:induction false} InnerThenMarker(u: string)
    requires |u| >= 2 && MarkerAt(u, |u| - 2)
    requires forall j :: 0 <= j < |u| - 2 ==> !MarkerAt(u, j)
    ensures RemoveMarkers(u) == u[..|u| - 2]
    decreases |u|
  {
    if |u| > 2 {
      assert !MarkerAt(u, 0);
      var v := u[1..];
      forall j | 0 <= j < |v| - 2 ensures !MarkerAt(v, j) { assert !MarkerAt(u, j + 1); }
      assert MarkerAt(v, |v| - 2);
      InnerThenMarker(v);
      assert u[..|u| - 2] == [u[0]] + v[..|v| - 2];
    }
  }

  /** How one piece of the split is shown. */
  function ShowPart(part: string): Frag {
    if StartsWith(part, "**") && EndsWith(part, "**") then Frag(true, RemoveMarkers(part))
    else Frag(false, part)
  }

  /**
   * A piece is shown emphasized exactly when it starts and ends with "**",
   * and then without any "**"; otherwise as it is. A bold span is shown as
   * the text between its markers.
   */
  lemma ShowPartShape(t: string)
    ensures ShowPart(t).emphasized <==> StartsWith(t, "**") && EndsWith(t, "**")
    ensures if ShowPart(t).emphasized then MarkerFree(ShowPart(t).text) else ShowPart(t).text == t
    ensures IsBoldSpan(t) ==> ShowPart(t) == Frag(true, t[2..|t| - 2])
  {
    if IsBoldSpan(t) {
      assert MarkerAt(t, 0) && MarkerAt(t, |t| - 2);
      assert t[..2] == "**" && t[|t| - 2..] == "**";
      SpanText(t);
    }
  }

  /** `parts.map(...)`: every piece shown, in order. */
  function ShowParts(parts: seq<string>): seq<Frag> {
    if parts == [] then [] else [ShowPart(parts[0])] + ShowParts(parts[1..])
  }

  lemma {:induction false} ShowPartsAt(parts: seq<string>)
    ensures |ShowParts(parts)| == |parts|
    ensures forall i :: 0 <= i < |parts| ==> ShowParts(parts)[i] == ShowPart(parts[i])
  {
    if parts != [] {
      ShowPartsAt(parts[1..]);
    }
  }

  /** renderWithBold: the pieces of the split, shown. */
  function RenderWithBold(text: string): seq<Frag> {
    ShowParts(Parts(text))
  }

  /**
   * One fragment per piece of the split. A fragment is emphasized exactly
   * when its piece starts and ends with "**"; every bold span becomes the
   * emphasized text between its markers; emphasized text never holds "**";
   * plain fragments are their pieces unchanged; and a line with no "**" is
   * one plain fragment equal to the line.
   */
  lemma RenderWithBoldShape(text: string)
    ensures var frags, parts := RenderWithBold(text), Parts(text);
      && |frags| == |parts|
      && (forall i :: 0 <= i < |frags| ==>
            (frags[i].emphasized <==> StartsWith(parts[i], "**") && EndsWith(parts[i], "**")))
      && (forall i :: 0 <= i < |frags| && i % 2 == 1 ==>
            IsBoldSpan(parts[i]) && frags[i] == Frag(true, parts[i][2..|parts[i]| - 2]))
      && (forall i :: 0 <= i < |frags| ==>
            if frags[i].emphasized then MarkerFree(frags[i].text) else frags[i].text == parts[i])
      && (MarkerFree(text) ==> frags == [Frag(false, text)])
  {
    var parts, frags := Parts(text), RenderWithBold(text);
    SplitFromShape(text, 0, 0);
    ShowPartsAt(parts);
    forall i | 0 <= i < |parts|
      ensures frags[i].emphasized <==> StartsWith(parts[i], "**") && EndsWith(parts[i], "**")
      ensures if frags[i].emphasized then MarkerFree(frags[i].text) else frags[i].text == parts[i]
      ensures i % 2 == 1 ==> IsBoldSpan(parts[i]) && frags[i] == Frag(true, parts[i][2..|parts[i]| - 2])
    {
      ShowPartShape(parts[i]);
    }
    if MarkerFree(text) {
      SplitMarkerFree(text, 0, 0);
      assert text[0..] == text;
      assert parts == [text];
      assert !StartsWith(text, "**") by {
        if |text| >= 2 {
          assert !MarkerAt(text, 0);
          assert text[..2][0] == text[0] && text[..2][1] == text[1];
        }
      }
    }
  }
}
