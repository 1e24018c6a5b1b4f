// The JavaScript string built-ins the chat view relies on, over Dafny
// strings: String.prototype.trim, startsWith, endsWith, split("\n"),
// replace with a string pattern (first occurrence only) and
// replace(/\*\*/g, "") (every non-overlapping "**", left to right).
// Characters are Unicode scalar values; JavaScript works on UTF-16 code
// units, which makes no difference to any of these operations.
module JsText {

  /** LineTerminator of ECMA-262 section 12.3: what `.` in a regular expression does not match. */
  predicate IsLineTerminator(c: char) {
    c == '\n' || c == '\r' || c == '\U{2028}' || c == '\U{2029}'
  }

  /**
   * WhiteSpace (ECMA-262 section 12.2, with the Unicode Zs category written
   * out) or LineTerminator: exactly what trim() strips and `\s` matches.
   */
  predicate IsJsSpace(c: char) {
    c == '\t' || c == '\U{B}' || c == '\U{C}' || c == ' ' || c == '\U{A0}' || c == '\U{FEFF}'
    || c == '\U{1680}' || ('\U{2000}' <= c <= '\U{200A}') || c == '\U{202F}' || c == '\U{205F}'
    || c == '\U{3000}' || IsLineTerminator(c)
  }

  predicate StartsWith(s: string, prefix: string) {
    |prefix| <= |s| && s[..|prefix|] == prefix
  }

  predicate EndsWith(s: string, suffix: string) {
    |suffix| <= |s| && s[|s| - |suffix|..] == suffix
  }

  /** Every character of `s` is white space: the strings trim() empties. */
  predicate AllSpace(s: string) {
    forall i :: 0 <= i < |s| ==> IsJsSpace(s[i])
  }

  /** `s` without its longest white-space prefix. */
  function TrimStart(s: string): (r: string)
    ensures |r| <= |s| && r == s[|s| - |r|..]
    ensures AllSpace(s[..|s| - |r|])
    ensures r == [] || !IsJsSpace(r[0])
  {
    if s != [] && IsJsSpace(s[0]) then TrimStart(s[1..]) else s
  }

  /** `s` without its longest white-space suffix. */
  function TrimEnd(s: string): (r: string)
    ensures |r| <= |s| && r == s[..|r|]
    ensures AllSpace(s[|r|..])
    ensures r == [] || !IsJsSpace(r[|r| - 1])
  {
    if s != [] && IsJsSpace(s[|s| - 1]) then TrimEnd(s[..|s| - 1]) else s
  }

  /** String.prototype.trim: no white space is left at either end. */
  function Trim(s: string): (r: string)
    ensures |r| <= |s|
    ensures r == [] || (!IsJsSpace(r[0]) && !IsJsSpace(r[|r| - 1]))
  {
    TrimEnd(TrimStart(s))
  }

  /** trim() leaves a string that neither starts nor ends with white space as it is. */
  lemma TrimUnpadded(s: string)
    requires s == [] || (!IsJsSpace(s[0]) && !IsJsSpace(s[|s| - 1]))
    ensures TrimStart(s) == s && Trim(s) == s
  {
  }

  /** trim() is idempotent. */
  lemma TrimIdempotent(s: string)
    ensures Trim(Trim(s)) == Trim(s)
  {
    var t := Trim(s);
    if t != [] {
      var u := TrimStart(s);
      assert t == u[..|t|];
      assert t[0] == u[0];
    }
    TrimUnpadded(t);
  }

  /** trim() yields the empty string exactly on all-white-space input. */
  lemma TrimEmptyIffAllSpace(s: string)
    ensures Trim(s) == [] <==> AllSpace(s)
  {
    var t := TrimStart(s);
    if Trim(s) == [] {
      assert s == s[..|s| - |t|];
    } else if t != [] {
      assert t[0] == s[|s| - |t|];
    }
  }

  /** A prefix of the trimmed string is a prefix of the string with only its leading white space removed. */
  lemma TrimmedPrefix(s: string, p: string)
    requires StartsWith(Trim(s), p)
    ensures StartsWith(TrimStart(s), p)
  {
    var t := TrimStart(s);
    var u := TrimEnd(t);
    assert Trim(s) == u && u == t[..|u|];
    assert u[..|p|] == t[..|u|][..|p|] == t[..|p|];
  }

  /** `pat` occurs in `s` at index `i`. */
  predicate OccursAt(s: string, pat: string, i: int) {
    0 <= i && i + |pat| <= |s| && s[i..i + |pat|] == pat
  }

  /** `s.replace(pat, "")` for a string pattern: only the first occurrence goes. */
  function RemoveFirst(s: string, pat: string): (r: string)
    ensures |r| == |s| || |r| == |s| - |pat|
  {
    if StartsWith(s, pat) then s[|pat|..]
    else if s == [] then s
    else [s[0]] + RemoveFirst(s[1..], pat)
  }

  /** RemoveFirst deletes the first occurrence of the pattern and keeps everything around it. */
  lemma {:induction false} RemoveFirstAt(s: string, pat: string, k: nat)
    requires OccursAt(s, pat, k)
    requires forall j :: 0 <= j < k ==> !OccursAt(s, pat, j)
    ensures RemoveFirst(s, pat) == s[..k] + s[k + |pat|..]
    decreases k
  {
    if k == 0 {
      assert StartsWith(s, pat);
    } else {
      assert !OccursAt(s, pat, 0);
      assert !StartsWith(s, pat);
      var t := s[1..];
      assert OccursAt(t, pat, k - 1) by { assert t[k - 1..k - 1 + |pat|] == s[k..k + |pat|]; }
      forall j | 0 <= j < k - 1 ensures !OccursAt(t, pat, j) {
        assert !OccursAt(s, pat, j + 1);
        if j + |pat| <= |t| { assert t[j..j + |pat|] == s[j + 1..j + 1 + |pat|]; }
      }
      RemoveFirstAt(t, pat, k - 1);
      assert s[..k] == [s[0]] + t[..k - 1];
      assert s[k + |pat|..] == t[k - 1 + |pat|..];
    }
  }

  /** "**" starts at index j of s. */
  predicate MarkerAt(s: string, j: int) {
    0 <= j && j + 1 < |s| && s[j] == '*' && s[j + 1] == '*'
  }

  /** `s` contains no "**". */
  predicate MarkerFree(s: string) {
    forall j :: 0 <= j < |s| ==> !MarkerAt(s, j)
  }

  // `s.replace(/\*\*/g, "")`: every "**" found scanning left to right is
  // deleted. Nothing the deletion leaves behind forms a new "**", and a
  // string with no "**" is returned unchanged.
  function RemoveMarkers(s: string): (r: string)
    ensures |r| <= |s|
    ensures MarkerFree(r)
    ensures MarkerFree(s) ==> r == s
    ensures s != [] && s[0] != '*' ==> r != [] && r[0] == s[0]
  {
    if MarkerAt(s, 0) then RemoveMarkers(s[2..])
    else if s == [] then s
    else
      var rest := RemoveMarkers(s[1..]);
      assert MarkerFree(s) ==> MarkerFree(s[1..]) by {
        if MarkerFree(s) {
          forall j | 0 <= j < |s| - 1 ensures !MarkerAt(s[1..], j) { assert !MarkerAt(s, j + 1); }
        }
      }
      assert forall j :: 1 <= j < |rest| + 1 ==> !MarkerAt([s[0]] + rest, j) by {
        forall j | 1 <= j < |rest| + 1 ensures !MarkerAt([s[0]] + rest, j) {
          assert !MarkerAt(rest, j - 1);
        }
      }
      [s[0]] + rest
  }

  /** The number of "*" that `s` starts with. */
  function LeadingStars(s: string): (n: nat)
    ensures n <= |s|
    ensures forall j :: 0 <= j < n ==> s[j] == '*'
    ensures n < |s| ==> s[n] != '*'
  {
    if s != [] && s[0] == '*' then 1 + LeadingStars(s[1..]) else 0
  }

  /**
   * Marker deletion described by runs of stars: every character other
   * than "*" stays, in order, and a maximal run of n stars leaves n % 2.
   */
  function CollapseStars(s: string): string
    decreases |s|
  {
    if s == [] then []
    else if s[0] != '*' then [s[0]] + CollapseStars(s[1..])
    else
      var n := LeadingStars(s);
      (if n % 2 == 1 then "*" else "") + CollapseStars(s[n..])
  }

  /** Two stars fewer at the front: the run is two shorter. */
  lemma LeadingStarsAfterPair(s: string)
    requires LeadingStars(s) >= 2
    ensures LeadingStars(s[2..]) == LeadingStars(s) - 2
  {
    assert s[1..][1..] == s[2..];
  }

  /** Adding two keeps the parity. */
  lemma ParityPlusTwo(n: int)
    ensures (n + 2) % 2 == n % 2
  {
  }

  /** On a leading run of n stars, marker deletion leaves n % 2 of them and goes on after the run. */
  lemma {:induction false} RemoveMarkersRun(s: string, n: nat)
    requires n == LeadingStars(s) && n >= 1
    ensures RemoveMarkers(s) == (if n % 2 == 1 then "*" else "") + RemoveMarkers(s[n..])
    decreases n
  {
    if n == 1 {
      assert !MarkerAt(s, 0);
      assert RemoveMarkers(s) == [s[0]] + RemoveMarkers(s[1..]);
    } else {
      assert MarkerAt(s, 0);
      assert RemoveMarkers(s) == RemoveMarkers(s[2..]);
      if n > 2 {
        LeadingStarsAfterPair(s);
        RemoveMarkersRun(s[2..], n - 2);
        ParityPlusTwo(n - 2);
        assert s[2..][n - 2..] == s[n..];
      }
    }
  }

  // `replace(/\*\*/g, "")` deletes only stars: each run of stars keeps its
  // parity, and everything else stays.
  lemma {:induction false} RemoveMarkersCollapses(s: string)
    ensures RemoveMarkers(s) == CollapseStars(s)
    decreases |s|
  {
    if s != [] {
      if s[0] != '*' {
        assert !MarkerAt(s, 0);
        RemoveMarkersCollapses(s[1..]);
      } else {
        RemoveMarkersRun(s, LeadingStars(s));
        RemoveMarkersCollapses(s[LeadingStars(s)..]);
      }
    }
  }

  /** `s.split("\n")`: the pieces between line feeds, always at least one. */
  function SplitLines(s: string): (lines: seq<string>)
    ensures |lines| >= 1
    ensures forall i :: 0 <= i < |lines| ==> '\n' !in lines[i]
    ensures JoinLines(lines) == s
  {
    if s == [] then [""]
    else
      var rest := SplitLines(s[1..]);
      if s[0] == '\n' then
        assert JoinLines([""] + rest) == "\n" + JoinLines(rest) by {
          assert ([""] + rest)[1..] == rest;
        }
        [""] + rest
      else
        var r := [[s[0]] + rest[0]] + rest[1..];
        assert JoinLines(r) == [s[0]] + JoinLines(rest) by {
          assert r[1..] == rest[1..];
        }
        r
  }

  /** `lines.join("\n")`. */
  function JoinLines(lines: seq<string>): string
    requires |lines| >= 1
  {
    if |lines| == 1 then lines[0] else lines[0] + "\n" + JoinLines(lines[1..])
  }

  /** split("\n") undoes join("\n") on pieces without line feeds. */
  lemma {:induction false} SplitJoin(lines: seq<string>)
    requires |lines| >= 1
    requires forall i :: 0 <= i < |lines| ==> '\n' !in lines[i]
    ensures SplitLines(JoinLines(lines)) == lines
    decreases |lines|
  {
    if |lines| == 1 {
      SplitNoLineFeed(lines[0], []);
    } else {
      SplitJoin(lines[1..]);
      SplitNoLineFeed(lines[0], lines[1..]);
      assert lines == [lines[0]] + lines[1..];
    }
  }

  /** Splitting `a`, then a line feed and the rest, starts with the piece `a`. */
  lemma {:induction false} SplitNoLineFeed(a: string, rest: seq<string>)
    requires '\n' !in a
    requires |rest| >= 1 ==> SplitLines(JoinLines(rest)) == rest
    ensures |rest| == 0 ==> SplitLines(a) == [a]
    ensures |rest| >= 1 ==> SplitLines(a + "\n" + JoinLines(rest)) == [a] + rest
    decreases |a|
  {
    if a != [] {
      SplitNoLineFeed(a[1..], rest);
      var w := if |rest| >= 1 then a + "\n" + JoinLines(rest) else a;
      assert w[0] == a[0] != '\n';
      assert w[1..] == if |rest| >= 1 then a[1..] + "\n" + JoinLines(rest) else a[1..];
      var r := SplitLines(w[1..]);
      assert r == [a[1..]] + rest;
      assert SplitLines(w) == [[w[0]] + r[0]] + r[1..];
      assert [w[0]] + r[0] == a && r[1..] == rest;
    } else if |rest| >= 1 {
      assert a + "\n" + JoinLines(rest) == "\n" + JoinLines(rest);
      assert ("\n" + JoinLines(rest))[1..] == JoinLines(rest);
    }
  }

  /** The pieces laid end to end. */
  function Concat(parts: seq<string>): string {
    if parts == [] then "" else parts[0] + Concat(parts[1..])
  }
}
