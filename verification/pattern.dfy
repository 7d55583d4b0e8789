/** `re.search(label + "(.+)", text)` for a literal label, with and without
    `re.DOTALL`, as the source uses it to pull one field out of pasted text. */
module Pattern {
  import opened Wrappers

  /** Whether `.` may cross a line break (`re.DOTALL`) or not. */
  datatype Mode = SingleLine | DotAll

  /** `.` accepts `c`: without `re.DOTALL` it refuses only the line feed. */
  predicate Dot(mode: Mode, c: char)
  {
    mode.DotAll? || c != '\n'
  }

  /** The pattern `<lbl>(.+)` matches at index `i`: the label occurs there
      and at least one character that `.` accepts follows it. */
  predicate MatchesAt(s: string, lbl: string, mode: Mode, i: int)
  {
    0 <= i && i + |lbl| < |s| && s[i..i + |lbl|] == lbl && Dot(mode, s[i + |lbl|])
  }

  ghost predicate NoMatch(s: string, lbl: string, mode: Mode)
  {
    forall i :: !MatchesAt(s, lbl, mode, i)
  }

  /** `i` is where `re.search` reports its match: the leftmost start. */
  ghost predicate FirstMatch(s: string, lbl: string, mode: Mode, i: int)
  {
    MatchesAt(s, lbl, mode, i) && forall j :: 0 <= j < i ==> !MatchesAt(s, lbl, mode, j)
  }

  /** The leftmost match at or after `from`, trying each start in turn. */
  function FindFrom(s: string, lbl: string, mode: Mode, from: nat): (r: Option<nat>)
    requires from <= |s|
    ensures r.Some? ==> from <= r.value && r.value + |lbl| < |s|
    decreases |s| - from
  {
    if from + |lbl| >= |s| then None
    else if MatchesAt(s, lbl, mode, from) then Some(from)
    else FindFrom(s, lbl, mode, from + 1)
  }

  /** `FindFrom` reports a match, and no start between `from` and the one
      it reports (or the end of the text, when it reports none) matches. */
  lemma {:induction false} FindFromIsLeftmost(s: string, lbl: string, mode: Mode, from: nat)
    requires from <= |s|
    ensures var r := FindFrom(s, lbl, mode, from);
      && (r.Some? ==> MatchesAt(s, lbl, mode, r.value))
      && (forall j :: from <= j && (r.None? || j < r.value) ==> !MatchesAt(s, lbl, mode, j))
    decreases |s| - from
  {
    if from + |lbl| < |s| && !MatchesAt(s, lbl, mode, from) {
      FindFromIsLeftmost(s, lbl, mode, from + 1);
    }
  }

  /** Where the greedy `.+` that starts at `k` stops. */
  function RunEnd(s: string, mode: Mode, k: nat): (e: nat)
    requires k <= |s|
    ensures k <= e <= |s|
    decreases |s| - k
  {
    if k < |s| && Dot(mode, s[k]) then RunEnd(s, mode, k + 1) else k
  }

  /** `.` accepts every character from `k` up to `RunEnd`, and refuses the
      one there, if any: the run is as long as it can be. */
  lemma {:induction false} RunEndIsGreedy(s: string, mode: Mode, k: nat)
    requires k <= |s|
    ensures forall j :: k <= j < RunEnd(s, mode, k) ==> Dot(mode, s[j])
    ensures RunEnd(s, mode, k) < |s| ==> !Dot(mode, s[RunEnd(s, mode, k)])
    decreases |s| - k
  {
    if k < |s| && Dot(mode, s[k]) {
      RunEndIsGreedy(s, mode, k + 1);
    }
  }

  /** Group 1 of `re.search(lbl + "(.+)", s)`, or `None` when the search
      finds nothing. */
  function Search(s: string, lbl: string, mode: Mode): Option<string>
  {
    match FindFrom(s, lbl, mode, 0)
    case None => None
    case Some(i) => Some(s[i + |lbl|..RunEnd(s, mode, i + |lbl|)])
  }

  /** The search finds nothing exactly when no start matches, and what it
      finds is a non-empty run of characters `.` accepts. */
  lemma SearchNoneIffNoMatch(s: string, lbl: string, mode: Mode)
    ensures Search(s, lbl, mode).None? <==> NoMatch(s, lbl, mode)
    ensures Search(s, lbl, mode).Some? ==> |Search(s, lbl, mode).value| > 0
    ensures Search(s, lbl, mode).Some? ==>
      forall j :: 0 <= j < |Search(s, lbl, mode).value| ==> Dot(mode, Search(s, lbl, mode).value[j])
  {
    FindFromIsLeftmost(s, lbl, mode, 0);
    var r := FindFrom(s, lbl, mode, 0);
    if r.Some? {
      RunEndIsGreedy(s, mode, r.value + |lbl|);
    }
  }

  /** The capture is the longest run `.` accepts right after the leftmost
      label occurrence that has one: it sits at `i + |lbl|`, and is followed
      by the end of the text or by a character `.` refuses. */
  lemma SearchIsFirstLongest(s: string, lbl: string, mode: Mode, i: int)
    requires FirstMatch(s, lbl, mode, i)
    ensures Search(s, lbl, mode).Some?
    ensures var v := Search(s, lbl, mode).value;
      && i + |lbl| + |v| <= |s|
      && s[i + |lbl|..i + |lbl| + |v|] == v
      && (i + |lbl| + |v| == |s| || !Dot(mode, s[i + |lbl| + |v|]))
  {
    FindFromIsLeftmost(s, lbl, mode, 0);
    var r := FindFrom(s, lbl, mode, 0);
    assert r.Some?;
    assert r.value == i;
    RunEndIsGreedy(s, mode, i + |lbl|);
  }

  /** `e` ends the line that position `k` is on: no line feed in
      `s[k..e]`, and `e` is a line feed or the end of the text. */
  ghost predicate LineEndAt(s: string, k: int, e: int)
  {
    && 0 <= k <= e <= |s|
    && (forall j :: k <= j < e ==> s[j] != '\n')
    && (e == |s| || s[e] == '\n')
  }

  /** Without `re.DOTALL` the capture is the rest of the label's line. */
  lemma SingleLineCaptureIsRestOfLine(s: string, lbl: string, i: int, e: int)
    requires FirstMatch(s, lbl, SingleLine, i)
    requires LineEndAt(s, i + |lbl|, e)
    ensures Search(s, lbl, SingleLine) == Some(s[i + |lbl|..e])
  {
    SearchIsFirstLongest(s, lbl, SingleLine, i);
    SearchNoneIffNoMatch(s, lbl, SingleLine);
    var v := Search(s, lbl, SingleLine).value;
    var k := i + |lbl|;
    assert k + |v| == e;
  }

  /** With `re.DOTALL` the capture runs to the end of the text. */
  lemma DotAllCaptureIsRestOfText(s: string, lbl: string, i: int)
    requires FirstMatch(s, lbl, DotAll, i)
    ensures Search(s, lbl, DotAll) == Some(s[i + |lbl|..])
  {
    SearchIsFirstLongest(s, lbl, DotAll, i);
    var v := Search(s, lbl, DotAll).value;
    assert i + |lbl| + |v| == |s|;
    assert s[i + |lbl|..] == s[i + |lbl|..i + |lbl| + |v|];
  }
}
