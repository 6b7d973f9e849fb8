/**
 * Stage 5, first half, of `process_markdown`: the substitution
 * `re.sub(r"(?m)(\n\s*\[\^[^\]]+\]:.*)+\s*$", "", new_text)` on the
 * renumbered text.
 *
 * One unit of the group is a line feed, the whitespace after it (greedy, so
 * it may span blank lines), a marker `[^label]:` and the rest of that line.
 * The group repeats as often as units follow one another. The closing
 * `\s*$` then takes the whitespace after the last unit: all of it when it
 * runs to the end of the text, otherwise everything up to the last line
 * feed of that whitespace, where `$` (under `(?m)`) matches. Once one unit
 * has matched, the closing part always matches, so a run is removed exactly
 * where a unit begins. The search goes from left to right and resumes
 * behind each removed run, wherever in the text it lies.
 */
module Strip {
  import opened Wrappers
  import opened Text
  import opened References

  /**
   * One unit `\n\s*\[\^[^\]]+\]:.*` matches `s[i..e]`: a line feed at i,
   * whitespace up to the marker at k whose `]` is at j, a colon, and no
   * line feed up to e, where the line ends.
   */
  ghost predicate UnitMatch(s: string, i: nat, k: nat, j: nat, e: nat) {
    && i < k < |s| && s[i] == '\n'
    && (forall t :: i + 1 <= t < k ==> IsSpace(s[t]))
    && DefinitionMarker(s, k, j)
    && j + 2 <= e <= |s|
    && (forall t :: j + 2 <= t < e ==> s[t] != '\n')
    && (e == |s| || s[e] == '\n')
  }

  /** The marker and the end of a matched unit. */
  datatype Unit = Unit(marker: nat, close: nat, end: nat)

  /** A unit is a marker on a line after a line feed; whitespace is never `[`. */
  lemma UnitFound(s: string, i: nat, j: nat)
    requires i < |s| && s[i] == '\n'
    requires DefinitionMarker(s, SkipSpace(s, i + 1), j)
    ensures UnitMatch(s, i, SkipSpace(s, i + 1), j, LineEnd(s, j + 2))
  {
  }

  /** The only unit that can match at i is the one `UnitAt` computes. */
  lemma UnitDetermined(s: string, i: nat, k: nat, j: nat, e: nat)
    requires UnitMatch(s, i, k, j, e)
    ensures SkipSpace(s, i + 1) == k && RefEnd(s, k) == Some(j) && LineEnd(s, j + 2) == e
  {
    SkipSpaceUnique(s, i + 1, k);
    LineEndUnique(s, j + 2, e);
  }

  /** The attempt of one unit at index i. */
  function UnitAt(s: string, i: nat): (r: Option<Unit>)
    requires i <= |s|
    ensures r.Some? ==> i < r.value.end <= |s|
    ensures r.Some? ==> r.value.end == |s| || s[r.value.end] == '\n'
  {
    if i < |s| && s[i] == '\n' then
      var k := SkipSpace(s, i + 1);
      match RefEnd(s, k)
      case Some(j) =>
        if j + 1 < |s| && s[j + 1] == ':' then Some(Unit(k, j, LineEnd(s, j + 2))) else None
      case None => None
    else
      None
  }

  /** What `UnitAt` finds is a unit. */
  lemma UnitAtMatches(s: string, i: nat)
    requires i <= |s| && UnitAt(s, i).Some?
    ensures UnitMatch(s, i, UnitAt(s, i).value.marker, UnitAt(s, i).value.close, UnitAt(s, i).value.end)
  {
    UnitFound(s, i, UnitAt(s, i).value.close);
  }

  /** A unit needs a marker `[^label]:`. */
  lemma UnitAtMarker(s: string, i: nat)
    requires i <= |s|
    ensures UnitAt(s, i).Some? ==> DefinitionMarker(s, UnitAt(s, i).value.marker, UnitAt(s, i).value.close)
  {
  }

  /** Every unit that matches at i is the one `UnitAt` finds; so `UnitAt` misses none. */
  lemma UnitAtUnique(s: string, i: nat)
    requires i <= |s|
    ensures forall k: nat, j: nat, e: nat :: UnitMatch(s, i, k, j, e) ==> UnitAt(s, i) == Some(Unit(k, j, e))
  {
    forall k: nat, j: nat, e: nat | UnitMatch(s, i, k, j, e)
      ensures UnitAt(s, i) == Some(Unit(k, j, e))
    {
      UnitDetermined(s, i, k, j, e);
    }
  }

  /** The group's repetition: units follow one another from e on, as many as match. */
  function MoreUnits(s: string, e: nat): (r: nat)
    requires e <= |s|
    ensures e <= r <= |s|
    ensures UnitAt(s, r).None?
    ensures (e == |s| || s[e] == '\n') ==> (r == |s| || s[r] == '\n')
    decreases |s| - e
  {
    match UnitAt(s, e)
    case Some(u) => MoreUnits(s, u.end)
    case None => e
  }

  /** `(unit)*` matches `s[e..r]`: the units in us, one after another, lead from e to r. */
  ghost predicate Units(s: string, e: nat, us: seq<Unit>, r: nat)
    decreases |us|
  {
    if us == [] then e == r
    else UnitMatch(s, e, us[0].marker, us[0].close, us[0].end) && Units(s, us[0].end, us[1..], r)
  }

  /**
   * `MoreUnits` goes over units from e, one after another, and stops only
   * where no further unit begins: the greedy repetition.
   */
  lemma {:induction false} MoreUnitsChain(s: string, e: nat) returns (us: seq<Unit>)
    requires e <= |s|
    ensures Units(s, e, us, MoreUnits(s, e))
    ensures forall k: nat, j: nat, t: nat :: !UnitMatch(s, MoreUnits(s, e), k, j, t)
    decreases |s| - e
  {
    match UnitAt(s, e)
    case Some(u) =>
      UnitAtMatches(s, e);
      var rest := MoreUnitsChain(s, u.end);
      us := [u] + rest;
      assert us[0] == u && us[1..] == rest;
    case None =>
      us := [];
      UnitAtUnique(s, e);
  }

  /** `\s*$` may end at t after q: only whitespace before t, and t ends a line. */
  ghost predicate TrailStop(s: string, q: nat, t: nat) {
    q <= t <= |s| && (forall x :: q <= x < t ==> IsSpace(s[x])) && (t == |s| || s[t] == '\n')
  }

  /** The last line feed in `s[lo..hi]`, which has one at lo. */
  function LastLineFeed(s: string, lo: nat, hi: nat): (r: nat)
    requires lo < hi <= |s| && s[lo] == '\n'
    ensures lo <= r < hi && s[r] == '\n'
    ensures forall t :: r < t < hi ==> s[t] != '\n'
    decreases hi
  {
    if s[hi - 1] == '\n' then hi - 1 else LastLineFeed(s, lo, hi - 1)
  }

  /**
   * Where the greedy `\s*$` after the units stops: the farthest point in
   * the following whitespace at which a line ends.
   */
  function TrailEnd(s: string, q: nat): (r: nat)
    requires q <= |s| && (q == |s| || s[q] == '\n')
    ensures q <= r <= |s|
  {
    var w := SkipSpace(s, q);
    if w == |s| then |s| else LastLineFeed(s, q, w)
  }

  /** `TrailEnd` is where `\s*$` may stop, and no later point is. */
  lemma TrailEndStops(s: string, q: nat)
    requires q <= |s| && (q == |s| || s[q] == '\n')
    ensures TrailStop(s, q, TrailEnd(s, q))
    ensures forall t: nat :: TrailEnd(s, q) < t ==> !TrailStop(s, q, t)
  {
  }

  /**
   * The attempt of the whole pattern at index i: the end of the removed
   * run, which exists exactly when a unit begins at i.
   */
  function RunEnd(s: string, i: nat): (r: Option<nat>)
    requires i <= |s|
    ensures r.Some? <==> UnitAt(s, i).Some?
    ensures r.Some? ==> UnitAt(s, i).value.end <= r.value <= |s| && i < r.value
  {
    match UnitAt(s, i)
    case Some(u) => Some(TrailEnd(s, MoreUnits(s, u.end)))
    case None => None
  }

  /**
   * What `RunEnd` removes is one match of the whole pattern: a first unit at
   * i and the units that follow it, as many as there are, up to q; then
   * `\s*$` from q to the farthest point where it may stop.
   */
  lemma RunEndMatch(s: string, i: nat) returns (us: seq<Unit>, q: nat)
    requires i <= |s| && RunEnd(s, i).Some?
    ensures us != [] && Units(s, i, us, q)
    ensures forall k: nat, j: nat, t: nat :: !UnitMatch(s, q, k, j, t)
    ensures TrailStop(s, q, RunEnd(s, i).value)
    ensures forall t: nat :: RunEnd(s, i).value < t ==> !TrailStop(s, q, t)
  {
    var u := UnitAt(s, i).value;
    UnitAtMatches(s, i);
    var rest := MoreUnitsChain(s, u.end);
    us, q := [u] + rest, MoreUnits(s, u.end);
    assert us[0] == u && us[1..] == rest;
    TrailEndStops(s, q);
  }

  /** Where `RunEnd` finds nothing, no unit begins, so the pattern cannot match. */
  lemma RunEndNone(s: string, i: nat)
    requires i <= |s| && RunEnd(s, i).None?
    ensures forall k: nat, j: nat, e: nat :: !UnitMatch(s, i, k, j, e)
  {
    UnitAtUnique(s, i);
  }

  /** A piece of the text the strip goes through: a character it keeps, or a run it removes. */
  datatype Cut = Keep(c: char) | Drop(run: string)

  function CutText(c: Cut): string {
    match c
    case Keep(ch) => [ch]
    case Drop(run) => run
  }

  /** What the search finds at p: a removed run from p, or a kept character where no unit begins. */
  ghost predicate CutAt(s: string, p: nat, c: Cut) {
    match c
    case Keep(ch) => p < |s| && s[p] == ch && UnitAt(s, p).None?
    case Drop(run) => p <= |s| && RunEnd(s, p) == Some(p + |run|) && s[p..p + |run|] == run
  }

  /** One move of the search at index i. */
  function CutStep(s: string, i: nat): (r: (Cut, nat))
    requires i < |s|
    ensures i < r.1 <= |s| && CutText(r.0) == s[i..r.1]
  {
    match RunEnd(s, i)
    case Some(m) => (Drop(s[i..m]), m)
    case None => (Keep(s[i]), i + 1)
  }

  /** What one move takes is what the search finds at i. */
  lemma CutStepFound(s: string, i: nat)
    requires i < |s|
    ensures CutAt(s, i, CutStep(s, i).0)
  {
  }

  /** A move of a left-to-right search over s: from each index it takes a piece of s and moves past it. */
  ghost predicate Advances(s: string, step: nat --> (Cut, nat)) {
    forall x: nat :: x < |s| ==>
      step.requires(x) && x < step(x).1 <= |s| && CutText(step(x).0) == s[x..step(x).1]
  }

  /** The cuts a search makes from index i, one move after another. */
  function Walk(s: string, i: nat, step: nat --> (Cut, nat)): seq<Cut>
    requires i <= |s| && Advances(s, step)
    decreases |s| - i
  {
    if i == |s| then []
    else
      var (c, next) := step(i);
      [c] + Walk(s, next, step)
  }

  /** The search of `re.sub` at line 40. */
  function Move(s: string): nat --> (Cut, nat) {
    (x: nat) requires x < |s| => CutStep(s, x)
  }

  lemma MoveAdvances(s: string)
    ensures Advances(s, Move(s))
  {
  }

  /** The search from index i, cut into kept characters and removed runs. */
  function StripScan(s: string, i: nat): seq<Cut>
    requires i <= |s|
  {
    MoveAdvances(s);
    Walk(s, i, Move(s))
  }

  function Whole(cs: seq<Cut>): string {
    if cs == [] then "" else CutText(cs[0]) + Whole(cs[1..])
  }

  /** The characters the strip keeps, in order. */
  function Kept(cs: seq<Cut>): string {
    if cs == [] then ""
    else (if cs[0].Keep? then [cs[0].c] else "") + Kept(cs[1..])
  }

  /** The strip at line 40, before `.rstrip()`. */
  function StripDefinitionRuns(s: string): string {
    Kept(StripScan(s, 0))
  }

  lemma {:induction false} WholeAppend(a: seq<Cut>, b: seq<Cut>)
    ensures Whole(a + b) == Whole(a) + Whole(b)
    decreases |a|
  {
    if a != [] {
      var h := CutText(a[0]);
      assert (a + b)[0] == a[0] && (a + b)[1..] == a[1..] + b;
      assert Whole(a + b) == h + Whole(a[1..] + b);
      WholeAppend(a[1..], b);
      assert Whole(a) == h + Whole(a[1..]);
      Associative(h, Whole(a[1..]), Whole(b));
    } else {
      assert a + b == b;
    }
  }

  /** The pieces of any search, in order, make up the text it went through. */
  lemma {:induction false} WalkRoundTrip(s: string, i: nat, step: nat --> (Cut, nat))
    requires i <= |s| && Advances(s, step)
    ensures Whole(Walk(s, i, step)) == s[i..]
    decreases |s| - i
  {
    if i < |s| {
      var (c, next) := step(i);
      var rest := Walk(s, next, step);
      assert Walk(s, i, step) == [c] + rest;
      WalkRoundTrip(s, next, step);
      WholeAppend([c], rest);
      assert Whole([c]) == CutText(c) == s[i..next];
      assert Whole(Walk(s, i, step)) == s[i..next] + s[next..];
      SplitAt(s, i, next);
    }
  }

  /** The k-th cut from index i is the (k-1)-th from the end of the first cut, at the same offset. */
  lemma WalkShift(s: string, i: nat, k: nat, step: nat --> (Cut, nat))
    requires i <= |s| && Advances(s, step) && 0 < k < |Walk(s, i, step)|
    ensures i < |s| && k - 1 < |Walk(s, step(i).1, step)|
    ensures Walk(s, i, step)[k] == Walk(s, step(i).1, step)[k - 1]
    ensures i + |Whole(Walk(s, i, step)[..k])| ==
            step(i).1 + |Whole(Walk(s, step(i).1, step)[..k - 1])|
  {
    var (first, next) := step(i);
    var cs, rest := Walk(s, i, step), Walk(s, next, step);
    assert cs[..k] == [first] + rest[..k - 1];
    WholeAppend([first], rest[..k - 1]);
    assert Whole([first]) == CutText(first);
  }

  /**
   * The k-th cut of a search from i begins at index p = i + |Whole(cuts
   * before it)|, and it is the cut that one move makes at p.
   */
  lemma {:induction false} WalkSteps(s: string, i: nat, k: nat, p: nat, step: nat --> (Cut, nat))
    requires i <= |s| && Advances(s, step) && k < |Walk(s, i, step)|
    requires p == i + |Whole(Walk(s, i, step)[..k])|
    ensures p < |s| && Walk(s, i, step)[k] == step(p).0
    decreases k
  {
    if k > 0 {
      WalkShift(s, i, k, step);
      WalkSteps(s, step(i).1, k - 1, p, step);
    } else {
      assert Walk(s, i, step)[..k] == [];
    }
  }

  /** The kept characters and the removed runs, in order, make up the whole text. */
  lemma StripScanRoundTrip(s: string, i: nat)
    requires i <= |s|
    ensures Whole(StripScan(s, i)) == s[i..]
  {
    MoveAdvances(s);
    WalkRoundTrip(s, i, Move(s));
  }

  /** One move of the search, then the rest of it. */
  lemma StripScanUnfold(s: string, i: nat)
    requires i < |s|
    ensures StripScan(s, i) == [CutStep(s, i).0] + StripScan(s, CutStep(s, i).1)
  {
    MoveAdvances(s);
    assert Move(s)(i) == CutStep(s, i);
  }

  /** The k-th cut from i begins at p = i + |Whole(cuts before it)| and is the move made at p. */
  lemma StripScanSteps(s: string, i: nat, k: nat, p: nat)
    requires i <= |s| && k < |StripScan(s, i)|
    requires p == i + |Whole(StripScan(s, i)[..k])|
    ensures p < |s| && StripScan(s, i)[k] == CutStep(s, p).0
  {
    MoveAdvances(s);
    WalkSteps(s, i, k, p, Move(s));
    assert Move(s)(p) == CutStep(s, p);
  }

  /**
   * The cuts are the leftmost non-overlapping matches: each kept character
   * is one where no unit begins, and each removed run is the whole match
   * of the pattern at its offset.
   */
  lemma StripScanMatches(s: string, i: nat, k: nat, p: nat)
    requires i <= |s| && k < |StripScan(s, i)|
    requires p == i + |Whole(StripScan(s, i)[..k])|
    ensures CutAt(s, p, StripScan(s, i)[k])
  {
    StripScanSteps(s, i, k, p);
    CutStepFound(s, p);
  }

  /** Without any marker `[^label]:` in the text, the strip changes nothing. */
  lemma {:induction false} StripWithoutMarkers(s: string, i: nat)
    requires i <= |s|
    requires forall k: nat, j: nat :: !DefinitionMarker(s, k, j)
    ensures Kept(StripScan(s, i)) == s[i..]
    decreases |s| - i
  {
    if i < |s| {
      var (c, next) := CutStep(s, i);
      UnitAtMarker(s, i);
      assert c == Keep(s[i]) && next == i + 1;
      StripWithoutMarkers(s, next);
      StripScanUnfold(s, i);
      assert s[i..] == [s[i]] + s[i + 1..];
    }
  }

  /**
   * The first line is always kept: every run begins at a line feed, so a
   * definition at the very start of the text is not removed.
   */
  lemma {:induction false} StripKeepsFirstLine(s: string, i: nat)
    requires i <= LineEnd(s, 0)
    ensures s[i..LineEnd(s, 0)] <= Kept(StripScan(s, i))
    decreases |s| - i
  {
    var l := LineEnd(s, 0);
    if i < l {
      var (c, next) := CutStep(s, i);
      assert s[i] != '\n';
      assert c == Keep(s[i]) && next == i + 1;
      StripKeepsFirstLine(s, next);
      StripScanUnfold(s, i);
      assert s[i..l] == [s[i]] + s[i + 1..l];
    }
  }
}
