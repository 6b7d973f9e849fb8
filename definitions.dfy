/**
 * Stage 2 of `process_markdown`: `re.findall(r"(?m)^\[\^([^\]]+)\]:\s*(.*)$", text)`
 * on the original text. A definition starts at the beginning of a line with
 * a marker `[^label]:`; the greedy `\s*` then skips whitespace (line feeds
 * included) and the content is the rest of the line it stops in.
 */
module Definitions {
  import opened Wrappers
  import opened Text
  import opened References

  /** A `(label, content)` pair found by the definition pattern. */
  datatype Definition = Definition(orig: string, content: string)

  /** `^` under `(?m)`: index p begins a line. */
  predicate LineStart(s: string, p: nat)
    requires p <= |s|
  {
    p == 0 || s[p - 1] == '\n'
  }

  /**
   * The definition pattern matches `s[p..e]`, capturing `d`: a marker at a
   * line start, maximal whitespace after the colon, and the content up to
   * the end of its line.
   */
  ghost predicate DefinitionMatch(s: string, p: nat, d: Definition, e: nat) {
    var j := p + 2 + |d.orig|;
    var c := e - |d.content|;
    && p <= |s| && LineStart(s, p)
    && DefinitionMarker(s, p, j) && s[p + 2..j] == d.orig
    && j + 2 <= c <= e <= |s|
    && (forall k :: j + 2 <= k < c ==> IsSpace(s[k]))
    && (c < |s| ==> !IsSpace(s[c]))
    && s[c..e] == d.content
    && (forall k :: c <= k < e ==> s[k] != '\n')
    && (e == |s| || s[e] == '\n')
  }

  /** A definition match begins with a marker `[^label]` at a line start. */
  lemma MatchHasMarker(s: string, p: nat, d: Definition, e: nat)
    requires DefinitionMatch(s, p, d, e)
    ensures RefMatch(s, p, p + 2 + |d.orig|) && s[p + 2..p + 2 + |d.orig|] == d.orig
    ensures p == 0 || s[p - 1] == '\n'
  {
  }

  /** The captured content lies within one line. */
  lemma MatchContentIsOneLine(s: string, p: nat, d: Definition, e: nat)
    requires DefinitionMatch(s, p, d, e)
    ensures '\n' !in d.content
  {
    var c := e - |d.content|;
    assert forall k :: 0 <= k < |d.content| ==> d.content[k] == s[c..e][k];
  }

  datatype Found = Found(def: Definition, end: nat)

  /** After a marker at a line start the pattern always matches: `\s*` and `(.*)` may match nothing. */
  lemma MatchFound(s: string, p: nat, j: nat)
    requires p <= |s| && LineStart(s, p) && DefinitionMarker(s, p, j)
    ensures var c := SkipSpace(s, j + 2); var e := LineEnd(s, c);
            DefinitionMatch(s, p, Definition(s[p + 2..j], s[c..e]), e)
  {
  }

  /** The attempt of the definition pattern at index p. */
  function DefinitionAt(s: string, p: nat): (r: Option<Found>)
    requires p <= |s|
    ensures r.Some? ==> p < r.value.end && DefinitionMatch(s, p, r.value.def, r.value.end)
    ensures r.None? ==> forall d, e :: !DefinitionMatch(s, p, d, e)
  {
    if !LineStart(s, p) then None
    else match RefEnd(s, p)
      case None => None
      case Some(j) =>
        if j + 1 < |s| && s[j + 1] == ':' then
          var c := SkipSpace(s, j + 2);
          var e := LineEnd(s, c);
          MatchFound(s, p, j);
          Some(Found(Definition(s[p + 2..j], s[c..e]), e))
        else None
  }

  ghost predicate DefinedAfter(s: string, i: nat, d: Definition) {
    exists p: nat, e: nat :: i <= p && DefinitionMatch(s, p, d, e)
  }

  /** The findall search from index i: after a match it resumes at the match's end. */
  function ExtractFrom(s: string, i: nat): (r: seq<Definition>)
    requires i <= |s|
    ensures forall d :: d in r ==> DefinedAfter(s, i, d)
    decreases |s| - i
  {
    if i == |s| then []
    else match DefinitionAt(s, i)
      case Some(found) => [found.def] + ExtractFrom(s, found.end)
      case None => ExtractFrom(s, i + 1)
  }

  /** Where a match's label, whitespace and content end is fixed by the scanners. */
  lemma MatchEnds(s: string, p: nat, d: Definition, e: nat)
    requires DefinitionMatch(s, p, d, e)
    ensures RefEnd(s, p) == Some(p + 2 + |d.orig|)
    ensures SkipSpace(s, p + 4 + |d.orig|) == e - |d.content|
    ensures LineEnd(s, e - |d.content|) == e
  {
    SkipSpaceUnique(s, p + 4 + |d.orig|, e - |d.content|);
    LineEndUnique(s, e - |d.content|, e);
  }

  /** Two matches at the same index capture the same definition and end at the same place. */
  lemma MatchesAgree(s: string, p: nat, d: Definition, e: nat, d': Definition, e': nat)
    requires DefinitionMatch(s, p, d, e) && DefinitionMatch(s, p, d', e')
    ensures d == d' && e == e'
  {
    MatchEnds(s, p, d, e);
    MatchEnds(s, p, d', e');
    assert |d.orig| == |d'.orig|;
    assert e == e';
  }

  /** The pattern matches in at most one way at a given index, and DefinitionAt finds it. */
  lemma MatchUnique(s: string, p: nat, d: Definition, e: nat)
    requires DefinitionMatch(s, p, d, e)
    ensures DefinitionAt(s, p) == Some(Found(d, e))
  {
    var r := DefinitionAt(s, p);
    assert r.Some?;
    MatchesAgree(s, p, d, e, r.value.def, r.value.end);
  }

  /** The search from i finds nothing exactly when no match begins at or after i. */
  lemma {:induction false} ExtractFromNone(s: string, i: nat)
    requires i <= |s|
    requires forall p: nat, d, e: nat :: i <= p ==> !DefinitionMatch(s, p, d, e)
    ensures ExtractFrom(s, i) == []
    decreases |s| - i
  {
    if i < |s| {
      ExtractFromNone(s, i + 1);
    }
  }

  /** Completeness: a match at or after i means the search from i finds something. */
  lemma {:induction false} ExtractFromFinds(s: string, i: nat, p: nat, d: Definition, e: nat)
    requires i <= p && DefinitionMatch(s, p, d, e)
    ensures ExtractFrom(s, i) != []
    decreases p - i
  {
    if DefinitionAt(s, i).None? {
      assert i != p;
      ExtractFromFinds(s, i + 1, p, d, e);
    }
  }

  /**
   * The search from i yields first the leftmost match at or after i, then
   * resumes at that match's end: together with ExtractFromNone this
   * determines every element of the result.
   */
  lemma {:induction false} ExtractFromLeftmost(s: string, i: nat, q: nat, d: Definition, e: nat)
    requires i <= q && DefinitionMatch(s, q, d, e)
    requires forall p: nat, d', e': nat :: i <= p < q ==> !DefinitionMatch(s, p, d', e')
    ensures ExtractFrom(s, i) == [d] + ExtractFrom(s, e)
    decreases q - i
  {
    if i == q {
      MatchUnique(s, q, d, e);
    } else {
      assert DefinitionAt(s, i).None?;
      ExtractFromLeftmost(s, i + 1, q, d, e);
    }
  }

  /** `footnote_defs` (line 25). */
  function Extract(text: string): seq<Definition> {
    ExtractFrom(text, 0)
  }

  /** `findall` at line 25 returns nothing exactly when the pattern matches nowhere in the text. */
  lemma ExtractEmpty(text: string)
    ensures Extract(text) == [] <==> forall p: nat, d, e: nat :: !DefinitionMatch(text, p, d, e)
  {
    if exists p: nat, d, e: nat :: DefinitionMatch(text, p, d, e) {
      var p: nat, d, e: nat :| DefinitionMatch(text, p, d, e);
      ExtractFromFinds(text, 0, p, d, e);
    } else {
      ExtractFromNone(text, 0);
    }
  }

  /** Extracted contents never hold a line feed: `.` does not match one. */
  lemma ContentsAreSingleLines(text: string)
    ensures forall d :: d in Extract(text) ==> '\n' !in d.content
  {
    forall d | d in Extract(text) ensures '\n' !in d.content {
      var p: nat, e: nat :| DefinitionMatch(text, p, d, e);
      MatchContentIsOneLine(text, p, d, e);
    }
  }

  /**
   * A marker `[^label]` that begins a line (or the text) at or after index i
   * is one of the references the stage-1 search from i finds, unless a
   * reference label found there runs across a line feed.
   */
  lemma {:induction false} MarkerAtLineStartIsReference(s: string, i: nat, p: nat, j: nat)
    requires i <= p && RefMatch(s, p, j)
    requires p == i || s[p - 1] == '\n'
    requires LabelsOnOneLine(Scan(s, i))
    ensures s[p + 2..j] in Labels(Scan(s, i))
    decreases |s| - i
  {
    var (piece, next) := Step(s, i);
    LabelsAppend([piece], Scan(s, next));
    assert Labels([piece]) == if piece.Ref? then [piece.orig] else [];
    if p == i {
      StepAtMatch(s, i, j);
    } else {
      // the line feed at p - 1 cannot lie inside the reference matched at i,
      // whose label holds no line feed
      assert next <= p by {
        if piece.Ref? {
          assert s[i] == '[' && s[i + 1] == '^';
          assert piece.orig in Labels(Scan(s, i));
          assert forall k :: i + 2 <= k < next - 1 ==> s[k] == piece.orig[k - (i + 2)];
        }
      }
      MarkerAtLineStartIsReference(s, next, p, j);
    }
  }

  /** A marker `[^label]` at index p, which begins a line (or the text). */
  ghost predicate MarkerAtLineStart(s: string, p: nat, l: string) {
    RefMatch(s, p, p + 2 + |l|) && s[p + 2..p + 2 + |l|] == l && LineStart(s, p)
  }

  /** Every extracted definition was found at a marker `[^label]:` that begins a line. */
  lemma ExtractedMarker(text: string, d: Definition) returns (p: nat)
    requires d in Extract(text)
    ensures MarkerAtLineStart(text, p, d.orig)
  {
    var p': nat, e: nat :| DefinitionMatch(text, p', d, e);
    MatchHasMarker(text, p', d, e);
    p := p';
  }

  /**
   * When no reference label spans a line, every label extracted at line 25
   * is among the labels numbered at line 21, since both scans read the same
   * text.
   */
  lemma ExtractedLabelsAreNumbered(text: string)
    requires LabelsOnOneLine(Scan(text, 0))
    ensures forall d :: d in Extract(text) ==> d.orig in Labels(Scan(text, 0))
  {
    forall d | d in Extract(text) ensures d.orig in Labels(Scan(text, 0)) {
      var p := ExtractedMarker(text, d);
      LineStartMarkerIsNumbered(text, p, d.orig);
    }
  }

  /** Every extracted definition has a reference match at its marker. */
  lemma ExtractNeedsReference(text: string)
    ensures Extract(text) != [] ==> exists p: nat, j: nat :: RefMatch(text, p, j)
  {
    if Extract(text) != [] {
      var d := Extract(text)[0];
      var p := ExtractedMarker(text, d);
      assert RefMatch(text, p, p + 2 + |d.orig|);
    }
  }

  /** The label of a marker `[^label]` at a line start is among the numbered labels. */
  lemma LineStartMarkerIsNumbered(text: string, p: nat, l: string)
    requires LabelsOnOneLine(Scan(text, 0))
    requires MarkerAtLineStart(text, p, l)
    ensures l in Labels(Scan(text, 0))
  {
    MarkerAtLineStartIsReference(text, 0, p, p + 2 + |l|);
  }
}
