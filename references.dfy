/**
 * Stage 1 of `process_markdown`: the substitution of every footnote
 * reference `[^label]` by `[^n]`, where `n` is the label's number in
 * `footnote_map`. The pattern is `\[\^([^\]]+)\]`: an opening bracket, a
 * caret, a non-empty label without `]` (it may hold line feeds) and the
 * first closing bracket after it. `Scan` cuts the text into the pieces that
 * a left-to-right, non-overlapping search produces; `RenumberReferences`
 * performs the substitution with the label map and counter of `replace_ref`.
 */
module References {
  import opened Wrappers
  import opened Text
  import opened LabelMap

  /** `s[i..j+1]` is a reference marker: `[^`, a label of no `]`, and `]` at index j. */
  ghost predicate RefMatch(s: string, i: nat, j: nat) {
    i + 2 < j < |s| && s[i] == '[' && s[i + 1] == '^' && s[j] == ']' &&
    forall k :: i + 2 <= k < j ==> s[k] != ']'
  }

  /** `s[k..j+2]` is a definition marker `[^label]:` (the shape shared by lines 25 and 40). */
  ghost predicate DefinitionMarker(s: string, k: nat, j: nat) {
    RefMatch(s, k, j) && j + 1 < |s| && s[j + 1] == ':'
  }

  /** The first `]` at or after index i, or |s| when there is none. */
  function FindClose(s: string, i: nat): (j: nat)
    requires i <= |s|
    ensures i <= j <= |s|
    ensures j < |s| ==> s[j] == ']'
    ensures forall k :: i <= k < j ==> s[k] != ']'
    decreases |s| - i
  {
    if i == |s| || s[i] == ']' then i else FindClose(s, i + 1)
  }

  /**
   * The attempt of the reference pattern at index i: the index of the closing
   * bracket when the pattern matches there. The match, when there is one, is unique.
   */
  function RefEnd(s: string, i: nat): (r: Option<nat>)
    ensures r.Some? ==> RefMatch(s, i, r.value)
    ensures r.None? ==> forall j :: !RefMatch(s, i, j)
    ensures forall j: nat :: RefMatch(s, i, j) ==> r == Some(j)
  {
    if i + 2 < |s| && s[i] == '[' && s[i + 1] == '^' && s[i + 2] != ']' then
      var j := FindClose(s, i + 2);
      if j < |s| then Some(j) else None
    else None
  }

  /** A piece of scanned text: a character left as it is, or a matched reference. */
  datatype Piece = Plain(c: char) | Ref(orig: string)

  /** The text a piece was cut from. */
  function PieceText(p: Piece): string {
    match p
    case Plain(c) => [c]
    case Ref(l) => "[^" + l + "]"
  }

  function Unscan(ps: seq<Piece>): string {
    if ps == [] then "" else PieceText(ps[0]) + Unscan(ps[1..])
  }

  /** The labels of the matched references, in text order (`match.group(1)` of each match). */
  function Labels(ps: seq<Piece>): seq<string> {
    if ps == [] then []
    else (if ps[0].Ref? then [ps[0].orig] else []) + Labels(ps[1..])
  }

  /**
   * `piece` is what the search finds at index p: a reference matched there,
   * or a character at p where no reference begins.
   */
  ghost predicate PieceAt(s: string, p: nat, piece: Piece) {
    match piece
    case Ref(l) => RefMatch(s, p, p + 2 + |l|) && s[p + 2..p + 2 + |l|] == l
    case Plain(c) => p < |s| && s[p] == c && forall j :: !RefMatch(s, p, j)
  }

  /** No label among the pieces runs across a line feed. */
  ghost predicate LabelsOnOneLine(ps: seq<Piece>) {
    forall l :: l in Labels(ps) ==> '\n' !in l
  }

  /** The text of a matched reference is `[^`, its label and `]`. */
  lemma RefText(s: string, i: nat, j: nat)
    requires RefMatch(s, i, j)
    ensures s[i..j + 1] == "[^" + s[i + 2..j] + "]"
  {
    assert s[i..j + 1] == s[i..i + 2] + s[i + 2..j] + s[j..j + 1];
    assert s[i..i + 2] == "[^";
    assert s[j..j + 1] == "]";
  }

  /**
   * One move of the search at index i: the piece it cuts there and the index
   * where it resumes, behind the match or one character further on.
   */
  function Step(s: string, i: nat): (r: (Piece, nat))
    requires i < |s|
    ensures i < r.1 <= |s| && PieceText(r.0) == s[i..r.1]
  {
    match RefEnd(s, i)
    case Some(j) =>
      RefText(s, i, j);
      (Ref(s[i + 2..j]), j + 1)
    case None => (Plain(s[i]), i + 1)
  }

  /** What one move cuts is what the search finds at i. */
  lemma StepFound(s: string, i: nat)
    requires i < |s|
    ensures PieceAt(s, i, Step(s, i).0)
    ensures Step(s, i).0.Plain? ==> Step(s, i).1 == i + 1
  {
  }

  /** Where a reference begins, one move cuts exactly that reference. */
  lemma StepAtMatch(s: string, i: nat, j: nat)
    requires RefMatch(s, i, j)
    ensures Step(s, i) == (Ref(s[i + 2..j]), j + 1)
  {
    assert RefEnd(s, i) == Some(j);
  }

  /**
   * The left-to-right search of `re.sub` from index i: a match is tried at
   * each index; after a match the search resumes behind it, otherwise one
   * character further on.
   */
  function Scan(s: string, i: nat): seq<Piece>
    requires i <= |s|
    decreases |s| - i
  {
    if i == |s| then []
    else
      var (piece, next) := Step(s, i);
      [piece] + Scan(s, next)
  }

  /** A text without any reference scans into plain characters: nothing is renumbered or changed. */
  lemma {:induction false} ScanWithoutReferences(s: string, i: nat, m: map<string, nat>)
    requires i <= |s|
    requires forall k: nat, j: nat :: !RefMatch(s, k, j)
    ensures Labels(Scan(s, i)) == []
    ensures Render(Scan(s, i), m) == s[i..]
    decreases |s| - i
  {
    if i < |s| {
      StepFound(s, i);
      var (piece, next) := Step(s, i);
      assert piece == Plain(s[i]) && next == i + 1;
      ScanWithoutReferences(s, next, m);
      var ps := Scan(s, i);
      assert ps == [piece] + Scan(s, next);
      assert ps[0] == piece && ps[1..] == Scan(s, next);
      assert s[i..] == [s[i]] + s[i + 1..];
    }
  }

  /**
   * The replacement text of one piece: `[^n]` for a reference whose label
   * has number n, the piece's own text otherwise.
   */
  function RenderPiece(p: Piece, m: map<string, nat>): string
  {
    match p
    case Ref(l) => if l in m then "[^" + Decimal(m[l]) + "]" else PieceText(p)
    case Plain(_) => PieceText(p)
  }

  /** The text after substitution: every reference replaced, everything else as it was. */
  function Render(ps: seq<Piece>, m: map<string, nat>): string
  {
    if ps == [] then "" else RenderPiece(ps[0], m) + Render(ps[1..], m)
  }

  lemma {:induction false} UnscanAppend(a: seq<Piece>, b: seq<Piece>)
    ensures Unscan(a + b) == Unscan(a) + Unscan(b)
    decreases |a|
  {
    if a != [] {
      var h := PieceText(a[0]);
      assert (a + b)[0] == a[0] && (a + b)[1..] == a[1..] + b;
      assert Unscan(a + b) == h + Unscan(a[1..] + b);
      UnscanAppend(a[1..], b);
      assert Unscan(a) == h + Unscan(a[1..]);
      Associative(h, Unscan(a[1..]), Unscan(b));
    } else {
      assert a + b == b;
    }
  }

  lemma {:induction false} LabelsAppend(a: seq<Piece>, b: seq<Piece>)
    ensures Labels(a + b) == Labels(a) + Labels(b)
    decreases |a|
  {
    if a != [] {
      var h := if a[0].Ref? then [a[0].orig] else [];
      assert (a + b)[0] == a[0] && (a + b)[1..] == a[1..] + b;
      assert Labels(a + b) == h + Labels(a[1..] + b);
      LabelsAppend(a[1..], b);
      assert Labels(a) == h + Labels(a[1..]);
      Associative(h, Labels(a[1..]), Labels(b));
    } else {
      assert a + b == b;
    }
  }

  lemma RenderOne(p: Piece, m: map<string, nat>)
    ensures Render([p], m) == RenderPiece(p, m)
  {
    assert [p][1..] == [];
  }

  /**
   * The replacement `[^n]` of line 18 is itself a reference marker whose
   * label is the decimal spelling of n and reads back as n.
   */
  lemma RenderedReference(l: string, m: map<string, nat>)
    requires l in m
    ensures var r := RenderPiece(Ref(l), m);
            && RefMatch(r, 0, |r| - 1)
            && IsDigits(r[2..|r| - 1]) && DigitsValue(r[2..|r| - 1]) == m[l]
  {
    var d := Decimal(m[l]);
    var r := RenderPiece(Ref(l), m);
    assert r == "[^" + d + "]";
    assert r[2..|r| - 1] == d;
    DecimalRoundTrip(m[l]);
  }

  lemma {:induction false} RenderAppend(a: seq<Piece>, b: seq<Piece>, m: map<string, nat>)
    ensures Render(a + b, m) == Render(a, m) + Render(b, m)
    decreases |a|
  {
    if a != [] {
      var h := RenderPiece(a[0], m);
      assert (a + b)[0] == a[0] && (a + b)[1..] == a[1..] + b;
      assert Render(a + b, m) == h + Render(a[1..] + b, m);
      RenderAppend(a[1..], b, m);
      assert Render(a, m) == h + Render(a[1..], m);
      Associative(h, Render(a[1..], m), Render(b, m));
    } else {
      assert a + b == b;
    }
  }

  /** Rendering depends only on the numbers of the labels that occur. */
  lemma {:induction false} RenderExtend(ps: seq<Piece>, m: map<string, nat>, m': map<string, nat>)
    requires forall l :: l in Labels(ps) ==> l in m && l in m' && m'[l] == m[l]
    ensures Render(ps, m) == Render(ps, m')
    decreases |ps|
  {
    if ps != [] {
      RenderExtend(ps[1..], m, m');
    }
  }

  /** Between the matches the text is left alone: the pieces spell the scanned text exactly. */
  lemma {:induction false} ScanRoundTrip(s: string, i: nat)
    requires i <= |s|
    ensures Unscan(Scan(s, i)) == s[i..]
    decreases |s| - i
  {
    if i < |s| {
      var (p, i') := Step(s, i);
      var rest := Scan(s, i');
      assert Scan(s, i) == [p] + rest;
      ScanRoundTrip(s, i');
      UnscanAppend([p], rest);
      assert Unscan([p]) == PieceText(p) == s[i..i'];
      assert Unscan(Scan(s, i)) == s[i..i'] + s[i'..];
      SplitAt(s, i, i');
    }
  }

  /**
   * The pieces are the leftmost non-overlapping matches: the k-th piece
   * begins at index p = i + |Unscan(pieces before it)| of the text and is
   * what the search finds at p.
   */
  lemma {:induction false} ScanMatches(s: string, i: nat, k: nat, p: nat)
    requires i <= |s| && k < |Scan(s, i)|
    requires p == i + |Unscan(Scan(s, i)[..k])|
    ensures PieceAt(s, p, Scan(s, i)[k])
    decreases k
  {
    if k > 0 {
      var next := Step(s, i).1;
      ScanShift(s, i, k);
      ScanMatches(s, next, k - 1, p);
    } else {
      StepFound(s, i);
      assert Scan(s, i)[..k] == [] && Scan(s, i)[0] == Step(s, i).0;
    }
  }

  /** The k-th piece from index i is the (k-1)-th from the end of the first piece, at the same offset. */
  lemma ScanShift(s: string, i: nat, k: nat)
    requires i <= |s| && 0 < k < |Scan(s, i)|
    ensures i < |s|
    ensures Scan(s, i)[k] == Scan(s, Step(s, i).1)[k - 1]
    ensures i + |Unscan(Scan(s, i)[..k])| == Step(s, i).1 + |Unscan(Scan(s, Step(s, i).1)[..k - 1])|
  {
    var (first, i') := Step(s, i);
    var ps, rest := Scan(s, i), Scan(s, i');
    assert ps[..k] == [first] + rest[..k - 1];
    UnscanAppend([first], rest[..k - 1]);
    assert Unscan([first]) == PieceText(first);
  }

  /** One reference more: the text rendered so far keeps its numbers, and the new label's follows. */
  lemma RefStep(done: seq<Piece>, piece: Piece, seen: seq<string>, m: map<string, nat>)
    requires piece.Ref? && seen == Labels(done) && m == Numbering(seen)
    ensures piece.orig in Numbering(seen + [piece.orig])
    ensures Labels(done + [piece]) == seen + [piece.orig]
    ensures Render(done + [piece], Numbering(seen + [piece.orig])) ==
              Render(done, m) + ("[^" + Decimal(Numbering(seen + [piece.orig])[piece.orig]) + "]")
  {
    var m' := Numbering(seen + [piece.orig]);
    LabelsAppend(done, [piece]);
    assert Labels([piece]) == [piece.orig];
    NumberingPrefix(seen + [piece.orig], |seen|);
    assert (seen + [piece.orig])[..|seen|] == seen;
    RenderExtend(done, m, m');
    RenderAppend(done, [piece], m');
    RenderOne(piece, m');
    assert piece.orig in m';
    assert RenderPiece(piece, m') == "[^" + Decimal(m'[piece.orig]) + "]";
  }

  /** One character more: it is rendered as itself and adds no label. */
  lemma PlainStep(done: seq<Piece>, piece: Piece, m: map<string, nat>)
    requires piece.Plain?
    ensures Labels(done + [piece]) == Labels(done)
    ensures Render(done + [piece], m) == Render(done, m) + [piece.c]
  {
    LabelsAppend(done, [piece]);
    assert Labels([piece]) == [];
    RenderAppend(done, [piece], m);
    RenderOne(piece, m);
  }

  /** The pieces cut so far, the next one, and the rest of the search make up the whole search. */
  lemma ScanProgress(s: string, i: nat, done: seq<Piece>)
    requires i < |s| && done + Scan(s, i) == Scan(s, 0)
    ensures (done + [Step(s, i).0]) + Scan(s, Step(s, i).1) == Scan(s, 0)
  {
    var (piece, next) := Step(s, i);
    assert Scan(s, i) == [piece] + Scan(s, next);
    Associative(done, [piece], Scan(s, next));
  }

  /**
   * The state `replace_ref` closes over: `footnote_map` and `next_num`, with
   * the labels it has been called on so far as ghost history.
   */
  class Renumberer {
    var footnoteMap: map<string, nat>
    var nextNum: nat
    ghost var seen: seq<string>

    ghost predicate Valid()
      reads this
    {
      footnoteMap == Numbering(seen) && nextNum == |footnoteMap| + 1
    }

    constructor ()
      ensures Valid() && seen == []
    {
      footnoteMap := map[];
      nextNum := 1;
      seen := [];
    }

    /** `replace_ref`: a label not yet in the map takes `next_num`, which then advances. */
    method ReplaceRef(orig: string) returns (replacement: string)
      requires Valid()
      modifies this
      ensures Valid() && seen == old(seen) + [orig]
      ensures orig in old(footnoteMap) ==>
                footnoteMap == old(footnoteMap) && nextNum == old(nextNum)
      ensures orig !in old(footnoteMap) ==>
                footnoteMap == old(footnoteMap)[orig := old(nextNum)] && nextNum == old(nextNum) + 1
      ensures replacement == "[^" + Decimal(footnoteMap[orig]) + "]"
    {
      if orig !in footnoteMap {
        footnoteMap := footnoteMap[orig := nextNum];
        nextNum := nextNum + 1;
      }
      seen := seen + [orig];
      assert seen[..|seen| - 1] == old(seen);
      replacement := "[^" + Decimal(footnoteMap[orig]) + "]";
    }
  }

  /**
   * `re.sub(r"\[\^([^\]]+)\]", replace_ref, text)`: the rewritten text, the
   * label map and the counter it leaves behind.
   */
  method RenumberReferences(text: string) returns (newText: string, footnoteMap: map<string, nat>, nextNum: nat)
    ensures footnoteMap == Numbering(Labels(Scan(text, 0)))
    ensures nextNum == |footnoteMap| + 1
    ensures newText == Render(Scan(text, 0), footnoteMap)
  {
    var renumberer := new Renumberer();
    newText := "";
    var i := 0;
    ghost var done: seq<Piece> := [];
    while i < |text|
      invariant i <= |text|
      invariant done + Scan(text, i) == Scan(text, 0)
      invariant renumberer.Valid() && renumberer.seen == Labels(done)
      invariant newText == Render(done, renumberer.footnoteMap)
      decreases |text| - i
    {
      var (piece, next) := Step(text, i);
      ScanProgress(text, i, done);
      if piece.Ref? {
        RefStep(done, piece, renumberer.seen, renumberer.footnoteMap);
        var replacement := renumberer.ReplaceRef(piece.orig);
        newText := newText + replacement;
      } else {
        PlainStep(done, piece, renumberer.footnoteMap);
        newText := newText + [piece.c];
      }
      done := done + [piece];
      i := next;
    }
    assert done == Scan(text, 0);
    footnoteMap := renumberer.footnoteMap;
    nextNum := renumberer.nextNum;
  }
}
