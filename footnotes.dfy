/**
 * `process_markdown`: the five stages put together. References are
 * renumbered in order of first occurrence, the definitions are collected,
 * renumbered and sorted, the old definition lines are cut out of the body,
 * and the new block is appended after a blank line.
 */
module SortFootnote {
  import opened Wrappers
  import opened Text
  import opened LabelMap
  import opened References
  import opened Definitions
  import opened Entries
  import opened Strip

  /** `footnote_map` after line 21: every label matched in the text, numbered by first occurrence. */
  function FootnoteMap(text: string): map<string, nat> {
    Numbering(Labels(Scan(text, 0)))
  }

  /** `new_text` after line 21. */
  function Body(text: string): string {
    Render(Scan(text, 0), FootnoteMap(text))
  }

  /** `new_defs` after line 33. */
  function NewDefinitions(text: string): seq<Entry> {
    SortByNumber(Filtered(Extract(text), FootnoteMap(text)))
  }

  /** `new_text` after line 40. */
  function Stripped(text: string): string {
    RStrip(StripDefinitionRuns(Body(text)))
  }

  /** The value `process_markdown` returns. */
  function Processed(text: string): string {
    var defsText := DefsText(NewDefinitions(text));
    if defsText == "" then Stripped(text) else Stripped(text) + "\n\n" + defsText
  }

  /** The function itself, stage after stage, with its state in local variables. */
  method ProcessMarkdown(text: string) returns (result: string)
    ensures result == Processed(text)
  {
    var newText, footnoteMap, nextNum := RenumberReferences(text);
    var footnoteDefs := Extract(text);
    var newDefs := CollectDefinitions(footnoteDefs, footnoteMap);
    var defsText := DefsText(newDefs);
    newText := RStrip(StripDefinitionRuns(newText));
    if defsText != "" {
      newText := newText + "\n\n" + defsText;
    }
    result := newText;
  }

  /** The entries of `new_defs` come from extracted definitions, so no content holds a line feed. */
  lemma NewContentsAreSingleLines(text: string)
    ensures forall e :: e in NewDefinitions(text) ==> '\n' !in e.content
  {
    var filtered := Filtered(Extract(text), FootnoteMap(text));
    ContentsAreSingleLines(text);
    forall e | e in NewDefinitions(text) ensures '\n' !in e.content {
      assert e in multiset(NewDefinitions(text));
      assert e in filtered;
    }
  }

  /**
   * The shape of the result: the stripped body, which does not end in
   * whitespace; then, unless there is no definition to write, a blank line
   * and one line `[^n]: content` per entry of `new_defs`, in order.
   */
  lemma ProcessedShape(text: string)
    ensures Stripped(text) <= Processed(text)
    ensures Stripped(text) == [] || !IsSpace(Stripped(text)[|Stripped(text)| - 1])
    ensures NewDefinitions(text) == [] ==> Processed(text) == Stripped(text)
    ensures NewDefinitions(text) != [] ==>
              Processed(text) == Stripped(text) + "\n\n" + DefsText(NewDefinitions(text)) &&
              SplitLines(DefsText(NewDefinitions(text))) == FormatLines(NewDefinitions(text))
  {
    NewContentsAreSingleLines(text);
    DefsTextLines(NewDefinitions(text));
  }

  /**
   * `new_defs` is in ascending order of number, holds the filtered entries
   * and nothing else, and keeps the file order of entries that share a
   * number.
   */
  lemma NewDefinitionsOrdered(text: string)
    ensures Sorted(NewDefinitions(text))
    ensures multiset(NewDefinitions(text)) == multiset(Filtered(Extract(text), FootnoteMap(text)))
    ensures forall n :: WithNumber(NewDefinitions(text), n) == WithNumber(Filtered(Extract(text), FootnoteMap(text)), n)
  {
    forall n ensures WithNumber(NewDefinitions(text), n) == WithNumber(Filtered(Extract(text), FootnoteMap(text)), n) {
      SortByNumberStable(Filtered(Extract(text), FootnoteMap(text)), n);
    }
  }

  /**
   * When no reference label spans a line, every extracted definition is
   * kept: `new_defs` holds exactly one entry per definition, numbered by
   * its label, so it is a reordering of the renumbered definitions.
   */
  lemma EveryDefinitionRenumbered(text: string)
    requires LabelsOnOneLine(Scan(text, 0))
    ensures |NewDefinitions(text)| == |Extract(text)|
    ensures forall d :: d in Extract(text) ==>
              d.orig in FootnoteMap(text) && Entry(FootnoteMap(text)[d.orig], d.content) in NewDefinitions(text)
    ensures multiset(NewDefinitions(text)) == multiset(Renumbered(Extract(text), FootnoteMap(text)))
  {
    ExtractedLabelsAreNumbered(text);
    SortedKeepsAll(Extract(text), FootnoteMap(text));
  }

  /** A text with no `[^label]` anywhere comes back right-stripped and otherwise unchanged. */
  lemma WithoutFootnotes(text: string)
    requires forall k: nat, j: nat :: !RefMatch(text, k, j)
    ensures Processed(text) == RStrip(text)
  {
    ScanWithoutReferences(text, 0, FootnoteMap(text));
    ExtractNeedsReference(text);
    assert Extract(text) == [];
    assert Filtered([], FootnoteMap(text)) == [];
    DefsTextLines(NewDefinitions(text));
    StripWithoutMarkers(text, 0);
  }

  /** The reference search over "x[^a\n[^b]: c" takes `[^a\n[^b]` as one reference. */
  lemma MultilineLabelScan()
    ensures Labels(Scan("x[^a\n[^b]: c", 0)) == ["a\n[^b"]
  {
    var s := "x[^a\n[^b]: c";
    assert RefMatch(s, 1, 8);
    assert RefEnd(s, 1) == Some(8);
    assert RefEnd(s, 0) == None;
    assert Scan(s, 0) == [Plain('x')] + Scan(s, 1);
    assert s[3..8] == "a\n[^b";
    assert Scan(s, 1) == [Ref("a\n[^b")] + Scan(s, 9);
    assert Scan(s, 9) == [Plain(':'), Plain(' '), Plain('c')];
    assert Labels([Plain(':'), Plain(' '), Plain('c')]) == [];
  }

  /** In "x[^a\n[^b]: c" the definition `[^b]: c` begins the second line, at index 5. */
  lemma MultilineLabelDefinitionAt()
    ensures DefinitionAt("x[^a\n[^b]: c", 5) == Some(Found(Definition("b", "c"), 12))
  {
    var s := "x[^a\n[^b]: c";
    assert RefMatch(s, 5, 8);
    assert s[7..8] == "b";
    assert SkipSpace(s, 10) == 11;
    assert LineEnd(s, 11) == 12;
    assert s[11..12] == "c";
  }

  /** No definition begins before index 5 of "x[^a\n[^b]: c". */
  lemma MultilineLabelFirstLine(p: nat)
    requires p < 5
    ensures DefinitionAt("x[^a\n[^b]: c", p) == None
  {
    var s := "x[^a\n[^b]: c";
    assert s[0] == 'x';
    if p > 0 {
      assert s[p - 1] != '\n';
    }
  }

  /** The definition search over "x[^a\n[^b]: c" finds the definition of `b` on the second line. */
  lemma MultilineLabelExtract()
    ensures Extract("x[^a\n[^b]: c") == [Definition("b", "c")]
  {
    var s := "x[^a\n[^b]: c";
    MultilineLabelDefinitionAt();
    assert ExtractFrom(s, 12) == [];
    assert ExtractFrom(s, 5) == [Definition("b", "c")];
    MultilineLabelFirstLine(4);
    assert ExtractFrom(s, 4) == ExtractFrom(s, 5);
    MultilineLabelFirstLine(3);
    assert ExtractFrom(s, 3) == ExtractFrom(s, 4);
    MultilineLabelFirstLine(2);
    assert ExtractFrom(s, 2) == ExtractFrom(s, 3);
    MultilineLabelFirstLine(1);
    assert ExtractFrom(s, 1) == ExtractFrom(s, 2);
    MultilineLabelFirstLine(0);
    assert ExtractFrom(s, 0) == ExtractFrom(s, 1);
  }

  /**
   * A label that spans a line can hide a definition: in "x[^a\n[^b]: c" the
   * definition of `b` is extracted, but the reference search has already
   * taken `[^a\n[^b]` as one reference, so `b` gets no number and its
   * definition is dropped.
   */
  lemma MultilineLabelHidesDefinition()
    ensures Extract("x[^a\n[^b]: c") == [Definition("b", "c")]
    ensures NewDefinitions("x[^a\n[^b]: c") == []
  {
    var s := "x[^a\n[^b]: c";
    MultilineLabelScan();
    MultilineLabelExtract();
    var m := FootnoteMap(s);
    assert "b" !in m;
    assert Filtered([Definition("b", "c")], m) == [];
  }
}
