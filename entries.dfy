/**
 * Stages 3 and 4 of `process_markdown`: `new_defs`, the extracted
 * definitions whose label has a number, as `(number, content)` entries
 * sorted by number with Python's stable `list.sort`; and `defs_text`, one
 * line `[^n]: content` per entry joined by line feeds.
 */
module Entries {
  import opened Text
  import opened Definitions

  /** An element of `new_defs`; the string copy of the number is not kept. */
  datatype Entry = Entry(number: nat, content: string)

  /**
   * The loop of lines 28-31: the definitions whose label is in the map, in
   * file order, each carrying its label's number.
   */
  function Filtered(defs: seq<Definition>, footnoteMap: map<string, nat>): (r: seq<Entry>)
    ensures |r| <= |defs|
    ensures forall e :: e in r ==>
              exists d :: d in defs && d.orig in footnoteMap && e == Entry(footnoteMap[d.orig], d.content)
  {
    if defs == [] then []
    else
      var d := defs[|defs| - 1];
      assert defs == defs[..|defs| - 1] + [d];
      Filtered(defs[..|defs| - 1], footnoteMap) +
        (if d.orig in footnoteMap then [Entry(footnoteMap[d.orig], d.content)] else [])
  }

  /** Completeness: every definition whose label has a number gives an entry. */
  lemma {:induction false} FilteredComplete(defs: seq<Definition>, footnoteMap: map<string, nat>)
    ensures forall d :: d in defs && d.orig in footnoteMap ==>
              Entry(footnoteMap[d.orig], d.content) in Filtered(defs, footnoteMap)
    decreases |defs|
  {
    if defs != [] {
      var prefix, last := defs[..|defs| - 1], defs[|defs| - 1];
      FilteredComplete(prefix, footnoteMap);
      assert forall d :: d in defs ==> d in prefix || d == last by {
        assert defs == prefix + [last];
      }
    }
  }

  /** The loop goes through the definitions one by one, so the filter distributes over concatenation. */
  lemma {:induction false} FilteredAppend(a: seq<Definition>, b: seq<Definition>, footnoteMap: map<string, nat>)
    ensures Filtered(a + b, footnoteMap) == Filtered(a, footnoteMap) + Filtered(b, footnoteMap)
    decreases |b|
  {
    if b == [] {
      assert a + b == a;
    } else {
      var ab, d := a + b, b[|b| - 1];
      var tail := if d.orig in footnoteMap then [Entry(footnoteMap[d.orig], d.content)] else [];
      assert ab[|ab| - 1] == d && ab[..|ab| - 1] == a + b[..|b| - 1];
      FilteredAppend(a, b[..|b| - 1], footnoteMap);
      assert Filtered(a + b, footnoteMap) == Filtered(a + b[..|b| - 1], footnoteMap) + tail;
      assert Filtered(b, footnoteMap) == Filtered(b[..|b| - 1], footnoteMap) + tail;
    }
  }

  /** Every definition as the entry its label's number makes of it. */
  function Renumbered(defs: seq<Definition>, footnoteMap: map<string, nat>): seq<Entry>
    requires forall d :: d in defs ==> d.orig in footnoteMap
  {
    seq(|defs|, k requires 0 <= k < |defs| => Entry(footnoteMap[defs[k].orig], defs[k].content))
  }

  /** When every label has a number, nothing is dropped: entry k comes from definition k. */
  lemma {:induction false} FilteredKeepsAll(defs: seq<Definition>, footnoteMap: map<string, nat>)
    requires forall d :: d in defs ==> d.orig in footnoteMap
    ensures |Filtered(defs, footnoteMap)| == |defs|
    ensures forall k :: 0 <= k < |defs| ==>
              Filtered(defs, footnoteMap)[k] == Entry(footnoteMap[defs[k].orig], defs[k].content)
    decreases |defs|
  {
    if defs != [] {
      var prefix := defs[..|defs| - 1];
      assert forall d :: d in prefix ==> d in defs;
      FilteredKeepsAll(prefix, footnoteMap);
      assert defs[|defs| - 1] in defs;
    }
  }

  /** When every label has a number, the filter is `Renumbered`. */
  lemma FilteredRenumbered(defs: seq<Definition>, footnoteMap: map<string, nat>)
    requires forall d :: d in defs ==> d.orig in footnoteMap
    ensures Filtered(defs, footnoteMap) == Renumbered(defs, footnoteMap)
  {
    FilteredKeepsAll(defs, footnoteMap);
  }

  /**
   * When every label has a number, the sorted entries are the definitions,
   * each numbered by its label, with their multiplicities: a permutation
   * of `Renumbered`.
   */
  lemma SortedKeepsAll(defs: seq<Definition>, footnoteMap: map<string, nat>)
    requires forall d :: d in defs ==> d.orig in footnoteMap
    ensures |SortByNumber(Filtered(defs, footnoteMap))| == |defs|
    ensures multiset(SortByNumber(Filtered(defs, footnoteMap))) == multiset(Renumbered(defs, footnoteMap))
    ensures forall d :: d in defs ==> Entry(footnoteMap[d.orig], d.content) in SortByNumber(Filtered(defs, footnoteMap))
  {
    FilteredKeepsAll(defs, footnoteMap);
    FilteredRenumbered(defs, footnoteMap);
    var filtered := Filtered(defs, footnoteMap);
    var sorted := SortByNumber(filtered);
    assert |multiset(sorted)| == |multiset(filtered)|;
    forall d | d in defs ensures Entry(footnoteMap[d.orig], d.content) in sorted {
      var k :| 0 <= k < |defs| && defs[k] == d;
      assert filtered[k] in multiset(filtered);
    }
  }

  /** Ascending by number, the order `new_defs.sort(key=lambda x: x[0])` produces. */
  predicate Sorted(es: seq<Entry>) {
    forall i, j :: 0 <= i < j < |es| ==> es[i].number <= es[j].number
  }

  /** The entries numbered n, in their order: what a stable sort must not reorder. */
  function WithNumber(es: seq<Entry>, n: nat): (r: seq<Entry>)
    ensures |r| <= |es|
    ensures forall e :: e in r ==> e in es && e.number == n
  {
    if es == [] then []
    else
      var e := es[|es| - 1];
      assert es == es[..|es| - 1] + [e];
      WithNumber(es[..|es| - 1], n) + (if e.number == n then [e] else [])
  }

  lemma {:induction false} WithNumberAppend(a: seq<Entry>, b: seq<Entry>, n: nat)
    ensures WithNumber(a + b, n) == WithNumber(a, n) + WithNumber(b, n)
    decreases |b|
  {
    if b == [] {
      assert a + b == a;
    } else {
      var front, last := b[..|b| - 1], b[|b| - 1];
      assert a + b == (a + front) + [last] && b == front + [last];
      WithNumberSnoc(a + front, last, n);
      WithNumberSnoc(front, last, n);
      WithNumberAppend(a, front, n);
      Associative(WithNumber(a, n), WithNumber(front, n), if last.number == n then [last] else []);
    }
  }

  /**
   * Insertion of `e` behind every entry whose number is at most e's: the
   * step of a stable sort that takes the input from left to right.
   */
  function Insert(es: seq<Entry>, e: Entry): (r: seq<Entry>)
    ensures multiset(r) == multiset(es) + multiset{e}
    decreases |es|
  {
    if es == [] then [e]
    else
      var last := es[|es| - 1];
      var prefix := es[..|es| - 1];
      assert es == prefix + [last];
      if last.number <= e.number then es + [e]
      else Insert(prefix, e) + [last]
  }

  lemma {:induction false} InsertSorted(es: seq<Entry>, e: Entry)
    requires Sorted(es)
    ensures Sorted(Insert(es, e))
    decreases |es|
  {
    if es != [] {
      var last := es[|es| - 1];
      var prefix := es[..|es| - 1];
      if last.number <= e.number {
        SortedSnoc(es, e);
      } else {
        InsertSorted(prefix, e);
        var r := Insert(prefix, e);
        forall x | x in r ensures x.number <= last.number {
          InsertMember(prefix, e, x);
          if x in prefix {
            var k :| 0 <= k < |prefix| && prefix[k] == x;
            assert es[k] == x;
          }
        }
        SortedSnoc(r, last);
      }
    }
  }

  lemma InsertMember(es: seq<Entry>, e: Entry, x: Entry)
    requires x in Insert(es, e)
    ensures x in es || x == e
  {
    assert x in multiset(Insert(es, e));
  }

  /** Appending an entry numbered at least as high as all others keeps a sequence sorted. */
  lemma SortedSnoc(es: seq<Entry>, x: Entry)
    requires Sorted(es)
    requires forall y :: y in es ==> y.number <= x.number
    ensures Sorted(es + [x])
  {
    forall i, j | 0 <= i < j < |es| + 1 ensures (es + [x])[i].number <= (es + [x])[j].number {
      assert (es + [x])[i] == es[i];
      if j == |es| {
        assert es[i] in es;
      }
    }
  }

  /** A stable sort by number (Python's `list.sort` with `key=lambda x: x[0]`). */
  function SortByNumber(es: seq<Entry>): (r: seq<Entry>)
    ensures Sorted(r)
    ensures multiset(r) == multiset(es)
  {
    if es == [] then []
    else
      assert es == es[..|es| - 1] + [es[|es| - 1]];
      var sorted := SortByNumber(es[..|es| - 1]);
      InsertSorted(sorted, es[|es| - 1]);
      Insert(sorted, es[|es| - 1])
  }

  lemma WithNumberSnoc(es: seq<Entry>, x: Entry, n: nat)
    ensures WithNumber(es + [x], n) == WithNumber(es, n) + (if x.number == n then [x] else [])
  {
    assert (es + [x])[..|es|] == es;
  }

  lemma {:induction false} InsertWithNumber(es: seq<Entry>, e: Entry, n: nat)
    ensures WithNumber(Insert(es, e), n) == WithNumber(es, n) + (if e.number == n then [e] else [])
    decreases |es|
  {
    if es == [] {
      WithNumberSnoc([], e, n);
      assert [] + [e] == [e];
    } else {
      var last := es[|es| - 1];
      var prefix := es[..|es| - 1];
      assert es == prefix + [last];
      if last.number <= e.number {
        assert Insert(es, e) == es + [e];
        WithNumberSnoc(es, e, n);
      } else {
        var inserted := Insert(prefix, e);
        assert Insert(es, e) == inserted + [last];
        var sameE: seq<Entry> := if e.number == n then [e] else [];
        var sameLast: seq<Entry> := if last.number == n then [last] else [];
        InsertWithNumber(prefix, e, n);
        assert WithNumber(inserted, n) == WithNumber(prefix, n) + sameE;
        WithNumberSnoc(inserted, last, n);
        WithNumberSnoc(prefix, last, n);
        assert sameE == [] || sameLast == [];
        assert WithNumber(es, n) == WithNumber(prefix, n) + sameLast;
        SwapEmpty(WithNumber(prefix, n), sameE, sameLast);
      }
    }
  }

  lemma SwapEmpty(a: seq<Entry>, b: seq<Entry>, c: seq<Entry>)
    requires b == [] || c == []
    ensures a + b + c == a + c + b
  {
    if b == [] {
      assert a + b == a;
    } else {
      assert a + c == a;
    }
  }

  /** Stability: entries that share a number keep their relative order. */
  lemma {:induction false} SortByNumberStable(es: seq<Entry>, n: nat)
    ensures WithNumber(SortByNumber(es), n) == WithNumber(es, n)
    decreases |es|
  {
    if es != [] {
      var last := es[|es| - 1];
      var prefix := es[..|es| - 1];
      SortByNumberStable(prefix, n);
      InsertWithNumber(SortByNumber(prefix), last, n);
    }
  }

  lemma WithNumberCons(es: seq<Entry>, n: nat)
    requires es != []
    ensures WithNumber(es, n) == (if es[0].number == n then [es[0]] else []) + WithNumber(es[1..], n)
  {
    WithNumberAppend([es[0]], es[1..], n);
    WithNumberSnoc([], es[0], n);
    assert [] + [es[0]] == [es[0]];
    assert es == [es[0]] + es[1..];
  }

  lemma PrefixCancel(p: seq<Entry>, s: seq<Entry>, t: seq<Entry>)
    requires p + s == p + t
    ensures s == t
  {
    assert s == (p + s)[|p|..];
    assert t == (p + t)[|p|..];
  }

  lemma TailsAgree(a: seq<Entry>, b: seq<Entry>)
    requires a != [] && b != [] && a[0] == b[0]
    requires forall n :: WithNumber(a, n) == WithNumber(b, n)
    ensures forall n :: WithNumber(a[1..], n) == WithNumber(b[1..], n)
  {
    forall n ensures WithNumber(a[1..], n) == WithNumber(b[1..], n) {
      WithNumberCons(a, n);
      WithNumberCons(b, n);
      var same: seq<Entry> := if a[0].number == n then [a[0]] else [];
      PrefixCancel(same, WithNumber(a[1..], n), WithNumber(b[1..], n));
    }
  }

  lemma SortedTail(es: seq<Entry>)
    requires Sorted(es) && es != []
    ensures Sorted(es[1..])
  {
  }

  /** The first entry of a sequence is the first of those sharing its number. */
  lemma FirstOfItsNumber(es: seq<Entry>)
    requires es != []
    ensures WithNumber(es, es[0].number) != []
    ensures WithNumber(es, es[0].number)[0] == es[0]
  {
    WithNumberCons(es, es[0].number);
  }

  /** In a sorted sequence no entry has a smaller number than the first. */
  lemma FirstIsSmallest(es: seq<Entry>, n: nat)
    requires Sorted(es) && es != []
    requires WithNumber(es, n) != []
    ensures es[0].number <= n
  {
    var z := WithNumber(es, n)[0];
    assert z in WithNumber(es, n);
    var k :| 0 <= k < |es| && es[k] == z;
    assert es[0].number <= es[k].number;
  }

  /**
   * A sorted order that keeps every number's entries in their order is
   * unique: any stable sort by number, Python's included, gives `SortByNumber`.
   */
  lemma {:induction false} StableSortUnique(a: seq<Entry>, b: seq<Entry>)
    requires Sorted(a) && Sorted(b)
    requires forall n :: WithNumber(a, n) == WithNumber(b, n)
    ensures a == b
    decreases |a|
  {
    if a != [] {
      FirstOfItsNumber(a);
      assert WithNumber(b, a[0].number) != [];
    }
    if b != [] {
      FirstOfItsNumber(b);
      assert WithNumber(a, b[0].number) != [];
    }
    if a != [] {
      var x, y := a[0], b[0];
      FirstIsSmallest(a, y.number);
      FirstIsSmallest(b, x.number);
      assert x == y;
      TailsAgree(a, b);
      SortedTail(a);
      SortedTail(b);
      StableSortUnique(a[1..], b[1..]);
      assert forall i :: 0 <= i < |a| ==> a[i] == b[i];
    }
  }

  /**
   * Lines 27-33: the loop that builds `new_defs` from the definitions whose
   * label is in the map, then the in-place sort by number.
   */
  method CollectDefinitions(footnoteDefs: seq<Definition>, footnoteMap: map<string, nat>)
    returns (newDefs: seq<Entry>)
    ensures Sorted(newDefs)
    ensures multiset(newDefs) == multiset(Filtered(footnoteDefs, footnoteMap))
    ensures forall n :: WithNumber(newDefs, n) == WithNumber(Filtered(footnoteDefs, footnoteMap), n)
    ensures newDefs == SortByNumber(Filtered(footnoteDefs, footnoteMap))
  {
    newDefs := [];
    for i := 0 to |footnoteDefs|
      invariant newDefs == Filtered(footnoteDefs[..i], footnoteMap)
    {
      var d := footnoteDefs[i];
      assert footnoteDefs[..i + 1][..i] == footnoteDefs[..i];
      if d.orig in footnoteMap {
        newDefs := newDefs + [Entry(footnoteMap[d.orig], d.content)];
      }
    }
    assert footnoteDefs[..|footnoteDefs|] == footnoteDefs;
    newDefs := SortByNumber(newDefs);
    forall n ensures WithNumber(newDefs, n) == WithNumber(Filtered(footnoteDefs, footnoteMap), n) {
      SortByNumberStable(Filtered(footnoteDefs, footnoteMap), n);
    }
  }

  /** One line of `defs_text`: `[^n]: content`. */
  function FormatEntry(e: Entry): string {
    "[^" + Decimal(e.number) + "]: " + e.content
  }

  /** A formatted entry is one line when its content is: the number's digits hold no line feed. */
  lemma FormatEntryOneLine(e: Entry)
    ensures '\n' !in FormatEntry(e) <==> '\n' !in e.content
  {
    var f, d := FormatEntry(e), Decimal(e.number);
    assert f == "[^" + d + "]: " + e.content;
    if '\n' in e.content {
      var t :| 0 <= t < |e.content| && e.content[t] == '\n';
      assert f[5 + |d| + t] == '\n';
    } else {
      forall t | 0 <= t < |f| ensures f[t] != '\n' {
        if t >= 5 + |d| {
          assert f[t] == e.content[t - 5 - |d|];
        } else if 2 <= t < 2 + |d| {
          assert f[t] == d[t - 2];
        }
      }
    }
  }

  /**
   * A line of `defs_text` reads back: the digits between `[^` and the first
   * `]` spell the number, and the text after `]: ` is the content.
   */
  lemma FormatEntryReadBack(e: Entry)
    ensures var f, d := FormatEntry(e), Decimal(e.number);
            && 5 + |d| <= |f| && f[..2] == "[^" && f[2 + |d|..5 + |d|] == "]: "
            && f[2..2 + |d|] == d && DigitsValue(f[2..2 + |d|]) == e.number
            && (forall t :: 2 <= t < 2 + |d| ==> '0' <= f[t] <= '9')
            && f[5 + |d|..] == e.content
  {
    DecimalRoundTrip(e.number);
    var f, d := FormatEntry(e), Decimal(e.number);
    assert f == "[^" + d + "]: " + e.content;
    assert f[2..2 + |d|] == d;
  }

  /** Two places in f that are each the first `]` from index 2 on are one place. */
  lemma FirstClose(f: string, x: nat, y: nat)
    requires x < |f| && f[x] == ']' && forall t :: 2 <= t < x ==> '0' <= f[t] <= '9'
    requires y < |f| && f[y] == ']' && forall t :: 2 <= t < y ==> '0' <= f[t] <= '9'
    requires 2 <= x && 2 <= y
    ensures x == y
  {
  }

  /** Different entries make different lines. */
  lemma FormatEntryInjective(a: Entry, b: Entry)
    ensures FormatEntry(a) == FormatEntry(b) ==> a == b
  {
    if FormatEntry(a) == FormatEntry(b) {
      var f, da, db := FormatEntry(a), Decimal(a.number), Decimal(b.number);
      FormatEntryReadBack(a);
      FormatEntryReadBack(b);
      // the first `]` after `[^` closes both spellings
      FirstClose(f, 2 + |da|, 2 + |db|);
      assert DigitsValue(da) == DigitsValue(db);
    }
  }

  /** The generator of line 36: one formatted line per entry, in order. */
  function FormatLines(es: seq<Entry>): seq<string>
  {
    seq(|es|, k requires 0 <= k < |es| => FormatEntry(es[k]))
  }

  /** `defs_text` (line 36). */
  function DefsText(es: seq<Entry>): string {
    JoinLines(FormatLines(es))
  }

  /**
   * `defs_text` is empty exactly when `new_defs` is, and otherwise holds one
   * line per entry, in order, as long as no content holds a line feed.
   */
  lemma DefsTextLines(es: seq<Entry>)
    requires forall e :: e in es ==> '\n' !in e.content
    ensures DefsText(es) == "" <==> es == []
    ensures es != [] ==> SplitLines(DefsText(es)) == FormatLines(es)
  {
    var lines := FormatLines(es);
    if es != [] {
      forall k | 0 <= k < |lines| ensures '\n' !in lines[k] {
        assert es[k] in es;
        FormatEntryOneLine(es[k]);
      }
      SplitJoinLines(lines);
      assert DefsText(es) != "" by {
        if |lines| == 1 {
          assert DefsText(es) == lines[0];
        } else {
          assert DefsText(es) == lines[0] + "\n" + JoinLines(lines[1..]);
        }
        assert |lines[0]| > 0;
      }
    }
  }

  /**
   * `defs_text` can be read back: when no content holds a line feed,
   * different `new_defs` give different texts.
   */
  lemma DefsTextInjective(a: seq<Entry>, b: seq<Entry>)
    requires forall e :: e in a ==> '\n' !in e.content
    requires forall e :: e in b ==> '\n' !in e.content
    ensures DefsText(a) == DefsText(b) ==> a == b
  {
    DefsTextLines(a);
    DefsTextLines(b);
    if DefsText(a) == DefsText(b) && a != [] {
      assert FormatLines(a) == FormatLines(b);
      assert |a| == |FormatLines(a)| == |FormatLines(b)| == |b|;
      forall k | 0 <= k < |a| ensures a[k] == b[k] {
        assert FormatLines(a)[k] == FormatEntry(a[k]) && FormatLines(b)[k] == FormatEntry(b[k]);
        FormatEntryInjective(a[k], b[k]);
      }
    }
  }
}
