/**
 * The label map `footnote_map` built by `replace_ref`: every distinct
 * footnote label, in order of first occurrence, receives the next number,
 * starting at 1. `Numbering` is the map that the scan has built after it
 * has passed the given labels, one occurrence at a time.
 */
module LabelMap {

  /** No two labels share a number. */
  ghost predicate Injective(m: map<string, nat>) {
    forall a, b :: a in m && b in m && a != b ==> m[a] != m[b]
  }

  /** The map after the labels `labels` have been seen, in this order. */
  function Numbering(labels: seq<string>): (m: map<string, nat>)
    ensures forall l :: l in m <==> l in labels
    ensures forall l :: l in m ==> 1 <= m[l] <= |m|
    ensures Injective(m)
    decreases |labels|
  {
    if labels == [] then map[]
    else
      var prior := Numbering(labels[..|labels| - 1]);
      var last := labels[|labels| - 1];
      assert labels == labels[..|labels| - 1] + [last];
      if last in prior then prior else prior[last := |prior| + 1]
  }

  /** Seeing one more label keeps every number handed out before. */
  lemma NumberingStep(labels: seq<string>, i: nat)
    requires i < |labels|
    ensures forall l :: l in Numbering(labels[..i]) ==>
              l in Numbering(labels[..i + 1]) && Numbering(labels[..i + 1])[l] == Numbering(labels[..i])[l]
  {
    var t := labels[..i + 1];
    assert t[..|t| - 1] == labels[..i];
  }

  /** Numbers already handed out never change as the scan goes on. */
  lemma {:induction false} NumberingPrefix(labels: seq<string>, i: nat)
    requires i <= |labels|
    ensures forall l :: l in Numbering(labels[..i]) ==>
              l in Numbering(labels) && Numbering(labels)[l] == Numbering(labels[..i])[l]
    decreases |labels| - i
  {
    if i < |labels| {
      var before, after, all := Numbering(labels[..i]), Numbering(labels[..i + 1]), Numbering(labels);
      NumberingStep(labels, i);
      NumberingPrefix(labels, i + 1);
      forall l | l in before ensures l in all && all[l] == before[l] {
        assert l in after && after[l] == before[l];
      }
    } else {
      assert labels[..i] == labels;
    }
  }

  /**
   * The label at position i gets the next free number when it is seen for
   * the first time there, and keeps the number it already had otherwise.
   */
  lemma NumberingFirstSeen(labels: seq<string>, i: nat)
    requires i < |labels|
    ensures labels[i] !in labels[..i] ==>
              Numbering(labels)[labels[i]] == |Numbering(labels[..i])| + 1
    ensures labels[i] in labels[..i] ==>
              Numbering(labels)[labels[i]] == Numbering(labels[..i])[labels[i]]
  {
    NumberingPrefix(labels, i + 1);
    assert labels[..i + 1][..i] == labels[..i];
  }

  /** A label first seen before another has the smaller number. */
  lemma NumberingOrder(labels: seq<string>, i: nat, j: nat)
    requires i < j < |labels|
    requires labels[j] !in labels[..j]
    ensures Numbering(labels)[labels[i]] < Numbering(labels)[labels[j]]
  {
    NumberingFirstSeen(labels, j);
    NumberingPrefix(labels, j);
    assert labels[i] in labels[..j];
  }

  /** The numbers in use are exactly 1 .. |m|: each of them belongs to some label. */
  lemma {:induction false} NumberingOnto(labels: seq<string>, n: nat) returns (l: string)
    requires 1 <= n <= |Numbering(labels)|
    ensures l in labels && Numbering(labels)[l] == n
    decreases |labels|
  {
    var prior := Numbering(labels[..|labels| - 1]);
    var last := labels[|labels| - 1];
    assert labels == labels[..|labels| - 1] + [last];
    if n <= |prior| {
      l := NumberingOnto(labels[..|labels| - 1], n);
    } else {
      l := last;
    }
  }

  /** |m| is the number of distinct labels seen. */
  lemma NumberingSize(labels: seq<string>)
    ensures |Numbering(labels)| == |set l | l in labels|
  {
    var m := Numbering(labels);
    assert m.Keys == set l | l in labels;
  }
}
