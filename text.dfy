/**
 * Character classes and string helpers shared by the footnote scanners:
 * Python's whitespace, `str.rstrip()`, `"\n".join(...)` with its inverse
 * `str.split("\n")`, and the decimal spelling `str(n)` of a footnote number.
 */
module Text {

  /**
   * Python 3's whitespace characters: the set `str.isspace()` accepts and
   * that `\s` matches in a `str` pattern.
   */
  predicate IsSpace(c: char) {
    var n := c as int;
    (0x09 <= n <= 0x0D) || (0x1C <= n <= 0x20) || n == 0x85 || n == 0xA0 ||
    n == 0x1680 || (0x2000 <= n <= 0x200A) || n == 0x2028 || n == 0x2029 ||
    n == 0x202F || n == 0x205F || n == 0x3000
  }

  /** Where a greedy `\s*` starting at `i` stops: the first non-whitespace index, or |s|. */
  function SkipSpace(s: string, i: nat): (r: nat)
    requires i <= |s|
    ensures i <= r <= |s|
    ensures forall k :: i <= k < r ==> IsSpace(s[k])
    ensures r < |s| ==> !IsSpace(s[r])
    decreases |s| - i
  {
    if i == |s| || !IsSpace(s[i]) then i else SkipSpace(s, i + 1)
  }

  /** Where a greedy `.*` starting at `i` stops: the next line feed, or |s|. */
  function LineEnd(s: string, i: nat): (r: nat)
    requires i <= |s|
    ensures i <= r <= |s|
    ensures forall k :: i <= k < r ==> s[k] != '\n'
    ensures r < |s| ==> s[r] == '\n'
    decreases |s| - i
  {
    if i == |s| || s[i] == '\n' then i else LineEnd(s, i + 1)
  }

  /** A whitespace run that ends at a non-whitespace character (or the end) is the one `SkipSpace` finds. */
  lemma SkipSpaceUnique(s: string, i: nat, k: nat)
    requires i <= k <= |s|
    requires forall t :: i <= t < k ==> IsSpace(s[t])
    requires k < |s| ==> !IsSpace(s[k])
    ensures SkipSpace(s, i) == k
  {
  }

  /** A run without line feeds that ends at one (or at the end) is the one `LineEnd` finds. */
  lemma LineEndUnique(s: string, i: nat, e: nat)
    requires i <= e <= |s|
    requires forall t :: i <= t < e ==> s[t] != '\n'
    requires e < |s| ==> s[e] == '\n'
    ensures LineEnd(s, i) == e
  {
  }

  /**
   * Python's `s.rstrip()`: the longest prefix of `s` that does not end in
   * whitespace; everything cut off is whitespace.
   */
  function RStrip(s: string): (r: string)
    ensures r <= s
    ensures r == [] || !IsSpace(r[|r| - 1])
    ensures forall k :: |r| <= k < |s| ==> IsSpace(s[k])
  {
    if s == [] || !IsSpace(s[|s| - 1]) then s else RStrip(s[..|s| - 1])
  }

  /** Regrouping a concatenation, stated once so that callers need not prove it again. */
  lemma Associative<T>(x: seq<T>, y: seq<T>, z: seq<T>)
    ensures x + (y + z) == (x + y) + z
  {
  }

  /** A suffix is the slice up to any later index followed by the rest. */
  lemma SplitAt<T>(s: seq<T>, i: nat, j: nat)
    requires i <= j <= |s|
    ensures s[i..] == s[i..j] + s[j..]
  {
  }

  /** `"\n".join(lines)` */
  function JoinLines(lines: seq<string>): string
  {
    if |lines| == 0 then ""
    else if |lines| == 1 then lines[0]
    else lines[0] + "\n" + JoinLines(lines[1..])
  }

  /** `s.split("\n")`: the pieces between line feeds (one piece for a text without any). */
  function SplitLines(s: string): (r: seq<string>)
    ensures |r| >= 1
    ensures forall k :: 0 <= k < |r| ==> '\n' !in r[k]
    decreases |s|
  {
    var e := LineEnd(s, 0);
    if e == |s| then [s] else [s[..e]] + SplitLines(s[e + 1..])
  }

  /** Splitting the joined lines gives the lines back, when none of them holds a line feed. */
  lemma {:induction false} SplitJoinLines(lines: seq<string>)
    requires |lines| >= 1
    requires forall k :: 0 <= k < |lines| ==> '\n' !in lines[k]
    ensures SplitLines(JoinLines(lines)) == lines
    decreases |lines|
  {
    if |lines| > 1 {
      var rest := JoinLines(lines[1..]);
      var s := lines[0] + "\n" + rest;
      assert forall k :: 0 <= k < |lines[0]| ==> s[k] == lines[0][k];
      assert LineEnd(s, 0) == |lines[0]| by {
        assert s[|lines[0]|] == '\n';
      }
      assert s[..|lines[0]|] == lines[0];
      assert s[|lines[0]| + 1..] == rest;
      SplitJoinLines(lines[1..]);
      assert [lines[0]] + lines[1..] == lines;
    }
  }

  /** Joining the split pieces gives the text back. */
  lemma {:induction false} JoinSplitLines(s: string)
    ensures JoinLines(SplitLines(s)) == s
    decreases |s|
  {
    var e := LineEnd(s, 0);
    if e < |s| {
      JoinSplitLines(s[e + 1..]);
      var r := SplitLines(s);
      assert r == [s[..e]] + SplitLines(s[e + 1..]);
      assert r[1..] == SplitLines(s[e + 1..]);
      assert s == s[..e] + "\n" + s[e + 1..];
    }
  }

  function Digit(d: nat): (c: char)
    requires d < 10
    ensures '0' <= c <= '9' && c as int - '0' as int == d
  {
    (d + '0' as int) as char
  }

  predicate IsDigits(s: string) {
    forall k :: 0 <= k < |s| ==> '0' <= s[k] <= '9'
  }

  /** Python's `str(n)` for a natural number: decimal digits without leading zeros. */
  function Decimal(n: nat): (r: string)
    ensures |r| >= 1 && IsDigits(r)
    ensures r[0] == '0' ==> n == 0
  {
    if n < 10 then [Digit(n)] else Decimal(n / 10) + [Digit(n % 10)]
  }

  /** Python's `int(s)` on a string of decimal digits. */
  function DigitsValue(s: string): nat
    requires IsDigits(s)
  {
    if s == [] then 0 else DigitsValue(s[..|s| - 1]) * 10 + (s[|s| - 1] as int - '0' as int)
  }

  /** `int(str(n)) == n`: the spelling of a footnote number reads back as that number. */
  lemma {:induction false} DecimalRoundTrip(n: nat)
    ensures DigitsValue(Decimal(n)) == n
  {
    if n >= 10 {
      DecimalRoundTrip(n / 10);
      var r := Decimal(n);
      assert r[..|r| - 1] == Decimal(n / 10);
    }
  }

  /** Distinct footnote numbers are spelled differently. */
  lemma DecimalInjective(a: nat, b: nat)
    ensures Decimal(a) == Decimal(b) ==> a == b
  {
    DecimalRoundTrip(a);
    DecimalRoundTrip(b);
  }
}
