/** The text helpers of index.js: `visualLength`, `ellipsis`, `padRight` and
    `progressBar`. Every width is a display width: the sum, over the code
    points of a string, of the column width that the `eastasianwidth`
    library's `characterLength` assigns to each of them. That library is
    not part of this model; its width function is a parameter of every
    member here that measures width. */
module Helpers {
  import opened JsText

  /** A per-code-point display width as `characterLength` returns it: one
      column for a narrow code point, two for a wide one. The space and the
      full stop are narrow. Nothing is assumed about other code points, the
      bar glyphs included. */
  type CharWidth = f: char -> nat | (forall c :: 1 <= f(c) <= 2) && f(' ') == 1 && f('.') == 1
    witness (c: char) => 1

  /** `visualLength`: the widths of the code points, summed from the left. */
  function VisualLength(width: CharWidth, s: string): (n: nat)
    ensures |s| <= n <= 2 * |s|
  {
    if s == [] then 0 else VisualLength(width, s[..|s| - 1]) + width(s[|s| - 1])
  }

  lemma {:induction false} VisualLengthConcat(width: CharWidth, a: string, b: string)
    ensures VisualLength(width, a + b) == VisualLength(width, a) + VisualLength(width, b)
    decreases |b|
  {
    if b == [] {
      assert a + b == a;
    } else {
      assert (a + b)[..|a + b| - 1] == a + b[..|b| - 1];
      VisualLengthConcat(width, a, b[..|b| - 1]);
    }
  }

  lemma VisualLengthSingle(width: CharWidth, c: char)
    ensures VisualLength(width, [c]) == width(c)
  {
    assert [c][..0] == [];
  }

  /** Every code point a string has beyond a prefix adds at least one column. */
  lemma VisualLengthPrefix(width: CharWidth, s: string, i: nat, j: nat)
    requires i <= j <= |s|
    ensures VisualLength(width, s[..i]) + (j - i) <= VisualLength(width, s[..j])
  {
    assert s[..j] == s[..i] + s[i..j];
    VisualLengthConcat(width, s[..i], s[i..j]);
  }

  lemma {:induction false} VisualLengthRepeat(width: CharWidth, c: char, n: nat)
    ensures VisualLength(width, Repeat(c, n)) == n * width(c)
  {
    if n > 0 {
      assert Repeat(c, n)[..n - 1] == Repeat(c, n - 1);
      VisualLengthRepeat(width, c, n - 1);
      assert (n - 1) * width(c) + width(c) == n * width(c);
    }
  }

  lemma DotsWidth(width: CharWidth)
    ensures VisualLength(width, "...") == 3
  {
    assert "..." == Repeat('.', 3);
    VisualLengthRepeat(width, '.', 3);
  }

  /** A string whose every code point is wide takes two columns per code point. */
  lemma {:induction false} VisualLengthAllWide(width: CharWidth, s: string)
    requires forall i :: 0 <= i < |s| ==> width(s[i]) == 2
    ensures VisualLength(width, s) == 2 * |s|
    decreases |s|
  {
    if s != [] {
      VisualLengthAllWide(width, s[..|s| - 1]);
    }
  }

  /** The buffer `out` that the loop of `ellipsis` has built when it stops:
      the leading code points of `s`, taken one at a time for as long as
      their running width stays within `budget`. */
  function KeptPrefix(width: CharWidth, s: string, budget: int): string
    decreases |s|
  {
    if s == [] || width(s[0]) > budget then []
    else [s[0]] + KeptPrefix(width, s[1..], budget - width(s[0]))
  }

  /** The width of a non-empty prefix is the width of its first code point
      plus the width of the rest of it. */
  lemma VisualLengthPrefixHead(width: CharWidth, s: string, k: nat)
    requires 1 <= k <= |s|
    ensures VisualLength(width, s[..k]) == width(s[0]) + VisualLength(width, s[1..][..k - 1])
  {
    assert s[..k] == [s[0]] + s[1..][..k - 1];
    VisualLengthConcat(width, [s[0]], s[1..][..k - 1]);
    VisualLengthSingle(width, s[0]);
  }

  /** The kept prefix is the longest prefix of `s` whose width is within
      `budget`; a wide code point that would cross the budget is left out
      whole. */
  lemma {:induction false} KeptPrefixIsLongestFit(width: CharWidth, s: string, budget: int)
    ensures var p := KeptPrefix(width, s, budget);
      && |p| <= |s| && p == s[..|p|]
      && (VisualLength(width, p) <= budget || (p == [] && budget < 0))
      && forall k :: |p| < k <= |s| ==> VisualLength(width, s[..k]) > budget
    decreases |s|
  {
    if s != [] {
      var p := KeptPrefix(width, s, budget);
      if width(s[0]) <= budget {
        var rest := budget - width(s[0]);
        var q := KeptPrefix(width, s[1..], rest);
        KeptPrefixIsLongestFit(width, s[1..], rest);
        assert p == [s[0]] + q;
        assert s[..|p|] == [s[0]] + s[1..][..|q|];
        VisualLengthConcat(width, [s[0]], q);
        VisualLengthSingle(width, s[0]);
        forall k | |p| < k <= |s|
          ensures VisualLength(width, s[..k]) > budget
        {
          VisualLengthPrefixHead(width, s, k);
          assert |q| < k - 1 <= |s[1..]|;
        }
      } else {
        assert p == [];
        forall k | 0 < k <= |s|
          ensures VisualLength(width, s[..k]) > budget
        {
          VisualLengthPrefixHead(width, s, k);
        }
      }
    }
  }

  /** What `ellipsis(s, maxWidth)` returns: `s` itself when it fits, and
      otherwise the kept prefix, with room left for the marker, followed by
      "...". */
  function Ellipsized(width: CharWidth, s: string, maxWidth: int): string
  {
    if VisualLength(width, s) > maxWidth then KeptPrefix(width, s, maxWidth - 3) + "..." else s
  }

  /** One turn of the loop of `ellipsis`: the code point at `i` is kept when
      it fits the budget that is left, and ends the prefix otherwise. */
  lemma KeptPrefixStep(width: CharWidth, s: string, i: nat, budget: int)
    requires i < |s|
    ensures width(s[i]) <= budget ==>
      KeptPrefix(width, s[i..], budget) == [s[i]] + KeptPrefix(width, s[i + 1..], budget - width(s[i]))
    ensures width(s[i]) > budget ==> KeptPrefix(width, s[i..], budget) == []
  {
    assert s[i..][1..] == s[i + 1..];
  }

  lemma WidthWithMarker(width: CharWidth, out: string, c: char)
    ensures VisualLength(width, out + [c]) == VisualLength(width, out) + width(c)
    ensures VisualLength(width, out + [c] + "...") == VisualLength(width, out) + width(c) + 3
  {
    VisualLengthConcat(width, out + [c], "...");
    VisualLengthConcat(width, out, [c]);
    VisualLengthSingle(width, c);
    DotsWidth(width);
  }

  /** The invariant of the loop of `ellipsis` is kept by one turn: either
      the code point at `i` ends the buffer, which is then the kept prefix,
      or it is appended and its width leaves the budget. */
  lemma EllipsisLoopStep(width: CharWidth, s: string, i: nat, maxWidth: int, budget: int)
    requires i < |s|
    requires budget == maxWidth - 3 - VisualLength(width, s[..i])
    requires KeptPrefix(width, s, maxWidth - 3) == s[..i] + KeptPrefix(width, s[i..], budget)
    ensures VisualLength(width, s[..i] + [s[i]] + "...") > maxWidth ==>
      KeptPrefix(width, s, maxWidth - 3) == s[..i]
    ensures VisualLength(width, s[..i] + [s[i]] + "...") <= maxWidth ==>
      && s[..i] + [s[i]] == s[..i + 1]
      && budget - width(s[i]) == maxWidth - 3 - VisualLength(width, s[..i + 1])
      && KeptPrefix(width, s, maxWidth - 3) == s[..i + 1] + KeptPrefix(width, s[i + 1..], budget - width(s[i]))
  {
    var out, c := s[..i], s[i];
    WidthWithMarker(width, out, c);
    KeptPrefixStep(width, s, i, budget);
    assert s[..i + 1] == out + [c];
    if VisualLength(width, out + [c] + "...") > maxWidth {
      assert out + [] == out;
    } else {
      assert (out + [c]) + KeptPrefix(width, s[i + 1..], budget - width(c))
          == out + ([c] + KeptPrefix(width, s[i + 1..], budget - width(c)));
    }
  }

  /** `ellipsis`: the loop grows `out` one code point at a time and stops at
      the first code point for which `out + c + "..."` would be wider than
      `maxWidth`. */
  method Ellipsis(width: CharWidth, s: string, maxWidth: int) returns (r: string)
    ensures r == Ellipsized(width, s, maxWidth)
  {
    var out := "";
    var i := 0;
    ghost var budget := maxWidth - 3;
    while i < |s|
      invariant 0 <= i <= |s|
      invariant out == s[..i]
      invariant budget == maxWidth - 3 - VisualLength(width, out)
      invariant KeptPrefix(width, s, maxWidth - 3) == out + KeptPrefix(width, s[i..], budget)
    {
      var c := s[i];
      EllipsisLoopStep(width, s, i, maxWidth, budget);
      if VisualLength(width, out + [c] + "...") > maxWidth {
        break;
      }
      out, i, budget := out + [c], i + 1, budget - width(c);
    }
    assert i == |s| ==> s[i..] == [] && out + [] == out;
    r := if VisualLength(width, s) > maxWidth then out + "..." else s;
  }

  /** `ellipsis` leaves a string that fits alone; otherwise it returns a
      prefix of `s` followed by "...", where the prefix is the longest one
      that leaves room for the marker. */
  lemma EllipsisShape(width: CharWidth, s: string, maxWidth: int)
    ensures var r := Ellipsized(width, s, maxWidth);
      && (VisualLength(width, s) <= maxWidth ==> r == s)
      && (VisualLength(width, s) > maxWidth ==>
            && |r| >= 3 && r[|r| - 3..] == "..."
            && var p := r[..|r| - 3];
               && |p| <= |s| && p == s[..|p|]
               && (maxWidth >= 0 ==> |p| < |s|)
               && (maxWidth >= 3 ==> VisualLength(width, p) + 3 <= maxWidth)
               && forall k :: |p| < k <= |s| ==> VisualLength(width, s[..k]) + 3 > maxWidth)
  {
    var r := Ellipsized(width, s, maxWidth);
    if VisualLength(width, s) > maxWidth {
      var p := KeptPrefix(width, s, maxWidth - 3);
      KeptPrefixIsLongestFit(width, s, maxWidth - 3);
      assert r[..|r| - 3] == p;
      assert |p| == |s| ==> p == s;
    }
  }

  /** With room for the marker, the result of `ellipsis` fits `maxWidth`;
      with less room, an over-wide string becomes the bare marker. */
  lemma EllipsisFits(width: CharWidth, s: string, maxWidth: int)
    ensures var r := Ellipsized(width, s, maxWidth);
      && (maxWidth >= 3 ==> VisualLength(width, r) <= maxWidth)
      && (maxWidth < 3 && VisualLength(width, s) > maxWidth ==> r == "...")
  {
    var r := Ellipsized(width, s, maxWidth);
    if VisualLength(width, s) > maxWidth {
      var p := KeptPrefix(width, s, maxWidth - 3);
      KeptPrefixIsLongestFit(width, s, maxWidth - 3);
      VisualLengthConcat(width, p, "...");
      DotsWidth(width);
    }
  }

  lemma EllipsisIdempotent(width: CharWidth, s: string, maxWidth: int)
    ensures Ellipsized(width, Ellipsized(width, s, maxWidth), maxWidth) == Ellipsized(width, s, maxWidth)
  {
    var r := Ellipsized(width, s, maxWidth);
    EllipsisFits(width, s, maxWidth);
    if maxWidth < 3 && VisualLength(width, s) > maxWidth {
      DotsWidth(width);
      assert KeptPrefix(width, r, maxWidth - 3) == [];
    }
  }

  /** Thirty wide code points cut to 28 columns keep twelve of them (24
      columns) and the marker (3 columns). */
  lemma EllipsisAllWide(width: CharWidth, s: string)
    requires |s| == 30
    requires forall i :: 0 <= i < |s| ==> width(s[i]) == 2
    ensures Ellipsized(width, s, 28) == s[..12] + "..."
  {
    VisualLengthAllWide(width, s);
    var p := KeptPrefix(width, s, 25);
    KeptPrefixIsLongestFit(width, s, 25);
    VisualLengthAllWide(width, p);
  }

  /** `padRight(s, padWidth)`: spaces after `s` up to display width `padWidth`. */
  function PadRight(width: CharWidth, s: string, padWidth: int): string
  {
    var diff := padWidth - VisualLength(width, s);
    if diff > 0 then s + Repeat(' ', diff) else s
  }

  /** `padRight` keeps `s` in front, adds only spaces, never truncates, and
      reaches exactly the larger of `padWidth` and the width of `s`. */
  lemma PadRightShape(width: CharWidth, s: string, padWidth: int)
    ensures var r := PadRight(width, s, padWidth);
      && |r| >= |s| && r[..|s|] == s
      && (forall i :: |s| <= i < |r| ==> r[i] == ' ')
      && VisualLength(width, r) == (if VisualLength(width, s) >= padWidth then VisualLength(width, s) else padWidth)
      && (r == s <==> VisualLength(width, s) >= padWidth)
  {
    var diff := padWidth - VisualLength(width, s);
    if diff > 0 {
      VisualLengthConcat(width, s, Repeat(' ', diff));
      VisualLengthRepeat(width, ' ', diff);
    }
  }

  lemma PadRightIdempotent(width: CharWidth, s: string, padWidth: int)
    ensures PadRight(width, PadRight(width, s, padWidth), padWidth) == PadRight(width, s, padWidth)
  {
    PadRightShape(width, s, padWidth);
  }

  const FullGlyph: char := '█'
  const EmptyGlyph: char := '░'

  /** The filled share `Math.round((plays / total) * len)` of a bar, in
      exact arithmetic: `floor(plays * len / total + 1/2)`. index.js computes
      it in floating point, by way of a percentage. */
  function Filled(plays: nat, total: nat, len: nat): nat
    requires total > 0
  {
    (2 * plays * len + total) / (2 * total)
  }

  lemma MulMonotone(a: int, b: int, c: nat)
    requires a <= b
    ensures a * c <= b * c
  {
  }

  lemma MulCancel(a: int, b: int, c: nat)
    requires c > 0
    ensures a * c < b * c ==> a < b
  {
    if b <= a {
      MulMonotone(b, a, c);
    }
  }

  /** `Filled` rounds `plays * len / total` to the nearest integer, halves up. */
  lemma FilledIsRounded(plays: nat, total: nat, len: nat)
    requires total > 0
    ensures var f := Filled(plays, total, len);
      2 * f * total <= 2 * plays * len + total < 2 * (f + 1) * total
  {
    var f := Filled(plays, total, len);
    var n := 2 * plays * len + total;
    var d := 2 * total;
    assert n == d * f + n % d;
    assert 2 * f * total == d * f;
    assert 2 * (f + 1) * total == d * f + d;
  }

  lemma FilledUnique(plays: nat, total: nat, len: nat, f: int)
    requires total > 0
    requires 2 * f * total <= 2 * plays * len + total < 2 * (f + 1) * total
    ensures Filled(plays, total, len) == f
  {
    var g := Filled(plays, total, len);
    FilledIsRounded(plays, total, len);
    assert g * (2 * total) < (f + 1) * (2 * total);
    assert f * (2 * total) < (g + 1) * (2 * total);
    MulCancel(g, f + 1, 2 * total);
    MulCancel(f, g + 1, 2 * total);
  }

  /** A bar for a share of at most the whole is never over-full; no plays
      fill nothing and all the plays fill the whole bar. */
  lemma FilledBounds(plays: nat, total: nat, len: nat)
    requires 0 < total && plays <= total
    ensures Filled(plays, total, len) <= len
    ensures plays == 0 ==> Filled(plays, total, len) == 0
    ensures plays == total ==> Filled(plays, total, len) == len
  {
    FilledAtMostLength(plays, total, len);
    if plays == 0 {
      assert 2 * plays * len == 0;
      FilledUnique(plays, total, len, 0);
    }
    if plays == total {
      assert 2 * plays * len == 2 * len * total;
      assert 2 * (len + 1) * total == 2 * len * total + 2 * total;
      FilledUnique(plays, total, len, len);
    }
  }

  lemma FilledAtMostLength(plays: nat, total: nat, len: nat)
    requires 0 < total && plays <= total
    ensures Filled(plays, total, len) <= len
  {
    var f := Filled(plays, total, len);
    var d := 2 * total;
    var n := 2 * plays * len + total;
    FilledIsRounded(plays, total, len);
    assert f * d <= n by {
      assert f * d == 2 * f * total;
    }
    assert n < (len + 1) * d by {
      MulMonotone(plays, total, 2 * len);
      assert n == plays * (2 * len) + total;
      assert (len + 1) * d == total * (2 * len) + d;
    }
    MulCancel(f, len + 1, d);
  }

  /** More plays never fill less of the bar. */
  lemma FilledMonotone(p1: nat, p2: nat, total: nat, len: nat)
    requires 0 < total && p1 <= p2
    ensures Filled(p1, total, len) <= Filled(p2, total, len)
  {
    var f1, f2 := Filled(p1, total, len), Filled(p2, total, len);
    var d := 2 * total;
    var n1, n2 := 2 * p1 * len + total, 2 * p2 * len + total;
    FilledIsRounded(p1, total, len);
    FilledIsRounded(p2, total, len);
    assert f1 * d <= n1 by {
      assert f1 * d == 2 * f1 * total;
    }
    assert n2 < (f2 + 1) * d by {
      assert (f2 + 1) * d == 2 * (f2 + 1) * total;
    }
    assert n1 <= n2 by {
      MulMonotone(p1, p2, 2 * len);
      assert 2 * p1 * len == p1 * (2 * len);
      assert 2 * p2 * len == p2 * (2 * len);
    }
    MulCancel(f1, f2 + 1, d);
  }

  /** Above the whole, rounding decides whether the bar overflows: 65 of 64
      plays still round to a full bar of 16, while 33 of 32 plays round to
      17, one more than the bar holds. */
  lemma FilledAboveWhole()
    ensures Filled(65, 64, 16) == 16
    ensures Filled(33, 32, 16) == 17
  {
    FilledUnique(65, 64, 16, 16);
    FilledUnique(33, 32, 16, 17);
  }

  /** `progressBar((plays / total) * 100, len)`. The percentage is passed as
      the pair `plays`, `total`, and every share above the whole (a
      percentage over 100) is excluded. Of those, index.js throws only where
      the rounded count exceeds `len`, because `"░".repeat` then gets a
      negative count; a share just above the whole still gives a full bar.
      When `total` is 0
      the percentage is NaN, `Math.round` keeps it NaN and both `repeat`
      calls read NaN as 0, so the bar is empty. */
  function ProgressBar(plays: nat, total: nat, len: nat): string
    requires plays <= total
  {
    if total == 0 then ""
    else
      FilledBounds(plays, total, len);
      var f := Filled(plays, total, len);
      Repeat(FullGlyph, f) + Repeat(EmptyGlyph, len - f)
  }

  /** A bar is exactly `len` glyphs: the rounded share of full glyphs, then
      empty ones; it is empty when there are no plays at all. */
  lemma ProgressBarShape(plays: nat, total: nat, len: nat)
    requires plays <= total
    ensures var r := ProgressBar(plays, total, len);
      && (total == 0 ==> r == "")
      && (total > 0 ==>
            && |r| == len
            && var f := Filled(plays, total, len);
               && f <= len
               && forall i :: 0 <= i < len ==> r[i] == (if i < f then FullGlyph else EmptyGlyph))
  {
    if total > 0 {
      FilledBounds(plays, total, len);
    }
  }

  /** No plays give an all-empty bar, all the plays an all-full one. */
  lemma ProgressBarEnds(total: nat, len: nat)
    requires total > 0
    ensures ProgressBar(0, total, len) == Repeat(EmptyGlyph, len)
    ensures ProgressBar(total, total, len) == Repeat(FullGlyph, len)
  {
    FilledBounds(0, total, len);
    FilledBounds(total, total, len);
    ProgressBarShape(0, total, len);
    ProgressBarShape(total, total, len);
  }

  /** Where a bar is full, the bar of any larger share is full too. */
  lemma ProgressBarMonotone(p1: nat, p2: nat, total: nat, len: nat)
    requires p1 <= p2 <= total
    ensures var r1, r2 := ProgressBar(p1, total, len), ProgressBar(p2, total, len);
      |r1| == |r2| && forall i :: 0 <= i < |r1| && r1[i] == FullGlyph ==> r2[i] == FullGlyph
  {
    if total > 0 {
      ProgressBarShape(p1, total, len);
      ProgressBarShape(p2, total, len);
      FilledMonotone(p1, p2, total, len);
    }
  }
}
