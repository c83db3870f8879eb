/** The line layout of `main` in index.js: keep the first `MaxItems`
    tracks, sum their plays, build one fixed-width line per kept track and
    join the lines with newlines. Fetching the tracks and publishing the
    text are not part of this model. */
module Render {
  import opened JsText
  import opened Helpers

  const MaxItems: nat := 5
  const BarLength: nat := 16
  const TitleWidth: nat := 28
  /** The width `padStart` gives the play count. */
  const CountWidth: nat := 4

  /** A track as `getTopTracks` hands it over: its name and its play count. */
  datatype Track = Track(name: string, plays: nat)

  /** `tracks.slice(0, MAX_ITEMS)`: the leading tracks, in input order. */
  function TopTracks(tracks: seq<Track>): (kept: seq<Track>)
    ensures |kept| == if |tracks| < MaxItems then |tracks| else MaxItems
    ensures kept == tracks[..|kept|]
  {
    if |tracks| <= MaxItems then tracks else tracks[..MaxItems]
  }

  /** `tracks.reduce((s, t) => s + t.plays, 0)`. No track has more plays
      than the total, and the total is 0 exactly when every track has none. */
  function TotalPlays(tracks: seq<Track>): (total: nat)
    ensures forall i :: 0 <= i < |tracks| ==> tracks[i].plays <= total
    ensures total == 0 <==> forall i :: 0 <= i < |tracks| ==> tracks[i].plays == 0
  {
    if tracks == [] then 0 else TotalPlays(tracks[..|tracks| - 1]) + tracks[|tracks| - 1].plays
  }

  /** The title column: the name cut to `TitleWidth` columns, then padded to it. */
  function TitleField(width: CharWidth, name: string): string
  {
    PadRight(width, Ellipsized(width, name, TitleWidth), TitleWidth)
  }

  /** `String(t.plays).padStart(4)` */
  function CountField(plays: nat): string
  {
    PadStart(DecimalString(plays), CountWidth)
  }

  /** The template literal `${title} ${bar} ${count}` of one track. */
  function Line(width: CharWidth, t: Track, total: nat): string
    requires t.plays <= total
  {
    TitleField(width, t.name) + " " + ProgressBar(t.plays, total, BarLength) + " " + CountField(t.plays)
  }

  /** `tracks.map(...)`: one line per track, in the same order. */
  function Lines(width: CharWidth, tracks: seq<Track>, total: nat): (lines: seq<string>)
    requires forall i :: 0 <= i < |tracks| ==> tracks[i].plays <= total
    ensures |lines| == |tracks|
    ensures forall i :: 0 <= i < |tracks| ==> lines[i] == Line(width, tracks[i], total)
  {
    if tracks == [] then [] else [Line(width, tracks[0], total)] + Lines(width, tracks[1..], total)
  }

  /** The content `main` publishes: `lines.join("\n")`. */
  function Render(width: CharWidth, tracks: seq<Track>): string
  {
    var kept := TopTracks(tracks);
    Join(Lines(width, kept, TotalPlays(kept)), '\n')
  }

  /** The title column is exactly `TitleWidth` columns wide, whatever the
      name: the cut name, then spaces. */
  lemma TitleFieldShape(width: CharWidth, name: string)
    ensures var title, e := TitleField(width, name), Ellipsized(width, name, TitleWidth);
      && VisualLength(width, title) == TitleWidth
      && VisualLength(width, e) <= TitleWidth
      && title == e + Repeat(' ', TitleWidth - VisualLength(width, e))
  {
    var e := Ellipsized(width, name, TitleWidth);
    EllipsisFits(width, name, TitleWidth);
    PadRightShape(width, e, TitleWidth);
    var title := TitleField(width, name);
    assert title[|e|..] == Repeat(' ', TitleWidth - VisualLength(width, e));
    assert title == title[..|e|] + title[|e|..];
  }

  /** The count column holds the decimal digits of the play count,
      right-aligned in at least `CountWidth` code points; below 10000 plays
      it is exactly `CountWidth` long. */
  lemma CountFieldShape(plays: nat)
    ensures var c, d := CountField(plays), DecimalString(plays);
      && |c| >= CountWidth
      && (plays < 10000 ==> |c| == CountWidth)
      && c[|c| - |d|..] == d
      && (forall i :: 0 <= i < |c| - |d| ==> c[i] == ' ')
      && DecimalValue(d) == plays
  {
    DecimalRoundTrip(plays);
    if plays < 10000 {
      assert Pow10(4) == 10000;
      DecimalStringLength(plays, 4);
    }
  }

  /** Where the fields of a line start: the title fills the first
      `TitleWidth` display columns, a space follows, then the bar, a space
      and the count as the last field. */
  lemma LineLayout(width: CharWidth, t: Track, total: nat)
    requires t.plays <= total
    ensures var line, k := Line(width, t, total), |TitleField(width, t.name)|;
      var bar := ProgressBar(t.plays, total, BarLength);
      && |line| == k + 1 + |bar| + 1 + |CountField(t.plays)|
      && line[..k] == TitleField(width, t.name)
      && VisualLength(width, line[..k]) == TitleWidth
      && line[k] == ' '
      && line[k + 1..k + 1 + |bar|] == bar
      && line[k + 1 + |bar|] == ' '
      && line[k + 2 + |bar|..] == CountField(t.plays)
  {
    FieldsLayout(TitleField(width, t.name), ProgressBar(t.plays, total, BarLength), CountField(t.plays));
    TitleFieldShape(width, t.name);
  }

  /** Where the pieces of `${title} ${bar} ${count}` sit, whatever they hold. */
  lemma FieldsLayout(title: string, bar: string, count: string)
    ensures var line, k := title + " " + bar + " " + count, |title|;
      && |line| == k + 1 + |bar| + 1 + |count|
      && line[..k] == title
      && line[k] == ' '
      && line[k + 1..k + 1 + |bar|] == bar
      && line[k + 1 + |bar|] == ' '
      && line[k + 2 + |bar|..] == count
  {
    var line, k := title + " " + bar + " " + count, |title|;
    assert line[..k] == title;
    assert line[k + 1..k + 1 + |bar|] == bar;
    assert line[k + 2 + |bar|..] == count;
  }

  /** A name cut to the title width holds a newline only if the name does. */
  lemma EllipsizedWithoutNewline(width: CharWidth, name: string)
    requires '\n' !in name
    ensures '\n' !in Ellipsized(width, name, TitleWidth)
  {
    var e := Ellipsized(width, name, TitleWidth);
    EllipsisShape(width, name, TitleWidth);
    if VisualLength(width, name) > TitleWidth {
      var p := e[..|e| - 3];
      assert e == p + "...";
      assert forall i :: 0 <= i < |p| ==> p[i] == name[i];
      assert '\n' !in p;
    }
  }

  lemma TitleWithoutNewline(width: CharWidth, name: string)
    requires '\n' !in name
    ensures '\n' !in TitleField(width, name)
  {
    var e := Ellipsized(width, name, TitleWidth);
    EllipsizedWithoutNewline(width, name);
    TitleFieldShape(width, name);
    var pad := Repeat(' ', TitleWidth - VisualLength(width, e));
    assert '\n' !in pad;
    assert TitleField(width, name) == e + pad;
  }

  lemma CountWithoutNewline(plays: nat)
    ensures '\n' !in CountField(plays)
  {
    CountFieldShape(plays);
    var c, d := CountField(plays), DecimalString(plays);
    assert c == c[..|c| - |d|] + d;
    assert '\n' !in d;
  }

  lemma LineWithoutNewline(width: CharWidth, t: Track, total: nat)
    requires t.plays <= total
    requires '\n' !in t.name
    ensures '\n' !in Line(width, t, total)
  {
    TitleWithoutNewline(width, t.name);
    CountWithoutNewline(t.plays);
    ProgressBarShape(t.plays, total, BarLength);
    assert '\n' !in ProgressBar(t.plays, total, BarLength);
  }

  lemma LinesWithoutNewline(width: CharWidth, tracks: seq<Track>, total: nat)
    requires forall i :: 0 <= i < |tracks| ==> tracks[i].plays <= total
    requires forall i :: 0 <= i < |tracks| ==> '\n' !in tracks[i].name
    ensures forall i :: 0 <= i < |tracks| ==> '\n' !in Lines(width, tracks, total)[i]
  {
    var ls := Lines(width, tracks, total);
    forall i | 0 <= i < |ls|
      ensures '\n' !in ls[i]
    {
      LineWithoutNewline(width, tracks[i], total);
    }
  }

  /** Splitting the published text on newlines gives back the lines of the
      kept tracks, provided no track name holds a newline of its own. */
  lemma RenderSplits(width: CharWidth, tracks: seq<Track>)
    requires tracks != []
    requires forall i :: 0 <= i < |tracks| ==> '\n' !in tracks[i].name
    ensures var kept := TopTracks(tracks);
      Split(Render(width, tracks), '\n') == Lines(width, kept, TotalPlays(kept))
  {
    var kept := TopTracks(tracks);
    var total := TotalPlays(kept);
    var ls := Lines(width, kept, total);
    assert Render(width, tracks) == Join(ls, '\n');
    assert forall i :: 0 <= i < |kept| ==> kept[i] == tracks[i];
    LinesWithoutNewline(width, kept, total);
    SplitJoin(ls, '\n');
  }

  /** The kept tracks are the leading tracks of the input, so the line at
      each index is the line of the input track at that index. */
  lemma KeptLines(width: CharWidth, tracks: seq<Track>)
    ensures var kept := TopTracks(tracks);
      var total := TotalPlays(kept);
      forall i :: 0 <= i < |kept| ==>
        && tracks[i].plays <= total
        && Lines(width, kept, total)[i] == Line(width, tracks[i], total)
  {
    var kept := TopTracks(tracks);
    var total := TotalPlays(kept);
    forall i | 0 <= i < |kept|
      ensures tracks[i].plays <= total && Lines(width, kept, total)[i] == Line(width, tracks[i], total)
    {
      assert kept[i] == tracks[i];
    }
  }

  /** The published text: nothing for no tracks, and otherwise one line per
      kept track, at most `MaxItems` of them, in input order, provided no
      track name holds a newline of its own. */
  lemma RenderShape(width: CharWidth, tracks: seq<Track>)
    requires forall i :: 0 <= i < |tracks| ==> '\n' !in tracks[i].name
    ensures tracks == [] ==> Render(width, tracks) == ""
    ensures tracks != [] ==>
      var lines, total := Split(Render(width, tracks), '\n'), TotalPlays(TopTracks(tracks));
      && |lines| == |TopTracks(tracks)| <= MaxItems
      && forall i :: 0 <= i < |lines| ==> tracks[i].plays <= total && lines[i] == Line(width, tracks[i], total)
  {
    if tracks != [] {
      RenderSplits(width, tracks);
      KeptLines(width, tracks);
    }
  }

  /** `BarLength` glyphs, each full or empty. */
  predicate IsBar(b: string)
  {
    |b| == BarLength && forall n :: 0 <= n < |b| ==> b[n] == FullGlyph || b[n] == EmptyGlyph
  }

  /** Every two lines of one rendering line up: the bar starts one column
      after the title column in both, and when some track has plays each bar
      is `BarLength` glyphs, so the count field starts at the same offset
      after the title. */
  lemma LinesAligned(width: CharWidth, tracks: seq<Track>, i: nat, j: nat)
    requires i < |tracks| && j < |tracks|
    requires TotalPlays(tracks) > 0
    ensures var total := TotalPlays(tracks);
      var li, lj := Line(width, tracks[i], total), Line(width, tracks[j], total);
      var ki, kj := |TitleField(width, tracks[i].name)|, |TitleField(width, tracks[j].name)|;
      && li[..ki] == TitleField(width, tracks[i].name) && lj[..kj] == TitleField(width, tracks[j].name)
      && VisualLength(width, li[..ki]) == VisualLength(width, lj[..kj]) == TitleWidth
      && li[ki] == lj[kj] == ' '
      && IsBar(li[ki + 1..ki + 1 + BarLength]) && IsBar(lj[kj + 1..kj + 1 + BarLength])
      && li[ki + BarLength + 1] == lj[kj + BarLength + 1] == ' '
      && li[ki + BarLength + 2..] == CountField(tracks[i].plays)
      && lj[kj + BarLength + 2..] == CountField(tracks[j].plays)
  {
    var total := TotalPlays(tracks);
    LineLayout(width, tracks[i], total);
    LineLayout(width, tracks[j], total);
    ProgressBarShape(tracks[i].plays, total, BarLength);
    ProgressBarShape(tracks[j].plays, total, BarLength);
  }

  /** Two one-letter tracks with 2 and 1 plays: the first bar has 11 of 16
      glyphs full, the second 5, and the counts are right-aligned as "   2"
      and "   1". */
  lemma TwoTracksExample(width: CharWidth, tracks: seq<Track>, a: char, b: char)
    requires |tracks| == 2 && tracks[0] == Track([a], 2) && tracks[1] == Track([b], 1)
    requires width(a) == 1 && width(b) == 1 && a != '\n' && b != '\n'
    ensures var lines := Split(Render(width, tracks), '\n');
      && |lines| == 2
      && lines[0] == [a] + Repeat(' ', 27) + " " + Repeat(FullGlyph, 11) + Repeat(EmptyGlyph, 5) + " " + "   2"
      && lines[1] == [b] + Repeat(' ', 27) + " " + Repeat(FullGlyph, 5) + Repeat(EmptyGlyph, 11) + " " + "   1"
  {
    TwoTracksTotal(tracks);
    RenderShape(width, tracks);
    ExampleLine(width, a, 2, 11);
    ExampleLine(width, b, 1, 5);
    CountOneDigit(2);
    CountOneDigit(1);
  }

  lemma TwoTracksTotal(tracks: seq<Track>)
    requires |tracks| == 2 && tracks[0].plays == 2 && tracks[1].plays == 1
    ensures TotalPlays(tracks) == 3
  {
    assert tracks[..1][..0] == [];
  }

  /** The line of a one-letter narrow name with 1 or 2 of 3 plays. */
  lemma ExampleLine(width: CharWidth, c: char, plays: nat, f: nat)
    requires width(c) == 1 && 1 <= plays <= 2 && f == 6 * plays - 1
    ensures Line(width, Track([c], plays), 3)
         == [c] + Repeat(' ', 27) + " " + Repeat(FullGlyph, f) + Repeat(EmptyGlyph, 16 - f) + " " + CountField(plays)
  {
    NarrowLetterTitle(width, c);
    assert Filled(plays, 3, BarLength) == f;
  }

  lemma NarrowLetterTitle(width: CharWidth, c: char)
    requires width(c) == 1
    ensures TitleField(width, [c]) == [c] + Repeat(' ', 27)
  {
    VisualLengthSingle(width, c);
  }

  lemma CountOneDigit(d: nat)
    requires 1 <= d <= 9
    ensures CountField(d) == "   " + [DigitChar(d)]
    ensures d == 1 ==> CountField(d) == "   1"
    ensures d == 2 ==> CountField(d) == "   2"
  {
    assert Repeat(' ', 3) == "   ";
  }
}
