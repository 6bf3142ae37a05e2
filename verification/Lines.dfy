/**
 The consent window's line breaker. `fits` is the width oracle: whether a text, shaped on
 one line, is no wider than the space there is. Positions count characters.
 */
module Lines {
  import Text

  type Fits = string -> bool

  // ----- where a line ends -----

  /** How far the measuring loop gets: every longer and longer prefix up to here fits. */
  function Reach(p: string, start: nat, end: nat, fits: Fits): (e: nat)
    requires start <= end <= |p|
    ensures end <= e <= |p|
    ensures forall k :: end < k <= e ==> fits(p[start..k])
    ensures e < |p| ==> !fits(p[start..e + 1])
    decreases |p| - end
  {
    if end < |p| && fits(p[start..end + 1]) then Reach(p, start, end + 1, fits) else end
  }

  /** The position behind the last white space in `p[start..end]`, or `start`. */
  function LastBreak(p: string, start: nat, end: nat): (k: nat)
    requires start <= end <= |p|
    ensures start <= k <= end
    ensures k > start ==> Text.IsWhitespace(p[k - 1])
    ensures forall i :: k <= i < end ==> !Text.IsWhitespace(p[i])
  {
    if end == start || Text.IsWhitespace(p[end - 1]) then end else LastBreak(p, start, end - 1)
  }

  /** The rest of the paragraph, else the last break, else all that fits, else one character. */
  function LineEnd(p: string, start: nat, fits: Fits): (end: nat)
    requires start < |p|
    ensures start < end <= |p|
    ensures end == start + 1 || fits(p[start..end])
  {
    var reach := Reach(p, start, start, fits);
    var cut := LastBreak(p, start, reach);
    if reach == |p| then reach
    else if cut > start then cut
    else if reach > start then reach
    else start + 1
  }

  function SkipSpace(p: string, start: nat): (k: nat)
    requires start <= |p|
    ensures start <= k <= |p|
    ensures forall i :: start <= i < k ==> Text.IsWhitespace(p[i])
    ensures k < |p| ==> !Text.IsWhitespace(p[k])
    decreases |p| - start
  {
    if start < |p| && Text.IsWhitespace(p[start]) then SkipSpace(p, start + 1) else start
  }

  function ParagraphFrom(p: string, start: nat, fits: Fits): seq<string>
    requires start <= |p|
    decreases |p| - start
  {
    if start == |p| then []
    else
      var end := LineEnd(p, start, fits);
      [Text.TrimEnd(p[start..end])] + ParagraphFrom(p, SkipSpace(p, end), fits)
  }

  function Paragraph(p: string, fits: Fits): seq<string> {
    if p == "" then [""] else ParagraphFrom(p, 0, fits)
  }

  function Paragraphs(parts: seq<string>, fits: Fits): seq<string> {
    if parts == [] then [] else Paragraphs(parts[..|parts| - 1], fits) + Paragraph(parts[|parts| - 1], fits)
  }

  // ----- the loops -----

  /** One pass over the characters behind `start`. */
  method MeasureLine(p: string, start: nat, fits: Fits) returns (end: nat)
    requires start < |p|
    ensures end == LineEnd(p, start, fits)
  {
    var bestEnd := start;
    var lastBreak := start; // none yet
    var i := start;
    while i < |p|
      invariant start <= i <= |p| && bestEnd == i
      invariant Reach(p, start, start, fits) == Reach(p, start, i, fits)
      invariant lastBreak == (if start == i then start else LastBreak(p, start, i))
    {
      if !fits(p[start..i + 1]) {
        break;
      }
      bestEnd := i + 1;
      if Text.IsWhitespace(p[i]) {
        lastBreak := i + 1;
      }
      i := i + 1;
    }
    if bestEnd == |p| || (lastBreak == start && bestEnd > start) {
      end := bestEnd;
    } else if lastBreak > start {
      end := lastBreak;
    } else {
      end := start + 1;
    }
  }

  method LayoutParagraph(p: string, fits: Fits) returns (lines: seq<string>)
    ensures lines == ParagraphFrom(p, 0, fits)
  {
    hide LineEnd, Text.TrimEnd, Text.IsWhitespace;
    lines := [];
    var start := 0;
    while start < |p|
      invariant start <= |p|
      invariant lines + ParagraphFrom(p, start, fits) == ParagraphFrom(p, 0, fits)
      decreases |p| - start
    {
      var end := MeasureLine(p, start, fits);
      var line := Text.TrimEnd(p[start..end]);
      ghost var next := SkipSpace(p, end);
      assert ParagraphFrom(p, start, fits) == [line] + ParagraphFrom(p, next, fits);
      assert lines + ([line] + ParagraphFrom(p, next, fits)) == lines + [line] + ParagraphFrom(p, next, fits);
      lines := lines + [line];
      start := end;
      while start < |p| && Text.IsWhitespace(p[start])
        invariant end <= start <= |p|
        invariant SkipSpace(p, start) == next
      {
        start := start + 1;
      }
    }
  }

  method LayoutLines(value: string, fits: Fits) returns (lines: seq<string>)
    ensures lines == Paragraphs(Text.Split(value, '\n'), fits)
    ensures Visible(Joined(lines)) == Visible(value)
    ensures forall line :: line in lines ==> Measured(line, fits)
    ensures LaidOut(value, lines, fits)
  {
    Lossless(value, fits);
    AllMeasured(Text.Split(value, '\n'), fits);
    LinesLaidOut(value, fits);
    hide Visible, Joined, Text.Split, Measured, LaidOut;
    lines := [];
    var parts := Text.Split(value, '\n');
    for n := 0 to |parts|
      invariant lines == Paragraphs(parts[..n], fits)
    {
      var p := parts[n];
      assert parts[..n + 1][..n] == parts[..n];
      if p == "" {
        lines := lines + [""];
        continue;
      }
      var added := LayoutParagraph(p, fits);
      lines := lines + added;
    }
    assert parts[..|parts|] == parts;
  }

  // ----- nothing visible is lost -----

  /** The non-white-space characters of a text, in order. */
  function Visible(s: string): string {
    if s == "" then ""
    else if Text.IsWhitespace(s[0]) then Visible(s[1..])
    else [s[0]] + Visible(s[1..])
  }

  function Joined(lines: seq<string>): string {
    if lines == [] then "" else lines[0] + Joined(lines[1..])
  }

  lemma {:induction false} VisibleConcat(s: string, t: string)
    ensures Visible(s + t) == Visible(s) + Visible(t)
  {
    if s == "" {
      assert s + t == t;
    } else {
      assert (s + t)[1..] == s[1..] + t;
      VisibleConcat(s[1..], t);
    }
  }

  lemma {:induction false} JoinedConcat(a: seq<string>, b: seq<string>)
    ensures Joined(a + b) == Joined(a) + Joined(b)
  {
    if a == [] {
      assert a + b == b;
    } else {
      assert (a + b)[1..] == a[1..] + b;
      JoinedConcat(a[1..], b);
    }
  }

  lemma {:induction false} BlankIsInvisible(s: string)
    requires forall i :: 0 <= i < |s| ==> Text.IsWhitespace(s[i])
    ensures Visible(s) == ""
  {
    if s != "" {
      BlankIsInvisible(s[1..]);
    }
  }

  lemma TrimKeepsVisible(s: string)
    ensures Visible(Text.TrimEnd(s)) == Visible(s)
  {
    Text.TrimEndPrefix(s);
    var t := Text.TrimEnd(s);
    assert s == t + s[|t|..];
    BlankIsInvisible(s[|t|..]);
    VisibleConcat(t, s[|t|..]);
  }

  lemma JoinedCons(line: string, rest: seq<string>)
    ensures Joined([line] + rest) == line + Joined(rest)
  {
    assert ([line] + rest)[1..] == rest;
  }

  lemma JoinedPush(c: char, lines: seq<string>)
    requires lines != []
    ensures Joined([[c] + lines[0]] + lines[1..]) == [c] + Joined(lines)
  {
    var first, tail := lines[0], lines[1..];
    assert Joined(lines) == first + Joined(tail);
    hide Joined;
    JoinedCons([c] + first, tail);
    Associative([c], first, Joined(tail));
  }

  lemma Associative(a: string, b: string, c: string)
    ensures a + (b + c) == a + b + c
  {}

  /** What one line shows together with what follows the skipped white space. */
  lemma LineLossless(p: string, start: nat, end: nat, next: nat)
    requires start <= end <= next <= |p|
    requires forall i :: end <= i < next ==> Text.IsWhitespace(p[i])
    ensures Visible(Text.TrimEnd(p[start..end])) + Visible(p[next..]) == Visible(p[start..])
  {
    hide Visible, Text.TrimEnd, Text.IsWhitespace;
    TrimKeepsVisible(p[start..end]);
    BlankIsInvisible(p[end..next]);
    VisibleConcat(p[start..end], p[end..next]);
    VisibleConcat(p[start..next], p[next..]);
    assert p[start..end] + p[end..next] == p[start..next];
    assert p[start..next] + p[next..] == p[start..];
    assert Visible(p[start..end]) + "" == Visible(p[start..end]);
  }

  lemma {:induction false} ParagraphLossless(p: string, start: nat, fits: Fits)
    requires start <= |p|
    ensures Visible(Joined(ParagraphFrom(p, start, fits))) == Visible(p[start..])
    decreases |p| - start
  {
    if start < |p| {
      hide Visible, Joined, LineEnd, SkipSpace, Text.TrimEnd;
      var end := LineEnd(p, start, fits);
      var next := SkipSpace(p, end);
      var line, rest := Text.TrimEnd(p[start..end]), ParagraphFrom(p, next, fits);
      ParagraphLossless(p, next, fits);
      LineLossless(p, start, end, next);
      JoinedCons(line, rest);
      VisibleConcat(line, Joined(rest));
    }
  }

  lemma {:induction false} ParagraphsLossless(parts: seq<string>, fits: Fits)
    ensures Visible(Joined(Paragraphs(parts, fits))) == Visible(Joined(parts))
  {
    if parts != [] {
      var front, p := parts[..|parts| - 1], parts[|parts| - 1];
      hide Visible, Joined, Paragraph;
      ParagraphsLossless(front, fits);
      ParagraphVisible(p, fits);
      JoinedOne(p);
      JoinedConcat(Paragraphs(front, fits), Paragraph(p, fits));
      VisibleConcat(Joined(Paragraphs(front, fits)), Joined(Paragraph(p, fits)));
      assert parts == front + [p];
      JoinedConcat(front, [p]);
      VisibleConcat(Joined(front), p);
    }
  }

  lemma JoinedOne(p: string)
    ensures Joined([p]) == p
  {
    assert [p][1..] == [] && p + "" == p;
  }

  lemma ParagraphVisible(p: string, fits: Fits)
    ensures Visible(Joined(Paragraph(p, fits))) == Visible(p)
  {
    ParagraphLossless(p, 0, fits);
    assert p[0..] == p;
    JoinedOne("");
  }

  lemma {:induction false} SplitKeepsVisible(s: string)
    ensures Visible(Joined(Text.Split(s, '\n'))) == Visible(s)
  {
    if s == "" {
      JoinedOne("");
    } else {
      hide Visible, Joined, Text.IsWhitespace;
      SplitKeepsVisible(s[1..]);
      SplitJoined(s);
      var rest := Joined(Text.Split(s[1..], '\n'));
      assert s == [s[0]] + s[1..];
      VisibleConcat([s[0]], s[1..]);
      VisibleConcat([s[0]], rest);
      LineFeedInvisible();
      if s[0] == '\n' {
        assert [s[0]] == ['\n'] && "" + rest == rest;
        assert "" + Visible(s[1..]) == Visible(s[1..]);
      }
    }
  }

  lemma LineFeedInvisible()
    ensures Visible(['\n']) == ""
  {
    assert ['\n'][1..] == "";
  }

  /** Splitting off the first character drops a line feed and keeps anything else. */
  lemma SplitJoined(s: string)
    requires s != ""
    ensures Joined(Text.Split(s, '\n')) ==
      (if s[0] == '\n' then "" else [s[0]]) + Joined(Text.Split(s[1..], '\n'))
  {
    var rest := Text.Split(s[1..], '\n');
    if s[0] == '\n' {
      JoinedCons("", rest);
    } else {
      JoinedPush(s[0], rest);
    }
  }

  /** For every text and every width oracle, the lines show exactly the text's visible characters, in order. */
  lemma Lossless(value: string, fits: Fits)
    ensures Visible(Joined(Paragraphs(Text.Split(value, '\n'), fits))) == Visible(value)
  {
    ParagraphsLossless(Text.Split(value, '\n'), fits);
    SplitKeepsVisible(value);
  }

  // ----- every line was measured -----

  /** What is drawn is empty, a single character, or a text measured to fit. */
  predicate Measured(line: string, fits: Fits) {
    |line| <= 1 || fits(line)
  }

  /** A line is the front of what is left of its paragraph, and that very front was measured. */
  lemma LineMeasured(p: string, start: nat, fits: Fits)
    requires start < |p|
    ensures var line := Text.TrimEnd(p[start..LineEnd(p, start, fits)]);
            line <= p[start..] && Measured(line, fits)
  {
    hide Text.TrimEnd, Text.IsWhitespace;
    var end := LineEnd(p, start, fits);
    var line := Text.TrimEnd(p[start..end]);
    Text.TrimEndPrefix(p[start..end]);
    assert line == p[start..start + |line|];
  }

  lemma {:induction false} ParagraphMeasured(p: string, start: nat, fits: Fits)
    requires start <= |p|
    ensures forall line :: line in ParagraphFrom(p, start, fits) ==> Measured(line, fits)
    decreases |p| - start
  {
    if start < |p| {
      hide LineEnd, SkipSpace, Measured, Text.TrimEnd;
      LineMeasured(p, start, fits);
      ParagraphMeasured(p, SkipSpace(p, LineEnd(p, start, fits)), fits);
    }
  }

  lemma {:induction false} AllMeasured(parts: seq<string>, fits: Fits)
    ensures forall line :: line in Paragraphs(parts, fits) ==> Measured(line, fits)
  {
    if parts != [] {
      AllMeasured(parts[..|parts| - 1], fits);
      ParagraphMeasured(parts[|parts| - 1], 0, fits);
    }
  }

  /**
   A line stops short of its paragraph's end only where it must: up to `reach` everything
   fits, one character more does not, and between the line's end and `reach` there is no
   later place to break.
   */
  lemma Greedy(p: string, start: nat, fits: Fits) returns (reach: nat)
    requires start < |p| && LineEnd(p, start, fits) < |p|
    ensures start <= reach < |p| && !fits(p[start..reach + 1])
    ensures forall k :: start < k <= reach ==> fits(p[start..k])
    ensures var end := LineEnd(p, start, fits);
            || (end <= reach && Text.IsWhitespace(p[end - 1]) && Text.NoWhitespace(p[end..reach]))
            || (end == reach && Text.NoWhitespace(p[start..reach]))
            || (end == start + 1 && reach == start)
  {
    reach := Reach(p, start, start, fits);
  }

  // ----- what the lines are -----

  /**
   One line of a paragraph, cut from `start` to `end`: everything that is left, if all of it
   fits; otherwise up to the last white space before the first character that does not fit;
   without white space up to that character; and one character where not even that fits.
   */
  ghost predicate RightCut(p: string, start: nat, end: nat, fits: Fits) {
    && start < end <= |p|
    && (|| (end == |p| && forall k :: start < k <= |p| ==> fits(p[start..k]))
        || exists reach :: Overflows(p, start, reach, fits) && EndsBefore(p, start, end, reach))
  }

  /** The text from `start` fits up to `reach` and no further. */
  predicate Overflows(p: string, start: nat, reach: nat, fits: Fits) {
    && start <= reach < |p| && !fits(p[start..reach + 1])
    && forall k :: start < k <= reach ==> fits(p[start..k])
  }

  predicate EndsBefore(p: string, start: nat, end: nat, reach: nat)
    requires start < end <= |p| && reach <= |p|
  {
    || (end <= reach && Text.IsWhitespace(p[end - 1]) && Text.NoWhitespace(p[end..reach]))
    || (start < end == reach && start <= reach && Text.NoWhitespace(p[start..reach]))
    || (end == start + 1 && reach == start)
  }

  /**
   The lines of a paragraph with their cuts: each is right, trimmed at its end, and starts
   at the first character behind the one before that is no white space.
   */
  ghost predicate CutInto(p: string, lines: seq<string>, starts: seq<nat>, ends: seq<nat>, fits: Fits) {
    && |lines| == |starts| == |ends|
    && (forall i :: 0 <= i < |lines| ==> RightCut(p, starts[i], ends[i], fits))
    && (forall i :: 0 <= i < |lines| ==> starts[i] < ends[i] <= |p| && lines[i] == Text.TrimEnd(p[starts[i]..ends[i]]))
    && (forall i :: 0 <= i < |lines| - 1 ==> Resumes(p, ends[i], starts[i + 1]) && starts[i + 1] < |p|)
  }

  /** Only white space lies between, and none at the place where the text goes on. */
  predicate Resumes(p: string, end: nat, next: nat) {
    && end <= next <= |p|
    && Text.Blank(p[end..next])
    && (next < |p| ==> !Text.IsWhitespace(p[next]))
  }

  lemma LineEndRight(p: string, start: nat, fits: Fits)
    requires start < |p|
    ensures RightCut(p, start, LineEnd(p, start, fits), fits)
  {
    var reach := Reach(p, start, start, fits);
    if reach < |p| {
      assert Overflows(p, start, reach, fits);
      assert EndsBefore(p, start, LineEnd(p, start, fits), reach);
    }
  }

  lemma {:induction false} ParagraphCuts(p: string, start: nat, fits: Fits) returns (starts: seq<nat>, ends: seq<nat>)
    requires start < |p|
    ensures CutInto(p, ParagraphFrom(p, start, fits), starts, ends, fits)
    ensures |starts| >= 1 && starts[0] == start
    ensures Resumes(p, ends[|ends| - 1], |p|)
    decreases |p| - start
  {
    hide LineEnd, SkipSpace, RightCut, Text.TrimEnd, Text.IsWhitespace;
    var end := LineEnd(p, start, fits);
    var next := SkipSpace(p, end);
    LineEndRight(p, start, fits);
    var lines := ParagraphFrom(p, start, fits);
    var rest := ParagraphFrom(p, next, fits);
    assert lines == [Text.TrimEnd(p[start..end])] + rest;
    assert Resumes(p, end, next);
    if next == |p| {
      starts, ends := [start], [end];
      assert rest == [];
    } else {
      var laterStarts, laterEnds := ParagraphCuts(p, next, fits);
      starts, ends := [start] + laterStarts, [end] + laterEnds;
      CutsCons(p, start, end, rest, laterStarts, laterEnds, fits);
    }
  }

  lemma CutsCons(p: string, start: nat, end: nat, rest: seq<string>, starts: seq<nat>, ends: seq<nat>, fits: Fits)
    requires CutInto(p, rest, starts, ends, fits) && |rest| >= 1
    requires RightCut(p, start, end, fits) && start < end <= |p|
    requires Resumes(p, end, starts[0])
    ensures CutInto(p, [Text.TrimEnd(p[start..end])] + rest, [start] + starts, [end] + ends, fits)
  {
    hide RightCut, Text.TrimEnd, Resumes;
    var line := Text.TrimEnd(p[start..end]);
    var lines, s, e := [line] + rest, [start] + starts, [end] + ends;
    forall i | 0 <= i < |lines|
      ensures RightCut(p, s[i], e[i], fits) && s[i] < e[i] <= |p| && lines[i] == Text.TrimEnd(p[s[i]..e[i]])
    {
      if i > 0 {
        assert s[i] == starts[i - 1] && e[i] == ends[i - 1] && lines[i] == rest[i - 1];
      }
    }
    forall i | 0 <= i < |lines| - 1 ensures Resumes(p, e[i], s[i + 1]) && s[i + 1] < |p| {
      if i > 0 {
        assert s[i + 1] == starts[i - 1 + 1] && e[i] == ends[i - 1];
      }
    }
  }

  /** The lines of one paragraph: one empty line for an empty one, otherwise the right cuts of all of it. */
  ghost predicate Breaks(p: string, lines: seq<string>, fits: Fits) {
    if p == "" then lines == [""]
    else exists starts, ends :: BreaksAt(p, lines, starts, ends, fits)
  }

  ghost predicate BreaksAt(p: string, lines: seq<string>, starts: seq<nat>, ends: seq<nat>, fits: Fits) {
    && CutInto(p, lines, starts, ends, fits)
    && |lines| >= 1 && starts[0] == 0
    && Resumes(p, ends[|ends| - 1], |p|)
  }

  lemma ParagraphBreaks(p: string, fits: Fits)
    ensures Breaks(p, Paragraph(p, fits), fits)
  {
    if p != "" {
      var starts, ends := ParagraphCuts(p, 0, fits);
      assert BreaksAt(p, Paragraph(p, fits), starts, ends, fits);
    }
  }

  function Flatten(groups: seq<seq<string>>): seq<string> {
    if groups == [] then [] else groups[0] + Flatten(groups[1..])
  }

  /** The text's own paragraphs, in order, each broken by itself and none mixed with another. */
  ghost predicate LaidOut(value: string, lines: seq<string>, fits: Fits) {
    exists parts: seq<string>, groups: seq<seq<string>> :: LaidOutAs(value, lines, parts, groups, fits)
  }

  ghost predicate LaidOutAs(value: string, lines: seq<string>, parts: seq<string>, groups: seq<seq<string>>, fits: Fits)
  {
    && Text.JoinWith(parts, '\n') == value && parts != []
    && (forall i :: 0 <= i < |parts| ==> '\n' !in parts[i])
    && |groups| == |parts| && lines == Flatten(groups)
    && forall i :: 0 <= i < |parts| ==> Breaks(parts[i], groups[i], fits)
  }

  lemma {:induction false} FlattenConcat(a: seq<seq<string>>, b: seq<seq<string>>)
    ensures Flatten(a + b) == Flatten(a) + Flatten(b)
  {
    if a == [] {
      assert a + b == b;
    } else {
      assert (a + b)[1..] == a[1..] + b;
      FlattenConcat(a[1..], b);
    }
  }

  lemma {:induction false} ParagraphsFlatten(parts: seq<string>, fits: Fits) returns (groups: seq<seq<string>>)
    ensures |groups| == |parts| && Paragraphs(parts, fits) == Flatten(groups)
    ensures forall i :: 0 <= i < |parts| ==> groups[i] == Paragraph(parts[i], fits)
  {
    if parts == [] {
      groups := [];
    } else {
      var front, last := parts[..|parts| - 1], parts[|parts| - 1];
      var before := ParagraphsFlatten(front, fits);
      var group := Paragraph(last, fits);
      groups := before + [group];
      hide Paragraph;
      FlattenConcat(before, [group]);
      assert [group][1..] == [] && Flatten([group]) == group + [];
    }
  }

  lemma LinesLaidOut(value: string, fits: Fits)
    ensures LaidOut(value, Paragraphs(Text.Split(value, '\n'), fits), fits)
  {
    hide Paragraph, Breaks, Text.Split;
    var parts := Text.Split(value, '\n');
    Text.SplitInverse(value, '\n');
    var groups := ParagraphsFlatten(parts, fits);
    forall i | 0 <= i < |parts| ensures Breaks(parts[i], groups[i], fits) {
      ParagraphBreaks(parts[i], fits);
    }
    assert LaidOutAs(value, Paragraphs(parts, fits), parts, groups, fits);
  }

  /** A paragraph that fits as a whole, at every length, stays on one line. */
  lemma WholeOnOneLine(p: string, lines: seq<string>, fits: Fits)
    requires p != "" && Breaks(p, lines, fits)
    requires forall k :: 0 < k <= |p| ==> fits(p[0..k])
    ensures lines == [Text.TrimEnd(p)]
  {
    hide RightCut, Text.TrimEnd, Text.IsWhitespace;
    var starts, ends :| BreaksAt(p, lines, starts, ends, fits);
    WholeCut(p, ends[0], fits);
    assert p[0..|p|] == p;
    assert |lines| > 1 ==> Resumes(p, ends[0], starts[0 + 1]);
    assert lines == [lines[0]];
  }

  lemma WholeCut(p: string, end: nat, fits: Fits)
    requires RightCut(p, 0, end, fits)
    requires forall k :: 0 < k <= |p| ==> fits(p[0..k])
    ensures end == |p|
  {
    forall reach: nat ensures !Overflows(p, 0, reach, fits) {
      if reach < |p| {
        assert fits(p[0..reach + 1]);
      }
    }
  }
}
