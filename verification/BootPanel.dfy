/** The panel that draws the boot log: wrapping its lines and showing the newest sixteen rows. */
module BootPanel {
  import opened BootLog

  /** Advance widths in pixels, whatever the font. */
  type Font = char -> nat

  function Width(s: string, w: Font): nat {
    if s == [] then 0 else Width(s[..|s| - 1], w) + w(s[|s| - 1])
  }

  /** How many characters fit in `max`, counting from `from` that already do. */
  function Reach(s: string, from: nat, max: nat, w: Font): (n: nat)
    requires from <= |s|
    ensures from <= n <= |s|
    decreases |s| - from
  {
    if from < |s| && Width(s[..from + 1], w) <= max then Reach(s, from + 1, max, w) else from
  }

  /** The last space among the first `n` characters, or -1. */
  function LastSpace(s: string, n: nat): (k: int)
    requires n <= |s|
    ensures -1 <= k < n && (k >= 0 ==> s[k] == ' ') && forall j :: k < j < n ==> s[j] != ' '
  {
    if n == 0 then -1 else if s[n - 1] == ' ' then n - 1 else LastSpace(s, n - 1)
  }

  function Fit(s: string, max: nat, w: Font): nat {
    var n := Reach(s, 0, max, w);
    if n == |s| then n
    else if LastSpace(s, n) > 0 then LastSpace(s, n) + 1
    else if n > 0 then n else 1
  }

  lemma {:induction false} WidthPrefix(s: string, n: nat, w: Font)
    requires n <= |s|
    ensures Width(s[..n], w) <= Width(s, w)
  {
    if n < |s| {
      WidthPrefix(s[..|s| - 1], n, w);
      assert s[..|s| - 1][..n] == s[..n];
    } else {
      assert s[..n] == s;
    }
  }

  lemma {:induction false} ReachIsGreatest(s: string, from: nat, max: nat, w: Font)
    requires from <= |s| && (from == 0 || Width(s[..from], w) <= max)
    ensures var n := Reach(s, from, max, w);
            && (n == 0 || Width(s[..n], w) <= max)
            && (n < |s| ==> Width(s[..n + 1], w) > max)
    decreases |s| - from
  {
    if from < |s| && Width(s[..from + 1], w) <= max {
      ReachIsGreatest(s, from + 1, max, w);
    }
  }

  /** A segment is not empty, fits unless it is a single character, and is as long as it can be: longer
      would not fit, unless it was cut just after the last space of what fits. */
  lemma FitIsGreedy(s: string, max: nat, w: Font)
    requires s != []
    ensures var n := Fit(s, max, w);
            && 0 < n <= |s|
            && (Width(s[..n], w) <= max || n == 1)
            && (n < |s| && Width(s[..n + 1], w) <= max ==>
                  s[n - 1] == ' ' && forall j :: n <= j < Reach(s, 0, max, w) ==> s[j] != ' ')
  {
    var n := Reach(s, 0, max, w);
    ReachIsGreatest(s, 0, max, w);
    var f := Fit(s, max, w);
    if f < n {
      WidthPrefix(s[..n], f, w);
      assert s[..n][..f] == s[..f];
    }
    if n == 0 && 1 < |s| {
      WidthPrefix(s[..2], 1, w);
      assert s[..2][..1] == s[..1];
    }
  }

  lemma WidthMonotone(s: string, n: nat, m: nat, w: Font)
    requires n <= m <= |s|
    ensures Width(s[..n], w) <= Width(s[..m], w)
  {
    WidthPrefix(s[..m], n, w);
    assert s[..m][..n] == s[..n];
  }

  /** A break may come after the character at `j`: it is a space, not the first, and fits. */
  predicate BreaksAt(s: string, j: int, max: nat, w: Font) {
    0 < j < |s| && s[j] == ' ' && Width(s[..j + 1], w) <= max
  }

  /** A prefix fits exactly when it is no longer than the reach. */
  lemma ReachDecides(s: string, n: nat, max: nat, w: Font)
    requires 0 < n <= |s|
    ensures Width(s[..n], w) <= max <==> n <= Reach(s, 0, max, w)
  {
    hide Width, Reach;
    var r := Reach(s, 0, max, w);
    ReachIsGreatest(s, 0, max, w);
    if n <= r {
      WidthMonotone(s, n, r, w);
    } else {
      WidthMonotone(s, r + 1, n, w);
    }
  }

  /** A line that fits is one segment. One that does not is broken just after the last space that fits,
      if there is one, and else where it stops fitting, but never before its first character. */
  lemma FitBreaksAtSpace(s: string, max: nat, w: Font)
    requires s != []
    ensures var n := Fit(s, max, w);
            && 0 < n <= |s|
            && (Width(s, w) <= max ==> n == |s|)
            && (Width(s, w) > max ==>
                  && (forall j :: BreaksAt(s, j, max, w) ==> j < n)
                  && ((exists j :: BreaksAt(s, j, max, w)) ==> BreaksAt(s, n - 1, max, w))
                  && (!(exists j :: BreaksAt(s, j, max, w)) ==>
                        (n == 1 || Width(s[..n], w) <= max) && (n < |s| ==> Width(s[..n + 1], w) > max)))
  {
    hide Width, Reach;
    var r, n := Reach(s, 0, max, w), Fit(s, max, w);
    assert s[..|s|] == s;
    ReachDecides(s, |s|, max, w);
    forall j | BreaksAt(s, j, max, w) ensures j < r {
      ReachDecides(s, j + 1, max, w);
    }
    if r < |s| {
      var k := LastSpace(s, r);
      if k > 0 {
        ReachDecides(s, k + 1, max, w);
        assert BreaksAt(s, k, max, w);
      } else {
        forall j ensures !BreaksAt(s, j, max, w) {}
        ReachDecides(s, n, max, w);
        ReachDecides(s, if n < |s| then n + 1 else n, max, w);
      }
    }
  }

  /** The rows a line is drawn on. */
  function Segments(line: string, max: nat, w: Font): seq<string>
    decreases |line|
  {
    if line == [] then []
    else
      FitIsGreedy(line, max, w);
      var n := Fit(line, max, w);
      [line[..n]] + Segments(line[n..], max, w)
  }

  function Joined(parts: seq<string>): string {
    if parts == [] then [] else parts[0] + Joined(parts[1..])
  }

  /** The segments are a partition of the line into pieces that are not empty and fit. */
  lemma {:induction false} SegmentsPartition(line: string, max: nat, w: Font)
    ensures Joined(Segments(line, max, w)) == line
    ensures forall p :: p in Segments(line, max, w) ==>
              0 < |p| <= |line| && (Width(p, w) <= max || |p| == 1)
    decreases |line|
  {
    hide Fit, Width, Reach, Segments;
    SegmentsStep(line, max, w);
    if line != [] {
      FitIsGreedy(line, max, w);
      var n := Fit(line, max, w);
      SegmentsPartition(line[n..], max, w);
      JoinedCons(line[..n], Segments(line[n..], max, w));
      assert line == line[..n] + line[n..];
    }
  }

  lemma SegmentsStep(line: string, max: nat, w: Font)
    ensures line == [] ==> Segments(line, max, w) == []
    ensures line != [] ==>
      var n := Fit(line, max, w);
      0 < n <= |line| && Segments(line, max, w) == [line[..n]] + Segments(line[n..], max, w)
  {
    hide Fit, Width, Reach;
    if line != [] {
      FitIsGreedy(line, max, w);
    }
  }

  lemma JoinedCons(part: string, parts: seq<string>)
    ensures Joined([part] + parts) == part + Joined(parts)
  {
    assert ([part] + parts)[1..] == parts;
  }

  /** All rows of all lines, oldest first. */
  function Rows(lines: seq<string>, max: nat, w: Font): seq<string> {
    if lines == [] then []
    else Rows(lines[..|lines| - 1], max, w) + Segments(lines[|lines| - 1], max, w)
  }

  // ------------------------------------------------------------------ the loops

  method BootlogFit(s: string, max: nat, w: Font) returns (n: nat)
    ensures n == Fit(s, max, w)
  {
    var width, i, lastSpace := 0, 0, -1;
    assert s[..0] == [];
    while i < |s|
      invariant 0 <= i <= |s| && width == Width(s[..i], w) && lastSpace == LastSpace(s, i)
      invariant Reach(s, i, max, w) == Reach(s, 0, max, w)
    {
      assert s[..i + 1][..i] == s[..i];
      width := width + w(s[i]);
      if width > max {
        break;
      }
      if s[i] == ' ' {
        lastSpace := i;
      }
      i := i + 1;
    }
    if i == |s| {
      return i;
    }
    if lastSpace > 0 {
      return lastSpace + 1;
    }
    return if i > 0 then i else 1;
  }

  /** bootlogRows: at least one row, even for an empty line. */
  method BootlogRows(line: string, max: nat, w: Font) returns (rows: nat)
    ensures rows == if line == [] then 1 else |Segments(line, max, w)|
  {
    rows := 0;
    var rest := line;
    while rest != []
      invariant rows + |Segments(rest, max, w)| == |Segments(line, max, w)|
      invariant line != [] && rest == [] ==> rows > 0
      decreases |rest|
    {
      FitIsGreedy(rest, max, w);
      var n := BootlogFit(rest, max, w);
      rest := rest[n..];
      rows := rows + 1;
    }
    rows := if rows > 0 then rows else 1;
  }

  /** One string drawn at a height. */
  datatype Draw = Draw(row: int, text: string)

  /** A row inside the panel's border is one of its first sixteen. */
  lemma RowInside(k: nat, top: int, step: nat)
    requires step > 0
    ensures top + 8 + k * step < top + (16 + LINES * step) - 8 <==> k < LINES
  {
    if k < LINES {
      assert k * step < LINES * step by { MulLess(k, LINES, step); }
    } else if k > LINES {
      MulLess(LINES, k, step);
    }
  }

  lemma MulLess(a: nat, b: nat, step: nat)
    requires a < b && step > 0
    ensures a * step < b * step
  {}

  lemma {:induction false} RowsSnoc(lines: seq<string>, i: nat, max: nat, w: Font)
    requires i < |lines|
    ensures Rows(lines[..i + 1], max, w) == Rows(lines[..i], max, w) + Segments(lines[i], max, w)
  {
    assert lines[..i + 1][..i] == lines[..i];
  }

  lemma {:induction false} RowsPrefix(lines: seq<string>, i: nat, max: nat, w: Font)
    requires i <= |lines|
    ensures Rows(lines[..i], max, w) <= Rows(lines, max, w)
    decreases |lines| - i
  {
    if i < |lines| {
      RowsSnoc(lines, i, max, w);
      RowsPrefix(lines, i + 1, max, w);
    } else {
      assert lines[..i] == lines;
    }
  }

  /** What has been drawn after `done` rows have gone by. */
  ghost predicate Drawn(draws: seq<Draw>, rows: seq<string>, done: nat, skipped: nat, top: int, step: nat)
    requires done <= |rows|
  {
    && |draws| == (if done > skipped then done - skipped else 0)
    && forall k :: 0 <= k < |draws| ==> draws[k] == Draw(top + 8 + k * step, rows[skipped + k])
  }

  /** The total number of rows. */
  method CountRows(lines: seq<string>, max: nat, w: Font) returns (total: nat)
    requires GoodLines(lines)
    ensures total == |Rows(lines, max, w)|
  {
    total := 0;
    for i := 0 to |lines|
      invariant total == |Rows(lines[..i], max, w)|
    {
      var n := BootlogRows(lines[i], max, w);
      total := total + n;
      RowsSnoc(lines, i, max, w);
    }
    assert lines[..|lines|] == lines;
  }

  /** paintBootLog on the held lines: the panel's top edge, the height of a text row and the font are the
      display's. Every row drawn is whole, in order, and inside the panel. */
  method PaintLines(lines: seq<string>, top: int, lineHeight: nat, max: nat, w: Font) returns (draws: seq<Draw>)
    requires GoodLines(lines)
    ensures |draws| == |LastN(Rows(lines, max, w), LINES)|
    ensures forall k :: 0 <= k < |draws| ==>
              draws[k] == Draw(top + 8 + k * (lineHeight + 1), LastN(Rows(lines, max, w), LINES)[k])
  {
    var step := lineHeight + 1;
    ghost var rows := Rows(lines, max, w);
    var total := CountRows(lines, max, w);
    var skip: nat := if total > LINES then total - LINES else 0;
    ghost var skipped := skip;
    var row := top + 8;
    draws := [];
    for i := 0 to |lines|
      invariant Rows(lines[..i], max, w) <= rows
      invariant Drawn(draws, rows, |Rows(lines[..i], max, w)|, skipped, top, step)
      invariant skip + |Rows(lines[..i], max, w)| == skipped + |draws|
      invariant row == top + 8 + |draws| * step
    {
      RowsPrefix(lines, i + 1, max, w);
      RowsSnoc(lines, i, max, w);
      draws, skip, row := PaintLine(lines[i], rows, |Rows(lines[..i], max, w)|, skipped, draws, skip, row, top, step, max, w);
    }
    assert lines[..|lines|] == lines;
  }

  /** The inner loop: the rows of one line, which are the rows from `done` on. */
  method PaintLine(line: string, ghost rows: seq<string>, ghost done: nat, ghost skipped: nat,
                   draws0: seq<Draw>, skip0: nat, row0: int, top: int, step: nat, max: nat, w: Font)
    returns (draws: seq<Draw>, skip: nat, row: int)
    requires |line| < COLS && step > 0
    requires done + |Segments(line, max, w)| <= |rows| <= skipped + LINES
    requires forall k :: 0 <= k < |Segments(line, max, w)| ==> rows[done + k] == Segments(line, max, w)[k]
    requires Drawn(draws0, rows, done, skipped, top, step)
    requires skip0 + done == skipped + |draws0| && row0 == top + 8 + |draws0| * step
    ensures var after := done + |Segments(line, max, w)|;
            && Drawn(draws, rows, after, skipped, top, step)
            && skip + after == skipped + |draws| && row == top + 8 + |draws| * step
  {
    hide Fit, Width, Reach, Segments, Drawn;
    draws, skip, row := draws0, skip0, row0;
    var rest := line;
    ghost var at := done;
    ghost var segments := Segments(line, max, w);
    SegmentsStep(rest, max, w);
    while rest != []
      invariant |rest| < COLS
      invariant at + |Segments(rest, max, w)| == done + |segments| && at >= done
      invariant Segments(rest, max, w) == segments[at - done..]
      invariant rest == [] ==> Segments(rest, max, w) == []
      invariant Drawn(draws, rows, at, skipped, top, step)
      invariant skip + at == skipped + |draws| && row == top + 8 + |draws| * step
      decreases |rest|
    {
      SegmentsStep(rest, max, w);
      var n := BootlogFit(rest, max, w);
      assert segments[at - done] == rest[..n];
      draws, skip, row := PaintRow(rest, n, rows, at, skipped, draws, skip, row, top, step);
      rest := rest[n..];
      at := at + 1;
      SegmentsStep(rest, max, w);
    }
  }

  /** One row: skipped, or copied through the segment buffer and drawn if it is inside the panel. */
  method PaintRow(rest: string, n: nat, ghost rows: seq<string>, ghost at: nat, ghost skipped: nat,
                  draws0: seq<Draw>, skip0: nat, row0: int, top: int, step: nat)
    returns (draws: seq<Draw>, skip: nat, row: int)
    requires 0 < n <= |rest| < COLS && step > 0
    requires at < |rows| <= skipped + LINES && rows[at] == rest[..n]
    requires Drawn(draws0, rows, at, skipped, top, step)
    requires skip0 + at == skipped + |draws0| && row0 == top + 8 + |draws0| * step
    ensures Drawn(draws, rows, at + 1, skipped, top, step)
    ensures skip + at + 1 == skipped + |draws| && row == top + 8 + |draws| * step
  {
    draws, skip, row := draws0, skip0, row0;
    if skip > 0 {
      skip := skip - 1;
    } else {
      RowInside(|draws|, top, step);
      if row < top + (16 + LINES * step) - 8 {
        var m := if n > COLS - 1 then COLS - 1 else n;
        draws := draws + [Draw(row, rest[..m])];
        row := row + step;
      }
    }
  }

  /** paintBootLog on the log itself: whatever has been appended, it draws exactly the newest sixteen
      wrapped rows of the newest sixteen lines. */
  method PaintBootLog(ring: Ring, top: int, lineHeight: nat, max: nat, w: Font) returns (draws: seq<Draw>)
    requires ring.Valid() && ring.Tracks()
    ensures var rows := LastN(Rows(LastN(LogLines(Flatten(ring.texts)), LINES), max, w), LINES);
            && |draws| == |rows|
            && forall k :: 0 <= k < |draws| ==> draws[k] == Draw(top + 8 + k * (lineHeight + 1), rows[k])
  {
    hide LogLines, Rows, Ring.Valid;
    LogIsLines(ring.texts);
    var n := ring.Count();
    var lines: seq<string> := [];
    for i := 0 to n
      invariant lines == LastN(ring.all, LINES)[..i]
    {
      var line, held := ring.Line(i);
      lines := lines + [line];
    }
    assert lines == LastN(ring.all, LINES);
    draws := PaintLines(lines, top, lineHeight, max, w);
  }
}
