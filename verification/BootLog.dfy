/** The on-screen boot log: a ring of sixteen fixed-width C strings that agrees with a plain list. */
module BootLog {

  const LINES: nat := 16
  const COLS: nat := 128

  // ----------------------------------------------------- what the log ought to hold

  function CString(s: string): string {
    if s == [] || s[0] == '\0' then [] else [s[0]] + CString(s[1..])
  }

  /** A C string ends before its first NUL. */
  lemma {:induction false} CStringEnds(s: string)
    ensures var r := CString(s); r <= s && '\0' !in r && (|r| < |s| ==> s[|r|] == '\0')
  {
    if s != [] && s[0] != '\0' {
      CStringEnds(s[1..]);
    }
  }

  function WithoutCr(s: string): string {
    if s == [] then [] else if s[0] == '\r' then WithoutCr(s[1..]) else [s[0]] + WithoutCr(s[1..])
  }

  /** A CR leaves no trace, and everything else stays. */
  lemma {:induction false} CrDropped(s: string, t: string)
    ensures WithoutCr(s + "\r" + t) == WithoutCr(s + t) && '\r' !in WithoutCr(s)
    ensures '\r' !in s ==> WithoutCr(s) == s
    decreases |s|
  {
    if s == [] {
      assert s + "\r" + t == "\r" + t && s + t == t;
    } else {
      assert (s + "\r" + t)[1..] == s[1..] + "\r" + t && (s + t)[1..] == s[1..] + t;
      CrDropped(s[1..], t);
    }
  }

  /** Index of the first newline, or the length. */
  function Newline(s: string): (n: nat)
    ensures n <= |s| && (n < |s| ==> s[n] == '\n') && forall i :: 0 <= i < n ==> s[i] != '\n'
  {
    if s == [] || s[0] == '\n' then 0 else 1 + Newline(s[1..])
  }

  /** The pieces between newlines. */
  function Pieces(s: string): seq<string>
    decreases |s|
  {
    var n := Newline(s);
    if n == |s| then [s] else [s[..n]] + Pieces(s[n + 1..])
  }

  function JoinedByNewlines(pieces: seq<string>): string {
    if pieces == [] then [] else if |pieces| == 1 then pieces[0] else pieces[0] + "\n" + JoinedByNewlines(pieces[1..])
  }

  /** The pieces hold no newline, and joined by newlines they are the text. */
  lemma {:induction false} PiecesJoin(s: string)
    ensures Pieces(s) != [] && JoinedByNewlines(Pieces(s)) == s
    ensures forall p :: p in Pieces(s) ==> '\n' !in p
    decreases |s|
  {
    hide Newline, Pieces;
    var n := Newline(s);
    PiecesStep(s);
    if n < |s| {
      PiecesJoin(s[n + 1..]);
      var rest := Pieces(s[n + 1..]);
      assert ([s[..n]] + rest)[1..] == rest;
      assert s == s[..n] + "\n" + s[n + 1..];
    }
  }

  function Cut(s: string): (r: string)
    ensures r <= s && (|s| <= 127 ==> r == s) && (|s| > 127 ==> |r| == 127)
  {
    if |s| < COLS then s else s[..COLS - 1]
  }

  /** Drop the empty pieces and cut the rest to 127 characters. */
  function Tidy(pieces: seq<string>): seq<string> {
    if pieces == [] then []
    else if pieces[0] == [] then Tidy(pieces[1..])
    else [Cut(pieces[0])] + Tidy(pieces[1..])
  }

  /** The lines of a text. */
  function LogLines(text: string): seq<string> {
    Tidy(Pieces(WithoutCr(text)))
  }

  function LastN<T>(s: seq<T>, n: nat): seq<T> {
    if |s| > n then s[|s| - n..] else s
  }

  // --------------------------------------------------- the same, a character at a time

  /** All lines so far, and whether the last one can still grow. */
  datatype Log = Log(lines: seq<string>, open: bool)

  function Feed(log: Log, c: char): Log {
    if c == '\n' then log.(open := false)
    else if c == '\r' then log
    else if log.open && log.lines != [] then
      var n := |log.lines| - 1;
      if |log.lines[n]| < COLS - 1 then log.(lines := log.lines[n := log.lines[n] + [c]]) else log
    else Log(log.lines + [[c]], true)
  }

  function FeedAll(log: Log, text: string): Log {
    if text == [] then log else Feed(FeedAll(log, text[..|text| - 1]), text[|text| - 1])
  }

  const EMPTY := Log([], false)

  lemma {:induction false} FeedAppend(log: Log, a: string, b: string)
    ensures FeedAll(log, a + b) == FeedAll(FeedAll(log, a), b)
    decreases |b|
  {
    hide Feed;
    if b == [] {
      assert a + b == a;
    } else {
      assert (a + b)[..|a + b| - 1] == a + b[..|b| - 1];
      FeedAppend(log, a, b[..|b| - 1]);
    }
  }

  lemma {:induction false} WithoutCrSnoc(s: string, c: char)
    ensures WithoutCr(s + [c]) == if c == '\r' then WithoutCr(s) else WithoutCr(s) + [c]
  {
    if s == [] {
      assert s + [c] == [c];
      assert WithoutCr([c][1..]) == [];
    } else {
      assert (s + [c])[1..] == s[1..] + [c];
      WithoutCrSnoc(s[1..], c);
    }
  }

  lemma {:induction false} NewlineSnoc(s: string, c: char)
    ensures Newline(s + [c]) == if Newline(s) < |s| || c == '\n' then Newline(s) else |s| + 1
  {
    if s == [] {
      assert s + [c] == [c];
      assert Newline([c][1..]) == 0;
    } else {
      assert (s + [c])[1..] == s[1..] + [c];
      NewlineSnoc(s[1..], c);
    }
  }

  lemma PiecesStep(s: string)
    ensures Newline(s) == |s| ==> Pieces(s) == [s]
    ensures Newline(s) < |s| ==> Pieces(s) == [s[..Newline(s)]] + Pieces(s[Newline(s) + 1..])
  {
    hide Newline;
  }

  /** A character extends the last piece, a newline begins a new one. */
  lemma {:induction false} PiecesSnoc(s: string, c: char)
    ensures var p := Pieces(s);
            && p != []
            && Pieces(s + [c]) == if c == '\n' then p + [[]] else p[|p| - 1 := p[|p| - 1] + [c]]
    decreases |s|
  {
    hide Newline, Pieces;
    var n, t := Newline(s), s + [c];
    NewlineSnoc(s, c);
    PiecesStep(s);
    PiecesStep(t);
    if n == |s| {
      if c == '\n' {
        assert t[..n] == s && t[n + 1..] == [];
        PiecesOfNothing();
      }
    } else {
      assert t[..n] == s[..n] && t[n + 1..] == s[n + 1..] + [c];
      PiecesSnoc(s[n + 1..], c);
    }
  }

  lemma PiecesOfNothing()
    ensures Pieces([]) == [[]]
  {}

  lemma {:induction false} TidyAppend(p: seq<string>, q: seq<string>)
    ensures Tidy(p + q) == Tidy(p) + Tidy(q)
  {
    if p == [] {
      assert p + q == q;
    } else {
      assert (p + q)[1..] == p[1..] + q;
      TidyAppend(p[1..], q);
    }
  }

  lemma TidyOne(piece: string)
    ensures Tidy([piece]) == if piece == [] then [] else [Cut(piece)]
  {
    assert [piece][1..] == [];
  }

  /** The character-at-a-time log is the list of lines; its last line is open while the last piece is not
      empty. */
  lemma {:induction false} FeedIsSplit(text: string)
    ensures var p := Pieces(WithoutCr(text));
            && p != []
            && FeedAll(EMPTY, text) == Log(LogLines(text), p[|p| - 1] != [])
  {
    hide Pieces, Tidy, Feed;
    if text == [] {
      PiecesOfNothing();
      TidyOne([]);
    } else {
      var before, c := text[..|text| - 1], text[|text| - 1];
      assert text == before + [c];
      FeedIsSplit(before);
      WithoutCrSnoc(before, c);
      if c == '\r' {
        FeedCr(FeedAll(EMPTY, before));
      } else {
        SplitSnoc(WithoutCr(before), c);
      }
    }
  }

  lemma FeedCr(log: Log)
    ensures Feed(log, '\r') == log
  {}

  lemma SplitSnoc(s: string, c: char)
    requires c != '\r'
    ensures var p, q := Pieces(s), Pieces(s + [c]);
            && p != [] && q != []
            && Feed(Log(Tidy(p), p[|p| - 1] != []), c) == Log(Tidy(q), q[|q| - 1] != [])
  {
    hide Pieces, Tidy;
    var p, q := Pieces(s), Pieces(s + [c]);
    PiecesSnoc(s, c);
    var n := |p| - 1;
    assert p == p[..n] + [p[n]];
    TidyAppend(p[..n], [p[n]]);
    TidyOne(p[n]);
    if c == '\n' {
      TidyAppend(p, [[]]);
      TidyOne([]);
    } else {
      assert q == p[..n] + [p[n] + [c]];
      TidyAppend(p[..n], [p[n] + [c]]);
      TidyOne(p[n] + [c]);
      CutGrows(p[n], c);
      var closed := Tidy(p[..n]);
      if p[n] != [] {
        assert closed + [Cut(p[n])] == Tidy(p);
        assert Tidy(p)[|closed| := Cut(p[n]) + [c]] == closed + [Cut(p[n]) + [c]];
      } else {
        assert p[n] + [c] == [c] && Tidy(p) == closed + [] == closed;
      }
    }
  }

  lemma CutGrows(s: string, c: char)
    ensures Cut(s + [c]) == if |Cut(s)| < COLS - 1 then Cut(s) + [c] else Cut(s)
  {
    if |s| >= COLS {
      assert (s + [c])[..COLS - 1] == s[..COLS - 1];
    } else if |s| == COLS - 1 {
      assert (s + [c])[..COLS - 1] == s;
    }
  }

  /** Lines are never empty and never longer than 127 characters. */
  predicate GoodLines(lines: seq<string>) {
    forall i :: 0 <= i < |lines| ==> 0 < |lines[i]| < COLS
  }

  lemma FeedGood(log: Log, c: char)
    requires GoodLines(log.lines)
    ensures GoodLines(Feed(log, c).lines)
  {
    var after := Feed(log, c).lines;
    forall i | 0 <= i < |after| ensures 0 < |after[i]| < COLS {
      if i < |log.lines| {
        assert 0 < |log.lines[i]| < COLS;
      }
    }
  }

  function Flatten(texts: seq<string>): string {
    if texts == [] then [] else Flatten(texts[..|texts| - 1]) + CString(texts[|texts| - 1])
  }

  /** What a sequence of `Append` calls does to an empty log. */
  function AppendAll(texts: seq<string>): Log {
    if texts == [] then EMPTY else FeedAll(AppendAll(texts[..|texts| - 1]), CString(texts[|texts| - 1]))
  }

  lemma AppendAllSnoc(texts: seq<string>, text: string)
    ensures AppendAll(texts + [text]) == FeedAll(AppendAll(texts), CString(text))
  {
    assert (texts + [text])[..|texts|] == texts;
  }

  // -------------------------------------------------------------------------- the ring

  /** `(first + i) % LINES`. */
  function Slot(first: nat, i: nat): (slot: nat)
    requires first < LINES && i <= LINES
    ensures slot < LINES && slot == (first + i) % LINES
  {
    if first + i < LINES then first + i else first + i - LINES
  }

  class Ring {
    const lines: array2<char>
    var first: nat
    var count: nat
    var partial: nat

    /** Everything logged so far, as a list, and the texts it came from. */
    ghost var all: seq<string>
    ghost var texts: seq<string>

    predicate RowIs(row: nat, s: string)
      requires lines.Length0 == LINES && lines.Length1 == COLS && row < LINES
      reads lines
    {
      && |s| < COLS && lines[row, |s|] == '\0'
      && forall k :: 0 <= k < |s| ==> lines[row, k] == s[k] && s[k] != '\0'
    }

    /** The ring holds the last sixteen lines; `partial` is the length of the newest, or says that a
        newline has been seen since. */
    ghost predicate Valid()
      reads `first, `count, `partial, `all, lines
    {
      && lines.Length0 == LINES && lines.Length1 == COLS
      && first < LINES && count == (if |all| < LINES then |all| else LINES)
      && (count < LINES ==> first == 0)
      && (forall i :: 0 <= i < count ==> RowIs(Slot(first, i), all[|all| - count + i]))
      && (partial == COLS || (count == 0 && partial == 0) || (count > 0 && partial == |all[|all| - 1]|))
    }

    /** The list is what the texts appended so far amount to. */
    ghost predicate Tracks()
      reads `all, `count, `partial, `texts
    {
      Log(all, Open()) == AppendAll(texts)
    }

    ghost predicate Open()
      reads `count, `partial
    {
      count > 0 && partial < COLS
    }

    constructor ()
      ensures Valid() && Tracks() && texts == [] && fresh(lines)
    {
      lines := new char[LINES, COLS];
      first, count, partial, all, texts := 0, 0, 0, [], [];
    }

    method StartLine()
      requires Valid()
      modifies `first, `count, `partial, `all, lines
      ensures Valid() && all == old(all) + [[]] && partial == 0
    {
      ghost var first0, count0, all0 := first, count, all;
      var slot;
      if count < LINES {
        slot := (first + count) % LINES;
        count := count + 1;
      } else {
        slot := first;
        first := (first + 1) % LINES;
      }
      lines[slot, 0] := '\0';
      partial := 0;
      all := all + [[]];
      forall i | 0 <= i < count ensures RowIs(Slot(first, i), all[|all| - count + i]) {
        if i < count - 1 {
          var j := if count0 < LINES then i else i + 1;
          assert Slot(first, i) == Slot(first0, j);
          assert all[|all| - count + i] == all0[|all0| - count0 + j];
          assert old(RowIs(Slot(first0, j), all0[|all0| - count0 + j]));
        }
      }
    }

    /** Store a character and its new terminator at the end of the newest row. */
    method PutChar(c: char)
      requires Valid() && count > 0 && partial < COLS - 1 && c != '\0'
      modifies `partial, `all, lines
      ensures Valid() && Open()
      ensures var n := |old(all)| - 1; all == old(all)[n := old(all)[n] + [c]]
    {
      ghost var all0, last := all, |all| - 1;
      var slot := (first + count - 1) % LINES;
      assert slot == Slot(first, count - 1) && RowIs(slot, all[last]);
      lines[slot, partial] := c;
      partial := partial + 1;
      lines[slot, partial] := '\0';
      all := all[last := all[last] + [c]];
      forall i | 0 <= i < count - 1 ensures RowIs(Slot(first, i), all[|all| - count + i]) {
        assert old(RowIs(Slot(first, i), all0[|all0| - count + i]));
        assert Slot(first, i) != slot && all[|all| - count + i] == all0[|all0| - count + i];
      }
      assert RowIs(slot, all[last]);
    }

    method AppendChar(c: char)
      requires Valid() && partial < COLS && c != '\0'
      modifies `first, `count, `partial, `all, lines
      ensures Valid() && Open()
      ensures var log := if old(all) == [] then [[]] else old(all);
              var n := |log| - 1;
              all == if |log[n]| < COLS - 1 then log[n := log[n] + [c]] else log
    {
      hide Ring.RowIs;
      if count == 0 {
        StartLine();
      }
      if partial < COLS - 1 {
        PutChar(c);
      }
    }

    /** One turn of the loop below. */
    method Take(c: char)
      requires Valid() && c != '\0'
      modifies `first, `count, `partial, `all, lines
      ensures Valid() && Log(all, Open()) == Feed(Log(old(all), old(Open())), c)
    {
      if c == '\n' {
        partial := COLS;
      } else if c != '\r' {
        ghost var all0, open0 := all, Open();
        if partial >= COLS {
          StartLine();
        }
        AppendChar(c);
        if !open0 {
          var blank: string := [];
          assert blank + [c] == [c];
          assert (all0 + [blank])[|all0| := [c]] == all0 + [[c]];
        }
      }
    }

    /** bootlogAppend, up to the repaint: `Log(all, Open())` takes in the characters one by one. */
    method Append(text: string)
      requires Valid() && Tracks()
      modifies this, lines
      ensures Valid() && Tracks() && texts == old(texts) + [text]
      ensures Log(all, Open()) == FeedAll(Log(old(all), old(Open())), CString(text))
    {
      hide Feed, AppendAll, Ring.Valid, Ring.Open;
      var p := 0;
      while p < |text| && text[p] != '\0'
        invariant p <= |text| && CString(text) == text[..p] + CString(text[p..])
        invariant Valid() && texts == old(texts)
        invariant Log(all, Open()) == FeedAll(Log(old(all), old(Open())), text[..p])
      {
        assert text[..p + 1][..p] == text[..p] && text[p..][1..] == text[p + 1..];
        Take(text[p]);
        p := p + 1;
      }
      assert text[..p] + [] == text[..p] && CString(text[p..]) == [];
      AppendAllSnoc(texts, text);
      texts := texts + [text];
    }

    /** bootlogCount. */
    method Count() returns (n: nat)
      requires Valid()
      ensures n == |LastN(all, LINES)|
    {
      n := count;
    }

    /** bootlogLine: the characters of the row up to its terminator, or nothing past the end. */
    method Line(i: int) returns (line: string, held: bool)
      requires Valid()
      ensures held <==> 0 <= i < |LastN(all, LINES)|
      ensures held ==> line == LastN(all, LINES)[i]
    {
      if i < 0 || i >= count {
        return "", false;
      }
      var row := (first + i) % LINES;
      ghost var s := all[|all| - count + i];
      assert RowIs(Slot(first, i), s);
      line := [];
      while lines[row, |line|] != '\0'
        invariant |line| <= |s| && line == s[..|line|]
        decreases |s| - |line|
      {
        line := line + [lines[row, |line|]];
      }
      held := true;
    }
  }

  // ------------------------------------------------------------------ main results

  /** After any sequence of appends the log is the lines of the concatenated text, so how the text was
      split across calls never matters; none is empty and none is longer than 127 characters. */
  lemma {:induction false} LogIsLines(texts: seq<string>)
    ensures AppendAll(texts) == FeedAll(EMPTY, Flatten(texts))
    ensures AppendAll(texts).lines == LogLines(Flatten(texts))
    ensures GoodLines(AppendAll(texts).lines)
  {
    hide LogLines, Feed;
    if texts != [] {
      var n := |texts| - 1;
      LogIsLines(texts[..n]);
      FeedAppend(EMPTY, Flatten(texts[..n]), CString(texts[n]));
    }
    FeedIsSplit(Flatten(texts));
    FeedAllGood(Flatten(texts));
  }

  lemma {:induction false} FeedAllGood(text: string)
    ensures GoodLines(FeedAll(EMPTY, text).lines)
  {
    hide Feed;
    if text != [] {
      FeedAllGood(text[..|text| - 1]);
      FeedGood(FeedAll(EMPTY, text[..|text| - 1]), text[|text| - 1]);
    }
  }
}
