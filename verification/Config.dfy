/** The configuration file: a printer and two parsers over the registered items. */
module Config {

  /** Characters a line buffer holds beside its terminator. */
  const LINE := 2047

  /** The text variable that reading a video mode overwrites. */
  const VIDEO_PARAMETER: nat := 0

  datatype Item =
    | Check(name: string, v: nat)
    | Video(name: string, v: nat)
    | Text(name: string, t: nat, maxlen: nat)

  /** The pointed-to variables. Several items may name the same one. */
  datatype Store = Store(ints: map<nat, int>, texts: map<nat, string>)

  // ---------------------------------------------------------------------- numbers

  function Digit(d: nat): char
    requires d < 10
  {
    '0' + d as char
  }

  predicate IsDigit(c: char) {
    '0' <= c <= '9'
  }

  /** `%d` of a number that is not negative. */
  function NatText(n: nat): (s: string)
    ensures s != [] && forall i :: 0 <= i < |s| ==> IsDigit(s[i])
  {
    if n < 10 then [Digit(n)] else NatText(n / 10) + [Digit(n % 10)]
  }

  function IntText(n: int): string {
    if n < 0 then "-" + NatText(-n) else NatText(n)
  }

  /** The number that leading digits spell, added to what came before. */
  function Digits(s: string, sofar: nat): nat {
    if s == [] || !IsDigit(s[0]) then sofar else Digits(s[1..], 10 * sofar + (s[0] as int - '0' as int))
  }

  predicate IsSpace(c: char) {
    c == ' ' || 9 <= c as int <= 13
  }

  function SkipSpace(s: string): string {
    if s != [] && IsSpace(s[0]) then SkipSpace(s[1..]) else s
  }

  /** atoi, on numbers that fit. */
  function Atoi(text: string): int {
    var s := SkipSpace(text);
    if s != [] && s[0] == '-' then -(Digits(s[1..], 0) as int)
    else if s != [] && s[0] == '+' then Digits(s[1..], 0)
    else Digits(s, 0)
  }

  lemma {:induction false} DigitsSnoc(s: string, d: nat, sofar: nat)
    requires d < 10 && forall i :: 0 <= i < |s| ==> IsDigit(s[i])
    ensures Digits(s + [Digit(d)], sofar) == 10 * Digits(s, sofar) + d
    decreases |s|
  {
    if s == [] {
      assert s + [Digit(d)] == [Digit(d)];
      assert Digits([Digit(d)][1..], 10 * sofar + d) == 10 * sofar + d;
    } else {
      assert (s + [Digit(d)])[1..] == s[1..] + [Digit(d)];
      DigitsSnoc(s[1..], d, 10 * sofar + (s[0] as int - '0' as int));
    }
  }

  lemma {:induction false} DigitsNatText(n: nat)
    ensures Digits(NatText(n), 0) == n
  {
    if n < 10 {
      DigitsSnoc([], n, 0);
      assert [] + [Digit(n)] == [Digit(n)];
    } else {
      DigitsNatText(n / 10);
      DigitsSnoc(NatText(n / 10), n % 10, 0);
    }
  }

  lemma AtoiIntText(n: int)
    ensures Atoi(IntText(n)) == n
  {
    DigitsNatText(if n < 0 then -n else n);
    if n < 0 {
      assert ("-" + NatText(-n))[1..] == NatText(-n);
    }
  }

  lemma {:induction false} SkipSpaceAll(spaces: string, rest: string)
    requires (forall i :: 0 <= i < |spaces| ==> spaces[i] in " \t\n\r" || spaces[i] as int in {11, 12})
    requires rest == [] || !IsSpace(rest[0])
    ensures SkipSpace(spaces + rest) == rest
    decreases |spaces|
  {
    if spaces == [] {
      assert spaces + rest == rest;
    } else {
      assert (spaces + rest)[1..] == spaces[1..] + rest;
      SkipSpaceAll(spaces[1..], rest);
    }
  }

  lemma {:induction false} DigitsStop(s: string, rest: string, sofar: nat)
    requires forall i :: 0 <= i < |s| ==> IsDigit(s[i])
    requires rest == [] || !IsDigit(rest[0])
    ensures Digits(s + rest, sofar) == Digits(s, sofar)
    decreases |s|
  {
    if s == [] {
      assert s + rest == rest;
    } else {
      assert (s + rest)[1..] == s[1..] + rest;
      DigitsStop(s[1..], rest, 10 * sofar + (s[0] as int - '0' as int));
    }
  }

  /** atoi skips white space, takes a sign, and reads up to the first character that is no digit. */
  lemma AtoiReads(spaces: string, sign: string, n: nat, rest: string)
    requires (forall i :: 0 <= i < |spaces| ==> spaces[i] in " \t\n\r" || spaces[i] as int in {11, 12})
    requires sign in ["", "+", "-"] && (rest == [] || !IsDigit(rest[0]))
    ensures Atoi(spaces + sign + NatText(n) + rest) == if sign == "-" then -(n as int) else n
  {
    hide NatText, Digits, SkipSpace;
    var number := NatText(n) + rest;
    var text := sign + number;
    DigitsStop(NatText(n), rest, 0);
    DigitsNatText(n);
    assert number[0] == NatText(n)[0];
    assert IsDigit(number[0]);
    assert spaces + sign + NatText(n) + rest == spaces + text;
    SkipSpaceAll(spaces, text);
    if sign == "" {
      assert text == number;
    } else {
      assert text[0] == sign[0] && text[1..] == number;
    }
  }

  // ------------------------------------------------------------------------- lines

  /** A C string ends at its first NUL. */
  function CString(s: string): string {
    if s == [] || s[0] == '\0' then [] else [s[0]] + CString(s[1..])
  }

  /** Drop the line ending, CR and LF in any number. */
  function Strip(s: string): string {
    if s != [] && (s[|s| - 1] == '\n' || s[|s| - 1] == '\r') then Strip(s[..|s| - 1]) else s
  }

  /** Index of the first '=', or the length. */
  function Equals(s: string): (n: nat)
    ensures n <= |s| && (n < |s| ==> s[n] == '=') && forall i :: 0 <= i < n ==> s[i] != '='
  {
    if s == [] || s[0] == '=' then 0 else 1 + Equals(s[1..])
  }

  /** strncpy into a buffer of `maxlen`, and a terminator in its last byte. */
  function Truncate(s: string, maxlen: nat): (r: string)
    ensures r <= s && (|s| < maxlen ==> r == s) && (0 < maxlen <= |s| ==> |r| == maxlen - 1)
  {
    if |s| < maxlen then s else if maxlen == 0 then [] else s[..maxlen - 1]
  }

  /** readData of one item; `defaults` is the parameter text that goes with a video mode. */
  function Read(item: Item, s: Store, val: string, defaults: int -> string): Store {
    match item
    case Check(_, v) => s.(ints := s.ints[v := Atoi(val)])
    case Video(_, v) => Store(s.ints[v := Atoi(val)], s.texts[VIDEO_PARAMETER := defaults(Atoi(val))])
    case Text(_, t, maxlen) => s.(texts := s.texts[t := Truncate(val, maxlen)])
  }

  function ReadAll(items: seq<Item>, s: Store, key: string, val: string, defaults: int -> string): Store {
    if items == [] then s
    else
      var before := ReadAll(items[..|items| - 1], s, key, val, defaults);
      var item := items[|items| - 1];
      if item.name == key then Read(item, before, val, defaults) else before
  }

  /** applyConfigLine. */
  function Apply(items: seq<Item>, s: Store, buffer: string, defaults: int -> string): Store {
    var line := Strip(CString(buffer));
    var n := Equals(line);
    if n == |line| then s else ReadAll(items, s, line[..n], line[n + 1..], defaults)
  }

  function ApplyAll(items: seq<Item>, s: Store, lines: seq<string>, defaults: int -> string): Store {
    if lines == [] then s
    else Apply(items, ApplyAll(items, s, lines[..|lines| - 1], defaults), lines[|lines| - 1], defaults)
  }

  /** Index of the first newline, or the length. */
  function Newline(s: string): (n: nat)
    ensures n <= |s| && (n < |s| ==> s[n] == '\n') && forall i :: 0 <= i < n ==> s[i] != '\n'
  {
    if s == [] || s[0] == '\n' then 0 else 1 + Newline(s[1..])
  }

  /** What one fgets takes: through the newline, or a full buffer. */
  function FgetsLength(s: string): (n: nat)
    requires s != []
    ensures 0 < n <= |s|
  {
    var n := if Newline(s) < |s| then Newline(s) + 1 else |s|;
    if n > LINE then LINE else n
  }

  function FileLines(content: string): seq<string>
    decreases |content|
  {
    if content == [] then []
    else [content[..FgetsLength(content)]] + FileLines(content[FgetsLength(content)..])
  }

  function RomLines(content: string): seq<string>
    decreases |content|
  {
    if content == [] then []
    else
      var n := Newline(content);
      var rest := if n < |content| then content[n + 1..] else [];
      [content[..if n > LINE then LINE else n]] + RomLines(rest)
  }

  /** The lines a reader sees: split at newlines, the last one without one if anything follows it. */
  function Lines(content: string): seq<string>
    decreases |content|
  {
    if content == [] then []
    else
      var n := Newline(content);
      [content[..n]] + Lines(if n < |content| then content[n + 1..] else [])
  }

  ghost predicate AllShort(lines: seq<string>) {
    forall l :: l in lines ==> |l| <= LINE
  }

  // ------------------------------------------------------- the two loaders agree

  lemma {:induction false} ApplyAllAppend(items: seq<Item>, s: Store, p: seq<string>, q: seq<string>, defaults: int -> string)
    ensures ApplyAll(items, s, p + q, defaults) == ApplyAll(items, ApplyAll(items, s, p, defaults), q, defaults)
    decreases |q|
  {
    hide Apply;
    if q == [] {
      assert p + q == p;
    } else {
      var q' := q[..|q| - 1];
      assert (p + q)[..|p + q| - 1] == p + q';
      ApplyAllAppend(items, s, p, q', defaults);
    }
  }

  lemma {:induction false} CStringSnoc(s: string, c: char)
    ensures CString(s + [c]) == if '\0' in s || c == '\0' then CString(s) else CString(s) + [c]
  {
    if s == [] {
      assert s + [c] == [c];
      assert CString([c][1..]) == [];
    } else {
      assert (s + [c])[1..] == s[1..] + [c];
      CStringSnoc(s[1..], c);
    }
  }

  /** A final newline makes no difference to a line. */
  lemma ApplyNewline(items: seq<Item>, s: Store, line: string, defaults: int -> string)
    ensures Apply(items, s, line + "\n", defaults) == Apply(items, s, line, defaults)
  {
    hide ReadAll;
    CStringSnoc(line, '\n');
    assert line + ['\n'] == line + "\n";
    var c := CString(line);
    if '\0' !in line {
      assert (c + ['\n'])[..|c|] == c;
    }
  }

  /** What is left of a line ends in neither CR nor LF, and only those are gone. */
  lemma {:induction false} StripEnds(s: string)
    ensures var r := Strip(s);
            && r <= s && (r == [] || (r[|r| - 1] != '\n' && r[|r| - 1] != '\r'))
            && forall i :: |r| <= i < |s| ==> s[i] == '\n' || s[i] == '\r'
  {
    if s != [] && (s[|s| - 1] == '\n' || s[|s| - 1] == '\r') {
      StripEnds(s[..|s| - 1]);
    }
  }

  /** Nor does a CRLF. */
  lemma ApplyCrLf(items: seq<Item>, s: Store, line: string, defaults: int -> string)
    ensures Apply(items, s, line + "\r\n", defaults) == Apply(items, s, line, defaults)
  {
    hide ReadAll;
    CStringSnoc(line, '\r');
    assert line + "\r\n" == (line + ['\r']) + "\n";
    ApplyNewline(items, s, line + ['\r'], defaults);
    var c := CString(line);
    if '\0' !in line {
      assert (c + ['\r'])[..|c|] == c;
    }
  }

  /** A line is split at its first '='; what follows is the value for every item of that name. */
  lemma ApplySplits(items: seq<Item>, s: Store, key: string, val: string, defaults: int -> string)
    requires '\0' !in key + val && '=' !in key
    requires val == [] || (val[|val| - 1] != '\r' && val[|val| - 1] != '\n')
    ensures Apply(items, s, key + "=" + val, defaults) == ReadAll(items, s, key, val, defaults)
  {
    hide ReadAll, CString, Equals;
    var line := key + "=" + val;
    assert forall c :: c in key + val <==> c in key || c in val;
    PlainCString(line);
    EqualsAt(key, val);
    assert line[|line| - 1] == if val == [] then '=' else val[|val| - 1];
    assert line[..|key|] == key && line[|key| + 1..] == val;
  }

  /** A line without '=' is ignored. */
  lemma ApplyIgnores(items: seq<Item>, s: Store, line: string, defaults: int -> string)
    requires '=' !in line
    ensures Apply(items, s, line, defaults) == s
  {
    hide ReadAll, CString, Equals, Strip;
    StripEnds(CString(line));
    CStringEnds(line);
    var kept := Strip(CString(line));
    assert forall c :: c in kept ==> c in line;
  }

  lemma {:induction false} CStringEnds(s: string)
    ensures var r := CString(s); r <= s && '\0' !in r && (|r| < |s| ==> s[|r|] == '\0')
  {
    if s != [] && s[0] != '\0' {
      CStringEnds(s[1..]);
    }
  }

  lemma ApplyBlank(items: seq<Item>, s: Store, defaults: int -> string)
    ensures Apply(items, s, "\n", defaults) == s
  {
    ApplyNewline(items, s, "", defaults);
    assert "" + "\n" == "\n";
    assert Strip(CString("")) == "";
  }

  lemma ApplyOne(items: seq<Item>, s: Store, line: string, defaults: int -> string)
    ensures ApplyAll(items, s, [line], defaults) == Apply(items, s, line, defaults)
  {
    hide Apply;
    assert [line][..0] == [];
  }

  lemma ApplyCons(items: seq<Item>, s: Store, line: string, rest: seq<string>, defaults: int -> string)
    ensures ApplyAll(items, s, [line] + rest, defaults) == ApplyAll(items, Apply(items, s, line, defaults), rest, defaults)
  {
    hide Apply, ApplyAll;
    ApplyAllAppend(items, s, [line], rest, defaults);
    ApplyOne(items, s, line, defaults);
  }

  lemma NoLines()
    ensures Lines([]) == [] && FileLines([]) == []
  {}

  lemma LinesStep(content: string)
    requires content != [] && AllShort(Lines(content))
    ensures var n := Newline(content);
            var rest := if n < |content| then content[n + 1..] else [];
            Lines(content) == [content[..n]] + Lines(rest) && n <= LINE && AllShort(Lines(rest))
  {
    hide Newline;
    var n := Newline(content);
    var rest := if n < |content| then content[n + 1..] else [];
    assert content[..n] in Lines(content);
    forall l | l in Lines(rest) ensures |l| <= LINE { assert l in Lines(content); }
  }

  lemma FileStep(content: string)
    requires content != []
    ensures FileLines(content) == [content[..FgetsLength(content)]] + FileLines(content[FgetsLength(content)..])
  {
    hide Newline, FgetsLength;
  }

  lemma FgetsTakes(content: string)
    requires content != [] && Newline(content) <= LINE
    ensures var n := Newline(content);
            FgetsLength(content) == if n < |content| && n < LINE then n + 1 else n
  {
    hide Newline;
  }

  /** Reading with fgets amounts to reading the lines, when none is longer than the buffer; a line that
      just fills it leaves its newline to be read as an empty line. */
  lemma {:induction false} FileReadsLines(items: seq<Item>, s: Store, content: string, defaults: int -> string)
    requires AllShort(Lines(content))
    ensures ApplyAll(items, s, FileLines(content), defaults) == ApplyAll(items, s, Lines(content), defaults)
    decreases |content|
  {
    hide Apply, ApplyAll, Newline, FgetsLength, AllShort, Lines, FileLines;
    if content == [] {
      NoLines();
    } else {
      var n := Newline(content);
      var line := content[..n];
      var rest := if n < |content| then content[n + 1..] else [];
      var s' := Apply(items, s, line, defaults);
      LinesStep(content);
      FileStep(content);
      FgetsTakes(content);
      ApplyCons(items, s, line, Lines(rest), defaults);
      FileReadsLines(items, s', rest, defaults);
      if n == |content| {
        assert content[n..] == [];
        ApplyCons(items, s, line, FileLines(rest), defaults);
      } else if n < LINE {
        assert content[..n + 1] == line + "\n";
        ApplyCons(items, s, line + "\n", FileLines(rest), defaults);
        ApplyNewline(items, s, line, defaults);
      } else {
        assert content[n..] == "\n" + rest;
        BlankNext(items, s', content[n..], rest, defaults);
        ApplyCons(items, s, line, FileLines(content[n..]), defaults);
      }
    }
  }

  lemma BlankNext(items: seq<Item>, s: Store, content: string, rest: string, defaults: int -> string)
    requires content == "\n" + rest
    ensures ApplyAll(items, s, FileLines(content), defaults) == ApplyAll(items, s, FileLines(rest), defaults)
  {
    hide Apply, ApplyAll;
    assert Newline(content) == 0 && content[..1] == "\n" && content[1..] == rest;
    ApplyCons(items, s, "\n", FileLines(rest), defaults);
    ApplyBlank(items, s, defaults);
  }

  lemma NoRomLines()
    ensures RomLines([]) == []
  {}

  lemma RomStep(content: string)
    requires content != []
    ensures var n := Newline(content);
            RomLines(content) == [content[..if n > LINE then LINE else n]] + RomLines(if n < |content| then content[n + 1..] else [])
  {
    hide Newline;
  }

  lemma {:induction false} RomReadsLines(content: string)
    requires AllShort(Lines(content))
    ensures RomLines(content) == Lines(content)
    decreases |content|
  {
    if content != [] {
      var n := Newline(content);
      var rest := if n < |content| then content[n + 1..] else [];
      assert content[..n] in Lines(content);
      assert AllShort(Lines(rest)) by {
        forall l | l in Lines(rest) ensures |l| <= LINE { assert l in Lines(content); }
      }
      RomReadsLines(rest);
    }
  }

  /** The line, or its first 2047 characters. */
  predicate FirstOf(taken: string, line: string) {
    taken <= line && |taken| == if |line| <= 2047 then |line| else 2047
  }

  lemma LinesCons(content: string)
    requires content != []
    ensures var n := Newline(content);
            Lines(content) == [content[..n]] + Lines(if n < |content| then content[n + 1..] else [])
  {
    hide Newline;
  }

  /** Of any content the ROM loader takes each line, or the first 2047 characters of it. */
  lemma {:induction false} RomTakesPrefixes(content: string)
    ensures |RomLines(content)| == |Lines(content)|
    ensures forall i :: 0 <= i < |Lines(content)| ==> FirstOf(RomLines(content)[i], Lines(content)[i])
    decreases |content|
  {
    hide Newline, RomLines, Lines, FirstOf;
    if content == [] {
      NoLines();
      NoRomLines();
    } else {
      var n := Newline(content);
      var rest := if n < |content| then content[n + 1..] else [];
      RomStep(content);
      LinesCons(content);
      RomTakesPrefixes(rest);
      LongLineCut(content, n);
    }
  }

  lemma LongLineCut(content: string, n: nat)
    requires n <= |content|
    ensures FirstOf(content[..if n > LINE then LINE else n], content[..n])
  {
    if n > LINE {
      assert content[..n][..LINE] == content[..LINE];
    }
  }

  function Joined(lines: seq<string>): string {
    if lines == [] then [] else lines[0] + Joined(lines[1..])
  }

  /** One fgets takes at most 2047 characters, with no newline before its last, and stops short of that
      only at a newline or the end. */
  predicate Chunk(line: string, last: bool) {
    && 0 < |line| <= 2047 && (forall i :: 0 <= i < |line| - 1 ==> line[i] != '\n')
    && (|line| < 2047 && line[|line| - 1] != '\n' ==> last)
  }

  /** What fgets takes of any content, put together, is the content. */
  lemma {:induction false} FgetsTakesAll(content: string)
    ensures Joined(FileLines(content)) == content
    ensures forall i :: 0 <= i < |FileLines(content)| ==> Chunk(FileLines(content)[i], i == |FileLines(content)| - 1)
    decreases |content|
  {
    hide Newline, FileLines;
    if content == [] {
      NoLines();
    } else {
      var n := FgetsLength(content);
      FileStep(content);
      var rest := FileLines(content[n..]);
      FgetsTakesAll(content[n..]);
      assert FileLines(content)[1..] == rest;
      assert content == content[..n] + content[n..];
      if n == |content| {
        NoLines();
        assert rest == [] by { assert content[n..] == []; }
      }
      assert Chunk(content[..n], rest == []);
      forall i | 0 <= i < |FileLines(content)| ensures Chunk(FileLines(content)[i], i == |FileLines(content)| - 1) {
        if i > 0 { assert FileLines(content)[i] == rest[i - 1]; }
      }
    }
  }

  /** On any content whose lines fit the buffer, with LF or CRLF endings and with or without a final
      newline, the file loader and the ROM loader leave the same configuration. */
  lemma LoadersAgree(items: seq<Item>, s: Store, content: string, defaults: int -> string)
    requires AllShort(Lines(content))
    ensures ApplyAll(items, s, FileLines(content), defaults) == ApplyAll(items, s, RomLines(content), defaults)
  {
    FileReadsLines(items, s, content, defaults);
    RomReadsLines(content);
  }

  // --------------------------------------------------------------------- round trip

  function ItemText(item: Item, s: Store): string
    requires Defined(item, s)
  {
    match item
    case Check(name, v) => name + "=" + IntText(s.ints[v])
    case Video(name, v) => name + "=" + IntText(s.ints[v])
    case Text(name, t, _) => name + "=" + s.texts[t]
  }

  /** The item's variable exists. */
  predicate Defined(item: Item, s: Store) {
    if item.Text? then item.t in s.texts else item.v in s.ints
  }

  predicate AllDefined(items: seq<Item>, s: Store) {
    forall i :: 0 <= i < |items| ==> Defined(items[i], s)
  }

  /** A number is printed into a buffer of 2048 bytes with snprintf, so that a line of 2047 characters
      ends in a NUL instead of a newline. */
  predicate Printable(item: Item, s: Store)
    requires Defined(item, s)
  {
    !item.Text? ==> |ItemText(item, s)| <= LINE
  }

  function Written(item: Item, s: Store): string
    requires Defined(item, s)
  {
    var line := ItemText(item, s);
    if !item.Text? && |line| >= LINE then line[..LINE] + "\0" else line + "\n"
  }

  /** saveConfiguration: one line per item, in registration order. */
  function Save(items: seq<Item>, s: Store): string
    requires AllDefined(items, s)
  {
    if items == [] then [] else Save(items[..|items| - 1], s) + Written(items[|items| - 1], s)
  }

  predicate Plain(text: string) {
    forall i :: 0 <= i < |text| ==> text[i] != '\0' && text[i] != '\n'
  }

  /** What the format can carry: plain names without '=', text values that are plain, do not end in CR and
      fit their buffer. */
  predicate Carried(item: Item, s: Store) {
    && Defined(item, s)
    && Plain(item.name) && '=' !in item.name
    && (item.Text? ==>
          var val := s.texts[item.t];
          Plain(val) && (val == [] || val[|val| - 1] != '\r') && |val| < item.maxlen)
  }

  /** And lines that fit the line buffer, a number's with its newline. */
  predicate Savable(item: Item, s: Store) {
    Carried(item, s) && |ItemText(item, s)| <= (if item.Text? then LINE else LINE - 1)
  }

  predicate AllSavable(items: seq<Item>, s: Store) {
    forall i :: 0 <= i < |items| ==> Savable(items[i], s)
  }

  predicate DistinctNames(items: seq<Item>) {
    forall i, j :: 0 <= i < j < |items| ==> items[i].name != items[j].name
  }

  /** Loading one saved line: the item's variable gets its saved value, and a video mode also overwrites
      the video parameter text. */
  function Restore(item: Item, s: Store, r: Store, defaults: int -> string): Store
    requires Defined(item, s)
  {
    match item
    case Check(_, v) => r.(ints := r.ints[v := s.ints[v]])
    case Video(_, v) => Store(r.ints[v := s.ints[v]], r.texts[VIDEO_PARAMETER := defaults(s.ints[v])])
    case Text(_, t, _) => r.(texts := r.texts[t := s.texts[t]])
  }

  function RestoreAll(items: seq<Item>, s: Store, r: Store, defaults: int -> string): Store
    requires AllDefined(items, s)
  {
    if items == [] then r
    else Restore(items[|items| - 1], s, RestoreAll(items[..|items| - 1], s, r, defaults), defaults)
  }

  function ItemLines(items: seq<Item>, s: Store): (lines: seq<string>)
    requires AllDefined(items, s)
    ensures |lines| == |items| && forall i :: 0 <= i < |items| ==> lines[i] == ItemText(items[i], s)
  {
    seq(|items|, i requires 0 <= i < |items| => ItemText(items[i], s))
  }

  lemma {:induction false} LinesAppend(a: string, line: string)
    requires a == [] || a[|a| - 1] == '\n'
    requires Plain(line)
    ensures Lines(a + line + "\n") == Lines(a) + [line]
    decreases |a|
  {
    hide Newline, Lines;
    if a == [] {
      NoLines();
      NewlineAt(line, "");
      assert a + line + "\n" == line + "\n" + "";
    } else {
      var n := Newline(a);
      NewlineExists(a, |a| - 1);
      var rest := a[n + 1..];
      assert a == a[..n] + "\n" + rest;
      NewlineAt(a[..n], rest + line + "\n");
      NewlineAt(a[..n], rest);
      assert a + line + "\n" == a[..n] + "\n" + (rest + line + "\n");
      LinesAppend(rest, line);
    }
  }

  lemma {:induction false} NewlineExists(s: string, i: nat)
    requires i < |s| && s[i] == '\n'
    ensures Newline(s) <= i
  {}

  lemma NewlineAt(line: string, rest: string)
    requires forall i :: 0 <= i < |line| ==> line[i] != '\n'
    ensures Newline(line + "\n" + rest) == |line|
    ensures Lines(line + "\n" + rest) == [line] + Lines(rest)
  {
    var all := line + "\n" + rest;
    assert all[|line|] == '\n';
    NewlineExists(all, |line|);
    assert forall i :: 0 <= i < |line| ==> all[i] == line[i];
    assert all[..|line|] == line && all[|line| + 1..] == rest;
  }

  lemma {:induction false} NatTextPlain(n: nat)
    ensures Plain(NatText(n)) && NatText(n)[|NatText(n)| - 1] != '\r'
  {}

  lemma ItemTextPlain(item: Item, s: Store)
    requires Carried(item, s)
    ensures var line := ItemText(item, s);
            Plain(line) && line != [] && line[|line| - 1] != '\r' && line[|line| - 1] != '\n'
  {
    if !item.Text? {
      NatTextPlain(if s.ints[item.v] < 0 then -s.ints[item.v] else s.ints[item.v]);
    }
  }

  lemma SavedLinesShort(items: seq<Item>, s: Store)
    requires AllSavable(items, s) && AllDefined(items, s)
    ensures AllShort(ItemLines(items, s))
  {
    hide ItemText;
    forall l | l in ItemLines(items, s) ensures |l| <= LINE {
      var i :| 0 <= i < |items| && l == ItemText(items[i], s);
      assert Savable(items[i], s);
    }
  }

  /** Every number's line leaves room for its newline. */
  predicate NumbersFit(items: seq<Item>, s: Store)
    requires AllDefined(items, s)
  {
    forall i :: 0 <= i < |items| && !items[i].Text? ==> |ItemText(items[i], s)| < LINE
  }

  lemma WrittenLine(item: Item, s: Store)
    requires Defined(item, s) && (!item.Text? ==> |ItemText(item, s)| < LINE)
    ensures Written(item, s) == ItemText(item, s) + "\n"
  {}

  lemma {:induction false} SavedLines(items: seq<Item>, s: Store)
    requires AllDefined(items, s) && NumbersFit(items, s) && forall i :: 0 <= i < |items| ==> Carried(items[i], s)
    ensures Lines(Save(items, s)) == ItemLines(items, s)
    ensures Save(items, s) == [] || Save(items, s)[|Save(items, s)| - 1] == '\n'
  {
    hide ItemText, Lines, Written, Carried;
    if items == [] {
      NoLines();
      assert ItemLines(items, s) == [];
    } else {
      var before, item := items[..|items| - 1], items[|items| - 1];
      assert AllDefined(before, s) by { forall i | 0 <= i < |before| ensures Defined(before[i], s) { assert before[i] == items[i]; } }
      SavedLines(before, s);
      ItemTextPlain(item, s);
      WrittenLine(item, s);
      assert Save(items, s) == Save(before, s) + ItemText(item, s) + "\n";
      LinesAppend(Save(before, s), ItemText(item, s));
      assert ItemLines(items, s) == ItemLines(before, s) + [ItemText(item, s)];
    }
  }

  lemma {:induction false} PlainCString(s: string)
    requires '\0' !in s
    ensures CString(s) == s
  {
    if s != [] {
      PlainCString(s[1..]);
    }
  }

  lemma {:induction false} EqualsAt(name: string, val: string)
    requires '=' !in name
    ensures Equals(name + "=" + val) == |name|
  {
    var all := name + "=" + val;
    assert all[|name|] == '=';
    EqualsBefore(all, |name|);
    assert forall i :: 0 <= i < |name| ==> all[i] == name[i] != '=';
  }

  lemma {:induction false} EqualsBefore(s: string, i: nat)
    requires i < |s| && s[i] == '='
    ensures Equals(s) <= i
  {}

  lemma {:induction false} ReadOnlyNamed(items: seq<Item>, k: nat, r: Store, key: string, val: string, defaults: int -> string)
    requires DistinctNames(items) && k < |items| && items[k].name == key
    ensures ReadAll(items, r, key, val, defaults) == Read(items[k], r, val, defaults)
  {
    hide Read;
    var last := |items| - 1;
    var before := items[..last];
    if k < last {
      assert DistinctNames(before) by {
        forall i, j | 0 <= i < j < last ensures before[i].name != before[j].name { assert items[i].name != items[j].name; }
      }
      ReadOnlyNamed(before, k, r, key, val, defaults);
    } else {
      ReadNone(before, r, key, val, defaults);
    }
  }

  lemma {:induction false} ReadNone(items: seq<Item>, r: Store, key: string, val: string, defaults: int -> string)
    requires forall i :: 0 <= i < |items| ==> items[i].name != key
    ensures ReadAll(items, r, key, val, defaults) == r
  {
    hide Read;
    if items != [] {
      ReadNone(items[..|items| - 1], r, key, val, defaults);
    }
  }

  /** Applying an item's saved line restores that item and nothing else. */
  lemma ApplySaved(items: seq<Item>, k: nat, s: Store, r: Store, defaults: int -> string)
    requires DistinctNames(items) && k < |items| && Carried(items[k], s)
    ensures Apply(items, r, ItemText(items[k], s), defaults) == Restore(items[k], s, r, defaults)
  {
    hide ReadAll, Atoi, IntText, CString, Equals, Truncate;
    var item := items[k];
    var line := ItemText(item, s);
    var val := if item.Text? then s.texts[item.t] else IntText(s.ints[item.v]);
    assert line == item.name + "=" + val;
    ItemTextPlain(item, s);
    PlainCString(line);
    EqualsAt(item.name, val);
    assert line[..|item.name|] == item.name && line[|item.name| + 1..] == val;
    ReadOnlyNamed(items, k, r, item.name, val, defaults);
    if !item.Text? {
      AtoiIntText(s.ints[item.v]);
    } else {
      TruncateShort(val, item.maxlen);
    }
  }

  lemma TruncateShort(val: string, maxlen: nat)
    requires |val| < maxlen
    ensures Truncate(val, maxlen) == val
  {}

  lemma CarriedIfSavable(item: Item, s: Store)
    requires Savable(item, s)
    ensures Carried(item, s)
  {}

  lemma SavableParts(items: seq<Item>, s: Store)
    requires AllSavable(items, s)
    ensures AllDefined(items, s) && NumbersFit(items, s) && forall i :: 0 <= i < |items| ==> Carried(items[i], s)
  {
    hide ItemText, Carried;
    forall i | 0 <= i < |items|
      ensures Defined(items[i], s) && Carried(items[i], s)
      ensures !items[i].Text? ==> |ItemText(items[i], s)| < LINE
    {
      assert Savable(items[i], s);
      DefinedIfCarried(items[i], s);
    }
  }

  lemma DefinedIfCarried(item: Item, s: Store)
    requires Carried(item, s)
    ensures Defined(item, s)
  {}

  lemma {:induction false} LoadSaved(items: seq<Item>, n: nat, s: Store, r: Store, defaults: int -> string)
    requires AllSavable(items, s) && DistinctNames(items) && n <= |items|
    requires AllDefined(items[..n], s)
    ensures ApplyAll(items, r, ItemLines(items[..n], s), defaults) == RestoreAll(items[..n], s, r, defaults)
  {
    hide Apply, Restore, ItemText, Savable;
    if n == 0 {
      assert ItemLines(items[..0], s) == [];
    } else {
      var lines := ItemLines(items[..n], s);
      var before := items[..n - 1];
      assert items[..n][..n - 1] == before;
      assert AllDefined(before, s) by {
        forall i | 0 <= i < n - 1 ensures Defined(before[i], s) { assert before[i] == items[..n][i]; }
      }
      assert lines[..n - 1] == ItemLines(items[..n - 1], s);
      LoadSaved(items, n - 1, s, r, defaults);
      assert Savable(items[n - 1], s);
      CarriedIfSavable(items[n - 1], s);
      ApplySaved(items, n - 1, s, RestoreAll(items[..n - 1], s, r, defaults), defaults);
    }
  }

  /** Every registered variable has its saved value. */
  predicate Restored(items: seq<Item>, s: Store, r: Store)
    requires AllDefined(items, s)
  {
    forall i :: 0 <= i < |items| ==> ItemRestored(items[i], s, r)
  }

  predicate ItemRestored(item: Item, s: Store, r: Store)
    requires Defined(item, s)
  {
    if item.Text? then item.t in r.texts && r.texts[item.t] == s.texts[item.t]
    else item.v in r.ints && r.ints[item.v] == s.ints[item.v]
  }

  predicate IsVideoText(item: Item) {
    item.Text? && item.t == VIDEO_PARAMETER
  }

  /** A video item is registered with no text item for the video parameter after it. */
  predicate VideoLast(items: seq<Item>) {
    items != [] &&
    var item := items[|items| - 1];
    (item.Video? || (!IsVideoText(item) && VideoLast(items[..|items| - 1])))
  }

  /** The mode variable of the last video item. */
  function LastMode(items: seq<Item>): nat
    requires VideoLast(items)
  {
    var item := items[|items| - 1];
    if item.Video? then item.v else LastMode(items[..|items| - 1])
  }

  predicate NoVideoTextAfter(items: seq<Item>, k: nat) {
    forall j :: k < j < |items| ==> !IsVideoText(items[j])
  }

  lemma {:induction false} VideoLastMeans(items: seq<Item>)
    ensures VideoLast(items) <==>
            exists k :: 0 <= k < |items| && items[k].Video? && NoVideoTextAfter(items, k)
  {
    if items != [] {
      var last := |items| - 1;
      var before := items[..last];
      VideoLastMeans(before);
      if VideoLast(items) {
        if items[last].Video? {
          assert NoVideoTextAfter(items, last);
        } else {
          var k :| 0 <= k < last && before[k].Video? && NoVideoTextAfter(before, k);
          assert items[k].Video?;
          forall j | k < j < |items| ensures !IsVideoText(items[j]) {
            if j < last { assert before[j] == items[j]; }
          }
        }
      }
      if k :| 0 <= k < |items| && items[k].Video? && NoVideoTextAfter(items, k) {
        if k < last {
          assert before[k].Video?;
          forall j | k < j < last ensures !IsVideoText(before[j]) { assert before[j] == items[j]; }
        }
      }
    }
  }

  /** Variables other than the video parameter keep the value their items wrote, whoever shares them. */
  lemma {:induction false} OthersRestored(items: seq<Item>, n: nat, s: Store, r: Store, defaults: int -> string)
    requires AllDefined(items, s) && n <= |items| && AllDefined(items[..n], s)
    ensures forall i :: 0 <= i < n && !IsVideoText(items[i]) ==>
              ItemRestored(items[i], s, RestoreAll(items[..n], s, r, defaults))
  {
    if n > 0 {
      var before := items[..n - 1];
      assert items[..n][..n - 1] == before;
      assert AllDefined(before, s) by {
        forall i | 0 <= i < n - 1 ensures Defined(before[i], s) { assert before[i] == items[i]; }
      }
      OthersRestored(items, n - 1, s, r, defaults);
    }
  }

  lemma {:induction false} VideoTextAfter(items: seq<Item>, s: Store, r: Store, defaults: int -> string)
    requires AllDefined(items, s)
    ensures var out := RestoreAll(items, s, r, defaults).texts;
            if VideoLast(items) then
              && VIDEO_PARAMETER in out && LastMode(items) in s.ints
              && out[VIDEO_PARAMETER] == defaults(s.ints[LastMode(items)])
            else
              forall i :: 0 <= i < |items| && IsVideoText(items[i]) ==> ItemRestored(items[i], s, RestoreAll(items, s, r, defaults))
  {
    if items != [] {
      var last := |items| - 1;
      var before := items[..last];
      assert AllDefined(before, s) by {
        forall i | 0 <= i < last ensures Defined(before[i], s) { assert before[i] == items[i]; }
      }
      VideoTextAfter(before, s, r, defaults);
      var out := RestoreAll(items, s, r, defaults);
      assert Defined(items[last], s);
      if !VideoLast(items) {
        forall i | 0 <= i < |items| && IsVideoText(items[i]) ensures ItemRestored(items[i], s, out) {
          if i < last { assert before[i] == items[i]; }
        }
      }
    }
  }

  /** Saving and then loading, into any store, restores every registered variable exactly when no video
      item is left last, or its mode's default happens to be the saved video parameter. */
  lemma SaveThenLoad(items: seq<Item>, s: Store, r: Store, defaults: int -> string)
    requires AllSavable(items, s) && DistinctNames(items)
    ensures AllDefined(items, s)
    ensures VideoLast(items) ==> LastMode(items) in s.ints
    ensures var out := ApplyAll(items, r, FileLines(Save(items, s)), defaults);
            Restored(items, s, out) <==>
              (VideoLast(items) && (exists i :: 0 <= i < |items| && IsVideoText(items[i])) ==>
                 VIDEO_PARAMETER in s.texts && defaults(s.ints[LastMode(items)]) == s.texts[VIDEO_PARAMETER])
  {
    hide Apply, Restore, ItemText, Savable, Lines, FileLines, Save, RestoreAll, ApplyAll, VideoLast, LastMode;
    SavableParts(items, s);
    SavedLines(items, s);
    SavedLinesShort(items, s);
    FileReadsLines(items, r, Save(items, s), defaults);
    assert items[..|items|] == items;
    LoadSaved(items, |items|, s, r, defaults);
    OthersRestored(items, |items|, s, r, defaults);
    VideoTextAfter(items, s, r, defaults);
    var out := RestoreAll(items, s, r, defaults);
    if i :| 0 <= i < |items| && IsVideoText(items[i]) {
      assert Defined(items[i], s);
    }
  }

  /** In particular when, as registered by the loader, every video item comes before a video parameter item. */
  lemma SaveThenLoadInOrder(items: seq<Item>, s: Store, r: Store, defaults: int -> string)
    requires AllSavable(items, s) && DistinctNames(items)
    requires forall k :: 0 <= k < |items| && items[k].Video? ==> exists j :: k < j < |items| && IsVideoText(items[j])
    ensures AllDefined(items, s)
    ensures Restored(items, s, ApplyAll(items, r, FileLines(Save(items, s)), defaults))
  {
    hide Savable, ApplyAll, FileLines, Save;
    SaveThenLoad(items, s, r, defaults);
    VideoLastMeans(items);
  }

  const TEXT_FIRST := [Text("VideoParameter", VIDEO_PARAMETER, 100), Video("videomode", 1)]
  const SAVED := Store(map[1 := 2], map[VIDEO_PARAMETER := "a"])

  lemma TextFirstSavable()
    ensures AllSavable(TEXT_FIRST, SAVED) && DistinctNames(TEXT_FIRST)
  {
    hide Savable;
    forall i | 0 <= i < |TEXT_FIRST| ensures Savable(TEXT_FIRST[i], SAVED) {
      if i == 0 {
        SavableText("VideoParameter", VIDEO_PARAMETER, SAVED);
      } else {
        SavableNumber("videomode", 1, SAVED);
      }
    }
    assert "VideoParameter"[0] != "videomode"[0];
  }

  lemma SavableText(name: string, t: nat, s: Store)
    requires Plain(name) && '=' !in name && |name| < 100 && t in s.texts && s.texts[t] == "a"
    ensures Savable(Text(name, t, 100), s)
  {}

  lemma SavableNumber(name: string, v: nat, s: Store)
    requires Plain(name) && '=' !in name && |name| < 100 && v in s.ints && s.ints[v] == 2
    ensures Savable(Video(name, v), s)
  {
    assert NatText(2) == [Digit(2)];
  }

  /** A video mode registered after the text it overwrites: the text is lost. */
  lemma VideoModeLast()
    ensures AllSavable(TEXT_FIRST, SAVED) && DistinctNames(TEXT_FIRST) && AllDefined(TEXT_FIRST, SAVED)
    ensures !Restored(TEXT_FIRST, SAVED, ApplyAll(TEXT_FIRST, SAVED, FileLines(Save(TEXT_FIRST, SAVED)), mode => "b"))
  {
    hide Savable, Defined, ApplyAll, FileLines, Save, Restored;
    TextFirstSavable();
    assert IsVideoText(TEXT_FIRST[0]);
    assert VideoLast(TEXT_FIRST) && LastMode(TEXT_FIRST) == 1;
    SaveThenLoad(TEXT_FIRST, SAVED, SAVED, mode => "b");
  }

  lemma FullLineSplits(line: string, next: string)
    requires |line| == LINE && Plain(line) && Plain(next) && |next| < LINE - 1
    ensures FileLines(line + "\0" + next + "\n") == [line, "\0" + next + "\n"]
  {
    hide Newline, FileLines;
    var rest := "\0" + next;
    var all := line + "\0" + next + "\n";
    assert all == (line + rest) + "\n" + "";
    NewlineAt(line + rest, "");
    assert all[..LINE] == line && all[LINE..] == rest + "\n";
    FileStep(all);
    assert rest + "\n" == rest + "\n" + "";
    NewlineAt(rest, "");
    FileStep(rest + "\n");
    assert (rest + "\n")[..|rest| + 1] == rest + "\n" && (rest + "\n")[|rest| + 1..] == [];
    NoLines();
    assert "\0" + next + "\n" == rest + "\n";
  }

  /** Every character of the content but the newlines is in some line. */
  lemma {:induction false} CharInLine(content: string, i: nat)
    requires i < |content| && content[i] != '\n'
    ensures exists l :: l in Lines(content) && content[i] in l
    decreases |content|
  {
    hide Newline;
    var n := Newline(content);
    if i < n {
      assert content[..n][i] == content[i];
      assert content[..n] in Lines(content);
    } else {
      var rest := content[n + 1..];
      assert rest[i - n - 1] == content[i];
      CharInLine(rest, i - n - 1);
      var l :| l in Lines(rest) && content[i] in l;
      assert l in Lines(content);
    }
  }

  lemma {:induction false} NulSaved(items: seq<Item>, s: Store, k: nat)
    requires AllDefined(items, s) && k < |items| && '\0' in Written(items[k], s)
    ensures '\0' in Save(items, s)
  {
    hide Written;
    var last := |items| - 1;
    var before := items[..last];
    if k < last {
      assert AllDefined(before, s) by { forall i | 0 <= i < last ensures Defined(before[i], s) { assert before[i] == items[i]; } }
      assert before[k] == items[k];
      NulSaved(before, s, k);
    }
  }

  lemma LongNumberNul(item: Item, s: Store)
    requires Defined(item, s) && !item.Text? && |ItemText(item, s)| >= LINE
    ensures '\0' in Written(item, s)
  {
    hide ItemText;
    assert Written(item, s)[LINE] == '\0';
  }

  /** The saved file has each item on a line of its own exactly when every number's line leaves room for
      its newline. */
  lemma LinePerItemIff(items: seq<Item>, s: Store)
    requires AllDefined(items, s) && forall i :: 0 <= i < |items| ==> Carried(items[i], s)
    ensures Lines(Save(items, s)) == ItemLines(items, s) <==> NumbersFit(items, s)
  {
    hide ItemText, Carried, Written, Save, Lines;
    if NumbersFit(items, s) {
      SavedLines(items, s);
    } else {
      var k :| 0 <= k < |items| && !items[k].Text? && |ItemText(items[k], s)| >= LINE;
      LongNumberNul(items[k], s);
      NulSaved(items, s, k);
      var content := Save(items, s);
      var i :| 0 <= i < |content| && content[i] == '\0';
      CharInLine(content, i);
      var l :| l in Lines(content) && content[i] in l;
      if Lines(content) == ItemLines(items, s) {
        var j :| 0 <= j < |items| && l == ItemText(items[j], s);
        ItemTextPlain(items[j], s);
        assert false;
      }
    }
  }

  lemma ApplyNul(items: seq<Item>, r: Store, line: string, defaults: int -> string)
    requires line != [] && line[0] == '\0'
    ensures Apply(items, r, line, defaults) == r
  {}

  /** A number whose line is 2047 characters long is restored, but the item after it is not read. */
  lemma FullLineHidesNext(first: Item, second: Item, s: Store, r: Store, defaults: int -> string)
    requires Defined(first, s) && !first.Text? && |ItemText(first, s)| == LINE
    requires Carried(first, s) && Carried(second, s) && first.name != second.name
    requires |ItemText(second, s)| < LINE - 1
    ensures var items := [first, second];
            && AllDefined(items, s)
            && ApplyAll(items, r, FileLines(Save(items, s)), defaults) == Restore(first, s, r, defaults)
  {
    hide Apply, Restore, ItemText, Lines, FileLines, ReadAll, ApplyAll;
    var items := [first, second];
    var line, next := ItemText(first, s), ItemText(second, s);
    assert items[0] == first && items[1] == second && items[..1] == [first] && [first][..0] == [];
    ItemTextPlain(second, s);
    ItemTextPlain(first, s);
    assert Save([first], s) == [] + (line + "\0");
    assert Save(items, s) == line + "\0" + next + "\n";
    FullLineSplits(line, next);
    ApplySaved(items, 0, s, r, defaults);
    var tail := "\0" + next + "\n";
    var r1 := Apply(items, r, line, defaults);
    assert [line, tail] == [line] + [tail];
    ApplyCons(items, r, line, [tail], defaults);
    ApplyOne(items, r1, tail, defaults);
    ApplyNul(items, r1, tail, defaults);
  }

  // ------------------------------------------------------------------- the object

  class Configuration {
    var items: seq<Item>
    var store: Store
    const defaults: int -> string

    constructor (initial: Store, defaults: int -> string)
      ensures items == [] && store == initial && this.defaults == defaults
    {
      items, store, this.defaults := [], initial, defaults;
    }

    /** addConfigCheckItem, addConfigVideoItem and addConfigTextItem. */
    method Add(item: Item)
      modifies `items
      ensures items == old(items) + [item]
    {
      items := items + [item];
    }

    method ReadData(item: Item, val: string)
      modifies `store
      ensures store == Read(item, old(store), val, defaults)
    {
      match item
      case Check(_, v) =>
        store := store.(ints := store.ints[v := Atoi(val)]);
      case Video(_, v) =>
        var mode := Atoi(val);
        store := store.(ints := store.ints[v := mode]);
        store := store.(texts := store.texts[VIDEO_PARAMETER := defaults(mode)]);
      case Text(_, t, maxlen) =>
        store := store.(texts := store.texts[t := Truncate(val, maxlen)]);
    }

    method ApplyConfigLine(line: string)
      modifies `store
      ensures store == Apply(items, old(store), line, defaults)
    {
      hide Read;
      var buffer := CString(line);
      while buffer != [] && (buffer[|buffer| - 1] == '\n' || buffer[|buffer| - 1] == '\r')
        invariant Strip(buffer) == Strip(CString(line))
      {
        buffer := buffer[..|buffer| - 1];
      }
      var n := Equals(buffer);
      if n == |buffer| {
        return;
      }
      var key, val := buffer[..n], buffer[n + 1..];
      for i := 0 to |items|
        invariant store == ReadAll(items[..i], old(store), key, val, defaults)
      {
        assert items[..i + 1][..i] == items[..i];
        if items[i].name == key {
          ReadData(items[i], val);
        }
      }
      assert items[..|items|] == items;
    }

    /** The fgets loop over the content of an opened file. */
    method LoadConfiguration(content: string)
      modifies `store
      ensures store == ApplyAll(items, old(store), FileLines(content), defaults)
    {
      hide Apply, FgetsLength, ApplyAll;
      var rest := content;
      ghost var done: seq<string> := [];
      NothingApplied(items, store, defaults);
      while rest != []
        invariant FileLines(content) == done + FileLines(rest)
        invariant store == ApplyAll(items, old(store), done, defaults)
        decreases |rest|
      {
        var buffer := rest[..FgetsLength(rest)];
        ApplyAllAppend(items, old(store), done, [buffer], defaults);
        ApplyOne(items, store, buffer, defaults);
        ApplyConfigLine(buffer);
        rest := rest[FgetsLength(rest)..];
        done := done + [buffer];
      }
      assert done + FileLines(rest) == done;
    }

    /** The memchr loop over a ROM file. */
    method LoadConfigurationFromRom(content: string)
      modifies `store
      ensures store == ApplyAll(items, old(store), RomLines(content), defaults)
    {
      hide Apply, Newline, ApplyAll, RomLines;
      var rest := content;
      ghost var done: seq<string> := [];
      NothingApplied(items, store, defaults);
      while rest != []
        invariant RomLines(content) == done + RomLines(rest)
        invariant store == ApplyAll(items, old(store), done, defaults)
        decreases |rest|
      {
        RomStep(rest);
        var n := Newline(rest);
        var line := rest[..if n > LINE then LINE else n];
        ApplyAllAppend(items, old(store), done, [line], defaults);
        ApplyOne(items, store, line, defaults);
        ApplyConfigLine(line);
        rest := if n < |rest| then rest[n + 1..] else [];
        done := done + [line];
      }
      NoRomLines();
      assert done + RomLines(rest) == done;
    }

    /** writeData of one item. */
    method WriteData(item: Item) returns (written: string)
      requires Defined(item, store) && Printable(item, store)
      ensures written == Written(item, store)
    {
      if item.Text? {
        return item.name + "=" + store.texts[item.t] + "\n";
      }
      var full := item.name + "=" + IntText(store.ints[item.v]) + "\n";
      var text := if |full| > LINE then full[..LINE] + "\0" else full;
      return text[..|full|];
    }

    method SaveConfiguration() returns (content: string)
      requires AllDefined(items, store)
      requires forall i :: 0 <= i < |items| ==> Printable(items[i], store)
      ensures content == Save(items, store)
    {
      content := [];
      for i := 0 to |items|
        invariant AllDefined(items[..i], store) && content == Save(items[..i], store)
      {
        assert Defined(items[i], store);
        assert items[..i + 1][..i] == items[..i];
        var written := WriteData(items[i]);
        content := content + written;
      }
      assert items[..|items|] == items;
    }
  }

  lemma NothingApplied(items: seq<Item>, s: Store, defaults: int -> string)
    ensures ApplyAll(items, s, [], defaults) == s
  {}
}
