/** Text out and in again: exec quotes an argument vector into one command line, _main splits a command line
    into words and unquotes them. Strings have no NUL inside. */
module CommandLine {
  import opened CString
  import opened ZicArith

  // ---------------------------------------------------------------- exec

  predicate Special(c: char) {
    c == '"' || c == '*'
  }

  function Escape(s: string): string {
    if s == "" then "" else (if Special(s[0]) then ['*', s[0]] else [s[0]]) + Escape(s[1..])
  }

  function Quote(s: string): string {
    [' ', '"'] + Escape(s) + ['"']
  }

  function Line(argv: seq<string>): string {
    if argv == [] then "" else Quote(argv[0]) + Line(argv[1..])
  }

  /** The argument loop of exec: characters are appended through a moving pointer. */
  method BuildLine(argv: seq<string>) returns (combuf: string)
    ensures combuf == Line(argv)
  {
    hide Quote, Line;
    combuf := "";
    var index := 0;
    assert argv[0..] == argv;
    while index < |argv|
      invariant 0 <= index <= |argv|
      invariant combuf + Line(argv[index..]) == Line(argv)
    {
      LineStep(combuf, argv, index);
      combuf := AppendQuoted(combuf, argv[index]);
      index := index + 1;
    }
    LineEnd(combuf, argv);
  }

  lemma LineStep(before: string, argv: seq<string>, index: nat)
    requires index < |argv|
    ensures (before + Quote(argv[index])) + Line(argv[index + 1..]) == before + Line(argv[index..])
  {
    hide Quote;
    assert argv[index..][1..] == argv[index + 1..];
  }

  lemma LineEnd(before: string, argv: seq<string>)
    ensures before + Line(argv[|argv|..]) == before
  {
    assert argv[|argv|..] == [];
  }

  method AppendQuoted(before: string, s: string) returns (combuf: string)
    ensures combuf == before + Quote(s)
  {
    combuf := before + [' '];
    combuf := combuf + ['"'];
    ghost var begun := combuf;
    var i := 0;
    while i < |s|
      invariant 0 <= i <= |s|
      invariant combuf + Escape(s[i..]) == begun + Escape(s)
    {
      assert s[i..][1..] == s[i + 1..];
      ghost var c := combuf;
      if Special(s[i]) {
        combuf := combuf + ['*'];
      }
      combuf := combuf + [s[i]];
      assert combuf + Escape(s[i + 1..]) == c + Escape(s[i..]);
      i := i + 1;
    }
    assert s[i..] == "";
    assert combuf == begun + Escape(s);
    combuf := combuf + ['"'];
    assert begun == before + [' ', '"'];
    assert combuf == before + ([' ', '"'] + Escape(s) + ['"']);
  }

  // ---------------------------------------------------------------- the words of a line

  datatype Quoting = NoQuotes | SingleQuotes | DoubleQuotes

  /** A word: how it is quoted, the line from its first character on, its length, and the line after it. */
  datatype Word = Word(quoting: Quoting, body: string, length: nat, rest: string)

  function SkipSpace(s: string): (r: string)
    ensures |r| <= |s| && (r != "" ==> !IsSpace(r[0]))
  {
    if s != "" && IsSpace(s[0]) then SkipSpace(s[1..]) else s
  }

  /** In double quotes a star takes the next character with it. */
  function DoubleEnd(s: string): (n: nat)
    ensures n <= |s|
  {
    if s == "" || s[0] == '"' then 0
    else if s[0] == '*' && |s| > 1 then 2 + DoubleEnd(s[2..])
    else 1 + DoubleEnd(s[1..])
  }

  function SingleEnd(s: string): (n: nat)
    ensures n <= |s|
  {
    if s == "" || s[0] == '\'' then 0 else 1 + SingleEnd(s[1..])
  }

  /** Outside quotes a backslash takes the next character with it. */
  function PlainEnd(s: string): (n: nat)
    ensures n <= |s|
    ensures s != "" && !IsSpace(s[0]) ==> n > 0
  {
    if s == "" || IsSpace(s[0]) then 0
    else if s[0] == '\\' && |s| > 1 then 2 + PlainEnd(s[2..])
    else 1 + PlainEnd(s[1..])
  }

  function NextWord(s: string): (w: Word)
    requires s != "" && !IsSpace(s[0])
    ensures w.length <= |w.body| && |w.rest| < |s|
  {
    if s[0] == '"' then
      var n := DoubleEnd(s[1..]);
      Word(DoubleQuotes, s[1..], n, if n < |s| - 1 then s[n + 2..] else "")
    else if s[0] == '\'' then
      var n := SingleEnd(s[1..]);
      Word(SingleQuotes, s[1..], n, if n < |s| - 1 then s[n + 2..] else "")
    else
      var n := PlainEnd(s);
      Word(NoQuotes, s, n, s[n..])
  }

  // ---------------------------------------------------------------- extract

  datatype Purpose = Normal | Test | Pattern

  function Unescaped(c: char): char {
    if c == 'n' then '\n' else if c == 'e' then 0x1b as char else c
  }

  /** The first n characters of s read inside double quotes. */
  function FromDouble(s: string, n: nat): string
    requires n <= |s|
  {
    if n == 0 then ""
    else if s[0] == '*' && |s| > 1 then
      [Unescaped(s[1])] + (if n == 1 then "" else FromDouble(s[2..], n - 2))
    else [s[0]] + FromDouble(s[1..], n - 1)
  }

  predicate Wildcard(c: char) {
    c in "?#()|[]~%*'"
  }

  function EscapedChar(c: char, purpose: Purpose): string {
    match purpose
    case Test => ['a']
    case Pattern => if Wildcard(c) then ['\'', c] else [c]
    case Normal => [c]
  }

  function FromPlain(s: string, n: nat, purpose: Purpose): string
    requires n <= |s|
  {
    if n == 0 then ""
    else if s[0] == '\\' && |s| > 1 then
      EscapedChar(s[1], purpose) + (if n == 1 then "" else FromPlain(s[2..], n - 2, purpose))
    else [s[0]] + FromPlain(s[1..], n - 1, purpose)
  }

  function Extracted(w: Word, purpose: Purpose): string
    requires w.length <= |w.body|
  {
    match w.quoting
    case SingleQuotes => if purpose == Test then "a" else w.body[..w.length]
    case NoQuotes => FromPlain(w.body, w.length, purpose)
    case DoubleQuotes => FromDouble(w.body, w.length)
  }

  /** extract, writing through a moving pointer. */
  method Extract(w: Word, purpose: Purpose) returns (buf: string)
    requires w.length <= |w.body|
    ensures buf == Extracted(w, purpose)
  {
    match w.quoting {
      case SingleQuotes =>
        buf := if purpose != Test then w.body[..w.length] else "a";
      case NoQuotes =>
        buf := ExtractPlain(w.body, w.length, purpose);
      case DoubleQuotes =>
        buf := ExtractDouble(w.body, w.length);
    }
  }

  /** What is left to read from `start` on; past the end when an escape took the last character. */
  function PlainLeft(s: string, start: nat, end: nat, purpose: Purpose): string
    requires start <= |s| && end <= |s|
  {
    if start >= end then "" else FromPlain(s[start..], end - start, purpose)
  }

  function DoubleLeft(s: string, start: nat, end: nat): string
    requires start <= |s| && end <= |s|
  {
    if start >= end then "" else FromDouble(s[start..], end - start)
  }

  lemma PlainStep(s: string, start: nat, end: nat, purpose: Purpose)
    requires start < end <= |s|
    ensures s[start] == '\\' && start + 1 < |s| ==>
      PlainLeft(s, start, end, purpose) == EscapedChar(s[start + 1], purpose) + PlainLeft(s, start + 2, end, purpose)
    ensures !(s[start] == '\\' && start + 1 < |s|) ==>
      PlainLeft(s, start, end, purpose) == [s[start]] + PlainLeft(s, start + 1, end, purpose)
  {
    var r, n := s[start..], end - start;
    assert r[0] == s[start] && r[1..] == s[start + 1..];
    assert FromPlain(r[1..], 0, purpose) == "";
    if start + 1 < |s| {
      assert r[1] == s[start + 1] && r[2..] == s[start + 2..];
      assert FromPlain(r[2..], 0, purpose) == "";
    }
  }

  lemma DoubleStep(s: string, start: nat, end: nat)
    requires start < end <= |s|
    ensures s[start] == '*' && start + 1 < |s| ==>
      DoubleLeft(s, start, end) == [Unescaped(s[start + 1])] + DoubleLeft(s, start + 2, end)
    ensures !(s[start] == '*' && start + 1 < |s|) ==>
      DoubleLeft(s, start, end) == [s[start]] + DoubleLeft(s, start + 1, end)
  {
    var r, n := s[start..], end - start;
    assert r[0] == s[start] && r[1..] == s[start + 1..];
    assert FromDouble(r[1..], 0) == "";
    if start + 1 < |s| {
      assert r[1] == s[start + 1] && r[2..] == s[start + 2..];
      assert FromDouble(r[2..], 0) == "";
    }
  }

  method ExtractPlain(s: string, end: nat, purpose: Purpose) returns (buf: string)
    requires end <= |s|
    ensures buf == FromPlain(s, end, purpose)
  {
    hide FromPlain, PlainLeft, EscapedChar;
    var start := 0;
    buf := "";
    PlainEnds(s, end, purpose);
    while start < end
      invariant 0 <= start <= |s|
      invariant buf + PlainLeft(s, start, end, purpose) == FromPlain(s, end, purpose)
    {
      PlainStep(s, start, end, purpose);
      if s[start] == '\\' && start + 1 < |s| {
        start := start + 2;
        var piece := EscapedPiece(s[start - 1], purpose);
        buf := buf + piece;
      } else {
        buf := buf + [s[start]];
        start := start + 1;
      }
    }
    PlainNone(s, start, end, purpose);
  }

  /** What an escaped character adds to the buffer: wildcards stay escaped in a pattern. */
  method EscapedPiece(c: char, purpose: Purpose) returns (res: string)
    ensures res == EscapedChar(c, purpose)
  {
    res := [];
    if purpose == Test {
      res := res + ['a'];
    } else if purpose == Pattern {
      if Wildcard(c) {
        res := res + ['\''];
      }
      res := res + [c];
    } else {
      res := res + [c];
    }
  }

  lemma PlainEnds(s: string, end: nat, purpose: Purpose)
    requires end <= |s|
    ensures PlainLeft(s, 0, end, purpose) == FromPlain(s, end, purpose)
  {
    assert s[0..] == s;
  }

  lemma PlainNone(s: string, start: nat, end: nat, purpose: Purpose)
    requires end <= start <= |s|
    ensures PlainLeft(s, start, end, purpose) == ""
  {
  }

  method ExtractDouble(s: string, end: nat) returns (buf: string)
    requires end <= |s|
    ensures buf == FromDouble(s, end)
  {
    hide FromDouble, DoubleLeft;
    var start := 0;
    buf := "";
    DoubleEnds(s, end);
    while start < end
      invariant 0 <= start <= |s|
      invariant start < end ==> start < |s|
      invariant buf + DoubleLeft(s, start, end) == FromDouble(s, end)
    {
      DoubleStep(s, start, end);
      if s[start] == '*' && start + 1 < |s| {
        start := start + 2;
        buf := buf + [Unescaped(s[start - 1])];
      } else {
        buf := buf + [s[start]];
        start := start + 1;
      }
    }
    DoubleNone(s, start, end);
  }

  lemma DoubleEnds(s: string, end: nat)
    requires end <= |s|
    ensures DoubleLeft(s, 0, end) == FromDouble(s, end)
  {
    assert s[0..] == s;
  }

  lemma DoubleNone(s: string, start: nat, end: nat)
    requires end <= start <= |s|
    ensures DoubleLeft(s, start, end) == ""
  {
  }

  // ---------------------------------------------------------------- _main

  /** ParsePattern and the directory search, as given functions: a pattern is invalid below 0, plain at 0 and wild
      above; a search fails or gives the matching names in sorted order. */
  datatype System = System(parsePattern: string -> int, matches: string -> Option<seq<string>>)

  /** What one word after the first becomes; None is the error exit. */
  function Expanded(sys: System, w: Word): Option<seq<string>>
    requires w.length <= |w.body|
  {
    var wild := sys.parsePattern(Extracted(w, Test));
    if wild < 0 then None
    else if wild == 0 then Some([Extracted(w, Normal)])
    else
      var names := sys.matches(Extracted(w, Pattern));
      if names.None? then None
      else if names.value == [] then Some([Extracted(w, Normal)])
      else names
  }

  /** The argument vector of a command line; the command name is left untouched. */
  function Args(sys: System, line: string, first: bool): Option<seq<string>>
    decreases |line|
  {
    var s := SkipSpace(line);
    if s == "" then Some([])
    else
      var w := NextWord(s);
      var here := if first then Some([w.body[..w.length]]) else Expanded(sys, w);
      if here.None? then None
      else
        var more := Args(sys, w.rest, false);
        if more.None? then None else Some(here.value + more.value)
  }

  method SkipBlanks(line: string, from: nat) returns (p: nat)
    requires from <= |line|
    ensures from <= p <= |line| && line[p..] == SkipSpace(line[from..])
  {
    p := from;
    while p < |line| && IsSpace(line[p])
      invariant from <= p <= |line|
      invariant SkipSpace(line[p..]) == SkipSpace(line[from..])
    {
      assert line[p..][1..] == line[p + 1..];
      p := p + 1;
    }
  }

  // The loops that look for the end of a word, one for each kind of quoting.

  method FindDoubleEnd(line: string, from: nat) returns (p: nat)
    requires from <= |line|
    ensures from <= p <= |line| && p - from == DoubleEnd(line[from..])
  {
    p := from;
    while p < |line| && line[p] != '"'
      invariant from <= p <= |line|
      invariant DoubleEnd(line[from..]) == p - from + DoubleEnd(line[p..])
    {
      EndStep(line, p);
      if line[p] == '*' && p + 1 < |line| {
        p := p + 1;
      }
      p := p + 1;
    }
  }

  method FindSingleEnd(line: string, from: nat) returns (p: nat)
    requires from <= |line|
    ensures from <= p <= |line| && p - from == SingleEnd(line[from..])
  {
    p := from;
    while p < |line| && line[p] != '\''
      invariant from <= p <= |line|
      invariant SingleEnd(line[from..]) == p - from + SingleEnd(line[p..])
    {
      EndStep(line, p);
      p := p + 1;
    }
  }

  method FindPlainEnd(line: string, from: nat) returns (p: nat)
    requires from <= |line|
    ensures from <= p <= |line| && p - from == PlainEnd(line[from..])
  {
    p := from;
    while p < |line| && !IsSpace(line[p])
      invariant from <= p <= |line|
      invariant PlainEnd(line[from..]) == p - from + PlainEnd(line[p..])
    {
      EndStep(line, p);
      if line[p] == '\\' && p + 1 < |line| {
        p := p + 1;
      }
      p := p + 1;
    }
  }

  lemma EndStep(line: string, p: nat)
    requires p < |line|
    ensures line[p..][0] == line[p] && line[p..][1..] == line[p + 1..]
    ensures p + 2 <= |line| ==> line[p..][2..] == line[p + 2..]
  {
  }

  method TakeWord(line: string, from: nat) returns (w: Word, p: nat)
    requires from < |line| && !IsSpace(line[from])
    ensures from < p <= |line| && line[from..] != "" && w == NextWord(line[from..]) && line[p..] == w.rest
  {
    hide DoubleEnd, SingleEnd, PlainEnd;
    var quoting := if line[from] == '"' then DoubleQuotes else if line[from] == '\'' then SingleQuotes else NoQuotes;
    var argStart := if quoting == NoQuotes then from else from + 1;
    EndStep(line, from);
    var argEnd;
    match quoting {
      case DoubleQuotes => argEnd := FindDoubleEnd(line, argStart);
      case SingleQuotes => argEnd := FindSingleEnd(line, argStart);
      case NoQuotes => argEnd := FindPlainEnd(line, argStart);
    }
    p := argEnd;
    if quoting != NoQuotes && p < |line| {
      p := p + 1;
    }
    w := Word(quoting, line[argStart..], argEnd - argStart, line[p..]);
  }

  /** One word after the command name: tested for wildcards, then expanded or read as it is. */
  method ExpandWord(sys: System, w: Word) returns (r: Option<seq<string>>)
    requires w.length <= |w.body|
    ensures r == Expanded(sys, w)
  {
    var arg := Extract(w, Test);
    var wild := sys.parsePattern(arg);
    if wild < 0 {
      return None;
    }
    if wild == 0 {
      arg := Extract(w, Normal);
      return Some([arg]);
    }
    arg := Extract(w, Pattern);
    var names := sys.matches(arg);
    if names.None? {
      return None;
    }
    if names.value == [] {
      arg := Extract(w, Normal);
      return Some([arg]);
    }
    r := names;
  }

  function Prepend(argv: seq<string>, more: Option<seq<string>>): Option<seq<string>> {
    if more.None? then None else Some(argv + more.value)
  }

  lemma PrependNone(more: Option<seq<string>>)
    ensures Prepend([], more) == more
  {
    if more.Some? {
      assert [] + more.value == more.value;
    }
  }

  /** One word of the line moves from what is still to come to what has been collected. */
  lemma CollectWord(sys: System, argv: seq<string>, line: string, first: bool, here: Option<seq<string>>)
    requires SkipSpace(line) != ""
    requires var w := NextWord(SkipSpace(line));
             here == if first then Some([w.body[..w.length]]) else Expanded(sys, w)
    ensures var rest := NextWord(SkipSpace(line)).rest;
            Prepend(argv, Args(sys, line, first)) ==
            if here.None? then None else Prepend(argv + here.value, Args(sys, rest, false))
  {
    hide NextWord, SkipSpace, Expanded;
    var more := Args(sys, NextWord(SkipSpace(line)).rest, false);
    if here.Some? && more.Some? {
      assert argv + (here.value + more.value) == (argv + here.value) + more.value;
    }
  }

  lemma NoWords(sys: System, argv: seq<string>, line: string, first: bool)
    requires SkipSpace(line) == ""
    ensures Prepend(argv, Args(sys, line, first)) == Some(argv)
  {
    assert argv + [] == argv;
  }

  /** The word loop of _main. */
  method ParseLine(sys: System, line: string) returns (args: Option<seq<string>>)
    ensures args == Args(sys, line, true)
  {
    hide NextWord, SkipSpace, Expanded, Args, Prepend;
    var argv: seq<string> := [];
    var p, first := 0, true;
    assert line[0..] == line;
    PrependNone(Args(sys, line, true));
    while true
      invariant 0 <= p <= |line|
      invariant Args(sys, line, true) == Prepend(argv, Args(sys, line[p..], first))
      decreases |line| - p
    {
      ghost var rest := line[p..];
      p := SkipBlanks(line, p);
      if p == |line| {
        NoWords(sys, argv, rest, first);
        return Some(argv);
      }
      FirstNotSpace(rest, line[p]);
      var w;
      w, p := TakeWord(line, p);
      if first {
        CollectWord(sys, argv, rest, first, Some([w.body[..w.length]]));
        argv := argv + [w.body[..w.length]];
        first := false;
      } else {
        var words := ExpandWord(sys, w);
        CollectWord(sys, argv, rest, first, words);
        if words.None? {
          return None;
        }
        argv := argv + words.value;
      }
    }
  }

  lemma FirstNotSpace(s: string, c: char)
    requires SkipSpace(s) != "" && SkipSpace(s)[0] == c
    ensures !IsSpace(c)
  {
  }

  // ---------------------------------------------------------------- round trip

  lemma EscapedFirst(s: string, rest: string)
    requires s != ""
    ensures var e, t := Escape(s) + ['"'] + rest, Escape(s[1..]) + ['"'] + rest;
            if Special(s[0]) then |Escape(s)| == |Escape(s[1..])| + 2 && e == ['*', s[0]] + t && e[2..] == t
            else |Escape(s)| == |Escape(s[1..])| + 1 && e == [s[0]] + t && e[1..] == t
  {
    var head := if Special(s[0]) then ['*', s[0]] else [s[0]];
    assert Escape(s) == head + Escape(s[1..]);
    hide Escape;
    Regroup(head, Escape(s[1..]), ['"'], rest);
  }

  lemma Regroup(a: string, b: string, c: string, d: string)
    ensures (a + b) + c + d == a + (b + c + d)
    ensures (a + (b + c + d))[|a|..] == b + c + d
  {
  }

  /** Inside the quotes the escaped argument ends exactly at the closing quote, and reads back as itself. */
  lemma {:induction false} EscapeReadsBack(s: string, rest: string)
    ensures DoubleEnd(Escape(s) + ['"'] + rest) == |Escape(s)|
    ensures FromDouble(Escape(s) + ['"'] + rest, |Escape(s)|) == s
  {
    if s != "" {
      hide Escape;
      EscapeReadsBack(s[1..], rest);
      EscapedFirst(s, rest);
      FromDoubleNone(Escape(s[1..]) + ['"'] + rest);
      assert s == [s[0]] + s[1..];
    }
  }

  lemma FromDoubleNone(s: string)
    ensures FromDouble(s, 0) == ""
  {
  }

  /** Escaping changes nothing exactly when there is nothing to escape. */
  lemma {:induction false} EscapeIdentity(s: string)
    ensures |Escape(s)| >= |s|
    ensures Escape(s) == s <==> forall i :: 0 <= i < |s| ==> !Special(s[i])
  {
    if s != "" {
      EscapeIdentity(s[1..]);
      if !Special(s[0]) {
        assert Escape(s) == s <==> Escape(s[1..]) == s[1..] by {
          assert Escape(s)[1..] == Escape(s[1..]);
          assert s == [s[0]] + s[1..];
        }
        if forall i :: 0 <= i < |s[1..]| ==> !Special(s[1..][i]) {
          forall i | 0 <= i < |s|
            ensures !Special(s[i])
          {
            assert i > 0 ==> s[i] == s[1..][i - 1];
          }
        }
      }
    }
  }

  /** A quoted argument is the next word of the line. */
  lemma QuotedWord(s: string, rest: string)
    ensures var line := SkipSpace(Quote(s) + rest);
            && line != "" && !IsSpace(line[0])
            && NextWord(line) == Word(DoubleQuotes, Escape(s) + ['"'] + rest, |Escape(s)|, rest)
  {
    var line := Quote(s) + rest;
    assert line[1..] == ['"'] + (Escape(s) + ['"'] + rest);
    assert SkipSpace(line) == line[1..];
    EscapeReadsBack(s, rest);
    assert line[1..][1..] == Escape(s) + ['"'] + rest;
    assert (Escape(s) + ['"'] + rest)[|Escape(s)| + 1..] == rest;
    assert line[1..][|Escape(s)| + 2..] == rest;
  }

  /** What the arguments after the first come back as: themselves, unless they are wildcards that match something. */
  function ReadBack(sys: System, argv: seq<string>): Option<seq<string>> {
    if argv == [] then Some([])
    else
      var wild := sys.parsePattern(argv[0]);
      var names := sys.matches(argv[0]);
      var more := ReadBack(sys, argv[1..]);
      if wild < 0 || (wild > 0 && names.None?) || more.None? then None
      else Some((if wild == 0 || names.value == [] then [argv[0]] else names.value) + more.value)
  }

  lemma {:induction false} TailReadsBack(sys: System, argv: seq<string>)
    ensures Args(sys, Line(argv), false) == ReadBack(sys, argv)
  {
    if argv != [] {
      var rest := Line(argv[1..]);
      QuotedWord(argv[0], rest);
      EscapeReadsBack(argv[0], rest);
      TailReadsBack(sys, argv[1..]);
    }
  }

  /** Splitting the line that exec built: the command name comes back escaped, the rest as ReadBack says. */
  lemma LineReadsBack(sys: System, argv: seq<string>)
    requires argv != []
    ensures Args(sys, Line(argv), true) ==
      (var more := ReadBack(sys, argv[1..]); if more.None? then None else Some([Escape(argv[0])] + more.value))
  {
    var rest := Line(argv[1..]);
    QuotedWord(argv[0], rest);
    TailReadsBack(sys, argv[1..]);
    assert (Escape(argv[0]) + ['"'] + rest)[..|Escape(argv[0])|] == Escape(argv[0]);
  }

  lemma {:induction false} PlainReadBack(sys: System, argv: seq<string>)
    requires forall i :: 0 <= i < |argv| ==> sys.parsePattern(argv[i]) == 0
    ensures ReadBack(sys, argv) == Some(argv)
  {
    if argv != [] {
      PlainReadBack(sys, argv[1..]);
      assert [argv[0]] + argv[1..] == argv;
    }
  }

  /** Quoting and parsing undo each other on arguments that are not wildcards, except that the command name must
      have no double quote and no star. */
  lemma RoundTrip(sys: System, argv: seq<string>)
    requires argv != []
    requires forall i :: 1 <= i < |argv| ==> sys.parsePattern(argv[i]) == 0
    ensures Args(sys, Line(argv), true) == Some([Escape(argv[0])] + argv[1..])
    ensures Args(sys, Line(argv), true) == Some(argv) <==> forall i :: 0 <= i < |argv[0]| ==> !Special(argv[0][i])
  {
    hide Args, Line, Escape, ReadBack;
    LineReadsBack(sys, argv);
    PlainReadBack(sys, argv[1..]);
    EscapeIdentity(argv[0]);
    SameHead(Escape(argv[0]), argv);
  }

  lemma SameHead(s: string, argv: seq<string>)
    requires argv != []
    ensures [s] + argv[1..] == argv <==> s == argv[0]
  {
    assert ([s] + argv[1..])[0] == s;
  }
}
