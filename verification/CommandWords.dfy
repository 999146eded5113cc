/** What a typed command line means, word by word: bare words with backslashes, words in double quotes with stars, and
    words in single quotes. */
module CommandWords {
  import opened CString
  import opened ZicArith
  import opened CommandLine

  /** A character that stands for itself, or one behind an escape character. */
  datatype Piece = Plain(c: char) | Escaped(c: char)

  datatype WordText = Bare(pieces: seq<Piece>) | Double(pieces: seq<Piece>) | Single(text: string)

  function Text(ps: seq<Piece>, escape: char): string {
    if ps == [] then ""
    else (if ps[0].Plain? then [ps[0].c] else [escape, ps[0].c]) + Text(ps[1..], escape)
  }

  predicate ValidWord(w: WordText) {
    match w
    case Bare(ps) =>
      && ps != [] && ps[0] != Plain('"') && ps[0] != Plain('\'')
      && forall i :: 0 <= i < |ps| && ps[i].Plain? ==> !IsSpace(ps[i].c) && ps[i].c != '\\'
    case Double(ps) => forall i :: 0 <= i < |ps| && ps[i].Plain? ==> ps[i].c != '"' && ps[i].c != '*'
    case Single(text) => '\'' !in text
  }

  /** The word without its quotes, and with them. */
  function Raw(w: WordText): string {
    match w
    case Bare(ps) => Text(ps, '\\')
    case Double(ps) => Text(ps, '*')
    case Single(text) => text
  }

  function Written(w: WordText): string {
    match w
    case Bare(_) => Raw(w)
    case Double(_) => "\"" + Raw(w) + "\""
    case Single(_) => "'" + Raw(w) + "'"
  }

  /** What an escaped character of a bare word stands for: itself; for the wildcard test a letter; in a pattern itself
      again, behind a quote of its own if it were a wildcard. */
  function Bared(c: char, purpose: Purpose): string {
    match purpose
    case Normal => [c]
    case Test => "a"
    case Pattern => if c in "?#()|[]~%*'" then ['\'', c] else [c]
  }

  /** In double quotes *n is a newline, *e an escape, and any other starred character itself. */
  function Starred(c: char): string {
    if c == 'n' then "\n" else if c == 'e' then [27 as char] else [c]
  }

  function Values(ps: seq<Piece>, bare: bool, purpose: Purpose): string {
    if ps == [] then ""
    else (if ps[0].Plain? then [ps[0].c] else if bare then Bared(ps[0].c, purpose) else Starred(ps[0].c))
         + Values(ps[1..], bare, purpose)
  }

  /** What the word is read as: quoted words are the same for every purpose, but nothing in single quotes is a pattern. */
  function Value(w: WordText, purpose: Purpose): string {
    match w
    case Bare(ps) => Values(ps, true, purpose)
    case Double(ps) => Values(ps, false, purpose)
    case Single(text) => if purpose == Test then "a" else text
  }

  // ---------------------------------------------------------------- one word

  lemma Front(head: string, text: string, tail: string)
    ensures head + text + tail == head + (text + tail) && (head + text + tail)[|head|..] == text + tail
  {
  }

  lemma FirstPiece(ps: seq<Piece>, escape: char, tail: string)
    requires ps != []
    ensures var s, rest := Text(ps, escape) + tail, Text(ps[1..], escape) + tail;
            if ps[0].Plain?
            then |Text(ps, escape)| == 1 + |Text(ps[1..], escape)| && s == [ps[0].c] + rest && s[1..] == rest
            else |Text(ps, escape)| == 2 + |Text(ps[1..], escape)| && s == [escape, ps[0].c] + rest && s[2..] == rest
  {
    var head := if ps[0].Plain? then [ps[0].c] else [escape, ps[0].c];
    var more := Text(ps[1..], escape);
    assert Text(ps, escape) == head + more;
    hide Text;
    Front(head, more, tail);
  }

  /** A bare word ends at white space or at the end of the line, past what its backslashes escape. */
  lemma {:induction false} BareRead(ps: seq<Piece>, tail: string, purpose: Purpose)
    requires forall i :: 0 <= i < |ps| && ps[i].Plain? ==> !IsSpace(ps[i].c) && ps[i].c != '\\'
    requires tail == "" || IsSpace(tail[0])
    ensures var s, n := Text(ps, '\\') + tail, |Text(ps, '\\')|;
            PlainEnd(s) == n && FromPlain(s, n, purpose) == Values(ps, true, purpose)
  {
    hide Text, IsSpace;
    TextNone('\\');
    if ps != [] {
      FirstPiece(ps, '\\', tail);
      BareRead(ps[1..], tail, purpose);
      BackslashNoSpace();
      var rest := Text(ps[1..], '\\') + tail;
      assert FromPlain(rest, 0, purpose) == "";
    } else {
      assert Text(ps, '\\') + tail == tail;
    }
  }

  lemma TextNone(escape: char)
    ensures Text([], escape) == ""
  {
  }

  lemma BackslashNoSpace()
    ensures !IsSpace('\\') && !IsSpace('"') && !IsSpace('\'')
  {
  }

  /** A word in double quotes ends at its closing quote or at the end of the line, past what its stars escape. */
  lemma {:induction false} DoubleRead(ps: seq<Piece>, tail: string, purpose: Purpose)
    requires forall i :: 0 <= i < |ps| && ps[i].Plain? ==> ps[i].c != '"' && ps[i].c != '*'
    requires tail == "" || tail[0] == '"'
    ensures var s, n := Text(ps, '*') + tail, |Text(ps, '*')|;
            DoubleEnd(s) == n && FromDouble(s, n) == Values(ps, false, purpose)
  {
    hide Text;
    TextNone('*');
    if ps != [] {
      FirstPiece(ps, '*', tail);
      DoubleRead(ps[1..], tail, purpose);
      var rest := Text(ps[1..], '*') + tail;
      assert FromDouble(rest, 0) == "";
    } else {
      assert Text(ps, '*') + tail == tail;
    }
  }

  lemma {:induction false} SingleRead(text: string, tail: string)
    requires '\'' !in text && (tail == "" || tail[0] == '\'')
    ensures SingleEnd(text + tail) == |text|
  {
    if text == "" {
      assert text + tail == tail;
    } else {
      assert (text + tail)[1..] == text[1..] + tail;
      SingleRead(text[1..], tail);
    }
  }

  /** An escape character that ends the line stands for itself. */
  lemma EscapeAtEnd(purpose: Purpose)
    ensures PlainEnd("\\") == 1 && FromPlain("\\", 1, purpose) == "\\"
    ensures DoubleEnd("*") == 1 && FromDouble("*", 1) == "*"
  {
  }

  lemma InQuotes(quote: string, text: string, rest: string)
    requires |quote| == 1
    ensures var s := quote + text + quote + rest;
            && s[0] == quote[0] && s[1..] == text + (quote + rest) && s[|text| + 2..] == rest
            && (text + (quote + rest))[..|text|] == text
  {
  }

  /** The next word of a line, what is left after it, and what it is read as. */
  lemma WordRead(w: WordText, rest: string, purpose: Purpose)
    requires ValidWord(w) && (w.Bare? ==> rest == "" || IsSpace(rest[0]))
    ensures var s := Written(w) + rest;
            && s != "" && !IsSpace(s[0])
            && var x := NextWord(s);
               x.rest == rest && x.body[..x.length] == Raw(w) && Extracted(x, purpose) == Value(w, purpose)
  {
    hide Text, IsSpace, PlainEnd, DoubleEnd, SingleEnd, FromPlain, FromDouble, Values;
    BackslashNoSpace();
    var s := Written(w) + rest;
    match w {
      case Bare(ps) =>
        FirstPiece(ps, '\\', rest);
        BareRead(ps, rest, purpose);
      case Double(ps) =>
        InQuotes("\"", Raw(w), rest);
        DoubleRead(ps, "\"" + rest, purpose);
      case Single(text) =>
        InQuotes("'", text, rest);
        SingleRead(text, "'" + rest);
    }
  }

  /** A quote that is never closed is closed by the end of the line. */
  lemma Unclosed(w: WordText, purpose: Purpose)
    requires ValidWord(w) && !w.Bare?
    ensures var s := (if w.Double? then "\"" else "'") + Raw(w);
            && !IsSpace(s[0])
            && var x := NextWord(s);
               x.rest == "" && x.body[..x.length] == Raw(w) && Extracted(x, purpose) == Value(w, purpose)
  {
    hide Text, PlainEnd, DoubleEnd, SingleEnd, FromPlain, FromDouble, Values;
    var s := (if w.Double? then "\"" else "'") + Raw(w);
    assert s[1..] == Raw(w) && Raw(w) + "" == Raw(w);
    if w.Double? {
      DoubleRead(w.pieces, "", purpose);
    } else {
      SingleRead(w.text, "");
    }
  }

  // ---------------------------------------------------------------- whole lines

  /** A word with the white space before it. */
  datatype Item = Item(gap: string, word: WordText)

  function LineOf(items: seq<Item>, tail: string): string {
    if items == [] then tail else items[0].gap + (Written(items[0].word) + LineOf(items[1..], tail))
  }

  predicate Blank(s: string) {
    forall i :: 0 <= i < |s| ==> IsSpace(s[i])
  }

  /** After a bare word there is white space before the next one. */
  predicate ValidItems(items: seq<Item>) {
    && (forall i :: 0 <= i < |items| ==> Blank(items[i].gap) && ValidWord(items[i].word))
    && forall i :: 0 < i < |items| && items[i - 1].word.Bare? ==> items[i].gap != ""
  }

  lemma {:induction false} SkipGap(gap: string, rest: string)
    requires Blank(gap) && (rest == "" || !IsSpace(rest[0]))
    ensures SkipSpace(gap + rest) == rest
  {
    if gap == "" {
      assert gap + rest == rest;
    } else {
      assert (gap + rest)[1..] == gap[1..] + rest;
      SkipGap(gap[1..], rest);
    }
  }

  lemma FirstItem(items: seq<Item>, tail: string, purpose: Purpose)
    requires items != [] && ValidItems(items) && Blank(tail)
    ensures var s, rest := SkipSpace(LineOf(items, tail)), LineOf(items[1..], tail);
            && s != "" && !IsSpace(s[0])
            && var x := NextWord(s);
               && x.rest == rest && x.body[..x.length] == Raw(items[0].word)
               && Extracted(x, purpose) == Value(items[0].word, purpose)
    ensures ValidItems(items[1..])
  {
    hide IsSpace, NextWord, Extracted, Value, Raw, Written, ValidWord;
    var w, rest := items[0].word, LineOf(items[1..], tail);
    if w.Bare? && |items| > 1 {
      var gap := items[1].gap;
      assert rest == gap + (Written(items[1].word) + LineOf(items[1..][1..], tail));
      assert rest[0] == gap[0];
    }
    WordRead(w, rest, purpose);
    SkipGap(items[0].gap, Written(w) + rest);
  }

  /** A word that is tested to be no wildcard is read as it is, and so is a wildcard without matches; a wildcard with
      matches stands for them. */
  function Means(sys: System, w: WordText): Option<seq<string>> {
    var wild := sys.parsePattern(Value(w, Test));
    var names := sys.matches(Value(w, Pattern));
    if wild < 0 || (wild > 0 && names.None?) then None
    else if wild > 0 && names.value != [] then names
    else Some([Value(w, Normal)])
  }

  function AllMean(sys: System, items: seq<Item>): Option<seq<string>> {
    if items == [] then Some([])
    else
      var here, more := Means(sys, items[0].word), AllMean(sys, items[1..]);
      if here.None? || more.None? then None else Some(here.value + more.value)
  }

  lemma {:induction false} WordsRead(sys: System, items: seq<Item>, tail: string)
    requires ValidItems(items) && Blank(tail)
    ensures Args(sys, LineOf(items, tail), false) == AllMean(sys, items)
  {
    hide IsSpace, NextWord, Extracted, Value, Raw, Written, ValidWord, SkipSpace, LineOf, ValidItems;
    if items == [] {
      EmptyLine(tail);
    } else {
      FirstItem(items, tail, Test);
      FirstItem(items, tail, Normal);
      FirstItem(items, tail, Pattern);
      WordsRead(sys, items[1..], tail);
    }
  }

  lemma EmptyLine(tail: string)
    requires Blank(tail)
    ensures LineOf([], tail) == tail && SkipSpace(tail) == ""
  {
    SkipGap(tail, "");
    assert tail + "" == tail;
  }

  /** A command line gives its first word without quotes but otherwise untouched, and what its other words mean. */
  lemma LineRead(sys: System, items: seq<Item>, tail: string)
    requires ValidItems(items) && Blank(tail)
    ensures Args(sys, LineOf(items, tail), true) ==
      if items == [] then Some([])
      else
        var more := AllMean(sys, items[1..]);
        if more.None? then None else Some([Raw(items[0].word)] + more.value)
  {
    hide IsSpace, NextWord, Extracted, Value, Raw, Written, ValidWord, SkipSpace, LineOf, ValidItems;
    if items == [] {
      EmptyLine(tail);
    } else {
      FirstItem(items, tail, Normal);
      WordsRead(sys, items[1..], tail);
    }
  }

  // ---------------------------------------------------------------- plain words

  /** Not empty, without white space and backslashes, and not starting with a quote. */
  predicate PlainWord(s: string) {
    s != "" && s[0] != '"' && s[0] != '\'' && forall i :: 0 <= i < |s| ==> !IsSpace(s[i]) && s[i] != '\\'
  }

  function Joined(words: seq<string>): string {
    if words == [] then "" else [' '] + words[0] + Joined(words[1..])
  }

  function Pieces(s: string): (ps: seq<Piece>)
    ensures |ps| == |s| && forall i :: 0 <= i < |s| ==> ps[i] == Plain(s[i])
  {
    if s == "" then [] else [Plain(s[0])] + Pieces(s[1..])
  }

  lemma {:induction false} PlainPieces(s: string, purpose: Purpose)
    ensures Text(Pieces(s), '\\') == s && Values(Pieces(s), true, purpose) == s
  {
    if s != "" {
      PlainPieces(s[1..], purpose);
      assert Pieces(s)[1..] == Pieces(s[1..]);
      assert s == [s[0]] + s[1..];
    }
  }

  function PlainItems(words: seq<string>): (items: seq<Item>)
    ensures |items| == |words| && forall i :: 0 <= i < |words| ==> items[i] == Item(" ", Bare(Pieces(words[i])))
  {
    if words == [] then [] else [Item(" ", Bare(Pieces(words[0])))] + PlainItems(words[1..])
  }

  lemma {:induction false} PlainItemsLine(words: seq<string>)
    ensures LineOf(PlainItems(words), "") == Joined(words)
  {
    if words != [] {
      PlainItemsLine(words[1..]);
      assert PlainItems(words)[1..] == PlainItems(words[1..]);
      PlainPieces(words[0], Normal);
      assert [' '] + words[0] + Joined(words[1..]) == " " + (words[0] + Joined(words[1..]));
    }
  }

  lemma {:induction false} PlainMeans(sys: System, words: seq<string>)
    requires forall i :: 0 <= i < |words| ==> sys.parsePattern(words[i]) == 0
    ensures AllMean(sys, PlainItems(words)) == Some(words)
  {
    hide Pieces, Values;
    if words != [] {
      PlainMeans(sys, words[1..]);
      assert PlainItems(words)[1..] == PlainItems(words[1..]);
      PlainPieces(words[0], Normal);
      PlainPieces(words[0], Test);
      assert words == [words[0]] + words[1..];
    }
  }

  lemma PlainItemsValid(words: seq<string>)
    requires forall i :: 0 <= i < |words| ==> PlainWord(words[i])
    ensures ValidItems(PlainItems(words))
  {
    hide PlainItems, ValidWord, PlainWord;
    forall i | 0 <= i < |words| ensures ValidWord(Bare(Pieces(words[i]))) {
      PlainWordValid(words[i]);
    }
  }

  lemma PlainWordValid(s: string)
    requires PlainWord(s)
    ensures ValidWord(Bare(Pieces(s)))
  {
    hide Pieces, IsSpace;
  }

  /** Plain words between spaces come back as they are. */
  lemma PlainLine(sys: System, words: seq<string>)
    requires forall i :: 0 <= i < |words| ==> PlainWord(words[i])
    requires forall i :: 1 <= i < |words| ==> sys.parsePattern(words[i]) == 0
    ensures Args(sys, Joined(words), true) == Some(words)
  {
    var items := PlainItems(words);
    PlainItemsValid(words);
    hide PlainWord, Pieces, LineOf, Text, ValidItems, IsSpace, AllMean, Joined;
    PlainItemsLine(words);
    LineRead(sys, items, "");
    if words != [] {
      assert items[1..] == PlainItems(words[1..]);
      PlainMeans(sys, words[1..]);
      PlainPieces(words[0], Normal);
      assert words == [words[0]] + words[1..];
    }
  }

  /** The quoted line in characters: a star before each double quote and star. */
  lemma BuiltLine()
    ensures Line(["a\"b", "*"]) == " \"a*\"b\" \"**\""
  {
    assert Escape("a\"b") == "a*\"b" && Escape("*") == "**";
    assert Line(["a\"b", "*"]) == Quote("a\"b") + Line(["*"]);
  }
}
