/** What single arguments mean to the scan, in terms of their text alone. */
module OptionMeaning {
  import opened ZicArith
  import opened OptionScan

  lemma {:induction false} IndexIs(before: string, c: char, after: string)
    requires c !in before
    ensures IndexOf(before + [c] + after, c) == |before|
  {
    if before != "" {
      assert (before + [c] + after)[1..] == before[1..] + [c] + after;
      IndexIs(before[1..], c, after);
    }
  }

  lemma IndexNone(o: string, c: char)
    ensures c !in o <==> IndexOf(o, c) == |o|
  {
    var i := IndexOf(o, c);
    if i == |o| {
      assert o[..i] == o;
    }
  }

  // ---------------------------------------------------------------- arguments that are no options

  /** Words, lone dashes and lone plus signs are left over; "--" ends the options. */
  lemma WordsAndDashes(cfg: Config, e: string, more: seq<string>)
    ensures |e| <= 1 || (e[0] != '-' && (e[0] != '+' || cfg.longopts.None?)) ==>
      Scan(cfg, [e] + more) == Scan(cfg, more).(rest := [e] + Scan(cfg, more).rest)
    ensures Scan(cfg, ["--"] + more) == Scanned(["--"], more, [])
  {
    assert ([e] + more)[1..] == more && (["--"] + more)[1..] == more;
  }

  /** An option element with the event it gives, and whether it takes the next argument, in front of the rest. */
  predicate ReadsAs(cfg: Config, e: string, more: seq<string>, event: Event, takes: bool) {
    && (takes ==> more != [])
    && var left := if takes then more[1..] else more;
       Scan(cfg, [e] + more) ==
       Scanned([e] + (if takes then [more[0]] else []) + Scan(cfg, left).consumed, Scan(cfg, left).rest,
               [event] + Scan(cfg, left).events)
  }

  /** An element that one step uses up. */
  lemma OneStepElement(cfg: Config, e: string, more: seq<string>, st: Step)
    requires OptionElement(cfg, e)
    requires |e| >= 2 && (StartText(cfg, e) == "" ==> e[0] == '+' && cfg.longopts.Some?)
    requires st == OneStep(cfg, e, StartText(cfg, e), if more == [] then None else Some(more[0])) && st.left == ""
    ensures ReadsAs(cfg, e, more, st.event, st.took)
  {
    hide OneStep, Scan;
    var args := [e] + more;
    ScanOption(cfg, args);
    assert Next(args) == if more == [] then None else Some(more[0]);
    var (events, took) := Element(cfg, e, StartText(cfg, e), Next(args));
    assert events == [st.event] && took == st.took;
    if took {
      assert args[2..] == more[1..] && args[..2] == [e] + [more[0]];
    } else {
      assert args[1..] == more && args[..1] == [e];
    }
  }

  // ---------------------------------------------------------------- long options

  /** The leads of a long option: two dashes; one, when long options alone are used; a plus sign. */
  predicate LongLead(cfg: Config, lead: string, text: string) {
    && cfg.longopts.Some?
    && match lead
       case "--" => text != ""
       case "+-" => true
       case "-" => cfg.longOnly && text != "" && text[0] != '-'
       case "+" => text != "" && text[0] != '-'
       case _ => false
  }

  /** The name selects entry k: it is the first exact one, or the only one abbreviated when none is exact. */
  predicate Selects(opts: seq<LongOption>, name: string, k: nat) {
    IsFirstExact(opts, name, k) || (NoExact(opts, name) && IsOnlyAbbreviated(opts, name, k))
  }

  function LongText(name: string, value: Option<string>): string {
    name + (if value.Some? then "=" + value.value else "")
  }

  lemma NamePart(name: string, value: Option<string>)
    requires '=' !in name
    ensures var text := LongText(name, value);
            && NameLength(text) == |name| && text[..|name|] == name
            && (value.Some? ==> |name| < |text| && text[|name| + 1..] == value.value)
            && (value.None? ==> |name| == |text|)
  {
    if value.Some? {
      IndexIs(name, '=', value.value);
      assert LongText(name, value) == name + ['='] + value.value;
    } else {
      IndexNone(name, '=');
      assert LongText(name, value) == name;
    }
  }

  lemma LeadText(cfg: Config, lead: string, text: string)
    requires LongLead(cfg, lead, text)
    ensures var e := lead + text;
            OptionElement(cfg, e) && |e| >= 2 && LongForm(cfg, e) && StartText(cfg, e) == text
            && (text == "" ==> e[0] == '+') && (e[1] == '-' || e[0] == '+' <==> lead != "-")
  {
    var e := lead + text;
    if lead == "--" || lead == "+-" {
      assert e[2..] == text;
    } else {
      assert e[1..] == text && e[1] == text[0];
    }
  }

  /** A long option gives the value of the entry its name selects, or 0 when that goes through the flag, with the index
      of the entry. Its argument is the text after the equals sign, or the next argument when one is required; an
      unwanted or missing one is an error. */
  lemma LongOptionRead(cfg: Config, lead: string, name: string, value: Option<string>, more: seq<string>, k: nat)
    requires LongLead(cfg, lead, LongText(name, value)) && '=' !in name && Selects(cfg.longopts.value, name, k)
    ensures var e := lead + LongText(name, value);
            var p := cfg.longopts.value[k];
            var code := if p.flag then 0 else p.val;
            var error := Event('?' as int, None, None);
            if value.Some? then ReadsAs(cfg, e, more, if p.hasArg == 0 then error else Event(code, value, Some(k)), false)
            else if p.hasArg != 1 then ReadsAs(cfg, e, more, Event(code, None, Some(k)), false)
            else if more == [] then ReadsAs(cfg, e, more, error, false)
            else ReadsAs(cfg, e, more, Event(code, Some(more[0]), Some(k)), true)
  {
    hide LongLookup, ReadsAs, LongForm, StartText, OptionElement;
    var text := LongText(name, value);
    var e := lead + text;
    LeadText(cfg, lead, text);
    NamePart(name, value);
    LookupMeaning(cfg.longopts.value, name, k);
    OneStepElement(cfg, e, more, OneStep(cfg, e, text, if more == [] then None else Some(more[0])));
  }

  /** A name that no entry starts with, or more than one and none exactly, is an error. Only after a single dash it may
      still be a short option, if its first character is one. */
  lemma LongOptionUnknown(cfg: Config, lead: string, name: string, value: Option<string>, more: seq<string>)
    requires LongLead(cfg, lead, LongText(name, value)) && '=' !in name
    requires var opts := cfg.longopts.value;
             || (NoExact(opts, name) && TwoBegin(opts, name))
             || (NoneBegins(opts, name) && (lead != "-" || LongText(name, value)[0] !in cfg.optstring))
    ensures ReadsAs(cfg, lead + LongText(name, value), more, Event('?' as int, None, None), false)
  {
    hide LongLookup, ReadsAs, LongForm, StartText, OptionElement;
    var text := LongText(name, value);
    var e := lead + text;
    var opts := cfg.longopts.value;
    LeadText(cfg, lead, text);
    NamePart(name, value);
    LookupMeaning(opts, name, 0);
    NotSelected(opts, name);
    OneStepElement(cfg, e, more, OneStep(cfg, e, text, if more == [] then None else Some(more[0])));
  }

  lemma NotSelected(opts: seq<LongOption>, name: string)
    requires NoExact(opts, name) && (TwoBegin(opts, name) || NoneBegins(opts, name))
    ensures TwoBegin(opts, name) ==> LongLookup(opts, name, 0, None, false) == Ambiguous
    ensures NoneBegins(opts, name) ==> LongLookup(opts, name, 0, None, false) == NotFound
  {
    LookupMeaning(opts, name, 0);
    var r := LongLookup(opts, name, 0, None, false);
    if r.Found? {
      LookupMeaning(opts, name, r.index);
    }
  }

  // ---------------------------------------------------------------- short options

  /** A single dash before characters that are read one by one. */
  predicate ShortForm(cfg: Config, text: string) {
    text != "" && text != "-" && (cfg.longopts.None? || (text[0] != '-' && !cfg.longOnly))
  }

  /** With long options alone, a single dash comes first of all before a long option; it is a short one when no entry's
      name starts with the text up to an equals sign and its first character is in optstring. */
  predicate FallsBack(cfg: Config, text: string) {
    && text != "" && text[0] != '-' && cfg.longopts.Some? && cfg.longOnly
    && NoneBegins(cfg.longopts.value, text[..NameLength(text)]) && text[0] in cfg.optstring
  }

  lemma ShortRead(cfg: Config, text: string, next: Option<string>)
    requires ShortForm(cfg, text) || FallsBack(cfg, text)
    ensures var e := "-" + text;
            OptionElement(cfg, e) && |e| >= 2 && StartText(cfg, e) == text
            && OneStep(cfg, e, text, next) == ShortStep(cfg, text, next)
  {
    hide ShortStep, LongLookup;
    if ShortForm(cfg, text) {
      ShortText(cfg, text);
    } else {
      var e := "-" + text;
      assert e[1..] == text && e[1] == text[0];
      LookupMeaning(cfg.longopts.value, text[..NameLength(text)], 0);
    }
  }

  lemma ShortText(cfg: Config, text: string)
    requires ShortForm(cfg, text)
    ensures var e := "-" + text;
            OptionElement(cfg, e) && |e| >= 2 && !LongForm(cfg, e) && StartText(cfg, e) == text
  {
    var e := "-" + text;
    assert e[1..] == text && e[1] == text[0];
    if |text| == 1 {
      assert text == [text[0]];
    }
  }

  /** An option character with an argument: what follows it in the element, or the next argument when it is required and
      nothing follows; one colon in optstring requires it, two make it optional. */
  lemma ShortWithArgument(cfg: Config, c: char, rest: string, more: seq<string>, before: string, after: string)
    requires (ShortForm(cfg, [c] + rest) || FallsBack(cfg, [c] + rest)) && c != ':'
    requires cfg.optstring == before + [c] + ":" + after && c !in before
    ensures var e := "-" + ([c] + rest);
            if rest != "" then ReadsAs(cfg, e, more, Event(c as int, Some(rest), None), false)
            else if after != "" && after[0] == ':' then ReadsAs(cfg, e, more, Event(c as int, None, None), false)
            else if more == [] then ReadsAs(cfg, e, more, Event('?' as int, None, None), false)
            else ReadsAs(cfg, e, more, Event(c as int, Some(more[0]), None), true)
  {
    hide ReadsAs, LongForm, StartText, OptionElement, LongStep, OneStep, ShortForm, FallsBack;
    var text := [c] + rest;
    ShortRead(cfg, text, if more == [] then None else Some(more[0]));
    assert cfg.optstring == before + [c] + (":" + after);
    IndexIs(before, c, ":" + after);
    assert text[1..] == rest;
    OneStepElement(cfg, "-" + text, more, OneStep(cfg, "-" + text, text, if more == [] then None else Some(more[0])));
  }

  /** An option character without one gives itself, and one that is not in optstring, or a colon, an error; the rest of
      the element is read on as if it stood alone. */
  lemma ShortAlone(cfg: Config, c: char, rest: string, more: seq<string>)
    requires ShortForm(cfg, [c] + rest) || (rest == "" && FallsBack(cfg, [c] + rest))
    requires rest == "" || ShortForm(cfg, rest)
    requires c == ':' || forall i :: 0 <= i < |cfg.optstring| && cfg.optstring[i] == c ==>
      i + 1 == |cfg.optstring| || cfg.optstring[i + 1] != ':'
    ensures var event := Event(if c in cfg.optstring && c != ':' then c as int else '?' as int, None, None);
            var e := "-" + ([c] + rest);
            if rest == "" then ReadsAs(cfg, e, more, event, false)
            else Scan(cfg, [e] + more).events == [event] + Scan(cfg, ["-" + rest] + more).events
  {
    hide ReadsAs, LongForm, StartText, OptionElement, LongStep, OneStep, ShortForm, FallsBack;
    var text := [c] + rest;
    var e := "-" + text;
    ShortRead(cfg, text, if more == [] then None else Some(more[0]));
    IndexNone(cfg.optstring, c);
    assert text[1..] == rest;
    var next := if more == [] then None else Some(more[0]);
    if rest == "" {
      OneStepElement(cfg, e, more, OneStep(cfg, e, text, next));
    } else {
      ShortText(cfg, text);
      ShortText(cfg, rest);
      ClusterEvents(cfg, e, "-" + rest, text, rest, more);
    }
  }

  lemma ClusterEvents(cfg: Config, e: string, f: string, text: string, rest: string, more: seq<string>)
    requires OptionElement(cfg, e) && OptionElement(cfg, f) && |e| >= 2 && |f| >= 2
    requires StartText(cfg, e) == text != "" && StartText(cfg, f) == rest != ""
    requires !LongForm(cfg, e) && !LongForm(cfg, f)
    requires OneStep(cfg, e, text, if more == [] then None else Some(more[0])).left == rest
    ensures Scan(cfg, [e] + more).events ==
      [OneStep(cfg, e, text, if more == [] then None else Some(more[0])).event] + Scan(cfg, [f] + more).events
  {
    hide Scan, ShortStep, LongStep;
    var next := if more == [] then None else Some(more[0]);
    ScanOption(cfg, [e] + more);
    ScanOption(cfg, [f] + more);
    assert Next([e] + more) == next && Next([f] + more) == next;
    SameElement(cfg, e, f, rest, next);
    assert ([e] + more)[1..] == more == ([f] + more)[1..];
    if more != [] {
      assert ([e] + more)[2..] == more[1..] == ([f] + more)[2..];
    }
  }

  /** Read character by character, an element is known by the text still to read. */
  lemma {:induction false} SameElement(cfg: Config, e: string, f: string, text: string, next: Option<string>)
    requires |e| >= 2 && |f| >= 2 && text != "" && !LongForm(cfg, e) && !LongForm(cfg, f)
    ensures Element(cfg, e, text, next) == Element(cfg, f, text, next)
    decreases |text|
  {
    hide ShortStep, LongStep;
    var st := OneStep(cfg, e, text, next);
    if st.left != "" {
      SameElement(cfg, e, f, st.left, next);
    }
  }
}
