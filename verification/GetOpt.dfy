/** getopt.c: the scanner that rotates argv in place between calls. */
module GetOpt {
  import opened ZicArith
  import opened OptionScan

  datatype Ordering = RequireOrder | Permute | ReturnInOrder

  const EOF := -1

  // ---------------------------------------------------------------- what every call keeps

  ghost predicate Shape(o: seq<string>, a: seq<string>, first: int, last: int, opt: int) {
    |a| == |o| >= 1 && a[0] == o[0] && 1 <= first <= last <= opt <= |a|
  }

  /** The scan of the original arguments is what has been sorted out so far, followed by `r`: the options lie before
      the skipped non-options and between them and optind, and nothing from optind on has moved. */
  ghost predicate Accounted(cfg: Config, o: seq<string>, a: seq<string>, first: int, last: int, opt: int, log: seq<Event>, r: Scanned)
    requires Shape(o, a, first, last, opt)
  {
    var s := Scan(cfg, o[1..]);
    && s.consumed == a[1..first] + a[last..opt] + r.consumed
    && s.rest == a[first..last] + r.rest
    && s.events == log + r.events
  }

  /** Between two elements. */
  ghost predicate AtElement(cfg: Config, o: seq<string>, a: seq<string>, first: int, last: int, opt: int, log: seq<Event>) {
    Shape(o, a, first, last, opt) && Accounted(cfg, o, a, first, last, opt, log, Scan(cfg, a[opt..]))
  }

  /** Inside an option element, with `text` left to decode. */
  ghost predicate InElement(cfg: Config, o: seq<string>, a: seq<string>, first: int, last: int, opt: int, text: string, log: seq<Event>) {
    && Shape(o, a, first, last, opt) && opt < |a| && OptionElement(cfg, a[opt])
    && Decodable(cfg, a[opt], text)
    && Accounted(cfg, o, a, first, last, opt, log, ScanFrom(cfg, text, a[opt..]))
  }

  predicate Decodable(cfg: Config, e: string, text: string) {
    |e| >= 2 && (text == "" ==> e[0] == '+' && cfg.longopts.Some?)
  }

  lemma StartAtElement(cfg: Config, o: seq<string>)
    requires |o| >= 1
    ensures AtElement(cfg, o, o, 1, 1, 1, [])
  {
  }

  /** Rotating the two blocks changes neither the options nor the non-options sorted out. */
  lemma KeptByExchange(cfg: Config, o: seq<string>, a: seq<string>, b: seq<string>, first: int, last: int, opt: int, log: seq<Event>)
    requires AtElement(cfg, o, a, first, last, opt, log)
    requires b == a[..first] + a[last..opt] + a[first..last] + a[opt..]
    ensures AtElement(cfg, o, b, first + opt - last, opt, opt, log)
  {
    var first' := first + opt - last;
    assert b[1..first'] == a[1..first] + a[last..opt];
    assert b[first'..opt] == a[first..last];
    assert b[opt..opt] == [] && b[opt..] == a[opt..];
    assert a[1..first] + a[last..opt] + [] == a[1..first] + a[last..opt];
  }

  lemma KeptWithoutGap(cfg: Config, o: seq<string>, a: seq<string>, first: int, opt: int, log: seq<Event>)
    requires AtElement(cfg, o, a, first, first, opt, log)
    ensures AtElement(cfg, o, a, opt, opt, opt, log)
  {
    assert a[1..opt] == a[1..first] + a[first..opt];
    assert a[1..opt] + a[opt..opt] == a[1..opt];
    assert a[first..first] == a[opt..opt];
  }

  lemma KeptBySkip(cfg: Config, o: seq<string>, a: seq<string>, first: int, opt: int, log: seq<Event>)
    requires AtElement(cfg, o, a, first, opt, opt, log) && opt < |a| && NonOption(cfg, a[opt])
    ensures AtElement(cfg, o, a, first, opt + 1, opt + 1, log)
  {
    assert a[opt..][1..] == a[opt + 1..];
    assert a[opt..opt] == a[opt + 1..opt + 1];
    assert a[first..opt + 1] == a[first..opt] + [a[opt]];
  }

  lemma EnterElement(cfg: Config, o: seq<string>, a: seq<string>, first: int, opt: int, log: seq<Event>)
    requires AtElement(cfg, o, a, first, opt, opt, log) && opt < |a| && OptionElement(cfg, a[opt])
    ensures |a[opt]| >= 2
    ensures InElement(cfg, o, a, first, opt, opt, StartText(cfg, a[opt]), log)
  {
    OptionElementText(cfg, a[opt]);
  }

  /** Decoding one option moves on inside the element, or past it and the argument it took. */
  lemma KeptByStep(cfg: Config, o: seq<string>, a: seq<string>, first: int, last: int, opt: int, text: string, log: seq<Event>)
    requires InElement(cfg, o, a, first, last, opt, text, log)
    ensures var st := OneStep(cfg, a[opt], text, Next(a[opt..]));
            if st.left != "" then InElement(cfg, o, a, first, last, opt, st.left, log + [st.event])
            else AtElement(cfg, o, a, first, last, if st.took then opt + 2 else opt + 1, log + [st.event])
  {
    hide OneStep, Scan;
    var args := a[opt..];
    var st := OneStep(cfg, a[opt], text, Next(args));
    var s, r := Scan(cfg, o[1..]), ScanFrom(cfg, text, args);
    StepFrom(cfg, text, args);
    if st.left != "" {
      hide ScanFrom;
      var r' := ScanFrom(cfg, st.left, args);
      assert log + r.events == log + [st.event] + r'.events;
    } else {
      hide ScanFrom;
      var w := if st.took then 2 else 1;
      var more := Scan(cfg, args[w..]);
      assert args[w..] == a[opt + w..];
      assert a[last..opt + w] == a[last..opt] + args[..w];
      assert s.consumed == a[1..first] + a[last..opt + w] + more.consumed;
      assert s.events == log + [st.event] + more.events;
    }
  }

  /** One step of an element, and what the scan does with the rest of it. */
  lemma StepFrom(cfg: Config, text: string, args: seq<string>)
    requires args != [] && Decodable(cfg, args[0], text)
    ensures var st, r := OneStep(cfg, args[0], text, Next(args)), ScanFrom(cfg, text, args);
            if st.left != "" then
              var r' := ScanFrom(cfg, st.left, args);
              r == Scanned(r'.consumed, r'.rest, [st.event] + r'.events)
            else
              var w := if st.took then 2 else 1;
              && w <= |args|
              && var more := Scan(cfg, args[w..]);
                 r == Scanned(args[..w] + more.consumed, more.rest, [st.event] + more.events)
  {
    hide OneStep, Scan;
    var st := OneStep(cfg, args[0], text, Next(args));
    if st.left != "" {
      var (events, took) := Element(cfg, args[0], st.left, Next(args));
      assert Element(cfg, args[0], text, Next(args)) == ([st.event] + events, took);
      hide Element;
      var more := Scan(cfg, args[if took then 2 else 1..]);
      assert [st.event] + events + more.events == [st.event] + (events + more.events);
    } else {
      assert Element(cfg, args[0], text, Next(args)) == ([st.event], st.took);
    }
  }

  /** argv is the program name, the options in order, and the other elements in order; optind is on the first of these. */
  ghost predicate Finished(cfg: Config, o: seq<string>, a: seq<string>, opt: int, log: seq<Event>)
    requires |o| >= 1
  {
    var s := Scan(cfg, o[1..]);
    a == [o[0]] + s.consumed + s.rest && opt == 1 + |s.consumed| && log == s.events
  }

  lemma FinishedAtEnd(cfg: Config, o: seq<string>, a: seq<string>, first: int, log: seq<Event>)
    requires AtElement(cfg, o, a, first, |a|, |a|, log)
    ensures Finished(cfg, o, a, first, log)
  {
    assert a[|a|..] == [] && Scan(cfg, a[|a|..]) == Scanned([], [], []);
    hide Scan;
    assert a == [a[0]] + a[1..first] + a[first..];
  }

  /** "--" joins the options, and all that follows is left over. */
  lemma FinishedAtDash(cfg: Config, o: seq<string>, a: seq<string>, b: seq<string>, first: int, opt: int, log: seq<Event>)
    requires AtElement(cfg, o, a, first, opt, opt, log) && opt < |a| && a[opt] == "--"
    requires b == a[..first] + a[opt..opt + 1] + a[first..opt] + a[opt + 1..]
    ensures Finished(cfg, o, b, first + 1, log)
  {
    var s := Scan(cfg, o[1..]);
    assert a[opt..][1..] == a[opt + 1..];
    assert Scan(cfg, a[opt..]) == Scanned(["--"], a[opt + 1..], []);
    assert s.consumed == a[1..first] + a[opt..opt] + ["--"] == a[1..first] + ["--"];
    assert s.rest == a[first..opt] + a[opt + 1..];
    assert a[..first] == [a[0]] + a[1..first];
    assert b == [o[0]] + s.consumed + s.rest;
  }

  // ---------------------------------------------------------------- the modes that move nothing

  /** The outcome of a call with the two variables it leaves behind. */
  datatype Plain = Plain(result: Option<Event>, optind: int, nextchar: string)

  /** A call in one of the two modes that do not permute, with `text` left of the element at optind: REQUIRE_ORDER stops
      at the first non-option, RETURN_IN_ORDER hands it back as the argument of code 1. */
  function PlainCall(cfg: Config, ordering: Ordering, argv: seq<string>, optind: int, text: string): Plain
    requires 0 <= optind <= |argv|
    requires text != "" ==> optind < |argv| && OptionElement(cfg, argv[optind])
  {
    if optind == |argv| then Plain(None, optind, "")
    else if text == "" && argv[optind] == "--" then Plain(None, optind + 1, "")
    else if text == "" && NonOption(cfg, argv[optind]) then
      if ordering == RequireOrder then Plain(None, optind, "")
      else Plain(Some(Event(1, Some(argv[optind]), None)), optind + 1, "")
    else
      OptionElementText(cfg, argv[optind]);
      var st := OneStep(cfg, argv[optind], if text == "" then StartText(cfg, argv[optind]) else text, Next(argv[optind..]));
      Plain(Some(st.event), optind + (if st.left != "" then 0 else if st.took then 2 else 1), st.left)
  }

  lemma PlainOption(cfg: Config, ordering: Ordering, argv: seq<string>, optind: int, text: string)
    requires 0 <= optind < |argv| && OptionElement(cfg, argv[optind])
    ensures |argv[optind]| >= 2
    ensures var from := if text == "" then StartText(cfg, argv[optind]) else text;
            && Decodable(cfg, argv[optind], from)
            && var st := OneStep(cfg, argv[optind], from, Next(argv[optind..]));
               PlainCall(cfg, ordering, argv, optind, text) ==
               Plain(Some(st.event), optind + (if st.left != "" then 0 else if st.took then 2 else 1), st.left)
  {
    OptionElementText(cfg, argv[optind]);
  }

  /** Such a call returns the first event of the scan of what is left, except that non-options are not passed over. */
  lemma InOrderCall(cfg: Config, ordering: Ordering, argv: seq<string>, optind: int)
    requires 0 <= optind < |argv|
    ensures var e, r := argv[optind], PlainCall(cfg, ordering, argv, optind, "");
            if e == "--" then r == Plain(None, optind + 1, "")
            else if |e| <= 1 || (e[0] != '-' && (e[0] != '+' || cfg.longopts.None?)) then
              r == if ordering == RequireOrder then Plain(None, optind, "")
                   else Plain(Some(Event(1, Some(e), None)), optind + 1, "")
            else
              var scan := Scan(cfg, argv[optind..]);
              scan.events != [] && r.result == Some(scan.events[0])
              && (r.nextchar == "" ==> Scan(cfg, argv[optind..]).events == [scan.events[0]] + Scan(cfg, argv[r.optind..]).events)
  {
    var args := argv[optind..];
    assert args[0] == argv[optind];
    if OptionElement(cfg, args[0]) {
      hide OneStep, Scan;
      ScanOption(cfg, args);
      PlainOption(cfg, ordering, argv, optind, "");
      assert |args| > 1 ==> args[2..] == argv[optind + 2..];
      assert args[1..] == argv[optind + 1..];
    }
  }

  lemma OptstringAside(cfg: Config, optstring: string, e: string)
    ensures OptionElement(cfg.(optstring := optstring), e) == OptionElement(cfg, e)
  {
  }

  // ---------------------------------------------------------------- the scanner

  /** The static variables of getopt.c. nextchar is the text it points at; NULL and "" are treated alike. */
  class Scanner {
    var optind: int
    var optarg: Option<string>
    var longind: Option<nat>
    var nextchar: string
    var firstNonopt: int
    var lastNonopt: int
    var ordering: Ordering

    constructor ()
      ensures optind == 0
    {
      optind, optarg, longind, nextchar, firstNonopt, lastNonopt, ordering := 0, None, None, "", 0, 0, RequireOrder;
    }

    /** exchange: the block of skipped non-options and the block of options after it change places. */
    method Exchange(argv: array<string>)
      requires 0 <= firstNonopt <= lastNonopt <= optind <= argv.Length
      modifies this`firstNonopt, this`lastNonopt, argv
      ensures argv[..] == old(argv[..firstNonopt] + argv[lastNonopt..optind] + argv[firstNonopt..lastNonopt] + argv[optind..])
      ensures firstNonopt == old(firstNonopt) + (optind - old(lastNonopt)) && lastNonopt == optind
    {
      hide Overlaid;
      var nonopts, options := lastNonopt - firstNonopt, optind - lastNonopt;
      var temp := new string[nonopts](_ => "");
      ghost var a := argv[..];
      OverlaidAll(temp[..], argv[firstNonopt..firstNonopt + nonopts]);
      Copy(argv, firstNonopt, temp, 0, nonopts);
      Copy(argv, lastNonopt, argv, firstNonopt, options);
      ghost var b := argv[..];
      assert temp[0..0 + nonopts] == temp[..];
      Copy(temp, 0, argv, firstNonopt + options, nonopts);
      Rotated(a, b, temp[..], argv[..], firstNonopt, lastNonopt, optind);
      firstNonopt := firstNonopt + options;
      lastNonopt := optind;
    }

    predicate Placed(argv: array<string>)
      reads this
    {
      1 <= firstNonopt <= lastNonopt <= optind <= argv.Length
    }

    /** PERMUTE only: brings the pending options forward and skips the non-options after them. */
    method SkipNonOptions(argv: array<string>, cfg: Config, ghost o: seq<string>, ghost log: seq<Event>)
      requires Placed(argv) && AtElement(cfg, o, argv[..], firstNonopt, lastNonopt, optind, log)
      modifies this`optind, this`firstNonopt, this`lastNonopt, argv
      ensures Placed(argv) && AtElement(cfg, o, argv[..], firstNonopt, lastNonopt, optind, log)
      ensures lastNonopt == optind && (optind < argv.Length ==> !NonOption(cfg, argv[optind]))
    {
      hide AtElement, NonOption;
      ghost var a := argv[..];
      if firstNonopt != lastNonopt && lastNonopt != optind {
        ghost var f, l := firstNonopt, lastNonopt;
        Exchange(argv);
        KeptByExchange(cfg, o, a, argv[..], f, l, optind, log);
      } else if lastNonopt != optind {
        KeptWithoutGap(cfg, o, a, firstNonopt, optind, log);
        firstNonopt := optind;
      }
      a := argv[..];
      while optind < argv.Length && NonOption(cfg, argv[optind])
        invariant 1 <= firstNonopt <= optind <= argv.Length && argv[..] == a
        invariant AtElement(cfg, o, a, firstNonopt, optind, optind, log)
      {
        KeptBySkip(cfg, o, a, firstNonopt, optind, log);
        optind := optind + 1;
      }
      lastNonopt := optind;
    }

    /** Moves on to the next element to decode. In PERMUTE mode every call arrives at an option or at the end. */
    method NextElement(argv: array<string>, cfg: Config, ghost o: seq<string>, ghost log: seq<Event>) returns (arrival: Arrival)
      requires argv.Length >= 1 && Placed(argv)
      requires ordering == Permute ==> AtElement(cfg, o, argv[..], firstNonopt, lastNonopt, optind, log)
      requires ordering != Permute ==> firstNonopt == lastNonopt
      modifies this`optind, this`firstNonopt, this`lastNonopt, this`optarg, this`nextchar, argv
      ensures ordering != Permute ==> argv[..] == old(argv[..]) && (arrival != AtEnd ==> firstNonopt == lastNonopt)
      ensures arrival != AtEnd ==> Placed(argv)
      ensures arrival != AtOption ==> nextchar == old(nextchar)
      ensures arrival == AtEnd && ordering == Permute ==> Finished(cfg, o, argv[..], optind, log)
      ensures arrival == AtNonOption ==>
        && ordering == ReturnInOrder
        && old(optind) < argv.Length && NonOption(cfg, argv[old(optind)]) && argv[old(optind)] != "--"
        && optarg == Some(argv[old(optind)]) && optind == old(optind) + 1
      ensures arrival == AtStop ==>
        && ordering == RequireOrder && optind == old(optind)
        && optind < argv.Length && NonOption(cfg, argv[optind]) && argv[optind] != "--"
      ensures arrival == AtEnd && ordering != Permute ==>
        if old(optind) == argv.Length then optind == old(optind)
        else argv[old(optind)] == "--" && optind == old(optind) + 1
      ensures arrival == AtOption ==>
        && optind < argv.Length && OptionElement(cfg, argv[optind]) && Decodable(cfg, argv[optind], nextchar)
        && optarg == old(optarg)
        && |argv[optind]| >= 2 && nextchar == StartText(cfg, argv[optind])
        && (ordering != Permute ==> optind == old(optind))
        && (ordering == Permute ==> InElement(cfg, o, argv[..], firstNonopt, lastNonopt, optind, nextchar, log))
    {
      hide AtElement, NonOption, Finished, Accounted;
      if ordering == Permute {
        SkipNonOptions(argv, cfg, o, log);
      }
      ghost var a, f, opt := argv[..], firstNonopt, optind;
      if optind != argv.Length && argv[optind] == "--" {
        optind := optind + 1;
        if firstNonopt != lastNonopt && lastNonopt != optind {
          Exchange(argv);
        } else if firstNonopt == lastNonopt {
          firstNonopt := optind;
        }
        if ordering == Permute {
          assert argv[..] == a[..f] + a[opt..opt + 1] + a[f..opt] + a[opt + 1..];
          FinishedAtDash(cfg, o, a, argv[..], f, opt, log);
        }
        lastNonopt := argv.Length;
        optind := argv.Length;
      } else if optind == argv.Length && ordering == Permute {
        FinishedAtEnd(cfg, o, a, firstNonopt, log);
      }
      if optind == argv.Length {
        if firstNonopt != lastNonopt {
          optind := firstNonopt;
        }
        return AtEnd;
      }
      if NonOption(cfg, argv[optind]) {
        if ordering == RequireOrder {
          return AtStop;
        }
        optarg := Some(argv[optind]);
        optind := optind + 1;
        return AtNonOption;
      }
      OptionElementText(cfg, argv[optind]);
      if ordering == Permute {
        EnterElement(cfg, o, a, firstNonopt, optind, log);
      }
      nextchar := StartText(cfg, argv[optind]);
      arrival := AtOption;
    }

    /** The search of the long option table. */
    method FindLong(opts: seq<LongOption>, name: string) returns (pfound: Option<nat>, exact: bool, ambig: bool)
      ensures pfound.Some? ==> pfound.value < |opts|
      ensures LongLookup(opts, name, 0, None, false) ==
        if pfound.None? then NotFound else if ambig && !exact then Ambiguous else Found(pfound.value)
    {
      pfound, exact, ambig := None, false, false;
      var i := 0;
      while i < |opts|
        invariant 0 <= i <= |opts| && !exact
        invariant pfound.Some? ==> pfound.value < i
        invariant LongLookup(opts, name, 0, None, false) == LongLookup(opts, name, i, pfound, ambig)
      {
        if name <= opts[i].name {
          if |name| == |opts[i].name| {
            pfound, exact := Some(i), true;
            return;
          } else if pfound.None? {
            pfound := Some(i);
          } else {
            ambig := true;
          }
        }
        i := i + 1;
      }
    }

    /** The long option branch; None when the element is to be read as short options after all. */
    method DecodeLong(argv: array<string>, cfg: Config) returns (code: Option<int>)
      requires 0 <= optind < argv.Length && |argv[optind]| >= 2 && LongForm(cfg, argv[optind])
      requires optarg == None && longind == None
      modifies this`optind, this`nextchar, this`optarg, this`longind
      ensures var st := LongStep(cfg, argv[old(optind)], old(nextchar), Next(argv[old(optind)..]));
              && (code.None? <==> st.None?)
              && (st.None? ==> optind == old(optind) && nextchar == old(nextchar) && optarg == None && longind == None)
              && (st.Some? ==> Event(code.value, optarg, longind) == st.value.event && nextchar == st.value.left
                               && optind == old(optind) + (if st.value.took then 2 else 1))
    {
      hide LongLookup;
      var n := NameLength(nextchar);
      var pfound, exact, ambig := FindLong(cfg.longopts.value, nextchar[..n]);
      if ambig && !exact && pfound.Some? {
        nextchar := "";
        optind := optind + 1;
        return Some(QUESTION);
      }
      if pfound.Some? {
        var p := cfg.longopts.value[pfound.value];
        optind := optind + 1;
        if n < |nextchar| {
          if p.hasArg != 0 {
            optarg := Some(nextchar[n + 1..]);
          } else {
            nextchar := "";
            return Some(QUESTION);
          }
        } else if p.hasArg == 1 {
          if optind < argv.Length {
            optarg := Some(argv[optind]);
            optind := optind + 1;
          } else {
            nextchar := "";
            return Some(QUESTION);
          }
        }
        nextchar := "";
        longind := pfound;
        return Some(if p.flag then 0 else p.val);
      }
      if !cfg.longOnly || argv[optind][1] == '-' || argv[optind][0] == '+' || nextchar == "" || nextchar[0] !in cfg.optstring {
        nextchar := "";
        optind := optind + 1;
        return Some(QUESTION);
      }
      code := None;
    }

    /** The next option character. */
    method DecodeShort(argv: array<string>, cfg: Config) returns (code: int)
      requires 0 <= optind < argv.Length && nextchar != "" && optarg == None && longind == None
      modifies this`optind, this`nextchar, this`optarg
      ensures var st := ShortStep(cfg, old(nextchar), Next(argv[old(optind)..]));
              && Event(code, optarg, longind) == st.event && nextchar == st.left
              && optind == old(optind) + (if st.left != "" then 0 else if st.took then 2 else 1)
    {
      var c := nextchar[0];
      nextchar := nextchar[1..];
      var o := cfg.optstring;
      var temp := IndexOf(o, c);
      code := c as int;
      if nextchar == "" {
        optind := optind + 1;
      }
      if temp == |o| || c == ':' {
        return QUESTION;
      }
      if temp + 1 < |o| && o[temp + 1] == ':' {
        if temp + 2 < |o| && o[temp + 2] == ':' {
          if nextchar != "" {
            optarg := Some(nextchar);
            optind := optind + 1;
          } else {
            optarg := None;
          }
          nextchar := "";
        } else {
          if nextchar != "" {
            optarg := Some(nextchar);
            optind := optind + 1;
          } else if optind == argv.Length {
            code := QUESTION;
          } else {
            optarg := Some(argv[optind]);
            optind := optind + 1;
          }
          nextchar := "";
        }
      }
    }

    /** One option out of the current element. */
    method Decode(argv: array<string>, cfg: Config) returns (code: int)
      requires 0 <= optind < argv.Length && Decodable(cfg, argv[optind], nextchar)
      requires optarg == None && longind == None
      modifies this`optind, this`nextchar, this`optarg, this`longind
      ensures var st := OneStep(cfg, argv[old(optind)], old(nextchar), Next(argv[old(optind)..]));
              && Event(code, optarg, longind) == st.event && nextchar == st.left
              && optind == old(optind) + (if st.left != "" then 0 else if st.took then 2 else 1)
    {
      hide ShortStep, LongStep;
      if LongForm(cfg, argv[optind]) {
        var long := DecodeLong(argv, cfg);
        if long.Some? {
          return long.value;
        }
      }
      code := DecodeShort(argv, cfg);
    }

    /** What holds between two calls, for the arguments the first call was given and the options returned since. */
    ghost predicate Ready(argv: array<string>, cfg: Config, o: seq<string>, log: seq<Event>)
      reads this, argv
    {
      && Placed(argv)
      && (nextchar != "" ==> optind < argv.Length && OptionElement(cfg, argv[optind]))
      && (ordering != Permute ==> firstNonopt == lastNonopt)
      && (ordering == Permute ==>
            if nextchar == "" then AtElement(cfg, o, argv[..], firstNonopt, lastNonopt, optind, log)
            else InElement(cfg, o, argv[..], firstNonopt, lastNonopt, optind, nextchar, log))
    }

    /** The first call: where to start, and how to treat non-options. */
    method Start(cfg0: Config, posixlyCorrect: bool) returns (cfg: Config)
      modifies this`firstNonopt, this`lastNonopt, this`optind, this`nextchar, this`ordering
      ensures firstNonopt == lastNonopt == optind == 1 && nextchar == ""
      ensures cfg == if Prefixed(cfg0.optstring) then cfg0.(optstring := cfg0.optstring[1..]) else cfg0
      ensures ordering == (if Prefixed(cfg0.optstring) then (if cfg0.optstring[0] == '-' then ReturnInOrder else RequireOrder)
                           else if posixlyCorrect then RequireOrder else Permute)
    {
      firstNonopt, lastNonopt, optind := 1, 1, 1;
      nextchar := "";
      cfg := cfg0;
      if cfg0.optstring != "" && cfg0.optstring[0] == '-' {
        ordering := ReturnInOrder;
        cfg := cfg0.(optstring := cfg0.optstring[1..]);
      } else if cfg0.optstring != "" && cfg0.optstring[0] == '+' {
        ordering := RequireOrder;
        cfg := cfg0.(optstring := cfg0.optstring[1..]);
      } else if posixlyCorrect {
        ordering := RequireOrder;
      } else {
        ordering := Permute;
      }
    }

    /** The rest of a call, between elements or inside one. */
    method NextOption(argv: array<string>, cfg: Config, ghost o: seq<string>, ghost log: seq<Event>) returns (r: Option<Event>)
      requires argv.Length == |o| >= 1 && Ready(argv, cfg, o, log)
      requires optarg == None && longind == None
      modifies this`optind, this`optarg, this`longind, this`nextchar, this`firstNonopt, this`lastNonopt, argv
      ensures ordering != Permute ==> argv[..] == old(argv[..])
      ensures ordering != Permute ==>
        Plain(r, optind, nextchar) == PlainCall(cfg, ordering, argv[..], old(optind), old(nextchar))
      ensures r.Some? ==> Ready(argv, cfg, o, log + [r.value])
      ensures r.None? && ordering == Permute ==> Finished(cfg, o, argv[..], optind, log)
    {
      hide AtElement, InElement, Finished, OneStep, OptionElement, Decodable, NonOption;
      ghost var text := nextchar;
      if nextchar == "" {
        var arrival := NextElement(argv, cfg, o, log);
        if arrival == AtEnd || arrival == AtStop {
          return None;
        }
        if arrival == AtNonOption {
          return Some(Event(1, optarg, None));
        }
      } else {
        Midway(cfg, o, argv[..], firstNonopt, lastNonopt, optind, nextchar, log, argv[optind]);
      }
      hide PlainCall;
      PlainOption(cfg, ordering, argv[..], optind, text);
      if ordering == Permute {
        KeptByStep(cfg, o, argv[..], firstNonopt, lastNonopt, optind, nextchar, log);
      }
      var code := Decode(argv, cfg);
      r := Some(Event(code, optarg, longind));
    }

    /** _getopt_internal, with None for EOF; cfg is the configuration after the prefix of optstring is taken off, which
        only the first call does. A first call finds optind 0 and chooses the ordering. */
    method GetOptInternal(argv: array<string>, cfg0: Config, posixlyCorrect: bool, ghost o: seq<string>, ghost log: seq<Event>)
      returns (r: Option<Event>, ghost cfg: Config)
      requires argv.Length == |o| >= 1
      requires optind == 0 ==> o == argv[..] && log == []
      requires optind != 0 ==> Ready(argv, cfg0, o, log)
      modifies this, argv
      ensures cfg == if old(optind) == 0 && Prefixed(cfg0.optstring) then cfg0.(optstring := cfg0.optstring[1..]) else cfg0
      ensures old(optind) != 0 ==> ordering == old(ordering)
      ensures old(optind) == 0 ==>
        ordering == (if Prefixed(cfg0.optstring) then (if cfg0.optstring[0] == '-' then ReturnInOrder else RequireOrder)
                     else if posixlyCorrect then RequireOrder else Permute)
      ensures ordering != Permute ==> argv[..] == old(argv[..])
      ensures ordering != Permute ==>
        Plain(r, optind, nextchar) ==
        if old(optind) == 0 then PlainCall(cfg, ordering, argv[..], 1, "")
        else PlainCall(cfg, ordering, argv[..], old(optind), old(nextchar))
      ensures r.Some? ==> Ready(argv, cfg0, o, log + [r.value]) && optind != 0
      ensures r.None? && ordering == Permute ==> Finished(cfg0, o, argv[..], optind, log)
    {
      hide AtElement, InElement, Finished, OptionElement, PlainCall;
      var options := cfg0;
      optarg, longind := None, None;
      if optind == 0 {
        options := Start(cfg0, posixlyCorrect);
        StartAtElement(cfg0, o);
      }
      cfg := options;
      r := NextOption(argv, options, o, log);
      if r.Some? && nextchar != "" && optind < argv.Length {
        OptstringAside(cfg0, options.optstring, argv[optind]);
      }
    }
  }

  lemma Midway(cfg: Config, o: seq<string>, a: seq<string>, first: int, last: int, opt: int, text: string, log: seq<Event>, e: string)
    requires text != "" && OptionElement(cfg, e)
    ensures Decodable(cfg, e, text)
  {
  }

  /** An optstring that starts by choosing an ordering. */
  predicate Prefixed(optstring: string) {
    optstring != "" && (optstring[0] == '-' || optstring[0] == '+')
  }

  datatype Arrival = AtEnd | AtStop | AtNonOption | AtOption

  /** The sequence s with `block` written over it from t on. */
  function Overlaid(s: seq<string>, t: nat, block: seq<string>): (r: seq<string>)
    requires t + |block| <= |s|
    ensures |r| == |s|
  {
    s[..t] + block + s[t + |block|..]
  }

  lemma OverlaidAll(s: seq<string>, block: seq<string>)
    requires |block| == |s|
    ensures Overlaid(s, 0, block) == block
  {
  }

  lemma Rotated(a: seq<string>, b: seq<string>, temp: seq<string>, c: seq<string>, f: nat, l: nat, o: nat)
    requires f <= l <= o <= |a|
    requires temp == a[f..l] && b == Overlaid(a, f, a[l..o]) && c == Overlaid(b, f + (o - l), temp)
    ensures c == a[..f] + a[l..o] + a[f..l] + a[o..]
  {
    assert b[..f + (o - l)] == a[..f] + a[l..o];
    assert b[o..] == a[o..];
  }

  lemma OverlaidNone(s: seq<string>, t: nat)
    requires t <= |s|
    ensures Overlaid(s, t, []) == s
  {
  }

  lemma OverlaidNext(s: seq<string>, t: nat, from: seq<string>, f: nat, i: nat)
    requires f + i < |from| && t + i < |s|
    ensures Overlaid(s, t, from[f..f + i + 1]) == Overlaid(s, t, from[f..f + i])[t + i := from[f + i]]
  {
  }

  /** my_bcopy: ascending, so a block may be moved down over itself. */
  method Copy(from: array<string>, f: nat, to: array<string>, t: nat, size: nat)
    requires f + size <= from.Length && t + size <= to.Length
    requires from == to ==> t <= f
    modifies to
    ensures to[..] == Overlaid(old(to[..]), t, old(from[f..f + size]))
  {
    hide Overlaid;
    OverlaidNone(to[..], t);
    var i := 0;
    assert from[f..f + i] == [];
    while i < size
      invariant 0 <= i <= size
      invariant forall k :: t + i <= k < to.Length ==> to[k] == old(to[k])
      invariant to[..] == Overlaid(old(to[..]), t, old(from[f..f + i]))
    {
      ghost var before := to[..];
      to[t + i] := from[f + i];
      assert to[..] == before[t + i := old(from[f + i])];
      OverlaidNext(old(to[..]), t, old(from[..]), f, i);
      i := i + 1;
    }
  }

  /** The log of a run never outgrows what the scan returns. */
  lemma LogBounded(s: Scanner, argv: array<string>, cfg: Config, o: seq<string>, log: seq<Event>)
    requires s.Ready(argv, cfg, o, log) && s.ordering == Permute
    ensures |o| >= 1 && |log| <= |Scan(cfg, o[1..]).events|
  {
  }

  /** Between any two calls argv is a permutation of the original arguments. */
  lemma CallsPermute(s: Scanner, argv: array<string>, cfg: Config, o: seq<string>, log: seq<Event>)
    requires s.Ready(argv, cfg, o, log) && s.ordering == Permute
    ensures multiset(argv[..]) == multiset(o)
  {
    var a := argv[..];
    hide Scan, ScanFrom;
    if s.nextchar == "" {
      ScanPermutes(cfg, a[s.optind..]);
      SortedOutPermutes(cfg, o, a, s.firstNonopt, s.lastNonopt, s.optind, log, Scan(cfg, a[s.optind..]));
    } else {
      ScanFromPermutes(cfg, s.nextchar, a[s.optind..]);
      SortedOutPermutes(cfg, o, a, s.firstNonopt, s.lastNonopt, s.optind, log, ScanFrom(cfg, s.nextchar, a[s.optind..]));
    }
  }

  lemma SortedOutPermutes(cfg: Config, o: seq<string>, a: seq<string>, first: int, last: int, opt: int, log: seq<Event>, r: Scanned)
    requires Shape(o, a, first, last, opt) && Accounted(cfg, o, a, first, last, opt, log, r)
    requires multiset(r.consumed + r.rest) == multiset(a[opt..])
    ensures multiset(a) == multiset(o)
  {
    hide Scan;
    ScanPermutes(cfg, o[1..]);
    assert o == [o[0]] + o[1..];
    assert a == [a[0]] + a[1..first] + a[first..last] + a[last..opt] + a[opt..];
  }

  /** A whole run in PERMUTE mode: calls until EOF. It ends, returns the options of the scan, and leaves argv
      with the options first and the other elements after them, both in their original order. */
  method Run(argv: array<string>, cfg: Config) returns (s: Scanner, log: seq<Event>)
    requires argv.Length >= 1
    requires cfg.optstring == "" || (cfg.optstring[0] != '-' && cfg.optstring[0] != '+')
    modifies argv
    ensures var scan := Scan(cfg, old(argv[1..]));
            && log == scan.events
            && s.optind == 1 + |scan.consumed| <= argv.Length
            && argv[0] == old(argv[0])
            && argv[1..s.optind] == scan.consumed
            && argv[s.optind..] == scan.rest
    ensures multiset(argv[..]) == multiset(old(argv[..]))
  {
    hide Scan, Finished;
    ghost var o := argv[..];
    assert o[1..] == old(argv[1..]);
    s := new Scanner();
    log := [];
    var r;
    ghost var c;
    r, c := s.GetOptInternal(argv, cfg, false, o, log);
    while r.Some?
      invariant fresh(s) && s.ordering == Permute
      invariant r.Some? ==> s.Ready(argv, cfg, o, log + [r.value]) && s.optind != 0
      invariant r.None? ==> Finished(cfg, o, argv[..], s.optind, log)
      decreases |Scan(cfg, o[1..]).events| - |log|, r.Some?
    {
      log := log + [r.value];
      LogBounded(s, argv, cfg, o, log);
      r, c := s.GetOptInternal(argv, cfg, false, o, log);
      if r.Some? {
        LogBounded(s, argv, cfg, o, log + [r.value]);
      }
    }
    RunResult(cfg, o, argv[..], s.optind, log);
    assert argv[1..s.optind] == argv[..][1..s.optind] && argv[s.optind..] == argv[..][s.optind..];
  }

  lemma RunResult(cfg: Config, o: seq<string>, a: seq<string>, opt: int, log: seq<Event>)
    requires |o| >= 1 && Finished(cfg, o, a, opt, log)
    ensures var scan := Scan(cfg, o[1..]);
            && opt == 1 + |scan.consumed| <= |a| && a[0] == o[0]
            && a[1..opt] == scan.consumed && a[opt..] == scan.rest && log == scan.events
    ensures multiset(a) == multiset(o)
  {
    hide Scan;
    var scan := Scan(cfg, o[1..]);
    ScanPermutes(cfg, o[1..]);
    assert a == [o[0]] + (scan.consumed + scan.rest);
    assert o == [o[0]] + o[1..];
  }
}
