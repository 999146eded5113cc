/** What a list of arguments means to getopt: a plain left-to-right scan that moves nothing. */
module OptionScan {
  import opened ZicArith

  datatype LongOption = LongOption(name: string, hasArg: int, flag: bool, val: int)

  datatype Config = Config(optstring: string, longopts: Option<seq<LongOption>>, longOnly: bool)

  /** One value returned to the caller, with optarg and the index of a long option. */
  datatype Event = Event(code: int, arg: Option<string>, longind: Option<nat>)

  datatype Step = Step(event: Event, left: string, took: bool)

  const QUESTION := '?' as int

  /** An element that getopt skips or hands back: not introduced by '-', or by '+' when there are long options. */
  predicate NonOption(cfg: Config, e: string) {
    (e == "" || e[0] != '-' || |e| == 1) && (cfg.longopts == None || e == "" || e[0] != '+' || |e| == 1)
  }

  /** Where the decoding of an option element starts. */
  function StartText(cfg: Config, e: string): string
    requires |e| >= 2
  {
    if cfg.longopts.Some? && e[1] == '-' then e[2..] else e[1..]
  }

  predicate LongForm(cfg: Config, e: string)
    requires |e| >= 2
  {
    cfg.longopts.Some? && ((e[0] == '-' && (e[1] == '-' || cfg.longOnly)) || e[0] == '+')
  }

  /** The index of a character, as strchr finds it. */
  function IndexOf(s: string, c: char): (i: nat)
    ensures i <= |s|
    ensures i < |s| ==> s[i] == c
    ensures c !in s[..i]
  {
    if s == "" || s[0] == c then 0 else
      var i := 1 + IndexOf(s[1..], c);
      assert s[..i] == [s[0]] + s[1..][..i - 1];
      i
  }

  datatype Lookup = Found(index: nat) | Ambiguous | NotFound

  /** The table search: an exact match ends it, a second inexact match makes the name ambiguous. */
  function LongLookup(opts: seq<LongOption>, name: string, i: nat, found: Option<nat>, ambig: bool): (r: Lookup)
    requires i <= |opts| && (found.Some? ==> found.value < |opts|)
    ensures r.Found? ==> r.index < |opts|
    decreases |opts| - i
  {
    if i == |opts| then if found.None? then NotFound else if ambig then Ambiguous else Found(found.value)
    else if name <= opts[i].name then
      if |name| == |opts[i].name| then Found(i)
      else if found.None? then LongLookup(opts, name, i + 1, Some(i), ambig)
      else LongLookup(opts, name, i + 1, found, true)
    else LongLookup(opts, name, i + 1, found, ambig)
  }

  predicate IsFirstExact(opts: seq<LongOption>, name: string, k: nat) {
    k < |opts| && opts[k].name == name && forall j :: 0 <= j < k ==> opts[j].name != name
  }

  predicate IsOnlyAbbreviated(opts: seq<LongOption>, name: string, k: nat) {
    k < |opts| && name <= opts[k].name && forall j :: 0 <= j < |opts| && name <= opts[j].name ==> j == k
  }

  predicate NoExact(opts: seq<LongOption>, name: string) {
    forall j :: 0 <= j < |opts| ==> opts[j].name != name
  }

  predicate NoneBegins(opts: seq<LongOption>, name: string) {
    forall j :: 0 <= j < |opts| ==> !(name <= opts[j].name)
  }

  predicate TwoBegin(opts: seq<LongOption>, name: string) {
    exists a, b :: 0 <= a < b < |opts| && name <= opts[a].name && name <= opts[b].name
  }

  /** An exact name wins over abbreviations; otherwise the abbreviation must be unique. */
  lemma LookupMeaning(opts: seq<LongOption>, name: string, k: nat)
    ensures LongLookup(opts, name, 0, None, false) == Found(k) <==>
      || IsFirstExact(opts, name, k)
      || (NoExact(opts, name) && IsOnlyAbbreviated(opts, name, k))
    ensures LongLookup(opts, name, 0, None, false) == NotFound <==> NoneBegins(opts, name)
  {
    LookupFrom(opts, name, 0, None, false);
  }

  lemma {:induction false} LookupFrom(opts: seq<LongOption>, name: string, i: nat, found: Option<nat>, ambig: bool)
    requires i <= |opts|
    requires forall j :: 0 <= j < i ==> opts[j].name != name
    requires found == None ==> !ambig && forall j :: 0 <= j < i ==> !(name <= opts[j].name)
    requires found.Some? ==> found.value < i && name <= opts[found.value].name
    requires found.Some? && !ambig ==> forall j :: 0 <= j < i && name <= opts[j].name ==> j == found.value
    requires ambig ==> exists j :: 0 <= j < i && name <= opts[j].name && j != found.value
    ensures var r := LongLookup(opts, name, i, found, ambig);
            && (r.Found? ==> IsFirstExact(opts, name, r.index) || (NoExact(opts, name) && IsOnlyAbbreviated(opts, name, r.index)))
            && (r.NotFound? ==> NoneBegins(opts, name))
            && (r.Ambiguous? ==> NoExact(opts, name) && TwoBegin(opts, name))
    decreases |opts| - i
  {
    if i < |opts| {
      if name <= opts[i].name {
        if |name| == |opts[i].name| {
          assert opts[i].name == name;
        } else if found.None? {
          LookupFrom(opts, name, i + 1, Some(i), ambig);
        } else {
          LookupFrom(opts, name, i + 1, found, true);
        }
      } else {
        LookupFrom(opts, name, i + 1, found, ambig);
      }
    }
  }

  /** The name part of a long option: up to an equals sign. */
  function NameLength(text: string): nat {
    IndexOf(text, '=')
  }

  /** A long option, or None when the text is to be read as short options. */
  function LongStep(cfg: Config, e: string, text: string, next: Option<string>): (r: Option<Step>)
    requires |e| >= 2 && LongForm(cfg, e)
    ensures r.Some? ==> r.value.left == "" && (r.value.took ==> next.Some?)
    ensures r.None? ==> text != "" && e[0] != '+'
  {
    var n := NameLength(text);
    match LongLookup(cfg.longopts.value, text[..n], 0, None, false)
    case Ambiguous => Some(Step(Event(QUESTION, None, None), "", false))
    case Found(i) =>
      var p := cfg.longopts.value[i];
      var code := if p.flag then 0 else p.val;
      if n < |text| then
        if p.hasArg != 0 then Some(Step(Event(code, Some(text[n + 1..]), Some(i)), "", false))
        else Some(Step(Event(QUESTION, None, None), "", false))
      else if p.hasArg == 1 then
        if next.Some? then Some(Step(Event(code, next, Some(i)), "", true))
        else Some(Step(Event(QUESTION, None, None), "", false))
      else Some(Step(Event(code, None, Some(i)), "", false))
    case NotFound =>
      if !cfg.longOnly || e[1] == '-' || e[0] == '+' || text == "" || text[0] !in cfg.optstring
      then Some(Step(Event(QUESTION, None, None), "", false))
      else None
  }

  /** One option character. */
  function ShortStep(cfg: Config, text: string, next: Option<string>): (r: Step)
    requires text != ""
    ensures |r.left| < |text| && (r.took ==> r.left == "" && next.Some?)
  {
    var c, rest := text[0], text[1..];
    var o := cfg.optstring;
    var i := IndexOf(o, c);
    if i == |o| || c == ':' then Step(Event(QUESTION, None, None), rest, false)
    else if i + 1 < |o| && o[i + 1] == ':' then
      if i + 2 < |o| && o[i + 2] == ':' then Step(Event(c as int, if rest != "" then Some(rest) else None, None), "", false)
      else if rest != "" then Step(Event(c as int, Some(rest), None), "", false)
      else if next.None? then Step(Event(QUESTION, None, None), "", false)
      else Step(Event(c as int, next, None), "", true)
    else Step(Event(c as int, None, None), rest, false)
  }

  function OneStep(cfg: Config, e: string, text: string, next: Option<string>): (r: Step)
    requires |e| >= 2 && (text == "" ==> e[0] == '+' && cfg.longopts.Some?)
    ensures r.left == "" || |r.left| < |text|
    ensures r.took ==> r.left == "" && next.Some?
  {
    if LongForm(cfg, e) then
      var long := LongStep(cfg, e, text, next);
      if long.Some? then long.value else ShortStep(cfg, text, next)
    else ShortStep(cfg, text, next)
  }

  /** All the steps of one element, from `text` on; whether the next element was taken as an argument. */
  function Element(cfg: Config, e: string, text: string, next: Option<string>): (r: (seq<Event>, bool))
    requires |e| >= 2 && (text == "" ==> e[0] == '+' && cfg.longopts.Some?)
    ensures r.0 != [] && (r.1 ==> next.Some?)
    decreases |text|
  {
    var st := OneStep(cfg, e, text, next);
    if st.left == "" then ([st.event], st.took)
    else
      var more := Element(cfg, e, st.left, next);
      ([st.event] + more.0, more.1)
  }

  /** The options with their arguments (and a closing "--"), the other elements, and what is returned. */
  datatype Scanned = Scanned(consumed: seq<string>, rest: seq<string>, events: seq<Event>)

  function Next(args: seq<string>): Option<string>
    requires args != []
  {
    if |args| > 1 then Some(args[1]) else None
  }

  predicate OptionElement(cfg: Config, e: string) {
    !NonOption(cfg, e) && e != "--"
  }

  lemma OptionElementText(cfg: Config, e: string)
    requires OptionElement(cfg, e)
    ensures |e| >= 2 && (StartText(cfg, e) == "" ==> e[0] == '+' && cfg.longopts.Some?)
  {
  }

  /** The scan of args whose first element is decoded from `text` on. */
  function ScanFrom(cfg: Config, text: string, args: seq<string>): Scanned
    requires args != [] && |args[0]| >= 2 && (text == "" ==> args[0][0] == '+' && cfg.longopts.Some?)
    decreases |args|, 0
  {
    var (events, took) := Element(cfg, args[0], text, Next(args));
    var w := if took then 2 else 1;
    var more := Scan(cfg, args[w..]);
    Scanned(args[..w] + more.consumed, more.rest, events + more.events)
  }

  function Scan(cfg: Config, args: seq<string>): Scanned
    decreases |args|, 1
  {
    if args == [] then Scanned([], [], [])
    else if NonOption(cfg, args[0]) then
      var more := Scan(cfg, args[1..]);
      Scanned(more.consumed, [args[0]] + more.rest, more.events)
    else if args[0] == "--" then Scanned(["--"], args[1..], [])
    else
      OptionElementText(cfg, args[0]);
      ScanFrom(cfg, StartText(cfg, args[0]), args)
  }

  lemma ScanOption(cfg: Config, args: seq<string>)
    requires args != [] && OptionElement(cfg, args[0])
    ensures |args[0]| >= 2 && (StartText(cfg, args[0]) == "" ==> args[0][0] == '+' && cfg.longopts.Some?)
    ensures var (events, took) := Element(cfg, args[0], StartText(cfg, args[0]), Next(args));
            var w := if took then 2 else 1;
            && w <= |args|
            && Scan(cfg, args).consumed == args[..w] + Scan(cfg, args[w..]).consumed
            && Scan(cfg, args).rest == Scan(cfg, args[w..]).rest
            && Scan(cfg, args).events == events + Scan(cfg, args[w..]).events
  {
    hide Element;
    OptionElementText(cfg, args[0]);
    assert Scan(cfg, args) == ScanFrom(cfg, StartText(cfg, args[0]), args);
  }

  /** The elements of args marked with the given flag, in order. */
  function Marked(args: seq<string>, mask: seq<bool>, flag: bool): seq<string>
    requires |args| == |mask|
  {
    if args == [] then []
    else (if mask[0] == flag then [args[0]] else []) + Marked(args[1..], mask[1..], flag)
  }

  lemma {:induction false} MarkedAll(args: seq<string>, flag: bool)
    ensures var mask := seq(|args|, _ => flag); Marked(args, mask, flag) == args && Marked(args, mask, !flag) == []
  {
    if args != [] {
      MarkedAll(args[1..], flag);
      assert seq(|args|, _ => flag)[1..] == seq(|args[1..]|, _ => flag);
    }
  }

  lemma MarkedFirst(args: seq<string>, flag: bool, mask: seq<bool>)
    requires args != [] && |mask| == |args| - 1
    ensures Marked(args, [flag] + mask, flag) == [args[0]] + Marked(args[1..], mask, flag)
    ensures Marked(args, [flag] + mask, !flag) == Marked(args[1..], mask, !flag)
  {
    assert ([flag] + mask)[1..] == mask;
  }

  /** The parts of a scan are the marked and the unmarked arguments. */
  predicate SplitBy(cfg: Config, args: seq<string>, mask: seq<bool>) {
    |mask| == |args|
    && Scan(cfg, args).consumed == Marked(args, mask, true) && Scan(cfg, args).rest == Marked(args, mask, false)
  }

  /** What an argument is: an option element, the argument such an element took, the "--" that ends the options, or
      one of the others. */
  datatype Role = Opt | Argument | Dashes | Other

  /** The first of args is an option element that takes the next one as its argument. */
  predicate TakesNext(cfg: Config, args: seq<string>) {
    args != [] && OptionElement(cfg, args[0]) &&
    (OptionElementText(cfg, args[0]); Element(cfg, args[0], StartText(cfg, args[0]), Next(args)).1)
  }

  predicate RoleAt(cfg: Config, args: seq<string>, roles: seq<Role>, i: nat)
    requires i < |args| == |roles|
  {
    roles[i] ==
    if i > 0 && roles[i - 1] == Opt && TakesNext(cfg, args[i - 1..]) then Argument
    else if Dashes in roles[..i] || NonOption(cfg, args[i]) then Other
    else if args[i] == "--" then Dashes
    else Opt
  }

  predicate Labelled(cfg: Config, args: seq<string>, roles: seq<Role>) {
    |roles| == |args| && forall i :: 0 <= i < |args| ==> RoleAt(cfg, args, roles, i)
  }

  /** The roles are determined by the arguments. */
  lemma {:induction false} RolesUnique(cfg: Config, args: seq<string>, p: seq<Role>, q: seq<Role>, n: nat)
    requires Labelled(cfg, args, p) && Labelled(cfg, args, q) && n <= |args|
    ensures p[..n] == q[..n]
  {
    if n > 0 {
      hide TakesNext;
      RolesUnique(cfg, args, p, q, n - 1);
      assert RoleAt(cfg, args, p, n - 1) && RoleAt(cfg, args, q, n - 1);
      if n > 1 {
        assert p[n - 2] == p[..n - 1][n - 2] && q[n - 2] == q[..n - 1][n - 2];
      }
      assert p[..n] == p[..n - 1] + [p[n - 1]] && q[..n] == q[..n - 1] + [q[n - 1]];
    }
  }

  function MaskOf(roles: seq<Role>): (mask: seq<bool>)
    ensures |mask| == |roles|
  {
    seq(|roles|, i requires 0 <= i < |roles| => roles[i] != Other)
  }

  lemma MaskFirst(role: Role, roles: seq<Role>)
    ensures MaskOf([role] + roles) == [role != Other] + MaskOf(roles)
  {
  }

  lemma RoleShifts(cfg: Config, args: seq<string>, before: seq<Role>, roles: seq<Role>, i: nat)
    requires |args| == |before| + |roles| && i < |roles| && Dashes !in before
    requires i == 0 && before != [] && before[|before| - 1] == Opt ==> !TakesNext(cfg, args[|before| - 1..])
    requires RoleAt(cfg, args[|before|..], roles, i)
    ensures RoleAt(cfg, args, before + roles, |before| + i)
  {
    hide TakesNext;
    var b := |before|;
    var all := before + roles;
    assert all[..b + i] == before + roles[..i];
    assert args[b..][i] == args[b + i];
    if i > 0 {
      assert args[b..][i - 1..] == args[b + i - 1..];
    }
  }

  lemma LabelledAfter(cfg: Config, args: seq<string>, before: seq<Role>, roles: seq<Role>)
    requires |args| == |before| + |roles| && Dashes !in before && Labelled(cfg, args[|before|..], roles)
    requires before != [] && before[|before| - 1] == Opt ==> !TakesNext(cfg, args[|before| - 1..])
    requires forall i :: 0 <= i < |before| ==> RoleAt(cfg, args, before + roles, i)
    ensures Labelled(cfg, args, before + roles)
  {
    hide RoleAt;
    forall i | 0 <= i < |args|
      ensures RoleAt(cfg, args, before + roles, i)
    {
      if i >= |before| {
        RoleShifts(cfg, args, before, roles, i - |before|);
      }
    }
  }

  /** The scan splits the arguments in two, each part in the original order: the option elements, the arguments they
      take and the closing "--", and the others. */
  lemma {:induction false} ScanSplits(cfg: Config, args: seq<string>)
    ensures exists roles :: Labelled(cfg, args, roles) && SplitBy(cfg, args, MaskOf(roles))
    decreases |args|
  {
    if args == [] {
      assert Labelled(cfg, args, []) && SplitBy(cfg, args, MaskOf([]));
    } else {
      hide TakesNext, Labelled, SplitBy, Scan;
      if NonOption(cfg, args[0]) {
        ScanSplits(cfg, args[1..]);
        var rs :| Labelled(cfg, args[1..], rs) && SplitBy(cfg, args[1..], MaskOf(rs));
        OtherSplits(cfg, args, rs);
      } else if args[0] == "--" {
        DashesSplit(cfg, args, seq(|args| - 1, _ => Other));
      } else {
        OptionSplits(cfg, args);
      }
    }
  }

  lemma OtherSplits(cfg: Config, args: seq<string>, rs: seq<Role>)
    requires args != [] && NonOption(cfg, args[0])
    requires Labelled(cfg, args[1..], rs) && SplitBy(cfg, args[1..], MaskOf(rs))
    ensures Labelled(cfg, args, [Other] + rs) && SplitBy(cfg, args, MaskOf([Other] + rs))
  {
    hide TakesNext, Marked;
    LabelledAfter(cfg, args, [Other], rs);
    MaskFirst(Other, rs);
    MarkedFirst(args, false, MaskOf(rs));
  }

  lemma DashesSplit(cfg: Config, args: seq<string>, rs: seq<Role>)
    requires args != [] && args[0] == "--" && !NonOption(cfg, args[0])
    requires |rs| == |args| - 1 && forall i :: 0 <= i < |rs| ==> rs[i] == Other
    ensures Labelled(cfg, args, [Dashes] + rs) && SplitBy(cfg, args, MaskOf([Dashes] + rs))
  {
    hide TakesNext, Marked;
    MaskFirst(Dashes, rs);
    assert MaskOf(rs) == seq(|args[1..]|, _ => false);
    MarkedAll(args[1..], false);
    MarkedFirst(args, true, MaskOf(rs));
    AfterDashes(cfg, args, [Dashes] + rs);
  }

  lemma AfterDashes(cfg: Config, args: seq<string>, roles: seq<Role>)
    requires args != [] && args[0] == "--" && !NonOption(cfg, args[0]) && |roles| == |args|
    requires roles[0] == Dashes && forall i :: 0 < i < |roles| ==> roles[i] == Other
    ensures Labelled(cfg, args, roles)
  {
    hide TakesNext;
    forall i | 0 <= i < |args|
      ensures RoleAt(cfg, args, roles, i)
    {
      assert i > 0 ==> roles[..i][0] == Dashes;
    }
  }

  lemma {:induction false} OptionSplits(cfg: Config, args: seq<string>)
    requires args != [] && OptionElement(cfg, args[0])
    ensures exists roles :: Labelled(cfg, args, roles) && SplitBy(cfg, args, MaskOf(roles))
    decreases |args|, 0
  {
    hide TakesNext, Scan, Labelled, SplitBy, Element;
    ScanOption(cfg, args);
    var w := if TakesNext(cfg, args) then 2 else 1;
    TakesMeans(cfg, args);
    ScanSplits(cfg, args[w..]);
    var rs :| Labelled(cfg, args[w..], rs) && SplitBy(cfg, args[w..], MaskOf(rs));
    OptionLabelled(cfg, args, rs);
    if TakesNext(cfg, args) {
      PairSplits(cfg, args, rs);
    } else {
      SingleSplits(cfg, args, rs);
    }
  }

  lemma TakesMeans(cfg: Config, args: seq<string>)
    requires args != [] && OptionElement(cfg, args[0])
    ensures var w := if TakesNext(cfg, args) then 2 else 1;
            && w <= |args|
            && Scan(cfg, args).consumed == args[..w] + Scan(cfg, args[w..]).consumed
            && Scan(cfg, args).rest == Scan(cfg, args[w..]).rest
  {
    hide Scan, Element;
    ScanOption(cfg, args);
  }

  lemma SingleSplits(cfg: Config, args: seq<string>, rs: seq<Role>)
    requires args != [] && SplitBy(cfg, args[1..], MaskOf(rs))
    requires Scan(cfg, args).consumed == args[..1] + Scan(cfg, args[1..]).consumed
    requires Scan(cfg, args).rest == Scan(cfg, args[1..]).rest
    ensures SplitBy(cfg, args, MaskOf([Opt] + rs))
  {
    hide Scan, Marked;
    MaskFirst(Opt, rs);
    MarkedFirst(args, true, MaskOf(rs));
  }

  lemma PairSplits(cfg: Config, args: seq<string>, rs: seq<Role>)
    requires |args| >= 2 && SplitBy(cfg, args[2..], MaskOf(rs))
    requires Scan(cfg, args).consumed == args[..2] + Scan(cfg, args[2..]).consumed
    requires Scan(cfg, args).rest == Scan(cfg, args[2..]).rest
    ensures SplitBy(cfg, args, MaskOf([Opt, Argument] + rs))
  {
    hide Scan, Marked;
    MaskFirst(Argument, rs);
    MaskFirst(Opt, [Argument] + rs);
    assert args[1..][1..] == args[2..];
    MarkedFirst(args[1..], true, MaskOf(rs));
    MarkedFirst(args, true, [true] + MaskOf(rs));
    assert args[..2] == [args[0]] + [args[1]];
    assert [Opt] + ([Argument] + rs) == [Opt, Argument] + rs;
  }

  lemma OptionLabelled(cfg: Config, args: seq<string>, rs: seq<Role>)
    requires args != [] && OptionElement(cfg, args[0])
    requires if TakesNext(cfg, args) then |args| >= 2 && Labelled(cfg, args[2..], rs) else Labelled(cfg, args[1..], rs)
    ensures Labelled(cfg, args, (if TakesNext(cfg, args) then [Opt, Argument] else [Opt]) + rs)
  {
    hide TakesNext;
    assert args[0..] == args;
    if TakesNext(cfg, args) {
      LabelledAfter(cfg, args, [Opt, Argument], rs);
    } else {
      LabelledAfter(cfg, args, [Opt], rs);
    }
  }

  lemma {:induction false} MarkedPermutes(args: seq<string>, mask: seq<bool>)
    requires |args| == |mask|
    ensures multiset(Marked(args, mask, true)) + multiset(Marked(args, mask, false)) == multiset(args)
  {
    if args != [] {
      var x, rest, more := args[0], args[1..], mask[1..];
      MarkedPermutes(rest, more);
      assert args == [x] + rest;
      MarkedCount(args, mask, true);
      MarkedCount(args, mask, false);
      hide Marked;
      assert multiset(args) == multiset{x} + multiset(rest);
    }
  }

  lemma MarkedCount(args: seq<string>, mask: seq<bool>, flag: bool)
    requires |args| == |mask| > 0
    ensures multiset(Marked(args, mask, flag)) ==
      (if mask[0] == flag then multiset{args[0]} else multiset{}) + multiset(Marked(args[1..], mask[1..], flag))
  {
  }

  lemma ScanPermutes(cfg: Config, args: seq<string>)
    ensures multiset(Scan(cfg, args).consumed + Scan(cfg, args).rest) == multiset(args)
  {
    ScanSplits(cfg, args);
    var roles :| Labelled(cfg, args, roles) && SplitBy(cfg, args, MaskOf(roles));
    MarkedPermutes(args, MaskOf(roles));
  }

  lemma ScanFromPermutes(cfg: Config, text: string, args: seq<string>)
    requires args != [] && |args[0]| >= 2 && (text == "" ==> args[0][0] == '+' && cfg.longopts.Some?)
    ensures var r := ScanFrom(cfg, text, args); multiset(r.consumed + r.rest) == multiset(args)
  {
    hide Element, Scan;
    var (events, took) := Element(cfg, args[0], text, Next(args));
    var w := if took then 2 else 1;
    ScanPermutes(cfg, args[w..]);
    var more := Scan(cfg, args[w..]);
    assert args == args[..w] + args[w..];
    assert (args[..w] + more.consumed) + more.rest == args[..w] + (more.consumed + more.rest);
  }
}
