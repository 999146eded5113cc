/** The signal machine: a mask, a set of pending signals, and handlers that may themselves raise signals, install
    handlers and change the mask. What the program and its handlers do, and what the system delivers, is a script of
    events read one by one by whoever has control; a run whose script is used up inside a handler is cut there, so
    the finite scripts are the finite prefixes of all runs. */
module Signals {
  const NSIG := 32
  const SIGINT := 2
  const SIGQUIT := 3
  const SIGKILL := 9
  const SIGALRM := 14
  const SIGURG := 16
  const SIGCHLD := 20
  const SIGWINCH := 28

  type Sig = s: int | 0 <= s < 32

  datatype Handler = Ignore | Default | Calls(id: int)

  /** What the system has delivered when the program looks. */
  datatype Arrivals = Arrivals(alarm: bool, interrupt: bool, quit: bool, children: bool)

  const Nothing := Arrivals(false, false, false, false)

  datatype Event =
    | Raise(sig: int)
    | Kill(sig: int, arrived: Arrivals)
    | Check(arrived: Arrivals)
    | SetMask(mask: set<Sig>, arrived: Arrivals)
    | Install(sig: int, handler: Handler, arrived: Arrivals)
    | Return

  datatype Status = Live | Exited | Cut

  datatype Entry = Deferred(sig: Sig) | Taken(sig: Sig, action: Handler)

  /** One bit, or none for a number that names no signal. */
  function Bit(sig: int): set<Sig> {
    if 0 <= sig < NSIG then {sig} else {}
  }

  predicate IgnoredByDefault(sig: int)
    ensures IgnoredByDefault(sig) <==> sig in {16, 20, 28}
  {
    sig == SIGCHLD || sig == SIGURG || sig == SIGWINCH
  }

  // ---------------------------------------------------------------- what the log says

  /** The last entry about the signal deferred it. */
  predicate Owed(log: seq<Entry>, s: Sig) {
    log != [] &&
    var last := log[|log| - 1];
    if last.sig == s then last.Deferred? else Owed(log[..|log| - 1], s)
  }

  lemma OwedAppend(log: seq<Entry>, e: Entry)
    ensures forall s: Sig :: Owed(log + [e], s) <==> if e.sig == s then e.Deferred? else Owed(log, s)
  {
    assert (log + [e])[..|log|] == log;
  }

  /** Owed: deferred at some point and never taken since. */
  lemma {:induction false} OwedMeaning(log: seq<Entry>, s: Sig)
    ensures Owed(log, s) <==> exists i :: 0 <= i < |log| && log[i] == Deferred(s) && Untouched(log, i + 1, s)
  {
    if log != [] {
      var n := |log| - 1;
      var front := log[..n];
      OwedMeaning(front, s);
      if log[n].sig != s {
        forall i | 0 <= i < n
          ensures front[i] == log[i] && (Untouched(front, i + 1, s) <==> Untouched(log, i + 1, s))
        {
          assert Untouched(front, i + 1, s) ==> Untouched(log, i + 1, s) by {
            assert forall j :: i < j < n ==> log[j] == front[j];
          }
          assert Untouched(log, i + 1, s) ==> Untouched(front, i + 1, s) by {
            assert forall j :: i < j < n ==> log[j] == front[j];
          }
        }
      } else if log[n].Deferred? {
        assert log[n] == Deferred(s) && Untouched(log, n + 1, s);
      } else {
        forall i | 0 <= i < |log| && log[i] == Deferred(s)
          ensures !Untouched(log, i + 1, s)
        {
          assert i < n && log[n].sig == s;
        }
      }
    }
  }

  predicate Untouched(log: seq<Entry>, from: nat, s: Sig) {
    forall j :: from <= j < |log| ==> log[j].sig != s
  }

  /** The log from `from` on says what happened to the signal. */
  predicate Mentioned(log: seq<Entry>, from: nat, sig: int) {
    !(0 <= sig < NSIG) || !Untouched(log, from, sig)
  }

  lemma OutOfRange(log: seq<Entry>, from: nat, sig: int)
    ensures !(0 <= sig < NSIG) ==> Mentioned(log, from, sig)
  {
  }

  lemma MentionedFirst(log: seq<Entry>, longer: seq<Entry>, from: nat, e: Entry)
    requires from <= |log| && log + [e] <= longer
    ensures Mentioned(longer, from, e.sig)
  {
    assert longer[|log|] == e;
  }

  lemma MentionedStays(log: seq<Entry>, longer: seq<Entry>, from: nat, sig: int)
    requires Mentioned(log, from, sig) && log <= longer
    ensures Mentioned(longer, from, sig)
  {
    if 0 <= sig < NSIG {
      var j :| from <= j < |log| && log[j].sig == sig;
      assert longer[j].sig == sig;
    }
  }

  // ---------------------------------------------------------------- what every operation keeps

  /** A copy of the machine's state. */
  datatype Snap = Snap(mask: set<Sig>, pending: set<Sig>, script: seq<Event>, status: Status, log: seq<Entry>,
                       running: seq<Sig>, reentered: bool, meddles: nat, table: seq<Handler>, installs: nat, killed: bool)

  /** Pending and not masked: what should have been dispatched. */
  function Uncovered(a: Snap): set<Sig> {
    a.pending - a.mask
  }

  /** No signal is lost and none is made up: pending are exactly those deferred and not taken since. */
  ghost predicate Sound(a: Snap) {
    forall s: Sig :: s in a.pending <==> Owed(a.log, s)
  }

  lemma CoveredMeans(a: Snap)
    ensures Uncovered(a) == {} <==> a.pending <= a.mask
  {
    assert forall s: Sig :: s in Uncovered(a) <==> s in a.pending && s !in a.mask;
  }

  /** Every running handler's signal is masked. */
  predicate Sheltered(a: Snap) {
    forall s :: s in a.running ==> s in a.mask
  }

  /** The program ends by SIGKILL or by the default action of the signal taken last, and is cut when its script is. */
  predicate Justified(b: Snap) {
    && (b.status == Exited ==> b.killed || EndedBy(b.log))
    && (b.status == Cut ==> b.script == [])
  }

  predicate EndedBy(log: seq<Entry>) {
    log != [] && var last := log[|log| - 1]; last.Taken? && last.action == Default && !IgnoredByDefault(last.sig)
  }

  /** Somebody is going to raise SIGKILL, or to send it. */
  predicate KillAhead(script: seq<Event>) {
    exists i :: 0 <= i < |script| && (script[i].Raise? || script[i].Kill?) && script[i].sig == SIGKILL
  }

  predicate Suffix(s: seq<Event>, t: seq<Event>) {
    |t| <= |s| && t == s[|s| - |t|..]
  }

  /** The log grows, the script is used up, and an end has its reason. */
  predicate Grows(a: Snap, b: Snap) {
    && a.log <= b.log && Suffix(a.script, b.script) && Justified(b)
    && a.meddles <= b.meddles && a.installs <= b.installs
  }

  /** Handlers are installed by Install alone, and no handler does anything without using up some of the script. */
  predicate Onward(a: Snap, b: Snap) {
    && Grows(a, b)
    && (a.installs == b.installs ==> b.table == a.table)
    && (|a.script| == |b.script| && b.status == Live ==> b.installs == a.installs && b.meddles == a.meddles)
  }

  /** Nobody is killed without a SIGKILL. */
  predicate Spared(a: Snap, b: Snap) {
    b.killed ==> a.killed || KillAhead(a.script)
  }

  /** Nothing that was masked or delivered becomes pending and unmasked. */
  predicate Kept(a: Snap, b: Snap) {
    Onward(a, b) && (b.status == Live ==> b.running == a.running && Uncovered(b) <= Uncovered(a))
  }

  /** Unless a handler has set the mask since, the mask comes back exactly and no handler is entered again for its own
      signal. */
  predicate Quiet(a: Snap, b: Snap) {
    b.meddles == a.meddles ==>
      && (b.status == Live ==> b.mask == a.mask)
      && (Sheltered(a) ==> b.reentered == a.reentered)
  }

  /** The mask the next event of the program asks for. */
  function Ordered(a: Snap): set<Sig>
    requires a.script != []
  {
    if a.script[0].SetMask? then a.script[0].mask else a.mask
  }

  /** One operation of the program later, outside every handler: unless a handler has set the mask on the way, the mask
      is the one the program set last, and no handler has been entered again for its own signal. */
  predicate Follows(a: Snap, b: Snap) {
    && a.script != [] && |b.script| < |a.script|
    && a.meddles <= b.meddles
    && (b.meddles == a.meddles ==> b.mask == Ordered(a) && b.reentered == a.reentered)
  }

  predicate Steady(a: Snap, b: Snap) {
    Kept(a, b) && Quiet(a, b) && Spared(a, b)
  }

  lemma SuffixTransitive(s: seq<Event>, t: seq<Event>, u: seq<Event>)
    requires Suffix(s, t) && Suffix(t, u)
    ensures Suffix(s, u)
    ensures KillAhead(t) ==> KillAhead(s)
  {
    if KillAhead(t) {
      var i :| 0 <= i < |t| && (t[i].Raise? || t[i].Kill?) && t[i].sig == SIGKILL;
      assert s[|s| - |t| + i] == t[i];
    }
  }

  lemma OnwardTransitive(a: Snap, b: Snap, c: Snap)
    requires Onward(a, b) && b.status == Live && Onward(b, c)
    ensures Onward(a, c)
    ensures Spared(a, b) && Spared(b, c) ==> Spared(a, c)
  {
    hide Suffix, Justified, KillAhead;
    SuffixTransitive(a.script, b.script, c.script);
    SuffixShrinks(a.script, b.script);
    SuffixShrinks(b.script, c.script);
  }

  /** The first event is read, and what follows is seen from before that. */
  lemma Popped(a: Snap, b: Snap, c: Snap)
    requires a.script != [] && Grows(b, c)
    requires b == a.(script := a.script[1..], meddles := b.meddles, installs := b.installs)
    requires a.meddles <= b.meddles && a.installs <= b.installs
    ensures Grows(a, c) && |c.script| < |a.script|
    ensures Spared(b, c) ==> Spared(a, c)
    ensures (a.script[0].Raise? || a.script[0].Kill?) && a.script[0].sig == SIGKILL ==> Spared(a, c)
  {
    hide Justified, KillAhead;
    SuffixTransitive(a.script, a.script[1..], c.script);
    if (a.script[0].Raise? || a.script[0].Kill?) && a.script[0].sig == SIGKILL {
      KillFirst(a.script);
    }
  }

  lemma KillFirst(script: seq<Event>)
    requires script != [] && (script[0].Raise? || script[0].Kill?) && script[0].sig == SIGKILL
    ensures KillAhead(script)
  {
  }

  lemma GrowsTransitive(a: Snap, b: Snap, c: Snap)
    requires Grows(a, b) && Grows(b, c)
    ensures Grows(a, c)
    ensures Spared(a, b) && Spared(b, c) ==> Spared(a, c)
  {
    hide Justified, KillAhead;
    SuffixTransitive(a.script, b.script, c.script);
  }

  lemma SuffixShrinks(s: seq<Event>, t: seq<Event>)
    requires Suffix(s, t)
    ensures |t| <= |s|
  {
  }

  lemma KeptTransitive(a: Snap, b: Snap, c: Snap)
    requires Steady(a, b) && b.status == Live && Kept(b, c) && Quiet(b, c)
    ensures Kept(a, c) && Quiet(a, c) && (Spared(b, c) ==> Spared(a, c))
  {
    OnwardTransitive(a, b, c);
    hide Suffix, Justified, KillAhead;
  }

  lemma SteadyTransitive(a: Snap, b: Snap, c: Snap)
    requires Steady(a, b) && b.status == Live && Steady(b, c)
    ensures Steady(a, c)
  {
    OnwardTransitive(a, b, c);
    hide Suffix, Justified, KillAhead;
  }

  lemma EasySteady(a: Snap, sig: Sig)
    requires a.status == Live
    ensures Steady(a, a) && Kept(a, a.(status := Exited, killed := true)) && Quiet(a, a.(status := Exited, killed := true))
    ensures sig in a.mask ==> Steady(a, a.(pending := a.pending + {sig}, log := a.log + [Deferred(sig)]))
  {
  }

  lemma Disjoint(mask: set<Sig>, sig: int)
    ensures mask * Bit(sig) == {} <==> !(0 <= sig < NSIG && sig in mask)
  {
    if 0 <= sig < NSIG && sig in mask {
      assert sig in mask * Bit(sig);
    }
  }

  /** One action taken for a signal: only that signal may be left pending and unmasked. */
  predicate Round(a: Snap, b: Snap, sig: Sig) {
    && Onward(a, b) && Spared(a, b)
    && (b.status == Live ==> b.running == a.running && sig !in b.mask && Uncovered(b) <= Uncovered(a) + {sig})
    && Quiet(a, b)
  }

  lemma EasyRound(a: Snap, sig: Sig)
    requires a.status == Live && sig !in a.mask
    ensures forall fn :: Round(a, a.(pending := a.pending - {sig}, log := a.log + [Taken(sig, fn)]), sig)
    ensures !IgnoredByDefault(sig) ==>
      Round(a, a.(pending := a.pending - {sig}, log := a.log + [Taken(sig, Default)], status := Exited), sig)
  {
    forall fn
      ensures Round(a, a.(pending := a.pending - {sig}, log := a.log + [Taken(sig, fn)]), sig)
    {
      RoundTaken(a, sig, fn);
    }
  }

  lemma RoundTaken(a: Snap, sig: Sig, fn: Handler)
    requires a.status == Live && sig !in a.mask
    ensures Round(a, a.(pending := a.pending - {sig}, log := a.log + [Taken(sig, fn)]), sig)
  {
  }

  lemma RoundTransitive(a: Snap, b: Snap, c: Snap, sig: Sig)
    requires Round(a, b, sig) && b.status == Live && Round(b, c, sig)
    ensures Round(a, c, sig)
  {
    OnwardTransitive(a, b, c);
    hide Suffix, Justified, KillAhead;
  }

  lemma LastRound(a: Snap, b: Snap, sig: Sig)
    requires Round(a, b, sig) && (b.status == Live ==> sig !in b.pending)
    ensures Steady(a, b)
  {
  }

  /** Each signal the system has delivered is dealt with from some point of the log on. */
  predicate Delivered(arrived: Arrivals, log: seq<Entry>, from: nat) {
    && (arrived.alarm ==> Mentioned(log, from, SIGALRM))
    && (arrived.interrupt ==> Mentioned(log, from, SIGINT))
    && (arrived.quit ==> Mentioned(log, from, SIGQUIT))
    && (arrived.children ==> Mentioned(log, from, SIGCHLD))
  }

  lemma DeliveredStays(arrived: Arrivals, log: seq<Entry>, longer: seq<Entry>, from: nat)
    requires Delivered(arrived, log, from) && log <= longer
    ensures Delivered(arrived, longer, from)
  {
    hide Mentioned;
    forall s | Mentioned(log, from, s)
      ensures Mentioned(longer, from, s)
    {
      MentionedStays(log, longer, from, s);
    }
  }

  lemma MentionedEarlier(log: seq<Entry>, from: nat, earlier: nat, sig: int)
    requires Mentioned(log, from, sig) && earlier <= from
    ensures Mentioned(log, earlier, sig)
  {
    if 0 <= sig < NSIG {
      var j :| from <= j < |log| && log[j].sig == sig;
    }
  }

  /** What an event has done when control comes back. */
  predicate Effected(event: Event, log: seq<Entry>, from: nat, table: seq<Handler>)
  {
    match event
    case Raise(sig) => Mentioned(log, from, sig)
    case Kill(sig, arrived) => Delivered(arrived, log, from) && (sig != 0 ==> Mentioned(log, from, sig))
    case Check(arrived) => Delivered(arrived, log, from)
    case SetMask(_, arrived) => Delivered(arrived, log, from)
    case Install(sig, fn, arrived) => Delivered(arrived, log, from) && (0 <= sig < NSIG && sig < |table| ==> table[sig] == fn)
    case Return => true
  }

  lemma GrowsMasked(a: Snap, b: Snap, c: Snap)
    requires Grows(a, b) && Spared(a, b) && b.status == Live && c == b.(mask := c.mask)
    ensures Grows(a, c) && Spared(a, c)
  {
  }

  lemma TableAside(a: Snap, b: Snap, c: Snap)
    requires Grows(a, b) && Quiet(a, b) && Spared(a, b) && b.status == Live && c == b.(table := c.table)
    ensures Grows(a, c) && Quiet(a, c) && Spared(a, c)
  {
  }

  lemma ReturnKept(b: Snap)
    requires b.status == Live
    ensures Kept(b, b) && Quiet(b, b) && Spared(b, b)
  {
  }

  lemma HandlerEnds(start: Snap, a: Snap, b: Snap, c: Snap, sig: Sig)
    requires start.status == Live && Steady(a, b)
    requires a == start.(running := start.running + [sig], reentered := start.reentered || sig in start.running)
    requires if b.status != Live then c == b
             else if b.script == [] then c == b.(status := Cut)
             else c == b.(script := b.script[1..], running := b.running[..|b.running| - 1])
    ensures Handled(start, c, sig)
  {
    hide KillAhead, EndedBy;
    if b.status == Live && b.script != [] {
      SuffixTransitive(a.script, b.script, b.script[1..]);
      assert (start.running + [sig])[..|start.running|] == start.running;
    }
  }

  /** A handler runs with its own signal masked, and does not meet itself. */
  predicate Handled(a: Snap, b: Snap, sig: Sig) {
    && Kept(a, b) && Spared(a, b) && (b.status == Live ==> |b.script| < |a.script|)
    && (b.meddles == a.meddles ==>
          && (b.status == Live ==> b.mask == a.mask)
          && (Sheltered(a) && sig in a.mask && sig !in a.running ==> b.reentered == a.reentered))
  }

  lemma EndKept(a: Snap, b: Snap)
    requires Justified(a) && b == if a.status == Live then a.(mask := b.mask) else a
    ensures Justified(b)
  {
  }

  lemma HandledRound(a: Snap, entered: Snap, left: Snap, b: Snap, sig: Sig, e: Entry)
    requires sig !in a.mask
    requires entered == a.(mask := a.mask + {sig}, pending := a.pending - {sig}, log := a.log + [e])
    requires Handled(entered, left, sig)
    requires b == if left.status == Live then left.(mask := left.mask - {sig}) else left
    ensures Round(a, b, sig)
  {
    hide Justified, KillAhead, Suffix;
    assert a.log <= entered.log <= left.log;
    EndKept(left, b);
    assert (a.mask + {sig}) - {sig} == a.mask;
    if b.status == Live {
      forall s | s in Uncovered(b)
        ensures s in Uncovered(a) + {sig}
      {
        assert s != sig ==> s in Uncovered(left) && s in Uncovered(entered);
      }
    }
  }

  // ---------------------------------------------------------------- the machine

  class Machine {
    var mask: set<Sig>
    var pending: set<Sig>
    const handlers: array<Handler>
    var script: seq<Event>
    var status: Status
    ghost var log: seq<Entry>
    ghost var running: seq<Sig>
    ghost var reentered: bool
    /** How often a handler has called sigsetmask. */
    ghost var meddles: nat
    ghost var installs: nat
    ghost var killed: bool

    ghost function View(): Snap
      reads this, handlers
    {
      Snap(mask, pending, script, status, log, running, reentered, meddles, handlers[..], installs, killed)
    }

    ghost predicate Valid()
      reads this, handlers
    {
      handlers.Length == NSIG && Sound(View()) && SIGKILL !in pending
    }

    constructor (script: seq<Event>)
      ensures Valid() && fresh(handlers)
      ensures View() == Snap({}, {}, script, Live, [], [], false, 0, seq(NSIG, _ => Default), 0, false)
    {
      mask, pending, status := {}, {}, Live;
      this.script := script;
      handlers := new Handler[NSIG](_ => Default);
      log, running, reentered, meddles, installs, killed := [], [], false, 0, 0, false;
    }

    /** _sig_dispatch: defer a masked signal, otherwise do its action until it is no longer pending. */
    method Dispatch(sig: int)
      requires Valid() && status == Live
      modifies this, handlers
      decreases |script|, 4
      ensures |script| <= |old(script)| && old(log) <= log
      ensures Valid() && Kept(old(View()), View()) && Quiet(old(View()), View())
      ensures sig != SIGKILL ==> Spared(old(View()), View())
      ensures status == Live ==> sig != SIGKILL && (0 <= sig < NSIG && sig in pending ==> sig in mask)
      ensures sig == SIGKILL ==> View() == old(View()).(status := Exited, killed := true)
      ensures sig in old(mask) && sig != SIGKILL ==>
        View() == old(View()).(pending := old(pending) + {sig}, log := old(log) + [Deferred(sig)])
      ensures 0 <= sig < NSIG && sig !in old(mask) && sig != SIGKILL ==>
        && old(log) + [Taken(sig, old(handlers[sig]))] <= log
        && (old(handlers[sig]).Calls? && status == Live ==> |script| < |old(script)|)
        && (old(handlers[sig]) == Default && !IgnoredByDefault(sig) ==> status == Exited)
        && (old(handlers[sig]) == Ignore || (old(handlers[sig]) == Default && IgnoredByDefault(sig)) ==>
              && View() == old(View()).(pending := old(pending) - {sig}, log := log)
              && |log| == |old(log)| + 1)
      ensures !(0 <= sig < NSIG) ==> View() == old(View())
      ensures sig != SIGKILL ==> Mentioned(log, |old(log)|, sig)
    {
      hide Kept, Quiet, Spared, Sheltered, Owed, Mentioned, Untouched;
      ghost var a := View();
      EasySteady(a, if 0 <= sig < NSIG then sig else 0);
      Disjoint(mask, sig);
      OutOfRange(log, |log|, sig);
      var smask := Bit(sig);
      if sig == SIGKILL {
        status := Exited;
        killed := true;
        return;
      }
      if mask * smask != {} {
        OwedAppend(log, Deferred(sig));
        pending := pending + smask;
        log := log + [Deferred(sig)];
        MentionedFirst(a.log, log, |a.log|, Deferred(sig));
        return;
      }
      if 0 <= sig < NSIG {
        ghost var taken := Taken(sig, handlers[sig]);
        TakeWhilePending(sig);
        MentionedFirst(a.log, log, |a.log|, taken);
      }
    }

    /** The do-while loop of _sig_dispatch: the signal may have been raised again by its handler. */
    method TakeWhilePending(sig: Sig)
      requires Valid() && status == Live && sig !in mask && sig != SIGKILL
      modifies this, handlers
      decreases |script|, 3
      ensures |script| <= |old(script)| && old(log) <= log
      ensures Valid() && Steady(old(View()), View())
      ensures status == Live ==> sig !in pending
      ensures status == Live && old(handlers[sig]).Calls? ==> |script| < |old(script)|
      ensures old(log) + [Taken(sig, old(handlers[sig]))] <= log
      ensures old(handlers[sig]) == Default && !IgnoredByDefault(sig) ==> status == Exited
      ensures old(handlers[sig]) == Ignore || (old(handlers[sig]) == Default && IgnoredByDefault(sig)) ==>
        View() == old(View()).(pending := old(pending) - {sig}, log := old(log) + [Taken(sig, old(handlers[sig]))])
    {
      hide Round, Steady, Owed;
      ghost var a := View();
      Take(sig);
      ghost var b := View();
      while status == Live && sig in pending
        invariant Valid() && Round(a, View(), sig) && b.log <= log && (status == Live ==> sig !in mask)
        invariant sig !in b.pending || b.status != Live ==> View() == b
        decreases |script|, status == Live && sig in pending
      {
        ghost var c := View();
        Take(sig);
        RoundTransitive(a, c, View(), sig);
      }
      LastRound(a, View(), sig);
    }

    /** One turn of that loop. */
    method Take(sig: Sig)
      requires Valid() && status == Live && sig !in mask && sig != SIGKILL
      modifies this, handlers
      decreases |script|, 2
      ensures |script| <= |old(script)| && old(log) <= log
      ensures Valid() && Round(old(View()), View(), sig) && (status == Live ==> sig !in mask)
      ensures old(log) + [Taken(sig, old(handlers[sig]))] <= log
      ensures old(handlers[sig]) == Default && !IgnoredByDefault(sig) ==> status == Exited
      ensures old(handlers[sig]) == Ignore || (old(handlers[sig]) == Default && IgnoredByDefault(sig)) ==>
        View() == old(View()).(pending := old(pending) - {sig}, log := old(log) + [Taken(sig, old(handlers[sig]))])
      ensures status == Live && (old(handlers[sig]).Calls? || sig in pending) ==> |script| < |old(script)|
    {
      hide Owed, Onward, Quiet, Spared, Handled, Round;
      ghost var a := View();
      EasyRound(a, sig);
      pending := pending - {sig};
      var fn := handlers[sig];
      OwedAppend(log, Taken(sig, fn));
      log := log + [Taken(sig, fn)];
      if fn == Default {
        if !IgnoredByDefault(sig) {
          status := Exited;
        }
      } else if fn != Ignore {
        mask := mask + {sig};
        ghost var entered := View();
        CallHandler(sig);
        ghost var left := View();
        if status == Live {
          mask := mask - {sig};
        }
        HandledRound(a, entered, left, View(), sig, Taken(sig, fn));
      }
    }

    /** A handler in control: it does what the script says until it returns. */
    method CallHandler(sig: Sig)
      requires Valid() && status == Live
      modifies this, handlers
      decreases |script|, 1
      ensures Valid() && Handled(old(View()), View(), sig)
      ensures old(log) <= log && |script| <= |old(script)| && (status == Live ==> |script| < |old(script)|)
    {
      hide Grows, Owed, KillAhead;
      ghost var start := View();
      reentered := reentered || sig in running;
      running := running + [sig];
      ghost var a := View();
      EasySteady(a, 0);
      while script != [] && script[0] != Return
        invariant Valid() && status == Live && Steady(a, View())
        invariant a.log <= log && |script| <= |a.script|
        decreases |script|
      {
        ghost var b := View();
        Step();
        SteadyTransitive(a, b, View());
        if status != Live {
          HandlerEnds(start, a, View(), View(), sig);
          return;
        }
      }
      ghost var b := View();
      if script == [] {
        status := Cut;
      } else {
        script := script[1..];
        running := running[..|running| - 1];
      }
      HandlerEnds(start, a, b, View(), sig);
    }

    /** _handle_signals: dispatch what the system has delivered, in this order. */
    method HandleSignals(arrived: Arrivals) returns (signaled: bool)
      requires Valid() && status == Live
      modifies this, handlers
      decreases |script|, 6
      ensures |script| <= |old(script)| && old(log) <= log
      ensures Valid() && Steady(old(View()), View())
      ensures status == Live ==>
        (signaled <==> arrived.alarm || arrived.interrupt || arrived.quit || arrived.children)
      ensures status == Live ==> Delivered(arrived, log, |old(log)|)
      ensures arrived == Nothing ==> View() == old(View())
    {
      hide Kept, Quiet, Spared, Owed, Mentioned;
      signaled := false;
      ghost var a := View();
      EasySteady(a, 0);
      if arrived.alarm {
        signaled := true;
        DispatchAfter(a, SIGALRM);
      }
      if status == Live && arrived.interrupt {
        signaled := true;
        DispatchAfter(a, SIGINT);
      }
      if status == Live && arrived.quit {
        signaled := true;
        DispatchAfter(a, SIGQUIT);
      }
      if status == Live && arrived.children {
        signaled := true;
        DispatchAfter(a, SIGCHLD);
      }
    }

    /** One dispatch more since state a; what the log already said it still says. */
    method DispatchAfter(ghost a: Snap, sig: int)
      requires Valid() && status == Live && Steady(a, View()) && a.log <= log
      modifies this, handlers
      decreases |script|, 5
      ensures a.log <= log
      ensures Valid() && Kept(a, View()) && Quiet(a, View()) && |script| <= |old(script)|
      ensures sig != SIGKILL ==> Spared(a, View())
      ensures if sig == SIGKILL then status == Exited else Mentioned(log, |a.log|, sig)
      ensures forall s :: Mentioned(old(log), |a.log|, s) ==> Mentioned(log, |a.log|, s)
    {
      hide Owed, Justified, KillAhead, Mentioned, Untouched;
      ghost var b := View();
      Dispatch(sig);
      KeptTransitive(a, b, View());
      SuffixShrinks(b.script, script);
      if sig != SIGKILL {
        MentionedEarlier(log, |b.log|, |a.log|, sig);
      }
      forall s | Mentioned(b.log, |a.log|, s)
        ensures Mentioned(log, |a.log|, s)
      {
        MentionedStays(b.log, log, |a.log|, s);
      }
    }

    /** sigsetmask: whatever the new mask leaves uncovered is dispatched before it returns. */
    method SigSetMask(newMask: set<Sig>, arrived: Arrivals) returns (oldMask: set<Sig>)
      requires Valid() && status == Live
      modifies this, handlers
      decreases |script|, 7
      ensures |script| <= |old(script)| && old(log) <= log
      ensures Valid() && oldMask == old(mask)
      ensures Grows(old(View()), View()) && Spared(old(View()), View())
      ensures installs == old(installs) ==> handlers[..] == old(handlers[..])
      ensures status == Live ==> Uncovered(View()) == {} && running == old(running)
      ensures status == Live ==> Delivered(arrived, log, |old(log)|)
      ensures meddles == old(meddles) ==>
        && (status == Live ==> mask == newMask)
        && (old(running) == [] ==> reentered == old(reentered))
    {
      hide Owed, Justified, KillAhead, Suffix, Mentioned;
      oldMask := mask;
      ghost var a := View();
      var _ := HandleSignals(arrived);
      if status != Live {
        return;
      }
      ghost var b := View();
      mask := newMask;
      ghost var c := View();
      GrowsMasked(a, b, c);
      var i := 0;
      while i < NSIG && status == Live
        invariant 0 <= i <= NSIG
        invariant Valid() && Grows(a, View()) && Spared(a, View()) && c.log <= log && c.meddles <= meddles
        invariant c.installs <= installs && (installs == c.installs ==> handlers[..] == c.table)
        invariant |script| <= |c.script|
        invariant status == Live ==>
          && running == c.running
          && (forall s :: s in Uncovered(View()) ==> i <= s)
          && (meddles == c.meddles ==> mask == newMask)
        invariant meddles == c.meddles && c.running == [] ==> reentered == c.reentered
      {
        if i in pending && i !in mask {
          ghost var d := View();
          Dispatch(i);
          GrowsTransitive(a, d, View());
          SuffixShrinks(d.script, script);
        }
        i := i + 1;
      }
      DeliveredStays(arrived, b.log, log, |a.log|);
    }

    /** signal: 0, the code of SIG_IGN, is also the answer for a number that names no signal. */
    method Install(sig: int, fn: Handler, arrived: Arrivals) returns (oldfn: Handler)
      requires Valid() && status == Live
      modifies this, handlers
      decreases |script|, 7
      ensures |script| <= |old(script)| && old(log) <= log
      ensures Valid() && Grows(old(View()), View()) && Quiet(old(View()), View()) && Spared(old(View()), View())
      ensures status == Live ==> running == old(running) && Uncovered(View()) <= Uncovered(old(View()))
      ensures status == Live && 0 <= sig < NSIG ==> handlers[sig] == fn
      ensures status == Live && 0 <= sig < NSIG && installs == old(installs) ==>
        oldfn == old(handlers[sig]) && handlers[..] == old(handlers[..])[sig := fn]
      ensures status == Live && !(0 <= sig < NSIG) ==>
        oldfn == Ignore && (installs == old(installs) ==> handlers[..] == old(handlers[..]))
      ensures status == Live ==> Delivered(arrived, log, |old(log)|)
      ensures arrived == Nothing ==> status == Live && log == old(log) && mask == old(mask) && script == old(script)
    {
      hide Owed, Justified, KillAhead, Suffix, Mentioned;
      ghost var a := View();
      var _ := HandleSignals(arrived);
      ghost var b := View();
      oldfn := Ignore;
      if status == Live && 0 <= sig < NSIG {
        oldfn := handlers[sig];
        handlers[sig] := fn;
        TableAside(a, b, View());
      }
    }

    /** kill, sent to the program's own process. */
    method Kill(sig: int, arrived: Arrivals)
      requires Valid() && status == Live
      modifies this, handlers
      decreases |script|, 7
      ensures |script| <= |old(script)| && old(log) <= log
      ensures Valid() && Kept(old(View()), View()) && Quiet(old(View()), View())
      ensures sig != SIGKILL ==> Spared(old(View()), View())
      ensures sig == SIGKILL ==> status != Live
      ensures status == Live ==> Delivered(arrived, log, |old(log)|)
      ensures status == Live && sig != 0 ==> Mentioned(log, |old(log)|, sig)
    {
      hide Kept, Quiet, Spared, Owed, Mentioned;
      ghost var a := View();
      var _ := HandleSignals(arrived);
      if status == Live && sig != 0 {
        DispatchAfter(a, sig);
      }
    }

    /** One event: whoever has control calls one of the operations. */
    method Step()
      requires Valid() && status == Live && script != []
      modifies this, handlers
      decreases |script|, 0
      ensures old(log) <= log && old(meddles) <= meddles
      ensures Valid() && Kept(old(View()), View()) && Spared(old(View()), View())
      ensures old(running) != [] || !old(script[0]).SetMask? ==> Quiet(old(View()), View())
      ensures |script| < |old(script)|
      ensures old(script[0]).SetMask? && status == Live ==> Uncovered(View()) == {}
      ensures old(running) == [] && meddles == old(meddles) ==>
        && reentered == old(reentered)
        && (status == Live ==> mask == Ordered(old(View())))
      ensures status == Live ==> Effected(old(script[0]), log, |old(log)|, handlers[..])
    {
      hide Owed, Justified, KillAhead, Suffix, Mentioned, Delivered, Spared;
      ghost var a := View();
      var event := script[0];
      script := script[1..];
      if event.Install? {
        installs := installs + 1;
      }
      if event.SetMask? && running != [] {
        meddles := meddles + 1;
      }
      ghost var b := View();
      match event {
        case Raise(sig) =>
          Dispatch(sig);
        case Kill(sig, arrived) =>
          Kill(sig, arrived);
        case Check(arrived) =>
          var _ := HandleSignals(arrived);
        case SetMask(newMask, arrived) =>
          var _ := SigSetMask(newMask, arrived);
        case Install(sig, fn, arrived) =>
          var _ := Install(sig, fn, arrived);
        case Return =>
          ReturnKept(b);
      }
      Popped(a, b, View());
    }

    /** A whole run of the program, with what it sees of the machine before each of its own operations and after the
        last, when control is outside every handler. */
    method Run() returns (ghost seen: seq<Snap>)
      requires Valid() && status == Live && Uncovered(View()) == {} && running == []
      modifies this, handlers
      ensures Valid()
      ensures seen != [] && seen[0] == old(View())
      ensures status == Live ==> script == [] && seen[|seen| - 1] == View()
      ensures forall k :: 0 <= k < |seen| ==>
        Sound(seen[k]) && seen[k].pending <= seen[k].mask && seen[k].running == []
      ensures forall k :: 0 <= k < |seen| - 1 ==> Follows(seen[k], seen[k + 1])
      ensures meddles == old(meddles) ==> reentered == old(reentered)
      ensures Kept(old(View()), View()) && Spared(old(View()), View())
    {
      hide Owed, Justified, KillAhead, Suffix, Grows;
      ghost var a := View();
      EasySteady(a, 0);
      CoveredMeans(a);
      seen := [a];
      while script != [] && status == Live
        invariant Valid() && Kept(a, View()) && Spared(a, View())
        invariant a.meddles <= meddles && (meddles == a.meddles ==> reentered == a.reentered)
        invariant seen != [] && seen[0] == a
        invariant status == Live ==> seen[|seen| - 1] == View() && running == []
        invariant forall k :: 0 <= k < |seen| ==>
          Sound(seen[k]) && seen[k].pending <= seen[k].mask && seen[k].running == []
        invariant forall k :: 0 <= k < |seen| - 1 ==> Follows(seen[k], seen[k + 1])
        decreases |script|
      {
        ghost var b := View();
        Step();
        OnwardTransitive(a, b, View());
        CoveredMeans(View());
        if status == Live {
          assert Follows(b, View());
          seen := seen + [View()];
        }
      }
    }
  }
}
