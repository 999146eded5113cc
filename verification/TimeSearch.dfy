/** The search of time2 over the bits of a time_t. */
module TimeSearch {
  import opened CInt
  import opened Calendar
  import opened CivilTime
  import opened ZoneState
  import opened LocalTime
  import opened MkTime

  /** localsub at t gives the requested fields, and the requested kind of time if one is asked for. */
  ghost predicate Matches(z: Zone, below: int, t: int, req: TmValue)
    requires GoodZone(z)
  {
    var tm := LocalTm(z, below, t);
    SameMoment(tm, req) && (req.isdst < 0 || tm.isdst == req.isdst)
  }

  /** One offset, one kind of time, no leap seconds; the offset leaves room for a day either way. */
  predicate FixedOffset(z: Zone, offset: int, isdst: int) {
    && |z.leaps| == 0
    && (forall i :: 0 <= i < |z.ttis| ==> z.ttis[i].gmtoff == offset && z.ttis[i].isdst == isdst)
    && IsLong(offset - SECS_PER_DAY) && IsLong(offset + SECS_PER_DAY)
  }

  ghost predicate OneOffset(z: Zone) {
    exists offset, isdst :: FixedOffset(z, offset, isdst)
  }

  /** Some instant meets the request. */
  ghost predicate Met(z: Zone, below: int, req: TmValue)
    requires GoodZone(z)
  {
    exists u :: IsLong(u) && Matches(z, below, u, req)
  }

  predicate LongZone(z: Zone) {
    forall i :: 0 <= i < |z.ttis| ==> IsLong(z.ttis[i].gmtoff)
  }

  /** No leap seconds, and every offset leaves room for a day either way. */
  predicate Roomy(z: Zone) {
    && |z.leaps| == 0
    && forall i :: 0 <= i < |z.ttis| ==> IsLong(z.ttis[i].gmtoff - SECS_PER_DAY) && IsLong(z.ttis[i].gmtoff + SECS_PER_DAY)
  }

  /** The local second count at t. */
  function LocalSecond(z: Zone, t: int): int
    requires GoodZone(z)
  {
    t + z.ttis[TypeAt(z, t)].gmtoff
  }

  lemma RoomyBreakDown(z: Zone, below: int, t: int)
    requires GoodZone(z) && Roomy(z) && IsLong(t)
    ensures var tm := LocalTm(z, below, t);
            ValidDate(tm) && ValidTime(tm) && DaysAgree(tm) && Seconds(tm) == LocalSecond(z, t)
  {
    hide LocalTm;
    LocalTmMeaning(z, below, t);
    CDivRem(t, SECS_PER_DAY);
  }

  lemma FixedBreakDown(z: Zone, below: int, t: int, offset: int, isdst: int)
    requires GoodZone(z) && FixedOffset(z, offset, isdst) && IsLong(t)
    ensures var tm := LocalTm(z, below, t);
            ValidDate(tm) && ValidTime(tm) && DaysAgree(tm) && Seconds(tm) == t + offset && tm.isdst == isdst
  {
    hide TypeAt;
    RoomyBreakDown(z, below, t);
    assert z.ttis[TypeAt(z, t)].gmtoff == offset;
  }

  /** The year of a local second count is far inside the range of an int. */
  lemma SmallYear(s: int, hit: bool, isdst: int, gmtoff: int)
    requires -4 * TWO31 <= s <= 4 * TWO31
    ensures var tm := BreakDown(s, hit, isdst, gmtoff); -1000 <= tm.year <= 1000 && IntFields(tm)
  {
    var tm := BreakDown(s, hit, isdst, gmtoff);
    BreakDownExact(s, hit, isdst, gmtoff);
    var y, day := tm.year + TM_YEAR_BASE, s / SECS_PER_DAY;
    assert s == day * SECS_PER_DAY + s % SECS_PER_DAY;
    if y > 2900 {
      YearMono(1970, y);
    } else if y < 900 {
      YearMono(y + 1, 1970);
    }
  }

  lemma LocalIntFields(z: Zone, below: int, t: int)
    requires GoodZone(z) && LongZone(z) && IsLong(t)
    ensures IntFields(LocalTm(z, below, t)) && -1000 <= LocalTm(z, below, t).year <= 1000
  {
    var tt := z.ttis[TypeAt(z, t)];
    var corr := Correction(z.leaps, t);
    CDivRem(t, SECS_PER_DAY);
    SmallYear(LocalSeconds(t, tt.gmtoff, corr), Hit(z.leaps, t, below), 0, tt.gmtoff);
  }

  /** tmcomp tells on which side of a matching instant a probe is. */
  lemma ProbeSide(z: Zone, below: int, t: int, u: int, req: TmValue, offset: int, isdst: int)
    requires GoodZone(z) && FixedOffset(z, offset, isdst) && IsLong(t) && IsLong(u)
    requires Matches(z, below, u, req)
    ensures var dir := TmComp(LocalTm(z, below, t), req);
            (dir < 0 <==> t < u) && (dir == 0 <==> t == u)
  {
    hide LocalTm, TmComp;
    var a, b := LocalTm(z, below, t), LocalTm(z, below, u);
    FixedBreakDown(z, below, t, offset, isdst);
    FixedBreakDown(z, below, u, offset, isdst);
    assert LongZone(z);
    LocalIntFields(z, below, t);
    LocalIntFields(z, below, u);
    TmCompOrders(a, b);
    TmCompCongruent(a, b, req);
  }

  /** The local time jumps over the request at c, or the request lies before or after all local times: no instant up to
      c - 1 next to it is late enough, and none from c on early enough. */
  ghost predicate SkippedAt(z: Zone, below: int, req: TmValue, c: int)
    requires GoodZone(z)
  {
    && LONG_MIN <= c <= TWO31
    && (c == LONG_MIN || TmComp(LocalTm(z, below, c - 1), req) < 0)
    && (c == TWO31 || TmComp(LocalTm(z, below, c), req) > 0)
  }

  ghost predicate Skipped(z: Zone, below: int, req: TmValue)
    requires GoodZone(z)
  {
    exists c :: SkippedAt(z, below, req, c)
  }

  /** In local seconds: one instant is still before the request and the next one already after it. */
  lemma SkippedSeconds(z: Zone, below: int, req: TmValue, c: int)
    requires GoodZone(z) && Roomy(z) && LONG_MIN <= c <= TWO31
    requires ValidDate(req) && ValidTime(req) && IsLong(req.year - 1001) && IsLong(req.year + 1001)
    ensures SkippedAt(z, below, req, c) <==>
      && (c == LONG_MIN || LocalSecond(z, c - 1) < Seconds(req))
      && (c == TWO31 || LocalSecond(z, c) > Seconds(req))
  {
    hide LocalTm, TmComp, LocalSecond;
    if c > LONG_MIN {
      CompareSeconds(z, below, c - 1, req);
    }
    if c < TWO31 {
      CompareSeconds(z, below, c, req);
    }
  }

  lemma CompareSeconds(z: Zone, below: int, t: int, req: TmValue)
    requires GoodZone(z) && Roomy(z) && IsLong(t)
    requires ValidDate(req) && ValidTime(req) && IsLong(req.year - 1001) && IsLong(req.year + 1001)
    ensures TmComp(LocalTm(z, below, t), req) < 0 <==> LocalSecond(z, t) < Seconds(req)
    ensures TmComp(LocalTm(z, below, t), req) == 0 <==> LocalSecond(z, t) == Seconds(req)
  {
    hide LocalTm, TmComp;
    RoomyBreakDown(z, below, t);
    LocalIntFields(z, below, t);
    TmCompOrders(LocalTm(z, below, t), req);
  }

  /** In a zone of one offset the local time jumps over nothing that some instant meets. */
  lemma FixedNotSkipped(z: Zone, below: int, req: TmValue, offset: int, isdst: int)
    requires GoodZone(z) && FixedOffset(z, offset, isdst) && Skipped(z, below, req)
    ensures !Met(z, below, req)
  {
    hide LocalTm, TmComp, Matches;
    var c :| SkippedAt(z, below, req, c);
    forall u | IsLong(u)
      ensures !Matches(z, below, u, req)
    {
      FixedNotBracketed(z, below, req, offset, isdst, c, u);
    }
  }

  lemma FixedNotBracketed(z: Zone, below: int, req: TmValue, offset: int, isdst: int, c: int, u: int)
    requires GoodZone(z) && FixedOffset(z, offset, isdst) && SkippedAt(z, below, req, c) && IsLong(u)
    ensures !Matches(z, below, u, req)
  {
    hide LocalTm, TmComp, Matches;
    if Matches(z, below, u, req) {
      if c > LONG_MIN {
        ProbeSide(z, below, c - 1, u, req, offset, isdst);
      }
      if c < TWO31 {
        ProbeSide(z, below, c, u, req, offset, isdst);
      }
    }
  }

  /** The number of magnitude bits of a time_t, found by shifting 1 until it turns negative. */
  method MagnitudeBits() returns (bits: nat, t: int)
    ensures bits == 31 && t == LONG_MIN
  {
    bits, t := 0, 1;
    Pow2Values();
    while t > 0
      invariant bits <= 31 && t == Wrap(Pow2(bits))
      decreases 31 - bits
    {
      Pow2Mono(bits, 31);
      if bits < 31 { Pow2Mono(bits + 1, 31); }
      t := Wrap(2 * t);
      bits := bits + 1;
    }
    if bits < 31 { Pow2Mono(bits, 30); }
  }

  /** The instant that shows the same local time as t, if t is in a type of offset `from` and it in one of offset `to`. */
  function Candidate(t: int, from: int, to: int): int {
    Wrap(Wrap(t + from) - to)
  }

  /** Right time, wrong kind: tries the difference of each pair of types, and checks the guess. */
  method Hunt(t: int, req: TmValue, sp: State, mytm: Tm) returns (newt: int, found: bool)
    requires sp.Loaded() && GoodZone(sp.View()) && LongZone(sp.View()) && IntFields(req) && IsLong(t)
    modifies mytm
    ensures found ==> IsLong(newt) && Matches(sp.View(), sp.below, newt, req)
    ensures found ==> exists i :: 0 <= i < sp.typecnt && sp.ttis[i].isdst == req.isdst
    ensures !found && req.isdst >= 0 ==> NoPairs(sp.View(), sp.below, t, req)
  {
    hide LocalTm, TmComp, Matches, Candidate;
    ghost var z, below := sp.View(), sp.below;
    newt, found := t, false;
    var i := 0;
    while i < sp.typecnt
      invariant 0 <= i <= sp.typecnt && !found
      invariant req.isdst >= 0 ==> forall k, l :: 0 <= k < i && 0 <= l < sp.typecnt ==> NoPair(z, below, t, req, k, l)
    {
      if sp.ttis[i].isdst == req.isdst {
        var j := 0;
        while j < sp.typecnt
          invariant 0 <= j <= sp.typecnt && !found
          invariant req.isdst >= 0 ==> forall l :: 0 <= l < j ==> NoPair(z, below, t, req, i, l)
        {
          if sp.ttis[j].isdst != req.isdst {
            newt := Candidate(t, sp.ttis[j].gmtoff, sp.ttis[i].gmtoff);
            CandidateLong(t, sp.ttis[j].gmtoff, sp.ttis[i].gmtoff);
            LocalSub(newt, sp, mytm);
            LocalIntFields(z, below, newt);
            TmCompZero(mytm.Value(), req);
            MatchesMeans(z, below, newt, req);
            if TmComp(mytm.Value(), req) == 0 && mytm.isdst == req.isdst {
              found := true;
              return;
            }
          }
          j := j + 1;
        }
      }
      i := i + 1;
    }
  }

  lemma CandidateLong(t: int, from: int, to: int)
    ensures IsLong(Candidate(t, from, to))
  {
  }

  lemma MatchesMeans(z: Zone, below: int, t: int, req: TmValue)
    requires GoodZone(z)
    ensures Matches(z, below, t, req) <==>
      SameMoment(LocalTm(z, below, t), req) && (req.isdst < 0 || LocalTm(z, below, t).isdst == req.isdst)
  {
  }

  /** The pair of types i and j leads from t to no instant that meets the request. */
  ghost predicate NoPair(z: Zone, below: int, t: int, req: TmValue, i: int, j: int)
    requires GoodZone(z) && 0 <= i < |z.ttis| && 0 <= j < |z.ttis|
  {
    z.ttis[i].isdst == req.isdst && z.ttis[j].isdst != req.isdst ==>
      !Matches(z, below, Candidate(t, z.ttis[j].gmtoff, z.ttis[i].gmtoff), req)
  }

  ghost predicate NoPairs(z: Zone, below: int, t: int, req: TmValue)
    requires GoodZone(z)
  {
    forall i, j :: 0 <= i < |z.ttis| && 0 <= j < |z.ttis| ==> NoPair(z, below, t, req, i, j)
  }

  /** From an instant with the requested fields but of another kind, some pair leads to every instant of the right kind. */
  lemma PairLeads(z: Zone, below: int, t: int, req: TmValue, u: int)
    requires GoodZone(z) && Roomy(z) && IsLong(t) && IsLong(u) && req.isdst >= 0
    requires SameMoment(LocalTm(z, below, t), req) && LocalTm(z, below, t).isdst != req.isdst
    requires Matches(z, below, u, req)
    ensures !NoPair(z, below, t, req, TypeAt(z, u), TypeAt(z, t))
  {
    hide LocalTm, TypeAt;
    LocalTmMeaning(z, below, t);
    LocalTmMeaning(z, below, u);
    RoomyBreakDown(z, below, t);
    RoomyBreakDown(z, below, u);
    assert Seconds(LocalTm(z, below, t)) == Seconds(LocalTm(z, below, u));
    Reached(t, u, z.ttis[TypeAt(z, t)].gmtoff, z.ttis[TypeAt(z, u)].gmtoff);
  }

  lemma Reached(t: int, u: int, from: int, to: int)
    requires IsLong(u) && t + from == u + to
    ensures Candidate(t, from, to) == u
  {
    WrapAdd(t + from, -to);
  }

  /** The instants next to those probed: all before the request up to `lo`, and after it from `hi` on, as far as probed. */
  ghost predicate Bracket(z: Zone, below: int, req: TmValue, lo: int, hi: int)
    requires GoodZone(z)
  {
    && LONG_MIN <= lo < hi <= TWO31
    && (lo == LONG_MIN || TmComp(LocalTm(z, below, lo), req) < 0)
    && (hi == TWO31 || TmComp(LocalTm(z, below, hi), req) > 0)
  }

  /** Where the next probe is: in the middle of the bracket, and in the end on its lower edge or next to it. */
  ghost predicate Probing(t: int, bits: int, lo: int, hi: int) {
    && -1 <= bits <= 31 && IsLong(t)
    && if bits < 0 then hi - lo == 1 && lo - 1 <= t <= lo else t - lo == hi - t == Pow2(bits)
  }

  /** The next instant probed; bits has just been decremented. */
  function NextProbe(t: int, bits: int, dir: int): int {
    if bits < 0 then Wrap(t - 1)
    else if dir > 0 then Wrap(t - Pow2(bits))
    else Wrap(t + Pow2(bits))
  }

  /** One step halves the bracket, and the arithmetic on t never wraps. */
  lemma ProbingStep(t: int, bits: int, dir: int, lo: int, hi: int)
    requires 0 <= bits && LONG_MIN <= lo < hi <= TWO31 && Probing(t, bits, lo, hi)
    ensures lo < t < hi
    ensures if dir > 0 then Probing(NextProbe(t, bits - 1, dir), bits - 1, lo, t)
            else Probing(NextProbe(t, bits - 1, dir), bits - 1, t, hi)
  {
    if bits > 0 {
      assert Pow2(bits) == 2 * Pow2(bits - 1);
    }
  }

  lemma LastProbe(z: Zone, below: int, req: TmValue, t: int, lo: int, hi: int)
    requires GoodZone(z) && Bracket(z, below, req, lo, hi) && Probing(t, -1, lo, hi)
    requires TmComp(LocalTm(z, below, t), req) != 0
    ensures Skipped(z, below, req)
  {
    hide TmComp, LocalTm;
    if TmComp(LocalTm(z, below, t), req) > 0 && t == lo == LONG_MIN {
      assert SkippedAt(z, below, req, LONG_MIN);
    } else {
      assert SkippedAt(z, below, req, hi);
    }
  }

  /** The probing loop. Stops on an instant with the requested fields; or, after the last bit, where the local time
      jumps over the request. */
  method Bisect(req: TmValue, sp: State, mytm: Tm) returns (t: int, same: bool, ghost probes: nat)
    requires sp.Loaded() && GoodZone(sp.View()) && LongZone(sp.View()) && IntFields(req)
    modifies mytm
    ensures IsLong(t) && probes <= 33
    ensures same ==> mytm.Value() == LocalTm(sp.View(), sp.below, t) && SameMoment(mytm.Value(), req)
    ensures !same ==> Skipped(sp.View(), sp.below, req)
  {
    hide LocalTm, TmComp;
    ghost var z, below := sp.View(), sp.below;
    var bits: int;
    bits, t := MagnitudeBits();
    var topBit := Wrap(Pow2(bits));
    t := if t < 0 then 0 else topBit;
    Pow2Values();
    probes := 0;
    ghost var lo, hi := LONG_MIN, TWO31;
    while true
      invariant sp.View() == z && probes == 31 - bits
      invariant Bracket(z, below, req, lo, hi) && Probing(t, bits, lo, hi)
      decreases bits + 1
    {
      LocalSub(t, sp, mytm);
      probes := probes + 1;
      LocalIntFields(z, below, t);
      TmCompZero(mytm.Value(), req);
      var dir := TmComp(mytm.Value(), req);
      if dir == 0 {
        return t, true, probes;
      }
      bits := bits - 1;
      if bits < -1 {
        LastProbe(z, below, req, t, lo, hi);
        return -1, false, probes;
      }
      ProbingStep(t, bits + 1, dir, lo, hi);
      if dir > 0 {
        hi := t;
      } else {
        lo := t;
      }
      t := NextProbe(t, bits, dir);
    }
  }

  /** Whatever is found matches the request, and at most 33 instants are probed before the hunt for the right kind of
      time. The probing stops unless the local time jumps over the request; once it has, the hunt misses no match. */
  method Search(req: TmValue, sp: State) returns (t: int, okay: bool, ghost probes: nat)
    requires sp.Loaded() && GoodZone(sp.View()) && LongZone(sp.View()) && IntFields(req)
    ensures okay ==> IsLong(t) && Matches(sp.View(), sp.below, t, req)
    ensures Roomy(sp.View()) && !Skipped(sp.View(), sp.below, req) ==> (okay <==> Met(sp.View(), sp.below, req))
    ensures OneOffset(sp.View()) ==> (okay <==> Met(sp.View(), sp.below, req))
    ensures probes <= 33
  {
    hide LocalTm, TmComp, Matches, Skipped, Roomy, OneOffset, NoPairs, Met;
    ghost var z, below := sp.View(), sp.below;
    var mytm := new Tm(req);
    var same;
    t, same, probes := Bisect(req, sp, mytm);
    okay := false;
    OneOffsetRoomy(z);
    if !same {
      OneOffsetSkips(z, below, req);
      return;
    }
    MatchesMeans(z, below, t, req);
    if req.isdst < 0 || mytm.isdst == req.isdst {
      okay := true;
      MetBy(z, below, req, t);
      return;
    }
    ghost var start := t;
    t, okay := Hunt(t, req, sp, mytm);
    if okay {
      MetBy(z, below, req, t);
    } else {
      NothingMissed(z, below, start, req);
    }
  }

  lemma MetBy(z: Zone, below: int, req: TmValue, u: int)
    requires GoodZone(z) && IsLong(u) && Matches(z, below, u, req)
    ensures Met(z, below, req)
  {
  }

  lemma FixedIsOne(z: Zone, offset: int, isdst: int)
    requires FixedOffset(z, offset, isdst)
    ensures OneOffset(z) && LongZone(z)
  {
  }

  lemma OneOffsetRoomy(z: Zone)
    ensures OneOffset(z) ==> Roomy(z)
  {
  }

  lemma OneOffsetSkips(z: Zone, below: int, req: TmValue)
    requires GoodZone(z) && Skipped(z, below, req)
    ensures OneOffset(z) ==> !Met(z, below, req)
  {
    hide Skipped, Met;
    if offset, isdst :| FixedOffset(z, offset, isdst) {
      FixedNotSkipped(z, below, req, offset, isdst);
    }
  }

  lemma NothingMissed(z: Zone, below: int, t: int, req: TmValue)
    requires GoodZone(z) && IsLong(t) && req.isdst >= 0
    requires SameMoment(LocalTm(z, below, t), req) && LocalTm(z, below, t).isdst != req.isdst
    requires NoPairs(z, below, t, req)
    ensures Roomy(z) ==> !Met(z, below, req)
  {
    hide LocalTm, Matches, NoPair, Roomy;
    if Roomy(z) {
      forall u | IsLong(u)
        ensures !Matches(z, below, u, req)
      {
        if Matches(z, below, u, req) {
          PairLeads(z, below, t, req, u);
        }
      }
    }
  }

  /** In a zone of one offset a request is met by at most one instant: the second it denotes, less the offset. */
  lemma FixedMatch(z: Zone, below: int, req: TmValue, offset: int, isdst: int, u: int)
    requires GoodZone(z) && FixedOffset(z, offset, isdst) && IsLong(u)
    ensures Matches(z, below, u, req) <==>
      && ValidDate(req) && ValidTime(req) && (req.isdst < 0 || req.isdst == isdst)
      && u == Seconds(req) - offset
  {
    hide LocalTm;
    var tm := LocalTm(z, below, u);
    FixedBreakDown(z, below, u, offset, isdst);
    if ValidDate(req) && ValidTime(req) && u == Seconds(req) - offset {
      BreakDownUnique(tm, req);
    }
  }

  /** Midnight of 1 January 1970 comes twice when clocks go back an hour at 23:30 GMT of the day before. Asked for the
      first time round, in daylight time, time2 finds it, although the probing meets the second one. */
  lemma RepeatedHour(z: Zone, below: int, req: TmValue)
    requires z == Zone([-1000000, -1800], [0, 1], [TtInfo(3600, 1, 0, 0), TtInfo(0, 0, 0, 0)], [], [])
    requires req == TmValue(0, 0, 0, 1, 0, 70, 4, 0, 1, 0)
    ensures GoodZone(z) && Roomy(z) && !Skipped(z, below, req) && Met(z, below, req)
    ensures SameMoment(LocalTm(z, below, 0), req) && LocalTm(z, below, 0).isdst == 0
  {
    hide LocalTm, Matches, SkippedAt;
    assert YearStart(1970) == 0 && Seconds(req) == 0 && ValidDate(req) && ValidTime(req);
    hide YearStart;
    forall c
      ensures !SkippedAt(z, below, req, c)
    {
      if LONG_MIN <= c <= TWO31 {
        SkippedSeconds(z, below, req, c);
        TwiceZero(z, c - 1);
        TwiceZero(z, c);
      } else {
        NotSkippedOutside(z, below, req, c);
      }
    }
    ShowsZero(z, below, req, -3600);
    ShowsZero(z, below, req, 0);
    MatchesMeans(z, below, -3600, req);
  }

  lemma NotSkippedOutside(z: Zone, below: int, req: TmValue, c: int)
    requires GoodZone(z) && !(LONG_MIN <= c <= TWO31)
    ensures !SkippedAt(z, below, req, c)
  {
  }

  lemma TwiceZero(z: Zone, t: int)
    requires z == Zone([-1000000, -1800], [0, 1], [TtInfo(3600, 1, 0, 0), TtInfo(0, 0, 0, 0)], [], [])
    ensures TypeAt(z, t) == if -1000000 <= t < -1800 then 0 else 1
    ensures LocalSecond(z, t) == if -1000000 <= t < -1800 then t + 3600 else t
  {
    TypeAtMeaning(z, t);
    hide TypeAt;
  }

  lemma ShowsZero(z: Zone, below: int, req: TmValue, t: int)
    requires z == Zone([-1000000, -1800], [0, 1], [TtInfo(3600, 1, 0, 0), TtInfo(0, 0, 0, 0)], [], [])
    requires ValidDate(req) && ValidTime(req) && Seconds(req) == 0 && (t == 0 || t == -3600)
    ensures SameMoment(LocalTm(z, below, t), req) && LocalTm(z, below, t).isdst == if t == 0 then 0 else 1
  {
    hide LocalTm;
    TwiceZero(z, t);
    RoomyBreakDown(z, below, t);
    LocalTmMeaning(z, below, t);
    BreakDownUnique(LocalTm(z, below, t), req);
  }

  /** In any zone, minute 60 and hour 24 are never met. */
  lemma NeverMet(z: Zone, below: int, tm: TmValue, u: int)
    requires GoodZone(z) && !(tm.mon <= -24 && tm.mon % 12 == 0) && LeavesBase(tm)
    ensures !Matches(z, below, u, Carried(tm).(sec := 0))
  {
    hide LeavesBase, Carried, Normalized;
    LeavesBaseMeans(tm);
    TimeSubExact(u, z.ttis[TypeAt(z, u)].gmtoff, z.leaps, below);
    hide TimeSubValue;
  }

  /** The second a request denotes, less the offset: exact, but for the days that the walk back misses. */
  ghost function Target(tm: TmValue, offset: int): int {
    Denoted(tm) + Missed(tm) * SECS_PER_DAY - offset
  }

  /** In a zone of one offset the carried request is met by the start of the minute of its target, and by nothing else;
      by nothing at all when normalize left a whole base. */
  lemma RequestMatch(z: Zone, below: int, tm: TmValue, offset: int, isdst: int, u: int)
    requires GoodZone(z) && FixedOffset(z, offset, isdst) && IsLong(u)
    requires !(tm.mon <= -24 && tm.mon % 12 == 0) && Fits(tm)
    ensures Matches(z, below, u, Carried(tm).(sec := 0)) <==>
      && !LeavesBase(tm) && (tm.isdst < 0 || tm.isdst == isdst)
      && u == Target(tm, offset) - Normalized(tm).sec
  {
    hide LeavesBase, Matches, Normalized, Denoted, Missed, Fits;
    var req := Carried(tm);
    hide Carried;
    LeavesBaseMeans(tm);
    CarriedConserves(tm);
    FixedMatch(z, below, req.(sec := 0), offset, isdst, u);
  }

  /** What time2 answers to a raw request in a zone of one offset. */
  ghost predicate Answers(z: Zone, tm: TmValue, t: int, okay: bool)
    requires !(tm.mon <= -24 && tm.mon % 12 == 0)
  {
    forall offset, isdst :: FixedOffset(z, offset, isdst) && Fits(tm) ==>
      && (okay <==> !LeavesBase(tm) && (tm.isdst < 0 || tm.isdst == isdst)
                    && IsLong(Target(tm, offset) - Normalized(tm).sec))
      && (okay ==> t == Wrap(Target(tm, offset)))
  }

  lemma RequestAnswered(z: Zone, below: int, tm: TmValue, t: int, okay: bool)
    requires GoodZone(z) && !(tm.mon <= -24 && tm.mon % 12 == 0) && IsLong(t)
    requires OneOffset(z) ==> (okay <==> Met(z, below, Carried(tm).(sec := 0)))
    requires okay ==> Matches(z, below, Wrap(t - Carried(tm).sec), Carried(tm).(sec := 0))
    ensures Answers(z, tm, t, okay)
  {
    hide Matches, Carried, Normalized, LeavesBase, Target, Fits;
    forall offset, isdst | FixedOffset(z, offset, isdst) && Fits(tm)
      ensures okay <==> !LeavesBase(tm) && (tm.isdst < 0 || tm.isdst == isdst)
                        && IsLong(Target(tm, offset) - Normalized(tm).sec)
      ensures okay ==> t == Wrap(Target(tm, offset))
    {
      var start, sec := Target(tm, offset) - Normalized(tm).sec, Normalized(tm).sec;
      if okay {
        RequestMatch(z, below, tm, offset, isdst, Wrap(t - sec));
        SecondsAdded(t, start, sec);
      } else if IsLong(start) {
        RequestMatch(z, below, tm, offset, isdst, start);
      }
    }
  }

  lemma SecondsAdded(t: int, start: int, sec: int)
    requires IsLong(t) && Wrap(t - sec) == start
    ensures t == Wrap(start + sec)
  {
    WrapAdd(t - sec, sec);
    assert t - sec + sec == t;
  }

  /** time2. The carried request without its seconds is searched for, and the seconds are added back. */
  method Time2(tmp: Tm, sp: State) returns (t: int, okay: bool, ghost probes: nat)
    requires sp.Loaded() && GoodZone(sp.View()) && LongZone(sp.View()) && IntFields(tmp.Value())
    requires !(tmp.mon <= -24 && tmp.mon % 12 == 0)
    modifies tmp
    ensures IsLong(t) && probes <= 33
    ensures var req := Carried(old(tmp.Value()));
            okay ==> Matches(sp.View(), sp.below, Wrap(t - req.sec), req.(sec := 0))
    ensures okay ==> tmp.Value() == LocalTm(sp.View(), sp.below, t)
    ensures !okay ==> t == -1 && tmp.Value() == old(tmp.Value())
    ensures var req := Carried(old(tmp.Value()));
            && (OneOffset(sp.View()) ==> (okay <==> Met(sp.View(), sp.below, req.(sec := 0))))
            && (Roomy(sp.View()) && !Skipped(sp.View(), sp.below, req.(sec := 0)) ==>
                  (okay <==> Met(sp.View(), sp.below, req.(sec := 0))))
    ensures Answers(sp.View(), old(tmp.Value()), t, okay)
  {
    hide LocalTm, Matches, Carried, Met, OneOffset, Answers, Roomy, Skipped;
    ghost var tm, z, below := tmp.Value(), sp.View(), sp.below;
    var yourtm := new Tm(tmp.Value());
    CarryRequest(yourtm);
    var savedSeconds := yourtm.sec;
    yourtm.sec := 0;
    t, okay, probes := Search(yourtm.Value(), sp);
    if !okay {
      t := -1;
      RequestAnswered(z, below, tm, t, okay);
      return;
    }
    ghost var u := t;
    t := Wrap(t + savedSeconds);
    WrapAdd(u + savedSeconds, -savedSeconds);
    assert u + savedSeconds + -savedSeconds == u;
    RequestAnswered(z, below, tm, t, okay);
    LocalSub(t, sp, tmp);
  }

  /** The carries and walks of time2, in place. */
  method CarryRequest(yourtm: Tm)
    requires IntFields(yourtm.Value()) && !(yourtm.mon <= -24 && yourtm.mon % 12 == 0)
    modifies yourtm
    ensures yourtm.Value() == Carried(old(yourtm.Value()))
  {
    hide BackYears, ForwardMonths;
    NormalizeFields(yourtm);
    WalkBack(yourtm);
    WalkForward(yourtm);
  }

  method NormalizeFields(yourtm: Tm)
    requires IntFields(yourtm.Value())
    modifies yourtm
    ensures yourtm.Value() == Normalized(old(yourtm.Value()))
  {
    hide Carry, Left;
    if yourtm.sec >= 60 + 2 || yourtm.sec < 0 {
      yourtm.min, yourtm.sec := Normalize(yourtm.min, yourtm.sec, 60);
    }
    yourtm.hour, yourtm.min := Normalize(yourtm.hour, yourtm.min, 60);
    yourtm.mday, yourtm.hour := Normalize(yourtm.mday, yourtm.hour, 24);
    yourtm.year, yourtm.mon := Normalize(yourtm.year, yourtm.mon, 12);
  }

  method WalkBack(yourtm: Tm)
    modifies yourtm`year, yourtm`mday
    ensures (yourtm.year, yourtm.mday) == BackYears(old(yourtm.year), old(yourtm.mday))
  {
    while yourtm.mday <= 0
      invariant BackYears(yourtm.year, yourtm.mday) == BackYears(old(yourtm.year), old(yourtm.mday))
      decreases -yourtm.mday
    {
      yourtm.year := Wrap(yourtm.year - 1);
      yourtm.mday := yourtm.mday + LengthOf(yourtm.year);
    }
  }

  method WalkForward(yourtm: Tm)
    requires 0 <= yourtm.mon < 12 && yourtm.mday >= 1
    modifies yourtm`year, yourtm`mon, yourtm`mday
    ensures (yourtm.year, yourtm.mon, yourtm.mday)
         == ForwardMonths(old(yourtm.year), old(yourtm.mon), old(yourtm.mday))
  {
    while yourtm.mday > MonthLength(LeapOf(yourtm.year), yourtm.mon)
      invariant 0 <= yourtm.mon < 12 && yourtm.mday >= 1
      invariant ForwardMonths(yourtm.year, yourtm.mon, yourtm.mday)
             == ForwardMonths(old(yourtm.year), old(yourtm.mon), old(yourtm.mday))
      decreases yourtm.mday
    {
      yourtm.mday := yourtm.mday - MonthLength(LeapOf(yourtm.year), yourtm.mon);
      yourtm.mon := yourtm.mon + 1;
      if yourtm.mon >= 12 {
        yourtm.mon := 0;
        yourtm.year := Wrap(yourtm.year + 1);
      }
    }
  }

  /** A breakdown is already in normal form. */
  lemma CarriedIdentity(tm: TmValue)
    requires ValidDate(tm) && ValidTime(tm) && IntFields(tm) && IsLong(tm.year + TM_YEAR_BASE)
    ensures Carried(tm) == tm
  {
    hide Carry, Left;
    OtherUnits(tm.min, 60);
    OtherUnits(tm.hour, 24);
    OtherUnits(tm.mon, 12);
  }

  /** The start of the minute is the only instant that meets a breakdown stripped of its seconds. */
  lemma MinuteStart(z: Zone, below: int, t: int, tm: TmValue, offset: int, isdst: int)
    requires GoodZone(z) && FixedOffset(z, offset, isdst)
    requires ValidDate(tm) && ValidTime(tm) && Seconds(tm) == t + offset && tm.isdst == isdst
    ensures tm.sec == (t + offset) % 60
    ensures Met(z, below, tm.(sec := 0)) <==> IsLong(t - tm.sec)
  {
    hide LocalTm, Matches;
    var req := tm.(sec := 0);
    var minutes := DayNumber(tm.year + TM_YEAR_BASE, tm.mon, tm.mday) * 1440 + tm.hour * 60 + tm.min;
    DivModUnique(t + offset, 60, minutes, tm.sec);
    if IsLong(t - tm.sec) {
      FixedMatch(z, below, req, offset, isdst, t - tm.sec);
    }
    if u :| IsLong(u) && Matches(z, below, u, req) {
      FixedMatch(z, below, req, offset, isdst, u);
    }
  }

  /** What time2 can find in a zone of one offset, as a condition on the request alone: it is in normal
      form after the carries, asks for no other kind of time, and its minute starts within a time_t. */
  lemma Findable(z: Zone, below: int, req: TmValue, offset: int, isdst: int)
    requires GoodZone(z) && FixedOffset(z, offset, isdst)
    ensures Met(z, below, req) <==>
      && ValidDate(req) && ValidTime(req) && (req.isdst < 0 || req.isdst == isdst)
      && IsLong(Seconds(req) - offset)
  {
    hide LocalTm, Matches;
    if ValidDate(req) && IsLong(Seconds(req) - offset) {
      FixedMatch(z, below, req, offset, isdst, Seconds(req) - offset);
    }
    if u :| IsLong(u) && Matches(z, below, u, req) {
      FixedMatch(z, below, req, offset, isdst, u);
    }
  }

  /** 48 hours back from midnight: normalize leaves hour 24, so in no zone any instant is found. */
  lemma WholeDaysBack()
    ensures var tm := TmValue(0, 0, -48, 10, 0, 70, 0, 0, -1, 0);
            && Denoted(tm) == 7 * SECS_PER_DAY && Normalized(tm).hour == 24
            && forall z, below, u :: GoodZone(z) ==> !Matches(z, below, u, Carried(tm).(sec := 0))
  {
    var tm := TmValue(0, 0, -48, 10, 0, 70, 0, 0, -1, 0);
    HourLeft(tm);
    LeavesBaseMeans(tm);
    hide Normalized, Carry, Left, Matches, Carried, LeavesBase, GoodZone;
    assert YearStart(1970) == 0;
    forall z, below, u | GoodZone(z)
      ensures !Matches(z, below, u, Carried(tm).(sec := 0))
    {
      NeverMet(z, below, tm, u);
    }
  }

  lemma HourLeft(tm: TmValue)
    requires tm.sec == 0 && tm.min == 0 && tm.hour == -48
    ensures Normalized(tm).hour == 24
  {
    OtherUnits(0, 60);
    assert Left(-48, 24) == 24;
    hide Carry, Left;
  }

  lemma SecondsBack(t: int, t': int, sec: int)
    requires IsLong(t) && IsLong(t') && Wrap(t' - sec) == t - sec
    ensures t' == t
  {
    WrapAdd(t' - sec, sec);
    assert t' - sec + sec == t';
  }

  /** localtime and back: in a zone of one offset time2 returns the instant it is given, exactly when the
      start of its minute is a time_t. */
  method ThereAndBack(t: int, sp: State, ghost offset: int, ghost isdst: int) returns (t': int, okay: bool)
    requires sp.Loaded() && GoodZone(sp.View()) && FixedOffset(sp.View(), offset, isdst) && IsLong(t)
    ensures okay <==> IsLong(t - (t + offset) % 60)
    ensures okay ==> t' == t
  {
    hide LocalTm, Matches, Carried, Met, Answers, ValidDate, ValidTime, DaysAgree, Roomy, Skipped, OneOffset;
    FixedIsOne(sp.View(), offset, isdst);
    ghost var z, below := sp.View(), sp.below;
    var tmp := new Tm(TmValue(0, 0, 0, 0, 0, 0, 0, 0, 0, 0));
    LocalSub(t, sp, tmp);
    ghost var tm := tmp.Value();
    FixedBreakDown(z, below, t, offset, isdst);
    LocalIntFields(z, below, t);
    CarriedIdentity(tm);
    ghost var probes;
    t', okay, probes := Time2(tmp, sp);
    SameInstant(z, below, t, t', okay, tm, offset, isdst);
  }

  lemma SameInstant(z: Zone, below: int, t: int, t': int, okay: bool, tm: TmValue, offset: int, isdst: int)
    requires GoodZone(z) && FixedOffset(z, offset, isdst) && IsLong(t) && IsLong(t')
    requires ValidDate(tm) && ValidTime(tm) && Seconds(tm) == t + offset && tm.isdst == isdst
    requires okay <==> Met(z, below, tm.(sec := 0))
    requires okay ==> Matches(z, below, Wrap(t' - tm.sec), tm.(sec := 0))
    ensures okay <==> IsLong(t - (t + offset) % 60)
    ensures okay ==> t' == t
  {
    hide LocalTm, Matches, Met;
    MinuteStart(z, below, t, tm, offset, isdst);
    if okay {
      FixedMatch(z, below, tm.(sec := 0), offset, isdst, Wrap(t' - tm.sec));
      SecondsBack(t, t', tm.sec);
    }
  }
}
