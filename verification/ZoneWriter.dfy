/** writezone and addtt of zic.c: the collected transitions, types and leap seconds become the bytes of a zone file. */
module ZoneWriter {
  import opened CInt
  import opened ZicArith
  import opened ZoneState
  import opened LocalTime
  import opened ZoneFile
  import LeapTable
  import TypePool

  /** The transition list. */
  class Transitions {
    var timecnt: int
    const ats: array<int>
    const types: array<int>

    predicate Valid()
      reads this
    {
      0 <= timecnt <= TZ_MAX_TIMES && ats.Length == TZ_MAX_TIMES && types.Length == TZ_MAX_TIMES && ats != types
    }

    constructor ()
      ensures Valid() && timecnt == 0 && fresh(ats) && fresh(types)
    {
      timecnt := 0;
      ats := new int[TZ_MAX_TIMES](_ => 0);
      types := new int[TZ_MAX_TIMES](_ => 0);
    }

    /** addtt: a transition to the type already in force is dropped; a full list is the error exit. */
    method AddTt(starttime: int, typ: int) returns (ok: bool)
      requires Valid()
      modifies this`timecnt, ats, types
      ensures Valid()
      ensures var same := old(timecnt) != 0 && typ == old(types[timecnt - 1]);
              && (ok <==> same || old(timecnt) < TZ_MAX_TIMES)
              && ats[..timecnt] == old(ats[..timecnt]) + (if ok && !same then [starttime] else [])
              && types[..timecnt] == old(types[..timecnt]) + (if ok && !same then [typ] else [])
    {
      if timecnt != 0 && typ == types[timecnt - 1] {
        return true;
      }
      if timecnt >= TZ_MAX_TIMES {
        return false;
      }
      ats[timecnt] := starttime;
      types[timecnt] := typ;
      timecnt := timecnt + 1;
      ok := true;
    }
  }

  /** The correction in force at a transition is added to it. */
  function LeapAdjusted(leaps: seq<LsInfo>, t: int): Option<int>
    requires IsLong(t) && forall i :: 0 <= i < |leaps| ==> IsLong(leaps[i].corr)
  {
    var i := LastLeap(leaps, t, |leaps|);
    if i < 0 then Some(t) else Tadd(t, leaps[i].corr)
  }

  /** A rolling leap second is written in the local time then in force. */
  function WrittenLeap(z: Zone, e: LeapTable.Leap): Option<LsInfo>
    requires GoodZone(z) && IsLong(e.trans)
  {
    if !e.roll then Some(LsInfo(e.trans, e.corr))
    else
      var t := Tadd(e.trans, Wrap(-z.ttis[TypeAt(z, e.trans)].gmtoff));
      if t.None? then None else Some(LsInfo(t.value, e.corr))
  }

  /** A transition is moved by the correction of the last leap entry it has reached, if that is in range. */
  lemma LeapAdjustedMeaning(leaps: seq<LsInfo>, t: int, i: int)
    requires IsLong(t) && forall i :: 0 <= i < |leaps| ==> IsLong(leaps[i].corr)
    requires LastReached(leaps, t, i)
    ensures var moved := t + leaps[i].corr;
            LeapAdjusted(leaps, t) ==
            if IsLong(moved) then Some(moved)
            else if (t == LONG_MAX && leaps[i].corr > 0) || (t == LONG_MIN && leaps[i].corr < 0) then Some(t) else None
  {
    assert LastLeap(leaps, t, |leaps|) == i;
    hide LastLeap, LastReached;
  }

  lemma BeforeLeaps(leaps: seq<LsInfo>, t: int)
    requires IsLong(t) && forall i :: 0 <= i < |leaps| ==> IsLong(leaps[i].corr) && t < leaps[i].trans
    ensures LeapAdjusted(leaps, t) == Some(t)
  {
  }

  /** timesub takes the correction off again: the transition shows as the time it was meant for, unless moving it has made
      it reach another leap entry. */
  lemma ShownAsMeant(leaps: seq<LsInfo>, t: int, i: int)
    requires IsLong(t) && forall i :: 0 <= i < |leaps| ==> IsLong(leaps[i].corr)
    requires LastReached(leaps, t, i) && IsLong(t + leaps[i].corr) && LastReached(leaps, t + leaps[i].corr, i)
    ensures LeapAdjusted(leaps, t).Some?
    ensures LeapAdjusted(leaps, t).value - Correction(leaps, LeapAdjusted(leaps, t).value) == t
  {
    LeapAdjustedMeaning(leaps, t, i);
    LeapMeaning(leaps, t + leaps[i].corr, 0);
    hide LeapAdjusted, Correction, LastReached, Hit;
  }

  /** A leap second that does not roll is written as it is, and one that rolls earlier by the offset in force. */
  lemma WrittenLeapMeaning(z: Zone, e: LeapTable.Leap)
    requires GoodZone(z) && IsLong(e.trans)
    ensures !e.roll ==> WrittenLeap(z, e) == Some(LsInfo(e.trans, e.corr))
    ensures var local := e.trans - z.ttis[TypeAt(z, e.trans)].gmtoff;
            e.roll && IsLong(local) && LONG_MIN < z.ttis[TypeAt(z, e.trans)].gmtoff <= LONG_MAX ==>
              WrittenLeap(z, e) == Some(LsInfo(local, e.corr))
  {
    hide TypeAt;
  }

  function TtInfos(p: TypePool.PoolState): (s: seq<TtInfo>)
    ensures |s| == |p.entries|
  {
    seq(|p.entries|, i requires 0 <= i < |p.entries| =>
      TtInfo(p.entries[i].gmtoff, p.entries[i].isdst, p.entries[i].abbrind, p.entries[i].ttisstd))
  }

  function CharCodes(s: string): (r: seq<int>)
    ensures |r| == |s|
  {
    seq(|s|, i requires 0 <= i < |s| => s[i] as int)
  }

  /** What is in the tables of the compiler when writezone is called. */
  predicate Ready(tr: Transitions, pool: TypePool.Pool, table: LeapTable.Table)
    reads tr, tr.ats, tr.types, pool, pool.abbrinds, pool.gmtoffs, table, table.trans, table.corr
  {
    && tr.Valid() && pool.Valid() && table.Valid() && pool.typecnt > 0
    && tr.ats != pool.gmtoffs && tr.ats != pool.isdsts && tr.ats != pool.ttisstds && tr.ats != pool.abbrinds
    && tr.ats != table.trans && tr.ats != table.corr
    && (forall i :: 0 <= i < tr.timecnt ==> IsLong(tr.ats[i]) && 0 <= tr.types[i] < pool.typecnt)
    && (forall i :: 0 <= i < pool.typecnt ==> IsLong(pool.gmtoffs[i]))
    && (forall i :: 0 <= i < table.leapcnt ==> IsLong(table.trans[i]) && IsLong(table.corr[i]))
  }

  lemma CodeNone()
    ensures CodeAll([]) == []
  {
  }

  lemma CodeOneMore(vals: seq<int>, v: int)
    ensures CodeAll(vals + [v]) == CodeAll(vals) + Code(v)
  {
    assert (vals + [v])[..|vals|] == vals;
  }

  /** The first loop of writezone: each transition is corrected in place and written. */
  method AdjustTransitions(tr: Transitions, table: LeapTable.Table) returns (ok: bool, out: seq<byte>)
    requires tr.Valid() && table.Valid() && tr.ats != table.trans && tr.ats != table.corr
    requires forall i :: 0 <= i < tr.timecnt ==> IsLong(tr.ats[i])
    requires forall i :: 0 <= i < table.leapcnt ==> IsLong(table.trans[i]) && IsLong(table.corr[i])
    modifies tr.ats
    ensures var leaps := LeapTable.AsLsInfo(table.Leaps());
            && (ok <==> forall i :: 0 <= i < tr.timecnt ==> LeapAdjusted(leaps, old(tr.ats[i])).Some?)
            && (ok ==> forall i :: 0 <= i < tr.timecnt ==>
                  IsLong(tr.ats[i]) && LeapAdjusted(leaps, old(tr.ats[i])) == Some(tr.ats[i]))
    ensures ok ==> out == CodeAll(tr.ats[..tr.timecnt])
  {
    hide Code, CodeAll, LeapAdjusted;
    out := [];
    CodeNone();
    ghost var leaps := LeapTable.AsLsInfo(table.Leaps());
    var buf := new byte[4];
    var i := 0;
    while i < tr.timecnt
      invariant 0 <= i <= tr.timecnt && fresh(buf)
      invariant table.Valid() && leaps == LeapTable.AsLsInfo(table.Leaps())
      invariant forall k :: 0 <= k < i ==> IsLong(tr.ats[k]) && LeapAdjusted(leaps, old(tr.ats[k])) == Some(tr.ats[k])
      invariant forall k :: i <= k < tr.timecnt ==> tr.ats[k] == old(tr.ats[k])
      invariant out == CodeAll(tr.ats[..i])
    {
      ghost var before := tr.ats[..i];
      var t := AdjustOne(tr.ats[i], table);
      if t.None? {
        return false, out;
      }
      tr.ats[i] := t.value;
      Convert(tr.ats[i], buf);
      out := out + buf[..];
      CodeOneMore(before, tr.ats[i]);
      assert tr.ats[..i + 1] == before + [tr.ats[i]];
      i := i + 1;
    }
    ok := true;
  }

  /** The backward scan of the leap table for one transition. */
  method AdjustOne(t: int, table: LeapTable.Table) returns (r: Option<int>)
    requires IsLong(t) && table.Valid()
    requires forall i :: 0 <= i < table.leapcnt ==> IsLong(table.corr[i])
    ensures r == LeapAdjusted(LeapTable.AsLsInfo(table.Leaps()), t)
    ensures r.Some? ==> IsLong(r.value)
  {
    ghost var leaps := LeapTable.AsLsInfo(table.Leaps());
    var j := table.leapcnt - 1;
    while j >= 0
      invariant -1 <= j < table.leapcnt
      invariant LastLeap(leaps, t, |leaps|) == LastLeap(leaps, t, j + 1)
    {
      assert leaps[j] == LsInfo(table.trans[j], table.corr[j]);
      if t >= table.trans[j] {
        r := Tadd(t, table.corr[j]);
        return;
      }
      j := j - 1;
    }
    r := Some(t);
  }

  /** The zone that a successful writezone has written, from the tables it leaves behind. */
  predicate Written(z: Zone, tr: Transitions, pool: TypePool.Pool, table: LeapTable.Table)
    requires tr.Valid() && pool.Valid() && table.Valid()
    reads tr, tr.ats, tr.types, pool, pool.abbrinds, pool.gmtoffs, pool.isdsts, pool.ttisstds, pool.chars
    reads table, table.trans, table.corr, table.roll
  {
    && z.ats == tr.ats[..tr.timecnt] && z.types == tr.types[..tr.timecnt]
    && z.ttis == TtInfos(pool.State()) && z.chars == CharCodes(pool.State().chars)
    && GoodZone(z) && |z.leaps| == table.leapcnt
    && forall i :: 0 <= i < table.leapcnt ==>
         IsLong(table.trans[i]) && WrittenLeap(z, table.Leaps()[i]) == Some(z.leaps[i])
  }

  method PutHeader(timecnt: int, typecnt: int, charcnt: int, leapcnt: int) returns (out: seq<byte>)
    ensures out == seq(24, _ => 0) + Code(typecnt) + Code(leapcnt) + Code(timecnt) + Code(typecnt) + Code(charcnt)
  {
    hide Code;
    var buf := new byte[4];
    out := seq(24, _ => 0);
    Convert(typecnt, buf);
    out := out + buf[..];
    Convert(leapcnt, buf);
    out := out + buf[..];
    Convert(timecnt, buf);
    out := out + buf[..];
    Convert(typecnt, buf);
    out := out + buf[..];
    Convert(charcnt, buf);
    out := out + buf[..];
  }

  method PutBytes(vals: seq<int>) returns (out: seq<byte>)
    ensures out == Bytes(vals)
  {
    out := [];
    var i := 0;
    while i < |vals|
      invariant 0 <= i <= |vals| && |out| == i
      invariant forall k :: 0 <= k < i ==> out[k] == vals[k] % 256
    {
      out := out + [LowByte(vals[i])];
      i := i + 1;
    }
  }

  method PutTypes(pool: TypePool.Pool) returns (out: seq<byte>)
    requires pool.Valid()
    ensures out == CodeTypes(TtInfos(pool.State()))
  {
    hide Code;
    out := [];
    var buf := new byte[4];
    ghost var ttis := TtInfos(pool.State());
    var i := 0;
    while i < pool.typecnt
      invariant 0 <= i <= pool.typecnt && fresh(buf)
      invariant pool.Valid() && ttis == TtInfos(pool.State())
      invariant out == CodeTypes(ttis[..i])
    {
      Convert(pool.gmtoffs[i], buf);
      out := out + buf[..];
      out := out + [LowByte(pool.isdsts[i])];
      out := out + [LowByte(pool.abbrinds[i])];
      assert ttis[..i + 1][..i] == ttis[..i];
      i := i + 1;
    }
    assert ttis[..i] == ttis;
  }

  method PutFlags(pool: TypePool.Pool) returns (out: seq<byte>)
    requires pool.Valid()
    ensures out == StdFlags(TtInfos(pool.State()))
  {
    out := [];
    ghost var ttis := TtInfos(pool.State());
    var i := 0;
    while i < pool.typecnt
      invariant 0 <= i <= pool.typecnt && |out| == i
      invariant forall k :: 0 <= k < i ==> out[k] == ttis[k].ttisstd % 256
    {
      out := out + [LowByte(pool.ttisstds[i])];
      i := i + 1;
    }
  }

  /** The type a rolling leap second is local to; the scan of writezone is that of localsub. */
  method TypeInForce(t: int, tr: Transitions, pool: TypePool.Pool, ghost z: Zone) returns (j: nat)
    requires tr.Valid() && pool.Valid() && pool.typecnt > 0
    requires z.ats == tr.ats[..tr.timecnt] && z.types == tr.types[..tr.timecnt] && z.ttis == TtInfos(pool.State())
    requires GoodZone(z)
    ensures j == TypeAt(z, t)
  {
    if tr.timecnt == 0 || t < tr.ats[0] {
      j := 0;
      while pool.isdsts[j] != 0
        invariant j < pool.typecnt
        invariant FirstStandard(z.ttis, 0) == FirstStandard(z.ttis, j)
        decreases pool.typecnt - j
      {
        assert z.ttis[j].isdst == pool.isdsts[j];
        if j + 1 >= pool.typecnt {
          j := 0;
          break;
        }
        j := j + 1;
      }
      assert z.ttis[j].isdst == pool.isdsts[j];
    } else {
      j := 1;
      while j < tr.timecnt && t >= tr.ats[j]
        invariant 1 <= j <= tr.timecnt
        invariant FirstAfter(z.ats, t, 1) == FirstAfter(z.ats, t, j)
      {
        assert z.ats[j] == tr.ats[j];
        j := j + 1;
      }
      assert z.types[j - 1] == tr.types[j - 1];
      j := tr.types[j - 1];
    }
  }

  /** The zone under construction: transitions and types, but no leap seconds yet. */
  predicate Underway(z: Zone, tr: Transitions, pool: TypePool.Pool, table: LeapTable.Table)
    reads tr, tr.ats, tr.types, pool, pool.abbrinds, pool.gmtoffs, pool.isdsts, pool.ttisstds, pool.chars, table, table.trans
  {
    && tr.Valid() && pool.Valid() && table.Valid() && pool.typecnt > 0
    && z.ats == tr.ats[..tr.timecnt] && z.types == tr.types[..tr.timecnt] && z.ttis == TtInfos(pool.State())
    && GoodZone(z)
    && forall i :: 0 <= i < table.leapcnt ==> IsLong(table.trans[i])
  }

  method PutLeap(i: nat, tr: Transitions, pool: TypePool.Pool, table: LeapTable.Table, ghost z: Zone)
    returns (ok: bool, out: seq<byte>, ghost e: LsInfo)
    requires Underway(z, tr, pool, table) && i < table.leapcnt
    ensures ok ==> WrittenLeap(z, table.Leaps()[i]) == Some(e) && out == CodeLeap(e)
    ensures !ok ==> WrittenLeap(z, table.Leaps()[i]) == None
  {
    hide Code, TypeAt, GoodZone;
    out := [];
    var buf := new byte[4];
    var trans := table.trans[i];
    e := LsInfo(trans, table.corr[i]);
    if table.roll[i] {
      var j := TypeInForce(trans, tr, pool, z);
      var rolled := Tadd(trans, Wrap(-pool.gmtoffs[j]));
      assert z.ttis[j].gmtoff == pool.gmtoffs[j];
      if rolled.None? {
        return false, out, e;
      }
      trans := rolled.value;
    }
    Convert(trans, buf);
    out := out + buf[..];
    Convert(table.corr[i], buf);
    out := out + buf[..];
    e := LsInfo(trans, table.corr[i]);
    ok := true;
  }

  lemma NoLeapsCoded()
    ensures CodeLeaps([]) == []
  {
  }

  lemma OneMoreLeap(leaps: seq<LsInfo>, e: LsInfo)
    ensures CodeLeaps(leaps + [e]) == CodeLeaps(leaps) + CodeLeap(e)
  {
    assert (leaps + [e])[..|leaps|] == leaps;
  }

  method PutLeaps(tr: Transitions, pool: TypePool.Pool, table: LeapTable.Table, ghost z: Zone)
    returns (ok: bool, out: seq<byte>, ghost leaps: seq<LsInfo>)
    requires Underway(z, tr, pool, table)
    ensures ok <==> forall i :: 0 <= i < table.leapcnt ==> WrittenLeap(z, table.Leaps()[i]).Some?
    ensures ok ==> out == CodeLeaps(leaps) && |leaps| == table.leapcnt
    ensures ok ==> forall i :: 0 <= i < table.leapcnt ==> WrittenLeap(z, table.Leaps()[i]) == Some(leaps[i])
  {
    hide CodeLeap, CodeLeaps, TypeAt, GoodZone, WrittenLeap;
    out, leaps := [], [];
    NoLeapsCoded();
    var i := 0;
    while i < table.leapcnt
      invariant 0 <= i <= table.leapcnt
      invariant |leaps| == i && out == CodeLeaps(leaps)
      invariant forall k :: 0 <= k < i ==> WrittenLeap(z, table.Leaps()[k]) == Some(leaps[k])
    {
      var one;
      ghost var e;
      ok, one, e := PutLeap(i, tr, pool, table, z);
      if !ok {
        return false, out, leaps;
      }
      out := out + one;
      OneMoreLeap(leaps, e);
      leaps := leaps + [e];
      i := i + 1;
    }
    ok := true;
  }

  method PutChars(pool: TypePool.Pool) returns (out: seq<byte>)
    requires pool.Valid()
    ensures out == Bytes(CharCodes(pool.State().chars))
  {
    out := [];
    var i := 0;
    while i < pool.charcnt
      invariant 0 <= i <= pool.charcnt && |out| == i
      invariant forall k :: 0 <= k < i ==> out[k] == (pool.chars[k] as int) % 256
    {
      out := out + [LowByte(pool.chars[i] as int)];
      i := i + 1;
    }
  }

  lemma LeapsDoNotMatter(z: Zone, leaps: seq<LsInfo>, e: LeapTable.Leap)
    requires GoodZone(z) && IsLong(e.trans)
    ensures GoodZone(z.(leaps := leaps)) && WrittenLeap(z.(leaps := leaps), e) == WrittenLeap(z, e)
  {
  }

  predicate NoneRolls(table: LeapTable.Table)
    requires table.Valid()
    reads table, table.roll
  {
    forall i :: 0 <= i < table.leapcnt ==> !table.roll[i]
  }

  /** The zone in the tables, leap seconds aside. */
  function TableZone(tr: Transitions, pool: TypePool.Pool): Zone
    requires tr.Valid() && pool.Valid()
    reads tr, tr.ats, tr.types, pool, pool.abbrinds, pool.gmtoffs, pool.isdsts, pool.ttisstds, pool.chars
  {
    Zone(tr.ats[..tr.timecnt], tr.types[..tr.timecnt], TtInfos(pool.State()), CharCodes(pool.State().chars), [])
  }

  /** No rolling leap second overflows in the local time in force. */
  predicate Rollable(tr: Transitions, pool: TypePool.Pool, table: LeapTable.Table)
    requires tr.Valid() && pool.Valid() && table.Valid()
    reads tr, tr.ats, tr.types, pool, pool.abbrinds, pool.gmtoffs, pool.isdsts, pool.ttisstds, pool.chars
    reads table, table.trans, table.corr, table.roll
  {
    && GoodZone(TableZone(tr, pool))
    && forall i :: 0 <= i < table.leapcnt ==>
         IsLong(table.trans[i]) && WrittenLeap(TableZone(tr, pool), table.Leaps()[i]).Some?
  }

  /** Every transition can be corrected. */
  predicate Correctable(ats: seq<int>, leaps: seq<LsInfo>)
    requires forall i :: 0 <= i < |ats| ==> IsLong(ats[i])
    requires forall i :: 0 <= i < |leaps| ==> IsLong(leaps[i].corr)
  {
    forall i :: 0 <= i < |ats| ==> LeapAdjusted(leaps, ats[i]).Some?
  }

  /** Without rolling leap seconds nothing can overflow but a corrected transition. */
  lemma StayingLeaps(tr: Transitions, pool: TypePool.Pool, table: LeapTable.Table)
    requires tr.Valid() && pool.Valid() && table.Valid() && GoodZone(TableZone(tr, pool))
    requires forall i :: 0 <= i < table.leapcnt ==> IsLong(table.trans[i])
    ensures NoneRolls(table) ==> Rollable(tr, pool, table)
  {
  }

  /** Everything after the transition times. */
  method WriteTables(tr: Transitions, pool: TypePool.Pool, table: LeapTable.Table) returns (r: Option<seq<byte>>, ghost z: Zone)
    requires tr.Valid() && pool.Valid() && table.Valid() && pool.typecnt > 0
    requires forall i :: 0 <= i < tr.timecnt ==> 0 <= tr.types[i] < pool.typecnt
    requires forall i :: 0 <= i < table.leapcnt ==> IsLong(table.trans[i])
    ensures r.Some? <==> Rollable(tr, pool, table)
    ensures r.Some? ==> Written(z, tr, pool, table)
    ensures r.Some? ==> r.value == Bytes(z.types) + CodeTypes(z.ttis) + Bytes(z.chars) + CodeLeaps(z.leaps) + StdFlags(z.ttis)
  {
    hide Bytes, CodeTypes, CodeLeaps, StdFlags, WrittenLeap, TypeAt, CharCodes, TtInfos;
    z := TableZone(tr, pool);
    var types := PutBytes(tr.types[..tr.timecnt]);
    var ttis := PutTypes(pool);
    var chars := PutChars(pool);
    var ok, leapOut;
    ghost var leaps;
    ok, leapOut, leaps := PutLeaps(tr, pool, table, z);
    if !ok {
      return None, z;
    }
    var flags := PutFlags(pool);
    forall i | 0 <= i < table.leapcnt
      ensures WrittenLeap(z.(leaps := leaps), table.Leaps()[i]) == Some(leaps[i])
    {
      LeapsDoNotMatter(z, leaps, table.Leaps()[i]);
    }
    z := z.(leaps := leaps);
    r := Some(types + ttis + chars + leapOut + flags);
  }

  /** writezone: the bytes of the zone, or the error exit when a corrected or rolled time overflows. */
  method WriteZone(tr: Transitions, pool: TypePool.Pool, table: LeapTable.Table) returns (r: Option<seq<byte>>, ghost z: Zone)
    requires Ready(tr, pool, table)
    modifies tr.ats
    ensures tr.Valid() && pool.Valid() && table.Valid()
    ensures pool.State() == old(pool.State()) && table.Leaps() == old(table.Leaps())
    ensures r.Some? <==>
      Correctable(old(tr.ats[..tr.timecnt]), LeapTable.AsLsInfo(table.Leaps())) && Rollable(tr, pool, table)
    ensures r.Some? ==> Written(z, tr, pool, table) && r.value == Encode(z)
    ensures r.Some? ==> forall i :: 0 <= i < tr.timecnt ==>
      && IsLong(tr.ats[i])
      && LeapAdjusted(LeapTable.AsLsInfo(table.Leaps()), old(tr.ats[i])) == Some(tr.ats[i])
  {
    hide Written, LeapAdjusted, Code, CodeAll, Bytes, CodeTypes, CodeLeaps, StdFlags, Rollable;
    z := Zone([], [], [], [], []);
    var head := PutHeader(tr.timecnt, pool.typecnt, pool.charcnt, table.leapcnt);
    var ok, times := AdjustTransitions(tr, table);
    if !ok {
      return None, z;
    }
    var tables;
    tables, z := WriteTables(tr, pool, table);
    if tables.None? {
      return None, z;
    }
    WrittenCounts(z, tr, pool, table);
    Assembled(z, head, times, tables.value);
    r := Some(head + times + tables.value);
  }

  lemma WrittenCounts(z: Zone, tr: Transitions, pool: TypePool.Pool, table: LeapTable.Table)
    requires tr.Valid() && pool.Valid() && table.Valid() && Written(z, tr, pool, table)
    ensures z.ats == tr.ats[..tr.timecnt] && |z.ats| == tr.timecnt && |z.ttis| == pool.typecnt
    ensures |z.chars| == pool.charcnt && |z.leaps| == table.leapcnt
  {
  }

  lemma Assembled(z: Zone, head: seq<byte>, times: seq<byte>, tables: seq<byte>)
    requires head == Header(z) && times == CodeAll(z.ats)
    requires tables == Bytes(z.types) + CodeTypes(z.ttis) + Bytes(z.chars) + CodeLeaps(z.leaps) + StdFlags(z.ttis)
    ensures head + times + tables == Encode(z)
  {
    hide Header, CodeAll, Bytes, CodeTypes, CodeLeaps, StdFlags;
  }

  lemma WrittenIsWritable(z: Zone, tr: Transitions, pool: TypePool.Pool, table: LeapTable.Table)
    requires tr.Valid() && pool.Valid() && table.Valid() && Written(z, tr, pool, table)
    requires forall i :: 0 <= i < tr.timecnt ==> IsLong(tr.ats[i])
    requires forall i :: 0 <= i < pool.typecnt ==>
      IsLong(pool.gmtoffs[i]) && 0 <= pool.isdsts[i] <= 1 && 0 <= pool.ttisstds[i] <= 1
    requires forall i :: 0 <= i < pool.charcnt ==> pool.chars[i] as int < 256
    requires forall i :: 0 <= i < table.leapcnt ==> IsLong(table.corr[i])
    ensures Writable(z)
  {
    hide TypeAt;
    var p := pool.State();
    forall i | 0 <= i < |z.chars|
      ensures 0 <= z.chars[i] < 256
    {
      assert p.chars[i] == pool.chars[i];
    }
    forall i | 0 <= i < |z.leaps|
      ensures IsLong(z.leaps[i].trans) && IsLong(z.leaps[i].corr)
    {
      assert table.Leaps()[i].corr == table.corr[i];
    }
    forall i | 0 <= i < |z.ttis|
      ensures IsLong(z.ttis[i].gmtoff) && 0 <= z.ttis[i].abbrind <= |z.chars|
      ensures 0 <= z.ttis[i].isdst <= 1 && 0 <= z.ttis[i].ttisstd <= 1
    {
      assert p.entries[i].gmtoff == pool.gmtoffs[i];
    }
  }

  /** A zone that writezone has written loads again: the reader's tables hold the very zone in the writer's. */
  method WriteThenLoad(tr: Transitions, pool: TypePool.Pool, table: LeapTable.Table, below: int)
    returns (r: Option<seq<byte>>, loaded: bool, sp: State)
    requires Ready(tr, pool, table)
    requires forall i :: 0 <= i < pool.typecnt ==> 0 <= pool.isdsts[i] <= 1 && 0 <= pool.ttisstds[i] <= 1
    requires forall i :: 0 <= i < pool.charcnt ==> pool.chars[i] as int < 256
    modifies tr.ats
    ensures tr.Valid() && pool.Valid() && table.Valid() && fresh(sp)
    ensures r.Some? <==>
      Correctable(old(tr.ats[..tr.timecnt]), LeapTable.AsLsInfo(table.Leaps())) && Rollable(tr, pool, table)
    ensures r.Some? ==> loaded && sp.Loaded() && Written(sp.View(), tr, pool, table)
    ensures r.Some? ==> forall i :: 0 <= i < tr.timecnt ==>
      LeapAdjusted(LeapTable.AsLsInfo(table.Leaps()), old(tr.ats[i])) == Some(tr.ats[i])
  {
    hide Written, LeapAdjusted, Encode, Accepts, Contents, Rollable, Correctable;
    ghost var z;
    r, z := WriteZone(tr, pool, table);
    if r.Some? {
      WrittenIsWritable(z, tr, pool, table);
      hide Writable;
      loaded, sp := LoadWritten(r.value, below, z);
    } else {
      sp := new State(below);
      loaded := false;
    }
  }

  method LoadWritten(f: seq<byte>, below: int, ghost z: Zone) returns (loaded: bool, sp: State)
    requires Writable(z) && f == Encode(z)
    ensures fresh(sp) && loaded && sp.Loaded() && sp.View() == z
  {
    RoundTrip(z);
    hide Writable, Encode, Accepts, Contents;
    sp := new State(below);
    loaded := TzLoad(f, sp);
  }
}
