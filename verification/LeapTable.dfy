/** The leap second table of zic.c: addleap keeps parallel arrays sorted, adjleap turns signs into running corrections. */
module LeapTable {
  import opened CInt
  import opened ZicArith
  import opened ZoneState
  import opened LocalTime

  datatype Leap = Leap(trans: int, corr: int, roll: bool)

  predicate Sorted(s: seq<Leap>) {
    forall i, j :: 0 <= i < j < |s| ==> s[i].trans < s[j].trans
  }

  predicate Present(s: seq<Leap>, t: int) {
    exists x :: x in s && x.trans == t
  }

  /** Insertion before the first later moment. */
  function Insert(s: seq<Leap>, e: Leap): seq<Leap> {
    if s == [] || e.trans <= s[0].trans then [e] + s else [s[0]] + Insert(s[1..], e)
  }

  lemma {:induction false} InsertAt(s: seq<Leap>, e: Leap, i: nat)
    requires i <= |s|
    requires forall j :: 0 <= j < i ==> s[j].trans < e.trans
    requires i < |s| ==> e.trans <= s[i].trans
    ensures Insert(s, e) == s[..i] + [e] + s[i..]
    decreases s
  {
    if i > 0 {
      InsertAt(s[1..], e, i - 1);
      assert s[..i] == [s[0]] + s[1..][..i - 1];
    }
  }

  lemma {:induction false} InsertMembers(s: seq<Leap>, e: Leap)
    ensures forall x :: x in Insert(s, e) <==> x == e || x in s
    ensures multiset(Insert(s, e)) == multiset(s) + multiset{e}
  {
    if s != [] {
      assert s == [s[0]] + s[1..];
      if e.trans > s[0].trans {
        InsertMembers(s[1..], e);
      }
    }
  }

  /** A new moment goes in without disturbing the order. */
  lemma {:induction false} InsertSorted(s: seq<Leap>, e: Leap)
    requires Sorted(s) && !Present(s, e.trans)
    ensures Sorted(Insert(s, e))
  {
    if s != [] && e.trans > s[0].trans {
      InsertSorted(s[1..], e);
      InsertMembers(s[1..], e);
      var r := Insert(s[1..], e);
      forall j | 0 <= j < |r|
        ensures s[0].trans < r[j].trans
      {
        assert r[j] in r;
      }
    } else if s != [] {
      assert s[0] in s;
    }
  }

  /** As addleap leaves them: long moments, unit signs, no more than fit the table. */
  predicate Signed(s: seq<Leap>) {
    |s| <= TZ_MAX_LEAPS && forall i :: 0 <= i < |s| ==> IsLong(s[i].trans) && (s[i].corr == 1 || s[i].corr == -1)
  }

  /** The sum of the first n signs. */
  function Sum(s: seq<Leap>, n: nat): int
    requires n <= |s|
  {
    if n == 0 then 0 else Sum(s, n - 1) + s[n - 1].corr
  }

  lemma {:induction false} SumSmall(s: seq<Leap>, n: nat)
    requires Signed(s) && n <= |s|
    ensures 0 - n <= Sum(s, n) <= n
  {
    if n > 0 {
      SumSmall(s, n - 1);
    }
  }

  /** A moment shifted by the sum of the signs before it. */
  function Moment(s: seq<Leap>, i: nat): int
    requires i < |s|
  {
    s[i].trans + Sum(s, i)
  }

  /** The same as adjleap computes it. */
  function Shifted(s: seq<Leap>, i: nat): Option<int>
    requires Signed(s) && i < |s|
  {
    SumSmall(s, i);
    Tadd(s[i].trans, Sum(s, i))
  }

  /** Each moment is shifted by the sum of the signs before it; the extreme times stay where they are rather than overflow,
      and any other overflow is the error exit. */
  lemma ShiftedMeaning(s: seq<Leap>, i: nat)
    requires Signed(s) && i < |s|
    ensures var m, t, sum := Moment(s, i), s[i].trans, Sum(s, i);
            && m == t + sum
            && Shifted(s, i) == if IsLong(m) then Some(m)
                                else if (t == LONG_MAX && sum > 0) || (t == LONG_MIN && sum < 0) then Some(t) else None
  {
    hide Shifted, Sum, Signed, Tadd;
    SumStep(s, i);
    SmallTadd(s[i].trans, Sum(s, i));
  }

  lemma SmallTadd(t: int, sum: int)
    requires IsLong(t) && -50 <= sum <= 50
    ensures Tadd(t, sum) == if IsLong(t + sum) then Some(t + sum)
                            else if (t == LONG_MAX && sum > 0) || (t == LONG_MIN && sum < 0) then Some(t) else None
  {
  }

  lemma SumStart(s: seq<Leap>)
    ensures Sum(s, 0) == 0
  {
  }

  lemma SumStep(s: seq<Leap>, i: nat)
    requires Signed(s) && i < |s|
    ensures IsLong(s[i].trans) && -TZ_MAX_LEAPS <= Sum(s, i) <= TZ_MAX_LEAPS
    ensures Shifted(s, i) == Tadd(s[i].trans, Sum(s, i)) && Sum(s, i + 1) == s[i].corr + Sum(s, i)
  {
    SumSmall(s, i);
  }

  predicate Adjustable(s: seq<Leap>)
    requires Signed(s)
  {
    forall i :: 0 <= i < |s| ==> Shifted(s, i).Some?
  }

  function Adjusted(s: seq<Leap>): (r: seq<Leap>)
    requires Signed(s) && Adjustable(s)
    ensures |r| == |s|
  {
    seq(|s|, i requires 0 <= i < |s| => Leap(Shifted(s, i).value, Sum(s, i + 1), s[i].roll))
  }

  lemma Spliced(r: seq<Leap>, s: seq<Leap>, i: nat, e: Leap)
    requires |r| == |s| + 1 && i <= |s| && r[i] == e
    requires forall k :: 0 <= k < i ==> r[k] == s[k]
    requires forall k :: i < k < |r| ==> r[k] == s[k - 1]
    ensures r == s[..i] + [e] + s[i..]
  {
  }

  lemma NotPresent(s: seq<Leap>, t: int, i: nat)
    requires Sorted(s) && i <= |s|
    requires forall j :: 0 <= j < i ==> s[j].trans < t
    requires i < |s| ==> t < s[i].trans
    ensures !Present(s, t)
  {
    forall x | x in s
      ensures x.trans != t
    {
      var j :| 0 <= j < |s| && s[j] == x;
      assert j > i ==> s[i].trans < s[j].trans;
    }
  }

  class Table {
    var leapcnt: int
    const trans: array<int>
    const corr: array<int>
    const roll: array<bool>

    predicate Valid()
      reads this
    {
      && 0 <= leapcnt <= TZ_MAX_LEAPS && trans != corr
      && trans.Length == TZ_MAX_LEAPS && corr.Length == TZ_MAX_LEAPS && roll.Length == TZ_MAX_LEAPS
    }

    /** The parallel arrays as one list. */
    function Leaps(): (s: seq<Leap>)
      requires Valid()
      reads this, trans, corr, roll
      ensures |s| == leapcnt
    {
      seq(leapcnt, i requires 0 <= i < leapcnt && Valid() reads this, trans, corr, roll => Leap(trans[i], corr[i], roll[i]))
    }

    constructor ()
      ensures Valid() && Leaps() == []
      ensures fresh(trans) && fresh(corr) && fresh(roll)
    {
      leapcnt := 0;
      trans := new int[TZ_MAX_LEAPS](_ => 0);
      corr := new int[TZ_MAX_LEAPS](_ => 0);
      roll := new bool[TZ_MAX_LEAPS](_ => false);
    }

    /** Fails when the table is full or the moment is repeated; otherwise inserts in time order. */
    method AddLeap(t: int, positive: bool, rolling: bool) returns (ok: bool)
      requires Valid() && Sorted(Leaps())
      modifies this`leapcnt, trans, corr, roll
      ensures Valid() && Sorted(Leaps())
      ensures ok <==> old(leapcnt) < TZ_MAX_LEAPS && !Present(old(Leaps()), t)
      ensures Leaps() == if ok then Insert(old(Leaps()), Leap(t, if positive then 1 else -1, rolling)) else old(Leaps())
    {
      if leapcnt >= TZ_MAX_LEAPS {
        return false;
      }
      ghost var s := Leaps();
      var i := 0;
      while i < leapcnt && t > trans[i]
        invariant 0 <= i <= leapcnt
        invariant forall j :: 0 <= j < i ==> s[j].trans < t
      {
        assert s[i].trans == trans[i];
        i := i + 1;
      }
      if i < leapcnt && t == trans[i] {
        assert s[i].trans == t;
        return false;
      }
      assert i < leapcnt ==> s[i].trans == trans[i] > t;
      var e := Leap(t, if positive then 1 else -1, rolling);
      assert !Present(s, t) by {
        NotPresent(s, t, i);
      }
      InsertAt(s, e, i);
      InsertSorted(s, e);
      StoreAt(i, e);
      ok := true;
    }

    /** Makes room at i and stores the new entry. */
    method StoreAt(i: nat, e: Leap)
      requires Valid() && i <= leapcnt < TZ_MAX_LEAPS
      modifies this`leapcnt, trans, corr, roll
      ensures Valid() && Leaps() == old(Leaps()[..i]) + [e] + old(Leaps()[i..])
    {
      ghost var s := Leaps();
      ShiftUp(i);
      trans[i] := e.trans;
      corr[i] := e.corr;
      roll[i] := e.roll;
      leapcnt := leapcnt + 1;
      ghost var r := Leaps();
      assert r[i] == e;
      assert forall k :: 0 <= k < i ==> r[k] == s[k];
      forall k | i < k < |r|
        ensures r[k] == s[k - 1]
      {
      }
      Spliced(r, s, i, e);
    }

    /** Moves the entries from i on up by one, last first. */
    method ShiftUp(i: nat)
      requires Valid() && i <= leapcnt < TZ_MAX_LEAPS
      modifies trans, corr, roll
      ensures forall k :: 0 <= k < i ==> trans[k] == old(trans[k]) && corr[k] == old(corr[k]) && roll[k] == old(roll[k])
      ensures forall k :: i < k <= leapcnt ==>
        trans[k] == old(trans[k - 1]) && corr[k] == old(corr[k - 1]) && roll[k] == old(roll[k - 1])
    {
      var j := leapcnt;
      while j > i
        invariant i <= j <= leapcnt
        invariant forall k :: 0 <= k <= j ==> trans[k] == old(trans[k]) && corr[k] == old(corr[k]) && roll[k] == old(roll[k])
        invariant forall k :: j < k <= leapcnt ==>
          trans[k] == old(trans[k - 1]) && corr[k] == old(corr[k - 1]) && roll[k] == old(roll[k - 1])
      {
        trans[j] := trans[j - 1];
        corr[j] := corr[j - 1];
        roll[j] := roll[j - 1];
        j := j - 1;
      }
    }

    /** Propagates the leap seconds forward. Fails when a shifted moment overflows. */
    method AdjLeap() returns (ok: bool)
      requires Valid() && Signed(Leaps())
      modifies trans, corr
      ensures Valid()
      ensures ok <==> Adjustable(old(Leaps()))
      ensures ok ==> Leaps() == Adjusted(old(Leaps()))
    {
      hide Shifted, Sum;
      ghost var s := Leaps();
      SumStart(s);
      var last := 0;
      var i := 0;
      while i < leapcnt
        invariant 0 <= i <= leapcnt
        invariant last == Sum(s, i)
        invariant forall k :: 0 <= k < i ==> Shifted(s, k) == Some(trans[k]) && corr[k] == Sum(s, k + 1)
        invariant forall k :: i <= k < leapcnt ==> trans[k] == s[k].trans && corr[k] == s[k].corr
      {
        assert s[i].trans == trans[i] && s[i].corr == corr[i];
        SumSmall(s, i);
        SumStep(s, i);
        var sum := Tadd(trans[i], last);
        if sum.None? {
          return false;
        }
        trans[i] := sum.value;
        corr[i] := corr[i] + last;
        last := corr[i];
        i := i + 1;
      }
      ok := true;
      assert Leaps() == Adjusted(s);
    }
  }

  // ---------------------------------------------------------------- order of insertion

  /** The table after a list of successful insertions. */
  function InsertAll(es: seq<Leap>): seq<Leap> {
    if es == [] then [] else Insert(InsertAll(es[..|es| - 1]), es[|es| - 1])
  }

  predicate Distinct(es: seq<Leap>) {
    forall i, j :: 0 <= i < j < |es| ==> es[i].trans != es[j].trans
  }

  lemma {:induction false} InsertAllSorted(es: seq<Leap>)
    requires Distinct(es)
    ensures Sorted(InsertAll(es)) && multiset(InsertAll(es)) == multiset(es)
    ensures forall x :: x in InsertAll(es) <==> x in es
  {
    if es != [] {
      var n := |es| - 1;
      var before, e := es[..n], es[n];
      InsertAllSorted(before);
      LastIsNew(es, n);
      InsertSorted(InsertAll(before), e);
      InsertMembers(InsertAll(before), e);
      hide Insert;
      assert es == before + [e];
    }
  }

  lemma LastIsNew(es: seq<Leap>, n: nat)
    requires Distinct(es) && n < |es|
    ensures forall x :: x in es[..n] ==> x.trans != es[n].trans
  {
  }

  /** Sorted lists of the same entries are the same list. */
  lemma {:induction false} SortedUnique(a: seq<Leap>, b: seq<Leap>)
    requires Sorted(a) && Sorted(b) && multiset(a) == multiset(b)
    ensures a == b
  {
    SameSize(a, b);
    if a != [] {
      SameFirst(a, b);
      RestOf(a);
      RestOf(b);
      SortedUnique(a[1..], b[1..]);
      assert a == [a[0]] + a[1..] && b == [b[0]] + b[1..];
    }
  }

  lemma RestOf(a: seq<Leap>)
    requires a != []
    ensures multiset(a[1..]) == multiset(a) - multiset{a[0]}
  {
    assert a == [a[0]] + a[1..];
  }

  lemma SameFirst(a: seq<Leap>, b: seq<Leap>)
    requires Sorted(a) && Sorted(b) && multiset(a) == multiset(b) && |a| == |b| > 0
    ensures a[0] == b[0]
  {
    assert a[0] in multiset(b) && b[0] in multiset(a);
    var i :| 0 <= i < |b| && b[i] == a[0];
    var j :| 0 <= j < |a| && a[j] == b[0];
  }

  lemma SameSize(a: seq<Leap>, b: seq<Leap>)
    requires multiset(a) == multiset(b)
    ensures |a| == |b|
  {
    assert |multiset(a)| == |a| && |multiset(b)| == |b|;
  }

  /** The order of the input lines does not matter: distinct moments give the same sorted table. */
  lemma OrderIrrelevant(es: seq<Leap>, fs: seq<Leap>)
    requires Distinct(es) && Distinct(fs) && multiset(es) == multiset(fs)
    ensures InsertAll(es) == InsertAll(fs)
  {
    InsertAllSorted(es);
    InsertAllSorted(fs);
    SortedUnique(InsertAll(es), InsertAll(fs));
  }

  // ---------------------------------------------------------------- what timesub reads back

  /** The table as timesub scans it. */
  function AsLsInfo(s: seq<Leap>): (r: seq<LsInfo>)
    ensures |r| == |s|
  {
    seq(|s|, i requires 0 <= i < |s| => LsInfo(s[i].trans, s[i].corr))
  }

  /** No moment is so extreme that adding its correction leaves the range of a time. */
  predicate NoSaturation(s: seq<Leap>)
    requires Signed(s)
  {
    forall i :: 0 <= i < |s| ==> IsLong(Moment(s, i))
  }

  /** The signs of the leap seconds whose shifted moment t has reached. */
  function Reached(s: seq<Leap>, t: int, n: nat): int
    requires n <= |s|
  {
    if n == 0 then 0
    else Reached(s, t, n - 1) + (if Moment(s, n - 1) <= t then s[n - 1].corr else 0)
  }

  /** Shifting keeps the moments in order, though a negative leap second can make two coincide. */
  lemma {:induction false} ShiftedOrder(s: seq<Leap>, i: nat, j: nat)
    requires Sorted(s) && Signed(s) && i <= j < |s|
    ensures Moment(s, i) <= Moment(s, j)
    decreases j
  {
    if i < j {
      ShiftedOrder(s, i, j - 1);
    }
  }

  lemma {:induction false} ReachedPrefix(s: seq<Leap>, t: int, k: nat, n: nat)
    requires k <= n <= |s|
    requires forall i :: 0 <= i < n ==> (Moment(s, i) <= t <==> i < k)
    ensures Reached(s, t, n) == Sum(s, k)
    decreases n
  {
    hide Moment;
    if n > 0 {
      var i := n - 1;
      assert Moment(s, i) <= t <==> i < k;
      if k == n {
        ReachedPrefix(s, t, k - 1, n - 1);
      } else {
        ReachedPrefix(s, t, k, n - 1);
      }
    }
  }

  lemma ShiftedExactly(s: seq<Leap>, i: nat)
    requires Signed(s) && NoSaturation(s) && i < |s|
    ensures Shifted(s, i) == Some(Moment(s, i))
  {
    SumSmall(s, i);
  }

  /** After adjleap the backward scan of timesub finds the net correction of all moments reached. */
  lemma NetCorrection(s: seq<Leap>, t: int)
    requires Sorted(s) && Signed(s) && NoSaturation(s)
    ensures Adjustable(s)
    ensures Correction(AsLsInfo(Adjusted(s)), t) == Reached(s, t, |s|)
  {
    hide Shifted, Moment, Sum, Reached, LastLeap;
    forall i | 0 <= i < |s|
      ensures Shifted(s, i) == Some(Moment(s, i))
    {
      ShiftedExactly(s, i);
    }
    var ls := AsLsInfo(Adjusted(s));
    var k := LastLeap(ls, t, |ls|);
    forall i | 0 <= i < |s|
      ensures Moment(s, i) <= t <==> i < k + 1
    {
      assert ls[i].trans == Moment(s, i);
      if i <= k {
        ShiftedOrder(s, i, k);
        assert ls[k].trans == Moment(s, k);
      }
    }
    ReachedPrefix(s, t, k + 1, |s|);
    NoneReached(s);
  }

  lemma NoneReached(s: seq<Leap>)
    ensures Sum(s, 0) == 0
  {
  }
}
