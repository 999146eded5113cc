/** The interned local time types of zic.c and their shared pool of abbreviations (addtype, newabbr). */
module TypePool {
  import opened ZicArith
  import opened ZoneState
  import opened CString

  /** What a caller asks for. */
  datatype TypeKey = TypeKey(gmtoff: int, abbr: string, isdst: int, ttisstd: int)

  /** What is stored: the abbreviation as an index into the pool. */
  datatype Entry = Entry(gmtoff: int, abbrind: nat, isdst: int, ttisstd: int)

  datatype PoolState = PoolState(entries: seq<Entry>, chars: string)

  /** The C string that starts at index j. */
  function StrAt(s: string, j: nat): string
    requires j <= |s|
    decreases |s| - j
  {
    if j == |s| || s[j] == NUL then "" else [s[j]] + StrAt(s, j + 1)
  }

  predicate Terminated(s: string) {
    s == "" || s[|s| - 1] == NUL
  }

  function KeyOf(p: PoolState, i: nat): TypeKey
    requires i < |p.entries| && p.entries[i].abbrind <= |p.chars|
  {
    var e := p.entries[i];
    TypeKey(e.gmtoff, StrAt(p.chars, e.abbrind), e.isdst, e.ttisstd)
  }

  /** Every index denotes a string of the pool, and no two entries denote the same type. */
  predicate WellFormed(p: PoolState) {
    && Terminated(p.chars)
    && (forall i :: 0 <= i < |p.entries| ==> p.entries[i].abbrind < |p.chars|)
    && (forall i, j :: 0 <= i < j < |p.entries| ==> KeyOf(p, i) != KeyOf(p, j))
  }

  predicate InRange(p: PoolState) {
    && |p.entries| <= TZ_MAX_TYPES && |p.chars| < TZ_MAX_CHARS
    && forall i :: 0 <= i < |p.entries| ==> p.entries[i].abbrind < |p.chars|
  }

  /** The first entry from i on that denotes the key. */
  function FindKey(p: PoolState, key: TypeKey, i: nat): (k: nat)
    requires InRange(p) && i <= |p.entries|
    ensures i <= k <= |p.entries|
    ensures k < |p.entries| ==> KeyOf(p, k) == key
    ensures forall j :: i <= j < k ==> KeyOf(p, j) != key
    decreases |p.entries| - i
  {
    if i == |p.entries| || KeyOf(p, i) == key then i else FindKey(p, key, i + 1)
  }

  /** The first index from j on whose string is the abbreviation; suffixes of longer ones count. */
  function FindAbbr(s: string, abbr: string, j: nat): (k: nat)
    requires j <= |s|
    ensures j <= k <= |s|
    ensures k < |s| ==> StrAt(s, k) == abbr
    ensures forall i :: j <= i < k ==> StrAt(s, i) != abbr
    decreases |s| - j
  {
    if j == |s| || StrAt(s, j) == abbr then j else FindAbbr(s, abbr, j + 1)
  }

  /** addtype as a function of the tables: None is an error exit. */
  function Intern(p: PoolState, key: TypeKey): (r: Option<(PoolState, nat)>)
    requires InRange(p)
    ensures r.Some? ==> InRange(r.value.0) && r.value.1 < |r.value.0.entries|
  {
    var i := FindKey(p, key, 0);
    if i < |p.entries| then Some((p, i))
    else if |p.entries| >= TZ_MAX_TYPES then None
    else
      var j := FindAbbr(p.chars, key.abbr, 0);
      if j == |p.chars| && |p.chars| + |key.abbr| + 1 >= TZ_MAX_CHARS then None
      else
        var chars := if j == |p.chars| then p.chars + key.abbr + [NUL] else p.chars;
        Some((PoolState(p.entries + [Entry(key.gmtoff, j, key.isdst, key.ttisstd)], chars), i))
  }

  /** A type that is there is found; a new one fails only for want of room for it, or for its abbreviation when the pool
      holds that nowhere, not even as the end of another. */
  lemma InternFails(p: PoolState, key: TypeKey)
    requires InRange(p)
    ensures Intern(p, key) == None <==>
      && (forall i :: 0 <= i < |p.entries| ==> KeyOf(p, i) != key)
      && (|p.entries| >= TZ_MAX_TYPES
          || ((forall j :: 0 <= j < |p.chars| ==> StrAt(p.chars, j) != key.abbr)
              && |p.chars| + |key.abbr| + 1 >= TZ_MAX_CHARS))
  {
    hide StrAt, KeyOf;
    KeyThere(p, key);
    AbbrThere(p.chars, key.abbr);
  }

  lemma KeyThere(p: PoolState, key: TypeKey)
    requires InRange(p)
    ensures FindKey(p, key, 0) == |p.entries| <==> forall i :: 0 <= i < |p.entries| ==> KeyOf(p, i) != key
  {
    hide KeyOf;
    var i := FindKey(p, key, 0);
    assert i < |p.entries| ==> KeyOf(p, i) == key;
  }

  lemma AbbrThere(chars: string, abbr: string)
    ensures FindAbbr(chars, abbr, 0) == |chars| <==> forall j :: 0 <= j < |chars| ==> StrAt(chars, j) != abbr
  {
    hide StrAt;
    var j := FindAbbr(chars, abbr, 0);
    assert j < |chars| ==> StrAt(chars, j) == abbr;
  }

  lemma {:induction false} StrAtStable(s: string, more: string, j: nat)
    requires Terminated(s) && j < |s|
    ensures StrAt(s + more, j) == StrAt(s, j)
    decreases |s| - j
  {
    if s[j] != NUL {
      StrAtStable(s, more, j + 1);
    }
  }

  lemma {:induction false} StrAtNew(s: string, abbr: string, k: nat)
    requires NulFree(abbr) && k <= |abbr|
    ensures StrAt(s + abbr + [NUL], |s| + k) == abbr[k..]
    decreases |abbr| - k
  {
    if k < |abbr| {
      StrAtNew(s, abbr, k + 1);
    }
  }

  /** One call: the index denotes the key, and every index handed out before still denotes its own. */
  lemma InternStep(p: PoolState, key: TypeKey)
    requires InRange(p) && WellFormed(p) && NulFree(key.abbr) && Intern(p, key).Some?
    ensures var (q, i) := Intern(p, key).value;
            && WellFormed(q) && KeyOf(q, i) == key && |p.entries| <= |q.entries|
            && (forall k :: 0 <= k < |p.entries| ==> KeyOf(q, k) == KeyOf(p, k))
            && ((exists k :: 0 <= k < |p.entries| && KeyOf(p, k) == key) <==> q == p)
  {
    var (q, i) := Intern(p, key).value;
    if q != p {
      StrAtNew(p.chars, key.abbr, 0);
      forall k | 0 <= k < |p.entries|
        ensures KeyOf(q, k) == KeyOf(p, k)
      {
        StrAtStable(p.chars, key.abbr + [NUL], p.entries[k].abbrind);
        assert p.chars + key.abbr + [NUL] == p.chars + (key.abbr + [NUL]);
      }
      assert KeyOf(q, |p.entries|) == key;
    }
  }

  /** A run of calls, with the indices they return. */
  function InternAll(p: PoolState, keys: seq<TypeKey>): (r: Option<(PoolState, seq<nat>)>)
    requires InRange(p)
    ensures r.Some? ==> InRange(r.value.0) && |r.value.1| == |keys|
    ensures r.Some? ==> forall i :: 0 <= i < |keys| ==> r.value.1[i] < |r.value.0.entries|
  {
    if keys == [] then Some((p, []))
    else
      var n := |keys| - 1;
      var before := InternAll(p, keys[..n]);
      if before.None? then None
      else
        var last := Intern(before.value.0, keys[n]);
        if last.None? then None else
          InternKeeps(before.value.0, keys[n]);
          Some((last.value.0, before.value.1 + [last.value.1]))
  }

  lemma InternKeeps(p: PoolState, key: TypeKey)
    requires InRange(p) && Intern(p, key).Some?
    ensures |p.entries| <= |Intern(p, key).value.0.entries|
  {
  }

  /** After any run of calls every returned index still denotes the key it was returned for. */
  lemma {:induction false} RunStable(p: PoolState, keys: seq<TypeKey>)
    requires InRange(p) && WellFormed(p) && InternAll(p, keys).Some?
    requires forall i :: 0 <= i < |keys| ==> NulFree(keys[i].abbr)
    ensures var (q, ix) := InternAll(p, keys).value;
            WellFormed(q) && forall i :: 0 <= i < |keys| ==> KeyOf(q, ix[i]) == keys[i]
  {
    if keys != [] {
      var n := |keys| - 1;
      RunStable(p, keys[..n]);
      InternStep(InternAll(p, keys[..n]).value.0, keys[n]);
    }
  }

  /** Interning is sound: equal keys get the same index and different keys different ones. */
  lemma InterningSound(p: PoolState, keys: seq<TypeKey>, i: nat, j: nat)
    requires InRange(p) && WellFormed(p) && InternAll(p, keys).Some?
    requires forall k :: 0 <= k < |keys| ==> NulFree(keys[k].abbr)
    requires i < |keys| && j < |keys|
    ensures var ix := InternAll(p, keys).value.1; ix[i] == ix[j] <==> keys[i] == keys[j]
  {
    RunStable(p, keys);
    var (q, ix) := InternAll(p, keys).value;
    if ix[i] != ix[j] {
      var a, b := if ix[i] < ix[j] then ix[i] else ix[j], if ix[i] < ix[j] then ix[j] else ix[i];
      assert KeyOf(q, a) != KeyOf(q, b);
    }
  }

  /** The file-level tables. */
  class Pool {
    var typecnt: int
    var charcnt: int
    const gmtoffs: array<int>
    const isdsts: array<int>
    const ttisstds: array<int>
    const abbrinds: array<int>
    const chars: array<char>

    predicate Valid()
      reads this, abbrinds
    {
      && 0 <= typecnt <= TZ_MAX_TYPES && 0 <= charcnt < TZ_MAX_CHARS
      && gmtoffs.Length == TZ_MAX_TYPES && isdsts.Length == TZ_MAX_TYPES && ttisstds.Length == TZ_MAX_TYPES
      && abbrinds.Length == TZ_MAX_TYPES && chars.Length == TZ_MAX_CHARS
      && gmtoffs != isdsts && gmtoffs != ttisstds && gmtoffs != abbrinds
      && isdsts != ttisstds && isdsts != abbrinds && ttisstds != abbrinds
      && forall i :: 0 <= i < typecnt ==> 0 <= abbrinds[i] < charcnt
    }

    /** The tables as a value. */
    function State(): (p: PoolState)
      requires Valid()
      reads this, gmtoffs, isdsts, ttisstds, abbrinds, chars
      ensures InRange(p) && |p.entries| == typecnt && |p.chars| == charcnt
    {
      PoolState(seq(typecnt, i requires 0 <= i < typecnt && Valid() reads this, gmtoffs, isdsts, ttisstds, abbrinds =>
                      Entry(gmtoffs[i], abbrinds[i], isdsts[i], ttisstds[i])),
                chars[..charcnt])
    }

    constructor ()
      ensures Valid() && State() == PoolState([], "")
      ensures fresh(gmtoffs) && fresh(isdsts) && fresh(ttisstds) && fresh(abbrinds) && fresh(chars)
    {
      typecnt, charcnt := 0, 0;
      gmtoffs := new int[TZ_MAX_TYPES](_ => 0);
      isdsts := new int[TZ_MAX_TYPES](_ => 0);
      ttisstds := new int[TZ_MAX_TYPES](_ => 0);
      abbrinds := new int[TZ_MAX_TYPES](_ => 0);
      chars := new char[TZ_MAX_CHARS](_ => NUL);
    }

    /** newabbr: appends the string and its NUL, unless the pool would fill up. */
    method NewAbbr(abbr: string) returns (ok: bool)
      requires Valid()
      modifies this`charcnt, chars
      ensures Valid()
      ensures ok <==> old(charcnt) + |abbr| + 1 < TZ_MAX_CHARS
      ensures State().entries == old(State().entries)
      ensures State().chars == if ok then old(State().chars) + abbr + [NUL] else old(State().chars)
    {
      var i := |abbr| + 1;
      if charcnt + i >= TZ_MAX_CHARS {
        return false;
      }
      ghost var before := chars[..charcnt];
      var k := 0;
      while k < |abbr|
        invariant 0 <= k <= |abbr| && charcnt == old(charcnt)
        invariant chars[..charcnt] == before
        invariant chars[charcnt..charcnt + k] == abbr[..k]
      {
        chars[charcnt + k] := abbr[k];
        k := k + 1;
      }
      chars[charcnt + k] := NUL;
      charcnt := charcnt + i;
      assert chars[..charcnt] == before + abbr + [NUL];
      ok := true;
    }

    /** addtype: the index of an equal type, or of a new entry. */
    method AddType(key: TypeKey) returns (r: Option<nat>)
      requires Valid() && NulFree(key.abbr)
      modifies this`typecnt, this`charcnt, gmtoffs, isdsts, ttisstds, abbrinds, chars
      ensures Valid()
      ensures r == match Intern(old(State()), key) case None => None case Some(v) => Some(v.1)
      ensures r.Some? ==> State() == Intern(old(State()), key).value.0
    {
      ghost var p := State();
      var i := 0;
      while i < typecnt
        invariant 0 <= i <= typecnt
        invariant FindKey(p, key, 0) == FindKey(p, key, i)
      {
        assert p.entries[i] == Entry(gmtoffs[i], abbrinds[i], isdsts[i], ttisstds[i]);
        if key.gmtoff == gmtoffs[i] && key.isdst == isdsts[i]
           && StrAt(chars[..charcnt], abbrinds[i]) == key.abbr && key.ttisstd == ttisstds[i] {
          return Some(i);
        }
        i := i + 1;
      }
      if typecnt >= TZ_MAX_TYPES {
        return None;
      }
      var j := 0;
      while j < charcnt && StrAt(chars[..charcnt], j) != key.abbr
        invariant 0 <= j <= charcnt
        invariant FindAbbr(p.chars, key.abbr, 0) == FindAbbr(p.chars, key.abbr, j)
      {
        j := j + 1;
      }
      if j == charcnt {
        var ok := NewAbbr(key.abbr);
        if !ok {
          return None;
        }
      }
      Store(key, j);
      r := Some(i);
    }

    method Store(key: TypeKey, j: nat)
      requires Valid() && typecnt < TZ_MAX_TYPES && j < charcnt
      modifies this`typecnt, gmtoffs, isdsts, ttisstds, abbrinds
      ensures Valid()
      ensures State() == PoolState(old(State().entries) + [Entry(key.gmtoff, j, key.isdst, key.ttisstd)], old(State().chars))
    {
      ghost var p := State();
      gmtoffs[typecnt] := key.gmtoff;
      isdsts[typecnt] := key.isdst;
      ttisstds[typecnt] := key.ttisstd;
      abbrinds[typecnt] := j;
      typecnt := typecnt + 1;
      assert State().entries == p.entries + [Entry(key.gmtoff, j, key.isdst, key.ttisstd)];
    }
  }
}
