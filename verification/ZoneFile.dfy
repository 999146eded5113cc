/** The binary zone file: the layout zic writes (section 3.2 of RFC 8536, version 1 data) and tzload reads. */
module ZoneFile {
  import opened CInt
  import opened ZoneState

  type byte = b: int | 0 <= b < 256

  const HEADER := 44

  /** convert: four bytes, most significant first, of a two's complement long. */
  function Code(v: int): (s: seq<byte>)
    ensures |s| == 4
  {
    [LowByte(v / 0x100_0000), LowByte(v / 0x1_0000), LowByte(v / 0x100), LowByte(v)]
  }

  /** An int stored into a char. */
  function LowByte(v: int): byte {
    v % 256
  }

  /** detzcode: the bytes shifted together, the last shift wrapping into the sign. */
  function Decode(s: seq<byte>): (v: int)
    requires |s| == 4
    ensures IsLong(v)
  {
    Wrap(Joined(s[0], s[1], s[2], s[3]))
  }

  function Joined(b0: int, b1: int, b2: int, b3: int): int {
    b0 * 0x100_0000 + b1 * 0x1_0000 + b2 * 0x100 + b3
  }

  /** The two's complement round trip, one way and the other. */
  lemma DecodeCode(v: int)
    requires IsLong(v)
    ensures Decode(Code(v)) == v
  {
    Nested(v);
    var q1, q2, q3 := v / 0x100, v / 0x1_0000, v / 0x100_0000;
    var n := (q3 % 256) * 0x100_0000 + (q2 % 256) * 0x1_0000 + (q1 % 256) * 0x100 + v % 256;
    assert v == (q3 / 256) * TWO32 + n;
    WrapMultiple(n, q3 / 256);
  }

  /** Dividing by 2^16 and 2^24 is dividing by 2^8 again and again. */
  lemma Nested(v: int)
    ensures v / 0x1_0000 == (v / 0x100) / 256
    ensures v / 0x100_0000 == (v / 0x1_0000) / 256
  {
    var q1, r1 := v / 0x100, v % 0x100;
    assert v == q1 * 256 + r1;
    DivModUnique(v, 0x1_0000, q1 / 256, (q1 % 256) * 256 + r1);
    var q2, r2 := v / 0x1_0000, v % 0x1_0000;
    assert v == q2 * 0x1_0000 + r2;
    DivModUnique(v, 0x100_0000, q2 / 256, (q2 % 256) * 0x1_0000 + r2);
  }

  lemma CodeDecode(s: seq<byte>)
    requires |s| == 4
    ensures Code(Decode(s)) == s
  {
    var b0: int, b1: int, b2: int, b3: int := s[0], s[1], s[2], s[3];
    var k := WrapWitness(Joined(b0, b1, b2, b3));
    var v := Decode(s);
    DivModUnique(v, 0x100, (b0 - 256 * k) * 0x1_0000 + b1 * 0x100 + b2, b3);
    DivModUnique(v / 0x100, 256, (b0 - 256 * k) * 0x100 + b1, b2);
    DivModUnique(v, 0x1_0000, (b0 - 256 * k) * 0x100 + b1, b2 * 0x100 + b3);
    DivModUnique(v / 0x1_0000, 256, b0 - 256 * k, b1);
    DivModUnique(v, 0x100_0000, b0 - 256 * k, b1 * 0x1_0000 + b2 * 0x100 + b3);
    DivModUnique(v / 0x100_0000, 256, -k, b0);
  }

  // ---------------------------------------------------------------- writing

  function CodeAll(vals: seq<int>): (s: seq<byte>)
    ensures |s| == 4 * |vals|
  {
    if vals == [] then [] else CodeAll(vals[..|vals| - 1]) + Code(vals[|vals| - 1])
  }

  function Bytes(vals: seq<int>): (s: seq<byte>)
    ensures |s| == |vals|
    ensures forall i :: 0 <= i < |s| ==> s[i] == vals[i] % 256
  {
    seq(|vals|, i requires 0 <= i < |vals| => vals[i] % 256)
  }

  function CodeType(tt: TtInfo): (s: seq<byte>)
    ensures |s| == 6
  {
    Code(tt.gmtoff) + [tt.isdst % 256, tt.abbrind % 256]
  }

  function CodeTypes(ttis: seq<TtInfo>): (s: seq<byte>)
    ensures |s| == 6 * |ttis|
  {
    if ttis == [] then [] else CodeTypes(ttis[..|ttis| - 1]) + CodeType(ttis[|ttis| - 1])
  }

  function CodeLeap(ls: LsInfo): (s: seq<byte>)
    ensures |s| == 8
  {
    Code(ls.trans) + Code(ls.corr)
  }

  function CodeLeaps(leaps: seq<LsInfo>): (s: seq<byte>)
    ensures |s| == 8 * |leaps|
  {
    if leaps == [] then [] else CodeLeaps(leaps[..|leaps| - 1]) + CodeLeap(leaps[|leaps| - 1])
  }

  function StdFlags(ttis: seq<TtInfo>): (s: seq<byte>)
    ensures |s| == |ttis|
    ensures forall i :: 0 <= i < |s| ==> s[i] == ttis[i].ttisstd % 256
  {
    seq(|ttis|, i requires 0 <= i < |ttis| => ttis[i].ttisstd % 256)
  }

  function Header(z: Zone): (s: seq<byte>)
    ensures |s| == HEADER
  {
    seq(24, _ => 0) + Code(|z.ttis|) + Code(|z.leaps|) + Code(|z.ats|) + Code(|z.ttis|) + Code(|z.chars|)
  }

  /** The whole file, section by section. */
  function Encode(z: Zone): seq<byte> {
    Header(z) + CodeAll(z.ats) + Bytes(z.types) + CodeTypes(z.ttis) + Bytes(z.chars) + CodeLeaps(z.leaps) + StdFlags(z.ttis)
  }

  // ---------------------------------------------------------------- reading

  function LongAt(f: seq<byte>, p: nat): int
    requires p + 4 <= |f|
  {
    Decode(f[p..p + 4])
  }

  datatype Counts = Counts(ttisstd: int, leap: int, time: int, typ: int, chr: int) {
    predicate Sane() {
      && 0 <= leap <= TZ_MAX_LEAPS && 0 < typ <= TZ_MAX_TYPES && 0 <= time <= TZ_MAX_TIMES && 0 <= chr <= TZ_MAX_CHARS
      && (ttisstd == typ || ttisstd == 0)
    }

    /** Where the sections start. */
    function Types(): int { HEADER + 4 * time }
    function Ttis(): int { Types() + time }
    function Chars(): int { Ttis() + 6 * typ }
    function Leaps(): int { Chars() + chr }
    function Flags(): int { Leaps() + 8 * leap }
    function Size(): int { Flags() + ttisstd }
  }

  function CountsOf(f: seq<byte>): Counts
    requires |f| >= HEADER
  {
    Counts(LongAt(f, 24), LongAt(f, 28), LongAt(f, 32), LongAt(f, 36), LongAt(f, 40))
  }

  predicate Complete(f: seq<byte>) {
    |f| >= HEADER && CountsOf(f).Sane() && |f| >= CountsOf(f).Size()
  }

  function TypeByte(f: seq<byte>, c: Counts, i: nat): int
    requires c.Sane() && |f| >= c.Size() && i < c.time
  {
    f[c.Types() + i]
  }

  function TtAt(f: seq<byte>, c: Counts, i: nat): TtInfo
    requires c.Sane() && |f| >= c.Size() && i < c.typ
  {
    var p := c.Ttis() + 6 * i;
    TtInfo(LongAt(f, p), f[p + 4], f[p + 5], if c.ttisstd == 0 then 0 else f[c.Flags() + i])
  }

  function LsAt(f: seq<byte>, c: Counts, i: nat): LsInfo
    requires c.Sane() && |f| >= c.Size() && i < c.leap
  {
    var p := c.Leaps() + 8 * i;
    LsInfo(LongAt(f, p), LongAt(f, p + 4))
  }

  /** What a complete file says, by offset. */
  function Contents(f: seq<byte>): Zone
    requires Complete(f)
  {
    var c := CountsOf(f);
    Zone(seq(c.time, i requires 0 <= i < c.time => LongAt(f, HEADER + 4 * i)),
         seq(c.time, i requires 0 <= i < c.time => TypeByte(f, c, i)),
         seq(c.typ, i requires 0 <= i < c.typ => TtAt(f, c, i)),
         seq(c.chr, i requires 0 <= i < c.chr => f[c.Chars() + i]),
         seq(c.leap, i requires 0 <= i < c.leap => LsAt(f, c, i)))
  }

  /** The checks tzload makes on the contents. */
  predicate Consistent(z: Zone) {
    && (forall i :: 0 <= i < |z.types| ==> z.types[i] < |z.ttis|)
    && (forall i :: 0 <= i < |z.ttis| ==>
          && 0 <= z.ttis[i].isdst <= 1 && z.ttis[i].abbrind <= |z.chars| && 0 <= z.ttis[i].ttisstd <= 1)
  }

  predicate Accepts(f: seq<byte>) {
    Complete(f) && Consistent(Contents(f))
  }

  // ---------------------------------------------------------------- round trip

  /** The limits of a zone that can be written: counts within the tables, flags 0 or 1, indices in range, 32-bit values. */
  predicate Writable(z: Zone) {
    && |z.ats| == |z.types| <= TZ_MAX_TIMES && 0 < |z.ttis| <= TZ_MAX_TYPES
    && |z.chars| <= TZ_MAX_CHARS && |z.leaps| <= TZ_MAX_LEAPS
    && Consistent(z)
    && (forall i :: 0 <= i < |z.ats| ==> IsLong(z.ats[i]) && 0 <= z.types[i])
    && (forall i :: 0 <= i < |z.ttis| ==> IsLong(z.ttis[i].gmtoff) && 0 <= z.ttis[i].abbrind)
    && (forall i :: 0 <= i < |z.chars| ==> 0 <= z.chars[i] < 256)
    && (forall i :: 0 <= i < |z.leaps| ==> IsLong(z.leaps[i].trans) && IsLong(z.leaps[i].corr))
  }

  /** What the bytes of a file can hold: 32-bit values and counts, and small values of one byte. */
  predicate Representable(z: Zone) {
    && |z.ats| == |z.types| && IsLong(|z.ats|) && IsLong(|z.ttis|) && IsLong(|z.chars|) && IsLong(|z.leaps|)
    && (forall i :: 0 <= i < |z.ats| ==> IsLong(z.ats[i]) && 0 <= z.types[i] < 256)
    && (forall i :: 0 <= i < |z.ttis| ==>
          && IsLong(z.ttis[i].gmtoff) && 0 <= z.ttis[i].isdst < 256
          && 0 <= z.ttis[i].abbrind < 256 && 0 <= z.ttis[i].ttisstd < 256)
    && (forall i :: 0 <= i < |z.chars| ==> 0 <= z.chars[i] < 256)
    && (forall i :: 0 <= i < |z.leaps| ==> IsLong(z.leaps[i].trans) && IsLong(z.leaps[i].corr))
  }

  lemma {:induction false} CodeAllAt(vals: seq<int>, i: nat)
    requires i < |vals|
    ensures CodeAll(vals)[4 * i..4 * i + 4] == Code(vals[i])
  {
    var n := |vals| - 1;
    if i < n {
      CodeAllAt(vals[..n], i);
      assert CodeAll(vals)[4 * i..4 * i + 4] == CodeAll(vals[..n])[4 * i..4 * i + 4];
    }
  }

  lemma {:induction false} CodeTypesAt(ttis: seq<TtInfo>, i: nat)
    requires i < |ttis|
    ensures CodeTypes(ttis)[6 * i..6 * i + 6] == CodeType(ttis[i])
  {
    var n := |ttis| - 1;
    if i < n {
      CodeTypesAt(ttis[..n], i);
      assert CodeTypes(ttis)[6 * i..6 * i + 6] == CodeTypes(ttis[..n])[6 * i..6 * i + 6];
    }
  }

  lemma {:induction false} CodeLeapsAt(leaps: seq<LsInfo>, i: nat)
    requires i < |leaps|
    ensures CodeLeaps(leaps)[8 * i..8 * i + 8] == CodeLeap(leaps[i])
  {
    var n := |leaps| - 1;
    if i < n {
      CodeLeapsAt(leaps[..n], i);
      assert CodeLeaps(leaps)[8 * i..8 * i + 8] == CodeLeaps(leaps[..n])[8 * i..8 * i + 8];
    }
  }

  /** A section found inside the file. */
  predicate At(f: seq<byte>, p: nat, s: seq<byte>) {
    p + |s| <= |f| && f[p..p + |s|] == s
  }

  lemma AtWithin(f: seq<byte>, p: nat, s: seq<byte>, i: nat, j: nat)
    requires At(f, p, s) && i <= j <= |s|
    ensures p + j <= |f| && f[p + i..p + j] == s[i..j]
  {
    forall k | i <= k < j
      ensures f[p + k] == s[k]
    {
      assert f[p + k] == f[p..p + |s|][k];
    }
  }

  lemma HeaderCounts(z: Zone, f: seq<byte>)
    requires Representable(z) && At(f, 0, Header(z))
    ensures |f| >= HEADER
    ensures CountsOf(f) == Counts(|z.ttis|, |z.leaps|, |z.ats|, |z.ttis|, |z.chars|)
  {
    var h := Header(z);
    AtWithin(f, 0, h, 24, 28);
    AtWithin(f, 0, h, 28, 32);
    AtWithin(f, 0, h, 32, 36);
    AtWithin(f, 0, h, 36, 40);
    AtWithin(f, 0, h, 40, 44);
    assert h[24..28] == Code(|z.ttis|) && h[28..32] == Code(|z.leaps|) && h[32..36] == Code(|z.ats|);
    assert h[36..40] == Code(|z.ttis|) && h[40..44] == Code(|z.chars|);
    DecodeCode(|z.ttis|);
    DecodeCode(|z.leaps|);
    DecodeCode(|z.ats|);
    DecodeCode(|z.chars|);
  }

  lemma AtEnd(pre: seq<byte>, s: seq<byte>)
    ensures At(pre + s, |pre|, s)
  {
  }

  lemma AtAppend(f: seq<byte>, p: nat, s: seq<byte>, more: seq<byte>)
    requires At(f, p, s)
    ensures At(f + more, p, s)
  {
    assert (f + more)[p..p + |s|] == f[p..p + |s|];
  }

  function CountsFor(z: Zone): Counts {
    Counts(|z.ttis|, |z.leaps|, |z.ats|, |z.ttis|, |z.chars|)
  }

  /** Every section is where its offset says. */
  lemma Sections(z: Zone, f: seq<byte>, c: Counts)
    requires |z.ats| == |z.types| && f == Encode(z) && c == CountsFor(z)
    ensures |f| == c.Size()
    ensures At(f, 0, Header(z)) && At(f, HEADER, CodeAll(z.ats)) && At(f, c.Types(), Bytes(z.types))
    ensures At(f, c.Ttis(), CodeTypes(z.ttis)) && At(f, c.Chars(), Bytes(z.chars))
    ensures At(f, c.Leaps(), CodeLeaps(z.leaps)) && At(f, c.Flags(), StdFlags(z.ttis))
  {
    hide CodeAll, CodeTypes, CodeLeaps, Header, Bytes, StdFlags, At;
    var s1, s2, s3 := CodeAll(z.ats), Bytes(z.types), CodeTypes(z.ttis);
    var s4, s5, s6 := Bytes(z.chars), CodeLeaps(z.leaps), StdFlags(z.ttis);
    var f0 := Header(z);
    var f1 := f0 + s1;
    var f2 := f1 + s2;
    var f3 := f2 + s3;
    var f4 := f3 + s4;
    var f5 := f4 + s5;
    AtEnd([], f0);
    assert [] + f0 == f0;
    AtEnd(f0, s1);
    AtEnd(f1, s2);
    AtEnd(f2, s3);
    AtEnd(f3, s4);
    AtEnd(f4, s5);
    AtEnd(f5, s6);
    AtAppend(f0, 0, f0, s1);
    AtAppend(f1, 0, f0, s2);
    AtAppend(f1, |f0|, s1, s2);
    AtAppend(f2, 0, f0, s3);
    AtAppend(f2, |f0|, s1, s3);
    AtAppend(f2, |f1|, s2, s3);
    AtAppend(f3, 0, f0, s4);
    AtAppend(f3, |f0|, s1, s4);
    AtAppend(f3, |f1|, s2, s4);
    AtAppend(f3, |f2|, s3, s4);
    LastSections(f4, s5, s6, f0, s1, s2, s3, s4);
  }

  /** Appending the last two sections moves none of the others. */
  lemma LastSections(f: seq<byte>, s5: seq<byte>, s6: seq<byte>, f0: seq<byte>, s1: seq<byte>, s2: seq<byte>, s3: seq<byte>, s4: seq<byte>)
    requires f == f0 + s1 + s2 + s3 + s4
    requires At(f, 0, f0) && At(f, |f0|, s1) && At(f, |f0| + |s1|, s2)
    requires At(f, |f0| + |s1| + |s2|, s3) && At(f, |f0| + |s1| + |s2| + |s3|, s4)
    ensures At(f + s5 + s6, 0, f0) && At(f + s5 + s6, |f0|, s1) && At(f + s5 + s6, |f0| + |s1|, s2)
    ensures At(f + s5 + s6, |f0| + |s1| + |s2|, s3) && At(f + s5 + s6, |f0| + |s1| + |s2| + |s3|, s4)
    ensures At(f + s5 + s6, |f|, s5)
  {
    hide At;
    AtEnd(f, s5);
    AtAppend(f + s5, |f|, s5, s6);
    forall p: nat, s | At(f, p, s)
      ensures At(f + s5 + s6, p, s)
    {
      AtAppend(f, p, s, s5);
      AtAppend(f + s5, p, s, s6);
    }
  }

  lemma LongAtCode(f: seq<byte>, p: nat, v: int)
    requires p + 4 <= |f| && f[p..p + 4] == Code(v) && IsLong(v)
    ensures LongAt(f, p) == v
  {
    DecodeCode(v);
  }

  lemma ReadAts(z: Zone, f: seq<byte>, i: nat)
    requires At(f, HEADER, CodeAll(z.ats)) && i < |z.ats| && IsLong(z.ats[i])
    ensures LongAt(f, HEADER + 4 * i) == z.ats[i]
  {
    AtWithin(f, HEADER, CodeAll(z.ats), 4 * i, 4 * i + 4);
    CodeAllAt(z.ats, i);
    LongAtCode(f, HEADER + 4 * i, z.ats[i]);
  }

  lemma ReadType(z: Zone, f: seq<byte>, c: Counts, i: nat)
    requires Representable(z) && c == CountsFor(z) && c.Sane() && |f| >= c.Size() && i < |z.ttis|
    requires At(f, c.Ttis(), CodeTypes(z.ttis)) && At(f, c.Flags(), StdFlags(z.ttis))
    ensures TtAt(f, c, i) == z.ttis[i]
  {
    hide CodeTypes, Code, Decode;
    var p, tt := c.Ttis() + 6 * i, z.ttis[i];
    AtWithin(f, c.Ttis(), CodeTypes(z.ttis), 6 * i, 6 * i + 6);
    CodeTypesAt(z.ttis, i);
    SplitType(f, p, tt);
    LongAtCode(f, p, tt.gmtoff);
    assert f[c.Flags() + i] == f[c.Flags()..c.Flags() + |z.ttis|][i];
  }

  lemma SplitType(f: seq<byte>, p: nat, tt: TtInfo)
    requires p + 6 <= |f| && f[p..p + 6] == CodeType(tt)
    ensures f[p..p + 4] == Code(tt.gmtoff) && f[p + 4] == tt.isdst % 256 && f[p + 5] == tt.abbrind % 256
  {
    hide Code;
    assert f[p..p + 4] == f[p..p + 6][..4];
    assert f[p + 4] == f[p..p + 6][4] && f[p + 5] == f[p..p + 6][5];
  }

  lemma ReadLeap(z: Zone, f: seq<byte>, c: Counts, i: nat)
    requires Representable(z) && c == CountsFor(z) && c.Sane() && |f| >= c.Size() && i < |z.leaps|
    requires At(f, c.Leaps(), CodeLeaps(z.leaps))
    ensures LsAt(f, c, i) == z.leaps[i]
  {
    hide CodeLeaps;
    var p, ls := c.Leaps() + 8 * i, z.leaps[i];
    AtWithin(f, c.Leaps(), CodeLeaps(z.leaps), 8 * i, 8 * i + 8);
    CodeLeapsAt(z.leaps, i);
    assert f[p..p + 8] == CodeLeap(ls);
    assert f[p..p + 4] == f[p..p + 8][..4] == Code(ls.trans);
    assert f[p + 4..p + 8] == f[p..p + 8][4..8] == Code(ls.corr);
    LongAtCode(f, p, ls.trans);
    LongAtCode(f, p + 4, ls.corr);
  }

  lemma ReadByte(vals: seq<int>, f: seq<byte>, p: nat, i: nat)
    requires At(f, p, Bytes(vals)) && i < |vals| && 0 <= vals[i] < 256
    ensures f[p + i] == vals[i]
  {
    assert f[p + i] == f[p..p + |vals|][i];
  }

  /** Counts within the tables are enough to read everything back. */
  lemma ReadBack(z: Zone)
    requires Representable(z)
    ensures var f, c := Encode(z), CountsFor(z);
            && |f| == c.Size() && |f| >= HEADER && CountsOf(f) == c
            && (c.Sane() ==> Complete(f) && Contents(f) == z)
  {
    hide Encode, LongAt, TtAt, LsAt, At, Header, CodeAll, CodeTypes, CodeLeaps, Bytes, StdFlags;
    var f, c := Encode(z), CountsFor(z);
    Sections(z, f, c);
    HeaderCounts(z, f);
    if c.Sane() {
      var r := Contents(f);
      forall i | 0 <= i < |z.ats|
        ensures r.ats[i] == z.ats[i] && r.types[i] == z.types[i]
      {
        ReadAts(z, f, i);
        ReadByte(z.types, f, c.Types(), i);
      }
      forall i | 0 <= i < |z.ttis|
        ensures r.ttis[i] == z.ttis[i]
      {
        ReadType(z, f, c, i);
      }
      forall i | 0 <= i < |z.chars|
        ensures r.chars[i] == z.chars[i]
      {
        ReadByte(z.chars, f, c.Chars(), i);
      }
      forall i | 0 <= i < |z.leaps|
        ensures r.leaps[i] == z.leaps[i]
      {
        ReadLeap(z, f, c, i);
      }
      assert r.ats == z.ats && r.types == z.types && r.ttis == z.ttis && r.chars == z.chars && r.leaps == z.leaps;
    }
  }

  lemma WritableFits(z: Zone)
    requires Writable(z)
    ensures Representable(z) && CountsFor(z).Sane()
  {
  }

  /** Reading undoes writing, for every zone within the limits. */
  lemma RoundTrip(z: Zone)
    requires Writable(z)
    ensures Accepts(Encode(z)) && Contents(Encode(z)) == z
  {
    WritableFits(z);
    hide Encode, Representable, Contents, CountsFor;
    ReadBack(z);
  }

  /** Of all zones that bytes can hold, exactly those within the limits are accepted. */
  lemma AcceptedExactly(z: Zone)
    requires Representable(z)
    ensures Accepts(Encode(z)) <==> Writable(z)
  {
    hide Encode, Contents;
    ReadBack(z);
  }

  // ---------------------------------------------------------------- the layout, byte by byte

  /** The word at offset p is the value, most significant byte first; negative values in two's complement. */
  predicate WordAt(f: seq<byte>, p: int, v: int) {
    0 <= p && p + 4 <= |f| &&
    var b0: int, b1: int, b2: int, b3: int := f[p], f[p + 1], f[p + 2], f[p + 3];
    b0 * 16777216 + b1 * 65536 + b2 * 256 + b3 == if v < 0 then v + 4294967296 else v
  }

  predicate ByteAt(f: seq<byte>, p: int, v: int) {
    0 <= p < |f| && f[p] == v
  }

  /** The file of a zone, as far as its layout goes. */
  predicate Holds(f: seq<byte>, z: Zone) {
    Complete(f) && CountsOf(f) == CountsFor(z) && |f| == CountsFor(z).Size() && Contents(f) == z
  }

  lemma EncodeHolds(z: Zone)
    requires Writable(z)
    ensures Holds(Encode(z), z)
  {
    WritableFits(z);
    hide Encode, Representable, Contents, CountsFor;
    ReadBack(z);
  }

  lemma SameLengths(z: Zone)
    requires Writable(z)
    ensures |z.ats| == |z.types|
  {
  }

  lemma ByteRead(f: seq<byte>, p: nat, v: int)
    requires p < |f| && f[p] == v
    ensures ByteAt(f, p, v)
  {
  }

  lemma WordRead(f: seq<byte>, p: nat, v: int)
    requires p + 4 <= |f| && LongAt(f, p) == v
    ensures WordAt(f, p, v)
  {
    var s := f[p..p + 4];
    assert s[0] == f[p] && s[1] == f[p + 1] && s[2] == f[p + 2] && s[3] == f[p + 3];
  }

  /** The counts. */
  lemma HeaderLayout(z: Zone)
    requires Writable(z)
    ensures var f := Encode(z);
            && |f| == 44 + 5 * |z.ats| + 6 * |z.ttis| + |z.chars| + 8 * |z.leaps| + |z.ttis|
            && WordAt(f, 24, |z.ttis|) && WordAt(f, 28, |z.leaps|) && WordAt(f, 32, |z.ats|)
            && WordAt(f, 36, |z.ttis|) && WordAt(f, 40, |z.chars|)
  {
    WritableFits(z);
    ReadBack(z);
    hide Encode, LongAt, WordAt, Writable, Representable, Contents;
    var f := Encode(z);
    WordRead(f, 24, |z.ttis|);
    WordRead(f, 28, |z.leaps|);
    WordRead(f, 32, |z.ats|);
    WordRead(f, 36, |z.ttis|);
    WordRead(f, 40, |z.chars|);
  }

  /** What a complete file says about its i-th transition, type, character and leap second. */
  lemma TransitionSaid(f: seq<byte>, i: nat)
    requires Complete(f) && i < CountsOf(f).time
    ensures var c, x := CountsOf(f), Contents(f);
            && |x.ats| == |x.types| == c.time && 44 + 5 * c.time <= |f|
            && x.ats[i] == LongAt(f, 44 + 4 * i) && x.types[i] == f[44 + 4 * c.time + i]
  {
    hide LongAt;
  }

  lemma TypeSaid(f: seq<byte>, i: nat)
    requires Complete(f) && i < CountsOf(f).typ
    ensures var c, x := CountsOf(f), Contents(f);
            var p := 44 + 5 * c.time + 6 * i;
            && |x.ttis| == c.typ && p + 6 <= |f|
            && x.ttis[i].gmtoff == LongAt(f, p) && x.ttis[i].isdst == f[p + 4] && x.ttis[i].abbrind == f[p + 5]
            && (c.ttisstd != 0 ==> c.Flags() + i < |f| && x.ttis[i].ttisstd == f[c.Flags() + i])
  {
    hide LongAt;
  }

  lemma CharSaid(f: seq<byte>, i: nat)
    requires Complete(f) && i < CountsOf(f).chr
    ensures var c, x := CountsOf(f), Contents(f);
            |x.chars| == c.chr && c.Chars() + i < |f| && x.chars[i] == f[c.Chars() + i]
  {
    hide LongAt;
  }

  lemma LeapSaid(f: seq<byte>, i: nat)
    requires Complete(f) && i < CountsOf(f).leap
    ensures var c, x := CountsOf(f), Contents(f);
            var p := c.Leaps() + 8 * i;
            |x.leaps| == c.leap && p + 8 <= |f| && x.leaps[i] == LsInfo(LongAt(f, p), LongAt(f, p + 4))
  {
    hide LongAt;
  }

  /** The transition times, then a byte for the type of each. */
  lemma TransitionLayout(z: Zone, i: nat)
    requires Writable(z) && i < |z.ats|
    ensures WordAt(Encode(z), 44 + 4 * i, z.ats[i]) && ByteAt(Encode(z), 44 + 4 * |z.ats| + i, z.types[i])
  {
    SameLengths(z);
    hide Encode, Writable, LongAt, WordAt, ByteAt, Contents, Complete, CountsOf;
    var f := Encode(z);
    EncodeHolds(z);
    TransitionSaid(f, i);
    WordRead(f, 44 + 4 * i, z.ats[i]);
    ByteRead(f, 44 + 4 * |z.ats| + i, z.types[i]);
  }

  /** Six bytes a type; its last flag is at the end of the file. */
  lemma TypeLayout(z: Zone, i: nat)
    requires Writable(z) && i < |z.ttis|
    ensures var f, p := Encode(z), 44 + 5 * |z.ats| + 6 * i;
            && WordAt(f, p, z.ttis[i].gmtoff) && ByteAt(f, p + 4, z.ttis[i].isdst) && ByteAt(f, p + 5, z.ttis[i].abbrind)
            && ByteAt(f, |f| - |z.ttis| + i, z.ttis[i].ttisstd)
  {
    hide Encode, Writable, LongAt, WordAt, ByteAt, Contents, Complete, CountsOf;
    var f, p, tt := Encode(z), 44 + 5 * |z.ats| + 6 * i, z.ttis[i];
    EncodeHolds(z);
    TypeSaid(f, i);
    WordRead(f, p, tt.gmtoff);
    ByteRead(f, p + 4, tt.isdst);
    ByteRead(f, p + 5, tt.abbrind);
    ByteRead(f, |f| - |z.ttis| + i, tt.ttisstd);
  }

  /** The characters of the abbreviations. */
  lemma CharLayout(z: Zone, i: nat)
    requires Writable(z) && i < |z.chars|
    ensures ByteAt(Encode(z), 44 + 5 * |z.ats| + 6 * |z.ttis| + i, z.chars[i])
  {
    hide Encode, Writable, ByteAt, Contents, Complete, CountsOf;
    EncodeHolds(z);
    CharSaid(Encode(z), i);
    ByteRead(Encode(z), 44 + 5 * |z.ats| + 6 * |z.ttis| + i, z.chars[i]);
  }

  /** Eight bytes a leap second. */
  lemma LeapLayout(z: Zone, i: nat)
    requires Writable(z) && i < |z.leaps|
    ensures var f, p := Encode(z), 44 + 5 * |z.ats| + 6 * |z.ttis| + |z.chars| + 8 * i;
            WordAt(f, p, z.leaps[i].trans) && WordAt(f, p + 4, z.leaps[i].corr)
  {
    hide Encode, Writable, LongAt, WordAt, Contents, Complete, CountsOf;
    var f, p := Encode(z), 44 + 5 * |z.ats| + 6 * |z.ttis| + |z.chars| + 8 * i;
    EncodeHolds(z);
    LeapSaid(f, i);
    WordRead(f, p, z.leaps[i].trans);
    WordRead(f, p + 4, z.leaps[i].corr);
  }

  /** A file may leave the last section out, with a count of 0 for it: then no type has the flag. */
  lemma WithoutFlags(z: Zone)
    requires Writable(z)
    ensures |Encode(z)| >= 44 + |z.ttis|
    ensures var f := Encode(z);
            var g := f[..24] + Code(0) + f[28..|f| - |z.ttis|];
            Accepts(g) && Contents(g) == z.(ttis := Unflagged(z.ttis))
  {
    WritableFits(z);
    AcceptedExactly(z);
    ReadBack(z);
    hide Encode, Code, Writable, Representable, Contents, LongAt, Consistent;
    var f, c := Encode(z), CountsFor(z);
    var g := f[..24] + Code(0) + f[28..|f| - |z.ttis|];
    var d := c.(ttisstd := 0);
    CutFlags(f, g, |z.ttis|, Code(0));
    DecodeCode(0);
    LongAtCode(g, 24, 0);
    UnflaggedContents(f, g, c, d);
  }

  lemma CutFlags(f: seq<byte>, g: seq<byte>, n: nat, zero: seq<byte>)
    requires |f| >= 44 + n && |zero| == 4 && g == f[..24] + zero + f[28..|f| - n]
    ensures |g| == |f| - n && g[24..28] == zero
    ensures forall p :: 28 <= p < |g| ==> g[p] == f[p]
    ensures forall p :: 28 <= p && p + 4 <= |g| ==> LongAt(g, p) == LongAt(f, p)
  {
    hide Decode;
    assert forall p :: 28 <= p < |g| ==> g[p] == f[p];
    forall p | 28 <= p && p + 4 <= |g|
      ensures LongAt(g, p) == LongAt(f, p)
    {
      assert g[p..p + 4] == f[p..p + 4];
    }
  }

  function Unflagged(ttis: seq<TtInfo>): (r: seq<TtInfo>)
    ensures |r| == |ttis| && forall i :: 0 <= i < |r| ==> r[i] == ttis[i].(ttisstd := 0)
  {
    seq(|ttis|, i requires 0 <= i < |ttis| => ttis[i].(ttisstd := 0))
  }

  lemma UnflaggedContents(f: seq<byte>, g: seq<byte>, c: Counts, d: Counts)
    requires Complete(f) && Consistent(Contents(f)) && c == CountsOf(f) && c.ttisstd == c.typ && |f| == c.Size()
    requires |g| == |f| - c.typ && CountsOf(g) == d == c.(ttisstd := 0)
    requires forall p :: 28 <= p < |g| ==> g[p] == f[p]
    requires forall p :: 28 <= p && p + 4 <= |g| ==> LongAt(g, p) == LongAt(f, p)
    ensures Accepts(g) && Contents(g) == Contents(f).(ttis := Unflagged(Contents(f).ttis))
  {
    hide LongAt;
    var x, y := Contents(f), Contents(g);
    assert y.ats == x.ats && y.types == x.types && y.chars == x.chars && y.leaps == x.leaps;
    assert y.ttis == Unflagged(x.ttis);
  }

  // ---------------------------------------------------------------- tzload

  /** convert, a shift at a time. */
  method Convert(val: int, buf: array<byte>)
    requires buf.Length == 4
    modifies buf
    ensures buf[..] == Code(val)
  {
    var i, shift := 0, 24;
    while i < 4
      invariant 0 <= i <= 4 && shift == 24 - 8 * i
      invariant forall k :: 0 <= k < i ==> buf[k] == Code(val)[k]
    {
      PowersOf256();
      buf[i] := LowByte(val / Pow2(shift));
      i, shift := i + 1, shift - 8;
    }
  }

  lemma PowersOf256()
    ensures Pow2(0) == 1 && Pow2(8) == 0x100 && Pow2(16) == 0x1_0000 && Pow2(24) == 0x100_0000
  {
    assert Pow2(8) == 256;
    Pow2Add(8, 8);
    Pow2Add(16, 8);
  }

  /** detzcode, a byte at a time; the shift is a 32-bit one and the byte fills its clear low bits. */
  method Detzcode(f: seq<byte>, p: nat) returns (result: int)
    requires p + 4 <= |f|
    ensures result == LongAt(f, p)
  {
    result := 0;
    ghost var sum: int := 0;
    var i := 0;
    while i < 4
      invariant 0 <= i <= 4
      invariant result == Wrap(sum)
      invariant sum == if i == 0 then 0 else if i == 1 then f[p] else if i == 2 then Joined(0, 0, f[p], f[p + 1])
                       else if i == 3 then Joined(0, f[p], f[p + 1], f[p + 2])
                       else Joined(f[p], f[p + 1], f[p + 2], f[p + 3])
    {
      ShiftByte(sum, f[p + i]);
      result := Wrap(result * 256) + f[p + i];
      sum := sum * 256 + f[p + i];
      i := i + 1;
    }
  }

  lemma ShiftByte(sum: int, b: byte)
    ensures Wrap(Wrap(sum) * 256) + b == Wrap(sum * 256 + b)
  {
    var k := WrapWitness(sum);
    WrapMultiple(sum * 256, -256 * k);
    assert Wrap(sum) * 256 == sum * 256 + (-256 * k) * TWO32;
    var n := (sum * 256 + TWO31) / TWO32;
    var r := (sum * 256 + TWO31) % TWO32;
    assert r % 256 == 0 by {
      assert r == (sum + 0x80_0000 - n * 0x100_0000) * 256;
      DivModUnique(r, 256, sum + 0x80_0000 - n * 0x100_0000, 0);
    }
    DivModUnique(sum * 256 + b + TWO31, TWO32, n, r + b);
  }

  /** tzload, given the bytes of the file: fills the tables in place, and fails exactly on files that are
      short, have counts outside the tables, or hold an index or flag out of range. */
  method TzLoad(f: seq<byte>, sp: State) returns (ok: bool)
    requires sp.Shape()
    modifies sp, sp.ats, sp.types, sp.ttis, sp.chars, sp.lsis
    ensures ok <==> Accepts(f)
    ensures ok ==> sp.Loaded() && sp.View() == Contents(f) && sp.chars[sp.charcnt] == 0
  {
    hide LongAt, TtAt, LsAt;
    ok := false;
    if |f| < HEADER {
      return;
    }
    var ttisstdcnt := Detzcode(f, 24);
    sp.leapcnt := Detzcode(f, 28);
    sp.timecnt := Detzcode(f, 32);
    sp.typecnt := Detzcode(f, 36);
    sp.charcnt := Detzcode(f, 40);
    ghost var c := CountsOf(f);
    if sp.leapcnt < 0 || sp.leapcnt > TZ_MAX_LEAPS || sp.typecnt <= 0 || sp.typecnt > TZ_MAX_TYPES
       || sp.timecnt < 0 || sp.timecnt > TZ_MAX_TIMES || sp.charcnt < 0 || sp.charcnt > TZ_MAX_CHARS
       || (ttisstdcnt != sp.typecnt && ttisstdcnt != 0) {
      return;
    }
    if |f| < HEADER + sp.timecnt * 5 + sp.typecnt * 6 + sp.charcnt + sp.leapcnt * 8 + ttisstdcnt {
      return;
    }
    ChecksAreConsistency(f, c);
    LoadAts(f, c, sp);
    var typesOk := LoadTypes(f, c, sp);
    if !typesOk {
      return;
    }
    var ttisOk := LoadTtis(f, c, sp);
    if !ttisOk {
      return;
    }
    LoadChars(f, c, sp);
    LoadLeaps(f, c, sp);
    ok := LoadFlags(f, c, ttisstdcnt, sp);
    if ok {
      Loaded(f, sp);
    }
  }

  ghost predicate Counted(f: seq<byte>, c: Counts, sp: State)
    reads sp
  {
    && c.Sane() && |f| >= c.Size() && sp.Shape()
    && sp.leapcnt == c.leap && sp.timecnt == c.time && sp.typecnt == c.typ && sp.charcnt == c.chr
  }

  method LoadAts(f: seq<byte>, ghost c: Counts, sp: State)
    requires Counted(f, c, sp)
    modifies sp.ats
    ensures forall i :: 0 <= i < c.time ==> sp.ats[i] == LongAt(f, HEADER + 4 * i)
  {
    hide LongAt;
    var i, p := 0, HEADER;
    while i < sp.timecnt
      invariant 0 <= i <= c.time && p == HEADER + 4 * i
      invariant forall k :: 0 <= k < i ==> sp.ats[k] == LongAt(f, HEADER + 4 * k)
    {
      sp.ats[i] := Detzcode(f, p);
      i, p := i + 1, p + 4;
    }
  }

  method LoadTypes(f: seq<byte>, ghost c: Counts, sp: State) returns (ok: bool)
    requires Counted(f, c, sp)
    modifies sp.types
    ensures ok <==> forall i :: 0 <= i < c.time ==> TypeByte(f, c, i) < c.typ
    ensures ok ==> forall i :: 0 <= i < c.time ==> sp.types[i] == TypeByte(f, c, i)
  {
    var i, p := 0, HEADER + 4 * sp.timecnt;
    while i < sp.timecnt
      invariant 0 <= i <= c.time && p == c.Types() + i
      invariant forall k :: 0 <= k < i ==> sp.types[k] == TypeByte(f, c, k) < c.typ
    {
      sp.types[i] := f[p];
      if sp.types[i] >= sp.typecnt {
        assert TypeByte(f, c, i) >= c.typ;
        return false;
      }
      i, p := i + 1, p + 1;
    }
    ok := true;
  }

  method LoadTtis(f: seq<byte>, ghost c: Counts, sp: State) returns (ok: bool)
    requires Counted(f, c, sp)
    modifies sp.ttis
    ensures ok <==> forall i :: 0 <= i < c.typ ==> TtAt(f, c, i).isdst <= 1 && TtAt(f, c, i).abbrind <= c.chr
    ensures ok ==> forall i :: 0 <= i < c.typ ==> sp.ttis[i].(ttisstd := 0) == TtAt(f, c, i).(ttisstd := 0)
  {
    hide LongAt;
    var i, p := 0, HEADER + 5 * sp.timecnt;
    while i < sp.typecnt
      invariant 0 <= i <= c.typ && p == c.Ttis() + 6 * i
      invariant forall k :: 0 <= k < i ==>
        TtAt(f, c, k).isdst <= 1 && TtAt(f, c, k).abbrind <= c.chr && sp.ttis[k].(ttisstd := 0) == TtAt(f, c, k).(ttisstd := 0)
    {
      var gmtoff := Detzcode(f, p);
      p := p + 4;
      sp.ttis[i] := sp.ttis[i].(gmtoff := gmtoff, isdst := f[p]);
      p := p + 1;
      if sp.ttis[i].isdst != 0 && sp.ttis[i].isdst != 1 {
        assert TtAt(f, c, i).isdst > 1;
        return false;
      }
      sp.ttis[i] := sp.ttis[i].(abbrind := f[p]);
      p := p + 1;
      if sp.ttis[i].abbrind < 0 || sp.ttis[i].abbrind > sp.charcnt {
        assert TtAt(f, c, i).abbrind > c.chr;
        return false;
      }
      i := i + 1;
    }
    ok := true;
  }

  method LoadChars(f: seq<byte>, ghost c: Counts, sp: State)
    requires Counted(f, c, sp)
    modifies sp.chars
    ensures forall i :: 0 <= i < c.chr ==> sp.chars[i] == f[c.Chars() + i]
    ensures sp.chars[c.chr] == 0
  {
    var i, p := 0, HEADER + 5 * sp.timecnt + 6 * sp.typecnt;
    while i < sp.charcnt
      invariant 0 <= i <= c.chr && p == c.Chars() + i
      invariant forall k :: 0 <= k < i ==> sp.chars[k] == f[c.Chars() + k]
    {
      sp.chars[i] := f[p];
      i, p := i + 1, p + 1;
    }
    sp.chars[i] := 0;
  }

  method LoadLeaps(f: seq<byte>, ghost c: Counts, sp: State)
    requires Counted(f, c, sp)
    modifies sp.lsis
    ensures forall i :: 0 <= i < c.leap ==> sp.lsis[i] == LsAt(f, c, i)
  {
    hide LongAt;
    var i, p := 0, HEADER + 5 * sp.timecnt + 6 * sp.typecnt + sp.charcnt;
    while i < sp.leapcnt
      invariant 0 <= i <= c.leap && p == c.Leaps() + 8 * i
      invariant forall k :: 0 <= k < i ==> sp.lsis[k] == LsAt(f, c, k)
    {
      var trans := Detzcode(f, p);
      p := p + 4;
      var corr := Detzcode(f, p);
      p := p + 4;
      sp.lsis[i] := LsInfo(trans, corr);
      i := i + 1;
    }
  }

  method LoadFlags(f: seq<byte>, ghost c: Counts, ttisstdcnt: int, sp: State) returns (ok: bool)
    requires Counted(f, c, sp) && ttisstdcnt == c.ttisstd
    requires forall i :: 0 <= i < c.typ ==> sp.ttis[i].(ttisstd := 0) == TtAt(f, c, i).(ttisstd := 0)
    modifies sp.ttis
    ensures ok <==> forall i :: 0 <= i < c.typ ==> TtAt(f, c, i).ttisstd <= 1
    ensures ok ==> forall i :: 0 <= i < c.typ ==> sp.ttis[i] == TtAt(f, c, i)
  {
    hide LongAt;
    var i, p := 0, HEADER + 5 * sp.timecnt + 6 * sp.typecnt + sp.charcnt + 8 * sp.leapcnt;
    while i < sp.typecnt
      invariant 0 <= i <= c.typ && (ttisstdcnt != 0 ==> p == c.Flags() + i)
      invariant forall k :: 0 <= k < i ==> sp.ttis[k] == TtAt(f, c, k) && TtAt(f, c, k).ttisstd <= 1
      invariant forall k :: i <= k < c.typ ==> sp.ttis[k].(ttisstd := 0) == TtAt(f, c, k).(ttisstd := 0)
    {
      if ttisstdcnt == 0 {
        sp.ttis[i] := sp.ttis[i].(ttisstd := 0);
      } else {
        sp.ttis[i] := sp.ttis[i].(ttisstd := f[p]);
        p := p + 1;
        if sp.ttis[i].ttisstd != 1 && sp.ttis[i].ttisstd != 0 {
          assert TtAt(f, c, i).ttisstd > 1;
          return false;
        }
      }
      i := i + 1;
    }
    ok := true;
  }

  /** The checks of the three loops are the consistency of what the file says. */
  lemma ChecksAreConsistency(f: seq<byte>, c: Counts)
    requires Complete(f) && c == CountsOf(f)
    ensures Consistent(Contents(f)) <==>
      && (forall i :: 0 <= i < c.time ==> TypeByte(f, c, i) < c.typ)
      && (forall i :: 0 <= i < c.typ ==> TtAt(f, c, i).isdst <= 1 && TtAt(f, c, i).abbrind <= c.chr)
      && (forall i :: 0 <= i < c.typ ==> TtAt(f, c, i).ttisstd <= 1)
  {
    hide LongAt, LsAt;
    var z := Contents(f);
    assert forall i :: 0 <= i < c.time ==> z.types[i] == TypeByte(f, c, i);
    assert forall i :: 0 <= i < c.typ ==> z.ttis[i] == TtAt(f, c, i);
  }

  /** The filled tables are the contents of the file. */
  lemma Loaded(f: seq<byte>, sp: State)
    requires Complete(f) && Counted(f, CountsOf(f), sp) && Consistent(Contents(f))
    requires var c := CountsOf(f);
             && (forall i :: 0 <= i < c.time ==> sp.ats[i] == LongAt(f, HEADER + 4 * i) && sp.types[i] == TypeByte(f, c, i))
             && (forall i :: 0 <= i < c.typ ==> sp.ttis[i] == TtAt(f, c, i))
             && (forall i :: 0 <= i < c.chr ==> sp.chars[i] == f[c.Chars() + i])
             && (forall i :: 0 <= i < c.leap ==> sp.lsis[i] == LsAt(f, c, i))
    ensures sp.Loaded() && sp.View() == Contents(f)
  {
    hide LongAt, TtAt, LsAt;
    var z := Contents(f);
    forall i | 0 <= i < sp.timecnt
      ensures 0 <= sp.types[i] < sp.typecnt
    {
      assert z.types[i] < |z.ttis|;
    }
  }
}
