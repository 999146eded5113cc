/** struct state: the tables that describe one time zone, as tzload and tzparse fill them in. */
module ZoneState {

  const TZ_MAX_TIMES := 370
  const TZ_MAX_TYPES := 10
  const TZ_MAX_CHARS := 50
  const TZ_MAX_LEAPS := 50

  datatype TtInfo = TtInfo(gmtoff: int, isdst: int, abbrind: int, ttisstd: int)
  datatype LsInfo = LsInfo(trans: int, corr: int)

  /** What the counted prefixes of the tables hold. */
  datatype Zone = Zone(ats: seq<int>, types: seq<int>, ttis: seq<TtInfo>, chars: seq<int>, leaps: seq<LsInfo>)

  class State {
    var leapcnt: int
    var timecnt: int
    var typecnt: int
    var charcnt: int
    const ats: array<int>
    const types: array<int>
    const ttis: array<TtInfo>
    const chars: array<int>
    const lsis: array<LsInfo>
    /** The correction read at lsis[-1], the word in memory before the leap table. */
    const below: int

    predicate Shape()
      reads this
    {
      && ats.Length == TZ_MAX_TIMES && types.Length == TZ_MAX_TIMES && ttis.Length == TZ_MAX_TYPES
      && chars.Length == TZ_MAX_CHARS + 1 && lsis.Length == TZ_MAX_LEAPS
      && ats != types && ats != chars && types != chars
    }

    /** The counts are within the tables and every transition names a type. */
    predicate Loaded()
      reads this, types
    {
      && Shape()
      && 0 <= leapcnt <= TZ_MAX_LEAPS && 0 <= timecnt <= TZ_MAX_TIMES
      && 1 <= typecnt <= TZ_MAX_TYPES && 0 <= charcnt <= TZ_MAX_CHARS + 1
      && forall i :: 0 <= i < timecnt ==> 0 <= types[i] < typecnt
    }

    function View(): Zone
      requires Loaded()
      reads this, ats, types, ttis, chars, lsis
    {
      Zone(ats[..timecnt], types[..timecnt], ttis[..typecnt], chars[..charcnt], lsis[..leapcnt])
    }

    constructor (below: int)
      ensures Shape() && this.below == below
      ensures fresh(ats) && fresh(types) && fresh(ttis) && fresh(chars) && fresh(lsis)
    {
      leapcnt, timecnt, typecnt, charcnt := 0, 0, 0, 0;
      ats := new int[TZ_MAX_TIMES](_ => 0);
      types := new int[TZ_MAX_TIMES](_ => 0);
      ttis := new TtInfo[TZ_MAX_TYPES](_ => TtInfo(0, 0, 0, 0));
      chars := new int[TZ_MAX_CHARS + 1](_ => 0);
      lsis := new LsInfo[TZ_MAX_LEAPS](_ => LsInfo(0, 0));
      this.below := below;
    }
  }
}
