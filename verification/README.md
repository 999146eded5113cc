# unixlib for AmigaOS: models and proofs

This project models the parts of unixlib that compute something hard and proves what they are for. The main results
are for all inputs, all runs or all reachable states, within the limits named under "Left out"; where a promise of the
source is false, the exact condition under which it holds is proved, with a concrete input that shows the failure.

The source's `long` and `time_t` have 32 bits. `CInt.Wrap` is the two's complement reading of a result, and C
division truncates (`CDiv`, `CRem`). Records that the source changes in place are classes (`Tm`, `State`, the tables
of the zone compiler, the option scanner, the signal machine); loops are loops, each proved against a specification
function or a property, and the lemmas are about these.

## The components

* **64-bit arithmetic** (`LongLong`, `LongLongMul`, `LongLongDiv`). Values are pairs of 32-bit words. Multiplication
  keeps the sum of its cross products in one word, so a carry can be lost; division doubles the divisor under a
  signed comparison, which fails when no doubling reaches the dividend inside the signed range. Both are exact
  if and only if a condition on the operands holds.
* **Civil time** (`Calendar`, `CivilTime`, `ZoneState`, `LocalTime`). `Calendar` counts days from 1 January 1970 year
  by year and month by month, which is the reference for all the shortcuts. `timesub` and `localsub` are the loops of
  the source.
* **Inverting it** (`MkTime`, `TimeSearch`). `time2` carries the fields of a request into their ranges and looks for
  the instant bit by bit. The walk back over years takes the length of the wrong year for dates after February, and
  `normalize` leaves a whole base for exact negative multiples; both are characterised exactly, down to what `time2`
  answers to a raw request.
* **Rules** (`TzRules`). `transtime` and the explicit-rule branch of `tzparse`. The table has both transitions of a
  year in time order and no entry at the turn of the year, so when the order of the two rules changes from one year to
  the next the weeks before the first transition get the type of the year before.
* **Zone files** (`ZoneFile`, `ZoneWriter`). The reader `tzload`, the writer `writezone`, and the round trip, in the
  order of section 3.2 of RFC 8536.
* **The zone compiler's tables** (`ZicArith`, `LeapTable`, `RuleDate`, `WordTable`, `TypePool`). Sorted leap seconds,
  year-walking date resolution, keyword abbreviations and interned types. In `rpytime` the week day counts down from
  0 to 7 instead of 6, so a "last weekday" rule can end a day early.
* **Options** (`OptionScan`, `OptionMeaning`, `GetOpt`). `OptionScan` is a reference scan on values, and
  `OptionMeaning` says what it makes of each form an argument can have; `GetOpt` is the scanner that rotates argv in
  place between calls, proved to return that scan.
* **Signals** (`Signals`). What the program and its handlers do is a script of events, read by whoever has control;
  handlers run inside dispatch, and may dispatch again. Every finite prefix of a run is the run of some script. The
  program may set the mask as it likes; only a handler that does so voids the promise about the mask and re-entry,
  and only for the operations it runs in.
* **Command lines** (`CString`, `CommandLine`, `CommandWords`). What `exec` quotes, `_main` splits and unquotes;
  `CommandWords` says what any line of bare and quoted words is read as.
* **Numbers** (`StrToL`). `strtol` with its exact cutoff. For base 0 the leading 0 is stepped over as a prefix and
  not counted as a digit, so "0" is no number.

## Where code and description differ

The models follow the code. The comment in src/longlong.c:129 calls the multiplication complete, but see
`LongLongMul.LostCarryExample`; the comment in src/zoneinfo/zic.c:1749-1750 promises the date of the rule, but see
`RuleDate.LastSaturdayExample`; src/strtol.c:7 claims a POSIX-compatible function, but see `StrToL.LoneZero`; and
src/_main.c:389 leaves the command name untouched, so that it comes back with its escapes
(`CommandLine.RoundTrip`).

## Model

| member | source | states |
|---|---|---|
| `LongLong.Negate` | src/longlong.c:56-75 | negation is two's complement on the 64-bit pattern: the negative value, except that the minimum is its own negative |
| `LongLong.Add` | src/longlong.c:93-106 | the carry between the words makes the sum right modulo 2^64 |
| `LongLong.Sub` | src/longlong.c:109-127 | the borrow makes the difference right modulo 2^64, and exact when it is not negative |
| `LongLong.Lt` | src/longlong.c:462-475 | comparing signs and then unsigned words is signed comparison of the values, in both directions |
| `LongLong.ShlMultiplies` | src/longlong.c:340-362 | for every count below 64 the left shift, whichever of its branches is taken, multiplies by a power of two modulo 2^64 |
| `LongLong.ShrDivides` | src/longlong.c:365-387 | for every count below 64 the right shift is unsigned division by a power of two, rounded down |
| `LongLongMul.CoreCongruent` | src/longlong.c:150-170 | the schoolbook core is the product modulo 2^64, short of exactly 2^48 when the sum of the cross products does not fit 32 bits |
| `LongLongMul.MulExact` | src/longlong.c:130-192 | for all operands the product is exact if and only if it is representable, is not -(2^63 - 1), and the cross products of the low words sum below 2^32 |
| `LongLongMul.MulValue` | src/longlong.c:130-192 | what every product is, exact or not: the magnitude modulo 2^64 less the lost carry, with the sign of the product, or clamped to the end of the range on that side |
| `LongLongMul.ShortFactor` | src/longlong.c:161-162 | one factor below 2^16 in magnitude is enough for no carry to be lost |
| `LongLongMul.LostCarryExample` | src/longlong.c:161-170 | (2^31 - 1) * (2^32 - 1) is far from overflow and comes out wrong |
| `LongLongDiv.Align` | src/longlong.c:285-300 | the doubling loop and the step back leave the divisor shifted to within a factor two of the dividend, exactly when some doubling reaches the dividend inside the signed range |
| `LongLongDiv.Subtract` | src/longlong.c:302-319 | the shift-subtract loop keeps quotient * divisor + rest and sets distinct bits, so it ends with the quotient and a rest below the divisor when the alignment was right |
| `LongLongDiv.DivMod` | src/longlong.c:211-337 | for every nonzero divisor quotient and remainder are those of truncated division if and only if the operands are in DivDomain, a condition on the operands alone |
| `LongLongDiv.QuotientUnique` | src/longlong.c:211-337 | truncated division has at most one result, so DivMod returns the quotient and remainder |
| `LongLongDiv.SmallDividendsDivide` | src/longlong.c:285-300 | every dividend of magnitude up to 2^62 is in the domain, for every nonzero divisor but the minimum |
| `LongLongDiv.LargeDividendExample` | src/longlong.c:289-300 | a dividend between 2^62 and 2^63 that is outside the domain |
| `Calendar.YearClosedForm` | src/ctime.c:1108-1122 | adding year lengths one by one, as the source does, agrees with the closed count of leap days for every year before or after 1970 |
| `Calendar.DateOrder` | src/ctime.c:1197-1211 | dates compared field by field are in the order of their day numbers |
| `CivilTime.BreakDownExact` | src/ctime.c:1095-1129 | the civil fields of a second count are in range, agree with each other on week day and day of the year, and denote the count again |
| `CivilTime.BreakDownUnique` | src/ctime.c:1095-1129 | no other valid fields denote the same second |
| `CivilTime.TmCompOrders` | src/ctime.c:1197-1211 | tmcomp orders valid times exactly as the seconds they denote |
| `CivilTime.TmCompZero` | src/ctime.c:1197-1211 | tmcomp gives 0 exactly for equal fields, although its subtractions wrap |
| `LocalTime.LocalSecondsExact` | src/ctime.c:1075-1094 | the second count timesub works with is t + offset - correction if and only if the 32-bit sum with the second of the day does not overflow |
| `LocalTime.TimeSub` | src/ctime.c:1041-1130 | the loops of timesub store the breakdown of t + offset - correction, with one more second on a leap second, for all t, offsets and leap tables |
| `LocalTime.TimeSubExact` | src/ctime.c:1065-1129 | those fields are in range and consistent for all inputs, and denote t + offset - correction (plus one on a hit) if and only if that sum does not overflow |
| `LocalTime.OffsetOverflows` | src/ctime.c:1086-1094 | the largest offset at the second second of a day: the fields are 2^32 seconds early |
| `LocalTime.SearchLeaps` | src/ctime.c:1065-1074 | the backward scan finds the correction of the last leap entry reached, and whether t is the moment of a positive one |
| `LocalTime.LeapMeaning` | src/ctime.c:1065-1074 | the correction is that of the last leap entry reached and 0 before all of them, and a leap second is the very moment of an entry that raises it |
| `LocalTime.FindYear` | src/ctime.c:1108-1123 | the upward and the downward year loop both end in the year that holds the day |
| `LocalTime.FindMonth` | src/ctime.c:1124-1127 | the month loop ends in the month that holds the day of the year |
| `LocalTime.FindType` | src/ctime.c:956-968 | the two loops of localsub find that type |
| `LocalTime.TypeAtMeaning` | src/ctime.c:956-968 | before the first transition, or without transitions, the type is the first one that is standard time, and type 0 only when there is none; from then on it is that of the last transition reached |
| `LocalTime.LocalSub` | src/ctime.c:936-977 | localsub leaves those fields in its record, for every t and every zone |
| `LocalTime.LocalTmMeaning` | src/ctime.c:936-977 | the fields denote t plus the offset of the type in force when there are no leap seconds, and carry that type's offset and daylight flag |
| `MkTime.CarryConserves` | src/ctime.c:1178-1195 | normalize conserves tens * base + units and leaves 0 to base units, a whole base exactly for input multiples of base from -2 * base down |
| `MkTime.Normalize` | src/ctime.c:1178-1195 | the branches of normalize compute that carry, with the tens added in 32 bits |
| `MkTime.LeavesBaseMeans` | src/ctime.c:1186-1194 | normalize leaves minute 60 or hour 24 exactly for whole hours or whole days back, from minus two on |
| `MkTime.BackYearsExact` | src/ctime.c:1236-1240 | walking a non-positive day of the month back by years misses the date by exactly Slip days, at most one: it conserves the date if and only if the day is positive, the month January or February, or the year that holds the counted day as long as the year of the request |
| `MkTime.BackYearsEnd` | src/ctime.c:1236-1240 | the walk ends in the year of the day that the day of the month counts from 1 January, whatever the month |
| `MkTime.BackYearsExample` | src/ctime.c:1236-1240 | 0 March 1969 comes out a day late |
| `MkTime.ForwardMonthsExact` | src/ctime.c:1241-1251 | walking forward by months always conserves the date and ends inside a month |
| `MkTime.NormalizedConserves` | src/ctime.c:1231-1235 | the four calls of normalize conserve the second a request denotes |
| `MkTime.NormalizedRanges` | src/ctime.c:1231-1235 | seconds up to 61 are left alone and everything else comes into its range, but for the whole bases |
| `MkTime.CarriedConserves` | src/ctime.c:1230-1251 | the carries and both walks give the second a request denotes, but for the days that the walk back misses, so they conserve it if and only if the same condition holds for the normalized request |
| `MkTime.PositiveDayConserves` | src/ctime.c:1230-1251 | a carried day of the month of 1 or more is always conserved |
| `TimeSearch.ProbeSide` | src/ctime.c:1267-1276 | tmcomp tells on which side of a match a probe lies, since timesub is strictly increasing |
| `TimeSearch.ProbingStep` | src/ctime.c:1269-1276 | every probe lies strictly inside the bracket, keeps one half of it, and the arithmetic on t never wraps |
| `TimeSearch.Bisect` | src/ctime.c:1259-1278 | in every zone the probing loop ends within 33 probes, on an instant with the requested fields or else where the local time jumps over the request from one instant to the next |
| `TimeSearch.SkippedSeconds` | src/ctime.c:1266-1276 | jumping over a request means that the local second count is still below the requested one at one instant and above it at the next |
| `TimeSearch.FixedNotSkipped` | src/ctime.c:1266-1276 | in a zone of one offset a request that is jumped over is met by no instant |
| `TimeSearch.PairLeads` | src/ctime.c:1293-1313 | in a zone without leap seconds, from an instant of the wrong kind the pair of the types in force leads exactly to any instant of the right kind, whatever its type |
| `TimeSearch.NothingMissed` | src/ctime.c:1293-1313 | when no pair of types leads to a match, no instant at all meets the request |
| `TimeSearch.Hunt` | src/ctime.c:1293-1313 | the double loop returns a matching instant, or else has tried every pair of types in vain |
| `TimeSearch.Search` | src/ctime.c:1254-1314 | in a zone without leap seconds, unless the local time jumps over the request, an instant is found if and only if one exists, of whichever kind is asked for; in a zone of one offset always; in any zone what is found matches |
| `TimeSearch.RepeatedHour` | src/ctime.c:1266-1314 | an hour that comes twice when daylight time ends: asked for its first time round, which the probing does not land on, the request meets the conditions under which it is found |
| `TimeSearch.Time2` | src/ctime.c:1213-1320 | for any zone, okay means that the instant before the seconds are added back breaks down to the carried request; okay holds if and only if such an instant exists, in every zone without leap seconds unless the local time jumps over the request, and in a zone of one offset always, where it is a condition on the raw request and the result is the second the raw request denotes less the offset, but for the days that the walk back misses; 33 probes suffice; a failure returns -1 and leaves the request alone |
| `TimeSearch.FixedMatch` | src/ctime.c:1254-1319 | in a zone of one offset the only instant that can match is the second the request denotes less the offset |
| `TimeSearch.RequestMatch` | src/ctime.c:1229-1319 | in a zone of one offset the only instant that can meet a raw request is the start of the minute of the second it denotes less the offset (and the days that the walk back misses), and none does when normalize leaves a whole base or another kind of time is asked for |
| `TimeSearch.NeverMet` | src/ctime.c:1266-1278 | in no zone does any instant meet a request for which normalize leaves minute 60 or hour 24 |
| `TimeSearch.Findable` | src/ctime.c:1254-1319 | which requests time2 can meet in a zone of one offset, as a condition on the request alone |
| `TimeSearch.CarriedIdentity` | src/ctime.c:1229-1253 | a breakdown passes through the carries unchanged |
| `TimeSearch.ThereAndBack` | src/ctime.c:1213-1320 | breaking an instant down and searching for it returns that instant, if and only if the start of its minute is a time_t |
| `TimeSearch.CarryRequest` | src/ctime.c:1231-1251 | the loops of time2 compute the carried request in place |
| `TimeSearch.WholeDaysBack` | src/ctime.c:1186-1194 | minus 48 hours is left as hour 24, and no instant of any zone meets the carried request, although the second it denotes is a time_t |
| `TzRules.ZellerAgrees` | src/ctime.c:612-622 | Zeller's congruence in C arithmetic is the week day found by counting days, for every year from 1 on and every month |
| `TzRules.NthDayUnique` | src/ctime.c:624-637 | an Mm.n.d rule names at most one day |
| `TzRules.RuleYdayExists` | src/ctime.c:579-644 | every rule names a day in every year |
| `TzRules.JulianNamesDate` | src/ctime.c:581-592 | a Jn rule names the same month and day in every year, leap years included |
| `TzRules.NthDay` | src/ctime.c:629-637 | the loop lands on the n-th such week day of the month, or on the last one when there are fewer |
| `TzRules.TransTime` | src/ctime.c:566-653 | transtime lands on the day the rule names, in every year from 1 on, at the rule's time and offset, in 32-bit arithmetic |
| `TzRules.TzParseRules` | src/ctime.c:727-761 | the table that tzparse fills holds both transitions of every year from 1970 to 2037, the earlier first, and the two types |
| `TzRules.RulesInWallTime` | src/ctime.c:744-747 | daylight time starts when standard time shows the start rule's time, and ends when daylight time shows the end rule's, each in the offset of its type |
| `TzRules.TableSorted` | src/ctime.c:740-761 | when the transitions fall inside their own years the whole table is in time order |
| `TzRules.StaysInOwnYear` | src/ctime.c:740-761 | every transition falls inside its own year if and only if neither the earliest nor the latest day the rules can name is shifted out of a common year, for all shifts up to three days; times and offsets that are parsed stay below |
| `TzRules.InsideYear` | src/ctime.c:566-653 | the same for one rule, in every year of the table |
| `TzRules.LocalSubFollowsRules` | src/ctime.c:740-761 | from the first transition to the end of 2037 localsub picks daylight time as the rules of that year say, if and only if t does not lie before the first transition of a year whose transitions changed order since the year before |
| `TzRules.LocalSubIsDst` | src/ctime.c:936-977 | up to the end of 2037 the daylight flag that localsub stores is standard time before the first transition and that of the rules after it, but for the flipped years, and the stored offset is that of the flag |
| `TzRules.FlippedExample` | src/ctime.c:748-758 | two April rules for which 1 January 1972 gets the wrong type |
| `ZoneFile.DecodeCode` | src/ctime.c:215-226 | detzcode undoes convert for every 32-bit value, negative ones included |
| `ZoneFile.CodeDecode` | src/zoneinfo/zic.c:1228-1238 | convert undoes detzcode for every four bytes |
| `ZoneFile.Convert` | src/zoneinfo/zic.c:1228-1238 | the shifts of convert write the two's complement, most significant byte first |
| `ZoneFile.Detzcode` | src/ctime.c:215-226 | the shifts of detzcode read it back |
| `ZoneFile.Sections` | src/zoneinfo/zic.c:1276-1322 | the header and the six sections of the file lie where their counts say |
| `ZoneFile.HeaderLayout` | src/zoneinfo/zic.c:1276-1281 | the five counts are coded at bytes 24 to 43, and the sections follow in the lengths they give |
| `ZoneFile.TransitionLayout` | src/zoneinfo/zic.c:1282-1292 | each transition time is four bytes after the header, each type number a byte after all times |
| `ZoneFile.TypeLayout` | src/zoneinfo/zic.c:1293-1322 | six bytes a type, and its standard time flag in the last section |
| `ZoneFile.CharLayout` | src/zoneinfo/zic.c:1299-1302 | the abbreviation characters follow the types |
| `ZoneFile.LeapLayout` | src/zoneinfo/zic.c:1303-1319 | eight bytes a leap second, its time and then its correction |
| `ZoneFile.RoundTrip` | src/ctime.c:303-377 | every zone within the limits is accepted and read back unchanged: counts, transitions, types, offsets, flags, characters and leap seconds |
| `ZoneFile.AcceptedExactly` | src/ctime.c:316-377 | of all zones that bytes can hold tzload accepts exactly those within the limits |
| `ZoneFile.WithoutFlags` | src/ctime.c:365-377 | a file that leaves the last section out is read the same, with no flag set |
| `ZoneFile.TzLoad` | src/ctime.c:303-377 | tzload succeeds on exactly the complete and consistent files, and then its tables hold what the file says |
| `ZicArith.Oadd` | src/zoneinfo/zic.c:1714-1727 | comparing the wrapped sum with an operand detects overflow exactly |
| `ZicArith.Tadd` | src/zoneinfo/zic.c:1729-1746 | the extreme times absorb what would overflow; any other overflow is the error exit |
| `LeapTable.Table.AddLeap` | src/zoneinfo/zic.c:1545-1574 | the parallel arrays stay sorted, take the new moment at its place, and refuse exactly a full table or a repeated moment |
| `LeapTable.Table.ShiftUp` | src/zoneinfo/zic.c:1565-1569 | the last-first loop moves all three arrays up by one and changes nothing below |
| `LeapTable.Table.AdjLeap` | src/zoneinfo/zic.c:1576-1589 | each correction becomes the sum of the signs so far and each moment is shifted by the sum before it |
| `LeapTable.ShiftedMeaning` | src/zoneinfo/zic.c:1585-1588 | each moment is shifted by the sum before it, the extreme times stay rather than overflow, and any other overflow is the error exit |
| `LeapTable.OrderIrrelevant` | src/zoneinfo/zic.c:1545-1574 | distinct moments inserted in any order give the same table |
| `LeapTable.NetCorrection` | src/ctime.c:1065-1074 | after adjleap without saturation the backward scan of timesub finds the net correction of all moments reached |
| `RuleDate.OnOrAfter` | src/zoneinfo/zic.c:1806-1811 | counting up gives the first such week day on or after the n-th |
| `RuleDate.OnOrBefore` | src/zoneinfo/zic.c:1812-1817 | counting down gives the last such week day on or before the n-th if and only if the target's number is at most that of day n; otherwise it ends a day early |
| `RuleDate.ChosenDayMeaning` | src/zoneinfo/zic.c:1780-1822 | what rpytime chooses for each form of rule, 29 February included, in every year |
| `RuleDate.StartsFrom` | src/zoneinfo/zic.c:1780-1788 | the 29 February that is not counts as 28 for a rule that counts down, and is an error for the others |
| `RuleDate.NamesNone` | src/zoneinfo/zic.c:1806-1822 | a rule that counts up fails exactly when no such week day is left in the month, one that counts down exactly when it has to step out of the month, with the step too many that some targets take |
| `RuleDate.LastSundayRight` | src/zoneinfo/zic.c:1812-1817 | a last-Sunday rule is always right |
| `RuleDate.LastSaturdayExample` | src/zoneinfo/zic.c:1814-1815 | a last-Saturday rule resolved to the Friday before |
| `RuleDate.OverflowCheck` | src/zoneinfo/zic.c:1829-1833 | the cheap overflow check is exact |
| `RuleDate.DaysToYear` | src/zoneinfo/zic.c:1762-1774 | the year walk counts the days to 1 January of any year before or after 1970, or overflows |
| `RuleDate.DateInRange` | src/zoneinfo/zic.c:1762-1841 | a date whose second is a time_t is resolved to that second: no running count overflows on the way |
| `RuleDate.ResolvedMeaning` | src/zoneinfo/zic.c:1829-1841 | the answer for a chosen day in full: its second with the time of day, the extreme time in the last or first year of the rule when the day itself is out of range, and otherwise the error exit |
| `RuleDate.DaysSurelyFit` | src/zoneinfo/zic.c:1762-1774 | the running day count cannot overflow within five million years |
| `RuleDate.RpyTime` | src/zoneinfo/zic.c:1753-1842 | rpytime returns the second of the chosen day and time, an extreme time for a day out of range in the first or last year of the rule, and otherwise takes the error exit |
| `WordTable.CiEqual` | src/zoneinfo/zic.c:1625-1634 | ciequal is equality of all letters, case aside |
| `WordTable.ItsAbbr` | src/zoneinfo/zic.c:1636-1649 | the greedy match succeeds if and only if the first letters match and the abbreviation is a subsequence of the word, case aside |
| `WordTable.ByWord` | src/zoneinfo/zic.c:1651-1677 | the first exact match, else the only abbreviated match, else nothing |
| `TypePool.InternStep` | src/zoneinfo/zic.c:1504-1543 | the index returned denotes the key, older indices keep denoting theirs, and the pool is unchanged exactly when the key was already there |
| `TypePool.InternFails` | src/zoneinfo/zic.c:1504-1543 | a call fails if and only if the type is new and there is no room for it, or for its abbreviation when the characters hold that nowhere, not even as the end of another |
| `TypePool.RunStable` | src/zoneinfo/zic.c:1504-1543 | after any run of calls every index returned still denotes the key it was returned for, though suffixes are shared and the pool grows |
| `TypePool.InterningSound` | src/zoneinfo/zic.c:1517-1522 | over any run equal keys get equal indices and different keys different ones |
| `TypePool.Pool.AddType` | src/zoneinfo/zic.c:1504-1543 | the loops over the file-level arrays do one such step, or take the error exit |
| `TypePool.Pool.NewAbbr` | src/zoneinfo/zic.c:1844-1857 | the string and its NUL are appended, unless the pool would fill up |
| `ZoneWriter.Transitions.AddTt` | src/zoneinfo/zic.c:1488-1502 | a transition to the type in force is dropped, any other is appended, and a full list is the error exit |
| `ZoneWriter.AdjustTransitions` | src/zoneinfo/zic.c:1282-1290 | every transition is corrected in place by the leap entry in force and written |
| `ZoneWriter.LeapAdjustedMeaning` | src/zoneinfo/zic.c:1282-1290 | the transition is moved by the correction of the last leap entry it has reached, within the range of a time |
| `ZoneWriter.BeforeLeaps` | src/zoneinfo/zic.c:1282-1290 | a transition before all leap entries is not moved |
| `ZoneWriter.ShownAsMeant` | src/zoneinfo/zic.c:1282-1290 | timesub takes off what was added, unless moving the transition has made it reach another leap entry |
| `ZoneWriter.WriteZone` | src/zoneinfo/zic.c:1276-1322 | the bytes written are the coded zone that the tables hold; it fails if and only if a corrected transition or a rolling leap second overflows |
| `ZoneWriter.StayingLeaps` | src/zoneinfo/zic.c:1303-1319 | leap seconds that do not roll cannot overflow |
| `ZoneWriter.WrittenLeapMeaning` | src/zoneinfo/zic.c:1303-1319 | a leap second is written as it is, and a rolling one earlier by the offset then in force |
| `ZoneWriter.WrittenIsWritable` | src/zoneinfo/zic.c:1276-1322 | what is written is within the limits of the round trip |
| `ZoneWriter.WriteThenLoad` | src/zoneinfo/zic.c:1276-1322 | tzload of the bytes written succeeds, and the reader's tables hold the leap-adjusted zone of the writer's |
| `OptionScan.LookupMeaning` | src/zoneinfo/getopt.c:420-441 | a long name finds the first exact match, or the only abbreviation when no name is exact |
| `OptionMeaning.LongOptionRead` | src/zoneinfo/getopt.c:401-503 | a long option that selects an entry is read as that entry's value, or 0 when it has a flag, with its index; its argument is the text after the equals sign, or the next one when required; an unwanted or missing argument is the error code |
| `OptionMeaning.LongOptionUnknown` | src/zoneinfo/getopt.c:505-530 | a name that no entry starts with, or several but none exactly, is the error code, except after a single dash for a short option |
| `OptionMeaning.ShortWithArgument` | src/zoneinfo/getopt.c:532-593 | an option character followed by a colon in optstring takes the rest of its element, or the next argument when only one colon follows and nothing is left; a missing one is the error code |
| `OptionMeaning.ShortAlone` | src/zoneinfo/getopt.c:532-593 | any other character gives itself exactly when optstring holds it and it is no colon, and the rest of the element is read on as if it stood alone |
| `OptionMeaning.WordsAndDashes` | src/zoneinfo/getopt.c:337-376 | words, a lone dash and, without long options, words with a plus are left over, and two dashes end the options |
| `OptionScan.ScanSplits` | src/zoneinfo/getopt.c:322-399 | the reference scan splits the arguments in two, each part in its original order: the option elements, the arguments they take and the closing dashes; and the others, with everything after the dashes |
| `OptionScan.RolesUnique` | src/zoneinfo/getopt.c:322-399 | which argument plays which of these roles is determined by the arguments |
| `OptionScan.ScanPermutes` | src/zoneinfo/getopt.c:322-399 | nothing is lost or added by the scan |
| `GetOpt.Scanner.Exchange` | src/zoneinfo/getopt.c:204-222 | the two adjacent blocks of argv change places, and nothing else moves |
| `GetOpt.Copy` | src/zoneinfo/getopt.c:175-183 | the ascending copy may move a block down over itself |
| `GetOpt.Scanner.NextElement` | src/zoneinfo/getopt.c:322-399 | between elements argv stays sorted out into options, skipped non-options and untouched rest, and the scan ends only when it is finished |
| `GetOpt.Scanner.DecodeLong` | src/zoneinfo/getopt.c:401-530 | the long option branch returns what the reference step returns, and moves optind and nextchar as it does |
| `GetOpt.Scanner.DecodeShort` | src/zoneinfo/getopt.c:532-593 | so does the option character branch |
| `GetOpt.KeptByStep` | src/zoneinfo/getopt.c:401-593 | decoding one option keeps the account of the whole scan, inside an element or past it and its argument |
| `GetOpt.KeptByExchange` | src/zoneinfo/getopt.c:326-332 | rotating the blocks changes neither the options nor the non-options sorted out so far |
| `GetOpt.Scanner.GetOptInternal` | src/zoneinfo/getopt.c:280-594 | every call in PERMUTE mode keeps the account of the whole scan, returns the next option of the reference scan, and returns EOF only when argv is completely sorted out; in the other two modes argv stays as it is and each call returns what PlainCall says, with optind and nextchar |
| `GetOpt.InOrderCall` | src/zoneinfo/getopt.c:347-397 | a call in the modes that move nothing: two dashes and, in REQUIRE_ORDER, the first non-option end the scan, RETURN_IN_ORDER hands the non-option back under code 1, and an option is the first event of the scan of what is left |
| `GetOpt.Scanner.Start` | src/zoneinfo/getopt.c:298-320 | the first call chooses the ordering and takes the prefix off its own copy of optstring only |
| `GetOpt.CallsPermute` | src/zoneinfo/getopt.c:204-222 | between any two calls argv is a permutation of the original |
| `GetOpt.Run` | src/zoneinfo/getopt.c:280-594 | every run in PERMUTE mode reaches EOF, has returned the options of the reference scan, and leaves the consumed elements before optind and the others from it on, both in original order |
| `Signals.OwedMeaning` | src/signals.c:115-119 | owed means deferred at some point and not taken since |
| `Signals.SteadyTransitive` | src/signals.c:105-141 | what every operation but a sigsetmask of the program keeps is kept over any sequence of them |
| `Signals.HandledRound` | src/signals.c:131-136 | masking the signal around its handler and unmasking it after leaves at most that signal uncovered; unless a handler has set the mask meanwhile it restores the mask, and the handler does not meet itself |
| `Signals.Machine.constructor` | src/signals.c:186-195 | nothing is masked or pending and every handler is the default |
| `Signals.Machine.Dispatch` | src/signals.c:105-141 | a masked signal is only deferred; an unmasked one is taken by the handler then installed and is not pending afterwards; the default action ends the program except for three signals; no other signal becomes pending and unmasked |
| `Signals.Machine.TakeWhilePending` | src/signals.c:117-139 | the do-while loop ends with the signal not pending |
| `Signals.Machine.Take` | src/signals.c:119-137 | one turn of the loop: the action is that of the handler table, and a handler runs with its signal masked |
| `Signals.Machine.CallHandler` | src/signals.c:133-135 | a handler may raise signals, install handlers and change the mask, and still keeps what every operation keeps |
| `Signals.Machine.HandleSignals` | src/signals.c:153-163 | every signal the system has delivered is deferred or taken before it returns, and the answer says whether there was one |
| `Signals.Machine.SigSetMask` | src/sigsetmask.c:4-18 | no uncovered signal is left when it returns, it returns the mask it found, what the system has delivered is deferred or taken, and unless a handler run by it sets the mask again the new mask is in force |
| `Signals.Machine.Install` | src/signal.c:4-17 | a handler in range is replaced and the old one returned, and no other handler changes unless a handler that runs installs one; out of range the answer is 0; what the system has delivered is deferred or taken |
| `Signals.Machine.Kill` | src/kill.c:40-51 | a signal to oneself is deferred or taken, after those the system has delivered, and SIGKILL ends the program |
| `Signals.Machine.Run` | src/signals.c:105-141 | whenever control is outside every handler each pending signal is masked, and the pending signals are exactly those deferred and not taken since; each operation does what it is for; the program ends only by SIGKILL or by a default action that ends it; over any operation during which no handler sets the mask, the mask is the one the program set last and no handler is entered again for its own signal |
| `Signals.Machine.Step` | src/signals.c:105-141 | whichever operation is called, in a handler or outside, does what it is for and keeps all that; only a sigsetmask of the program itself changes the mask |
| `CommandLine.BuildLine` | src/exec.c:57-88 | the argument loop of exec builds the line of quoted arguments |
| `CommandWords.BuiltLine` | src/exec.c:78-86 | the line built for two arguments, in characters |
| `CommandLine.Extract` | src/_main.c:183-242 | the loops of extract read a word as its quoting and purpose demand |
| `CommandLine.TakeWord` | src/_main.c:345-387 | the three scanning loops end a word where the quoting it starts with says |
| `CommandWords.WordRead` | src/_main.c:183-387 | a word written bare with backslashes, in double quotes with stars or in single quotes is the next word of the line, ends at the white space or the closing quote, and is read as its characters: escaped ones as themselves, as a newline or an escape after a star, and behind a quote in a pattern if they are wildcards |
| `CommandWords.Unclosed` | src/_main.c:345-379 | a quote that is never closed is closed by the end of the line |
| `CommandWords.EscapeAtEnd` | src/_main.c:183-242 | an escape character that ends the line stands for itself |
| `CommandLine.ParseLine` | src/_main.c:336-451 | the word loop collects the command name as it is and expands every later word |
| `CommandWords.WordsRead` | src/_main.c:393-451 | a line of such words with white space between them gives, word for word, the word, or the matches of its pattern when it is a wildcard that has some, or the failure |
| `CommandWords.LineRead` | src/_main.c:336-451 | the first word of a command line comes without quotes but otherwise untouched, the others as they are read |
| `CommandWords.PlainLine` | src/_main.c:336-451 | words without white space, backslashes and leading quotes come back exactly, when those after the first are no wildcards |
| `CommandLine.EscapeReadsBack` | src/_main.c:224-240 | an escaped argument ends exactly at its closing quote and reads back as itself |
| `CommandLine.EscapeIdentity` | src/exec.c:80-84 | escaping changes nothing if and only if there is no double quote and no star |
| `CommandLine.QuotedWord` | src/_main.c:345-363 | a quoted argument is the next word of the line, and the line goes on after it |
| `CommandLine.LineReadsBack` | src/_main.c:336-451 | splitting the line that exec built gives every argument after the first as itself, or the matches of its wildcard; the first comes back escaped |
| `CommandLine.RoundTrip` | src/_main.c:336-451 | without wildcards every argument after the first comes back unchanged, and the whole vector does if and only if the first has no double quote and no star |
| `StrToL.Prologue` | src/strtol.c:22-47 | the loop and the branches before the digits find the sign, the base and the start of the digits |
| `StrToL.CutoffExact` | src/strtol.c:56-75 | the comparison with cutoff and cutlim decides exactly whether the next digit still fits |
| `StrToL.TrackStep` | src/strtol.c:74-80 | one digit keeps the accumulator equal to the number read or the overflow noted, and the accumulator never wraps |
| `StrToL.ReadDigits` | src/strtol.c:61-81 | the digit loop reads the maximal run of digits; it reports overflow if and only if the number exceeds the limit of its sign |
| `StrToL.Strtol` | src/strtol.c:14-96 | for every string and base: the clamped value, the end of the run, and errno; no digits give 0 and the start of the string; a bad base gives EINVAL |
| `StrToL.NumberIsPositional` | src/strtol.c:74-80 | the number read digit by digit is the positional value of the run |
| `StrToL.DigitMeaning` | src/strtol.c:62-65 | the digits are 0 to 9 and the letters of either case |
| `StrToL.NumberRead` | src/strtol.c:14-95 | a string of white space, a sign, for base 0 a prefix, digits and something else: the value is the positional value of the digits, negative exactly for a minus sign, clamped to a long with ERANGE exactly when it does not fit, and the end is that of the digits; without digits nothing is converted |
| `StrToL.BadBase` | src/strtol.c:49-54 | EINVAL exactly for a base that is neither 0 nor from 2 to 36 |
| `StrToL.FollowsStandard` | src/strtol.c:34-47 | the result is the one of section 7.20.1.4 of C99 if and only if the input is not base 0 with no digit after the 0 or 0x, nor base 16 with a 0x and a digit |
| `StrToL.LoneZero` | src/strtol.c:34-43 | "0" in base 0 is taken for a bare prefix, and no conversion is reported |

## Left out

- GetOpt.Run: whole runs are stated for PERMUTE mode, the only one that moves elements; the other two modes are stated call by call.
- TimeSearch.Time2: a month that is an exact multiple of 12 at or below -24 is excluded, because normalize then leaves month 12 and the source reads past its month table; completeness is stated for zones without leap seconds, and with more than one offset for requests that the local time does not jump over at any instant.
- TzRules.LocalSubFollowsRules: transitions that fall outside their own year, where the table need not be sorted.
- TzRules.StaysInOwnYear: a time and offset that together exceed three days, which getsecs cannot produce.
- LeapTable.NetCorrection: saturated moments, where adding the correction leaves the range of a time.
- StrToL.Strtol: characters outside ASCII, and a null endptr, which only suppresses the end position.
- WordTable.ItsAbbr: an empty abbreviation of an empty word, for which the source reads past both strings.
- Signals.Machine.Dispatch: a number outside 0..31 is taken to name no bit; the shift by it is undefined in C.
- `lsis[-1]`, which timesub reads for the first leap entry, is the parameter `below`.
- gmtsub and gmtload; timesub itself is modelled for every offset.
- time1 and mktime, which retry time2 with the other kind of time.
- The text of TZ: getzname, getnum, getoffset and getrule; the models start from the parsed rules. The branch of tzparse that uses the posixrules file.
- tzname and tm_zone, asctime, the mc68k special case and the ALL_STATE variants.
- Opening and reading the zone file, and the size of tzload's buffer; a file of the largest counts fits it.
- Reading of zone source files, error messages, links, directories, yearistype's command, outzone, and the branch of rpytime for an unsigned time_t.
- Error messages of getopt and opterr; the values stored through a long option's flag pointer.
- longjmp out of handlers, what happens while the process exits, and when the system delivers a signal, which is part of the script of events.
- kill of another process, timers, and the waiting loops around _handle_signals.
- Buffer capacities in exec and _main, and the process creation in exec; a command line is a string that grows. ParsePattern and the directory search are given functions, and the sorting of their matches is theirs.
- Building a buffer through a moving pointer is modelled as appending to a string, so overwriting and the final NUL are not captured.
- strtoll, whose overflow test divides the minimum value.
- AmigaDOS and exec.library calls, pipes, sockets, the descriptor table, the directory list, alloca chains and the child list.
- fnmatch, fork, glob and the other stubs, the string wrappers and the protection bit mapping, which are simple.
