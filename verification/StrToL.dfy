/** strtol on the 32-bit long: skip white space, take a sign, settle the base, then read digits with an exact cutoff.
    Characters are ASCII; at the end of the string the code reads NUL. */
module StrToL {
  import opened CInt
  import opened CString

  datatype Errno = Untouched | EINVAL | ERANGE

  /** What strtol returns, where it leaves endptr, and what it puts in errno. */
  datatype Outcome = Outcome(value: int, end: nat, errno: Errno)

  predicate IsDigit(c: char) { '0' <= c <= '9' }

  predicate IsUpper(c: char) { 'A' <= c <= 'Z' }

  predicate IsLower(c: char) { 'a' <= c <= 'z' }

  // ---------------------------------------------------------------- what a string denotes

  function Digit(c: char): (d: int)
    ensures -1 <= d < 36
  {
    if IsDigit(c) then c as int - '0' as int
    else if IsUpper(c) then c as int - 'A' as int + 10
    else if IsLower(c) then c as int - 'a' as int + 10
    else -1
  }

  predicate DigitIn(c: char, base: int) {
    0 <= Digit(c) < base
  }

  function SpacesEnd(s: string, i: nat): (r: nat)
    requires i <= |s|
    ensures i <= r <= |s| && !IsSpace(At(s, r))
    ensures forall k :: i <= k < r ==> IsSpace(s[k])
    decreases |s| - i
  {
    if i < |s| && IsSpace(s[i]) then SpacesEnd(s, i + 1) else i
  }

  function SignEnd(s: string): (r: nat)
    ensures r <= |s|
  {
    var i := SpacesEnd(s, 0);
    if At(s, i) == '-' || At(s, i) == '+' then i + 1 else i
  }

  predicate Negative(s: string) {
    At(s, SpacesEnd(s, 0)) == '-'
  }

  predicate IsX(c: char) {
    c == 'x' || c == 'X'
  }

  /** The maximal run of digits. */
  function RunEnd(s: string, i: nat, base: int): (r: nat)
    requires i <= |s|
    ensures i <= r <= |s| && !DigitIn(At(s, r), base)
    ensures forall k :: i <= k < r ==> DigitIn(s[k], base)
    decreases |s| - i
  {
    if i < |s| && DigitIn(s[i], base) then RunEnd(s, i + 1, base) else i
  }

  function Number(s: string, i: nat, j: nat, base: int): (n: int)
    requires j <= |s|
  {
    if j <= i then 0 else Number(s, i, j - 1, base) * base + Digit(s[j - 1])
  }

  /** The digits from `start` in the given base, with the sign, clamped to a long. */
  function Converted(s: string, start: nat, base: int): Outcome
    requires start <= |s|
  {
    var end := RunEnd(s, start, base);
    var n := Number(s, start, end, base);
    var value := if Negative(s) then -n else n;
    if end == start then Outcome(0, 0, Untouched)
    else if IsLong(value) then Outcome(value, end, Untouched)
    else Outcome(if Negative(s) then LONG_MIN else LONG_MAX, end, ERANGE)
  }

  predicate ValidBase(base: int) {
    2 <= base <= 36
  }

  /** The base the digits are read in. */
  function BaseOf(s: string, base: int): int {
    var j := SignEnd(s);
    if base != 0 then base
    else if At(s, j) != '0' then 10
    else if IsX(At(s, j + 1)) then 16
    else 8
  }

  /** Where the digits start: base 0 steps over the 0 or 0x that told the base. */
  function DigitsStart(s: string, base: int): (r: nat)
    ensures r <= |s|
  {
    var j := SignEnd(s);
    if base != 0 || At(s, j) != '0' then j
    else if IsX(At(s, j + 1)) then j + 2
    else j + 1
  }

  function Meaning(s: string, base: int): Outcome {
    if ValidBase(BaseOf(s, base)) then Converted(s, DigitsStart(s, base), BaseOf(s, base))
    else Outcome(0, 0, EINVAL)
  }

  // ---------------------------------------------------------------- the function

  method Prologue(str: string, base: int) returns (neg: bool, newBase: int, p: nat)
    ensures neg == Negative(str) && newBase == BaseOf(str, base) && p == DigitsStart(str, base)
  {
    p := 0;
    while IsSpace(At(str, p))
      invariant p <= |str| && SpacesEnd(str, p) == SpacesEnd(str, 0)
      decreases |str| - p
    {
      p := p + 1;
    }
    neg := false;
    if At(str, p) == '-' {
      neg := true;
      p := p + 1;
    } else if At(str, p) == '+' {
      p := p + 1;
    }
    newBase := base;
    if base == 0 {
      if At(str, p) == '0' {
        p := p + 1;
        if IsX(At(str, p)) {
          newBase := 16;
          p := p + 1;
        } else {
          newBase := 8;
        }
      } else {
        newBase := 10;
      }
    }
  }

  function Limit(neg: bool): int {
    if neg then TWO31 else LONG_MAX
  }

  /** The cutoff test decides whether one more digit still fits, without computing the number. */
  lemma CutoffExact(limit: int, base: int, acc: int, d: int)
    requires 2 <= base && 0 <= d < base && 0 <= limit
    ensures (acc > limit / base || (acc == limit / base && d > limit % base)) <==> acc * base + d > limit
  {
    var q, r := limit / base, limit % base;
    assert limit == q * base + r;
    if acc > q {
      MulMono(q + 1, acc, base);
    } else if acc < q {
      MulMono(acc + 1, q, base);
    }
  }

  /** Once over the limit, always over it. */
  lemma NumberGrows(n: int, base: int, d: int, limit: int)
    requires 2 <= base && 0 <= d && 0 <= limit < n
    ensures n * base + d > limit
  {
    MulMono(1, base, n);
  }

  lemma OneDigit(s: string, start: nat, p: nat, base: int)
    requires start <= p < |s| && DigitIn(s[p], base)
    ensures Number(s, start, p + 1, base) == Number(s, start, p, base) * base + Digit(s[p])
    ensures RunEnd(s, p, base) == RunEnd(s, p + 1, base)
  {
  }

  /** What the accumulator knows of the number n read so far: n itself, or that it is over the limit. */
  predicate Tracks(acc: int, any: int, n: int, limit: int) {
    && (any < 0 <==> n > limit)
    && (any >= 0 ==> acc == n)
    && 0 <= acc <= limit && 0 <= n
  }

  /** The cutoff test keeps track, and the unsigned accumulator never wraps. */
  lemma TrackStep(acc: int, any: int, n: int, limit: int, base: int, d: int)
    requires Tracks(acc, any, n, limit) && 2 <= base && 0 <= d < base && 0 <= limit < TWO32
    ensures any < 0 || acc > limit / base || (acc == limit / base && d > limit % base) ==>
      Tracks(acc, -1, n * base + d, limit)
    ensures !(any < 0 || acc > limit / base || (acc == limit / base && d > limit % base)) ==>
      Tracks(((acc * base) % TWO32 + d) % TWO32, 1, n * base + d, limit)
  {
    MulMono(0, n, base);
    if any < 0 {
      NumberGrows(n, base, d, limit);
    } else {
      CutoffExact(limit, base, acc, d);
      NoWrap(acc * base, d);
    }
    hide Tracks;
    TrackNext(acc, any, n, limit, n * base + d);
  }

  lemma NoWrap(x: int, d: int)
    ensures 0 <= x && 0 <= d && x + d < TWO32 ==> (x % TWO32 + d) % TWO32 == x + d
  {
  }

  lemma TrackNext(acc: int, any: int, n: int, limit: int, next: int)
    requires Tracks(acc, any, n, limit) && 0 <= next
    ensures next > limit ==> Tracks(acc, -1, next, limit)
    ensures next <= limit ==> Tracks(next, 1, next, limit)
  {
  }

  /** The digit loop: the accumulator is an unsigned long and never wraps. */
  method ReadDigits(str: string, start: nat, base: int, neg: bool) returns (acc: nat, any: int, p: nat)
    requires start <= |str| && ValidBase(base)
    ensures p == RunEnd(str, start, base)
    ensures any == 0 <==> p == start
    ensures any < 0 <==> Number(str, start, p, base) > Limit(neg)
    ensures any >= 0 ==> acc == Number(str, start, p, base)
  {
    hide Number, RunEnd, Tracks, IsDigit, IsUpper, IsLower;
    var cutoff := Limit(neg);
    var cutlim := cutoff % base;
    cutoff := cutoff / base;
    acc, any, p := 0, 0, start;
    StartTracking(str, start, base, Limit(neg));
    while true
      invariant start <= p <= |str| && RunEnd(str, p, base) == RunEnd(str, start, base)
      invariant any == 0 <==> p == start
      invariant Tracks(acc, any, Number(str, start, p, base), Limit(neg))
      decreases |str| - p
    {
      var c := At(str, p);
      var d: int;
      NotDigit(str, p, base);
      if IsDigit(c) {
        d := c as int - '0' as int;
      } else if IsUpper(c) || IsLower(c) {
        d := c as int - (if IsUpper(c) then 'A' as int - 10 else 'a' as int - 10);
      } else {
        break;
      }
      if d >= base {
        break;
      }
      OneDigit(str, start, p, base);
      TrackStep(acc, any, Number(str, start, p, base), Limit(neg), base, d);
      if any < 0 || acc > cutoff || (acc == cutoff && d > cutlim) {
        any := -1;
      } else {
        any := 1;
        acc := (acc * base) % TWO32;
        acc := (acc + d) % TWO32;
      }
      p := p + 1;
    }
    EndTracking(acc, any, Number(str, start, p, base), Limit(neg));
  }

  lemma StartTracking(s: string, start: nat, base: int, limit: int)
    requires start <= |s| && 0 <= limit
    ensures Tracks(0, 0, Number(s, start, start, base), limit)
  {
  }

  lemma EndTracking(acc: int, any: int, n: int, limit: int)
    requires Tracks(acc, any, n, limit)
    ensures (any < 0 <==> n > limit) && (any >= 0 ==> acc == n)
  {
  }

  /** A character that is no digit in the base ends the run. */
  lemma NotDigit(s: string, p: nat, base: int)
    requires p <= |s| && ValidBase(base)
    ensures !DigitIn(At(s, p), base) ==> RunEnd(s, p, base) == p
    ensures var c := At(s, p);
            && (IsDigit(c) ==> c != NUL && Digit(c) >= 0 && Digit(c) == c as int - '0' as int)
            && (!IsDigit(c) && IsUpper(c) ==> c != NUL && Digit(c) >= 0 && Digit(c) == c as int - 'A' as int + 10)
            && (!IsDigit(c) && !IsUpper(c) && IsLower(c) ==> c != NUL && Digit(c) >= 0 && Digit(c) == c as int - 'a' as int + 10)
            && (!IsDigit(c) && !IsUpper(c) && !IsLower(c) ==> Digit(c) == -1)
            && Digit(NUL) == -1
  {
  }

  /** The sign in unsigned arithmetic, and the cast back to a long. */
  lemma SignedWord(acc: int)
    ensures 0 <= acc <= TWO31 ==> Wrap((-acc) % TWO32) == -acc
    ensures Wrap(TWO31) == LONG_MIN
  {
    if 0 < acc <= TWO31 {
      DivModUnique(-acc, TWO32, -1, TWO32 - acc);
    }
  }

  lemma ConvertedCases(s: string, start: nat, base: int)
    requires start <= |s| && ValidBase(base)
    ensures var end := RunEnd(s, start, base);
            var n := Number(s, start, end, base);
            Converted(s, start, base) ==
            if end == start then Outcome(0, 0, Untouched)
            else if n <= Limit(Negative(s)) then Outcome(if Negative(s) then -n else n, end, Untouched)
            else Outcome(if Negative(s) then LONG_MIN else LONG_MAX, end, ERANGE)
  {
    NumberNatural(s, start, RunEnd(s, start, base), base);
  }

  lemma {:induction false} NumberNatural(s: string, i: nat, j: nat, base: int)
    requires j <= |s| && base >= 0
    requires forall k :: i <= k < j ==> DigitIn(s[k], base)
    ensures Number(s, i, j, base) >= 0
  {
    if i < j {
      NumberNatural(s, i, j - 1, base);
      MulMono(0, base, Number(s, i, j - 1, base));
    }
  }

  method Strtol(str: string, base: int) returns (value: int, end: nat, errno: Errno)
    ensures Outcome(value, end, errno) == Meaning(str, base)
  {
    hide Number, RunEnd, Negative, Converted, BaseOf, DigitsStart;
    var neg, b, p := Prologue(str, base);
    if b < 2 || b > 36 {
      return 0, 0, EINVAL;
    }
    var acc, any;
    ConvertedCases(str, p, b);
    acc, any, p := ReadDigits(str, p, b, neg);
    SignedWord(acc);
    errno := Untouched;
    if any < 0 {
      acc := if neg then TWO31 else LONG_MAX;
      errno := ERANGE;
    } else if any == 0 {
      return 0, 0, Untouched;
    } else if neg {
      acc := (-acc) % TWO32;
    }
    end := if any != 0 then p else 0;
    value := Wrap(acc);
  }

  // ---------------------------------------------------------------- the meaning, and the standard

  function Power(base: int, n: nat): int {
    if n == 0 then 1 else base * Power(base, n - 1)
  }

  /** The positional value: each digit times the power of the base at its place. */
  function Positional(s: string, i: nat, j: nat, base: int): int
    requires i <= j <= |s|
    decreases j - i
  {
    if i == j then 0 else Digit(s[i]) * Power(base, j - i - 1) + Positional(s, i + 1, j, base)
  }

  lemma {:induction false} FirstDigit(s: string, i: nat, j: nat, base: int)
    requires i < j <= |s|
    ensures Number(s, i, j, base) == Digit(s[i]) * Power(base, j - i - 1) + Number(s, i + 1, j, base)
  {
    if i + 1 < j {
      FirstDigit(s, i, j - 1, base);
      Shifted(Digit(s[i]), Power(base, j - i - 2), Number(s, i + 1, j - 1, base), base);
    }
  }

  lemma Shifted(d: int, p: int, n: int, base: int)
    ensures (d * p + n) * base == d * (base * p) + n * base
  {
  }

  /** Reading digit by digit gives the positional value. */
  lemma {:induction false} NumberIsPositional(s: string, i: nat, j: nat, base: int)
    requires i <= j <= |s|
    ensures Number(s, i, j, base) == Positional(s, i, j, base)
    decreases j - i
  {
    if i < j {
      FirstDigit(s, i, j, base);
      NumberIsPositional(s, i + 1, j, base);
    }
  }

  /** Section 7.20.1.4 of C99: the 0 that tells base 8 is itself a digit, and 0x is a prefix only before a hexadecimal
      digit, in base 0 and in base 16. */
  function StandardBase(s: string, base: int): int {
    var j := SignEnd(s);
    if base != 0 then base
    else if At(s, j) != '0' then 10
    else if HexAhead(s, j) then 16
    else 8
  }

  predicate HexAhead(s: string, j: nat)
    requires j <= |s|
  {
    At(s, j) == '0' && IsX(At(s, j + 1)) && DigitIn(At(s, j + 2), 16)
  }

  function StandardStart(s: string, base: int): (r: nat)
    ensures r <= |s|
  {
    var j := SignEnd(s);
    if (base == 0 || base == 16) && HexAhead(s, j) then j + 2 else j
  }

  function Standard(s: string, base: int): Outcome {
    if ValidBase(StandardBase(s, base)) then Converted(s, StandardStart(s, base), StandardBase(s, base))
    else Outcome(0, 0, EINVAL)
  }

  /** Base 0 with no digit after the 0 or 0x, or base 16 with a 0x and a digit. */
  predicate Departs(s: string, base: int) {
    var j := SignEnd(s);
    || (base == 0 && At(s, j) == '0' && !DigitIn(At(s, DigitsStart(s, 0)), BaseOf(s, 0)))
    || (base == 16 && HexAhead(s, j))
  }

  lemma {:induction false} LeadingZero(s: string, i: nat, j: nat, base: int)
    requires i < j <= |s| && s[i] == '0'
    ensures Number(s, i, j, base) == Number(s, i + 1, j, base)
  {
    if i + 1 < j {
      LeadingZero(s, i, j - 1, base);
    }
  }

  /** The function follows the standard exactly when the input is not of those two kinds. */
  lemma FollowsStandard(s: string, base: int)
    ensures Meaning(s, base) == Standard(s, base) <==> !Departs(s, base)
  {
    var j := SignEnd(s);
    if base == 0 && At(s, j) == '0' && !HexAhead(s, j) {
      assert RunEnd(s, j, 8) == RunEnd(s, j + 1, 8);
      LeadingZero(s, j, RunEnd(s, j, 8), 8);
    } else if base == 16 && HexAhead(s, j) {
      assert RunEnd(s, j, 16) == j + 1;
    }
  }

  // ---------------------------------------------------------------- a number as it is written

  /** The digits are 0 to 9 and then the letters of either case. */
  lemma DigitMeaning(c: char)
    ensures var d, code := Digit(c), c as int;
            if 48 <= code < 58 then d == code - 48
            else if 65 <= code < 91 then d == code - 55
            else if 97 <= code < 123 then d == code - 87
            else d == -1
  {
  }

  predicate AllIn(s: string, base: int) {
    forall i :: 0 <= i < |s| ==> 0 <= Digit(s[i]) < base
  }

  /** In a base given, no prefix; in base 0 the prefix tells the base. */
  predicate Prefixed(base: int, prefix: string, b: int) {
    || (prefix == "" && b == base && 2 <= base <= 36)
    || (base == 0 && ((prefix == "" && b == 10) || (prefix == "0" && b == 8) || (prefix in {"0x", "0X"} && b == 16)))
  }

  /** The parts of the string are what they seem: what comes next continues none of them. */
  predicate WellSplit(spaces: string, sign: string, prefix: string, run: string, rest: string, base: int, b: int) {
    && (forall i :: 0 <= i < |spaces| ==> IsSpace(spaces[i]))
    && sign in {"", "-", "+"} && Prefixed(base, prefix, b)
    && AllIn(run, b) && (rest == "" || !(0 <= Digit(rest[0]) < b))
    && var text := prefix + run + rest;
       && (sign == "" && text != "" ==> !IsSpace(text[0]) && text[0] != '-' && text[0] != '+')
       && (base == 0 && prefix == "" && text != "" ==> text[0] != '0')
       && (base == 0 && prefix == "0" && |text| > 1 ==> text[1] != 'x' && text[1] != 'X')
  }

  lemma {:induction false} SpacesUpTo(s: string, i: nat, n: nat)
    requires i <= n <= |s| && !IsSpace(At(s, n)) && forall k :: i <= k < n ==> IsSpace(s[k])
    ensures SpacesEnd(s, i) == n
    decreases n - i
  {
    if i < n {
      SpacesUpTo(s, i + 1, n);
    }
  }

  lemma {:induction false} RunUpTo(s: string, i: nat, n: nat, base: int)
    requires i <= n <= |s| && !DigitIn(At(s, n), base) && forall k :: i <= k < n ==> DigitIn(s[k], base)
    ensures RunEnd(s, i, base) == n
    decreases n - i
  {
    if i < n {
      RunUpTo(s, i + 1, n, base);
    }
  }

  lemma {:induction false} NumberMoves(s: string, i: nat, run: string, n: nat, base: int)
    requires i + n <= |s| && n <= |run| && forall k :: 0 <= k < n ==> s[i + k] == run[k]
    ensures Number(s, i, i + n, base) == Number(run, 0, n, base)
  {
    if n > 0 {
      NumberMoves(s, i, run, n - 1, base);
    }
  }

  lemma CharsAfter(before: string, text: string, k: nat)
    requires k <= |text|
    ensures At(before + text, |before| + k) == At(text, k)
  {
  }

  /** The prefix tells the base. */
  lemma PrefixFound(s: string, j: nat, prefix: string, more: string, base: int, b: int)
    requires Prefixed(base, prefix, b) && SignEnd(s) == j && |s| == j + |prefix + more|
    requires At(s, j) == At(prefix + more, 0) && (prefix + more != "" ==> At(s, j + 1) == At(prefix + more, 1))
    requires base == 0 && prefix == "" ==> more == "" || more[0] != '0'
    requires base == 0 && prefix == "0" ==> more == "" || (more[0] != 'x' && more[0] != 'X')
    ensures BaseOf(s, base) == b && DigitsStart(s, base) == j + |prefix|
  {
    hide SignEnd;
  }

  lemma SignFound(spaces: string, sign: string, text: string)
    requires forall i :: 0 <= i < |spaces| ==> IsSpace(spaces[i])
    requires sign in {"", "-", "+"}
    requires sign == "" && text != "" ==> !IsSpace(text[0]) && text[0] != '-' && text[0] != '+'
    ensures var s := spaces + (sign + text); SignEnd(s) == |spaces| + |sign| && (Negative(s) <==> sign == "-")
  {
    hide IsSpace, SpacesEnd;
    var s := spaces + (sign + text);
    SignNoSpace();
    CharsAfter(spaces, sign + text, 0);
    assert sign == "" ==> sign + text == text;
    SpacesUpTo(s, 0, |spaces|);
  }

  lemma Regroup(spaces: string, sign: string, prefix: string, run: string, rest: string)
    ensures var text := prefix + (run + rest);
            && prefix + run + rest == text
            && spaces + sign + prefix + run + rest == spaces + (sign + text) == spaces + sign + text
  {
  }

  /** Where the parts are found. */
  lemma PartsFound(spaces: string, sign: string, prefix: string, run: string, rest: string, base: int, b: int)
    requires WellSplit(spaces, sign, prefix, run, rest, base, b)
    ensures var s := spaces + sign + prefix + run + rest;
            && SignEnd(s) == |spaces| + |sign| && (Negative(s) <==> sign == "-")
            && BaseOf(s, base) == b && DigitsStart(s, base) == |spaces| + |sign| + |prefix|
  {
    hide IsSpace, Digit, SpacesEnd, SignEnd, BaseOf, DigitsStart, At, AllIn;
    var text, before := prefix + (run + rest), spaces + sign;
    Regroup(spaces, sign, prefix, run, rest);
    SignFound(spaces, sign, text);
    CharsAfter(before, text, 0);
    if text != "" {
      CharsAfter(before, text, 1);
    }
    PrefixFound(before + text, |before|, prefix, run + rest, base, b);
  }

  lemma SignNoSpace()
    ensures !IsSpace('-') && !IsSpace('+') && !IsSpace(NUL)
  {
  }

  /** A written number: white space, a sign, the prefix of base 0, a run of digits, and something else. The value is the
      positional value of the run, negative for a minus sign, clamped to a long; the end is that of the run. Without
      digits nothing is converted. */
  lemma NumberRead(spaces: string, sign: string, prefix: string, run: string, rest: string, base: int, b: int)
    requires WellSplit(spaces, sign, prefix, run, rest, base, b)
    ensures var s := spaces + sign + prefix + run + rest;
            var n := Positional(run, 0, |run|, b);
            var value := if sign == "-" then -n else n;
            var end := |spaces| + |sign| + |prefix| + |run|;
            Meaning(s, base) ==
            if run == "" then Outcome(0, 0, Untouched)
            else if value > LONG_MAX then Outcome(LONG_MAX, end, ERANGE)
            else if value < LONG_MIN then Outcome(LONG_MIN, end, ERANGE)
            else Outcome(value, end, Untouched)
  {
    hide SpacesEnd, RunEnd, Number, Negative, BaseOf, DigitsStart, Positional, Digit, IsSpace;
    var s := spaces + sign + prefix + run + rest;
    var start := |spaces| + |sign| + |prefix|;
    PartsFound(spaces, sign, prefix, run, rest, base, b);
    assert At(s, start + |run|) == At(rest, 0);
    DigitMeaning(NUL);
    assert forall k :: 0 <= k < |run| ==> s[start + k] == run[k];
    RunUpTo(s, start, start + |run|, b);
    NumberMoves(s, start, run, |run|, b);
    NumberIsPositional(run, 0, |run|, b);
    NumberNatural(run, 0, |run|, b);
  }

  /** A base that is neither 0 nor from 2 to 36 is refused, and no other. */
  lemma BadBase(s: string, base: int)
    ensures Meaning(s, base).errno == EINVAL <==> base < 0 || base == 1 || base > 36
    ensures Meaning(s, base).errno == EINVAL ==> Meaning(s, base) == Outcome(0, 0, EINVAL)
  {
  }

  /** "0" in base 0: the zero is taken for a prefix, and no conversion is reported. */
  lemma LoneZero()
    ensures Meaning("0", 0) == Outcome(0, 0, Untouched)
    ensures Standard("0", 0) == Outcome(0, 1, Untouched)
  {
  }
}
