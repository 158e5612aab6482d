/** strtoull_s of crt_abstractions.c against the strtoull of section 7.20.1.4 of ISO C99. */
module Strtoull {
  import opened Options
  import opened CString
  import opened Decimal

  // ----- digits and what they denote -----

  function DigitValue(c: char): (d: int)
    ensures -1 <= d < 36
  {
    if '0' <= c <= '9' then c as int - '0' as int
    else if 'a' <= c <= 'z' then c as int - 'a' as int + 10
    else if 'A' <= c <= 'Z' then c as int - 'A' as int + 10
    else -1
  }

  predicate IsDigit(c: char, radix: int) {
    0 <= DigitValue(c) < radix
  }

  predicate AllDigits(s: string, radix: int) {
    forall k :: 0 <= k < |s| ==> IsDigit(s[k], radix)
  }

  /** The longest run of digits at the front of a text. */
  function DigitRun(t: string, radix: int): (run: string)
    ensures run <= t && AllDigits(run, radix)
    ensures !IsDigit(At(t, |run|), radix)
  {
    if IsDigit(Head(t), radix) then [t[0]] + DigitRun(t[1..], radix) else ""
  }

  /** The integer a digit string denotes, however large. */
  function Positional(digits: string, radix: nat): nat
    requires AllDigits(digits, radix)
  {
    if digits == "" then 0
    else
      var last := |digits| - 1;
      Positional(digits[..last], radix) * radix + DigitValue(digits[last])
  }

  /** The same read from the front, as a continuation of what has been read already. */
  function Horner(acc: nat, digits: string, radix: nat): (v: nat)
    requires AllDigits(digits, radix)
    decreases |digits|
  {
    if digits == "" then acc else Horner(acc * radix + DigitValue(digits[0]), digits[1..], radix)
  }

  lemma {:induction false} HornerSnoc(acc: nat, digits: string, c: char, radix: nat)
    requires AllDigits(digits, radix) && IsDigit(c, radix)
    ensures AllDigits(digits + [c], radix)
    ensures Horner(acc, digits + [c], radix) == Horner(acc, digits, radix) * radix + DigitValue(c)
    decreases |digits|
  {
    hide DigitValue;
    if digits == "" {
      assert digits + [c] == [c];
      assert Horner(acc, [c], radix) == Horner(acc * radix + DigitValue(c), [], radix);
    } else {
      assert (digits + [c])[1..] == digits[1..] + [c];
      HornerSnoc(acc * radix + DigitValue(digits[0]), digits[1..], c, radix);
    }
  }

  lemma {:induction false} HornerIsPositional(digits: string, radix: nat)
    requires AllDigits(digits, radix)
    ensures Horner(0, digits, radix) == Positional(digits, radix)
  {
    if digits != "" {
      var last := |digits| - 1;
      HornerIsPositional(digits[..last], radix);
      HornerSnoc(0, digits[..last], digits[last], radix);
      assert digits == digits[..last] + [digits[last]];
    }
  }

  lemma {:induction false} HornerGrows(acc: nat, digits: string, radix: nat)
    requires radix >= 1 && AllDigits(digits, radix)
    ensures Horner(acc, digits, radix) >= acc
    decreases |digits|
  {
    if digits != "" {
      var next := acc * radix + DigitValue(digits[0]);
      assert acc * radix >= acc;
      HornerGrows(next, digits[1..], radix);
    }
  }

  // ----- the conversion -----

  /** What a call leaves in `errno`. */
  datatype Errno = Untouched | Zero | Range

  /** The value returned, where `endptr` points, and `errno`. */
  datatype Conversion = Conversion(value: nat, end: Option<string>, errno: Errno)

  /** The digit loop: a step that would pass the maximum stores the maximum instead. */
  function Accumulate(t: string, radix: int, result: nat, errno: Errno): (nat, string, Errno)
    requires 2 <= radix <= 36
    decreases |t|
  {
    var d := DigitValue(Head(t));
    if !IsDigit(Head(t), radix) then (result, t, errno)
    else if (ULLONG_MAX - d) / radix < result then Accumulate(t[1..], radix, ULLONG_MAX, Range)
    else Accumulate(t[1..], radix, result * radix + d, errno)
  }

  /** After white space and sign, the radix prefix: what is left and the radix in force. */
  function Prefix(t: string, base: int): (r: (string, int))
    requires base == 0 || 2 <= base <= 36
    ensures 2 <= r.1 <= 36 && |r.0| <= |t|
  {
    var zero := Head(t) == '0';
    var x := At(t, 1) == 'x' || At(t, 1) == 'X';
    if zero && x && (base == 0 || base == 16) then (t[2..], 16)
    else if zero && !x && (base == 0 || base == 8) then (t[1..], 8)
    else (t, if base == 0 then 10 else base)
  }

  predicate IsSign(c: char) {
    c == '+' || c == '-'
  }

  function SkipSign(t: string): (r: string)
    ensures |r| <= |t|
  {
    if IsSign(Head(t)) then t[1..] else t
  }

  function Negated(value: nat, negative: bool): nat {
    if negative then (ULLONG_MAX + 1 - value) % (ULLONG_MAX + 1) else value
  }

  predicate IsBase(base: int) {
    base == 0 || 2 <= base <= 36
  }

  function Convert(nptr: Option<string>, base: int): Conversion {
    if nptr.None? || !IsBase(base) then Conversion(0, nptr, Untouched)
    else
      var signed := SkipSpaces(nptr.value);
      var negative := Head(signed) == '-';
      var (digits, radix) := Prefix(SkipSign(signed), base);
      if IsDigit(Head(digits), radix) then
        var (value, rest, errno) := Accumulate(digits, radix, 0, Zero);
        Conversion(Negated(value, negative), Some(rest), errno)
      else Conversion(0, nptr, Untouched)
  }

  /** The C function: pointers advance, the result is accumulated. `ULLONG_MAX - x + 1` wraps. */
  method StrtoullS(nptr: Option<string>, base: int) returns (value: nat, endptr: Option<string>, errno: Errno)
    ensures Conversion(value, endptr, errno) == Convert(nptr, base)
  {
    hide SkipSpaces, SkipSign, Prefix, Accumulate, IsDigit, Head, At;
    value, endptr, errno := 0, nptr, Untouched;
    if nptr.None? || !IsBase(base) {
      return;
    }
    var runner := SkipWhitespaces(nptr.value);
    var negative := Head(runner) == '-';
    runner := SkipSign(runner);
    var radix;
    runner, radix := TakePrefix(runner, base);
    if IsDigit(Head(runner), radix) {
      value, runner, errno := DigitLoop(runner, radix);
      endptr := Some(runner);
      if negative {
        value := (ULLONG_MAX - value + 1) % (ULLONG_MAX + 1);
      }
    } else if negative {
      value := (ULLONG_MAX - 0 + 1) % (ULLONG_MAX + 1);
    }
  }

  method TakePrefix(start: string, base: int) returns (runner: string, radix: int)
    requires IsBase(base)
    ensures (runner, radix) == Prefix(start, base)
  {
    runner, radix := start, base;
    if Head(runner) == '0' {
      if At(runner, 1) == 'x' || At(runner, 1) == 'X' {
        if base == 0 || base == 16 {
          radix := 16;
          runner := runner[2..];
        }
      } else if base == 0 || base == 8 {
        radix := 8;
        runner := runner[1..];
      }
    }
    if radix == 0 {
      radix := 10;
    }
  }

  method DigitLoop(start: string, radix: int) returns (result: nat, runner: string, errno: Errno)
    requires 2 <= radix <= 36
    ensures (result, runner, errno) == Accumulate(start, radix, 0, Zero)
    ensures result <= ULLONG_MAX
  {
    hide Accumulate, IsDigit, DigitValue, Head;
    result, runner, errno := 0, start, Zero;
    var d := DigitValue(Head(runner));
    while IsDigit(Head(runner), radix)
      invariant d == DigitValue(Head(runner))
      invariant result <= ULLONG_MAX
      invariant Accumulate(runner, radix, result, errno) == Accumulate(start, radix, 0, Zero)
      decreases |runner|
    {
      AccumulateStep(runner, radix, result, errno);
      if (ULLONG_MAX - d) / radix < result {
        result, errno := ULLONG_MAX, Range;
      } else {
        result := result * radix + d;
      }
      runner := runner[1..];
      d := DigitValue(Head(runner));
    }
    AccumulateEnd(runner, radix, result, errno);
  }

  lemma AccumulateEnd(t: string, radix: int, result: nat, errno: Errno)
    requires 2 <= radix <= 36 && !IsDigit(Head(t), radix)
    ensures Accumulate(t, radix, result, errno) == (result, t, errno)
  {
  }

  lemma AccumulateStep(t: string, radix: int, result: nat, errno: Errno)
    requires 2 <= radix <= 36 && IsDigit(Head(t), radix)
    ensures t != ""
    ensures var d := DigitValue(Head(t));
            if (ULLONG_MAX - d) / radix < result
            then result * radix + d > ULLONG_MAX &&
                 Accumulate(t, radix, result, errno) == Accumulate(t[1..], radix, ULLONG_MAX, Range)
            else 0 <= result * radix + d <= ULLONG_MAX &&
                 Accumulate(t, radix, result, errno) == Accumulate(t[1..], radix, result * radix + d, errno)
  {
    GuardIsExact(result, DigitValue(Head(t)), radix);
  }

  // ----- the division guard and saturation -----

  lemma Times(a: nat, b: nat, radix: nat)
    requires a <= b
    ensures a * radix <= b * radix
  {
  }

  lemma QuotientBound(room: nat, radix: int, result: nat)
    requires radix >= 2
    ensures room / radix < result <==> result * radix > room
  {
    var q := room / radix;
    assert q * radix <= room < q * radix + radix;
    if q < result {
      Times(q + 1, result, radix);
    } else {
      Times(result, q, radix);
    }
  }

  /** The guard finds overflow exactly, without computing the product. */
  lemma GuardIsExact(result: nat, d: int, radix: int)
    requires radix >= 2 && 0 <= d <= ULLONG_MAX
    ensures (ULLONG_MAX - d) / radix < result <==> result * radix + d > ULLONG_MAX
  {
    QuotientBound(ULLONG_MAX - d, radix, result);
  }

  lemma HornerCons(acc: nat, c: char, digits: string, radix: nat)
    requires IsDigit(c, radix) && AllDigits(digits, radix)
    ensures AllDigits([c] + digits, radix) && acc * radix + DigitValue(c) >= 0
    ensures Horner(acc, [c] + digits, radix) == Horner(acc * radix + DigitValue(c), digits, radix)
  {
    hide DigitValue;
    assert ([c] + digits)[1..] == digits;
  }

  lemma DigitHead(t: string, radix: int)
    requires IsDigit(Head(t), radix)
    ensures t != "" && Head(t) == t[0]
  {
  }

  lemma RunStep(t: string, radix: int, result: nat)
    requires 2 <= radix <= 36 && IsDigit(Head(t), radix)
    ensures t != "" && DigitRun(t, radix) == [t[0]] + DigitRun(t[1..], radix)
    ensures var run, next := DigitRun(t[1..], radix), result * radix + DigitValue(Head(t));
            && next >= 0
            && Horner(result, DigitRun(t, radix), radix) == Horner(next, run, radix)
            && t[|DigitRun(t, radix)|..] == t[1..][|run|..]
  {
    DigitHead(t, radix);
    hide Horner, DigitValue, AllDigits;
    HornerCons(result, t[0], DigitRun(t[1..], radix), radix);
  }

  lemma RunEnd(t: string, radix: nat, result: nat)
    requires !IsDigit(Head(t), radix)
    ensures DigitRun(t, radix) == "" && Horner(result, "", radix) == result && t[0..] == t
  {
  }

  lemma SaturatedGrows(result: nat, radix: int, d: int)
    requires radix >= 2 && d >= -1
    ensures result == ULLONG_MAX ==> result * radix + d > ULLONG_MAX
  {
    Times(2, radix, result);
  }

  /**
   One overflow is never forgotten, because a saturated result fails the guard for every further
   digit; so the loop computes the value of the digits if it fits and the maximum otherwise.
   */
  lemma {:induction false} AccumulateSaturates(t: string, radix: int, result: nat, errno: Errno)
    requires 2 <= radix <= 36
    requires result <= ULLONG_MAX && (errno == Range ==> result == ULLONG_MAX)
    ensures var run := DigitRun(t, radix);
            var exact := Horner(result, run, radix);
            Accumulate(t, radix, result, errno) ==
            if exact <= ULLONG_MAX && (errno == Range ==> run == "") then (exact, t[|run|..], errno)
            else (ULLONG_MAX, t[|run|..], Range)
    decreases |t|
  {
    hide Accumulate, DigitRun, Horner, IsDigit, DigitValue, AllDigits, Head;
    if IsDigit(Head(t), radix) {
      AccumulateStep(t, radix, result, errno);
      RunStep(t, radix, result);
      var next := result * radix + DigitValue(Head(t));
      var run := DigitRun(t[1..], radix);
      SaturatedGrows(result, radix, DigitValue(Head(t)));
      if next > ULLONG_MAX {
        HornerGrows(next, run, radix);
        SaturatedStays(run, radix);
        AccumulateSaturates(t[1..], radix, ULLONG_MAX, Range);
      } else {
        AccumulateSaturates(t[1..], radix, next, errno);
      }
    } else {
      AccumulateEnd(t, radix, result, errno);
      RunEnd(t, radix, result);
    }
  }

  lemma SaturatedStays(run: string, radix: int)
    requires radix >= 2 && AllDigits(run, radix)
    ensures if run == "" then Horner(ULLONG_MAX, run, radix) == ULLONG_MAX
            else Horner(ULLONG_MAX, run, radix) > ULLONG_MAX
  {
    if run != "" {
      var next := ULLONG_MAX * radix + DigitValue(run[0]);
      assert next >= ULLONG_MAX * 2;
      HornerGrows(next, run[1..], radix);
    }
  }

  // ----- what strtoull is to compute -----

  /** The radix C99 prescribes and how many characters of prefix come before the digits. */
  function StandardPrefix(t: string, base: int): (string, int)
    requires IsBase(base)
  {
    var hex := Head(t) == '0' && (At(t, 1) == 'x' || At(t, 1) == 'X') && IsDigit(At(t, 2), 16);
    if hex && (base == 0 || base == 16) then (t[2..], 16)
    else if base == 0 then (t, if Head(t) == '0' then 8 else 10)
    else (t, base)
  }

  /**
   The conversion by the standard: all digits count, and the value is clamped before the sign. It
   stores ERANGE or leaves errno alone; no library function sets it to zero (C99, section 7.5).
   */
  function StandardConvert(nptr: Option<string>, base: int): Conversion {
    if nptr.None? || !IsBase(base) then Conversion(0, nptr, Untouched)
    else
      var signed := SkipSpaces(nptr.value);
      var (text, radix) := StandardPrefix(SkipSign(signed), base);
      var digits := DigitRun(text, radix);
      if digits == "" then Conversion(0, nptr, Untouched)
      else if Positional(digits, radix) > ULLONG_MAX then Conversion(ULLONG_MAX, Some(text[|digits|..]), Range)
      else Conversion(Negated(Positional(digits, radix), Head(signed) == '-'), Some(text[|digits|..]), Untouched)
  }

  /** A zero that the code takes for a radix prefix although no digit follows. */
  predicate BareZero(t: string, base: int) {
    && Head(t) == '0'
    && if At(t, 1) == 'x' || At(t, 1) == 'X' then (base == 0 || base == 16) && !IsDigit(At(t, 2), 16)
       else (base == 0 || base == 8) && !IsDigit(At(t, 1), 8)
  }

  /** The code's octal prefix drops a leading zero, which changes no value. */
  lemma LeadingZero(t: string, radix: int)
    requires radix >= 2 && Head(t) == '0'
    ensures DigitRun(t, radix) == ['0'] + DigitRun(t[1..], radix)
    ensures Positional(DigitRun(t, radix), radix) == Positional(DigitRun(t[1..], radix), radix)
  {
    HornerIsPositional(DigitRun(t, radix), radix);
    HornerIsPositional(DigitRun(t[1..], radix), radix);
    assert DigitRun(t, radix)[1..] == DigitRun(t[1..], radix);
    assert Horner(0, DigitRun(t, radix), radix) == Horner(0 * radix + 0, DigitRun(t[1..], radix), radix);
  }

  lemma PrefixAgrees(t: string, base: int)
    requires IsBase(base) && !BareZero(t, base)
    ensures var (text, radix) := Prefix(t, base);
            var (sText, sRadix) := StandardPrefix(t, base);
            && radix == sRadix
            && (DigitRun(text, radix) == "" <==> DigitRun(sText, radix) == "")
            && Positional(DigitRun(text, radix), radix) == Positional(DigitRun(sText, radix), radix)
            && text[|DigitRun(text, radix)|..] == sText[|DigitRun(sText, radix)|..]
  {
    var x := At(t, 1) == 'x' || At(t, 1) == 'X';
    if Head(t) == '0' && !x && (base == 0 || base == 8) {
      LeadingZero(t, 8);
    }
  }

  /** The text from the first digit on and the radix, as the code finds them. */
  function Subject(nptr: string, base: int): (r: (string, int))
    requires IsBase(base)
    ensures 2 <= r.1 <= 36
  {
    Prefix(SkipSign(SkipSpaces(nptr)), base)
  }

  predicate Negative(nptr: string) {
    Head(SkipSpaces(nptr)) == '-'
  }

  lemma ConvertUnfolded(nptr: string, base: int)
    requires IsBase(base)
    ensures var (text, radix) := Subject(nptr, base);
            var digits := DigitRun(text, radix);
            Convert(Some(nptr), base) ==
            if digits == "" then Conversion(0, Some(nptr), Untouched)
            else if Positional(digits, radix) > ULLONG_MAX
            then Conversion(Negated(ULLONG_MAX, Negative(nptr)), Some(text[|digits|..]), Range)
            else Conversion(Negated(Positional(digits, radix), Negative(nptr)), Some(text[|digits|..]), Zero)
  {
    hide SkipSpaces, SkipSign, Prefix, Accumulate, Horner, Positional, Negated;
    var (text, radix) := Subject(nptr, base);
    AccumulateSaturates(text, radix, 0, Zero);
    HornerIsPositional(DigitRun(text, radix), radix);
    assert Horner(0, "", radix) == 0 by {
      HornerOfNothing(radix);
    }
  }

  lemma HornerOfNothing(radix: nat)
    ensures Horner(0, "", radix) == 0
  {
  }

  /** What a caller sees that clears errno before the call: the value, the end and whether it overflowed. */
  function Result(c: Conversion): (int, Option<string>, bool) {
    (c.value, c.end, c.errno == Range)
  }

  /** The two families in which the result is not that of the standard. */
  predicate Departs(nptr: string, base: int) {
    || BareZero(SkipSign(SkipSpaces(nptr)), base)
    || (Negative(nptr) && StandardConvert(Some(nptr), base).errno == Range)
  }

  /** There are digits and they denote a number in range. */
  predicate InRange(nptr: string, base: int)
    requires IsBase(base)
  {
    var (text, radix) := StandardPrefix(SkipSign(SkipSpaces(nptr)), base);
    var digits := DigitRun(text, radix);
    digits != "" && Positional(digits, radix) <= ULLONG_MAX
  }

  /** Outside the two families the code does what the standard prescribes, and clears errno besides. */
  lemma ConvertedByStandard(nptr: string, base: int)
    requires IsBase(base) && !BareZero(SkipSign(SkipSpaces(nptr)), base)
    ensures var (c, std) := (Convert(Some(nptr), base), StandardConvert(Some(nptr), base));
            && c.end == std.end
            && (c.value == std.value <==> !(Negative(nptr) && std.errno == Range))
            && (InRange(nptr, base) ==> std.errno == Untouched) && std.errno != Zero
            && c.errno == if InRange(nptr, base) then Zero else std.errno
  {
    hide SkipSpaces, SkipSign, Prefix, Accumulate, DigitRun, Positional, StandardPrefix, BareZero, At, Head, Convert;
    ConvertUnfolded(nptr, base);
    PrefixAgrees(SkipSign(SkipSpaces(nptr)), base);
  }

  /**
   For every text and every base, the value, the end and the report of an overflow are those the
   standard prescribes except in two families: a zero taken for a prefix with no digit after it,
   which the code does not convert at all, and a negative number too large to represent, for which
   it returns 1.
   */
  lemma ResultConformsExactlyWhen(nptr: string, base: int)
    ensures Result(Convert(Some(nptr), base)) == Result(StandardConvert(Some(nptr), base)) <==>
            (IsBase(base) ==> !Departs(nptr, base))
  {
    hide SkipSpaces, SkipSign, BareZero, Negative, InRange;
    if IsBase(base) {
      hide Convert, StandardConvert;
      if BareZero(SkipSign(SkipSpaces(nptr)), base) {
        BareZeroNotConverted(nptr, base);
      } else {
        ConvertedByStandard(nptr, base);
      }
    }
  }

  /** With errno as the call leaves it, any number in range departs as well: the code sets errno to zero. */
  lemma ConformsExactlyWhen(nptr: string, base: int)
    ensures Convert(Some(nptr), base) == StandardConvert(Some(nptr), base) <==>
            (IsBase(base) ==> !Departs(nptr, base) && !InRange(nptr, base))
  {
    hide SkipSpaces, SkipSign, BareZero, Negative, InRange;
    if IsBase(base) {
      hide Convert, StandardConvert;
      if BareZero(SkipSign(SkipSpaces(nptr)), base) {
        BareZeroNotConverted(nptr, base);
      } else {
        ConvertedByStandard(nptr, base);
      }
    }
  }

  /** The code stops before the zero, the standard behind it. */
  lemma BareZeroNotConverted(nptr: string, base: int)
    requires IsBase(base) && BareZero(SkipSign(SkipSpaces(nptr)), base)
    ensures Convert(Some(nptr), base) == Conversion(0, Some(nptr), Untouched)
    ensures StandardConvert(Some(nptr), base).end != Some(nptr)
  {
    hide SkipSpaces, SkipSign, Accumulate, Positional;
    hide DigitRun;
    var signed := SkipSpaces(nptr);
    var t := SkipSign(signed);
    BareZeroSubject(t, base);
    assert |t| <= |nptr| by {
      SkipsShorten(nptr);
    }
  }

  lemma SkipsShorten(nptr: string)
    ensures |SkipSign(SkipSpaces(nptr))| <= |SkipSpaces(nptr)| <= |nptr|
  {
  }

  lemma BareZeroSubject(t: string, base: int)
    requires IsBase(base) && BareZero(t, base)
    ensures !IsDigit(Head(Prefix(t, base).0), Prefix(t, base).1)
    ensures DigitRun(StandardPrefix(t, base).0, StandardPrefix(t, base).1) != ""
  {
    var (text, radix) := StandardPrefix(t, base);
    assert IsDigit(Head(text), radix);
  }

  // ----- reading a numeral back -----

  lemma {:induction false} NumeralDenotes(n: nat)
    ensures AllDigits(Numeral(n), 10) && Positional(Numeral(n), 10) == n
  {
    if n >= 10 {
      NumeralDenotes(n / 10);
      assert Numeral(n)[..|Numeral(n)| - 1] == Numeral(n / 10);
    } else {
      assert Positional([Digit(n)], 10) == Positional([Digit(n)][..0], 10) * 10 + n;
    }
  }

  /** A digit string without superfluous zeros is the numeral of what it denotes. */
  lemma {:induction false} NumeralIsCanonical(digits: string)
    requires digits != "" && AllDigits(digits, 10)
    requires digits[0] == '0' ==> |digits| == 1
    ensures digits == Numeral(Positional(digits, 10))
  {
    var last := |digits| - 1;
    var rest, d := digits[..last], DigitValue(digits[last]);
    assert digits == rest + [Digit(d)];
    if last == 0 {
      assert Positional(digits, 10) == Positional("", 10) * 10 + d;
    } else {
      NumeralIsCanonical(rest);
      assert Positional(rest, 10) > 0 by {
        assert Numeral(0) == "0";
      }
    }
  }

  lemma {:induction false} DigitRunOf(digits: string, rest: string, radix: int)
    requires AllDigits(digits, radix) && !IsDigit(Head(rest), radix)
    ensures DigitRun(digits + rest, radix) == digits
  {
    if digits == "" {
      assert digits + rest == rest;
    } else {
      assert (digits + rest)[1..] == digits[1..] + rest;
      DigitRunOf(digits[1..], rest, radix);
    }
  }

  lemma NoSpaceNoSign(text: string)
    requires IsDigit(Head(text), 10)
    ensures SkipSpaces(text) == text && SkipSign(text) == text && Prefix(text, 10) == (text, 10)
    ensures !Negative(text)
  {
  }

  /** A plain decimal digit string is converted to its value, or to the maximum with ERANGE. */
  lemma ConvertsDecimal(digits: string, rest: string)
    requires digits != "" && AllDigits(digits, 10) && !IsDigit(Head(rest), 10)
    ensures Convert(Some(digits + rest), 10) ==
            if Positional(digits, 10) <= ULLONG_MAX then Conversion(Positional(digits, 10), Some(rest), Zero)
            else Conversion(ULLONG_MAX, Some(rest), Range)
  {
    hide Convert, Positional, DigitRun;
    var text := digits + rest;
    assert IsDigit(Head(text), 10);
    NoSpaceNoSign(text);
    ConvertUnfolded(text, 10);
    DigitRunOf(digits, rest, 10);
    assert text[|digits|..] == rest;
  }

  /** What `size_tToString` writes, `strtoull_s` reads back, stopping at the terminator. */
  lemma NumeralReadBack(n: nat)
    requires n <= ULLONG_MAX
    ensures Convert(Some(Numeral(n)), 10) == Conversion(n, Some(""), Zero)
  {
    NumeralDenotes(n);
    ConvertsDecimal(Numeral(n), "");
    assert Numeral(n) + "" == Numeral(n);
  }

  /** A text on which the result departs from the standard: "0" in base 8. */
  lemma DepartsOnBareZero()
    ensures Result(Convert(Some("0"), 8)) != Result(StandardConvert(Some("0"), 8))
  {
    hide *;
    SingleZero();
    ResultConformsExactlyWhen("0", 8);
  }

  /** Another: minus 2^64. */
  lemma DepartsOnLargeNegative()
    ensures var text := "-" + Numeral(ULLONG_MAX + 1);
            Result(Convert(Some(text), 10)) != Result(StandardConvert(Some(text), 10))
  {
    hide *;
    hide Numeral;
    LargeNegative();
    ResultConformsExactlyWhen("-" + Numeral(ULLONG_MAX + 1), 10);
  }

  /** On every numeral that fits, errno alone departs. */
  lemma ClearsErrno(n: nat)
    requires n <= ULLONG_MAX
    ensures var (c, std) := (Convert(Some(Numeral(n)), 10), StandardConvert(Some(Numeral(n)), 10));
            Result(c) == Result(std) && c.errno == Zero && std.errno == Untouched
  {
    hide Convert, Numeral, Positional, DigitRun;
    NumeralReadBack(n);
    NumeralDenotes(n);
    DigitRunOf(Numeral(n), "", 10);
    assert Numeral(n) + "" == Numeral(n) && IsDigit(Numeral(n)[0], 10);
    NoSpaceNoSign(Numeral(n));
  }

  lemma SingleZero()
    ensures IsBase(8) && Departs("0", 8)
  {
    hide StandardConvert;
    assert SkipSpaces("0") == "0" by {
      hide BareZero, SkipSign;
    }
    hide SkipSpaces;
    assert SkipSign("0") == "0" by {
      hide BareZero;
    }
    hide SkipSign;
  }

  lemma LargeNegative()
    ensures IsBase(10) && Departs("-" + Numeral(ULLONG_MAX + 1), 10)
  {
    hide Positional, DigitRun, Numeral;
    var digits := Numeral(ULLONG_MAX + 1);
    var text := "-" + digits;
    assert SkipSpaces(text) == text && SkipSign(text) == digits;
    NumeralDenotes(ULLONG_MAX + 1);
    DigitRunOf(digits, "", 10);
    assert digits + "" == digits;
  }
}
