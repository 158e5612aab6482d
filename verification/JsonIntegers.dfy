/**
 A pair of number conversions that agrees with "%1.17g" and strtod on integers of at most 17 digits:
 on trees whose numbers are such integers the round trip of whole texts needs no assumption.
 */
module JsonIntegers {
  import opened Options
  import opened CString
  import opened Decimal
  import opened Strtoull
  import opened JsonTree
  import opened JsonParser
  import opened JsonSerializer
  import opened JsonRoundTrip

  function FormatInteger(n: int): string {
    if n < 0 then "-" + Numeral(-n) else Numeral(n)
  }

  /** The integer at the head of a text, and its length; 0 of length 0 when there is none. */
  function ScanInteger(t: string): Option<(real, nat)> {
    var negative := Head(t) == '-';
    var digits := DigitRun(if negative then t[1..] else t, 10);
    var magnitude: int := Positional(digits, 10);
    if digits == "" then Some((0.0, 0))
    else if negative then Some(((-magnitude) as real, |digits| + 1))
    else Some((magnitude as real, |digits|))
  }

  const INTEGERS := NumberIO((n: real) => FormatInteger(n.Floor), ScanInteger)

  lemma {:induction false} NumeralStarts(n: nat)
    ensures n > 0 ==> Numeral(n)[0] != '0'
    ensures AllDigits(Numeral(n), 10)
  {
    if n >= 10 {
      NumeralStarts(n / 10);
    }
  }

  lemma NumeralIsDecimal(n: nat)
    ensures IsDecimal(Numeral(n)) && (n > 0 ==> IsDecimal("-" + Numeral(n)))
    ensures '0' <= Numeral(n)[0] <= '9'
  {
    hide Numeral;
    NumeralStarts(n);
    var s := Numeral(n);
    assert forall k :: 0 <= k < |s| ==> IsDigit(s[k], 10);
    if n == 0 {
      assert s == "0" by {
        ZeroNumeral();
      }
    }
  }

  lemma ZeroNumeral()
    ensures Numeral(0) == "0"
  {
  }

  lemma ScansNumeral(n: nat, post: string)
    requires Delimited(post)
    ensures ScanInteger(Numeral(n) + post) == Some((n as real, |Numeral(n)|))
    ensures var m: int := n;
            ScanInteger("-" + Numeral(n) + post) == Some(((-m) as real, |Numeral(n)| + 1))
  {
    hide Numeral, DigitRun, Positional;
    NumeralDenotes(n);
    NumeralIsDecimal(n);
    DigitRunOf(Numeral(n), post, 10);
    assert ("-" + Numeral(n) + post)[1..] == Numeral(n) + post;
  }

  lemma IntegersExact(n: int)
    ensures Exact(INTEGERS, n as real)
  {
    hide Numeral, ScanInteger;
    var s := FormatInteger(n);
    assert (n as real).Floor == n;
    var m: nat := if n < 0 then -n else n;
    NumeralIsDecimal(m);
    forall post: string | Delimited(post)
      ensures ScanInteger(s + post) == Some((n as real, |s|))
    {
      ScansNumeral(m, post);
    }
  }

  /** "%1.17g" writes integers below this out in full. */
  const LIMIT: int := 100000000000000000

  ghost predicate IntegersOnly(v: Json) {
    match v
    case Number(n) => n == n.Floor as real && -LIMIT < n.Floor < LIMIT
    case Array(items) => forall i :: 0 <= i < |items| ==> IntegersOnly(items[i])
    case Object(ms) => forall i :: 0 <= i < |ms| ==> IntegersOnly(ms[i].value)
    case _ => true
  }

  lemma {:induction false} IntegersOnlyExact(v: Json)
    requires IntegersOnly(v)
    ensures NumbersExact(INTEGERS, v)
  {
    hide Exact;
    match v
    case Number(n) => IntegersExact(n.Floor);
    case Array(items) =>
      forall i | 0 <= i < |items|
        ensures NumbersExact(INTEGERS, items[i])
      {
        IntegersOnlyExact(items[i]);
      }
    case Object(ms) =>
      forall i | 0 <= i < |ms|
        ensures NumbersExact(INTEGERS, ms[i].value)
      {
        IntegersOnlyExact(ms[i].value);
      }
    case _ =>
  }

  /** The text of a tree whose numbers are integers of at most 17 digits is read back as that tree. */
  lemma IntegerTextReadBack(v: Json, pretty: bool)
    requires WellFormed(v) && IntegersOnly(v)
    ensures ParseText(INTEGERS, Text(INTEGERS, v, 0, pretty)) == if Within(v, MAX_NESTING) then Some(v) else None
  {
    hide *;
    IntegersOnlyExact(v);
    TextReadBack(INTEGERS, v, pretty);
  }
}
