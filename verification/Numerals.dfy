/**
 What strtoull_s makes of a numeral, the digits taken from the two alphabets: the part of section
 7.20.1.4 of ISO C99 that says which texts denote which numbers.
 */
module Numerals {
  import opened Options
  import opened CString
  import opened Alphabets
  import opened Strtoull
  import opened HttpChunked

  // ----- digits -----

  /** A text that writes down the digits, each in either case. */
  ghost predicate WritesAll(s: string, ds: seq<nat>, radix: nat) {
    && |s| == |ds| && radix <= 36
    && forall k :: 0 <= k < |s| ==> ds[k] < radix && Writes(s[k], ds[k])
  }

  /** The number the digits denote. */
  function ValueOf(ds: seq<nat>, radix: nat): nat {
    if ds == [] then 0 else ValueOf(ds[..|ds| - 1], radix) * radix + ds[|ds| - 1]
  }

  /** Where a run of digits ends. */
  ghost predicate NoDigitFirst(rest: string, radix: nat) {
    rest == "" || forall d: nat :: d < radix ==> !Writes(rest[0], d)
  }

  lemma DigitIs(c: char, d: nat)
    requires d < 36
    ensures Writes(c, d) <==> DigitValue(c) == d
  {
    hide Writes;
    WritesIs(c, d);
  }

  lemma NoDigitIs(rest: string, radix: nat)
    requires radix <= 36
    ensures NoDigitFirst(rest, radix) <==> !IsDigit(Head(rest), radix)
  {
    hide Writes, DigitValue;
    NulIsNoDigit();
    if rest != "" {
      if NoDigitFirst(rest, radix) && IsDigit(rest[0], radix) {
        DigitIs(rest[0], DigitValue(rest[0]));
      }
      if !NoDigitFirst(rest, radix) {
        var d: nat :| d < radix && Writes(rest[0], d);
        DigitIs(rest[0], d);
      }
    }
  }

  lemma NulIsNoDigit()
    ensures DigitValue(NUL) == -1
  {
  }

  lemma {:induction false} DigitsDenote(s: string, ds: seq<nat>, radix: nat)
    requires WritesAll(s, ds, radix)
    ensures AllDigits(s, radix) && Positional(s, radix) == ValueOf(ds, radix)
  {
    hide Writes, DigitValue;
    forall k | 0 <= k < |s|
      ensures DigitValue(s[k]) == ds[k]
    {
      DigitIs(s[k], ds[k]);
    }
    if s != "" {
      var last := |s| - 1;
      DigitsDenote(s[..last], ds[..last], radix);
    }
  }

  lemma DigitsRun(s: string, ds: seq<nat>, rest: string, radix: nat)
    requires WritesAll(s, ds, radix) && NoDigitFirst(rest, radix)
    ensures DigitRun(s + rest, radix) == s && AllDigits(s, radix) && Positional(s, radix) == ValueOf(ds, radix)
  {
    hide DigitRun, Positional, AllDigits, NoDigitFirst, Writes, ValueOf, IsDigit;
    DigitsDenote(s, ds, radix);
    NoDigitIs(rest, radix);
    DigitRunOf(s, rest, radix);
  }

  // ----- a whole text -----

  const MODULUS: nat := 0x1_0000_0000_0000_0000

  /** White space, a sign or none, a prefix or none, digits, and what follows. */
  datatype Text = Text(spaces: string, sign: string, prefix: string, digits: string, rest: string)

  function Whole(t: Text): string {
    t.spaces + (t.sign + (t.prefix + (t.digits + t.rest)))
  }

  /** The radix of the digits: hexadecimal after a prefix, and in base 0 octal after a zero. */
  function RadixOf(t: Text, base: nat): nat {
    if t.prefix != "" then 16
    else if base == 0 then (if t.digits != "" && t.digits[0] == '0' then 8 else 10)
    else base
  }

  /** The rest starts like what would make the digit before it the start of a hexadecimal prefix. */
  predicate LetterX(rest: string) {
    rest != "" && (rest[0] == 'x' || rest[0] == 'X')
  }

  ghost predicate IsNumeral(t: Text, ds: seq<nat>, base: nat) {
    && (base == 0 || 2 <= base <= 36)
    && Blank(t.spaces) && t.sign in ["", "+", "-"]
    && (t.prefix == "" || (t.prefix in ["0x", "0X"] && (base == 0 || base == 16)))
    && ds != [] && WritesAll(t.digits, ds, RadixOf(t, base))
    && NoDigitFirst(t.rest, RadixOf(t, base))
    // "0x" and a digit is a prefix, not a zero
    && (t.prefix == "" && t.digits == "0" && (base == 0 || base == 16) && LetterX(t.rest) ==>
          NoDigitFirst(t.rest[1..], 16))
  }

  /** The texts with a zero that the code takes for a prefix. */
  predicate LoneZero(t: Text, base: nat) {
    && t.prefix == "" && t.digits == "0"
    && (base == 0 || (base == 8 && !LetterX(t.rest)) || (base == 16 && LetterX(t.rest)))
  }

  lemma DigitCharacter(c: char, d: nat)
    requires Writes(c, d)
    ensures c != NUL && c != '+' && c != '-' && !IsSpace(c)
    ensures c == '0' <==> d == 0
    ensures (c == 'x' || c == 'X') <==> d == 33
  {
    WritesIs(c, d);
  }

  /** Up to the digits, or the prefix. */
  lemma SignReached(t: Text, ds: seq<nat>, base: nat)
    requires IsNumeral(t, ds, base)
    ensures SkipSpaces(Whole(t)) == t.sign + (t.prefix + (t.digits + t.rest))
    ensures SkipSign(SkipSpaces(Whole(t))) == t.prefix + (t.digits + t.rest)
    ensures Negative(Whole(t)) <==> t.sign == "-"
  {
    hide Blank, SkipSpaces;
    hide NoDigitFirst, LetterX;
    BodyStarts(t, ds, base);
    var body := t.prefix + (t.digits + t.rest);
    var u := t.sign + body;
    BlankSkipped(t.spaces, u);
    SignText(t.sign, body);
    NotSpace(u);
  }

  lemma SignText(sign: string, body: string)
    requires sign in ["", "+", "-"] && body != "" && !IsSign(body[0]) && !IsSpace(body[0])
    ensures var u := sign + body;
            u != "" && !IsSpace(u[0]) && SkipSign(u) == body && (u[0] == '-' <==> sign == "-")
  {
    var u := sign + body;
    assert sign == "" ==> u == body;
    assert sign != "" ==> u[0] == sign[0] && u[1..] == body;
  }

  lemma BodyStarts(t: Text, ds: seq<nat>, base: nat)
    requires IsNumeral(t, ds, base)
    ensures var body := t.prefix + (t.digits + t.rest);
            body != "" && !IsSign(body[0]) && !IsSpace(body[0])
  {
    hide Blank, Writes, NoDigitFirst, RadixOf, LetterX;
    assert Writes(t.digits[0], ds[0]);
    DigitCharacter(t.digits[0], ds[0]);
    var body := t.prefix + (t.digits + t.rest);
    assert body[0] == '0' || body[0] == t.digits[0];
  }

  lemma NotSpace(t: string)
    requires t != "" && !IsSpace(t[0])
    ensures SkipSpaces(t) == t && Head(t) == t[0]
  {
  }

  lemma PrefixReached(t: Text, ds: seq<nat>, base: nat)
    requires IsNumeral(t, ds, base)
    ensures StandardPrefix(t.prefix + (t.digits + t.rest), base) == (t.digits + t.rest, RadixOf(t, base))
    ensures BareZero(t.prefix + (t.digits + t.rest), base) <==> LoneZero(t, base)
  {
    hide Blank, Writes, NoDigitFirst, DigitValue;
    assert Writes(t.digits[0], ds[0]);
    DigitCharacter(t.digits[0], ds[0]);
    DigitIs(t.digits[0], ds[0]);
    var u := t.digits + t.rest;
    if t.prefix != "" {
      PrefixText(t.prefix, u);
    } else {
      assert t.prefix + u == u;
      if t.digits[0] == '0' {
        SecondCharacter(t, ds, base);
      }
    }
  }

  lemma PrefixText(prefix: string, u: string)
    requires prefix in ["0x", "0X"] && u != ""
    ensures var t := prefix + u;
            Head(t) == '0' && (At(t, 1) == 'x' || At(t, 1) == 'X') && At(t, 2) == u[0] && t[2..] == u
  {
  }

  /** What comes after a leading zero. */
  lemma SecondCharacter(t: Text, ds: seq<nat>, base: nat)
    requires IsNumeral(t, ds, base) && t.prefix == "" && t.digits[0] == '0'
    ensures var u := t.digits + t.rest;
            var x := At(u, 1) == 'x' || At(u, 1) == 'X';
            && (x && (base == 0 || base == 16) ==> !IsDigit(At(u, 2), 16))
            && (t.digits == "0" ==> x == LetterX(t.rest) && (base == 0 || base == 8 ==> !IsDigit(At(u, 1), 8)))
            && (t.digits != "0" ==>
                  && (base == 0 || base == 8 ==> IsDigit(At(u, 1), 8))
                  && (base == 0 || base == 8 || base == 16 ==> !x))
  {
    hide Blank, Writes, NoDigitFirst, DigitValue;
    var u := t.digits + t.rest;
    if |t.digits| == 1 {
      assert t.digits == "0" && At(u, 1) == Head(t.rest) && At(u, 2) == At(t.rest, 1);
      NoDigitIs(t.rest, RadixOf(t, base));
      if LetterX(t.rest) && (base == 0 || base == 16) {
        NoDigitIs(t.rest[1..], 16);
      }
    } else {
      assert At(u, 1) == t.digits[1];
      assert Writes(t.digits[1], ds[1]);
      DigitCharacter(t.digits[1], ds[1]);
      DigitIs(t.digits[1], ds[1]);
    }
  }

  /** The standard's conversion of every numeral, in literal terms. */
  lemma StandardReads(t: Text, ds: seq<nat>, base: nat)
    requires IsNumeral(t, ds, base)
    ensures var value := ValueOf(ds, RadixOf(t, base));
            StandardConvert(Some(Whole(t)), base) ==
            if value >= MODULUS then Conversion(MODULUS - 1, Some(t.rest), Range)
            else Conversion(if t.sign == "-" then (MODULUS - value) % MODULUS else value, Some(t.rest), Untouched)
  {
    hide SkipSpaces, SkipSign, StandardPrefix, DigitRun, Positional, ValueOf, RadixOf, WritesAll, Writes, NoDigitFirst;
    hide Whole, Blank;
    SignReached(t, ds, base);
    PrefixReached(t, ds, base);
    DigitsRun(t.digits, ds, t.rest, RadixOf(t, base));
    assert |t.digits| == |ds| by {
      SameLength(t.digits, ds, RadixOf(t, base));
    }
    assert (t.digits + t.rest)[|t.digits|..] == t.rest;
  }

  lemma SameLength(s: string, ds: seq<nat>, radix: nat)
    requires WritesAll(s, ds, radix)
    ensures |s| == |ds|
  {
  }

  /**
   strtoull_s on every numeral, in literal terms: a lone zero taken for a prefix is not converted, and
   every other numeral is converted to its number, negated modulo 2^64 after a minus; out of range the
   maximum is, even after a minus, and ERANGE reported.
   */
  lemma NumeralRead(t: Text, ds: seq<nat>, base: nat)
    requires IsNumeral(t, ds, base)
    ensures var value := ValueOf(ds, RadixOf(t, base));
            Convert(Some(Whole(t)), base) ==
            if LoneZero(t, base) then Conversion(0, Some(Whole(t)), Untouched)
            else if value >= MODULUS then Conversion(if t.sign == "-" then 1 else MODULUS - 1, Some(t.rest), Range)
            else Conversion(if t.sign == "-" then (MODULUS - value) % MODULUS else value, Some(t.rest), Zero)
  {
    hide Convert, SkipSpaces, SkipSign, StandardPrefix, DigitRun, Positional, ValueOf, RadixOf, WritesAll, Writes;
    hide Whole, Blank, NoDigitFirst, BareZero, Prefix, LoneZero;
    SignReached(t, ds, base);
    PrefixReached(t, ds, base);
    if LoneZero(t, base) {
      BareZeroNotConverted(Whole(t), base);
    } else {
      DigitsRun(t.digits, ds, t.rest, RadixOf(t, base));
      ConvertUnfolded(Whole(t), base);
      PrefixAgrees(t.prefix + (t.digits + t.rest), base);
      SameLength(t.digits, ds, RadixOf(t, base));
      assert (t.digits + t.rest)[|t.digits|..] == t.rest;
    }
  }

  /** Without a digit after white space and sign nothing is converted. */
  lemma NothingRead(spaces: string, sign: string, rest: string, base: nat)
    requires (base == 0 || 2 <= base <= 36) && Blank(spaces) && sign in ["", "+", "-"]
    requires NoDigitFirst(rest, if base == 0 then 10 else base)
    requires sign == "" && rest != "" ==> rest[0] != '+' && rest[0] != '-' && !Blank(rest[..1])
    ensures Convert(Some(spaces + (sign + rest)), base) == Conversion(0, Some(spaces + (sign + rest)), Untouched)
  {
    hide Blank, SkipSpaces, SkipSign, Accumulate, NoDigitFirst, DigitValue;
    NoDigitIs(rest, if base == 0 then 10 else base);
    SignSkipped(spaces, sign, rest);
    hide IsDigit;
    assert IsDigit('0', if base == 0 then 10 else base) by {
      ZeroInEveryRadix(if base == 0 then 10 else base);
    }
  }

  lemma ZeroInEveryRadix(radix: nat)
    requires radix >= 2
    ensures IsDigit('0', radix)
  {
  }

  lemma SignSkipped(spaces: string, sign: string, rest: string)
    requires Blank(spaces) && sign in ["", "+", "-"]
    requires sign == "" && rest != "" ==> rest[0] != '+' && rest[0] != '-' && !Blank(rest[..1])
    ensures SkipSign(SkipSpaces(spaces + (sign + rest))) == rest
  {
    hide Blank, SkipSpaces, SkipSign;
    var u := sign + rest;
    BlankSkipped(spaces, u);
    if u != "" {
      SignOrOther(sign, rest);
      NotSpace(u);
    } else {
      NothingToSkip();
    }
  }

  lemma NothingToSkip()
    ensures SkipSpaces("") == "" && SkipSign("") == ""
  {
  }

  lemma SignOrOther(sign: string, rest: string)
    requires sign in ["", "+", "-"] && sign + rest != ""
    requires sign == "" && rest != "" ==> rest[0] != '+' && rest[0] != '-' && !Blank(rest[..1])
    ensures !IsSpace((sign + rest)[0])
    ensures SkipSign(sign + rest) == rest
  {
    hide IsSpace;
    var u := sign + rest;
    BlankIsSpace(u[0]);
    if sign == "" {
      assert u == rest;
    } else {
      assert u[0] == sign[0] && u[1..] == rest;
    }
  }

  // ----- sizes of chunks -----

  /** A size in hexadecimal, in either case, is read as the number it denotes, whatever follows it. */
  lemma SizeRead(s: string, ds: seq<nat>, extension: string)
    requires ds != [] && WritesAll(s, ds, 16) && NoDigitFirst(extension, 16)
    ensures HexOf(s + extension) == Some(ValueOf(ds, 16) % MODULUS)
  {
    hide DigitRun, Positional, ValueOf, NoDigitFirst, Writes;
    DigitsRun(s, ds, extension, 16);
  }
}
