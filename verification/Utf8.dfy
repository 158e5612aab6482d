/**
 UTF-8 in parson.c: the validity test on strings, and what process_string makes of valid text.
 The meaning is given by section 3 of RFC 3629: the bytes of each code point.
 */
module Utf8 {
  import opened Options
  import opened CString
  import opened JsonStrings

  // ----- the encoding -----

  ghost predicate IsScalar(cp: nat) {
    cp < 0xD800 || 0xDFFF < cp <= 0x10FFFF
  }

  /** The bits of a code point from position log2(shift) on. */
  function High(cp: nat, shift: nat): nat
    requires shift > 0
  {
    cp / shift
  }

  function Encode(cp: nat): (s: string)
    requires cp <= 0x10FFFF
    ensures |s| == if cp < 0x80 then 1 else if cp < 0x800 then 2 else if cp < 0x1_0000 then 3 else 4
  {
    if cp < 0x80 then [cp as char]
    else if cp < 0x800 then [(0xC0 + High(cp, 0x40)) as char, Cont(Six(cp, 1))]
    else if cp < 0x1_0000 then
      [(0xE0 + High(cp, 0x1000)) as char, Cont(Six(cp, 0x40)), Cont(Six(cp, 1))]
    else
      [(0xF0 + High(cp, 0x4_0000)) as char, Cont(Six(cp, 0x1000)), Cont(Six(cp, 0x40)), Cont(Six(cp, 1))]
  }

  ghost predicate AllScalars(cps: seq<nat>) {
    forall k :: 0 <= k < |cps| ==> IsScalar(cps[k])
  }

  ghost function EncodeAll(cps: seq<nat>): string
    requires AllScalars(cps)
  {
    if cps == [] then "" else Encode(cps[0]) + EncodeAll(cps[1..])
  }

  /** A concatenation of well-formed sequences. */
  ghost predicate WellFormed(s: string) {
    exists cps: seq<nat> :: AllScalars(cps) && s == EncodeAll(cps)
  }

  // ----- the test -----

  predicate IsCont(c: char) {
    0x80 <= c as int < 0xC0
  }

  function NumBytesInSequence(c: char): nat {
    var b := c as int;
    if b == 0xC0 || b == 0xC1 || b > 0xF4 || IsCont(c) then 0
    else if b < 0x80 then 1
    else if b < 0xE0 then 2
    else if b < 0xF0 then 3
    else 4
  }

  /** The bits of a byte under a mask m - 1. */
  function Bits(c: char, m: nat): nat
    requires m > 0
  {
    c as int % m
  }

  /** The code point that the bytes at the head spell, before any range check. */
  function SpelledCodePoint(t: string, len: nat): Option<nat> {
    if len == 1 then Some(At(t, 0) as int)
    else if len == 2 && IsCont(At(t, 1)) then
      Some(Bits(At(t, 0), 0x20) * 0x40 + Bits(At(t, 1), 0x40))
    else if len == 3 && IsCont(At(t, 1)) && IsCont(At(t, 2)) then
      Some((Bits(At(t, 0), 0x10) * 0x40 + Bits(At(t, 1), 0x40)) * 0x40 + Bits(At(t, 2), 0x40))
    else if len == 4 && IsCont(At(t, 1)) && IsCont(At(t, 2)) && IsCont(At(t, 3)) then
      Some(((Bits(At(t, 0), 0x08) * 0x40 + Bits(At(t, 1), 0x40)) * 0x40 + Bits(At(t, 2), 0x40)) * 0x40
           + Bits(At(t, 3), 0x40))
    else None
  }

  /** verify_utf8_sequence: the length of the sequence at the head, or 0 where it returns 0. */
  function VerifySequence(t: string): (len: nat)
    requires t != ""
    ensures len <= |t|
  {
    var len := NumBytesInSequence(t[0]);
    match SpelledCodePoint(t, len)
    case None => 0
    case Some(cp) =>
      if (cp < 0x80 && len > 1) || (cp < 0x800 && len > 2) || (cp < 0x1_0000 && len > 3) then 0
      else if cp > 0x10FFFF then 0
      else if 0xD800 <= cp <= 0xDFFF then 0
      else len
  }

  function IsValid(s: string): bool {
    if s == "" then true
    else VerifySequence(s) != 0 && IsValid(s[VerifySequence(s)..])
  }

  /** is_valid_utf8's loop. */
  method IsValidUtf8(s: string) returns (valid: bool)
    ensures valid <==> WellFormed(s)
  {
    hide VerifySequence;
    var cursor := s;
    IsValidIffWellFormed(s);
    while cursor != ""
      invariant IsValid(s) == IsValid(cursor)
      decreases |cursor|
    {
      var len := VerifySequence(cursor);
      if len == 0 {
        return false;
      }
      cursor := cursor[len..];
    }
    valid := true;
  }

  // ----- the test accepts exactly the concatenations -----

  /** A code point is its digits in base 0x40, and its digits are determined by it. */
  lemma CodePointDigits(cp: nat)
    ensures cp == High(cp, 0x40) * 0x40 + Six(cp, 1)
    ensures cp == (High(cp, 0x1000) * 0x40 + Six(cp, 0x40)) * 0x40 + Six(cp, 1)
    ensures cp == ((High(cp, 0x4_0000) * 0x40 + Six(cp, 0x1000)) * 0x40 + Six(cp, 0x40)) * 0x40 + Six(cp, 1)
  {
  }

  lemma HighBounds(cp: nat)
    ensures 0x80 <= cp < 0x800 ==> 2 <= High(cp, 0x40) < 0x20
    ensures cp < 0x1_0000 ==> High(cp, 0x1000) < 0x10
    ensures cp <= 0x10FFFF ==> High(cp, 0x4_0000) <= 4
  {
  }

  lemma DigitsUnique(a: nat, b: nat, c: nat, d: nat)
    requires b < 0x40 && c < 0x40 && d < 0x40
    ensures var cp := ((a * 0x40 + b) * 0x40 + c) * 0x40 + d;
            High(cp, 0x4_0000) == a && Six(cp, 0x1000) == b && Six(cp, 0x40) == c && Six(cp, 1) == d
            && High(cp, 0x1000) == a * 0x40 + b && High(cp, 0x40) == (a * 0x40 + b) * 0x40 + c
  {
    var ab, abc := a * 0x40 + b, (a * 0x40 + b) * 0x40 + c;
    LastDigit(a, b);
    LastDigit(ab, c);
    LastDigit(abc, d);
    TwoShifts(abc * 0x40 + d);
  }

  lemma LastDigit(q: nat, d: nat)
    requires d < 0x40
    ensures (q * 0x40 + d) / 0x40 == q && (q * 0x40 + d) % 0x40 == d
  {
  }

  lemma TwoShifts(cp: nat)
    ensures cp / 0x1000 == cp / 0x40 / 0x40 && cp / 0x4_0000 == cp / 0x40 / 0x40 / 0x40
  {
  }

  /** What the masks leave of lead and continuation bytes. */
  lemma MaskedBytes(c: char)
    ensures IsCont(c) ==> Bits(c, 0x40) == c as int - 0x80
    ensures 0xC0 <= c as int < 0xE0 ==> Bits(c, 0x20) == c as int - 0xC0
    ensures 0xE0 <= c as int < 0xF0 ==> Bits(c, 0x10) == c as int - 0xE0
    ensures 0xF0 <= c as int < 0xF8 ==> Bits(c, 0x08) == c as int - 0xF0
  {
  }

  lemma AtFront(s: string, rest: string, k: nat)
    requires k < |s|
    ensures At(s + rest, k) == s[k]
  {
  }

  /** Reading an encoding back gives its length and its code point. */
  lemma EncodingSpells(cp: nat, rest: string)
    requires cp <= 0x10FFFF
    ensures NumBytesInSequence(Encode(cp)[0]) == |Encode(cp)|
    ensures SpelledCodePoint(Encode(cp) + rest, |Encode(cp)|) == Some(cp)
  {
    hide CString.At, Bits, High, Six;
    CodePointDigits(cp);
    HighBounds(cp);
    var e := Encode(cp);
    forall k | 0 <= k < |e|
      ensures At(e + rest, k) == e[k]
    {
      AtFront(e, rest, k);
    }
    MaskedBytes(e[0]);
    if |e| > 1 { MaskedBytes(e[1]); }
    if |e| > 2 { MaskedBytes(e[2]); }
    if |e| > 3 { MaskedBytes(e[3]); }
  }

  /** The bytes that spell a code point without waste are its encoding. */
  lemma SpelledIsEncoding(t: string, len: nat)
    requires t != "" && 1 <= len && len == NumBytesInSequence(t[0])
    requires SpelledCodePoint(t, len).Some?
    requires var cp := SpelledCodePoint(t, len).value;
             cp <= 0x10FFFF && (len > 1 ==> cp >= 0x80) && (len > 2 ==> cp >= 0x800) && (len > 3 ==> cp >= 0x1_0000)
    ensures len <= |t| && Encode(SpelledCodePoint(t, len).value) == t[..len]
  {
    hide Bits, High, Six, Cont;
    LeadAndConts(t, len);
    if len == 2 {
      DigitsUnique(0, 0, Bits(t[0], 0x20), Bits(t[1], 0x40));
    } else if len == 3 {
      DigitsUnique(0, Bits(t[0], 0x10), Bits(t[1], 0x40), Bits(t[2], 0x40));
    } else if len == 4 {
      DigitsUnique(Bits(t[0], 0x08), Bits(t[1], 0x40), Bits(t[2], 0x40), Bits(t[3], 0x40));
    }
  }

  /** The bytes of a spelled sequence, from the bits taken out of them. */
  lemma LeadAndConts(t: string, len: nat)
    requires t != "" && 1 <= len && len == NumBytesInSequence(t[0])
    requires SpelledCodePoint(t, len).Some?
    ensures len <= |t| && len <= 4
    ensures len == 1 ==> t[0] as int < 0x80
    ensures len == 2 ==> t[0] == (0xC0 + Bits(t[0], 0x20)) as char
    ensures len == 3 ==> t[0] == (0xE0 + Bits(t[0], 0x10)) as char
    ensures len == 4 ==> t[0] == (0xF0 + Bits(t[0], 0x08)) as char
    ensures forall k :: 1 <= k < len ==> Bits(t[k], 0x40) < 0x40 && t[k] == Cont(Bits(t[k], 0x40))
  {
    forall k | 0 <= k < |t| {
      MaskedBytes(t[k]);
    }
    hide Bits;
  }

  lemma VerifyAcceptsEncoding(cp: nat, rest: string)
    requires IsScalar(cp)
    ensures VerifySequence(Encode(cp) + rest) == |Encode(cp)|
  {
    EncodingSpells(cp, rest);
    assert (Encode(cp) + rest)[0] == Encode(cp)[0];
    hide Encode, SpelledCodePoint, NumBytesInSequence;
  }

  lemma VerifiedIsEncoding(t: string) returns (cp: nat)
    requires t != "" && VerifySequence(t) != 0
    ensures IsScalar(cp) && Encode(cp) == t[..VerifySequence(t)]
  {
    hide Encode, SpelledCodePoint, NumBytesInSequence;
    var len := NumBytesInSequence(t[0]);
    cp := SpelledCodePoint(t, len).value;
    SpelledIsEncoding(t, len);
  }

  lemma {:induction false} EncodeAllIsValid(cps: seq<nat>)
    requires AllScalars(cps)
    ensures IsValid(EncodeAll(cps))
  {
    if cps != [] {
      var rest := EncodeAll(cps[1..]);
      VerifyAcceptsEncoding(cps[0], rest);
      assert (Encode(cps[0]) + rest)[|Encode(cps[0])|..] == rest;
      EncodeAllIsValid(cps[1..]);
    }
  }

  lemma {:induction false} ValidIsEncodeAll(s: string) returns (cps: seq<nat>)
    requires IsValid(s)
    ensures AllScalars(cps) && s == EncodeAll(cps)
  {
    hide *;
    if s == "" {
      cps := [];
      NothingEncoded();
    } else {
      ValidStep(s);
      var len := VerifySequence(s);
      var cp := VerifiedIsEncoding(s);
      var rest := ValidIsEncodeAll(s[len..]);
      cps := [cp] + rest;
      OneMoreEncoded(cp, rest);
      assert s == s[..len] + s[len..];
    }
  }

  lemma ValidStep(s: string)
    requires IsValid(s) && s != ""
    ensures 0 < VerifySequence(s) <= |s| && IsValid(s[VerifySequence(s)..])
  {
    hide VerifySequence;
  }

  lemma NothingEncoded()
    ensures AllScalars([]) && EncodeAll([]) == ""
  {
  }

  lemma OneMoreEncoded(cp: nat, rest: seq<nat>)
    requires IsScalar(cp) && AllScalars(rest)
    ensures AllScalars([cp] + rest) && EncodeAll([cp] + rest) == Encode(cp) + EncodeAll(rest)
  {
    hide Encode;
    assert ([cp] + rest)[1..] == rest;
  }

  lemma IsValidIffWellFormed(s: string)
    ensures IsValid(s) <==> WellFormed(s)
  {
    if IsValid(s) {
      var cps := ValidIsEncodeAll(s);
    }
    if WellFormed(s) {
      var cps :| AllScalars(cps) && s == EncodeAll(cps);
      EncodeAllIsValid(cps);
    }
  }

  // ----- parse_utf16 -----

  /** Section 7 of RFC 8259: the code point that an escape or a surrogate pair of escapes denotes. */
  ghost function Denoted(t: string): Option<nat>
    requires |t| >= 1
  {
    match ParseHex4(t[1..])
    case None => None
    case Some(unit) =>
      if IsScalar(unit) then Some(unit)
      else if unit <= 0xDBFF && "\\u" <= t[5..] then
        match ParseHex4(t[7..])
        case None => None
        case Some(trail) =>
          if 0xDC00 <= trail <= 0xDFFF
          then Some(0x1_0000 + (unit - 0xD800) * 0x400 + (trail - 0xDC00))
          else None
      else None
  }

  /** An escape is accepted exactly when it denotes a code point, and then emits its encoding. */
  lemma ParseUtf16EmitsDenoted(t: string)
    requires |t| >= 1
    ensures ParseUtf16(t).Some? <==> Denoted(t).Some?
    ensures Denoted(t).Some? ==>
              IsScalar(Denoted(t).value) && ParseUtf16(t).value.0 == Encode(Denoted(t).value)
  {
    hide Encode, ParseHex4, At, Cont, Six;
    if ParseHex4(t[1..]).Some? {
      var unit := ParseHex4(t[1..]).value;
      if 0xD800 <= unit <= 0xDBFF {
        SurrogatesEmitDenoted(t);
      } else {
        EmittedBytes(unit);
      }
    }
  }

  lemma SurrogatesEmitDenoted(t: string)
    requires |t| >= 1 && ParseHex4(t[1..]).Some? && 0xD800 <= ParseHex4(t[1..]).value <= 0xDBFF
    ensures ParseUtf16(t).Some? <==> Denoted(t).Some?
    ensures Denoted(t).Some? ==>
              IsScalar(Denoted(t).value) && ParseUtf16(t).value.0 == Encode(Denoted(t).value)
  {
    hide Encode, ParseHex4, At, Cont, Six;
    EscapeFollows(t);
    var unit := ParseHex4(t[1..]).value;
    if "\\u" <= t[5..] && ParseHex4(t[7..]).Some? && 0xDC00 <= ParseHex4(t[7..]).value <= 0xDFFF {
      EmittedBytes(0x1_0000 + (unit - 0xD800) * 0x400 + (ParseHex4(t[7..]).value - 0xDC00));
    }
  }

  lemma EscapeFollows(t: string)
    requires |t| >= 5
    ensures "\\u" <= t[5..] <==> At(t, 5) == '\\' && At(t, 6) == 'u'
    ensures "\\u" <= t[5..] ==> |t| >= 7
  {
    if At(t, 5) == '\\' && At(t, 6) == 'u' {
      assert t[5..][..2] == "\\u";
    }
    if "\\u" <= t[5..] {
      assert t[5..][0] == '\\' && t[5..][1] == 'u';
    }
  }

  /** The bytes parse_utf16 emits for each length, against the encoding. */
  lemma EmittedBytes(cp: nat)
    requires cp <= 0x10FFFF
    ensures cp < 0x80 ==> Encode(cp) == [cp as char]
    ensures 0x80 <= cp < 0x800 ==> Encode(cp) == [(0xC0 + cp / 0x40 % 0x20) as char, Cont(Six(cp, 1))]
    ensures 0x800 <= cp < 0x1_0000 ==>
              Encode(cp) == [(0xE0 + cp / 0x1000 % 0x10) as char, Cont(Six(cp, 0x40)), Cont(Six(cp, 1))]
    ensures 0x1_0000 <= cp ==>
              Encode(cp) == [(0xF0 + cp / 0x4_0000 % 0x08) as char,
                             Cont(Six(cp, 0x1000)), Cont(Six(cp, 0x40)), Cont(Six(cp, 1))]
  {
    HighBounds(cp);
  }

  // ----- process_string keeps UTF-8 well formed -----

  lemma {:induction false} ValidConcat(a: string, b: string)
    requires IsValid(a) && IsValid(b)
    ensures IsValid(a + b)
  {
    if a == "" {
      assert a + b == b;
    } else {
      var len := VerifySequence(a);
      var cp := VerifiedIsEncoding(a);
      hide VerifySequence, Encode;
      assert a + b == Encode(cp) + (a[len..] + b);
      VerifyAcceptsEncoding(cp, a[len..] + b);
      assert (a + b)[len..] == a[len..] + b;
      ValidConcat(a[len..], b);
    }
  }

  /** A character below 0x80 is a sequence of its own. */
  lemma AsciiIsSequence(t: string)
    requires t != "" && t[0] as int < 0x80
    ensures VerifySequence(t) == 1
  {
  }

  /** Removing leading characters below 0x80 from valid text leaves valid text. */
  lemma {:induction false} ValidAfterAscii(s: string, k: nat)
    requires IsValid(s) && k <= |s|
    requires forall j :: 0 <= j < k ==> s[j] as int < 0x80
    ensures IsValid(s[k..])
  {
    if k == 0 {
      assert s[0..] == s;
    } else {
      AsciiIsSequence(s);
      hide VerifySequence;
      ValidAfterAscii(s[1..], k - 1);
      assert s[1..][k - 1..] == s[k..];
    }
  }

  lemma HexIsAscii(t: string, k: nat)
    requires ParseHex4(t).Some? && k < 4
    ensures t[k] as int < 0x80
  {
    assert IntOfHexDigit(At(t, k)) != -1;
  }

  /** What a round of process_string reads when it does not copy a byte, it is all below 0x80. */
  lemma EscapeIsAscii(t: string, k: nat)
    requires Head(t) == '\\' && ProcessOne(t).Some?
    requires k < |t| - |ProcessOne(t).value.1|
    ensures t[k] as int < 0x80
  {
    if SimpleEscape(At(t, 1)).None? {
      var u := t[1..];
      if 2 <= k < 6 {
        HexIsAscii(u[1..], k - 2);
      } else if 8 <= k {
        HexIsAscii(u[7..], k - 8);
      } else if 6 <= k {
        assert u[k - 1] == t[k];
      }
    }
  }

  lemma EscapeEmitsValid(t: string)
    requires Head(t) == '\\' && ProcessOne(t).Some?
    ensures IsValid(ProcessOne(t).value.0)
  {
    var out := ProcessOne(t).value.0;
    if SimpleEscape(At(t, 1)).Some? {
      AsciiIsSequence(out);
      assert out[1..] == "";
    } else {
      ParseUtf16EmitsDenoted(t[1..]);
      hide ParseUtf16, Encode, VerifySequence;
      var cps := [Denoted(t[1..]).value];
      assert EncodeAll(cps) == Encode(cps[0]) + EncodeAll([]) == out;
      EncodeAllIsValid(cps);
    }
  }

  lemma HighByteCopied(t: string, n: int)
    requires t != "" && t[0] as int >= 0x80 && n > 0
    ensures Process(t, n) == Prepend([t[0]], Process(t[1..], n - 1))
    ensures SkipBody(t) == SkipBody(t[1..])
  {
    assert ProcessOne(t) == Some(([t[0]], t[1..]));
  }

  predicate HighBytes(t: string, k: nat) {
    k <= |t| && forall j :: 0 <= j < k ==> t[j] as int >= 0x80
  }

  lemma HighBytesTail(t: string, k: nat)
    requires HighBytes(t, k) && k > 0
    ensures t != "" && t[0] as int >= 0x80 && HighBytes(t[1..], k - 1)
    ensures t[1..][k - 1..] == t[k..] && [t[0]] + t[1..][..k - 1] == t[..k]
  {
  }

  /** Bytes from 0x80 on are copied, whatever they are. */
  lemma {:induction false} HighBytesCopied(t: string, n: int, k: nat)
    requires HighBytes(t, k) && k <= |t| && k <= n
    ensures Process(t, n) == Prepend(t[..k], Process(t[k..], n - k))
    ensures SkipBody(t) == SkipBody(t[k..])
    decreases k
  {
    hide *;
    if k == 0 {
      assert t[0..] == t && t[..0] == "";
      PrependNothing(Process(t, n));
    } else {
      HighBytesTail(t, k);
      HighByteCopied(t, n);
      HighBytesCopied(t[1..], n - 1, k - 1);
      PrependTwice([t[0]], t[1..][..k - 1], Process(t[k..], n - k));
    }
  }

  lemma PrependNothing(r: Option<(string, string)>)
    ensures Prepend("", r) == r
  {
    assert r.Some? ==> "" + r.value.0 == r.value.0;
  }

  lemma PrependTwice(a: string, b: string, r: Option<(string, string)>)
    ensures Prepend(a, Prepend(b, r)) == Prepend(a + b, r)
  {
    assert r.Some? ==> a + (b + r.value.0) == a + b + r.value.0;
  }

  lemma SequenceBytesHigh(t: string, j: nat)
    requires t != "" && j < VerifySequence(t) && t[0] as int >= 0x80
    ensures t[j] as int >= 0x80
  {
  }

  lemma OneSequenceIsValid(t: string)
    requires t != "" && VerifySequence(t) != 0
    ensures IsValid(t[..VerifySequence(t)])
  {
    var cp := VerifiedIsEncoding(t);
    hide VerifySequence, Encode;
    var cps := [cp];
    assert EncodeAll(cps) == Encode(cps[0]) + EncodeAll([]) == t[..VerifySequence(t)];
    EncodeAllIsValid(cps);
  }

  lemma SequenceSplits(s: string)
    requires s != "" && IsValid(s)
    ensures VerifySequence(s) > 0 && IsValid(s[..VerifySequence(s)]) && IsValid(s[VerifySequence(s)..])
  {
    OneSequenceIsValid(s);
  }

  /**
   If the text between the quotes of a literal is well-formed UTF-8 and process_string accepts it,
   what it emits is well-formed UTF-8.
   */
  lemma {:induction false} ProcessKeepsUtf8(t: string)
    requires SkipBody(t).Some?
    requires var n := |t| - |SkipBody(t).value| - 1; IsValid(t[..n]) && Process(t, n).Some?
    ensures var n := |t| - |SkipBody(t).value| - 1; IsValid(Process(t, n).value.0)
    decreases |t|
  {
    hide *;
    var n := |t| - |SkipBody(t).value| - 1;
    if n == 0 {
      ProcessNothing(t);
    } else {
      var out, k := ValidRound(t, n);
      assert t[k..][..n - k] == t[..n][k..];
      ProcessKeepsUtf8(t[k..]);
      ValidConcat(out, Process(t[k..], n - k).value.0);
      PrependedOutput(out, Process(t[k..], n - k));
    }
  }

  lemma ProcessNothing(t: string)
    ensures Process(t, 0) == Some(("", t)) && IsValid("")
  {
  }

  lemma PrependedOutput(out: string, r: Option<(string, string)>)
    requires r.Some?
    ensures Prepend(out, r).Some? && Prepend(out, r).value.0 == out + r.value.0
  {
  }

  /** One or more rounds that read and emit well-formed text and leave well-formed text to read. */
  lemma ValidRound(t: string, n: nat) returns (out: string, k: nat)
    requires 0 < n && SkipBody(t).Some? && n == |t| - |SkipBody(t).value| - 1
    requires IsValid(t[..n]) && Process(t, n).Some?
    ensures 1 <= k <= n && IsValid(out) && IsValid(t[..n][k..])
    ensures SkipBody(t[k..]) == SkipBody(t)
    ensures Process(t, n) == Prepend(out, Process(t[k..], n - k)) && Process(t[k..], n - k).Some?
  {
    hide Process, SkipBody, ProcessOne, VerifySequence, IsValid, Prepend;
    var body := t[..n];
    assert body[0] == t[0];
    if t[0] as int < 0x80 {
      AsciiRound(t, n);
      var (bytes, rest) := ProcessOne(t).value;
      out, k := bytes, |t| - |rest|;
      ProcessOneAdvances(t);
      ValidAfterAscii(body, k);
    } else {
      out, k := HighRound(t, n);
    }
    PrependSome(out, Process(t[k..], n - k));
  }

  lemma PrependSome(out: string, r: Option<(string, string)>)
    requires Prepend(out, r).Some?
    ensures r.Some?
  {
  }

  lemma HighRound(t: string, n: nat) returns (out: string, k: nat)
    requires 0 < n <= |t| && IsValid(t[..n]) && t[0] as int >= 0x80
    ensures 1 <= k <= n && IsValid(out) && IsValid(t[..n][k..])
    ensures SkipBody(t[k..]) == SkipBody(t)
    ensures Process(t, n) == Prepend(out, Process(t[k..], n - k))
  {
    hide Process, SkipBody, VerifySequence, IsValid, Prepend;
    var body := t[..n];
    assert body[0] == t[0];
    k := VerifySequence(body);
    out := t[..k];
    SequenceSplits(body);
    forall j | 0 <= j < k
      ensures t[j] as int >= 0x80
    {
      SequenceBytesHigh(body, j);
      assert body[j] == t[j];
    }
    HighBytesCopied(t, n, k);
    assert body[..k] == t[..k];
  }

  lemma ProcessOneAdvances(t: string)
    requires Head(t) != NUL && ProcessOne(t).Some?
    ensures var rest := ProcessOne(t).value.1; |rest| < |t| && rest == t[|t| - |rest|..]
  {
  }

  /** A round at a character below 0x80 reads and emits well-formed text inside the literal. */
  lemma AsciiRound(t: string, n: nat)
    requires 0 < n && SkipBody(t).Some? && n == |t| - |SkipBody(t).value| - 1
    requires t[0] as int < 0x80 && Process(t, n).Some?
    ensures ProcessOne.requires(t) && ProcessOne(t).Some?
    ensures var (out, rest) := ProcessOne(t).value;
            var k := |t| - |rest|;
            && 1 <= k <= n && IsValid(out)
            && (forall j :: 0 <= j < k ==> t[j] as int < 0x80)
            && SkipBody(rest) == SkipBody(t)
            && Process(t, n) == Prepend(out, Process(rest, n - k))
  {
    assert Head(t) != NUL && Head(t) != '"';
    ProcessOneStaysInside(t);
    var (out, rest) := ProcessOne(t).value;
    assert |SkipBody(rest).value| < |rest|;
    forall j | 0 <= j < |t| - |rest|
      ensures t[j] as int < 0x80
    {
      if Head(t) == '\\' {
        EscapeIsAscii(t, j);
      }
    }
    if Head(t) == '\\' {
      EscapeEmitsValid(t);
    } else {
      AsciiIsSequence(out);
      assert out[1..] == "";
    }
  }

  /** The part of valid text up to the first terminator byte is valid text. */
  lemma {:induction false} ValidUpToNul(s: string)
    requires IsValid(s)
    ensures IsValid(UpToNul(s))
  {
    if s != "" && s[0] != NUL {
      var len := VerifySequence(s);
      forall j | 0 <= j < len
        ensures s[j] != NUL
      {
        if j > 0 && s[0] as int >= 0x80 {
          SequenceBytesHigh(s, j);
        }
      }
      OneSequenceIsValid(s);
      hide VerifySequence;
      ValidUpToNul(s[len..]);
      UpToNulSplits(s, len);
      ValidConcat(s[..len], UpToNul(s[len..]));
    }
  }

  lemma {:induction false} UpToNulSplits(s: string, k: nat)
    requires k <= |s| && forall j :: 0 <= j < k ==> s[j] != NUL
    ensures UpToNul(s) == s[..k] + UpToNul(s[k..])
  {
    hide UpToNul;
    if k == 0 {
      assert s[0..] == s && s[..0] + UpToNul(s) == UpToNul(s);
    } else {
      UpToNulSplits(s[1..], k - 1);
      UpToNulStep(s);
      assert s[1..][k - 1..] == s[k..];
      SplitJoined(s, k, UpToNul(s[k..]));
    }
  }

  lemma UpToNulStep(s: string)
    requires s != "" && s[0] != NUL
    ensures UpToNul(s) == [s[0]] + UpToNul(s[1..])
  {
  }

  lemma SplitJoined(s: string, k: nat, rest: string)
    requires 0 < k <= |s|
    ensures [s[0]] + (s[1..][..k - 1] + rest) == s[..k] + rest
  {
  }

  /** get_quoted_string maps a literal whose text is well-formed UTF-8 to well-formed UTF-8. */
  lemma QuotedStringKeepsUtf8(t: string)
    requires QuotedString(t).Some?
    requires WellFormed(t[1..|t| - |QuotedString(t).value.1| - 1])
    ensures WellFormed(QuotedString(t).value.0)
  {
    hide *;
    QuotedParts(t);
    var body := t[1..];
    var n := |body| - |SkipBody(body).value| - 1;
    IsValidIffWellFormed(body[..n]);
    ProcessKeepsUtf8(body);
    var out := Process(body, n).value.0;
    ValidUpToNul(out);
    IsValidIffWellFormed(UpToNul(out));
  }

  /** The text between the quotes, and what is made of it. */
  lemma QuotedParts(t: string)
    requires QuotedString(t).Some?
    ensures var body := t[1..];
            && SkipBody(body).Some?
            && var n := |body| - |SkipBody(body).value| - 1;
               && Process(body, n).Some?
               && QuotedString(t).value == (UpToNul(Process(body, n).value.0), SkipBody(body).value)
               && body[..n] == t[1..|t| - |QuotedString(t).value.1| - 1]
  {
    hide Process, SkipBody, UpToNul;
  }
}
