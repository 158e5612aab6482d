/**
 Base32 of base32.c (section 6 of RFC 4648, in lower case). Bytes and characters are 8-bit vectors;
 the specification regroups the 40 bits of a block, the methods use the masks and shifts of the code.
 */
module Base32 {
  import opened Options
  import Alphabets

  type byte = bv8

  const PAD: byte := 61
  /** What the code stores in place of a value where the text is padded. */
  const EQUAL_SIGN: byte := 32
  const ASCII_VALUE_MAX: byte := 0x80

  // ----- the alphabet -----

  /** `BASE32_VALUES`, the string a-z, 2-7, =, indexed by a value. */
  function ValueChar(value: byte): byte {
    if value < 26 then 97 + value
    else if value < 32 then 50 + (value - 26)
    else PAD
  }

  /** `convert_value_to_base32_char`. */
  function CharValue(c: byte): byte {
    if 50 <= c <= 55 then 0x1a + (c - 50)
    else if c == 61 then EQUAL_SIGN
    else if c <= 49 || 56 <= c <= 64 then 0xFF
    else if 65 <= c <= 90 then c - 65
    else if 91 <= c <= 96 then 0xFF
    else if 97 <= c <= 123 then c - 97
    else 0xFF
  }

  function Lower(c: byte): byte {
    if 65 <= c <= 90 then c + 32 else c
  }

  /** The characters of `BASE32_VALUES` other than the padding. */
  predicate IsBase32(c: byte) {
    97 <= c <= 122 || 50 <= c <= 55
  }

  /**
   Decoding a character undoes encoding its value, and letter case makes no difference. The
   characters taken for a value are exactly those of the alphabet, in either case, and the brace
   after 'z', which is taken for '2'.
   */
  lemma AlphabetReadBack(value: byte, c: byte)
    ensures value <= 32 ==> CharValue(ValueChar(value)) == value && ValueChar(value) < ASCII_VALUE_MAX
    ensures value < 32 ==> IsBase32(ValueChar(value))
    ensures CharValue(Lower(c)) == CharValue(c)
    ensures IsBase32(Lower(c)) ==> ValueChar(CharValue(c)) == Lower(c)
    ensures CharValue(c) < 32 <==> IsBase32(Lower(c)) || c == 123
    ensures CharValue(123) == CharValue(50)
  {
  }

  /** The characters are those of table 3 of RFC 4648, in its order and in lower case, with its padding. */
  lemma AlphabetOfStandard(value: byte)
    requires value < 32
    ensures |Alphabets.BASE32| == 32 && ValueChar(value) as int == Alphabets.BASE32[value as int] as int
    ensures ValueChar(EQUAL_SIGN) as int == '=' as int
  {
    Alphabets.Base32At(value as int);
    CharacterCode(value);
  }

  lemma CharacterCode(value: byte)
    requires value < 32
    ensures ValueChar(value) as int == if value < 26 then 97 + value as int else 50 + (value as int - 26)
  {
  }

  // ----- the bits of a block -----

  function Join5(b0: byte, b1: byte, b2: byte, b3: byte, b4: byte): bv40 {
    ((b0 as bv40) << 32) | ((b1 as bv40) << 24) | ((b2 as bv40) << 16) | ((b3 as bv40) << 8) | (b4 as bv40)
  }

  function Split5(v: bv40): (r: seq<byte>)
    ensures |r| == 5
  {
    [(v >> 32) as byte, ((v >> 24) & 0xFF) as byte, ((v >> 16) & 0xFF) as byte,
     ((v >> 8) & 0xFF) as byte, (v & 0xFF) as byte]
  }

  function Low5(v: byte): bv40 {
    (v & 0x1F) as bv40
  }

  /** Eight values joined, whatever stands above their low five bits. */
  function Join8(v0: byte, v1: byte, v2: byte, v3: byte, v4: byte, v5: byte, v6: byte, v7: byte): bv40 {
    Concat8(Low5(v0), Low5(v1), Low5(v2), Low5(v3), Low5(v4), Low5(v5), Low5(v6), Low5(v7))
  }

  function Concat8(v0: bv40, v1: bv40, v2: bv40, v3: bv40, v4: bv40, v5: bv40, v6: bv40, v7: bv40): bv40 {
    (v0 << 35) | (v1 << 30) | (v2 << 25) | (v3 << 20) | (v4 << 15) | (v5 << 10) | (v6 << 5) | v7
  }

  /** The five-bit digits of a block, high ones first. */
  function Split8(v: bv40): (r: seq<byte>)
    ensures |r| == 8
  {
    [(v >> 35) as byte, ((v >> 30) & 31) as byte, ((v >> 25) & 31) as byte, ((v >> 20) & 31) as byte,
     ((v >> 15) & 31) as byte, ((v >> 10) & 31) as byte, ((v >> 5) & 31) as byte, (v & 31) as byte]
  }

  function At(b: seq<byte>, k: nat): byte {
    if k < |b| then b[k] else 0
  }

  /** How many characters carry the bits of a block of n bytes. */
  function CharsUsed(n: nat): (k: nat)
    requires 1 <= n <= 5
    ensures 2 <= k <= 8
  {
    if n == 1 then 2 else if n == 2 then 4 else if n == 3 then 5 else if n == 4 then 7 else 8
  }

  function Padded(digit: byte, used: bool): byte {
    if used then digit else EQUAL_SIGN
  }

  /** The digits of a block filled up with zero bytes, those without a bit of it replaced by padding. */
  function BlockValues(b: seq<byte>): (r: seq<byte>)
    requires 1 <= |b| <= 5
    ensures |r| == 8
  {
    var d := Split8(Join5(At(b, 0), At(b, 1), At(b, 2), At(b, 3), At(b, 4)));
    var used := CharsUsed(|b|);
    [d[0], d[1], Padded(d[2], used > 2), Padded(d[3], used > 3), Padded(d[4], used > 4),
     Padded(d[5], used > 5), Padded(d[6], used > 6), Padded(d[7], used > 7)]
  }

  function Chars(values: seq<byte>): (r: seq<byte>)
    ensures |r| == |values|
  {
    seq(|values|, k requires 0 <= k < |values| => ValueChar(values[k]))
  }

  function Values(chars: seq<byte>): (r: seq<byte>)
    ensures |r| == |chars|
  {
    seq(|chars|, k requires 0 <= k < |chars| => CharValue(chars[k]))
  }

  function BlockBytes(v: seq<byte>): (r: seq<byte>)
    requires |v| == 8
    ensures |r| == 5
  {
    Split5(Join8(v[0], v[1], v[2], v[3], v[4], v[5], v[6], v[7]))
  }

  /** How many of the five bytes count, by where the padding is. */
  function Kept(v: seq<byte>): (n: nat)
    requires |v| == 8
    ensures 1 <= n <= 5
  {
    if v[7] != EQUAL_SIGN then 5
    else if v[5] != EQUAL_SIGN then 4
    else if v[4] != EQUAL_SIGN then 3
    else if v[2] != EQUAL_SIGN then 2
    else 1
  }

  // ----- whole texts -----

  function BlockLength(n: nat): (k: nat)
    ensures k <= n && k <= 5 && (n > 0 ==> k > 0)
  {
    if n > 5 then 5 else n
  }

  function Encode(s: seq<byte>): (t: seq<byte>)
    ensures |t| == (|s| + 4) / 5 * 8
  {
    if s == [] then []
    else
      var n := BlockLength(|s|);
      Chars(BlockValues(s[..n])) + Encode(s[n..])
  }

  predicate AllAscii(t: seq<byte>) {
    forall k :: 0 <= k < |t| ==> t[k] < ASCII_VALUE_MAX
  }

  /** All the bytes written, five for every block, and how many of them are to be kept. */
  function DecodeBlocks(t: seq<byte>): (r: Option<(seq<byte>, nat)>)
    requires |t| % 8 == 0
    ensures r.Some? ==> |r.value.0| == |t| / 8 * 5 && r.value.1 <= |r.value.0|
  {
    if t == [] then Some(([], 0))
    else
      var values, rest := Values(t[..8]), DecodeBlocks(t[8..]);
      if !AllAscii(t[..8]) || rest.None? then None
      else Some((BlockBytes(values) + rest.value.0, Kept(values) + rest.value.1))
  }

  /** `base32_decode_impl`, with memory enough. */
  function Decode(t: seq<byte>): Option<seq<byte>> {
    if |t| % 8 != 0 then None
    else
      var blocks := DecodeBlocks(t);
      if blocks.None? then None else Some(blocks.value.0[..blocks.value.1])
  }

  /** A text is refused for its length or for a byte that is not ASCII, and for nothing else. */
  lemma {:induction false} DecodesExactlyAscii(t: seq<byte>)
    ensures Decode(t).Some? <==> |t| % 8 == 0 && AllAscii(t)
    decreases |t|
  {
    if |t| % 8 == 0 && t != [] {
      DecodesExactlyAscii(t[8..]);
      assert t == t[..8] + t[8..];
    }
  }

  // ----- decoding what was encoded -----

  lemma BitsReadBack(b0: byte, b1: byte, b2: byte, b3: byte, b4: byte)
    ensures var d := Split8(Join5(b0, b1, b2, b3, b4));
            && Join8(d[0], d[1], d[2], d[3], d[4], d[5], d[6], d[7]) == Join5(b0, b1, b2, b3, b4)
            && d[0] < 32 && d[1] < 32 && d[2] < 32 && d[3] < 32 && d[4] < 32 && d[5] < 32 && d[6] < 32 && d[7] < 32
    ensures Split5(Join5(b0, b1, b2, b3, b4)) == [b0, b1, b2, b3, b4]
  {
  }

  /** The digits that padding replaces are zero. */
  lemma UnusedDigits(b0: byte, b1: byte, b2: byte, b3: byte)
    ensures Split8(Join5(b0, b1, b2, b3, 0))[7] == 0
    ensures var d := Split8(Join5(b0, b1, b2, 0, 0)); d[5] == 0 && d[6] == 0 && d[7] == 0
    ensures var d := Split8(Join5(b0, b1, 0, 0, 0)); d[4] == 0 && d[5] == 0 && d[6] == 0 && d[7] == 0
    ensures var d := Split8(Join5(b0, 0, 0, 0, 0));
            d[2] == 0 && d[3] == 0 && d[4] == 0 && d[5] == 0 && d[6] == 0 && d[7] == 0
  {
  }

  /** Padding in the place of zero digits joins to the same bits. */
  lemma JoinPadded(d: seq<byte>, v: seq<byte>)
    requires |d| == |v| == 8
    requires forall k :: 0 <= k < 8 ==> v[k] == d[k] || (d[k] == 0 && v[k] == EQUAL_SIGN)
    ensures Join8(v[0], v[1], v[2], v[3], v[4], v[5], v[6], v[7]) ==
            Join8(d[0], d[1], d[2], d[3], d[4], d[5], d[6], d[7])
  {
    hide Low5, Concat8;
    PaddingIsZero();
    assert forall k :: 0 <= k < 8 ==> Low5(v[k]) == Low5(d[k]);
  }

  lemma PaddingIsZero()
    ensures Low5(EQUAL_SIGN) == Low5(0)
  {
  }

  lemma ValuesOfChars(v: seq<byte>)
    requires forall k :: 0 <= k < |v| ==> v[k] <= 32
    ensures Values(Chars(v)) == v && AllAscii(Chars(v))
  {
    forall k | 0 <= k < |v|
      ensures CharValue(ValueChar(v[k])) == v[k] && ValueChar(v[k]) < ASCII_VALUE_MAX
    {
      AlphabetReadBack(v[k], 0);
    }
  }

  function ZeroFilled(b: seq<byte>): (d: seq<byte>)
    ensures |d| == 8
  {
    Split8(Join5(At(b, 0), At(b, 1), At(b, 2), At(b, 3), At(b, 4)))
  }

  lemma DigitsBounded(b: seq<byte>, k: nat)
    requires k < 8
    ensures ZeroFilled(b)[k] < 32
  {
    hide Join5, Split8;
    BitsReadBack(At(b, 0), At(b, 1), At(b, 2), At(b, 3), At(b, 4));
  }

  lemma PaddedDigits(b: seq<byte>)
    requires 1 <= |b| <= 5
    ensures forall k :: 0 <= k < 8 ==>
              BlockValues(b)[k] == if k < CharsUsed(|b|) then ZeroFilled(b)[k] else EQUAL_SIGN
    ensures forall k :: CharsUsed(|b|) <= k < 8 ==> ZeroFilled(b)[k] == 0
  {
    hide Join5, Split8;
    UnusedDigits(At(b, 0), At(b, 1), At(b, 2), At(b, 3));
  }

  lemma PaddingTellsLength(b: seq<byte>)
    requires 1 <= |b| <= 5
    ensures Kept(BlockValues(b)) == |b|
    ensures forall k :: 0 <= k < 8 ==> BlockValues(b)[k] <= 32
  {
    hide ZeroFilled, BlockValues;
    PaddedDigits(b);
    forall k | 0 <= k < 8
      ensures ZeroFilled(b)[k] < 32
    {
      DigitsBounded(b, k);
    }
  }

  /** All five lengths of the last block are read back. */
  lemma BlockReadBack(b: seq<byte>)
    requires 1 <= |b| <= 5
    ensures var c := Chars(BlockValues(b));
            AllAscii(c) && Kept(Values(c)) == |b| && BlockBytes(Values(c))[..|b|] == b
  {
    hide Join5, Split8, Split5, Join8, Chars, Values, AllAscii, BlockValues, Kept;
    PaddingTellsLength(b);
    ValuesOfChars(BlockValues(b));
    PaddedDigits(b);
    JoinPadded(ZeroFilled(b), BlockValues(b));
    BitsReadBack(At(b, 0), At(b, 1), At(b, 2), At(b, 3), At(b, 4));
  }

  lemma DecodeBlocksStep(c: seq<byte>, t: seq<byte>)
    requires |c| == 8 && |t| % 8 == 0 && AllAscii(c)
    ensures var whole, rest := DecodeBlocks(c + t), DecodeBlocks(t);
            if rest.None? then whole.None?
            else whole == Some((BlockBytes(Values(c)) + rest.value.0, Kept(Values(c)) + rest.value.1))
  {
    hide DecodeBlocks, Values, BlockBytes, Kept, AllAscii;
    assert (c + t)[..8] == c && (c + t)[8..] == t;
    DecodeBlocksIs(c + t);
  }

  lemma DecodeBlocksIs(t: seq<byte>)
    requires t != [] && |t| % 8 == 0
    ensures var values, rest := Values(t[..8]), DecodeBlocks(t[8..]);
            DecodeBlocks(t) ==
            if !AllAscii(t[..8]) || rest.None? then None
            else Some((BlockBytes(values) + rest.value.0, Kept(values) + rest.value.1))
  {
    hide Values, BlockBytes, Kept, AllAscii;
  }

  lemma {:induction false} EncodeReadBack(s: seq<byte>)
    ensures var r := DecodeBlocks(Encode(s));
            r.Some? && r.value.1 == |s| <= |r.value.0| && r.value.0[..|s|] == s
  {
    hide *;
    if s == [] {
      NothingReadBack();
      assert s == [];
    } else {
      var n := BlockLength(|s|);
      BlockReadBack(s[..n]);
      EncodeReadBack(s[n..]);
      EncodeStep(s);
      DecodeBlocksStep(Chars(BlockValues(s[..n])), Encode(s[n..]));
      if n < 5 {
        assert s[n..] == [] && s[..n] == s;
      } else {
        assert s == s[..n] + s[n..];
      }
    }
  }

  lemma NothingReadBack()
    ensures DecodeBlocks(Encode([])) == Some(([], 0))
  {
  }

  lemma EncodeStep(s: seq<byte>)
    requires s != []
    ensures var n := BlockLength(|s|);
            Encode(s) == Chars(BlockValues(s[..n])) + Encode(s[n..])
            && 1 <= n <= |s| && n <= 5 && (n < 5 ==> n == |s|)
  {
    hide Chars, BlockValues;
  }

  /** Decoding ignores letter case, on every text. */
  lemma {:induction false} DecodeIgnoresCase(t: seq<byte>, u: seq<byte>)
    requires |t| == |u| && forall k :: 0 <= k < |t| ==> Lower(t[k]) == Lower(u[k])
    ensures Decode(t) == Decode(u)
  {
    if |t| % 8 == 0 {
      BlocksIgnoreCase(t, u);
    }
  }

  lemma {:induction false} BlocksIgnoreCase(t: seq<byte>, u: seq<byte>)
    requires |t| == |u| && |t| % 8 == 0 && forall k :: 0 <= k < |t| ==> Lower(t[k]) == Lower(u[k])
    ensures DecodeBlocks(t) == DecodeBlocks(u)
  {
    hide BlockBytes, Kept, CharValue, Lower;
    if t != [] {
      BlocksIgnoreCase(t[8..], u[8..]);
      forall k | 0 <= k < 8
        ensures CharValue(t[k]) == CharValue(u[k]) && (t[k] < ASCII_VALUE_MAX <==> u[k] < ASCII_VALUE_MAX)
      {
        SameLetter(t[k], u[k]);
      }
      assert Values(t[..8]) == Values(u[..8]);
      assert AllAscii(t[..8]) <==> AllAscii(u[..8]) by {
        assert forall k :: 0 <= k < 8 ==> t[..8][k] == t[k] && u[..8][k] == u[k];
      }
    }
  }

  lemma SameLetter(c: byte, d: byte)
    requires Lower(c) == Lower(d)
    ensures CharValue(c) == CharValue(d) && (c < ASCII_VALUE_MAX <==> d < ASCII_VALUE_MAX)
  {
  }

  /** Decoding the encoding of any bytes, in any mixture of cases, gives them back. */
  lemma DecodeEncode(s: seq<byte>, t: seq<byte>)
    requires |t| == |Encode(s)| && forall k :: 0 <= k < |t| ==> Lower(t[k]) == Lower(Encode(s)[k])
    ensures Decode(t) == Some(s)
  {
    hide DecodeBlocks, Encode, Lower;
    EncodeReadBack(s);
    DecodeIgnoresCase(t, Encode(s));
  }

  // ----- the loops -----

  /** The first switch with its fall-through: the cases of a shorter block follow those of a longer. */
  method PackBits(b: seq<byte>) returns (pos: seq<byte>)
    requires 1 <= |b| <= 5
    ensures pos == ZeroFilled(b)
  {
    var n := |b|;
    var pos1, pos2, pos3, pos4, pos5, pos6, pos7, pos8: byte := 0, 0, 0, 0, 0, 0, 0, 0;
    if n >= 5 {
      pos8 := b[4] & 0x1f;
      pos7 := (b[4] & 0xe0) >> 5;
    }
    if n >= 4 {
      pos7 := pos7 | ((b[3] & 0x03) << 3);
      pos6 := (b[3] & 0x7c) >> 2;
      pos5 := (b[3] & 0x80) >> 7;
    }
    if n >= 3 {
      pos5 := pos5 | ((b[2] & 0x0f) << 1);
      pos4 := (b[2] & 0xf0) >> 4;
    }
    if n >= 2 {
      pos4 := pos4 | ((b[1] & 0x01) << 4);
      pos3 := (b[1] & 0x3e) >> 1;
      pos2 := (b[1] & 0xc0) >> 6;
    }
    pos2 := pos2 | ((b[0] & 0x07) << 2);
    pos1 := (b[0] & 0xf8) >> 3;
    pos := [pos1, pos2, pos3, pos4, pos5, pos6, pos7, pos8];
    MasksAreDigits(At(b, 0), At(b, 1), At(b, 2), At(b, 3), At(b, 4));
    hide Join5, Split8;
  }

  /** The second switch puts padding where the block has no bits, falling through likewise. */
  method PackBlock(b: seq<byte>) returns (pos: seq<byte>)
    requires 1 <= |b| <= 5
    ensures pos == BlockValues(b)
  {
    hide ZeroFilled, BlockValues;
    var n := |b|;
    pos := PackBits(b);
    if n <= 1 {
      pos := pos[2 := EQUAL_SIGN][3 := EQUAL_SIGN];
    }
    if n <= 2 {
      pos := pos[4 := EQUAL_SIGN];
    }
    if n <= 3 {
      pos := pos[5 := EQUAL_SIGN][6 := EQUAL_SIGN];
    }
    if n <= 4 {
      pos := pos[7 := EQUAL_SIGN];
    }
    PaddedDigits(b);
  }

  lemma MasksAreDigits(b0: byte, b1: byte, b2: byte, b3: byte, b4: byte)
    ensures Split8(Join5(b0, b1, b2, b3, b4)) ==
            [(b0 & 0xf8) >> 3, ((b1 & 0xc0) >> 6) | ((b0 & 0x07) << 2), (b1 & 0x3e) >> 1,
             ((b2 & 0xf0) >> 4) | ((b1 & 0x01) << 4), ((b3 & 0x80) >> 7) | ((b2 & 0x0f) << 1),
             (b3 & 0x7c) >> 2, ((b4 & 0xe0) >> 5) | ((b3 & 0x03) << 3), b4 & 0x1f]
  {
  }

  lemma EncodeFrom(s: seq<byte>, pos: nat)
    requires pos < |s|
    ensures var n := BlockLength(|s| - pos);
            Encode(s[pos..]) == Chars(BlockValues(s[pos..pos + n])) + Encode(s[pos + n..])
  {
    hide Chars, BlockValues;
    var n := BlockLength(|s| - pos);
    assert s[pos..][..n] == s[pos..pos + n];
    assert s[pos..][n..] == s[pos + n..];
  }

  method PutChars(result: array<byte>, at: nat, values: seq<byte>)
    requires |values| == 8 && at + 8 <= result.Length
    modifies result
    ensures result[..at + 8] == old(result[..at]) + Chars(values)
    ensures result[at + 8..] == old(result[at + 8..])
  {
    var k := 0;
    while k < 8
      invariant 0 <= k <= 8
      invariant result[..at] == old(result[..at])
      invariant forall j :: 0 <= j < k ==> result[at + j] == ValueChar(values[j])
      invariant result[at + 8..] == old(result[at + 8..])
    {
      result[at + k] := ValueChar(values[k]);
      k := k + 1;
    }
    assert result[..at + 8] == result[..at] + Chars(values);
  }

  function EncodingLength(n: nat): nat {
    (n + 4) / 5 * 8
  }

  /** `base32_encode_impl`. */
  method EncodeImpl(source: array<byte>) returns (result: array<byte>)
    ensures fresh(result) && result.Length == EncodingLength(source.Length) + 1
    ensures result[..result.Length - 1] == Encode(source[..]) && result[result.Length - 1] == 0
  {
    hide Encode, Chars, BlockValues, EncodingLength;
    ghost var s := source[..];
    EncodedLength(s);
    result := new byte[EncodingLength(source.Length) + 1](_ => 0);
    var at, resultLen := 0, 0;
    assert s[0..] == s;
    while at < source.Length
      invariant 0 <= at <= |s| == source.Length && s == source[..]
      invariant 0 <= resultLen && resultLen + |Encode(s[at..])| + 1 == result.Length
      invariant result[..resultLen] + Encode(s[at..]) == Encode(s)
      invariant result[result.Length - 1] == 0
    {
      EncodeFrom(s, at);
      var blockLen := EncodeBlock(source, at, result, resultLen);
      at := at + blockLen;
      resultLen := resultLen + 8;
    }
    NothingLeft(s);
  }

  /** One round of the loop. */
  method EncodeBlock(source: array<byte>, at: nat, result: array<byte>, resultLen: nat) returns (blockLen: nat)
    requires at < source.Length && resultLen + 8 < result.Length && source != result
    modifies result
    ensures blockLen == BlockLength(source.Length - at)
    ensures result[..resultLen + 8] == old(result[..resultLen]) + Chars(BlockValues(source[..][at..at + blockLen]))
    ensures result[result.Length - 1] == old(result[result.Length - 1])
  {
    hide Chars, BlockValues;
    blockLen := BlockLength(source.Length - at);
    var block := source[at..at + blockLen];
    assert block == source[..][at..at + blockLen];
    var pos := PackBlock(block);
    ghost var last := result[resultLen + 8..];
    PutChars(result, resultLen, pos);
    assert result[result.Length - 1] == last[|last| - 1];
  }

  lemma EncodedLength(s: seq<byte>)
    ensures |Encode(s)| == EncodingLength(|s|)
  {
  }

  lemma NothingLeft(s: seq<byte>)
    ensures Encode(s[|s|..]) == []
  {
  }

  /** Five bytes of eight values by the masks of the code. */
  method UnpackBlock(input: seq<byte>) returns (bytes: seq<byte>)
    requires |input| == 8
    ensures bytes == BlockBytes(input)
  {
    bytes :=
      [((input[0] & 0x1f) << 3) | ((input[1] & 0x1c) >> 2),
       ((input[1] & 0x03) << 6) | ((input[2] & 0x1f) << 1) | ((input[3] & 0x10) >> 4),
       ((input[3] & 0x0f) << 4) | ((input[4] & 0x1e) >> 1),
       ((input[4] & 0x01) << 7) | ((input[5] & 0x1f) << 2) | ((input[6] & 0x18) >> 3),
       ((input[6] & 0x07) << 5) | (input[7] & 0x1f)];
    MasksAreBytes(input[0], input[1], input[2], input[3], input[4], input[5], input[6], input[7]);
  }

  lemma MasksAreBytes(v0: byte, v1: byte, v2: byte, v3: byte, v4: byte, v5: byte, v6: byte, v7: byte)
    ensures Split5(Join8(v0, v1, v2, v3, v4, v5, v6, v7)) ==
            [((v0 & 0x1f) << 3) | ((v1 & 0x1c) >> 2),
             ((v1 & 0x03) << 6) | ((v2 & 0x1f) << 1) | ((v3 & 0x10) >> 4),
             ((v3 & 0x0f) << 4) | ((v4 & 0x1e) >> 1),
             ((v4 & 0x01) << 7) | ((v5 & 0x1f) << 2) | ((v6 & 0x18) >> 3),
             ((v6 & 0x07) << 5) | (v7 & 0x1f)]
  {
  }

  /** The inner loop: eight characters become values unless one is not ASCII. */
  method ReadBlock(t: seq<byte>) returns (input: Option<seq<byte>>)
    requires |t| == 8
    ensures input == if AllAscii(t) then Some(Values(t)) else None
  {
    var values, index := [], 0;
    while index < 8
      invariant 0 <= index <= 8 && values == Values(t[..index]) && AllAscii(t[..index])
    {
      if t[index] >= ASCII_VALUE_MAX {
        return None;
      }
      values := values + [CharValue(t[index])];
      index := index + 1;
    }
    assert t[..8] == t;
    input := Some(values);
  }

  /**
   `base32_decode_impl`: all five bytes of a block are written one after the other into the
   temporary buffer, and the padding only lowers the size kept. The check against the length of
   that buffer never fails.
   */
  /** What has been decoded up to a position, and how much of it counts. */
  ghost predicate Decoding(t: seq<byte>, at: nat, bytes: seq<byte>, kept: nat) {
    && at <= |t| && |t| % 8 == 0 && at % 8 == 0
    && |bytes| == at / 8 * 5 && kept <= |bytes|
    && Joined(bytes, kept, DecodeBlocks(t[at..])) == DecodeBlocks(t)
  }

  lemma DecodingStarts(t: seq<byte>)
    requires |t| % 8 == 0
    ensures Decoding(t, 0, [], 0)
  {
    hide DecodeBlocks;
    assert t[0..] == t;
    var blocks := DecodeBlocks(t);
    assert blocks.Some? ==> [] + blocks.value.0 == blocks.value.0;
  }

  lemma DecodingRound(t: seq<byte>, at: nat, bytes: seq<byte>, kept: nat)
    requires Decoding(t, at, bytes, kept) && at < |t|
    ensures at + 8 <= |t| && |bytes| + 5 <= |t| * 5 / 8 && kept <= |bytes|
    ensures var block := t[at..at + 8];
            if AllAscii(block)
            then Decoding(t, at + 8, bytes + BlockBytes(Values(block)), kept + Kept(Values(block)))
            else DecodeBlocks(t).None?
  {
    hide DecodeBlocks, Values, BlockBytes, Kept, AllAscii;
    DecodeFrom(t, at, bytes, kept);
  }

  lemma DecodingDone(t: seq<byte>, bytes: seq<byte>, kept: nat)
    requires Decoding(t, |t|, bytes, kept)
    ensures kept <= |bytes| && DecodeBlocks(t) == Some((bytes, kept))
  {
    assert t[|t|..] == [];
    assert DecodeBlocks([]) == Some(([], 0));
    hide DecodeBlocks;
    assert bytes + [] == bytes;
  }

  /** One round of the loop: how many of the five bytes count. */
  method DecodeBlock(block: seq<byte>, temp: array<byte>, dest: nat, destSize: nat) returns (kept: Option<nat>)
    requires |block| == 8 && dest + 5 <= temp.Length && destSize <= dest
    modifies temp
    ensures kept == if AllAscii(block) then Some(Kept(Values(block))) else None
    ensures kept.Some? ==> temp[..dest + 5] == old(temp[..dest]) + BlockBytes(Values(block))
  {
    hide Values, BlockBytes, Kept, AllAscii;
    var input := ReadBlock(block);
    if input.None? {
      return None;
    } else if destSize + 5 > temp.Length {
      assert false;
      return None;
    }
    var bytes := UnpackBlock(input.value);
    PutBytes(temp, dest, bytes);
    kept := Some(Kept(input.value));
  }

  method DecodeImpl(source: seq<byte>) returns (result: Option<seq<byte>>)
    ensures result == Decode(source)
  {
    hide DecodeBlocks, Values, BlockBytes, Kept, AllAscii, Decoding;
    if |source| % 8 != 0 {
      return None;
    }
    var allocationLen := |source| * 5 / 8;
    var temp := new byte[allocationLen];
    var at, dest, destSize := 0, 0, 0;
    DecodingStarts(source);
    while at < |source|
      invariant 0 <= at <= |source| && 0 <= destSize && 0 <= dest <= allocationLen == temp.Length
      invariant Decoding(source, at, temp[..dest], destSize)
    {
      DecodingRound(source, at, temp[..dest], destSize);
      var kept := DecodeBlock(source[at..at + 8], temp, dest, destSize);
      if kept.None? {
        return None;
      }
      dest, destSize, at := dest + 5, destSize + kept.value, at + 8;
    }
    DecodingDone(source, temp[..dest], destSize);
    assert temp[..destSize] == temp[..dest][..destSize];
    result := Some(temp[..destSize]);
  }

  /** Bytes written before, and how many of them are kept, put in front of what further blocks give. */
  function Joined(bytes: seq<byte>, kept: nat, rest: Option<(seq<byte>, nat)>): Option<(seq<byte>, nat)> {
    if rest.None? then None else Some((bytes + rest.value.0, kept + rest.value.1))
  }

  lemma DecodeFrom(t: seq<byte>, pos: nat, bytes: seq<byte>, kept: nat)
    requires pos + 8 <= |t| && (|t| - pos) % 8 == 0
    ensures var block := t[pos..pos + 8];
            Joined(bytes, kept, DecodeBlocks(t[pos..])) ==
            if AllAscii(block)
            then Joined(bytes + BlockBytes(Values(block)), kept + Kept(Values(block)), DecodeBlocks(t[pos + 8..]))
            else None
  {
    hide Values, BlockBytes, Kept, AllAscii;
    assert t[pos..][..8] == t[pos..pos + 8];
    assert t[pos..][8..] == t[pos + 8..];
    var rest := DecodeBlocks(t[pos + 8..]);
    if rest.Some? {
      var b := BlockBytes(Values(t[pos..pos + 8]));
      assert bytes + (b + rest.value.0) == bytes + b + rest.value.0;
    }
  }

  method PutBytes(temp: array<byte>, dest: nat, bytes: seq<byte>)
    requires |bytes| == 5 && dest + 5 <= temp.Length
    modifies temp
    ensures temp[..dest + 5] == old(temp[..dest]) + bytes
  {
    temp[dest], temp[dest + 1], temp[dest + 2] := bytes[0], bytes[1], bytes[2];
    temp[dest + 3], temp[dest + 4] := bytes[3], bytes[4];
  }
}
