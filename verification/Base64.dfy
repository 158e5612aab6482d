/** Base64 of base64.c (section 4 of RFC 4648). Bytes and characters are both 8-bit vectors. */
module Base64 {
  import opened Options
  import Alphabets

  type byte = bv8

  // The characters the code compares with or adds to.
  const UPPER_A: byte := 65
  const UPPER_Z: byte := 90
  const LOWER_A: byte := 97
  const LOWER_Z: byte := 122
  const DIGIT_0: byte := 48
  const DIGIT_9: byte := 57
  const PLUS: byte := 43
  const SLASH: byte := 47
  const PAD: byte := 61

  // ----- the alphabet -----

  function Base64Char(val: byte): byte {
    if val < 26 then UPPER_A + val
    else if val < 52 then LOWER_A + (val - 26)
    else if val < 62 then DIGIT_0 + (val - 52)
    else if val == 62 then PLUS
    else SLASH
  }

  function SplitInt(v: bv32, bytePos: byte): byte
    requires bytePos < 4
  {
    ((v >> (bytePos << 3)) & 0xFF) as byte
  }

  function JoinChars(a: byte, b: byte, c: byte, d: byte): bv32 {
    (a as bv32) + ((b as bv32) << 8) + ((c as bv32) << 16) + ((d as bv32) << 24)
  }

  /** The packed table for the last character of a two-byte block: "AEIM", "QUYc", "gkos", "w048". */
  function Base64B16(val: byte): byte
    requires val < 16
  {
    var word :=
      if val >> 2 == 0 then JoinChars(65, 69, 73, 77)
      else if val >> 2 == 1 then JoinChars(81, 85, 89, 99)
      else if val >> 2 == 2 then JoinChars(103, 107, 111, 115)
      else JoinChars(119, 48, 52, 56);
    SplitInt(word, val & 3)
  }

  /** The packed table for the last character of a one-byte block: "AQgw". */
  function Base64B8(val: byte): byte
    requires val < 4
  {
    SplitInt(JoinChars(65, 81, 103, 119), val)
  }

  /** The packed tables hold the characters of the value with zero bits appended. */
  lemma PackedTablesAgree(val: byte)
    ensures val < 16 ==> Base64B16(val) == Base64Char(val << 2)
    ensures val < 4 ==> Base64B8(val) == Base64Char(val << 4)
  {
    if val < 4 {
      assert val == 0 || val == 1 || val == 2 || val == 3;
    }
  }

  predicate IsBase64(c: byte) {
    UPPER_A <= c <= UPPER_Z || LOWER_A <= c <= LOWER_Z || DIGIT_0 <= c <= DIGIT_9 || c == PLUS || c == SLASH
  }

  /** The value a character stands for, 0 when it stands for none. */
  function ToValue(c: byte): byte {
    if UPPER_A <= c <= UPPER_Z then c - UPPER_A
    else if LOWER_A <= c <= LOWER_Z then UPPER_Z - UPPER_A + 1 + (c - LOWER_A)
    else if DIGIT_0 <= c <= DIGIT_9 then UPPER_Z - UPPER_A + 1 + (LOWER_Z - LOWER_A) + 1 + (c - DIGIT_0)
    else if c == PLUS then 62
    else if c == SLASH then 63
    else 0
  }

  /** The alphabet is a bijection between the six-bit values and the 64 characters. */
  lemma AlphabetBijective(val: byte, c: byte)
    ensures val < 64 ==> IsBase64(Base64Char(val)) && ToValue(Base64Char(val)) == val
    ensures IsBase64(c) ==> ToValue(c) < 64 && Base64Char(ToValue(c)) == c
  {
  }

  /** The characters are those of table 1 of RFC 4648, in its order, and the padding is its. */
  lemma AlphabetOfStandard(val: byte)
    requires val < 64
    ensures |Alphabets.BASE64| == 64 && Base64Char(val) as int == Alphabets.BASE64[val as int] as int
    ensures PAD as int == '=' as int
  {
    Alphabets.Base64At(val as int);
    CharacterCode(val);
  }

  lemma CharacterCode(val: byte)
    requires val < 64
    ensures Base64Char(val) as int ==
            if val < 26 then 65 + val as int
            else if val < 52 then 97 + (val as int - 26)
            else if val < 62 then 48 + (val as int - 52)
            else if val == 62 then 43
            else 47
  {
  }

  // ----- blocks -----

  function Encode3(b0: byte, b1: byte, b2: byte): (r: seq<byte>)
    ensures |r| == 4
  {
    [Base64Char(b0 >> 2), Base64Char(((b0 & 3) << 4) | (b1 >> 4)),
     Base64Char(((b1 & 0x0F) << 2) | ((b2 >> 6) & 3)), Base64Char(b2 & 0x3F)]
  }

  function Encode2(b0: byte, b1: byte): (r: seq<byte>)
    ensures |r| == 4
  {
    [Base64Char(b0 >> 2), Base64Char(((b0 & 3) << 4) | (b1 >> 4)), Base64B16(b1 & 0x0F), PAD]
  }

  function Encode1(b0: byte): (r: seq<byte>)
    ensures |r| == 4
  {
    [Base64Char(b0 >> 2), Base64B8(b0 & 3), PAD, PAD]
  }

  function Decode4(c1: byte, c2: byte, c3: byte, c4: byte): (r: seq<byte>)
    ensures |r| == 3
  {
    Decode3(c1, c2, c3) + [((ToValue(c3) & 3) << 6) | ToValue(c4)]
  }

  function Decode3(c1: byte, c2: byte, c3: byte): (r: seq<byte>)
    ensures |r| == 2
  {
    Decode2(c1, c2) + [((ToValue(c2) & 0x0F) << 4) | (ToValue(c3) >> 2)]
  }

  function Decode2(c1: byte, c2: byte): (r: seq<byte>)
    ensures |r| == 1
  {
    [(ToValue(c1) << 2) | (ToValue(c2) >> 4)]
  }

  /** The four characters of a block are the six-bit digits of its 24 bits, high ones first. */
  lemma BlockBits(b0: byte, b1: byte, b2: byte)
    ensures var c := Encode3(b0, b1, b2);
            ((b0 as bv24) << 16) | ((b1 as bv24) << 8) | (b2 as bv24) ==
            ((ToValue(c[0]) as bv24) << 18) | ((ToValue(c[1]) as bv24) << 12) |
            ((ToValue(c[2]) as bv24) << 6) | (ToValue(c[3]) as bv24)
  {
    hide Base64Char, ToValue;
    BlockValues(b0, b1, b2);
  }

  lemma BlockValues(b0: byte, b1: byte, b2: byte)
    ensures var c := Encode3(b0, b1, b2);
            && ToValue(c[0]) == b0 >> 2 && ToValue(c[1]) == ((b0 & 3) << 4) | (b1 >> 4)
            && ToValue(c[2]) == ((b1 & 0x0F) << 2) | ((b2 >> 6) & 3) && ToValue(c[3]) == b2 & 0x3F
            && IsBase64(c[0]) && IsBase64(c[1]) && IsBase64(c[2]) && IsBase64(c[3])
  {
    hide Base64Char, ToValue, IsBase64;
    var v0, v1 := b0 >> 2, ((b0 & 3) << 4) | (b1 >> 4);
    var v2, v3 := ((b1 & 0x0F) << 2) | ((b2 >> 6) & 3), b2 & 0x3F;
    assert v0 < 64 && v1 < 64 && v2 < 64 && v3 < 64;
    AlphabetBijective(v0, 0);
    AlphabetBijective(v1, 0);
    AlphabetBijective(v2, 0);
    AlphabetBijective(v3, 0);
  }

  lemma Block3ReadBack(b0: byte, b1: byte, b2: byte)
    ensures var c := Encode3(b0, b1, b2); Decode4(c[0], c[1], c[2], c[3]) == [b0, b1, b2]
  {
    hide Base64Char, ToValue, IsBase64;
    BlockValues(b0, b1, b2);
  }

  /** A short block is the full block of the same bytes and zeros, cut off. */
  lemma ShortBlocks(b0: byte, b1: byte)
    ensures Encode2(b0, b1) == Encode3(b0, b1, 0)[..3] + [PAD]
    ensures Encode1(b0) == Encode3(b0, 0, 0)[..2] + [PAD, PAD]
  {
    hide Base64Char, Base64B16, Base64B8;
    PackedTablesAgree(b1 & 0x0F);
    PackedTablesAgree(b0 & 3);
    assert b1 & 0x0F < 16 && b0 & 3 < 4;
  }

  // ----- whole texts -----

  function Encode(s: seq<byte>): (t: seq<byte>)
    ensures |t| == (|s| + 2) / 3 * 4
  {
    if |s| >= 3 then Encode3(s[0], s[1], s[2]) + Encode(s[3..])
    else if |s| == 2 then Encode2(s[0], s[1])
    else if |s| == 1 then Encode1(s[0])
    else []
  }

  /** `numberOfBase64Characters`. */
  function Leading(t: seq<byte>): (n: nat)
    ensures n <= |t|
    ensures forall k :: 0 <= k < n ==> IsBase64(t[k])
    ensures n < |t| ==> !IsBase64(t[n])
  {
    if t != [] && IsBase64(t[0]) then 1 + Leading(t[1..]) else 0
  }

  /** How many bytes come of n characters. */
  function DecodedCount(n: nat): nat {
    n / 4 * 3 + (if n % 4 == 2 then 1 else if n % 4 == 3 then 2 else 0)
  }

  function DecodeChars(t: seq<byte>): (s: seq<byte>)
    ensures |s| == DecodedCount(|t|)
  {
    if |t| >= 4 then Decode4(t[0], t[1], t[2], t[3]) + DecodeChars(t[4..])
    else if |t| == 3 then Decode3(t[0], t[1], t[2])
    else if |t| == 2 then Decode2(t[0], t[1])
    else []
  }

  function Decode(t: seq<byte>): seq<byte> {
    DecodeChars(t[..Leading(t)])
  }

  /** The padding `Base64decode_len` sees. */
  function Padding(t: seq<byte>): nat
    requires |t| % 4 == 0
  {
    if t != [] && t[|t| - 1] == PAD then if t[|t| - 2] == PAD then 2 else 1 else 0
  }

  /** `Base64decode_len`. */
  function DecodedLength(t: seq<byte>): nat
    requires |t| % 4 == 0
  {
    |t| / 4 * 3 - Padding(t)
  }

  // ----- decoding what was encoded -----

  lemma LeadingOf(a: seq<byte>, b: seq<byte>)
    requires forall k :: 0 <= k < |a| ==> IsBase64(a[k])
    ensures Leading(a + b) == |a| + Leading(b)
  {
    if a == [] {
      assert a + b == b;
    } else {
      assert (a + b)[1..] == a[1..] + b;
      LeadingOf(a[1..], b);
    }
  }

  lemma DecodeBlock(c: seq<byte>, t: seq<byte>)
    requires |c| == 4 && forall k :: 0 <= k < 4 ==> IsBase64(c[k])
    ensures Decode(c + t) == Decode4(c[0], c[1], c[2], c[3]) + Decode(t)
  {
    hide IsBase64, Decode4;
    LeadingOf(c, t);
    var run := (c + t)[..4 + Leading(t)];
    assert run == c + t[..Leading(t)];
    assert run[4..] == t[..Leading(t)];
  }

  lemma Block2ReadBack(b0: byte, b1: byte)
    ensures Decode(Encode2(b0, b1)) == [b0, b1]
  {
    hide Base64Char, ToValue, IsBase64, Encode2, Leading;
    var c := Encode3(b0, b1, 0);
    BlockValues(b0, b1, 0);
    ShortBlocks(b0, b1);
    LeadingOf(c[..3], [PAD]);
    assert Leading([PAD]) == 0 by {
      PadEnds([PAD]);
    }
    assert Encode2(b0, b1)[..3] == c[..3];
  }

  lemma Block1ReadBack(b0: byte)
    ensures Decode(Encode1(b0)) == [b0]
  {
    hide Base64Char, ToValue, IsBase64, Encode1, Leading;
    var c := Encode3(b0, 0, 0);
    BlockValues(b0, 0, 0);
    ShortBlocks(b0, 0);
    LeadingOf(c[..2], [PAD, PAD]);
    assert Leading([PAD, PAD]) == 0 by {
      PadEnds([PAD, PAD]);
    }
    assert Encode1(b0)[..2] == c[..2];
  }

  lemma PadEnds(t: seq<byte>)
    requires t != [] && t[0] == PAD
    ensures Leading(t) == 0
  {
  }

  /** Decoding the encoding of any bytes gives them back. */
  lemma {:induction false} DecodeEncode(s: seq<byte>)
    ensures Decode(Encode(s)) == s
  {
    hide Decode, Encode3, Encode2, Encode1, Decode4, IsBase64;
    if |s| >= 3 {
      BlockValues(s[0], s[1], s[2]);
      Block3ReadBack(s[0], s[1], s[2]);
      DecodeBlock(Encode3(s[0], s[1], s[2]), Encode(s[3..]));
      DecodeEncode(s[3..]);
    } else if |s| == 2 {
      Block2ReadBack(s[0], s[1]);
    } else if |s| == 1 {
      Block1ReadBack(s[0]);
    } else {
      assert Decode([]) == [] by {
        DecodeNothing();
      }
    }
  }

  lemma DecodeNothing()
    ensures Decode([]) == []
  {
  }

  // ----- the size of the output buffer -----

  /**
   On every text of valid length the decoder writes at most as many bytes as the length function
   says, and exactly as many precisely when nothing but base64 characters precedes the padding.
   */
  lemma WritesWithinLength(t: seq<byte>)
    requires |t| % 4 == 0
    ensures |Decode(t)| <= DecodedLength(t)
    ensures |Decode(t)| == DecodedLength(t) <==> forall k :: 0 <= k < |t| - Padding(t) ==> IsBase64(t[k])
  {
    var n, k := Leading(t), |t| / 4;
    assert n <= |t| - Padding(t);
    CountIncreases(n, |t| - Padding(t));
    assert DecodedCount(|t| - Padding(t)) == DecodedLength(t);
    if n < |t| - Padding(t) {
      assert !IsBase64(t[n]);
    }
  }

  lemma CountIncreases(n: nat, m: nat)
    requires n <= m
    ensures DecodedCount(n) <= DecodedCount(m)
    ensures n < m && m % 4 != 1 ==> DecodedCount(n) < DecodedCount(m)
  {
  }

  /** So the decoder fills its buffer exactly when it is given what the encoder produced. */
  lemma EncodedFillsBuffer(s: seq<byte>)
    ensures DecodedLength(Encode(s)) == |Decode(Encode(s))| == |s|
  {
    hide Encode, Decode, IsBase64, Leading, DecodedLength, Padding;
    DecodeEncode(s);
    EncodedCharacters(s);
    WritesWithinLength(Encode(s));
  }

  /** Only characters of the alphabet come before the padding. */
  ghost predicate CharactersFirst(t: seq<byte>)
    requires |t| % 4 == 0
  {
    forall k :: 0 <= k < |t| && k < |t| - Padding(t) ==> IsBase64(t[k])
  }

  lemma {:induction false} EncodedCharacters(s: seq<byte>)
    ensures CharactersFirst(Encode(s))
  {
    hide IsBase64, Encode3, Encode2, Encode1, CharactersFirst;
    if |s| >= 3 {
      EncodedCharacters(s[3..]);
      BlockValues(s[0], s[1], s[2]);
      BlockInFront(Encode3(s[0], s[1], s[2]), Encode(s[3..]));
    } else if |s| == 2 {
      BlockValues(s[0], s[1], 0);
      ShortBlocks(s[0], s[1]);
      LastBlock(Encode3(s[0], s[1], 0), Encode2(s[0], s[1]));
    } else if |s| == 1 {
      BlockValues(s[0], 0, 0);
      ShortBlocks(s[0], 0);
      LastBlock(Encode3(s[0], 0, 0), Encode1(s[0]));
    } else {
      assert CharactersFirst([]) by {
        NoCharacters();
      }
    }
  }

  lemma NoCharacters()
    ensures CharactersFirst([])
  {
  }

  lemma BlockInFront(c: seq<byte>, t: seq<byte>)
    requires |c| == 4 && |t| % 4 == 0 && CharactersFirst(t)
    requires IsBase64(c[0]) && IsBase64(c[1]) && IsBase64(c[2]) && IsBase64(c[3])
    ensures CharactersFirst(c + t)
  {
    hide IsBase64;
    NotPad(c[3]);
    assert forall k :: 0 <= k < |t| ==> (c + t)[4 + k] == t[k];
  }

  lemma LastBlock(c: seq<byte>, t: seq<byte>)
    requires |c| == 4 && IsBase64(c[0]) && IsBase64(c[1]) && IsBase64(c[2])
    requires t == c[..3] + [PAD] || t == c[..2] + [PAD, PAD]
    ensures CharactersFirst(t)
  {
    hide IsBase64;
    NotPad(c[2]);
  }

  lemma NotPad(c: byte)
    requires IsBase64(c)
    ensures c != PAD
  {
  }

  // ----- the loops -----

  lemma EncodeFrom(s: seq<byte>, pos: nat)
    requires pos <= |s|
    ensures |s| - pos >= 3 ==> Encode(s[pos..]) == Encode3(s[pos], s[pos + 1], s[pos + 2]) + Encode(s[pos + 3..])
    ensures |s| - pos == 2 ==> Encode(s[pos..]) == Encode2(s[pos], s[pos + 1])
    ensures |s| - pos == 1 ==> Encode(s[pos..]) == Encode1(s[pos])
    ensures |s| == pos ==> Encode(s[pos..]) == []
  {
    hide Encode3, Encode2, Encode1;
    if |s| - pos >= 3 {
      assert s[pos..][3..] == s[pos + 3..];
    }
  }

  function NeededSize(size: nat): (n: nat)
    ensures n == (size + 2) / 3 * 4 + 1
  {
    (if size == 0 then 0 else ((size - 1) / 3 + 1) * 4) + 1
  }

  /** `Base64_Encode_Internal`: four characters at a time into a buffer sized beforehand. */
  method EncodeInternal(source: array<byte>) returns (encoded: array<byte>)
    ensures fresh(encoded) && encoded.Length == (source.Length + 2) / 3 * 4 + 1
    ensures encoded[..encoded.Length - 1] == Encode(source[..]) && encoded[encoded.Length - 1] == 0
  {
    hide NeededSize, Encode, Encode3, Encode2, Encode1;
    var size := source.Length;
    encoded := new byte[NeededSize(size)];
    ghost var s := source[..];
    assert s[0..] == s;
    var pos, dest := 0, 0;
    while size - pos >= 3
      invariant 0 <= pos <= size == |s| && s == source[..]
      invariant 0 <= dest && dest + |Encode(s[pos..])| + 1 == encoded.Length
      invariant encoded[..dest] + Encode(s[pos..]) == Encode(s)
    {
      EncodeFrom(s, pos);
      PutBlock(encoded, dest, Encode3(source[pos], source[pos + 1], source[pos + 2]));
      pos := pos + 3;
      dest := dest + 4;
    }
    EncodeFrom(s, pos);
    if size - pos == 2 {
      PutBlock(encoded, dest, Encode2(source[pos], source[pos + 1]));
      dest := dest + 4;
    } else if size - pos == 1 {
      PutBlock(encoded, dest, Encode1(source[pos]));
      dest := dest + 4;
    }
    encoded[dest] := 0;
  }

  method PutBlock(encoded: array<byte>, dest: nat, block: seq<byte>)
    requires |block| == 4 && dest + 4 <= encoded.Length
    modifies encoded
    ensures encoded[..dest + 4] == old(encoded[..dest]) + block
    ensures encoded[dest + 4..] == old(encoded[dest + 4..])
  {
    encoded[dest] := block[0];
    encoded[dest + 1] := block[1];
    encoded[dest + 2] := block[2];
    encoded[dest + 3] := block[3];
  }

  method CountCharacters(t: seq<byte>) returns (length: nat)
    ensures length == Leading(t)
  {
    length := 0;
    while length < |t| && IsBase64(t[length])
      invariant length <= |t| && Leading(t) == length + Leading(t[length..])
    {
      assert t[length..][1..] == t[length + 1..];
      length := length + 1;
    }
  }

  lemma DecodeFrom(run: seq<byte>, first: nat)
    requires first <= |run|
    ensures |run| - first >= 4 ==>
              DecodeChars(run[first..]) ==
              Decode4(run[first], run[first + 1], run[first + 2], run[first + 3]) + DecodeChars(run[first + 4..])
    ensures |run| - first == 3 ==> DecodeChars(run[first..]) == Decode3(run[first], run[first + 1], run[first + 2])
    ensures |run| - first == 2 ==> DecodeChars(run[first..]) == Decode2(run[first], run[first + 1])
    ensures |run| - first < 2 ==> DecodeChars(run[first..]) == []
  {
    hide Decode4, Decode3, Decode2;
    if |run| - first >= 4 {
      assert run[first..][4..] == run[first + 4..];
    }
  }

  /** `Base64decode` into a buffer that has room; what it does not write keeps its contents. */
  method DecodeInto(decoded: array<byte>, t: seq<byte>)
    requires |Decode(t)| <= decoded.Length
    modifies decoded
    ensures decoded[..|Decode(t)|] == Decode(t)
    ensures decoded[|Decode(t)|..] == old(decoded[|Decode(t)|..])
  {
    hide DecodeChars, Leading, DecodedCount;
    var remaining := CountCharacters(t);
    DecodeRun(decoded, t[..remaining]);
  }

  method DecodeRun(decoded: array<byte>, t: seq<byte>)
    requires |DecodeChars(t)| <= decoded.Length
    modifies decoded
    ensures decoded[..|DecodeChars(t)|] == DecodeChars(t)
    ensures decoded[|DecodeChars(t)|..] == old(decoded[|DecodeChars(t)|..])
  {
    hide DecodeChars, DecodedCount, Decode4, Decode3, Decode2;
    var first, dest, remaining := 0, 0, |t|;
    assert t[0..] == t;
    while remaining >= 4
      invariant 0 <= first <= |t| && first + remaining == |t|
      invariant 0 <= dest && dest + |DecodeChars(t[first..])| == |DecodeChars(t)|
      invariant decoded[..dest] + DecodeChars(t[first..]) == DecodeChars(t)
      invariant decoded[|DecodeChars(t)|..] == old(decoded[|DecodeChars(t)|..])
    {
      DecodeFrom(t, first);
      PutBytes(decoded, dest, Decode4(t[first], t[first + 1], t[first + 2], t[first + 3]));
      remaining, first, dest := remaining - 4, first + 4, dest + 3;
    }
    DecodeFrom(t, first);
    if remaining == 2 {
      PutBytes(decoded, dest, Decode2(t[first], t[first + 1]));
    } else if remaining == 3 {
      PutBytes(decoded, dest, Decode3(t[first], t[first + 1], t[first + 2]));
    }
  }

  method PutBytes(decoded: array<byte>, dest: nat, bytes: seq<byte>)
    requires 1 <= |bytes| <= 3 && dest + |bytes| <= decoded.Length
    modifies decoded
    ensures decoded[..dest + |bytes|] == old(decoded[..dest]) + bytes
    ensures decoded[dest + |bytes|..] == old(decoded[dest + |bytes|..])
  {
    decoded[dest] := bytes[0];
    if |bytes| >= 2 {
      decoded[dest + 1] := bytes[1];
    }
    if |bytes| >= 3 {
      decoded[dest + 2] := bytes[2];
    }
  }

  /** `Base64_Decoder`, on a NULL or NUL-terminated source; a new buffer holds arbitrary bytes. */
  method Decoder(source: Option<seq<byte>>) returns (buffer: Option<array<byte>>)
    ensures buffer.Some? <==> source.Some? && |source.value| % 4 == 0
    ensures buffer.Some? ==>
              && fresh(buffer.value) && buffer.value.Length == DecodedLength(source.value)
              && Decode(source.value) <= buffer.value[..]
  {
    if source.None? || |source.value| % 4 != 0 {
      return None;
    }
    WritesWithinLength(source.value);
    var bytes := new byte[DecodedLength(source.value)];
    if bytes.Length > 0 {
      DecodeInto(bytes, source.value);
    }
    buffer := Some(bytes);
  }
}
