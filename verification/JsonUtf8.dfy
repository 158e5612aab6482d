/** Parsing well-formed UTF-8 text of whole trees. */
module JsonUtf8 {
  import opened Options
  import opened CString
  import opened JsonStrings
  import opened JsonTree
  import opened JsonParser
  import I = JsonIntegers
  import N = Strtoull
  import U = Utf8

  /** Every string and every name in the tree is well-formed UTF-8. */
  ghost predicate AllUtf8(v: Json) {
    match v
    case String(s) => U.WellFormed(s)
    case Array(items) => forall i :: 0 <= i < |items| ==> AllUtf8(items[i])
    case Object(ms) => forall i :: 0 <= i < |ms| ==> U.WellFormed(ms[i].name) && AllUtf8(ms[i].value)
    case _ => true
  }

  /** `strtod` takes ASCII characters only. */
  ghost predicate AsciiNumbers(io: NumberIO) {
    forall t: string, k: nat :: io.scan(t).Some? && k < io.scan(t).value.1 && k < |t| ==> t[k] as int < 0x80
  }

  // ----- cutting valid text at ASCII characters -----

  lemma {:induction false} ValidUpToAscii(s: string, k: nat)
    requires U.IsValid(s) && k < |s| && s[k] as int < 0x80
    ensures U.IsValid(s[..k]) && U.IsValid(s[k..])
    decreases k
  {
    hide U.VerifySequence, U.IsValid;
    if k == 0 {
      assert s[..0] == "" && s[0..] == s;
      NothingIsValid();
    } else {
      var len := U.VerifySequence(s);
      SequenceEndsBefore(s, k);
      U.SequenceSplits(s);
      assert s[len..][k - len] == s[k];
      ValidUpToAscii(s[len..], k - len);
      U.ValidConcat(s[..len], s[len..][..k - len]);
      assert s[..len] + s[len..][..k - len] == s[..k];
      assert s[len..][k - len..] == s[k..];
    }
  }

  lemma NothingIsValid()
    ensures U.IsValid("")
  {
  }

  lemma SequenceEndsBefore(s: string, k: nat)
    requires U.IsValid(s) && 0 < k < |s| && s[k] as int < 0x80
    ensures 0 < U.VerifySequence(s) <= k
  {
    hide U.VerifySequence;
    U.SequenceSplits(s);
    if s[0] as int < 0x80 {
      U.AsciiIsSequence(s);
    } else if k < U.VerifySequence(s) {
      U.SequenceBytesHigh(s, k);
    }
  }

  lemma DropAscii(t: string)
    requires U.IsValid(t) && t != "" && t[0] as int < 0x80
    ensures U.IsValid(t[1..])
  {
    U.ValidAfterAscii(t, 1);
  }

  lemma {:induction false} SpacesKeepUtf8(t: string)
    requires U.IsValid(t)
    ensures U.IsValid(SkipSpaces(t))
    decreases |t|
  {
    hide U.IsValid;
    if IsSpace(Head(t)) {
      DropAscii(t);
      SpacesKeepUtf8(t[1..]);
    }
  }

  // ----- the parsing functions -----

  /** The literal at the head: the string is well formed, and so is the text after it. */
  lemma QuotedUtf8(t: string)
    requires U.IsValid(t) && QuotedString(t).Some?
    ensures U.WellFormed(QuotedString(t).value.0) && U.IsValid(QuotedString(t).value.1)
  {
    hide U.IsValid, U.WellFormed, Process, SkipBody, QuotedString;
    var rest := QuotedString(t).value.1;
    QuotedParts(t);
    var body := t[1..];
    var n := |body| - |rest| - 1;
    DropAscii(t);
    ProcessStopsOnClosingQuote(body);
    HeadAt(body, n);
    ValidUpToAscii(body, n);
    assert t[1..|t| - |rest| - 1] == body[..n];
    U.IsValidIffWellFormed(body[..n]);
    U.QuotedStringKeepsUtf8(t);
    DropAscii(body[n..]);
    assert body[n..][1..] == rest;
  }

  lemma QuotedParts(t: string)
    requires QuotedString(t).Some?
    ensures t != "" && t[0] == '"'
    ensures var body, rest := t[1..], QuotedString(t).value.1;
            && SkipBody(body) == Some(rest) && |rest| < |body| && rest == body[|body| - |rest|..]
            && Process(body, |body| - |rest| - 1).Some?
  {
    hide Process, SkipBody;
  }

  lemma HeadAt(t: string, n: nat)
    requires n < |t| && Head(t[n..]) == '"'
    ensures t[n] == '"'
  {
  }

  lemma ScalarUtf8(io: NumberIO, t: string)
    requires U.IsValid(t) && AsciiNumbers(io) && ParseScalar(io, t).Some?
    ensures AllUtf8(ParseScalar(io, t).value.0) && U.IsValid(ParseScalar(io, t).value.1)
  {
    hide U.IsValid, U.WellFormed, QuotedString, IsDecimal;
    var c := Head(t);
    if c == '"' {
      QuotedUtf8(t);
    } else if StartsNumber(c) {
      NumberUtf8(io, t);
    } else {
      WordUtf8(t);
    }
  }

  lemma NumberUtf8(io: NumberIO, t: string)
    requires U.IsValid(t) && AsciiNumbers(io) && ParseNumber(io, t).Some?
    ensures U.IsValid(ParseNumber(io, t).value.1)
  {
    hide U.IsValid, IsDecimal;
    var len := io.scan(t).value.1;
    U.ValidAfterAscii(t, len);
  }

  lemma WordUtf8(t: string)
    requires U.IsValid(t)
    ensures "true" <= t ==> U.IsValid(t[4..])
    ensures "false" <= t ==> U.IsValid(t[5..])
    ensures "null" <= t ==> U.IsValid(t[4..])
  {
    hide U.IsValid;
    if "true" <= t {
      AsciiPrefix(t, "true");
    }
    if "false" <= t {
      AsciiPrefix(t, "false");
    }
    if "null" <= t {
      AsciiPrefix(t, "null");
    }
  }

  lemma AsciiPrefix(t: string, word: string)
    requires U.IsValid(t) && word <= t && forall k :: 0 <= k < |word| ==> word[k] as int < 0x80
    ensures U.IsValid(t[|word|..])
  {
    hide U.IsValid;
    assert forall k :: 0 <= k < |word| ==> t[k] == word[k];
    U.ValidAfterAscii(t, |word|);
  }

  lemma {:induction false} ValueUtf8(io: NumberIO, t: string, nesting: nat)
    requires U.IsValid(t) && AsciiNumbers(io) && ParseValue(io, t, nesting).Some?
    ensures AllUtf8(ParseValue(io, t, nesting).value.0) && U.IsValid(ParseValue(io, t, nesting).value.1)
    decreases |t|, 2
  {
    hide U.IsValid, SkipSpaces, ParseScalar, ParseArray, ParseObject, AsciiNumbers, AllUtf8;
    SpacesKeepUtf8(t);
    var u := SkipSpaces(t);
    if Head(u) == '{' {
      ObjectUtf8(io, u, nesting + 1);
    } else if Head(u) == '[' {
      ArrayUtf8(io, u, nesting + 1);
    } else {
      ScalarUtf8(io, u);
    }
  }

  lemma InsideUtf8(t: string)
    requires U.IsValid(t) && (Head(t) == '[' || Head(t) == '{')
    ensures |t| >= 1 && U.IsValid(SkipSpaces(t[1..])) && |SkipSpaces(t[1..])| < |t|
  {
    hide U.IsValid, SkipSpaces;
    DropAscii(t);
    SpacesKeepUtf8(t[1..]);
  }

  lemma DropBracket(t: string)
    requires U.IsValid(t) && (Head(t) == ']' || Head(t) == '}')
    ensures t != "" && U.IsValid(t[1..])
  {
    hide U.IsValid;
    DropAscii(t);
  }

  lemma {:induction false} ArrayUtf8(io: NumberIO, t: string, nesting: nat)
    requires U.IsValid(t) && AsciiNumbers(io) && Head(t) == '[' && ParseArray(io, t, nesting).Some?
    ensures AllUtf8(ParseArray(io, t, nesting).value.0) && U.IsValid(ParseArray(io, t, nesting).value.1)
    decreases |t|, 1
  {
    hide U.IsValid, SkipSpaces, ParseItems, AsciiNumbers, Head;
    InsideUtf8(t);
    var u := SkipSpaces(t[1..]);
    if Head(u) == ']' {
      DropBracket(u);
    } else {
      ItemsUtf8(io, u, nesting, []);
    }
  }

  lemma {:induction false} ObjectUtf8(io: NumberIO, t: string, nesting: nat)
    requires U.IsValid(t) && AsciiNumbers(io) && Head(t) == '{' && ParseObject(io, t, nesting).Some?
    ensures AllUtf8(ParseObject(io, t, nesting).value.0) && U.IsValid(ParseObject(io, t, nesting).value.1)
    decreases |t|, 1
  {
    hide U.IsValid, SkipSpaces, ParseMembers, AsciiNumbers, Head;
    InsideUtf8(t);
    var u := SkipSpaces(t[1..]);
    if Head(u) == '}' {
      DropBracket(u);
    } else {
      MembersUtf8(io, u, nesting, []);
    }
  }

  lemma {:induction false} ItemsUtf8(io: NumberIO, t: string, nesting: nat, items: seq<Json>)
    requires U.IsValid(t) && AsciiNumbers(io) && ParseItems(io, t, nesting, items).Some?
    requires AllUtf8(Array(items))
    ensures AllUtf8(ParseItems(io, t, nesting, items).value.0) && U.IsValid(ParseItems(io, t, nesting, items).value.1)
    decreases |t|, 3
  {
    hide U.IsValid, SkipSpaces, ParseValue, AsciiNumbers, FinishArray;
    if Head(t) == NUL {
      ArrayEndUtf8(t, items);
    } else {
      ValueUtf8(io, t, nesting);
      var (v, t1) := ParseValue(io, t, nesting).value;
      SpacesKeepUtf8(t1);
      var t2 := SkipSpaces(t1);
      if Head(t2) == ',' {
        DropAscii(t2);
        SpacesKeepUtf8(t2[1..]);
        ItemsUtf8(io, SkipSpaces(t2[1..]), nesting, items + [v]);
      } else {
        ArrayEndUtf8(t2, items + [v]);
      }
    }
  }

  lemma ArrayEndUtf8(t: string, items: seq<Json>)
    requires U.IsValid(t)
    ensures FinishArray(t, items).Some? ==>
              FinishArray(t, items).value.0 == Array(items) && U.IsValid(FinishArray(t, items).value.1)
  {
    hide U.IsValid, SkipSpaces;
    SpacesKeepUtf8(t);
    if FinishArray(t, items).Some? {
      DropAscii(SkipSpaces(t));
    }
  }

  lemma {:induction false} MembersUtf8(io: NumberIO, t: string, nesting: nat, ms: seq<Member>)
    requires U.IsValid(t) && AsciiNumbers(io) && ParseMembers(io, t, nesting, ms).Some?
    requires AllUtf8(Object(ms))
    ensures AllUtf8(ParseMembers(io, t, nesting, ms).value.0) && U.IsValid(ParseMembers(io, t, nesting, ms).value.1)
    decreases |t|, 3
  {
    hide *;
    MembersStep(io, t, nesting, ms);
    if Head(t) == NUL {
      ObjectEndUtf8(t, ms);
    } else {
      KeyUtf8(t);
      var (key, t1) := KeyAt(t).value;
      ValueUtf8(io, t1, nesting);
      var (v, t2) := ParseValue(io, t1, nesting).value;
      MemberUtf8(ms, key, v);
      SpacesKeepUtf8(t2);
      var t3 := SkipSpaces(t2);
      if Head(t3) == ',' {
        DropComma(t3);
        SpacesKeepUtf8(t3[1..]);
        MembersUtf8(io, SkipSpaces(t3[1..]), nesting, ms + [Member(key, v)]);
      } else {
        ObjectEndUtf8(t3, ms + [Member(key, v)]);
      }
    }
  }

  lemma DropComma(t: string)
    requires U.IsValid(t) && Head(t) == ','
    ensures t != "" && U.IsValid(t[1..])
  {
    hide U.IsValid;
    DropAscii(t);
  }

  lemma KeyUtf8(t: string)
    requires U.IsValid(t) && KeyAt(t).Some?
    ensures U.WellFormed(KeyAt(t).value.0) && U.IsValid(KeyAt(t).value.1)
  {
    hide U.IsValid, U.WellFormed, QuotedString, SkipSpaces;
    QuotedUtf8(t);
    var t1 := QuotedString(t).value.1;
    SpacesKeepUtf8(t1);
    DropAscii(SkipSpaces(t1));
  }

  lemma MemberUtf8(ms: seq<Member>, key: string, v: Json)
    requires AllUtf8(Object(ms)) && U.WellFormed(key) && AllUtf8(v)
    ensures AllUtf8(Object(ms + [Member(key, v)]))
  {
    hide U.WellFormed;
  }

  lemma ObjectEndUtf8(t: string, ms: seq<Member>)
    requires U.IsValid(t)
    ensures FinishObject(t, ms).Some? ==>
              FinishObject(t, ms).value.0 == Object(ms) && U.IsValid(FinishObject(t, ms).value.1)
  {
    hide U.IsValid, SkipSpaces;
    SpacesKeepUtf8(t);
    if FinishObject(t, ms).Some? {
      DropAscii(SkipSpaces(t));
    }
  }

  lemma AfterByteOrderMark(t: string)
    requires U.IsValid(t) && BYTE_ORDER_MARK <= t
    ensures U.IsValid(t[3..])
  {
    assert t[0] as int == 0xEF;
  }

  /**
   json_parse_string on well-formed UTF-8 text yields a tree in which every name and every string
   is well-formed UTF-8.
   */
  lemma TextUtf8(io: NumberIO, t: string)
    requires U.WellFormed(t) && AsciiNumbers(io) && ParseText(io, t).Some?
    ensures AllUtf8(ParseText(io, t).value)
  {
    hide U.WellFormed, U.IsValid, ParseValue, AsciiNumbers, AllUtf8;
    U.IsValidIffWellFormed(t);
    if BYTE_ORDER_MARK <= t {
      AfterByteOrderMark(t);
      ValueUtf8(io, t[3..], 0);
    } else {
      ValueUtf8(io, t, 0);
    }
  }

  /** The conversions for integers take ASCII characters only. */
  lemma IntegersAreAscii()
    ensures AsciiNumbers(I.INTEGERS)
  {
    forall t: string, k: nat | k < I.ScanInteger(t).value.1 && k < |t|
      ensures t[k] as int < 0x80
    {
      var negative := Head(t) == '-';
      var text := if negative then t[1..] else t;
      var run := N.DigitRun(text, 10);
      if !(negative && k == 0) {
        var j := if negative then k - 1 else k;
        assert run[j] == text[j] && N.IsDigit(run[j], 10);
      }
    }
  }
}
