/**
 String literals of parson.c: finding the closing quote, undoing escapes, and writing a literal.
 */
module JsonStrings {
  import opened Options
  import opened CString

  // ----- skip_quotes -----

  /** From just after the opening quote to just after the closing one. */
  function SkipBody(t: string): (r: Option<string>)
    ensures r.Some? ==> |r.value| < |t| && r.value == t[|t| - |r.value|..] && t[|t| - |r.value| - 1] == '"'
    decreases |t|
  {
    if Head(t) == '"' then Some(t[1..])
    else if Head(t) == NUL then None
    else if Head(t) == '\\' then
      if At(t, 1) == NUL then None else SkipBody(t[2..])
    else SkipBody(t[1..])
  }

  function SkipQuotes(t: string): (r: Option<string>)
    ensures r.Some? ==> |r.value| + 2 <= |t| && r.value == t[|t| - |r.value|..]
  {
    if Head(t) != '"' then None else SkipBody(t[1..])
  }

  // ----- parse_utf16 -----

  function ParseHex4(t: string): (r: Option<nat>)
    ensures r.Some? ==> r.value < 0x1_0000 && |t| >= 4
    ensures r.Some? <==> forall k :: 0 <= k < 4 ==> IntOfHexDigit(At(t, k)) != -1
  {
    if At(t, 0) == NUL || At(t, 1) == NUL || At(t, 2) == NUL || At(t, 3) == NUL then
      assert IntOfHexDigit(NUL) == -1;
      None
    else
      var x1, x2 := IntOfHexDigit(At(t, 0)), IntOfHexDigit(At(t, 1));
      var x3, x4 := IntOfHexDigit(At(t, 2)), IntOfHexDigit(At(t, 3));
      if x1 == -1 || x2 == -1 || x3 == -1 || x4 == -1 then None
      else Some(x1 * 0x1000 + x2 * 0x100 + x3 * 0x10 + x4)
  }

  /** The six bits of a code point from position log2(shift) on. */
  function Six(cp: nat, shift: nat): (d: nat)
    requires shift > 0
    ensures d < 0x40
  {
    cp / shift % 0x40
  }

  /** Six bits as a continuation byte. */
  function Cont(d: nat): char
    requires d < 0x40
  {
    (0x80 + d) as char
  }

  /**
   The input starts at the `u` of an escape. The result holds the bytes emitted and the text after
   the last hexadecimal digit read.
   */
  function ParseUtf16(t: string): (r: Option<(string, string)>)
    requires |t| >= 1
    ensures r.Some? ==> |r.value.1| < |t| && r.value.1 == t[|t| - |r.value.1|..]
    ensures r.Some? ==> 1 <= |r.value.0| < |t| - |r.value.1|
  {
    match ParseHex4(t[1..])
    case None => None
    case Some(cp) =>
      if cp < 0x80 then
        Some(([cp as char], t[5..]))
      else if cp < 0x800 then
        Some(([(0xC0 + cp / 0x40 % 0x20) as char, Cont(Six(cp, 1))], t[5..]))
      else if cp < 0xD800 || cp > 0xDFFF then
        Some(([(0xE0 + cp / 0x1000 % 0x10) as char, Cont(Six(cp, 0x40)), Cont(Six(cp, 1))], t[5..]))
      else if cp <= 0xDBFF then
        if At(t, 5) != '\\' || At(t, 6) != 'u' then None
        else
          match ParseHex4(t[7..])
          case None => None
          case Some(trail) =>
            if trail < 0xDC00 || trail > 0xDFFF then None
            else
              var full := (cp - 0xD800) % 0x400 * 0x400 + (trail - 0xDC00) % 0x400 + 0x1_0000;
              Some(([(0xF0 + full / 0x4_0000 % 0x08) as char,
                     Cont(Six(full, 0x1000)), Cont(Six(full, 0x40)), Cont(Six(full, 1))], t[11..]))
      else None
  }

  // ----- process_string -----

  function SimpleEscape(c: char): Option<char> {
    match c
    case '"' => Some('"')
    case '\\' => Some('\\')
    case '/' => Some('/')
    case 'b' => Some(8 as char)
    case 'f' => Some(12 as char)
    case 'n' => Some('\n')
    case 'r' => Some('\r')
    case 't' => Some('\t')
    case _ => None
  }

  function Prepend(out: string, r: Option<(string, string)>): Option<(string, string)> {
    match r
    case None => None
    case Some((more, rest)) => Some((out + more, rest))
  }

  /**
   One round of the loop: the bytes it emits and the text after those it reads. The head of the
   text is not the terminator.
   */
  function ProcessOne(t: string): (r: Option<(string, string)>)
    requires Head(t) != NUL
    ensures r.Some? ==> |r.value.1| < |t| && r.value.1 == t[|t| - |r.value.1|..]
    ensures r.Some? ==> 1 <= |r.value.0| <= |t| - |r.value.1|
  {
    if Head(t) == '\\' then
      if SimpleEscape(At(t, 1)).Some? then Some(([SimpleEscape(At(t, 1)).value], t[2..]))
      else if At(t, 1) == 'u' then ParseUtf16(t[1..])
      else None
    else if Head(t) < ' ' then None
    else Some(([t[0]], t[1..]))
  }

  /** The whole loop with `n` characters left to read: the bytes emitted and where it stops. */
  function Process(t: string, n: int): (r: Option<(string, string)>)
    decreases |t|
  {
    if Head(t) == NUL || n <= 0 then Some(("", t))
    else
      match ProcessOne(t)
      case None => None
      case Some((out, rest)) => Prepend(out, Process(rest, n - (|t| - |rest|)))
  }

  /** get_quoted_string: the C string that the literal at the head of `t` denotes, and the text after it. */
  function QuotedString(t: string): (r: Option<(string, string)>)
    ensures r.Some? ==> |r.value.1| + 2 <= |t| && r.value.1 == t[|t| - |r.value.1|..]
    ensures r.Some? ==> NulFree(r.value.0)
  {
    match SkipQuotes(t)
    case None => None
    case Some(rest) =>
      match Process(t[1..], |t| - |rest| - 2)
      case None => None
      case Some((out, _)) => Some((UpToNul(out), rest))
  }

  // ----- json_serialize_string -----

  function EscapeChar(c: char): (r: string)
    ensures 1 <= |r| <= 6 && NulFree(r)
  {
    match c
    case '"' => "\\\""
    case '\\' => "\\\\"
    case '/' => "\\/"
    case '\n' => "\\n"
    case '\r' => "\\r"
    case '\t' => "\\t"
    case _ =>
      if c == 8 as char then "\\b"
      else if c == 12 as char then "\\f"
      else if c < ' ' then "\\u00" + [HexDigit(c as int / 16), HexDigit(c as int % 16)]
      else [c]
  }

  function Escaped(s: string): (r: string)
    ensures NulFree(r)
  {
    if s == "" then "" else EscapeChar(s[0]) + Escaped(s[1..])
  }

  function LiteralText(s: string): string {
    "\"" + Escaped(s) + "\""
  }

  // ----- the literal read is exactly the literal found -----

  /** One round of process_string stays inside a literal and reads what skip_quotes skipped. */
  lemma ProcessOneStaysInside(t: string)
    requires SkipBody(t).Some? && Head(t) != '"' && ProcessOne(t).Some?
    ensures SkipBody(ProcessOne(t).value.1) == SkipBody(t)
  {
    var rest := ProcessOne(t).value.1;
    if Head(t) == '\\' && SimpleEscape(At(t, 1)).None? {
      assert At(t, 1) == 'u';
      var u := t[2..];
      assert SkipBody(t) == SkipBody(u);
      assert t[1..][1..] == u;
      HexSkipped(u);
      if rest != t[6..] {
        assert t[1..][5] == '\\' && t[1..][6] == 'u';
        assert u[4..] == t[6..] && t[6] == '\\' && t[7] == 'u';
        assert SkipBody(t[6..]) == SkipBody(t[8..]);
        assert t[1..][7..] == t[8..];
        HexSkipped(t[8..]);
        assert rest == t[12..] == t[8..][4..];
      }
    }
  }

  /** Four hexadecimal digits hold neither a quote nor a backslash. */
  lemma HexSkipped(t: string)
    requires ParseHex4(t).Some?
    ensures SkipBody(t) == SkipBody(t[4..])
  {
    forall k | 0 <= k < 4
      ensures t[k] != '"' && t[k] != '\\' && t[k] != NUL
    {
      assert IntOfHexDigit(At(t, k)) != -1;
    }
    assert SkipBody(t) == SkipBody(t[1..]);
    assert SkipBody(t[1..]) == SkipBody(t[2..]);
    assert SkipBody(t[2..]) == SkipBody(t[3..]);
    assert SkipBody(t[3..]) == SkipBody(t[4..]);
  }

  /**
   Whenever skip_quotes finds the end of a literal, process_string on the text between the quotes
   fails or stops exactly on the closing quote, having emitted at most as many bytes as it read.
   */
  lemma {:induction false} ProcessStopsOnClosingQuote(t: string)
    requires SkipBody(t).Some?
    ensures var n := |t| - |SkipBody(t).value| - 1;
            var r := Process(t, n);
            r.None? || (r.value.1 == t[n..] && Head(r.value.1) == '"' && |r.value.0| <= n)
    decreases |t|
  {
    hide *;
    var n := |t| - |SkipBody(t).value| - 1;
    InsideLiteral(t);
    if Head(t) == '"' {
      ProcessEnds(t, n);
    } else {
      ProcessRound(t, n);
      if ProcessOne(t).Some? {
        var (out, rest) := ProcessOne(t).value;
        ProcessOneStaysInside(t);
        ProcessStopsOnClosingQuote(rest);
        SameEnd(t, rest, n);
      }
    }
  }

  lemma InsideLiteral(t: string)
    requires SkipBody(t).Some?
    ensures Head(t) != NUL
    ensures Head(t) == '"' <==> |t| == |SkipBody(t).value| + 1
  {
  }

  lemma ProcessEnds(t: string, n: int)
    requires n <= 0
    ensures Process(t, n) == Some(("", t)) && t[0..] == t
  {
  }

  lemma ProcessRound(t: string, n: int)
    requires Head(t) != NUL && n > 0
    ensures Process(t, n) ==
            if ProcessOne(t).None? then None
            else
              var (out, rest) := ProcessOne(t).value;
              var more := Process(rest, n - (|t| - |rest|));
              if more.None? then None else Some((out + more.value.0, more.value.1))
  {
    hide ProcessOne;
  }

  /** The same end, counted from both. */
  lemma SameEnd(t: string, rest: string, n: nat)
    requires |rest| <= |t| && rest == t[|t| - |rest|..] && |t| - |rest| <= n <= |t|
    ensures rest[n - (|t| - |rest|)..] == t[n..]
  {
  }

  // ----- reading back what json_serialize_string writes -----

  /** The three forms: the character itself, a letter after a backslash, or two hexadecimal digits. */
  lemma EscapeForms(c: char)
    requires c != NUL
    ensures var e := EscapeChar(c);
            || (e == [c] && c >= ' ' && c != '"' && c != '\\')
            || (|e| == 2 && e[0] == '\\' && SimpleEscape(e[1]) == Some(c) && e[1] != NUL)
            || (c < ' ' && e == "\\u00" + [HexDigit(c as int / 16), HexDigit(c as int % 16)])
  {
    hide HexDigit;
  }

  lemma EscapeCharReadBack(c: char, post: string)
    requires c != NUL
    ensures Head(EscapeChar(c) + post) != NUL
    ensures Head(EscapeChar(c) + post) != '"'
    ensures ProcessOne(EscapeChar(c) + post) == Some(([c], post))
    ensures SkipBody(EscapeChar(c) + post) == SkipBody(post)
  {
    hide *;
    EscapeForms(c);
    var e := EscapeChar(c);
    if e == [c] {
      PlainReadBack(c, post);
    } else if |e| == 2 {
      assert e == ['\\', e[1]];
      LetterReadBack(e[1], c, post);
    } else {
      ControlReadBack(c as int / 16, c as int % 16, post);
    }
  }

  lemma PlainReadBack(c: char, post: string)
    requires c >= ' ' && c != '"' && c != '\\'
    ensures var t := [c] + post;
            && Head(t) == c && c != NUL
            && ProcessOne(t) == Some(([c], post)) && SkipBody(t) == SkipBody(post)
  {
    assert ([c] + post)[1..] == post;
  }

  lemma LetterReadBack(letter: char, c: char, post: string)
    requires SimpleEscape(letter) == Some(c) && letter != NUL
    ensures var t := ['\\', letter] + post;
            && Head(t) == '\\' && '\\' != NUL
            && ProcessOne(t) == Some(([c], post)) && SkipBody(t) == SkipBody(post)
  {
    assert (['\\', letter] + post)[2..] == post;
    hide SimpleEscape;
  }

  /** A control character, spelled by its two hexadecimal digits. */
  lemma ControlReadBack(hi: nat, lo: nat, post: string)
    requires hi < 2 && lo < 16
    ensures var t := "\\u00" + [HexDigit(hi), HexDigit(lo)] + post;
            && Head(t) == '\\' && '\\' != NUL
            && ProcessOne(t) == Some(([(hi * 16 + lo) as char], post)) && SkipBody(t) == SkipBody(post)
  {
    var t := "\\u00" + [HexDigit(hi), HexDigit(lo)] + post;
    var u := "00" + [HexDigit(hi), HexDigit(lo)] + post;
    assert t[1..][1..] == t[2..] == u;
    assert t[1..][5..] == u[4..] == post;
    DigitsRead(hi, lo, post);
    HexSkipped(u);
    EscapeSkipped(t);
    assert ParseUtf16(t[1..]) == Some(([(hi * 16 + lo) as char], post)) by {
      hide SkipBody, ParseHex4;
    }
  }

  lemma EscapeSkipped(t: string)
    requires |t| >= 2 && t[0] == '\\' && t[1] == 'u'
    ensures SkipBody(t) == SkipBody(t[2..])
    ensures ProcessOne(t) == ParseUtf16(t[1..])
  {
    hide ParseUtf16;
  }

  lemma DigitsRead(hi: nat, lo: nat, post: string)
    requires hi < 2 && lo < 16
    ensures ParseHex4("00" + [HexDigit(hi), HexDigit(lo)] + post) == Some(hi * 16 + lo)
  {
    assert IntOfHexDigit(HexDigit(hi)) == hi && IntOfHexDigit(HexDigit(lo)) == lo;
  }

  /** On the text json_serialize_string writes, both scanners recover any NUL-free string. */
  lemma {:induction false} EscapedReadBack(s: string, post: string)
    requires NulFree(s)
    ensures SkipBody(Escaped(s) + "\"" + post) == Some(post)
    ensures Process(Escaped(s) + "\"" + post, |Escaped(s)|) == Some((s, "\"" + post))
  {
    hide *;
    var t := Escaped(s) + "\"" + post;
    EscapedStep(s);
    if s == "" {
      assert t == "\"" + post;
      QuoteCloses(post);
    } else {
      var tail := Escaped(s[1..]) + "\"" + post;
      assert t == EscapeChar(s[0]) + tail;
      NulFreeStep(s);
      EscapeCharReadBack(s[0], tail);
      EscapedReadBack(s[1..], post);
      ProcessRound(t, |Escaped(s)|);
      assert s == [s[0]] + s[1..];
    }
  }

  lemma EscapedStep(s: string)
    ensures Escaped(s) == if s == "" then "" else EscapeChar(s[0]) + Escaped(s[1..])
  {
  }

  lemma NulFreeStep(s: string)
    requires NulFree(s) && s != ""
    ensures s[0] != NUL && NulFree(s[1..])
  {
  }

  lemma QuoteCloses(post: string)
    ensures SkipBody("\"" + post) == Some(post)
    ensures Process("\"" + post, 0) == Some(("", "\"" + post))
  {
    assert ("\"" + post)[1..] == post;
  }

  lemma QuotedUnfolded(t: string, rest: string, out: string, end: string)
    requires t != "" && t[0] == '"' && SkipBody(t[1..]) == Some(rest)
    requires Process(t[1..], |t| - |rest| - 2) == Some((out, end)) && NulFree(out)
    ensures QuotedString(t) == Some((out, rest))
  {
    hide Process, SkipBody;
  }

  lemma LiteralReadBack(s: string, post: string)
    requires NulFree(s)
    ensures QuotedString(LiteralText(s) + post) == Some((s, post))
  {
    hide Escaped, QuotedString, Process, SkipBody, NulFree;
    var t := LiteralText(s) + post;
    assert t[1..] == Escaped(s) + "\"" + post;
    EscapedReadBack(s, post);
    QuotedUnfolded(t, post, s, "\"" + post);
  }

  // ----- the loops; a cursor is the text from the pointer on -----

  /** skip_quotes: moves a cursor from the opening quote past the closing one. */
  method SkipQuotesLoop(start: string) returns (ok: bool, cursor: string)
    ensures ok == SkipQuotes(start).Some?
    ensures ok ==> cursor == SkipQuotes(start).value
  {
    cursor := start;
    if Head(cursor) != '"' {
      return false, cursor;
    }
    cursor := cursor[1..];
    while Head(cursor) != '"'
      invariant SkipBody(cursor) == SkipQuotes(start)
      decreases |cursor|
    {
      if Head(cursor) == NUL {
        return false, cursor;
      } else if Head(cursor) == '\\' {
        if At(cursor, 1) == NUL {
          return false, cursor;
        }
        cursor := cursor[2..];
      } else {
        cursor := cursor[1..];
      }
    }
    cursor := cursor[1..];
    ok := true;
  }

  /** process_string's invariant: `out` is what the input up to the cursor denotes. */
  ghost predicate Scanned(input: string, len: nat, cursor: string, out: string) {
    && |cursor| <= |input|
    && |out| <= |input| - |cursor| <= len
    && SkipBody(cursor).Some? && |SkipBody(cursor).value| == |input| - len - 1
    && Process(input, len) == Prepend(out, Process(cursor, len - (|input| - |cursor|)))
  }

  lemma ScanStarts(input: string, len: nat)
    requires SkipBody(input).Some? && |SkipBody(input).value| == |input| - len - 1
    ensures Scanned(input, len, input, "")
  {
    var r := Process(input, len);
    assert r.Some? ==> "" + r.value.0 == r.value.0;
  }

  /** Inside the loop the cursor is before the closing quote, and a round keeps it there. */
  lemma ScanRound(input: string, len: nat, cursor: string, out: string)
    requires Scanned(input, len, cursor, out)
    requires Head(cursor) != NUL && |input| - |cursor| < len
    ensures ProcessOne(cursor).None? ==> Process(input, len).None?
    ensures ProcessOne(cursor).Some? ==>
              var (bytes, rest) := ProcessOne(cursor).value;
              |out| + |bytes| <= len && Scanned(input, len, rest, out + bytes)
  {
    hide ProcessOne, SkipBody, Process, Head;
    InsideLiteral(cursor);
    ProcessRound(cursor, len - (|input| - |cursor|));
    if ProcessOne(cursor).Some? {
      var (bytes, rest) := ProcessOne(cursor).value;
      ProcessOneStaysInside(cursor);
      var r := Process(rest, len - (|input| - |rest|));
      assert r.Some? ==> out + (bytes + r.value.0) == out + bytes + r.value.0;
    }
  }

  lemma ScanDone(input: string, len: nat, cursor: string, out: string)
    requires Scanned(input, len, cursor, out)
    requires Head(cursor) == NUL || |input| - |cursor| >= len
    ensures Process(input, len) == Some((out, cursor))
  {
    assert Process(cursor, len - (|input| - |cursor|)) == Some(("", cursor));
    assert out + "" == out;
  }

  /**
   process_string on the first `len` characters of `input`, which skip_quotes has found to end at
   a closing quote. The output buffer has room for `len` bytes and the terminator, and every write
   stays within it.
   */
  method ProcessString(input: string, len: nat) returns (result: Option<string>)
    requires SkipBody(input).Some? && |SkipBody(input).value| == |input| - len - 1
    ensures result == match Process(input, len)
                      case None => None
                      case Some((out, _)) => Some(UpToNul(out))
  {
    hide Scanned, SkipBody, Process, UpToNul;
    var output := new char[len + 1];
    var o, cursor := 0, input;
    ScanStarts(input, len);
    while Head(cursor) != NUL && |input| - |cursor| < len
      invariant |cursor| <= |input| && 0 <= o <= len
      invariant Scanned(input, len, cursor, output[..o])
      decreases |cursor|
    {
      ScanRound(input, len, cursor, output[..o]);
      var step := ReadOne(cursor);
      if step.None? {
        return None;
      }
      var (bytes, rest) := step.value;
      ghost var was := output[..o];
      forall k | 0 <= k < |bytes| {
        output[o + k] := bytes[k];
      }
      assert output[..o + |bytes|] == was + bytes;
      o, cursor := o + |bytes|, rest;
    }
    output[o] := NUL;
    ScanDone(input, len, cursor, output[..o]);
    result := Some(UpToNul(output[..o]));
  }

  /** The body of process_string's loop: the bytes to emit and the cursor after it. */
  method ReadOne(cursor: string) returns (step: Option<(string, string)>)
    requires Head(cursor) != NUL
    ensures step == ProcessOne(cursor)
  {
    if cursor[0] == '\\' {
      var simple := SimpleEscape(At(cursor, 1));
      if simple.Some? {
        step := Some(([simple.value], cursor[2..]));
      } else if At(cursor, 1) == 'u' {
        step := ParseUtf16(cursor[1..]);
      } else {
        step := None;
      }
    } else if cursor[0] < ' ' {
      step := None;
    } else {
      step := Some(([cursor[0]], cursor[1..]));
    }
  }

  /** get_quoted_string: measures the literal with skip_quotes, then reads it. */
  method GetQuotedString(start: string) returns (result: Option<(string, string)>)
    ensures result == QuotedString(start)
  {
    var ok, cursor := SkipQuotesLoop(start);
    if !ok {
      return None;
    }
    var stringLen := |start| - |cursor| - 2;
    var processed := ProcessString(start[1..], stringLen);
    if processed.None? {
      return None;
    }
    result := Some((processed.value, cursor));
  }
}
