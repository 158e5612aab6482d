/**
 The tunnel through an HTTP proxy of http_proxy_io.c: the six states of opening, CONNECT and
 closing, and the buffer in which the answer to CONNECT is put together from its fragments.
 Bytes are characters. The underlying IO is the environment: its callbacks and what its functions
 return are the steps of a run.
 */
module HttpProxyIo {
  import opened Options
  import opened CString
  import opened Strtoull

  // ----- the end of the header -----

  const HEADER_END := "\r\n\r\n"

  /** Where the text after the first empty line starts, as `strstr` finds it in a C string. */
  function FindEnd(t: string): (r: Option<nat>)
    ensures r.Some? ==> 4 <= r.value <= |t|
  {
    if |t| < 4 then None
    else if t[..4] == HEADER_END then Some(4)
    else
      var r := FindEnd(t[1..]);
      if r.None? then None else Some(r.value + 1)
  }

  /** The same in a buffer, of which only what precedes its first NUL is seen. */
  function HeaderEnd(buffer: string): (r: Option<nat>)
    ensures r.Some? ==> 4 <= r.value <= |buffer|
  {
    FindEnd(UpToNul(buffer))
  }

  lemma {:induction false} FindEndFinds(t: string)
    requires FindEnd(t).Some?
    ensures var h := FindEnd(t).value; t[h - 4..h] == HEADER_END
  {
    FindEndStep(t);
    hide *;
    if t[..4] != HEADER_END {
      FindEndFinds(t[1..]);
      var h := FindEnd(t).value;
      assert t[1..][h - 5..h - 1] == t[h - 4..h];
    }
  }

  lemma FindEndStep(t: string)
    requires FindEnd(t).Some?
    ensures |t| >= 4
    ensures if t[..4] == HEADER_END then FindEnd(t) == Some(4)
            else FindEnd(t[1..]).Some? && FindEnd(t).value == FindEnd(t[1..]).value + 1
  {
  }

  lemma HeaderEndFinds(buffer: string)
    requires HeaderEnd(buffer).Some?
    ensures var h := HeaderEnd(buffer).value; buffer[h - 4..h] == HEADER_END && EndsHeader(buffer[..h])
  {
    hide FindEnd, UpToNul;
    FindEndFinds(UpToNul(buffer));
    var h := HeaderEnd(buffer).value;
    assert buffer[h - 4..h] == UpToNul(buffer)[h - 4..h];
    assert buffer[..h][h - 4..] == buffer[h - 4..h];
  }

  lemma {:induction false} FindEndIsFirst(t: string, k: nat)
    requires 4 <= k <= |t| && t[k - 4..k] == HEADER_END
    ensures FindEnd(t).Some? && FindEnd(t).value <= k
  {
    if t[..4] != HEADER_END {
      assert t[1..][k - 5..k - 1] == t[k - 4..k];
      FindEndIsFirst(t[1..], k - 1);
    }
  }

  lemma {:induction false} FindEndIn(a: string, b: string)
    ensures FindEnd(a).Some? ==> FindEnd(a + b) == FindEnd(a)
    ensures FindEnd(a + b).Some? && FindEnd(a + b).value <= |a| ==> FindEnd(a) == FindEnd(a + b)
  {
    if |a| >= 4 {
      assert (a + b)[..4] == a[..4];
      if a[..4] != HEADER_END {
        assert (a + b)[1..] == a[1..] + b;
        FindEndIn(a[1..], b);
      }
    }
  }

  lemma {:induction false} UpToNulSplit(a: string, b: string)
    ensures UpToNul(a + b) == if NulFree(a) then a + UpToNul(b) else UpToNul(a)
  {
    if a == "" {
      assert a + b == b;
    } else {
      assert (a + b)[1..] == a[1..] + b;
      assert NulFree(a) <==> a[0] != NUL && NulFree(a[1..]);
      UpToNulSplit(a[1..], b);
    }
  }

  /** More bytes never move the end of a header, and a header without an end ends in later bytes. */
  lemma HeaderEndGrows(a: string, b: string)
    ensures HeaderEnd(a).Some? ==> HeaderEnd(a + b) == HeaderEnd(a)
    ensures HeaderEnd(a + b).Some? && HeaderEnd(a + b).value <= |a| ==> HeaderEnd(a) == HeaderEnd(a + b)
  {
    UpToNulSplit(a, b);
    FindEndIn(a, UpToNul(b));
  }

  lemma HeaderNulFree(t: string)
    requires HeaderEnd(t).Some?
    ensures var h := HeaderEnd(t).value;
            NulFree(t[..h]) && UpToNul(t) == t[..h] + UpToNul(t[h..])
  {
    hide UpToNul, FindEnd;
    var h := HeaderEnd(t).value;
    assert t[..h] == UpToNul(t)[..h];
    assert t == t[..h] + t[h..];
    UpToNulSplit(t[..h], t[h..]);
  }

  // ----- the status code -----

  const LONG_MAX: int := 0x7FFF_FFFF_FFFF_FFFF

  /** A long converted to a 32-bit int. */
  function ToInt(v: int): int {
    (v + 0x8000_0000) % 0x1_0000_0000 - 0x8000_0000
  }

  /** `strtol` with base 0 on 64-bit longs: None when there is nothing to convert. */
  function Strtol(t: string): Option<int> {
    SignedValue(SkipSpaces(t))
  }

  function SignedValue(signed: string): Option<int> {
    var (text, radix) := StandardPrefix(SkipSign(signed), 0);
    var digits := DigitRun(text, radix);
    if digits == "" then None
    else
      var magnitude: int := Positional(digits, radix);
      if Head(signed) == '-' then Some(if magnitude > LONG_MAX + 1 then -LONG_MAX - 1 else -magnitude)
      else Some(if magnitude > LONG_MAX then LONG_MAX else magnitude)
  }

  /** From the first occurrence of a character on. */
  function SkipTo(t: string, c: char): (r: Option<string>)
    ensures r.Some? ==> |r.value| <= |t| && r.value == t[|t| - |r.value|..]
    ensures r.Some? && c != NUL ==> Head(r.value) == c
  {
    if Head(t) == c then Some(t)
    else if Head(t) == NUL then None
    else SkipTo(t[1..], c)
  }

  predicate IsHttp(t: string) {
    |t| >= 5 && t[..5] == "HTTP/"
  }

  /** What follows the version: the text from the space before the status code on. */
  function StatusText(t: string): Option<string> {
    if !IsHttp(t) then None
    else
      var dot := SkipTo(t[5..], '.');
      if dot.None? then None else SkipTo(dot.value, ' ')
  }

  /**
   `ParseHttpResponse`. The failure the code reports for the two extreme values of int, depending
   on an earlier errno, is not told apart from returning them: neither is a successful status.
   */
  function Status(t: string): Option<int> {
    var text := StatusText(t);
    if text.None? then None
    else
      var value := Strtol(text.value);
      if value.None? then None else Some(ToInt(value.value))
  }

  predicate Successful(status: Option<int>) {
    status.Some? && 200 <= status.value <= 299
  }

  // ----- whether later bytes can change the verdict -----

  /** A header that leaves the status code to be found in the bytes after it. */
  predicate Undecided(header: string) {
    && IsHttp(header)
    && (StatusText(header).None? || SkipSpaces(StatusText(header).value) == "")
  }

  lemma {:induction false} SkipToIn(a: string, b: string, c: char)
    requires c != NUL && NulFree(a)
    ensures SkipTo(a, c).Some? ==> SkipTo(a + b, c) == Some(SkipTo(a, c).value + b)
    ensures SkipTo(a, c).None? ==> SkipTo(a + b, c) == SkipTo(b, c)
  {
    if a == "" {
      assert a + b == b;
    } else if a[0] != c {
      assert (a + b)[1..] == a[1..] + b;
      SkipToIn(a[1..], b, c);
    }
  }

  lemma {:induction false} SkipSpacesIn(a: string, b: string)
    ensures SkipSpaces(a) != "" ==> SkipSpaces(a + b) == SkipSpaces(a) + b
    ensures SkipSpaces(a) == "" ==> SkipSpaces(a + b) == SkipSpaces(b)
  {
    if a == "" {
      assert a + b == b;
    } else if IsSpace(a[0]) {
      assert (a + b)[1..] == a[1..] + b;
      SkipSpacesIn(a[1..], b);
    }
  }

  lemma {:induction false} DigitRunIn(a: string, b: string, radix: int)
    requires a != "" && a[|a| - 1] == '\n'
    ensures DigitRun(a + b, radix) == DigitRun(a, radix)
    decreases |a|
  {
    if IsDigit(Head(a), radix) {
      assert |a| > 1;
      assert (a + b)[1..] == a[1..] + b;
      DigitRunIn(a[1..], b, radix);
    }
  }

  predicate EndsHeader(t: string) {
    |t| >= 4 && t[|t| - 4..] == HEADER_END
  }

  lemma {:induction false} SkipSpacesKeepsEnd(t: string)
    requires EndsHeader(t)
    ensures SkipSpaces(t) == "" || EndsHeader(SkipSpaces(t))
  {
    if |t| > 4 && IsSpace(t[0]) {
      SkipSpacesKeepsEnd(t[1..]);
    } else if IsSpace(t[0]) {
      assert t == HEADER_END;
      AllSpaces();
    }
  }

  lemma AllSpaces()
    ensures SkipSpaces(HEADER_END) == ""
  {
    assert HEADER_END[1..] == "\n\r\n" && "\n\r\n"[1..] == "\r\n" && "\r\n"[1..] == "\n" && "\n"[1..] == "";
    assert SkipSpaces("\r\n") == SkipSpaces("\n") == SkipSpaces("");
  }

  /** A conversion that starts within the header is over at the line end at the latest. */
  lemma StrtolIn(a: string, b: string)
    requires EndsHeader(a) && SkipSpaces(a) != ""
    ensures Strtol(a + b) == Strtol(a)
  {
    hide SkipSpaces, SignedValue, EndsHeader;
    SkipSpacesIn(a, b);
    SkipSpacesKeepsEnd(a);
    SignedValueIn(SkipSpaces(a), b);
  }

  lemma SignedValueIn(signed: string, b: string)
    requires EndsHeader(signed)
    ensures SignedValue(signed + b) == SignedValue(signed)
  {
    hide DigitRun, Positional, StandardPrefix, SkipSign, EndsHeader, Head, IsDigit, DigitValue;
    var w := SkipSign(signed);
    SignKept(signed, b);
    PrefixIn(w, b);
    var (text, radix) := StandardPrefix(w, 0);
    DigitRunIn(text, b, radix);
  }

  lemma SignKept(w: string, b: string)
    requires EndsHeader(w)
    ensures EndsHeader(SkipSign(w)) && SkipSign(w + b) == SkipSign(w) + b && Head(w + b) == Head(w)
  {
    hide EndsHeader;
    NotEmpty(w);
    assert (w + b)[0] == w[0] && (w + b)[1..] == w[1..] + b;
    if IsSign(w[0]) {
      EndKept(w);
    }
  }

  lemma NotEmpty(w: string)
    requires EndsHeader(w)
    ensures |w| >= 4
  {
  }

  lemma EndKept(w: string)
    requires EndsHeader(w) && w[0] != '\r'
    ensures EndsHeader(w[1..])
  {
    assert w[|w| - 4] == w[|w| - 4..][0] == HEADER_END[0];
    assert w[1..][|w| - 5..] == w[|w| - 4..];
  }

  lemma PrefixIn(w: string, b: string)
    requires EndsHeader(w)
    ensures var (text, radix) := StandardPrefix(w, 0);
            && StandardPrefix(w + b, 0) == (text + b, radix)
            && text != "" && text[|text| - 1] == '\n'
  {
    hide IsDigit;
    if |w| == 4 {
      assert w == HEADER_END;
    }
    assert At(w + b, 0) == At(w, 0) && At(w + b, 1) == At(w, 1) && At(w + b, 2) == At(w, 2);
    assert (w + b)[2..] == w[2..] + b;
  }

  lemma StatusTextIn(header: string, b: string)
    requires EndsHeader(header) && NulFree(header)
    ensures IsHttp(header + b) <==> IsHttp(header)
    ensures StatusText(header).Some? ==>
              && EndsHeader(StatusText(header).value)
              && StatusText(header + b) == Some(StatusText(header).value + b)
    ensures IsHttp(header) && StatusText(header).None? ==>
              StatusText(header + b) ==
              var dot := SkipTo(header[5..], '.');
              if dot.Some? then SkipTo(b, ' ')
              else if SkipTo(b, '.').Some? then SkipTo(SkipTo(b, '.').value, ' ') else None
  {
    hide SkipTo, EndsHeader, IsHttp, NulFree, StatusText;
    HttpIn(header, b);
    StatusTextIs(header);
    StatusTextIs(header + b);
    if IsHttp(header) {
      var text := header[5..];
      NulFreeSuffix(header, text);
      SkipToIn(text, b, '.');
      var dot := SkipTo(text, '.');
      if dot.Some? {
        NulFreeSuffix(text, dot.value);
        SkipToIn(dot.value, b, ' ');
        var end := SkipTo(dot.value, ' ');
        if end.Some? {
          SuffixEndsHeader(header, end.value);
        }
      }
    }
  }

  lemma StatusTextIs(t: string)
    ensures if !IsHttp(t) then StatusText(t).None?
            else
              && |t| >= 5
              && var dot := SkipTo(t[5..], '.');
                 StatusText(t) == if dot.None? then None else SkipTo(dot.value, ' ')
  {
    hide SkipTo;
  }

  lemma NulFreeSuffix(t: string, suffix: string)
    requires NulFree(t) && |suffix| <= |t| && suffix == t[|t| - |suffix|..]
    ensures NulFree(suffix)
  {
  }

  lemma HttpIn(header: string, b: string)
    requires EndsHeader(header)
    ensures IsHttp(header + b) <==> IsHttp(header)
    ensures IsHttp(header) ==> |header| >= 5 && (header + b)[5..] == header[5..] + b
  {
    hide EndsHeader, IsHttp;
    StartsWithH(header + b);
    if |header| >= 5 {
      HttpPrefix(header, b);
    } else {
      ShortHeader(header);
      assert (header + b)[0] == header[0];
    }
  }

  lemma StartsWithH(t: string)
    ensures IsHttp(t) ==> |t| >= 5 && t[0] == 'H'
  {
    if IsHttp(t) {
      assert t[0] == t[..5][0];
    }
  }

  lemma HttpPrefix(header: string, b: string)
    requires |header| >= 5
    ensures IsHttp(header + b) <==> IsHttp(header)
    ensures (header + b)[5..] == header[5..] + b
  {
    assert (header + b)[..5] == header[..5];
  }

  lemma ShortHeader(header: string)
    requires EndsHeader(header)
    ensures |header| >= 4
    ensures |header| < 5 ==> header[0] == '\r' && !IsHttp(header)
  {
    if |header| == 4 {
      assert header[0] == HEADER_END[0];
    }
  }

  lemma SuffixEndsHeader(t: string, suffix: string)
    requires EndsHeader(t) && |suffix| <= |t| && suffix == t[|t| - |suffix|..] && Head(suffix) == ' '
    ensures EndsHeader(suffix)
  {
    var n := |t|;
    assert t[n - 1] == HEADER_END[3] && t[n - 2] == HEADER_END[2] && t[n - 3] == HEADER_END[1];
  }

  /**
   The verdict on a header is the same whatever follows it, exactly unless the header is undecided:
   then some continuation turns the refusal into acceptance.
   */
  lemma VerdictStableExactlyWhen(header: string)
    requires EndsHeader(header) && NulFree(header)
    ensures !Undecided(header) <==> forall b :: Successful(Status(header + b)) == Successful(Status(header))
  {
    if Undecided(header) {
      var b := UndecidedAccepts(header);
      assert Successful(Status(header + b)) != Successful(Status(header));
    } else {
      forall b
        ensures Successful(Status(header + b)) == Successful(Status(header))
      {
        VerdictStable(header, b);
      }
    }
  }

  lemma VerdictStable(header: string, b: string)
    requires EndsHeader(header) && NulFree(header) && !Undecided(header)
    ensures Status(header + b) == Status(header)
  {
    hide StatusText, Strtol, SkipSpaces, IsHttp, SkipTo, EndsHeader;
    StatusTextIn(header, b);
    if IsHttp(header) {
      StrtolIn(StatusText(header).value, b);
    } else {
      NotHttpStatus(header);
      NotHttpStatus(header + b);
    }
  }

  lemma NotHttpStatus(t: string)
    requires !IsHttp(t)
    ensures StatusText(t).None?
  {
  }

  lemma StrtolOfSpaces(t: string)
    requires SkipSpaces(t) == ""
    ensures Strtol(t).None?
  {
  }

  lemma Value200()
    ensures SignedValue("200") == Some(200) && ToInt(200) == 200
  {
    hide DigitRun, Positional;
    assert StandardPrefix("200", 0) == ("200", 10);
    Digits200();
  }

  lemma Digits200()
    ensures DigitRun("200", 10) == "200" && Positional("200", 10) == 200
  {
    assert "200"[1..] == "00" && "00"[1..] == "0" && "0"[1..] == "";
    assert "200"[..2] == "20" && "20"[..1] == "2" && "2"[..0] == "";
    assert Positional("2", 10) == 2;
    assert Positional("20", 10) == 20;
  }

  /** What is missing of the version and the space before the code, and a code, complete the header. */
  lemma UndecidedAccepts(header: string) returns (b: string)
    requires EndsHeader(header) && NulFree(header) && Undecided(header)
    ensures Status(header).None? && Status(header + b) == Some(200) && NulFree(b)
  {
    hide Strtol, SkipSpaces, StatusText, EndsHeader, SkipTo;
    if StatusText(header).Some? {
      b := "200";
    } else {
      b := if SkipTo(header[5..], '.').None? then ". 200" else " 200";
    }
    StatusTextIn(header, b);
    SkipToStatus();
    if StatusText(header).Some? {
      Space200(StatusText(header).value);
    } else {
      Space200(" ");
      assert " " + "200" == " 200";
    }
  }

  lemma SkipToStatus()
    ensures SkipTo(". 200", '.') == Some(". 200")
    ensures SkipTo(" 200", ' ') == Some(" 200") == SkipTo(". 200", ' ')
    ensures SkipSpaces(" ") == ""
  {
    assert ". 200"[1..] == " 200" && " "[1..] == "";
  }

  lemma Space200(spaces: string)
    requires SkipSpaces(spaces) == ""
    ensures Strtol(spaces).None? && Strtol(spaces + "200") == Some(200) && ToInt(200) == 200
  {
    hide SignedValue, SkipSpaces;
    SkipSpacesIn(spaces, "200");
    NoSpaces200();
    StrtolOfSpaces(spaces);
    Value200();
  }

  lemma NoSpaces200()
    ensures SkipSpaces("200") == "200"
  {
  }

  // ----- the state machine -----

  datatype State = Closed | OpeningUnderlyingIo | WaitingForConnectResponse | Open | Closing | Error

  datatype OpenResult = Ok | Failed | Cancelled

  /** The callbacks to the layer above. */
  datatype Upward = OpenComplete(result: OpenResult) | Received(bytes: string) | IoError | CloseComplete

  /** The instance: its state, its receive buffer, and the callbacks made so far. */
  datatype Proxy = Proxy(state: State, buffer: string, log: seq<Upward>)

  const CREATED := Proxy(Closed, "", [])

  /**
   Calls from above, with what the underlying IO returns, and callbacks from below. `sent` says
   whether the CONNECT request could be put together and handed to the underlying IO.
   */
  datatype Event =
    | OpenIo(success: bool)
    | CloseIo(closing: bool)
    | UnderlyingOpen(result: OpenResult, sent: bool)
    | UnderlyingError
    | UnderlyingBytes(bytes: string)
    | UnderlyingClosed(notify: bool)

  function Told(p: Proxy, state: State, upward: Upward): Proxy {
    p.(state := state, log := p.log + [upward])
  }

  /** `indicate_open_complete_error_and_close`. */
  function FailOpen(p: Proxy): Proxy {
    Told(p, Closed, OpenComplete(Failed))
  }

  function OnOpen(p: Proxy, success: bool): Proxy {
    if p.state == Closed && success then p.(state := OpeningUnderlyingIo) else p
  }

  function OnClose(p: Proxy, closing: bool): Proxy {
    match p.state
    case Closed => p
    case Closing => p
    case OpeningUnderlyingIo => Told(p, Closed, OpenComplete(Cancelled))
    case WaitingForConnectResponse => Told(p, Closed, OpenComplete(Cancelled))
    case Open => if closing then p.(state := Closing) else p
    case Error => if closing then p.(state := Closing) else p
  }

  function OnUnderlyingOpen(p: Proxy, result: OpenResult, sent: bool): Proxy {
    match p.state
    case Closed => p
    case Error => p
    case Closing => Told(p, p.state, IoError)
    case Open => Told(p, p.state, IoError)
    case WaitingForConnectResponse => FailOpen(p)
    case OpeningUnderlyingIo =>
      if result == Cancelled then Told(p, Closed, OpenComplete(Cancelled))
      else if result == Failed || !sent then FailOpen(p)
      else p.(state := WaitingForConnectResponse)
  }

  function OnUnderlyingError(p: Proxy): Proxy {
    match p.state
    case OpeningUnderlyingIo => FailOpen(p)
    case WaitingForConnectResponse => FailOpen(p)
    case Open => Told(p, Error, IoError)
    case _ => p
  }

  /** The answer to CONNECT as far as it has arrived: nothing happens before the empty line. */
  function Answered(p: Proxy): Proxy {
    var end := HeaderEnd(p.buffer);
    if end.None? then p
    else if !Successful(Status(UpToNul(p.buffer))) then FailOpen(p)
    else
      var answered := Told(p, Open, OpenComplete(Ok));
      if end.value < |p.buffer| then Told(answered, Open, Received(p.buffer[end.value..])) else answered
  }

  function OnUnderlyingBytes(p: Proxy, bytes: string): Proxy {
    match p.state
    case OpeningUnderlyingIo => FailOpen(p)
    case WaitingForConnectResponse => Answered(p.(buffer := p.buffer + bytes))
    case Open => Told(p, Open, Received(bytes))
    case _ => p
  }

  function OnUnderlyingClosed(p: Proxy, notify: bool): Proxy {
    if p.state != Closing then p
    else if notify then Told(p, Closed, CloseComplete)
    else p.(state := Closed)
  }

  function Next(p: Proxy, event: Event): Proxy {
    match event
    case OpenIo(success) => OnOpen(p, success)
    case CloseIo(closing) => OnClose(p, closing)
    case UnderlyingOpen(result, sent) => OnUnderlyingOpen(p, result, sent)
    case UnderlyingError => OnUnderlyingError(p)
    case UnderlyingBytes(bytes) => OnUnderlyingBytes(p, bytes)
    case UnderlyingClosed(notify) => OnUnderlyingClosed(p, notify)
  }

  function Run(p: Proxy, events: seq<Event>): Proxy
    decreases |events|
  {
    if events == [] then p else Run(Next(p, events[0]), events[1..])
  }

  // ----- one open-complete for every open -----

  function OpenCompletes(log: seq<Upward>): nat {
    if log == [] then 0
    else OpenCompletes(log[..|log| - 1]) + if log[|log| - 1].OpenComplete? then 1 else 0
  }

  lemma CountSnoc(log: seq<Upward>, upward: Upward)
    ensures OpenCompletes(log + [upward]) == OpenCompletes(log) + if upward.OpenComplete? then 1 else 0
  {
    assert (log + [upward])[..|log|] == log;
  }

  predicate Opening(p: Proxy) {
    p.state == OpeningUnderlyingIo || p.state == WaitingForConnectResponse
  }

  /** How many opens of a run succeed. */
  function Opens(p: Proxy, events: seq<Event>): nat
    decreases |events|
  {
    if events == [] then 0
    else
      (if events[0] == OpenIo(true) && p.state == Closed then 1 else 0) + Opens(Next(p, events[0]), events[1..])
  }

  function Owed(p: Proxy): nat {
    OpenCompletes(p.log) + if Opening(p) then 1 else 0
  }

  lemma StepOwes(p: Proxy, event: Event)
    ensures Owed(Next(p, event)) == Owed(p) + if event == OpenIo(true) && p.state == Closed then 1 else 0
  {
    hide OpenCompletes, HeaderEnd, Status, UpToNul;
    CountSnoc(p.log, OpenComplete(Failed));
    CountSnoc(p.log, OpenComplete(Cancelled));
    CountSnoc(p.log, IoError);
    CountSnoc(p.log, CloseComplete);
    if event.UnderlyingBytes? {
      BytesOwe(p, event.bytes);
    }
  }

  lemma BytesOwe(p: Proxy, bytes: string)
    ensures Owed(OnUnderlyingBytes(p, bytes)) == Owed(p)
  {
    hide OpenCompletes, HeaderEnd, Status, UpToNul;
    CountSnoc(p.log, OpenComplete(Failed));
    CountSnoc(p.log, Received(bytes));
    CountSnoc(p.log, OpenComplete(Ok));
    var buffer := p.buffer + bytes;
    var end := HeaderEnd(buffer);
    if end.Some? {
      CountSnoc(p.log + [OpenComplete(Ok)], Received(buffer[end.value..]));
    }
  }

  /**
   Over every run, reopened instances included, each successful open is answered by exactly one
   open-complete, except that the last may still be under way.
   */
  lemma {:induction false} OneOpenCompletePerOpen(p: Proxy, events: seq<Event>)
    ensures Owed(Run(p, events)) == Owed(p) + Opens(p, events)
    decreases |events|
  {
    hide Owed;
    if events != [] {
      StepOwes(p, events[0]);
      OneOpenCompletePerOpen(Next(p, events[0]), events[1..]);
    }
  }

  // ----- the bytes of the tunnel -----

  function Delivered(log: seq<Upward>): string {
    if log == [] then ""
    else Delivered(log[..|log| - 1]) + if log[|log| - 1].Received? then log[|log| - 1].bytes else ""
  }

  lemma DeliveredSnoc(log: seq<Upward>, upward: Upward)
    ensures Delivered(log + [upward]) == Delivered(log) + if upward.Received? then upward.bytes else ""
  {
    assert (log + [upward])[..|log|] == log;
  }

  /** The bytes that come from the proxy while the instance waits for the answer or is open. */
  function Heard(p: Proxy, events: seq<Event>): string
    decreases |events|
  {
    if events == [] then "" else HeardNow(p, events[0]) + Heard(Next(p, events[0]), events[1..])
  }

  function HeardNow(p: Proxy, event: Event): string {
    if event.UnderlyingBytes? && (p.state == WaitingForConnectResponse || p.state == Open) then event.bytes else ""
  }

  /** Where the first session stands when it has heard `heard`. */
  ghost predicate Tunnel(p: Proxy, heard: string) {
    && (p.state == OpeningUnderlyingIo ==> heard == p.buffer == "" && p.log == [])
    && (p.state == WaitingForConnectResponse ==> heard == p.buffer && p.log == [] && HeaderEnd(heard).None?)
    && (p.state == Open || p.state == Closing || p.state == Error ==> OpenComplete(Ok) in p.log)
    && (if OpenComplete(Ok) in p.log
        then HeaderEnd(heard).Some? && Delivered(p.log) == heard[HeaderEnd(heard).value..]
        else Delivered(p.log) == "")
  }

  lemma LogGrows(p: Proxy, upward: Upward)
    requires !upward.Received?
    ensures Delivered(p.log + [upward]) == Delivered(p.log)
    ensures OpenComplete(Ok) in p.log + [upward] <==> OpenComplete(Ok) in p.log || upward == OpenComplete(Ok)
  {
    DeliveredSnoc(p.log, upward);
    assert Delivered(p.log) + "" == Delivered(p.log);
  }

  lemma StepKeepsTunnel(p: Proxy, heard: string, event: Event)
    requires Tunnel(p, heard) && !event.OpenIo?
    ensures Tunnel(Next(p, event), heard + HeardNow(p, event))
  {
    hide HeaderEnd, Delivered, Status, UpToNul;
    if event.UnderlyingBytes? && p.state == WaitingForConnectResponse {
      AnswerKeepsTunnel(p, heard, event.bytes);
    } else if event.UnderlyingBytes? && p.state == Open {
      OpenKeepsTunnel(p, heard, event.bytes);
    } else {
      assert heard + "" == heard;
      LogGrows(p, OpenComplete(Failed));
      LogGrows(p, OpenComplete(Cancelled));
      LogGrows(p, IoError);
      LogGrows(p, CloseComplete);
    }
  }

  lemma OpenKeepsTunnel(p: Proxy, heard: string, bytes: string)
    requires Tunnel(p, heard) && p.state == Open
    ensures Tunnel(OnUnderlyingBytes(p, bytes), heard + bytes)
  {
    hide HeaderEnd, Delivered, Status, UpToNul;
    HeaderEndGrows(heard, bytes);
    DeliveredSnoc(p.log, Received(bytes));
    var h := HeaderEnd(heard).value;
    assert (heard + bytes)[h..] == heard[h..] + bytes;
  }

  lemma AnswerKeepsTunnel(p: Proxy, heard: string, bytes: string)
    requires Tunnel(p, heard) && p.state == WaitingForConnectResponse
    ensures Tunnel(OnUnderlyingBytes(p, bytes), heard + bytes)
  {
    hide HeaderEnd, Delivered, Status, UpToNul;
    assert Delivered([]) == "" by {
      DeliveredNothing();
    }
    var end := HeaderEnd(heard + bytes);
    LogGrows(p, OpenComplete(Failed));
    LogGrows(p, OpenComplete(Ok));
    if end.Some? {
      DeliveredSnoc(p.log + [OpenComplete(Ok)], Received((heard + bytes)[end.value..]));
      assert [OpenComplete(Ok)] == [] + [OpenComplete(Ok)];
    }
  }

  lemma DeliveredNothing()
    ensures Delivered([]) == ""
  {
  }

  lemma {:induction false} RunKeepsTunnel(p: Proxy, heard: string, events: seq<Event>)
    requires Tunnel(p, heard) && forall i :: 0 <= i < |events| ==> !events[i].OpenIo?
    ensures Tunnel(Run(p, events), heard + Heard(p, events))
    decreases |events|
  {
    hide Tunnel, Next, HeardNow;
    if events == [] {
      assert heard + "" == heard;
    } else {
      var now := HeardNow(p, events[0]);
      StepKeepsTunnel(p, heard, events[0]);
      RunKeepsTunnel(Next(p, events[0]), heard + now, events[1..]);
      assert heard + now + Heard(Next(p, events[0]), events[1..]) == heard + Heard(p, events);
    }
  }

  /**
   The tunnel: in every run of a new instance after its first open there is at most one
   open-complete; if it is a success, the bytes passed up are exactly those that came from the
   proxy after the first empty line, in however many pieces; otherwise no bytes are passed up.
   */
  lemma TunnelTrace(events: seq<Event>)
    requires forall i :: 0 <= i < |events| ==> !events[i].OpenIo?
    ensures var start := Next(CREATED, OpenIo(true));
            var p, heard := Run(start, events), Heard(start, events);
            && OpenCompletes(p.log) <= 1
            && if OpenComplete(Ok) in p.log
               then HeaderEnd(heard).Some? && Delivered(p.log) == heard[HeaderEnd(heard).value..]
               else Delivered(p.log) == ""
  {
    var start := Next(CREATED, OpenIo(true));
    NoFurtherOpens(start, events);
    OneOpenCompletePerOpen(start, events);
    RunKeepsTunnel(start, "", events);
    assert "" + Heard(start, events) == Heard(start, events);
  }

  lemma {:induction false} NoFurtherOpens(p: Proxy, events: seq<Event>)
    requires forall i :: 0 <= i < |events| ==> !events[i].OpenIo?
    ensures Opens(p, events) == 0
    decreases |events|
  {
    if events != [] {
      NoFurtherOpens(Next(p, events[0]), events[1..]);
    }
  }

  // ----- fragmentation -----

  function Feed(p: Proxy, chunks: seq<string>): Proxy
    decreases |chunks|
  {
    if chunks == [] then p else Feed(OnUnderlyingBytes(p, chunks[0]), chunks[1..])
  }

  /** What can be told apart from above: the state, the open-completes and the bytes delivered. */
  function Observed(p: Proxy): (State, seq<Upward>, string) {
    (p.state, Completes(p.log), Delivered(p.log))
  }

  function Completes(log: seq<Upward>): seq<Upward> {
    if log == [] then []
    else Completes(log[..|log| - 1]) + if log[|log| - 1].Received? then [] else [log[|log| - 1]]
  }

  lemma CompletesSnoc(log: seq<Upward>, upward: Upward)
    ensures Completes(log + [upward]) == Completes(log) + if upward.Received? then [] else [upward]
  {
    assert (log + [upward])[..|log|] == log;
  }

  /** What the stream as a whole calls for, by its header alone. */
  function Outcome(stream: string): (State, seq<Upward>, string) {
    var end := HeaderEnd(stream);
    if end.None? then (WaitingForConnectResponse, [], "")
    else if Successful(Status(stream[..end.value])) then (Open, [OpenComplete(Ok)], stream[end.value..])
    else (Closed, [OpenComplete(Failed)], "")
  }

  const WAITING := Proxy(WaitingForConnectResponse, "", [])

  predicate Decided(stream: string) {
    HeaderEnd(stream).Some? ==> !Undecided(stream[..HeaderEnd(stream).value])
  }

  lemma FedAnswer(heard: string)
    requires Decided(heard)
    ensures Observed(Answered(Proxy(WaitingForConnectResponse, heard, []))) == Outcome(heard)
  {
    hide HeaderEnd, Status, UpToNul, Undecided, Delivered, Completes;
    var end := HeaderEnd(heard);
    LogsOf();
    if end.Some? {
      HeaderNulFree(heard);
      var header := heard[..end.value];
      HeaderEndFinds(heard);
      VerdictStable(header, UpToNul(heard[end.value..]));
      var answered := [OpenComplete(Ok)];
      DeliveredSnoc(answered, Received(heard[end.value..]));
      CompletesSnoc(answered, Received(heard[end.value..]));
      assert [] + [OpenComplete(Failed)] == [OpenComplete(Failed)] && [] + [OpenComplete(Ok)] == answered;
      assert Completes(answered) + [] == answered && "" + heard[end.value..] == heard[end.value..];
      if end.value == |heard| {
        assert heard[end.value..] == "";
      }
    }
  }

  lemma LogsOf()
    ensures Delivered([]) == "" && Completes([]) == []
    ensures forall r :: Delivered([OpenComplete(r)]) == "" && Completes([OpenComplete(r)]) == [OpenComplete(r)]
  {
    forall r
      ensures Delivered([OpenComplete(r)]) == "" && Completes([OpenComplete(r)]) == [OpenComplete(r)]
    {
      DeliveredSnoc([], OpenComplete(r));
      CompletesSnoc([], OpenComplete(r));
      assert [] + [OpenComplete(r)] == [OpenComplete(r)];
    }
  }

  lemma DecidedPrefix(a: string, b: string)
    requires Decided(a + b)
    ensures Decided(a)
  {
    hide HeaderEnd, Undecided;
    HeaderEndGrows(a, b);
    if HeaderEnd(a).Some? {
      assert (a + b)[..HeaderEnd(a).value] == a[..HeaderEnd(a).value];
    }
  }

  lemma OutcomeGrows(heard: string, bytes: string)
    requires HeaderEnd(heard).Some?
    ensures var (state, completes, delivered) := Outcome(heard);
            Outcome(heard + bytes) == (state, completes, if state == Open then delivered + bytes else "")
  {
    hide HeaderEnd, Status;
    HeaderEndGrows(heard, bytes);
    var h := HeaderEnd(heard).value;
    assert (heard + bytes)[..h] == heard[..h];
    assert (heard + bytes)[h..] == heard[h..] + bytes;
  }

  lemma FedStep(p: Proxy, heard: string, bytes: string)
    requires p.state == WaitingForConnectResponse ==> p == Proxy(WaitingForConnectResponse, heard, [])
    requires Observed(p) == Outcome(heard) && Decided(heard + bytes)
    ensures var next := OnUnderlyingBytes(p, bytes);
            && Observed(next) == Outcome(heard + bytes)
            && (next.state == WaitingForConnectResponse ==>
                  next == Proxy(WaitingForConnectResponse, heard + bytes, []))
  {
    hide HeaderEnd, Status, UpToNul, Decided, Delivered, Completes;
    if p.state == WaitingForConnectResponse {
      FedAnswer(heard + bytes);
    } else {
      OutcomeGrows(heard, bytes);
      DeliveredSnoc(p.log, Received(bytes));
      CompletesSnoc(p.log, Received(bytes));
      assert Completes(p.log) + [] == Completes(p.log);
    }
  }

  lemma {:induction false} FedObserved(p: Proxy, heard: string, chunks: seq<string>)
    requires p.state == WaitingForConnectResponse ==> p == Proxy(WaitingForConnectResponse, heard, [])
    requires Observed(p) == Outcome(heard) && Decided(heard + Flat(chunks))
    ensures Observed(Feed(p, chunks)) == Outcome(heard + Flat(chunks))
    decreases |chunks|
  {
    hide Observed, Outcome, Decided;
    if chunks == [] {
      assert heard + "" == heard;
    } else {
      assert heard + Flat(chunks) == heard + chunks[0] + Flat(chunks[1..]);
      DecidedPrefix(heard + chunks[0], Flat(chunks[1..]));
      FedStep(p, heard, chunks[0]);
      FedObserved(OnUnderlyingBytes(p, chunks[0]), heard + chunks[0], chunks[1..]);
    }
  }

  /**
   Whatever pieces a stream with a decided header comes in, what is seen from above is what the
   stream as a whole calls for.
   */
  lemma FragmentationIrrelevant(chunks: seq<string>)
    requires Decided(Flat(chunks))
    ensures Observed(Feed(WAITING, chunks)) == Outcome(Flat(chunks))
  {
    hide Status, UpToNul;
    LogsOf();
    assert UpToNul("") == "";
    assert "" + Flat(chunks) == Flat(chunks);
    FedObserved(WAITING, "", chunks);
  }

  /** One piece, and the header before the rest. */
  lemma InOnePiece(stream: string)
    ensures Feed(WAITING, [stream]) == Answered(WAITING.(buffer := stream))
  {
    assert "" + stream == stream;
    assert [stream][1..] == [];
  }

  lemma InTwoPieces(a: string, b: string)
    ensures Feed(WAITING, [a, b]) == OnUnderlyingBytes(Answered(WAITING.(buffer := a)), b)
  {
    assert "" + a == a;
    assert [a, b][1..] == [b] && [b][1..] == [];
    var next := OnUnderlyingBytes(WAITING, a);
    assert Feed(next, [b]) == Feed(OnUnderlyingBytes(next, b), []);
  }

  /**
   The condition is needed: for every undecided header there are bytes after it with which it opens
   the tunnel when they arrive together, and does not when the header arrives first.
   */
  lemma FragmentationMattersWhenUndecided(header: string) returns (b: string)
    requires HeaderEnd(header) == Some(|header|) && Undecided(header)
    ensures Observed(Feed(WAITING, [header + b])).0 == Open
    ensures Observed(Feed(WAITING, [header, b])).0 == Closed
  {
    hide HeaderEnd, Status, UpToNul, Undecided, Answered, OnUnderlyingBytes, Feed;
    HeaderNulFree(header);
    assert header[..|header|] == header && header[|header|..] == "";
    HeaderEndFinds(header);
    b := UndecidedAccepts(header);
    InOnePiece(header + b);
    InTwoPieces(header, b);
    HeaderEndGrows(header, b);
    UpToNulSplit(header, b);
    RefusedAlone(header, b);
    AcceptedTogether(header + b);
  }

  lemma RefusedAlone(header: string, b: string)
    requires HeaderEnd(header).Some? && Status(UpToNul(header)).None?
    ensures OnUnderlyingBytes(Answered(WAITING.(buffer := header)), b).state == Closed
  {
    hide HeaderEnd, Status, UpToNul;
  }

  lemma AcceptedTogether(stream: string)
    requires HeaderEnd(stream).Some? && Status(UpToNul(stream)) == Some(200)
    ensures Answered(WAITING.(buffer := stream)).state == Open
  {
    hide HeaderEnd, Status, UpToNul;
  }

  /** Every stream that starts with the header has the outcome it calls for, in any pieces. */
  ghost predicate Independent(header: string) {
    forall chunks: seq<string> :: header <= Flat(chunks) ==> Observed(Feed(WAITING, chunks)) == Outcome(Flat(chunks))
  }

  lemma FragmentationIrrelevantExactlyWhen(header: string)
    requires HeaderEnd(header) == Some(|header|)
    ensures Independent(header) <==> !Undecided(header)
  {
    hide HeaderEnd, Status, Undecided, Observed, Feed, Outcome, UpToNul;
    if Undecided(header) {
      var b := FragmentationMattersWhenUndecided(header);
      assert Flat([header + b]) == header + b == Flat([header, b]) by {
        FlatPieces(header, b);
      }
      assert header <= Flat([header + b]) && header <= Flat([header, b]);
    } else {
      forall chunks: seq<string> | header <= Flat(chunks)
        ensures Observed(Feed(WAITING, chunks)) == Outcome(Flat(chunks))
      {
        var b := Flat(chunks)[|header|..];
        assert Flat(chunks) == header + b;
        HeaderEndGrows(header, b);
        assert (header + b)[..|header|] == header;
        FragmentationIrrelevant(chunks);
      }
    }
  }

  lemma FlatPieces(a: string, b: string)
    ensures Flat([a + b]) == a + b == Flat([a, b])
  {
    assert [a + b][1..] == [] && [a, b][1..] == [b] && [b][1..] == [];
    assert Flat([b]) == b + "" == b;
  }

  /**
   The receive buffer outlives a session: if it holds a header, the first bytes of the next session
   are taken for the rest of that answer, and no answer of the proxy is waited for.
   */
  lemma ReopenedReadsOldHeader(p: Proxy, bytes: string)
    requires p.state == Closed && HeaderEnd(p.buffer).Some?
    ensures var next := Run(p, [OpenIo(true), UnderlyingOpen(Ok, true), UnderlyingBytes(bytes)]);
            && next.state != WaitingForConnectResponse
            && (next.state == Open ==>
                  Delivered(next.log) == Delivered(p.log) + (p.buffer + bytes)[HeaderEnd(p.buffer).value..])
  {
    hide HeaderEnd, Status, UpToNul, Delivered;
    var events := [OpenIo(true), UnderlyingOpen(Ok, true), UnderlyingBytes(bytes)];
    assert events[1..][1..][1..] == [] && events[1..][0] == events[1] && events[1..][1..][0] == events[2];
    var waiting := p.(state := WaitingForConnectResponse);
    assert Run(p, events) == Run(Next(p, events[0]), events[1..]);
    assert Run(Next(p, events[0]), events[1..]) == Run(waiting, events[1..][1..]);
    assert Run(waiting, events[1..][1..]) == Run(OnUnderlyingBytes(waiting, bytes), []);
    HeaderEndGrows(p.buffer, bytes);
    LogGrows(p, OpenComplete(Ok));
    var rest := (p.buffer + bytes)[HeaderEnd(p.buffer).value..];
    DeliveredSnoc(p.log + [OpenComplete(Ok)], Received(rest));
    assert rest == "" ==> Delivered(p.log) + rest == Delivered(p.log);
  }

  // ----- the instance -----

  /** `ParseHttpResponse` with its loops; the conversion is the library's. */
  method ParseHttpResponse(src: string) returns (status: Option<int>)
    ensures status == Status(src)
  {
    hide Strtol, SkipTo, IsHttp, ToInt;
    var http := PrefixLoop(src);
    if !http {
      return None;
    }
    var rest := SkipLoop(src[5..], '.');
    if rest.Some? {
      rest := SkipLoop(rest.value, ' ');
    }
    if rest.None? {
      return None;
    }
    var value := Strtol(rest.value);
    status := if value.None? then None else Some(ToInt(value.value));
  }

  method PrefixLoop(src: string) returns (http: bool)
    ensures http == IsHttp(src)
    ensures http ==> |src| >= 5
  {
    var prefix, k := "HTTP/", 0;
    while k < 5
      invariant 0 <= k <= 5 && k <= |src| && src[..k] == prefix[..k]
    {
      if prefix[k] != At(src, k) {
        assert |src| >= 5 ==> src[..5][k] != prefix[k];
        return false;
      }
      k := k + 1;
    }
    http := true;
  }

  method SkipLoop(start: string, c: char) returns (rest: Option<string>)
    requires c != NUL
    ensures rest == SkipTo(start, c)
  {
    var src := start;
    while Head(src) != c
      invariant SkipTo(src, c) == SkipTo(start, c)
      decreases |src|
    {
      if Head(src) == NUL {
        return None;
      }
      src := src[1..];
    }
    rest := Some(src);
  }

  class ProxyInstance {
    var state: State
    var receiveBuffer: array?<char>
    var receiveBufferSize: nat
    /** The callbacks made so far. */
    ghost var log: seq<Upward>

    ghost predicate Valid()
      reads this
    {
      if receiveBuffer == null then receiveBufferSize == 0 else receiveBufferSize < receiveBuffer.Length
    }

    function Contents(): string
      requires Valid()
      reads this, receiveBuffer
    {
      if receiveBuffer == null then "" else receiveBuffer[..receiveBufferSize]
    }

    ghost function Value(): Proxy
      requires Valid()
      reads this, receiveBuffer
    {
      Proxy(state, Contents(), log)
    }

    /** `http_proxy_io_create`, as far as this state is concerned. */
    constructor ()
      ensures Valid() && Value() == CREATED
    {
      state, receiveBuffer, receiveBufferSize, log := Closed, null, 0, [];
    }

    method IndicateOpenCompleteErrorAndClose()
      requires Valid()
      modifies this`state, this`log
      ensures Value() == FailOpen(old(Value()))
    {
      state := Closed;
      log := log + [OpenComplete(Failed)];
    }

    /** `http_proxy_io_open`. */
    method OpenIo(success: bool) returns (ok: bool)
      requires Valid()
      modifies this`state
      ensures Value() == OnOpen(old(Value()), success) && ok == (old(state) == Closed && success)
    {
      if state != Closed {
        return false;
      }
      state := OpeningUnderlyingIo;
      if !success {
        state := Closed;
      }
      ok := success;
    }

    /** `http_proxy_io_close`. */
    method CloseIo(closing: bool) returns (ok: bool)
      requires Valid()
      modifies this`state, this`log
      ensures Value() == OnClose(old(Value()), closing)
      ensures ok == (old(Opening(Value())) || (closing && (old(state) == Open || old(state) == Error)))
    {
      if state == Closed || state == Closing {
        ok := false;
      } else if state == OpeningUnderlyingIo || state == WaitingForConnectResponse {
        state := Closed;
        log := log + [OpenComplete(Cancelled)];
        ok := true;
      } else {
        var previousState := state;
        state := Closing;
        if !closing {
          state := previousState;
        }
        ok := closing;
      }
    }

    /** `on_underlying_io_open_complete`. */
    method UnderlyingOpenComplete(result: OpenResult, sent: bool)
      requires Valid()
      modifies this`state, this`log
      ensures Value() == OnUnderlyingOpen(old(Value()), result, sent)
    {
      if state == Closing || state == Open {
        log := log + [IoError];
      } else if state == WaitingForConnectResponse {
        IndicateOpenCompleteErrorAndClose();
      } else if state == OpeningUnderlyingIo {
        if result == Failed {
          IndicateOpenCompleteErrorAndClose();
        } else if result == Cancelled {
          state := Closed;
          log := log + [OpenComplete(Cancelled)];
        } else {
          state := WaitingForConnectResponse;
          if !sent {
            IndicateOpenCompleteErrorAndClose();
          }
        }
      }
    }

    /** `on_underlying_io_error`. */
    method UnderlyingIoError()
      requires Valid()
      modifies this`state, this`log
      ensures Value() == OnUnderlyingError(old(Value()))
    {
      if state == OpeningUnderlyingIo || state == WaitingForConnectResponse {
        IndicateOpenCompleteErrorAndClose();
      } else if state == Open {
        state := Error;
        log := log + [IoError];
      }
    }

    /** `on_underlying_io_close_complete`. */
    method UnderlyingCloseComplete(notify: bool)
      requires Valid()
      modifies this`state, this`log
      ensures Value() == OnUnderlyingClosed(old(Value()), notify)
    {
      if state == Closing {
        state := Closed;
        if notify {
          log := log + [CloseComplete];
        }
      }
    }

    /** The realloc and memcpy: one byte is kept free for the terminator. */
    method Accumulate(bytes: string)
      requires Valid()
      modifies this`receiveBuffer, this`receiveBufferSize
      ensures Valid() && receiveBuffer != null && fresh(receiveBuffer)
      ensures Contents() == old(Contents()) + bytes
    {
      var grown := new char[receiveBufferSize + |bytes| + 1];
      forall i | 0 <= i < receiveBufferSize {
        grown[i] := receiveBuffer[i];
      }
      forall i | 0 <= i < |bytes| {
        grown[receiveBufferSize + i] := bytes[i];
      }
      receiveBuffer := grown;
      receiveBufferSize := receiveBufferSize + |bytes|;
    }

    /** `on_underlying_io_bytes_received`. */
    method UnderlyingBytesReceived(bytes: string)
      requires Valid()
      modifies this, receiveBuffer
      ensures Valid() && Value() == OnUnderlyingBytes(old(Value()), bytes)
    {
      hide HeaderEnd, Status, UpToNul;
      if state == OpeningUnderlyingIo {
        IndicateOpenCompleteErrorAndClose();
      } else if state == WaitingForConnectResponse {
        Accumulate(bytes);
        if receiveBufferSize >= 4 {
          receiveBuffer[receiveBufferSize] := NUL;
          CheckAnswer();
        } else {
          NoShortHeader(Contents());
        }
      } else if state == Open {
        log := log + [Received(bytes)];
      }
    }

    method CheckAnswer()
      requires Valid() && receiveBuffer != null && state == WaitingForConnectResponse
      modifies this`state, this`log
      ensures Value() == Answered(old(Value()))
    {
      hide HeaderEnd, Status, UpToNul;
      var end := HeaderEnd(Contents());
      if end.Some? {
        var status := ParseHttpResponse(UpToNul(Contents()));
        if !Successful(status) {
          IndicateOpenCompleteErrorAndClose();
        } else {
          var lengthRemaining := receiveBufferSize - end.value;
          state := Open;
          log := log + [OpenComplete(Ok)];
          if lengthRemaining > 0 {
            log := log + [Received(receiveBuffer[end.value..receiveBufferSize])];
            assert receiveBuffer[end.value..receiveBufferSize] == Contents()[end.value..];
          }
        }
      }
    }
  }

  lemma NoShortHeader(t: string)
    requires |t| < 4
    ensures HeaderEnd(t).None?
  {
  }
}
