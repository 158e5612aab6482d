/**
 Chunked messages, and exactly which deliveries let them through. The condition speaks of lengths
 alone: those of the deliveries, of the size lines and of the chunks.
 */
module HttpFragments {
  import opened Options
  import opened CString
  import opened Strtoull
  import opened HttpChunked
  import opened Numerals

  // ----- chunked messages -----

  /** The size line, extensions included, and the data. */
  datatype Chunk = Chunk(line: string, data: string)

  predicate IsLine(line: string) {
    forall k :: 0 <= k < |line| ==> line[k] != '\r'
  }

  predicate IsChunk(chunk: Chunk) {
    && IsLine(chunk.line)
    && 0 < |chunk.data| <= INT_MAX && HexOf(chunk.line) == Some(|chunk.data|)
  }

  predicate AllChunks(chunks: seq<Chunk>) {
    forall i :: 0 <= i < |chunks| ==> IsChunk(chunks[i])
  }

  predicate IsLast(line: string) {
    IsLine(line) && HexOf(line) == Some(0)
  }

  /** A message without trailers: section 4.1 of RFC 7230. */
  function Message(chunks: seq<Chunk>, last: string): string {
    if chunks == [] then last + CRLF + CRLF
    else chunks[0].line + CRLF + (chunks[0].data + CRLF + Message(chunks[1..], last))
  }

  function Data(chunks: seq<Chunk>): string {
    if chunks == [] then "" else chunks[0].data + Data(chunks[1..])
  }

  /** The outcome the message calls for, with the bytes that follow it left alone. */
  ghost predicate Decoded(o: Outcome, content: string, tail: string) {
    o.Done? && CodeOf(o.status) == HTTPAPI_OK && o.content == content && Stream(o.conn) == tail
  }

  ghost predicate Failed(o: Outcome) {
    o.Done? && CodeOf(o.status) == HTTPAPI_READ_DATA_FAILED
  }

  ghost predicate OutOfRetries(o: Outcome) {
    o.Done? && o.status == ReadDataFailed(NoLine)
  }

  // ----- waiting for bytes -----

  function Sizes(parts: seq<string>): (r: seq<nat>)
    ensures |r| == |parts|
  {
    if parts == [] then [] else [|parts[0]|] + Sizes(parts[1..])
  }

  /**
   A reader that waits for n bytes lets the IO deliver at least once: how many bytes there are when
   it stops, and the deliveries still to come.
   */
  function Await(have: nat, coming: seq<nat>, n: nat): (r: (nat, seq<nat>))
    ensures |r.1| <= |coming| && (coming != [] ==> |r.1| < |coming|)
    decreases |coming|
  {
    if coming == [] then (have, [])
    else if have + coming[0] >= n then (have + coming[0], coming[1..])
    else Await(have + coming[0], coming[1..], n)
  }

  function Past(have: nat, n: nat): nat {
    if have < n then 0 else have - n
  }

  /** The line buffer holds the line and its terminator with one place to spare. */
  predicate Fits(line: string) {
    |line| < 1023
  }

  /**
   The line fits the line buffer and is there after no more than so many attempts, and the attempt
   that finds its carriage return does not find it as the last byte.
   */
  predicate LineArrives(attempts: nat, have: nat, coming: seq<nat>, line: string) {
    var (there, left) := Await(have, coming, |line| + 1);
    Fits(line) && |coming| - |left| <= attempts && there != |line| + 1
  }

  /** Where the reader stands after a chunk: it waits for the line, the data and the line end after it. */
  function AfterChunk(have: nat, coming: seq<nat>, chunk: Chunk): (nat, seq<nat>) {
    var (there, left) := Await(have, coming, |chunk.line| + 1);
    var (data, later) := Await(Past(there, |chunk.line| + 2), left, |chunk.data|);
    var (end, rest) := Await(Past(data, |chunk.data|), later, 2);
    (Past(end, 2), rest)
  }

  /** Every size line of a message arrives. */
  predicate LinesArrive(attempts: nat, have: nat, coming: seq<nat>, chunks: seq<Chunk>, last: string)
    decreases |chunks|
  {
    if chunks == [] then LineArrives(attempts, have, coming, last)
    else
      && LineArrives(attempts, have, coming, chunks[0].line)
      && var (there, left) := AfterChunk(have, coming, chunks[0]);
         LinesArrive(attempts, there, left, chunks[1..], last)
  }

  /** One attempt and 200 retries. */
  const ATTEMPTS: nat := 201

  lemma {:induction false} AwaitShifted(have: nat, x: nat, coming: seq<nat>, n: nat)
    ensures Await(have + x, coming, n + x) == (Await(have, coming, n).0 + x, Await(have, coming, n).1)
    decreases |coming|
  {
    if coming != [] && have + coming[0] < n {
      AwaitShifted(have + coming[0], x, coming[1..], n);
    }
  }

  // ----- one attempt to read a line -----

  lemma FindCrAt(t: string, line: string)
    requires IsLine(line) && |t| > |line| && t[..|line| + 1] == line + "\r"
    ensures FindCr(t) == |line|
  {
    assert t[|line|] == (line + "\r")[|line|];
    assert forall k :: 0 <= k < |line| ==> t[k] == (line + "\r")[k];
  }

  lemma FindCrNot(t: string, line: string)
    requires IsLine(line) && |t| <= |line| && t == line[..|t|]
    ensures FindCr(t) == |t|
  {
  }

  lemma FindCrAtEnd(r: string, line: string)
    requires IsLine(line) && |r| >= |line| + 2 && r[..|line| + 2] == line + CRLF
    ensures FindCr(r) == |line| && r[|line| + 1] == '\n' && r[..|line|] == line
  {
    assert r[..|line| + 1] == r[..|line| + 2][..|line| + 1] == line + "\r";
    FindCrAt(r, line);
    assert r[|line| + 1] == (line + CRLF)[|line| + 1];
    assert r[..|line|] == r[..|line| + 2][..|line|] == line;
  }

  lemma RestIsLine(line: string, n: nat)
    requires IsLine(line) && n <= |line|
    ensures IsLine(line[n..])
  {
  }

  lemma AfterCrLf(t: string, i: nat)
    requires i + 1 < |t| && t[i + 1] == '\n'
    ensures AfterCr(t, i) == i + 2
  {
  }

  lemma NothingAfterCr(t: string, i: nat)
    requires i + 1 == |t|
    ensures AfterCr(t, i) == i + 1
  {
  }

  function LineThen(line: string, after: string): string {
    line + CRLF + after
  }

  lemma LineSplits(r: string, f: string, line: string, after: string)
    requires r + f == LineThen(line, after) && |r| <= |line|
    ensures r == line[..|r|] && f == LineThen(line[|r|..], after)
  {
    assert line + (CRLF + after) == line + CRLF + after;
    SplitBefore(r, f, line, CRLF + after);
    assert line[|r|..] + (CRLF + after) == line[|r|..] + CRLF + after;
  }

  lemma SplitBefore(r: string, f: string, a: string, b: string)
    requires r + f == a + b && |r| <= |a|
    ensures r == a[..|r|] && f == a[|r|..] + b
  {
    assert r == (r + f)[..|r|] == (a + b)[..|r|];
    assert f == (r + f)[|r|..] == (a + b)[|r|..];
  }

  lemma SplitAfter(r: string, f: string, a: string, b: string)
    requires r + f == a + b
    ensures |r| >= |a| ==> r[..|a|] == a && r[|a|..] + f == b
  {
    if |r| >= |a| {
      SplitBefore(a, b, r, f);
    }
  }

  lemma EmptiedStream(coming: seq<string>)
    ensures Stream(Conn("", coming)) == Flat(coming)
  {
    assert "" + Flat(coming) == Flat(coming);
  }

  lemma StreamOf(received: string, coming: seq<string>)
    ensures Stream(Conn(received, coming)) == received + Flat(coming)
  {
  }

  /** The three ways a line can stand after an attempt. */
  lemma Attempted(c: Conn, line: string, after: string)
    requires IsLine(line) && Stream(c) == LineThen(line, after)
    ensures var d := DoWork(c);
            var r := d.received;
            if |r| <= |line| then
              r == line[..|r|] && d.coming != [] && Stream(Conn("", d.coming)) == LineThen(line[|r|..], after)
            else if |r| == |line| + 1 then r == line + "\r" && Stream(Conn("", d.coming)) == "\n" + after
            else r[..|line| + 2] == line + CRLF && Stream(Conn(r[|line| + 2..], d.coming)) == after
  {
    hide Stream, DoWork, Flat, IsLine, LineThen;
    var d := DoWork(c);
    var r, f := d.received, Flat(d.coming);
    StreamOf(r, d.coming);
    EmptiedStream(d.coming);
    if |r| <= |line| {
      LineSplits(r, f, line, after);
      MoreThanNothing(line[|r|..], after, d.coming);
    } else if |r| == |line| + 1 {
      LineThenSplit(line, after);
      SplitBefore(r, f, line + "\r", "\n" + after);
      assert (line + "\r")[..|r|] == line + "\r" && (line + "\r")[|r|..] + ("\n" + after) == "\n" + after;
    } else {
      LineThenSplit(line, after);
      SplitAfter(r, f, line + CRLF, after);
      StreamOf(r[|line| + 2..], d.coming);
    }
  }

  lemma LineThenSplit(line: string, after: string)
    ensures LineThen(line, after) == line + CRLF + after == line + "\r" + ("\n" + after)
  {
  }

  lemma MoreThanNothing(line: string, after: string, coming: seq<string>)
    requires Flat(coming) == LineThen(line, after)
    ensures coming != []
  {
    assert Flat([]) == "";
  }

  /** What an attempt makes of the lengths. */
  lemma AttemptSizes(c: Conn)
    ensures var d := DoWork(c);
            if c.coming == [] then d == c
            else
              && Sizes(c.coming) != [] && Sizes(c.coming)[1..] == Sizes(d.coming)
              && |d.received| == |c.received| + Sizes(c.coming)[0] && |d.coming| + 1 == |c.coming|
  {
  }

  lemma AwaitStep(have: nat, coming: seq<nat>, n: nat)
    requires coming != []
    ensures Await(have, coming, n) ==
            if have + coming[0] >= n then (have + coming[0], coming[1..]) else Await(have + coming[0], coming[1..], n)
  {
  }

  lemma AwaitNothing(have: nat, n: nat)
    ensures Await(have, [], n) == (have, [])
  {
  }

  lemma NoSizes()
    ensures Sizes([]) == []
  {
  }

  /** The attempt found the carriage return. */
  lemma LineFound(c: Conn, acc: string, retries: nat, line: string, after: string)
    requires IsLine(line) && Stream(c) == LineThen(line, after)
    requires |acc| + |line| < TEMP_BUFFER_SIZE - 1 && |DoWork(c).received| > |line|
    ensures var (result, d) := ReadLine(c, acc, retries);
            var there := |DoWork(c).received|;
            && result == Line(acc + line) && d.coming == DoWork(c).coming
            && |d.received| == Past(there, |line| + 2)
            && Stream(d) == if there == |line| + 1 then "\n" + after else after
  {
    hide FindCr, Stream, DoWork, Flat, ReadLine, IsLine, LineThen, AfterCr;
    Attempted(c, line, after);
    ReadLineStep(c, acc, retries);
    var r := DoWork(c).received;
    if |r| == |line| + 1 {
      FindCrAt(r, line);
      assert AfterCr(r, |line|) == |r| by {
        NothingAfterCr(r, |line|);
      }
      assert r[..|line|] == line && r[|r|..] == "";
    } else {
      FindCrAtEnd(r, line);
      AfterCrLf(r, |line|);
    }
  }

  /** The attempt found only a part of the line. */
  lemma LinePartFound(c: Conn, acc: string, retries: nat, line: string, after: string)
    requires IsLine(line) && Stream(c) == LineThen(line, after)
    requires |DoWork(c).received| <= |line|
    ensures var d := DoWork(c);
            var r := d.received;
            && r == line[..|r|] && d.coming != [] && Stream(Conn("", d.coming)) == LineThen(line[|r|..], after)
            && IsLine(line[|r|..])
            && if |acc| + |r| >= TEMP_BUFFER_SIZE - 1 then ReadLine(c, acc, retries).0 == TooLong
               else if retries == 0 then ReadLine(c, acc, retries).0 == TimedOut
               else ReadLine(c, acc, retries) == ReadLine(Conn("", d.coming), acc + r, retries - 1)
  {
    hide FindCr, Stream, DoWork, Flat, ReadLine, IsLine, LineThen, AfterCr;
    Attempted(c, line, after);
    ReadLineStep(c, acc, retries);
    var r := DoWork(c).received;
    FindCrNot(r, line);
    RestIsLine(line, |r|);
    assert r[..|r|] == r;
  }

  // ----- a line, over all attempts -----

  /** A line that overruns the line buffer is not read, be it that the attempts run out before. */
  lemma {:induction false} LineOverruns(c: Conn, acc: string, retries: nat, line: string, after: string)
    requires IsLine(line) && Stream(c) == LineThen(line, after)
    requires |acc| + |line| >= TEMP_BUFFER_SIZE - 1
    ensures !ReadLine(c, acc, retries).0.Line?
    decreases retries
  {
    hide Stream, DoWork, Flat, ReadLine, IsLine, LineThen, FindCr;
    var d := DoWork(c);
    if |d.received| > |line| {
      Attempted(c, line, after);
      CrFound(d.received, line);
      ReadLineStep(c, acc, retries);
    } else {
      LinePartFound(c, acc, retries, line, after);
      if retries > 0 && |acc| + |d.received| < TEMP_BUFFER_SIZE - 1 {
        LineOverruns(Conn("", d.coming), acc + d.received, retries - 1, line[|d.received|..], after);
      }
    }
  }

  lemma CrFound(r: string, line: string)
    requires IsLine(line) && |r| > |line|
    requires r == line + "\r" || (|r| > |line| + 1 && r[..|line| + 2] == line + CRLF)
    ensures FindCr(r) == |line|
  {
    hide IsLine;
    if r == line + "\r" {
      FindCrAt(r, line);
    } else {
      FindCrAtEnd(r, line);
    }
  }

  /**
   readLine on any deliveries at all: it gives up on a line that overruns the line buffer, times out
   exactly when any other takes more attempts than there are, and otherwise reads it, leaving the
   line feed behind exactly when the carriage return was the last byte there.
   */
  lemma {:induction false} LineReadExactly(c: Conn, acc: string, retries: nat, line: string, after: string)
    requires IsLine(line) && Stream(c) == LineThen(line, after)
    ensures var (there, left) := Await(|c.received|, Sizes(c.coming), |line| + 1);
            var (result, d) := ReadLine(c, acc, retries);
            && there > |line|
            && if |acc| + |line| >= TEMP_BUFFER_SIZE - 1 then !result.Line?
               else if |c.coming| - |left| > retries + 1 then result == TimedOut
               else
                 && result == Line(acc + line)
                 && Sizes(d.coming) == left && |d.received| == Past(there, |line| + 2)
                 && Stream(d) == if there == |line| + 1 then "\n" + after else after
    decreases retries, |c.coming|
  {
    hide Stream, DoWork, Flat, ReadLine, IsLine, LineThen, Sizes, Await;
    if |acc| + |line| >= TEMP_BUFFER_SIZE - 1 {
      LineOverruns(c, acc, retries, line, after);
      LineComes(c, line, after);
      return;
    }
    var d := DoWork(c);
    AttemptSizes(c);
    if |d.received| > |line| {
      LineFound(c, acc, retries, line, after);
      if c.coming == [] {
        AwaitNothing(|c.received|, |line| + 1);
        NoSizes();
      } else {
        AwaitStep(|c.received|, Sizes(c.coming), |line| + 1);
      }
    } else {
      LinePartFound(c, acc, retries, line, after);
      var r := |d.received|;
      AwaitStep(|c.received|, Sizes(c.coming), |line| + 1);
      AwaitShifted(0, r, Sizes(d.coming), |line[r..]| + 1);
      assert acc + d.received + line[r..] == acc + line;
      if retries > 0 {
        LineReadExactly(Conn("", d.coming), acc + d.received, retries - 1, line[r..], after);
      } else {
        LineComes(Conn("", d.coming), line[r..], after);
      }
    }
  }

  lemma {:induction false} LineComes(c: Conn, line: string, after: string)
    requires Stream(c) == LineThen(line, after)
    ensures Await(|c.received|, Sizes(c.coming), |line| + 1).0 > |line|
    decreases |c.coming|
  {
    if c.coming == [] {
      assert Flat([]) == "";
    } else {
      AttemptSizes(c);
      if |DoWork(c).received| <= |line| {
        LineComes(DoWork(c), line, after);
      }
    }
  }

  // ----- data -----

  /** Data that is to come is received, exactly. */
  lemma {:induction false} ReceiveWhole(c: Conn, bytes: string, after: string)
    requires |bytes| > 0 && Stream(c) == bytes + after
    ensures var r := Receive(c, |bytes|);
            r.Some? && r.value.0 == bytes && Stream(r.value.1) == after
    decreases |c.coming|
  {
    var d := DoWork(c);
    if |d.received| < |bytes| {
      assert c.coming != [] by {
        assert Flat([]) == "";
      }
      ReceiveWhole(d, bytes, after);
    }
    hide Receive;
    var r := Receive(c, |bytes|);
    assert r.value.0 == (bytes + after)[..|bytes|] == bytes;
    assert Stream(r.value.1) == (bytes + after)[|bytes|..] == after;
  }

  /** conn_receive on any deliveries: what is there afterwards. */
  lemma {:induction false} ReceivedExactly(c: Conn, bytes: string, after: string)
    requires |bytes| > 0 && Stream(c) == bytes + after
    ensures var (there, left) := Await(|c.received|, Sizes(c.coming), |bytes|);
            && Receive(c, |bytes|).Some?
            && var (got, d) := Receive(c, |bytes|).value;
               && got == bytes && Stream(d) == after
               && |d.received| == Past(there, |bytes|) && Sizes(d.coming) == left
    decreases |c.coming|
  {
    hide DoWork, Stream, Sizes, Await, Receive;
    ReceiveWhole(c, bytes, after);
    ReceiveStep(c, |bytes|);
    AttemptSizes(c);
    NoSizes();
    if c.coming == [] {
      AwaitNothing(|c.received|, |bytes|);
    } else {
      AwaitStep(|c.received|, Sizes(c.coming), |bytes|);
      if |DoWork(c).received| < |bytes| {
        ReceivedExactly(DoWork(c), bytes, after);
      }
    }
  }

  /** The data of a chunk and the line end after it. */
  lemma DataRead(e: Conn, data: string, after: string) returns (f: Conn, d: Conn)
    requires data != "" && Stream(e) == data + (CRLF + after)
    ensures Receive(e, |data|) == Some((data, f)) && Receive(f, 2) == Some((CRLF, d)) && Stream(d) == after
    ensures var (there, later) := Await(|e.received|, Sizes(e.coming), |data|);
            var (end, rest) := Await(Past(there, |data|), later, 2);
            |d.received| == Past(end, 2) && Sizes(d.coming) == rest
  {
    hide Stream, Receive, Await, Sizes, Past;
    ReceivedExactly(e, data, CRLF + after);
    f := Receive(e, |data|).value.1;
    ReceivedExactly(f, CRLF, after);
    d := Receive(f, 2).value.1;
  }

  // ----- a line end cut in two -----

  /** How often the reader lets the IO work until the carriage return of the line is there. */
  function Attempts(c: Conn, line: string): int {
    |Sizes(c.coming)| - |Await(|c.received|, Sizes(c.coming), |line| + 1).1|
  }

  /** A chunk read one byte late misses its line end, whatever the data. */
  lemma ReadLate(c: Conn, content: string, chunk: Chunk, d: Conn, after: string)
    requires IsChunk(chunk)
    requires ReadLine(c, "", MAX_RECEIVE_RETRY) == (Line(chunk.line), d)
    requires Stream(d) == "\n" + (chunk.data + CRLF + after)
    ensures var o := ReadBody(c, content);
            o.Done? && o.status == ReadDataFailed(NoLineEnd)
  {
    hide Stream, ReadLine, Receive, HexOf, IsLine, ReadBody;
    var n := |chunk.data|;
    var late := "\n" + chunk.data[..n - 1];
    var end := [chunk.data[n - 1], '\r'];
    assert "\n" + (chunk.data + CRLF + after) == late + (end + ("\n" + after));
    ReceiveWhole(d, late, end + ("\n" + after));
    ReceiveWhole(Receive(d, n).value.1, end, "\n" + after);
    assert end[1] != CRLF[1];
    BodyWithLine(c, content, chunk.line, d);
  }

  lemma ReadLastLate(c: Conn, content: string, last: string, d: Conn, tail: string)
    requires IsLast(last)
    requires ReadLine(c, "", MAX_RECEIVE_RETRY) == (Line(last), d)
    requires Stream(d) == "\n" + (CRLF + tail)
    ensures var o := ReadBody(c, content);
            o.Done? && o.status == ReadDataFailed(NoLineEnd) && o.content == ""
  {
    hide Stream, ReadLine, Receive, HexOf, IsLine, ReadBody;
    assert "\n" + (CRLF + tail) == "\n\r" + ("\n" + tail);
    ReceiveWhole(d, "\n\r", "\n" + tail);
    assert "\n\r"[0] != CRLF[0];
    BodyWithLine(c, content, last, d);
  }

  /**
   When the attempt that finds the carriage return of a size line, be it the first or a later one,
   finds it as the last byte there, the body fails whatever the data. If the line is read at all, it
   is the line end of the chunk that is missed.
   */
  lemma CutLineEndFails(c: Conn, content: string, chunk: Chunk, after: string)
    requires IsChunk(chunk) && Stream(c) == LineThen(chunk.line, chunk.data + CRLF + after)
    requires Await(|c.received|, Sizes(c.coming), |chunk.line| + 1).0 == |chunk.line| + 1
    ensures Failed(ReadBody(c, content))
    ensures Fits(chunk.line) && Attempts(c, chunk.line) <= ATTEMPTS ==>
              ReadBody(c, content).status == ReadDataFailed(NoLineEnd)
  {
    hide Stream, ReadLine, ReadBody, LineThen, Await, Sizes, HexOf;
    LineReadExactly(c, "", MAX_RECEIVE_RETRY, chunk.line, chunk.data + CRLF + after);
    var (result, d) := ReadLine(c, "", MAX_RECEIVE_RETRY);
    if result.Line? {
      assert "" + chunk.line == chunk.line;
      ReadLate(c, content, chunk, d, after);
    } else {
      BodyWithoutLine(c, content);
    }
  }

  /** The same of the last line: the contents are thrown away. */
  lemma CutLastLineEndFails(c: Conn, content: string, last: string, tail: string)
    requires IsLast(last) && Stream(c) == LineThen(last, CRLF + tail)
    requires Await(|c.received|, Sizes(c.coming), |last| + 1).0 == |last| + 1
    ensures Failed(ReadBody(c, content))
    ensures Fits(last) && Attempts(c, last) <= ATTEMPTS ==>
              ReadBody(c, content).status == ReadDataFailed(NoLineEnd) && ReadBody(c, content).content == ""
  {
    hide Stream, ReadLine, ReadBody, LineThen, Await, Sizes, HexOf;
    LineReadExactly(c, "", MAX_RECEIVE_RETRY, last, CRLF + tail);
    var (result, d) := ReadLine(c, "", MAX_RECEIVE_RETRY);
    if result.Line? {
      assert "" + last == last;
      ReadLastLate(c, content, last, d, tail);
    } else {
      BodyWithoutLine(c, content);
    }
  }

  // ----- the whole body -----

  /** A line that does not arrive in the attempts there are: what the reader does then. */
  lemma LineMissed(c: Conn, content: string, line: string, after: string)
    requires IsLine(line) && Stream(c) == LineThen(line, after)
    requires !Fits(line) || Attempts(c, line) > ATTEMPTS
    ensures Failed(ReadBody(c, content)) && (Fits(line) ==> OutOfRetries(ReadBody(c, content)))
  {
    hide Stream, ReadLine, ReadBody, LineThen, Await, Sizes, IsLine;
    LineReadExactly(c, "", MAX_RECEIVE_RETRY, line, after);
    BodyWithoutLine(c, content);
    if Fits(line) {
      ReadBodyNoLine(c, content);
    }
  }

  lemma ReadBodyTurn(c: Conn, content: string, line: string, data: string, d: Conn, e: Conn, f: Conn)
    requires 0 < |data| <= INT_MAX && HexOf(line) == Some(|data|)
    requires ReadLine(c, "", MAX_RECEIVE_RETRY) == (Line(line), d)
    requires Receive(d, |data|) == Some((data, e)) && Receive(e, 2) == Some((CRLF, f))
    ensures ReadBody(c, content) == ReadBody(f, content + data)
  {
    hide Stream, ReadLine, Receive, HexOf, LastLine;
  }

  lemma ReadBodyNoLine(c: Conn, content: string)
    requires ReadLine(c, "", MAX_RECEIVE_RETRY).0 == TimedOut
    ensures OutOfRetries(ReadBody(c, content))
  {
    hide Stream, ReadLine, Receive, HexOf, LastLine;
  }

  /** A chunk whose line arrives is read, and the reader stands where the lengths say. */
  lemma ChunkRead(c: Conn, content: string, chunk: Chunk, after: string) returns (d: Conn)
    requires IsChunk(chunk) && Stream(c) == LineThen(chunk.line, chunk.data + CRLF + after)
    requires LineArrives(ATTEMPTS, |c.received|, Sizes(c.coming), chunk.line)
    ensures ReadBody(c, content) == ReadBody(d, content + chunk.data) && Stream(d) == after
    ensures AfterChunk(|c.received|, Sizes(c.coming), chunk) == (|d.received|, Sizes(d.coming))
  {
    hide Stream, ReadBody, ReadLine, Receive, LineThen, Await, Past, Sizes, IsLine, HexOf;
    var line, data := chunk.line, chunk.data;
    LineReadExactly(c, "", MAX_RECEIVE_RETRY, line, data + CRLF + after);
    assert "" + line == line;
    var e := ReadLine(c, "", MAX_RECEIVE_RETRY).1;
    assert data + CRLF + after == data + (CRLF + after);
    var f;
    f, d := DataRead(e, data, after);
    ReadBodyTurn(c, content, line, data, e, f, d);
  }

  lemma LastRead(c: Conn, content: string, last: string, tail: string)
    requires IsLast(last) && Stream(c) == LineThen(last, CRLF + tail)
    requires LineArrives(ATTEMPTS, |c.received|, Sizes(c.coming), last)
    ensures Decoded(ReadBody(c, content), content, tail)
  {
    hide Stream, ReadLine, Receive, HexOf, IsLine, ReadBody, LineThen, Await, Sizes;
    LineReadExactly(c, "", MAX_RECEIVE_RETRY, last, CRLF + tail);
    assert "" + last == last;
    var d := ReadLine(c, "", MAX_RECEIVE_RETRY).1;
    ReceiveWhole(d, CRLF, tail);
    BodyWithLine(c, content, last, d);
  }

  /** What becomes of a size line that does not arrive; with more attempts it would have. */
  lemma ChunkFails(c: Conn, content: string, chunk: Chunk, after: string, attempts: nat)
    requires IsChunk(chunk) && Stream(c) == LineThen(chunk.line, chunk.data + CRLF + after)
    requires !LineArrives(ATTEMPTS, |c.received|, Sizes(c.coming), chunk.line)
    ensures Failed(ReadBody(c, content))
    ensures LineArrives(attempts, |c.received|, Sizes(c.coming), chunk.line) ==> OutOfRetries(ReadBody(c, content))
  {
    hide Stream, ReadBody, Await, Sizes, LineThen, IsLine, HexOf, Failed, OutOfRetries;
    if Await(|c.received|, Sizes(c.coming), |chunk.line| + 1).0 == |chunk.line| + 1 {
      CutLineEndFails(c, content, chunk, after);
    } else {
      LineMissed(c, content, chunk.line, chunk.data + CRLF + after);
    }
  }

  lemma BodyEndsExactly(c: Conn, content: string, last: string, tail: string, attempts: nat)
    requires IsLast(last) && Stream(c) == LineThen(last, CRLF + tail)
    ensures var o := ReadBody(c, content);
            if LineArrives(ATTEMPTS, |c.received|, Sizes(c.coming), last) then Decoded(o, content, tail)
            else Failed(o) && (LineArrives(attempts, |c.received|, Sizes(c.coming), last) ==> OutOfRetries(o))
  {
    hide Stream, ReadBody, Await, Sizes, LineThen, IsLine, HexOf, Decoded, Failed, OutOfRetries;
    if LineArrives(ATTEMPTS, |c.received|, Sizes(c.coming), last) {
      LastRead(c, content, last, tail);
    } else if Await(|c.received|, Sizes(c.coming), |last| + 1).0 == |last| + 1 {
      CutLastLineEndFails(c, content, last, tail);
    } else {
      LineMissed(c, content, last, CRLF + tail);
    }
  }

  /**
   From any content and any point of the message on. When every line would arrive in some number of
   attempts, running out of them is the only failure.
   */
  lemma {:induction false} BodyReadExactly(c: Conn, content: string, chunks: seq<Chunk>, last: string, tail: string,
                                           attempts: nat)
    requires AllChunks(chunks) && IsLast(last)
    requires Stream(c) == Message(chunks, last) + tail
    ensures var o := ReadBody(c, content);
            if LinesArrive(ATTEMPTS, |c.received|, Sizes(c.coming), chunks, last)
            then Decoded(o, content + Data(chunks), tail)
            else Failed(o) && (LinesArrive(attempts, |c.received|, Sizes(c.coming), chunks, last) ==> OutOfRetries(o))
    decreases |chunks|
  {
    hide Stream, ReadBody, IsChunk, IsLast, Decoded, Failed, OutOfRetries, LineArrives, AfterChunk, Sizes, LineThen;
    if chunks == [] {
      LastMessage(last, tail);
      assert content + "" == content;
      BodyEndsExactly(c, content, last, tail, attempts);
    } else {
      var chunk, after := chunks[0], Message(chunks[1..], last) + tail;
      ChunkMessage(chunks, last, tail);
      if LineArrives(ATTEMPTS, |c.received|, Sizes(c.coming), chunk.line) {
        var d := ChunkRead(c, content, chunk, after);
        BodyReadExactly(d, content + chunk.data, chunks[1..], last, tail, attempts);
        assert content + chunk.data + Data(chunks[1..]) == content + Data(chunks);
      } else {
        ChunkFails(c, content, chunk, after, attempts);
      }
    }
  }

  lemma LastMessage(last: string, tail: string)
    ensures Message([], last) + tail == LineThen(last, CRLF + tail)
  {
    assert last + CRLF + CRLF + tail == last + CRLF + (CRLF + tail);
  }

  lemma ChunkMessage(chunks: seq<Chunk>, last: string, tail: string)
    requires chunks != []
    ensures Message(chunks, last) + tail ==
            LineThen(chunks[0].line, chunks[0].data + CRLF + (Message(chunks[1..], last) + tail))
  {
    var chunk, rest := chunks[0], Message(chunks[1..], last);
    assert chunk.line + CRLF + (chunk.data + CRLF + rest) + tail
        == chunk.line + CRLF + (chunk.data + CRLF + (rest + tail));
  }

  /**
   For every chunked message and all deliveries whatever: the body is the data of the chunks, and
   exactly the message is consumed, if and only if every size line fits the line buffer, arrives in
   time and is not found with its carriage return last; otherwise the call fails with
   HTTPAPI_READ_DATA_FAILED.
   */
  lemma BodyDecodedExactlyWhen(c: Conn, chunks: seq<Chunk>, last: string, tail: string)
    requires AllChunks(chunks) && IsLast(last)
    requires Stream(c) == Message(chunks, last) + tail
    ensures Decoded(ReadBody(c, ""), Data(chunks), tail) <==>
            LinesArrive(ATTEMPTS, |c.received|, Sizes(c.coming), chunks, last)
    ensures !Decoded(ReadBody(c, ""), Data(chunks), tail) ==> Failed(ReadBody(c, ""))
  {
    hide Stream, ReadBody, AllChunks, IsLast, LinesArrive, Sizes, Message;
    BodyReadExactly(c, "", chunks, last, tail, 0);
    assert "" + Data(chunks) == Data(chunks);
  }

  /** A line that does not start with a size fails the body differently. */
  lemma NoSizeRefused(c: Conn, content: string, line: string, after: string)
    requires IsLine(line) && Stream(c) == LineThen(line, after)
    requires Fits(line) && Attempts(c, line) <= ATTEMPTS && NoDigitFirst(line, 16)
    ensures var o := ReadBody(c, content);
            o.Done? && CodeOf(o.status) == HTTPAPI_RECEIVE_RESPONSE_FAILED && o.content == content
  {
    hide Stream, ReadLine, ReadBody, LineThen, Await, Sizes, IsLine, NoDigitFirst;
    LineReadExactly(c, "", MAX_RECEIVE_RETRY, line, after);
    assert "" + line == line;
    NoDigitIs(line, 16);
    BodyWithLine(c, content, line, ReadLine(c, "", MAX_RECEIVE_RETRY).1);
  }

  // ----- a condition on the stream alone -----

  function Total(sizes: seq<nat>): nat {
    if sizes == [] then 0 else sizes[0] + Total(sizes[1..])
  }

  /** Whether some delivery ends where just so many bytes are still to come. */
  predicate CutBefore(coming: seq<nat>, left: nat) {
    coming != [] && (Total(coming[1..]) == left || CutBefore(coming[1..], left))
  }

  /** No delivery ends between the carriage return and the line feed of a size line. */
  predicate LinesWhole(coming: seq<nat>, chunks: seq<Chunk>, last: string, tail: string)
    decreases |chunks|
  {
    if chunks == [] then !CutBefore(coming, |"\n" + CRLF + tail|)
    else
      && !CutBefore(coming, |"\n" + chunks[0].data + CRLF + Message(chunks[1..], last) + tail|)
      && LinesWhole(coming, chunks[1..], last, tail)
  }

  /** Every delivery brings something. */
  predicate Brisk(coming: seq<nat>) {
    forall k :: 0 <= k < |coming| ==> coming[k] > 0
  }

  predicate AllFit(chunks: seq<Chunk>, last: string) {
    Fits(last) && forall i :: 0 <= i < |chunks| ==> Fits(chunks[i].line)
  }

  /** Size lines short enough to be read even if every delivery is a single byte. */
  predicate ShortLines(attempts: nat, chunks: seq<Chunk>, last: string) {
    |last| < attempts && forall i :: 0 <= i < |chunks| ==> |chunks[i].line| < attempts
  }

  /** Waiting leaves a later part of the deliveries, and stops where one of them ends. */
  lemma {:induction false} AwaitStops(have: nat, coming: seq<nat>, n: nat)
    requires have + Total(coming) >= n
    ensures var (there, left) := Await(have, coming, n);
            && there >= n && there + Total(left) == have + Total(coming)
            && (coming == [] || CutBefore(coming, Total(left)))
            && (forall l :: CutBefore(left, l) ==> CutBefore(coming, l))
            && (Brisk(coming) ==> Brisk(left) && |coming| - |left| <= if have < n then n - have else 1)
    decreases |coming|
  {
    if coming != [] && have + coming[0] < n {
      AwaitStops(have + coming[0], coming[1..], n);
    }
  }

  /** Attempts enough for all deliveries, or for every character of the line. */
  predicate Enough(attempts: nat, coming: seq<nat>, line: string) {
    |coming| <= attempts || (Brisk(coming) && |line| < attempts)
  }

  /** A line end that is not cut in two is not found with its carriage return last. */
  lemma LineWhole(attempts: nat, have: nat, coming: seq<nat>, line: string, after: nat)
    requires Fits(line) && Enough(attempts, coming, line)
    requires have + Total(coming) == |line| + 2 + after && !CutBefore(coming, 1 + after)
    ensures LineArrives(attempts, have, coming, line)
  {
    hide Await, CutBefore;
    AwaitStops(have, coming, |line| + 1);
  }

  lemma {:induction false} LinesWholeLater(before: seq<nat>, after: seq<nat>, chunks: seq<Chunk>, last: string,
                                           tail: string)
    requires (forall l :: CutBefore(after, l) ==> CutBefore(before, l)) && LinesWhole(before, chunks, last, tail)
    ensures LinesWhole(after, chunks, last, tail)
    decreases |chunks|
  {
    hide CutBefore;
    if chunks != [] {
      LinesWholeLater(before, after, chunks[1..], last, tail);
    }
  }

  /** The bytes left after a chunk. */
  lemma ChunkStops(have: nat, coming: seq<nat>, chunk: Chunk, after: nat)
    requires have + Total(coming) == |chunk.line| + 2 + |chunk.data| + 2 + after
    requires !CutBefore(coming, 1 + |chunk.data| + 2 + after)
    ensures var (there, left) := AfterChunk(have, coming, chunk);
            && there + Total(left) == after
            && (forall l :: CutBefore(left, l) ==> CutBefore(coming, l))
            && (Brisk(coming) ==> Brisk(left)) && |left| <= |coming|
  {
    hide Await, CutBefore, Brisk, Total;
    var (there, left) := Await(have, coming, |chunk.line| + 1);
    AwaitStops(have, coming, |chunk.line| + 1);
    var e := Past(there, |chunk.line| + 2);
    var (data, later) := Await(e, left, |chunk.data|);
    AwaitStops(e, left, |chunk.data|);
    AwaitStops(Past(data, |chunk.data|), later, 2);
  }

  lemma {:induction false} WholeLinesArrive(attempts: nat, have: nat, coming: seq<nat>, chunks: seq<Chunk>,
                                            last: string, tail: string)
    requires AllFit(chunks, last) && LinesWhole(coming, chunks, last, tail)
    requires have + Total(coming) == |Message(chunks, last) + tail|
    requires |coming| <= attempts || (Brisk(coming) && ShortLines(attempts, chunks, last))
    ensures LinesArrive(attempts, have, coming, chunks, last)
    decreases |chunks|
  {
    hide CutBefore, LineArrives, AfterChunk, Brisk, Total, Fits;
    if chunks == [] {
      LineWhole(attempts, have, coming, last, |CRLF + tail|);
    } else {
      var chunk, after := chunks[0], |Message(chunks[1..], last) + tail|;
      LineWhole(attempts, have, coming, chunk.line, |chunk.data| + 2 + after);
      ChunkStops(have, coming, chunk, after);
      var (there, left) := AfterChunk(have, coming, chunk);
      LinesWholeLater(coming, left, chunks[1..], last, tail);
      WholeLinesArrive(attempts, there, left, chunks[1..], last, tail);
    }
  }

  lemma {:induction false} SizesTotal(parts: seq<string>)
    ensures Total(Sizes(parts)) == |Flat(parts)|
  {
    if parts != [] {
      SizesTotal(parts[1..]);
      assert Sizes(parts)[1..] == Sizes(parts[1..]);
    }
  }

  /**
   For every chunked message and every division of it into deliveries, none of which ends within
   the line end of a size line: the reader leaves exactly the data of the chunks and consumes
   exactly the message, unless a size line runs out of retries.
   */
  lemma ChunksDecoded(c: Conn, chunks: seq<Chunk>, last: string, tail: string)
    requires AllChunks(chunks) && IsLast(last) && AllFit(chunks, last)
    requires Stream(c) == Message(chunks, last) + tail
    requires LinesWhole(Sizes(c.coming), chunks, last, tail)
    ensures Decoded(ReadBody(c, ""), Data(chunks), tail) || OutOfRetries(ReadBody(c, ""))
    ensures Brisk(Sizes(c.coming)) && ShortLines(ATTEMPTS, chunks, last) ==>
              Decoded(ReadBody(c, ""), Data(chunks), tail)
  {
    hide ReadBody, LinesWhole, AllChunks, IsLast, Brisk, ShortLines, AllFit, Decoded, OutOfRetries, Failed, LinesArrive;
    hide Message, Sizes, Flat;
    var coming := Sizes(c.coming);
    SizesTotal(c.coming);
    BodyReadExactly(c, "", chunks, last, tail, |coming|);
    WholeLinesArrive(|coming|, |c.received|, coming, chunks, last, tail);
    if Brisk(coming) && ShortLines(ATTEMPTS, chunks, last) {
      WholeLinesArrive(ATTEMPTS, |c.received|, coming, chunks, last, tail);
    }
    assert "" + Data(chunks) == Data(chunks);
  }

  // ----- a body in pieces -----

  lemma IntSizes()
    ensures Power16(8) > INT_MAX
  {
    assert Power16(4) == 0x1_0000;
    assert Power16(8) == 0x1_0000_0000;
  }

  /** A chunk whose size is written in hexadecimal digits of either case, with any extension after it. */
  lemma SizedChunk(s: string, ds: seq<nat>, extension: string, data: string)
    requires ds != [] && WritesAll(s, ds, 16) && NoDigitFirst(extension, 16) && IsLine(extension)
    requires 0 < |data| <= INT_MAX && ValueOf(ds, 16) == |data|
    ensures IsChunk(Chunk(s + extension, data))
  {
    hide HexOf, NoDigitFirst, WritesAll, ValueOf;
    SizeRead(s, ds, extension);
    DigitsAreLine(s, ds);
  }

  lemma DigitsAreLine(s: string, ds: seq<nat>)
    requires WritesAll(s, ds, 16)
    ensures IsLine(s)
  {
    forall k | 0 <= k < |s|
      ensures s[k] != '\r'
    {
      DigitCharacter(s[k], ds[k]);
    }
  }

  /** The pieces of a body, each with its size in hexadecimal. */
  function Chunked(pieces: seq<string>): (r: seq<Chunk>)
    ensures |r| == |pieces|
  {
    if pieces == [] then [] else [Chunk(HexNumeral(|pieces[0]|), pieces[0])] + Chunked(pieces[1..])
  }

  lemma {:induction false} ChunkedIsValid(pieces: seq<string>)
    requires forall i :: 0 <= i < |pieces| ==> 0 < |pieces[i]| <= INT_MAX
    ensures AllChunks(Chunked(pieces)) && ShortLines(ATTEMPTS, Chunked(pieces), "0") && AllFit(Chunked(pieces), "0")
    ensures Data(Chunked(pieces)) == Flat(pieces)
  {
    hide IsChunk;
    if pieces != [] {
      var n := |pieces[0]|;
      SizeIsChunk(pieces[0]);
      ChunkedIsValid(pieces[1..]);
    }
  }

  lemma SizeIsChunk(piece: string)
    requires 0 < |piece| <= INT_MAX
    ensures IsChunk(Chunk(HexNumeral(|piece|), piece)) && |HexNumeral(|piece|)| <= 8
  {
    hide Power16, HexNumeral, HexOf;
    var n := |piece|;
    SizeReadBack(n, "");
    assert HexNumeral(n) + "" == HexNumeral(n);
    HexNumeralDenotes(n);
    IntSizes();
    HexNumeralLength(n, 8);
    assert forall k :: 0 <= k < |HexNumeral(n)| ==> IsDigit(HexNumeral(n)[k], 16);
  }

  lemma ZeroIsLast()
    ensures IsLast("0")
  {
    SizeReadBack(0, "");
    assert HexNumeral(0) + "" == "0";
  }

  /**
   Any body cut into non-empty pieces and sent in chunks is put together again, whatever the
   deliveries, as long as each brings something and none ends within the line end of a size line.
   */
  lemma BodyRoundTrip(c: Conn, pieces: seq<string>, tail: string)
    requires forall i :: 0 <= i < |pieces| ==> 0 < |pieces[i]| <= INT_MAX
    requires Stream(c) == Message(Chunked(pieces), "0") + tail
    requires LinesWhole(Sizes(c.coming), Chunked(pieces), "0", tail) && Brisk(Sizes(c.coming))
    ensures Decoded(ReadBody(c, ""), Flat(pieces), tail)
  {
    hide ReadBody, LinesWhole, AllChunks, IsLast, Brisk, ShortLines, AllFit, Message, Chunked, Stream, Sizes;
    ChunkedIsValid(pieces);
    ZeroIsLast();
    ChunksDecoded(c, Chunked(pieces), "0", tail);
  }

  /** In particular when all of it is there from the start. */
  lemma BodyReceivedAtOnce(pieces: seq<string>, tail: string)
    requires forall i :: 0 <= i < |pieces| ==> 0 < |pieces[i]| <= INT_MAX
    ensures Decoded(ReadBody(Conn(Message(Chunked(pieces), "0") + tail, []), ""), Flat(pieces), tail)
  {
    hide ReadBody, Message, Chunked, Decoded, LinesWhole;
    var message := Message(Chunked(pieces), "0") + tail;
    NothingCutsLines(Chunked(pieces), "0", tail);
    assert message + Flat([]) == message by {
      assert Flat([]) == "";
    }
    BodyRoundTrip(Conn(message, []), pieces, tail);
  }

  lemma {:induction false} NothingCutsLines(chunks: seq<Chunk>, last: string, tail: string)
    ensures LinesWhole([], chunks, last, tail)
    decreases |chunks|
  {
    if chunks != [] {
      NothingCutsLines(chunks[1..], last, tail);
    }
  }
}
