/**
 Reading a chunked response body in httpapi_compact.c. Bytes are characters. The underlying IO is
 the list of what each further call of xio_dowork delivers; after the last there is nothing more.
 */
module HttpChunked {
  import opened Options
  import opened CString
  import opened Strtoull

  const MAX_RECEIVE_RETRY: nat := 200
  const TEMP_BUFFER_SIZE: nat := 1024
  const INT_MAX: nat := 0x7FFF_FFFF
  const CRLF := "\r\n"

  // ----- the receive buffer and the bytes to come -----

  datatype Conn = Conn(received: string, coming: seq<string>)

  /** All bytes not consumed yet, delivered or not. */
  function Stream(c: Conn): string {
    c.received + Flat(c.coming)
  }

  /** `xio_dowork`, which calls `on_bytes_received`. */
  function DoWork(c: Conn): (d: Conn)
    ensures Stream(d) == Stream(c)
  {
    if c.coming == [] then c
    else
      assert c.received + c.coming[0] + Flat(c.coming[1..]) == c.received + Flat(c.coming);
      Conn(c.received + c.coming[0], c.coming[1..])
  }

  // ----- reading a line -----

  function FindCr(t: string): (i: nat)
    ensures i <= |t| && (i < |t| ==> t[i] == '\r')
    ensures forall k :: 0 <= k < i ==> t[k] != '\r'
  {
    if t == "" || t[0] == '\r' then 0 else 1 + FindCr(t[1..])
  }

  /** Past a carriage return, and past the line feed after it if that has come. */
  function AfterCr(t: string, i: nat): (next: nat)
    requires i < |t|
    ensures i < next <= |t|
  {
    if i + 1 < |t| && t[i + 1] == '\n' then i + 2 else i + 1
  }

  datatype LineResult = Line(text: string) | TimedOut | TooLong

  /**
   `readLine`: every attempt lets the IO work and then takes bytes up to a carriage return; a line
   feed after it is taken only if it is there already. `acc` is what earlier attempts have stored.
   */
  function ReadLine(c: Conn, acc: string, retries: nat): (r: (LineResult, Conn))
    ensures |Stream(r.1)| <= |Stream(c)| && (r.0.Line? ==> |Stream(r.1)| < |Stream(c)|)
    decreases retries
  {
    var d := DoWork(c);
    var i := FindCr(d.received);
    if |acc| + i >= TEMP_BUFFER_SIZE - 1 then (TooLong, Conn("", d.coming))
    else if i < |d.received| then
      (Line(acc + d.received[..i]), Conn(d.received[AfterCr(d.received, i)..], d.coming))
    else if retries > 0 then ReadLine(Conn("", d.coming), acc + d.received, retries - 1)
    else (TimedOut, Conn("", d.coming))
  }

  lemma ReadLineStep(c: Conn, acc: string, retries: nat)
    ensures var d := DoWork(c);
            var i := FindCr(d.received);
            ReadLine(c, acc, retries) ==
            if |acc| + i >= TEMP_BUFFER_SIZE - 1 then (TooLong, Conn("", d.coming))
            else if i < |d.received| then
              (Line(acc + d.received[..i]), Conn(d.received[AfterCr(d.received, i)..], d.coming))
            else if retries > 0 then ReadLine(Conn("", d.coming), acc + d.received[..i], retries - 1)
            else (TimedOut, Conn("", d.coming))
  {
    hide DoWork, FindCr;
    var d := DoWork(c);
    assert d.received[..|d.received|] == d.received;
  }

  /** `conn_receive` for a positive count: None when the bytes never come. */
  function Receive(c: Conn, count: nat): (r: Option<(string, Conn)>)
    requires count > 0
    ensures r.Some? ==>
              var (bytes, d) := r.value;
              |bytes| == count && bytes + Stream(d) == Stream(c)
    decreases |c.coming|
  {
    var d := DoWork(c);
    if |d.received| >= count then
      assert d.received[..count] + (d.received[count..] + Flat(d.coming)) == d.received + Flat(d.coming);
      Some((d.received[..count], Conn(d.received[count..], d.coming)))
    else if c.coming == [] then None
    else Receive(d, count)
  }

  lemma ReceiveStep(c: Conn, count: nat)
    requires count > 0
    ensures var d := DoWork(c);
            && (|d.received| >= count ==>
                  Receive(c, count) == Some((d.received[..count], Conn(d.received[count..], d.coming))))
            && (|d.received| < count && c.coming == [] ==> Receive(c, count).None?)
            && (|d.received| < count && c.coming != [] ==>
                  Receive(c, count) == Receive(d, count) && |d.coming| < |c.coming|)
  {
  }

  // ----- the size of a chunk -----

  const SIZE_T_RANGE: nat := 0x1_0000_0000_0000_0000

  /** `ParseStringToHexadecimal`: the leading hexadecimal digits, as a size_t. */
  function HexOf(t: string): Option<nat> {
    var run := DigitRun(t, 16);
    if run == "" then None else Some(Positional(run, 16) % SIZE_T_RANGE)
  }

  // ----- the body -----

  /** Why reading failed; the code returns HTTPAPI_READ_DATA_FAILED for all of these. */
  datatype Reason = NoLine | LineTooLong | NoLineEnd

  datatype Status = Ok | ReadDataFailed(reason: Reason) | ReceiveResponseFailed

  /** What the loop comes to; a size above INT_MAX is outside this model. */
  datatype Outcome = Done(status: Status, content: string, conn: Conn) | NeverReturns | TooLarge

  /** The data of a chunk, and whether a line end follows it. */
  function TakeChunk(c: Conn, size: nat): (r: Option<(string, bool, Conn)>)
    requires size > 0
    ensures r.Some? ==> |Stream(r.value.2)| < |Stream(c)|
  {
    var data := Receive(c, size);
    if data.None? then None
    else
      var end := Receive(data.value.1, 2);
      if end.None? then None else Some((data.value.0, end.value.0 == CRLF, end.value.1))
  }

  /** The chunked branch of `ReadHTTPResponseBodyFromXIO`, into a buffer that was empty at first. */
  function ReadBody(c: Conn, content: string): Outcome
    decreases |Stream(c)|
  {
    var (line, d) := ReadLine(c, "", MAX_RECEIVE_RETRY);
    if line.TimedOut? then Done(ReadDataFailed(NoLine), content, d)
    else if line.TooLong? then Done(ReadDataFailed(LineTooLong), content, d)
    else
      var size := HexOf(line.text);
      if size.None? then Done(ReceiveResponseFailed, content, d)
      else if size.value == 0 then LastLine(d, content)
      else if size.value > INT_MAX then TooLarge
      else
        var chunk := TakeChunk(d, size.value);
        if chunk.None? then NeverReturns
        else
          var (data, ended, next) := chunk.value;
          if ended then ReadBody(next, content + data)
          else Done(ReadDataFailed(NoLineEnd), content + data, next)
  }

  /** After the chunk of size 0: the empty line, or the contents are thrown away. */
  function LastLine(c: Conn, content: string): Outcome {
    var end := Receive(c, 2);
    if end.None? then NeverReturns
    else if end.value.0 != CRLF then Done(ReadDataFailed(NoLineEnd), "", end.value.1)
    else Done(Ok, content, end.value.1)
  }

  lemma BodyWithoutLine(c: Conn, content: string)
    requires !ReadLine(c, "", MAX_RECEIVE_RETRY).0.Line?
    ensures var o := ReadBody(c, content);
            && o.Done? && o.status.ReadDataFailed? && o.content == content
            && o.conn == ReadLine(c, "", MAX_RECEIVE_RETRY).1
  {
    hide ReadLine, Receive, HexOf, Stream;
  }

  lemma BodyWithLine(c: Conn, content: string, line: string, d: Conn)
    requires ReadLine(c, "", MAX_RECEIVE_RETRY) == (Line(line), d)
    ensures |Stream(d)| < |Stream(c)|
    ensures ReadBody(c, content) ==
            var size := HexOf(line);
            if size.None? then Done(ReceiveResponseFailed, content, d)
            else if size.value == 0 then LastLine(d, content)
            else if size.value > INT_MAX then TooLarge
            else
              var chunk := TakeChunk(d, size.value);
              if chunk.None? then NeverReturns
              else
                var (data, ended, next) := chunk.value;
                if ended then ReadBody(next, content + data)
                else Done(ReadDataFailed(NoLineEnd), content + data, next)
  {
    hide ReadLine, TakeChunk, HexOf, Stream;
  }

  // ----- sizes as a server writes them -----

  function HexNumeral(n: nat): (s: string)
    ensures |s| >= 1
  {
    if n < 16 then [HexDigit(n)] else HexNumeral(n / 16) + [HexDigit(n % 16)]
  }

  lemma {:induction false} HexNumeralDenotes(n: nat)
    ensures AllDigits(HexNumeral(n), 16) && Positional(HexNumeral(n), 16) == n
  {
    if n >= 16 {
      HexNumeralDenotes(n / 16);
      assert HexNumeral(n)[..|HexNumeral(n)| - 1] == HexNumeral(n / 16);
    } else {
      assert Positional([HexDigit(n)], 16) == Positional([HexDigit(n)][..0], 16) * 16 + n;
    }
  }

  /** A size, whatever extension follows it, is read back. */
  lemma SizeReadBack(n: nat, extension: string)
    requires n < SIZE_T_RANGE && !IsDigit(Head(extension), 16)
    ensures HexOf(HexNumeral(n) + extension) == Some(n)
  {
    hide HexNumeral, DigitRun, Positional, IsDigit, Head;
    HexNumeralDenotes(n);
    DigitRunOf(HexNumeral(n), extension, 16);
  }

  function Power16(k: nat): nat {
    if k == 0 then 1 else 16 * Power16(k - 1)
  }

  lemma {:induction false} HexNumeralLength(n: nat, k: nat)
    requires n < Power16(k) && k >= 1
    ensures |HexNumeral(n)| <= k
  {
    assert Power16(1) == 16;
    if n >= 16 {
      HexNumeralLength(n / 16, k - 1);
    }
  }

  // ----- the loops -----

  /** The value of HTTPAPI_RESULT. */
  datatype Code = HTTPAPI_OK | HTTPAPI_READ_DATA_FAILED | HTTPAPI_RECEIVE_RESPONSE_FAILED

  function CodeOf(status: Status): Code {
    match status
    case Ok => HTTPAPI_OK
    case ReadDataFailed(_) => HTTPAPI_READ_DATA_FAILED
    case ReceiveResponseFailed => HTTPAPI_RECEIVE_RESPONSE_FAILED
  }

  /** The digit loop with its wrap-around at every step. */
  method ParseHexadecimal(src: string) returns (size: Option<nat>)
    ensures size == HexOf(src)
  {
    hide DigitRun, Horner, Positional, IsDigit, DigitValue, AllDigits, Head;
    if !IsDigit(Head(src), 16) {
      RunEnd(src, 16, 0);
      return None;
    }
    var value, rest: string := 0, src;
    RunStep(src, 16, 0);
    HornerIsPositional(DigitRun(src, 16), 16);
    while IsDigit(Head(rest), 16)
      invariant 0 <= value < SIZE_T_RANGE
      invariant Horner(value, DigitRun(rest, 16), 16) % SIZE_T_RANGE == Positional(DigitRun(src, 16), 16) % SIZE_T_RANGE
      decreases |rest|
    {
      RunStep(rest, 16, value);
      HornerWraps(value * 16 + DigitValue(Head(rest)), DigitRun(rest[1..], 16));
      value := (value * 16 + DigitValue(Head(rest))) % SIZE_T_RANGE;
      rest := rest[1..];
    }
    RunEnd(rest, 16, value);
    size := Some(value);
  }

  /** A remainder taken on the way does not change the remainder of the whole. */
  lemma {:induction false} HornerWraps(acc: nat, digits: string)
    requires AllDigits(digits, 16)
    ensures Horner(acc % SIZE_T_RANGE, digits, 16) % SIZE_T_RANGE == Horner(acc, digits, 16) % SIZE_T_RANGE
    decreases |digits|
  {
    var m := acc % SIZE_T_RANGE;
    if digits != "" {
      var d := DigitValue(digits[0]);
      HornerWraps(m * 16 + d, digits[1..]);
      HornerWraps(acc * 16 + d, digits[1..]);
      SameRemainder(acc, d);
    }
  }

  lemma SameRemainder(acc: nat, d: nat)
    ensures (acc % SIZE_T_RANGE * 16 + d) % SIZE_T_RANGE == (acc * 16 + d) % SIZE_T_RANGE
  {
    var q, m := acc / SIZE_T_RANGE, acc % SIZE_T_RANGE;
    assert acc == q * SIZE_T_RANGE + m;
    WholeRanges(m * 16 + d, q * 16);
  }

  lemma WholeRanges(x: nat, k: nat)
    ensures (x + k * SIZE_T_RANGE) % SIZE_T_RANGE == x % SIZE_T_RANGE
  {
    var q, r := x / SIZE_T_RANGE, x % SIZE_T_RANGE;
    assert x + k * SIZE_T_RANGE == (q + k) * SIZE_T_RANGE + r;
  }

  /** How an attempt to read a line ends: with the line, a full buffer, or the wish for more bytes. */
  datatype Attempt = Found | Full | Pending

  /** HTTP_HANDLE_DATA, as far as receiving goes, with what its IO will deliver. */
  class HttpInstance {
    var receivedBytes: array?<char>
    var receivedBytesCount: nat
    var coming: seq<string>

    ghost predicate Valid()
      reads this
    {
      if receivedBytes == null then receivedBytesCount == 0 else receivedBytesCount <= receivedBytes.Length
    }

    function Received(): (bytes: string)
      requires Valid()
      reads this, receivedBytes
      ensures |bytes| == receivedBytesCount
    {
      if receivedBytes == null then "" else receivedBytes[..receivedBytesCount]
    }

    function Value(): Conn
      requires Valid()
      reads this, receivedBytes
    {
      Conn(Received(), coming)
    }

    /** The receive buffer is the one before, a new one or none. */
    twostate predicate OwnBuffer()
      reads this
    {
      receivedBytes == old(receivedBytes) || receivedBytes == null || fresh(receivedBytes)
    }

    constructor (coming: seq<string>)
      ensures Valid() && Value() == Conn("", coming)
    {
      this.receivedBytes, this.receivedBytesCount, this.coming := null, 0, coming;
    }

    /** The realloc and memcpy. */
    method OnBytesReceived(buffer: string)
      requires Valid()
      modifies this`receivedBytes, this`receivedBytesCount
      ensures Valid() && receivedBytes != null && fresh(receivedBytes)
      ensures Received() == old(Received()) + buffer
    {
      var newReceivedBytes := new char[receivedBytesCount + |buffer|];
      forall k | 0 <= k < receivedBytesCount {
        newReceivedBytes[k] := receivedBytes[k];
      }
      forall k | 0 <= k < |buffer| {
        newReceivedBytes[receivedBytesCount + k] := buffer[k];
      }
      receivedBytes := newReceivedBytes;
      receivedBytesCount := receivedBytesCount + |buffer|;
    }

    method XioDoWork()
      requires Valid()
      modifies this
      ensures Valid() && OwnBuffer() && Value() == DoWork(old(Value()))
    {
      if coming != [] {
        var bytes := coming[0];
        coming := coming[1..];
        OnBytesReceived(bytes);
      }
    }

    /** `conn_receive_discard_buffer` */
    method DiscardBuffer()
      requires Valid()
      modifies this`receivedBytes, this`receivedBytesCount
      ensures Valid() && receivedBytes == null && Received() == ""
    {
      receivedBytes := null;
      receivedBytesCount := 0;
    }

    /** The memmove after bytes have been consumed; an empty buffer is freed. */
    method DropFront(count: nat)
      requires Valid() && count <= receivedBytesCount
      modifies this`receivedBytes, this`receivedBytesCount, receivedBytes
      ensures Valid() && OwnBuffer() && Received() == old(Received()[count..])
    {
      if count == receivedBytesCount {
        DiscardBuffer();
        return;
      }
      receivedBytesCount := receivedBytesCount - count;
      forall k | 0 <= k < receivedBytesCount {
        receivedBytes[k] := receivedBytes[k + count];
      }
    }

    /** The memcpy out of the receive buffer, and the memmove. */
    method Consume(buffer: array<char>, offset: nat, count: nat)
      requires Valid() && buffer != receivedBytes
      requires offset + count <= buffer.Length && count <= receivedBytesCount
      modifies this`receivedBytes, this`receivedBytesCount, receivedBytes, buffer
      ensures Valid() && OwnBuffer()
      ensures Received() == old(Received()[count..])
      ensures buffer[..] == old(buffer[..offset]) + old(Received()[..count]) + old(buffer[offset + count..])
    {
      CopyFront(buffer, offset, count);
      ghost var bytes, copied := Received(), buffer[..];
      DropFront(count);
      assert buffer[..] == copied;
    }

    method CopyFront(buffer: array<char>, offset: nat, count: nat)
      requires Valid() && buffer != receivedBytes
      requires offset + count <= buffer.Length && count <= receivedBytesCount
      modifies buffer
      ensures buffer[..] == old(buffer[..offset]) + Received()[..count] + old(buffer[offset + count..])
    {
      forall k | 0 <= k < count {
        buffer[offset + k] := receivedBytes[k];
      }
    }

    /** `conn_receive`; false stands for not returning at all. */
    method ConnReceive(buffer: array<char>, offset: nat, count: nat) returns (received: bool)
      requires Valid() && buffer != receivedBytes
      requires count > 0 && offset + count <= buffer.Length
      modifies this, receivedBytes, buffer
      ensures Valid() && OwnBuffer()
      ensures received == Receive(old(Value()), count).Some?
      ensures received ==>
                && buffer[offset..offset + count] == Receive(old(Value()), count).value.0
                && Value() == Receive(old(Value()), count).value.1
      ensures buffer[..offset] == old(buffer[..offset])
      ensures buffer[offset + count..] == old(buffer[offset + count..])
    {
      hide Receive, DoWork;
      while true
        invariant Valid() && OwnBuffer() && buffer != receivedBytes
        invariant Receive(Value(), count) == Receive(old(Value()), count)
        invariant buffer[..] == old(buffer[..])
        decreases |coming|
      {
        var nothingToCome := coming == [];
        ReceiveStep(Value(), count);
        XioDoWork();
        if receivedBytesCount >= count {
          Consume(buffer, offset, count);
          return true;
        }
        if nothingToCome {
          return false;
        }
      }
    }

    /** `readLine`, into the buffer of TEMP_BUFFER_SIZE characters. */
    method ReadLineInto(buf: array<char>) returns (size: int)
      requires Valid() && buf != receivedBytes && buf.Length == TEMP_BUFFER_SIZE
      modifies this, receivedBytes, buf
      ensures Valid() && OwnBuffer()
      ensures var (result, after) := ReadLine(old(Value()), "", MAX_RECEIVE_RETRY);
              && Value() == after
              && if result.Line? then 0 <= size < buf.Length && buf[..size] == result.text && buf[size] == NUL
                 else size == -1
    {
      hide FindCr, DoWork, ReadLine, AfterCr, Stream;
      var destByte, countRetry := 0, MAX_RECEIVE_RETRY;
      assert buf[..0] == "";
      while true
        invariant Valid() && OwnBuffer() && buf != receivedBytes
        invariant 0 <= destByte < TEMP_BUFFER_SIZE - 1 && countRetry >= 0
        invariant ReadLine(Value(), buf[..destByte], countRetry) == ReadLine(old(Value()), "", MAX_RECEIVE_RETRY)
        decreases countRetry
      {
        ReadLineStep(Value(), buf[..destByte], countRetry);
        var attempt;
        attempt, destByte := TryLine(buf, destByte);
        if attempt.Full? {
          return -1;
        } else if attempt.Found? {
          return destByte;
        } else if countRetry == 0 {
          return -1;
        }
        countRetry := countRetry - 1;
      }
    }

    /** One attempt: the IO works, and the bytes up to a carriage return or all there are go to the buffer. */
    method TryLine(buf: array<char>, start: nat) returns (attempt: Attempt, destByte: nat)
      requires Valid() && buf != receivedBytes && buf.Length == TEMP_BUFFER_SIZE && start < TEMP_BUFFER_SIZE - 1
      modifies this, receivedBytes, buf
      ensures Valid() && OwnBuffer()
      ensures var d := DoWork(old(Value()));
              var i := FindCr(d.received);
              if start + i >= TEMP_BUFFER_SIZE - 1 then attempt == Full && Value() == Conn("", d.coming)
              else
                && destByte == start + i
                && buf[..destByte] == old(buf[..start]) + d.received[..i]
                && if i < |d.received|
                   then attempt == Found && buf[destByte] == NUL
                        && Value() == Conn(d.received[AfterCr(d.received, i)..], d.coming)
                   else attempt == Pending && Value() == Conn("", d.coming)
    {
      hide FindCr, DoWork, AfterCr, Stream;
      XioDoWork();
      var i, tooLong := CopyToCr(buf, start);
      destByte := start + i;
      if tooLong {
        DiscardBuffer();
        attempt := Full;
      } else if i < receivedBytesCount {
        buf[destByte] := NUL;
        TakeLineEnd(i);
        attempt := Found;
      } else {
        DiscardBuffer();
        attempt := Pending;
      }
    }

    method TakeLineEnd(cr: nat)
      requires Valid() && cr < receivedBytesCount
      modifies this`receivedBytes, this`receivedBytesCount, receivedBytes
      ensures Valid() && OwnBuffer() && Received() == old(Received()[AfterCr(Received(), cr)..])
    {
      var next := cr + 1;
      if next < receivedBytesCount && receivedBytes[next] == '\n' {
        next := next + 1;
      }
      DropFront(next);
    }

    /** The inner loop: bytes are stored up to a carriage return or until the buffer is full. */
    method CopyToCr(buf: array<char>, start: nat) returns (i: nat, tooLong: bool)
      requires Valid() && buf != receivedBytes && buf.Length == TEMP_BUFFER_SIZE && start < TEMP_BUFFER_SIZE - 1
      modifies buf
      ensures tooLong == (start + FindCr(Received()) >= TEMP_BUFFER_SIZE - 1)
      ensures !tooLong ==> i == FindCr(Received()) && buf[..start + i] == old(buf[..start]) + Received()[..i]
    {
      hide FindCr;
      i, tooLong := 0, false;
      ghost var bytes := Received();
      while i < receivedBytesCount && receivedBytes[i] != '\r'
        invariant 0 <= i <= receivedBytesCount && start + i < TEMP_BUFFER_SIZE - 1
        invariant Received() == bytes
        invariant forall k :: 0 <= k < i ==> bytes[k] != '\r'
        invariant buf[..start + i] == old(buf[..start]) + bytes[..i]
      {
        buf[start + i] := receivedBytes[i];
        i := i + 1;
        if start + i >= TEMP_BUFFER_SIZE - 1 {
          return i, true;
        }
      }
    }

    /**
     `readChunk`, for a size that fits int: the first call of conn_receive brings all of it. False
     stands for not returning.
     */
    method ReadChunk(buffer: array<char>, offset: nat, size: nat) returns (received: bool)
      requires Valid() && buffer != receivedBytes
      requires 0 < size <= INT_MAX && offset + size <= buffer.Length
      modifies this, receivedBytes, buffer
      ensures Valid() && OwnBuffer()
      ensures received == Receive(old(Value()), size).Some?
      ensures received ==>
                && buffer[offset..offset + size] == Receive(old(Value()), size).value.0
                && Value() == Receive(old(Value()), size).value.1
      ensures buffer[..offset] == old(buffer[..offset])
    {
      hide Receive;
      var remaining, at := size, offset;
      while remaining > 0
        invariant Valid() && OwnBuffer()
        invariant (remaining == size && at == offset && buffer != receivedBytes) || remaining == 0
        invariant remaining == size ==> Value() == old(Value()) && buffer[..] == old(buffer[..])
        invariant remaining == 0 ==>
                    && Receive(old(Value()), size).Some?
                    && buffer[offset..offset + size] == Receive(old(Value()), size).value.0
                    && Value() == Receive(old(Value()), size).value.1
        invariant buffer[..offset] == old(buffer[..offset])
      {
        var ok := ConnReceive(buffer, at, remaining);
        if !ok {
          return false;
        }
        at, remaining := at + remaining, 0;
      }
      received := true;
    }

    /** The line end after a chunk, read into the line buffer. */
    method ReadLineEnd(buf: array<char>) returns (found: Option<bool>)
      requires Valid() && buf != receivedBytes && buf.Length == TEMP_BUFFER_SIZE
      modifies this, receivedBytes, buf
      ensures Valid() && OwnBuffer()
      ensures var end := Receive(old(Value()), 2);
              if end.None? then found.None?
              else found == Some(end.value.0 == CRLF) && Value() == end.value.1
    {
      hide Receive;
      var received := ReadChunk(buf, 0, 2);
      if !received {
        return None;
      }
      assert buf[0..2] == [buf[0], buf[1]];
      found := Some(buf[0] == '\r' && buf[1] == '\n');
    }

    /** `BUFFER_enlarge`: what is added holds arbitrary bytes. */
    method Enlarge(content: array<char>, size: nat) returns (enlarged: array<char>)
      ensures fresh(enlarged) && enlarged.Length == content.Length + size
      ensures enlarged[..content.Length] == content[..]
    {
      enlarged := new char[content.Length + size];
      forall k | 0 <= k < content.Length {
        enlarged[k] := content[k];
      }
    }

    /** One chunk of the given size, appended to the content, and whether a line end follows it. */
    method ReadData(content: array<char>, buf: array<char>, size: nat)
      returns (enlarged: array<char>, ended: Option<bool>)
      requires Valid() && buf != receivedBytes
      requires 0 < size <= INT_MAX && buf.Length == TEMP_BUFFER_SIZE
      modifies this, receivedBytes, buf
      ensures Valid() && OwnBuffer() && fresh(enlarged) && enlarged != receivedBytes
      ensures var chunk := TakeChunk(old(Value()), size);
              if chunk.None? then ended.None?
              else
                var (data, whole, next) := chunk.value;
                ended == Some(whole) && enlarged[..] == old(content[..]) + data && Value() == next
    {
      hide Receive, Stream;
      enlarged := Enlarge(content, size);
      var at := content.Length;
      var received := ReadChunk(enlarged, at, size);
      if !received {
        return enlarged, None;
      }
      assert enlarged[..] == enlarged[..at] + enlarged[at..at + size];
      ended := ReadLineEnd(buf);
    }

    /**
     The chunked branch of `ReadHTTPResponseBodyFromXIO`, into an initially empty buffer. No result
     stands for not returning, or for a chunk size that does not fit int.
     */
    method ReadChunkedBody() returns (result: Option<Code>, content: array<char>)
      requires Valid()
      modifies this, receivedBytes
      ensures Valid() && OwnBuffer()
      ensures var outcome := ReadBody(old(Value()), "");
              if outcome.Done? then
                result == Some(CodeOf(outcome.status)) && content[..] == outcome.content && Value() == outcome.conn
              else result.None?
    {
      hide ReadBody, ReadLine, Receive, HexOf, TakeChunk, Stream;
      var buf := new char[TEMP_BUFFER_SIZE];
      content := new char[0];
      ghost var start := Value();
      assert content[..] == "";
      while true
        invariant Valid() && OwnBuffer() && buf != receivedBytes && content != receivedBytes
        invariant fresh(buf) && fresh(content) && content != buf && buf.Length == TEMP_BUFFER_SIZE
        invariant ReadBody(Value(), content[..]) == ReadBody(start, "")
        decreases |Stream(Value())|
      {
        ghost var c, text := Value(), content[..];
        var lineSize := ReadLineInto(buf);
        if lineSize < 0 {
          BodyWithoutLine(c, text);
          return Some(HTTPAPI_READ_DATA_FAILED), content;
        }
        var line := buf[..lineSize];
        ghost var d := Value();
        var size := ParseHexadecimal(line);
        BodyWithLine(c, text, line, d);
        if size.None? {
          return Some(HTTPAPI_RECEIVE_RESPONSE_FAILED), content;
        } else if size.value == 0 {
          var found := ReadLineEnd(buf);
          if found.None? {
            return None, content;
          } else if !found.value {
            content := new char[0];
            assert content[..] == "";
            return Some(HTTPAPI_READ_DATA_FAILED), content;
          }
          return Some(HTTPAPI_OK), content;
        } else if size.value > INT_MAX {
          return None, content;
        }
        var ended;
        content, ended := ReadData(content, buf, size.value);
        if ended.None? {
          return None, content;
        } else if !ended.value {
          return Some(HTTPAPI_READ_DATA_FAILED), content;
        }
      }
    }
  }
}
