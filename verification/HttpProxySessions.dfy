/**
 A session of the HTTP proxy IO that starts with bytes of an earlier one in its receive buffer.
 http_proxy_io_open does not empty the buffer, so this is how every later session starts.
 */
module HttpProxySessions {
  import opened Options
  import opened CString
  import opened Strtoull
  import opened HttpProxyIo

  function Start(kept: string): Proxy {
    Proxy(WaitingForConnectResponse, kept, [])
  }

  /** Every stream with a decided header has the outcome it calls for, in any pieces. */
  ghost predicate Reliable(kept: string) {
    forall chunks: seq<string> :: Decided(Flat(chunks)) ==> Observed(Feed(Start(kept), chunks)) == Outcome(Flat(chunks))
  }

  /** A reopened session whose CONNECT request has gone out waits with what the buffer holds. */
  lemma ReopenedStartsWithOldBytes(p: Proxy)
    requires p.state == Closed
    ensures var next := Run(p, [OpenIo(true), UnderlyingOpen(Ok, true)]);
            next.state == WaitingForConnectResponse && next.buffer == p.buffer && next.log == p.log
  {
    var events := [OpenIo(true), UnderlyingOpen(Ok, true)];
    assert events[1..][1..] == [] && events[1..][0] == events[1];
    assert Run(p, events) == Run(Next(p, events[0]), events[1..]);
    assert Run(Next(p, events[0]), events[1..]) == Run(Next(Next(p, events[0]), events[1]), events[1..][1..]);
  }

  // ----- two answers that decide -----

  const ACCEPTING := "HTTP/1.1 200" + HEADER_END
  const REFUSING := "H" + ACCEPTING

  lemma {:induction false} FindEndAfter(a: string)
    requires forall k :: 0 <= k < |a| ==> a[k] != '\r'
    ensures FindEnd(a + HEADER_END) == Some(|a| + 4)
  {
    var t := a + HEADER_END;
    if a == "" {
      assert t == HEADER_END && t[..4] == t;
    } else {
      assert t[0] == a[0];
      assert t[..4][0] == a[0] && HEADER_END[0] == '\r';
      assert t[1..] == a[1..] + HEADER_END;
      FindEndAfter(a[1..]);
    }
  }

  lemma HeaderAlone(a: string)
    requires forall k :: 0 <= k < |a| ==> a[k] != '\r' && a[k] != NUL
    ensures var t := a + HEADER_END;
            NulFree(t) && UpToNul(t) == t && HeaderEnd(t) == Some(|t|) && t[..|t|] == t && t[|t|..] == ""
  {
    hide FindEnd, UpToNul;
    FindEndAfter(a);
    NulFreeEnd();
    var t := a + HEADER_END;
    assert forall k :: 0 <= k < |t| ==> t[k] == if k < |a| then a[k] else HEADER_END[k - |a|];
  }

  lemma NulFreeEnd()
    ensures NulFree(HEADER_END)
  {
  }

  lemma {:induction false} DigitRunStops(a: string, b: string, radix: int)
    requires !IsDigit(Head(b), radix)
    ensures DigitRun(a + b, radix) == DigitRun(a, radix)
  {
    if a == "" {
      assert a + b == b;
    } else if IsDigit(a[0], radix) {
      assert (a + b)[1..] == a[1..] + b;
      DigitRunStops(a[1..], b, radix);
    }
  }

  lemma AcceptingText()
    ensures IsHttp(ACCEPTING) && StatusText(ACCEPTING) == Some(" 200" + HEADER_END)
    ensures SkipSpaces(" 200" + HEADER_END) == "200" + HEADER_END
  {
    hide SkipTo, SkipSpaces, IsHttp;
    AcceptingPieces();
    SkipToIn("1", ".1" + (" 200" + HEADER_END), '.');
    SkipToIn(".1", " 200" + HEADER_END, ' ');
    NoDot();
    SpaceSkipped();
  }

  lemma AcceptingPieces()
    ensures IsHttp(ACCEPTING) && ACCEPTING[5..] == "1" + (".1" + (" 200" + HEADER_END))
    ensures NulFree("1") && NulFree(".1")
  {
    assert ACCEPTING == "HTTP/" + ("1" + (".1" + (" 200" + HEADER_END)));
  }

  lemma NoDot()
    ensures SkipTo("1", '.').None? && SkipTo(".1", ' ').None?
    ensures SkipTo(".1" + (" 200" + HEADER_END), '.') == Some(".1" + (" 200" + HEADER_END))
    ensures SkipTo(" 200" + HEADER_END, ' ') == Some(" 200" + HEADER_END)
  {
    assert "1"[1..] == "" && ".1"[1..] == "1";
  }

  lemma SpaceSkipped()
    ensures SkipSpaces(" 200" + HEADER_END) == "200" + HEADER_END
  {
    var t := " 200" + HEADER_END;
    assert t[1..] == "200" + HEADER_END;
    assert SkipSpaces(t[1..]) == t[1..];
  }

  lemma AcceptingValue()
    ensures SignedValue("200" + HEADER_END) == Some(200)
  {
    hide DigitRun, Positional;
    var t := "200" + HEADER_END;
    DigitRunStops("200", HEADER_END, 10);
    Digits200();
    assert Head(t) == '2' && SkipSign(t) == t && StandardPrefix(t, 0) == (t, 10);
  }

  lemma AcceptingOutcome()
    ensures Decided(ACCEPTING) && Outcome(ACCEPTING) == (Open, [OpenComplete(Ok)], "")
  {
    hide HeaderEnd, StatusText, SkipSpaces, SignedValue, UpToNul, NulFree;
    HeaderAlone("HTTP/1.1 200");
    AcceptingText();
    AcceptingValue();
    Value200();
  }

  lemma RefusingOutcome()
    ensures Decided(REFUSING) && Outcome(REFUSING) == (Closed, [OpenComplete(Failed)], "")
  {
    hide HeaderEnd, StatusText, UpToNul, NulFree;
    assert REFUSING == "HHTTP/1.1 200" + HEADER_END;
    HeaderAlone("HHTTP/1.1 200");
    assert REFUSING[..5][1] == 'H';
    NotHttpStatus(REFUSING);
  }

  // ----- old bytes before an answer -----

  /** Old bytes end before the 'H' of an answer; a status code begun in them ends there. */
  lemma SignedValueBeforeH(w: string, y: string, z: string)
    ensures SignedValue(w + ("H" + y)) == SignedValue(w + ("H" + z))
  {
    hide DigitRun, Positional, StandardPrefix, IsDigit, DigitValue;
    var u := SkipSign(w);
    SignBeforeH(w, y);
    SignBeforeH(w, z);
    var r := PrefixBeforeH(u, y, z);
    var (t, radix) := r;
    NotDigitH(y, radix);
    NotDigitH(z, radix);
    DigitRunStops(t, "H" + y, radix);
    DigitRunStops(t, "H" + z, radix);
  }

  lemma SignBeforeH(w: string, y: string)
    ensures SkipSign(w + ("H" + y)) == SkipSign(w) + ("H" + y)
    ensures Head(w + ("H" + y)) == if w == "" then 'H' else w[0]
  {
    if w == "" {
      assert w + ("H" + y) == "H" + y;
    } else {
      assert (w + ("H" + y))[1..] == w[1..] + ("H" + y);
    }
  }

  /** The radix prefix is found in the old bytes or not at all. */
  lemma PrefixBeforeH(u: string, y: string, z: string) returns (r: (string, int))
    ensures r.1 <= 16
    ensures StandardPrefix(u + ("H" + y), 0) == (r.0 + ("H" + y), r.1)
    ensures StandardPrefix(u + ("H" + z), 0) == (r.0 + ("H" + z), r.1)
  {
    r := StandardPrefix(u, 0);
    if |u| < 2 && Head(u) == '0' {
      r := (u, 8);
    }
    PrefixOf(u, y, r);
    PrefixOf(u, z, r);
  }

  lemma PrefixOf(u: string, y: string, r: (string, int))
    requires r == if |u| < 2 && Head(u) == '0' then (u, 8) else StandardPrefix(u, 0)
    ensures r.1 <= 16 && StandardPrefix(u + ("H" + y), 0) == (r.0 + ("H" + y), r.1)
  {
    var t := u + ("H" + y);
    assert |u| >= 1 ==> At(t, 0) == u[0];
    assert |u| >= 2 ==> At(t, 1) == u[1] && t[2..] == u[2..] + ("H" + y);
    assert |u| >= 3 ==> At(t, 2) == u[2];
    assert |u| <= 2 ==> At(t, |u|) == 'H';
  }

  lemma NotDigitH(y: string, radix: int)
    requires radix <= 16
    ensures !IsDigit(Head("H" + y), radix)
  {
  }

  lemma StrtolBeforeH(v: string, y: string, z: string)
    ensures Strtol(v + ("H" + y)) == Strtol(v + ("H" + z))
  {
    hide SkipSpaces, SignedValue;
    SkipSpacesIn(v, "H" + y);
    SkipSpacesIn(v, "H" + z);
    if SkipSpaces(v) != "" {
      SignedValueBeforeH(SkipSpaces(v), y, z);
    } else {
      NoSpacesH(y);
      NoSpacesH(z);
      SignedValueBeforeH("", y, z);
      assert "" + ("H" + y) == "H" + y && "" + ("H" + z) == "H" + z;
    }
  }

  lemma NoSpacesH(y: string)
    ensures SkipSpaces("H" + y) == "H" + y
  {
  }

  lemma StatusTextAfter(kept: string, x: string)
    requires IsHttp(kept) && NulFree(kept)
    ensures StatusText(kept + x) ==
            var dot := SkipTo(kept[5..], '.');
            if StatusText(kept).Some? then Some(StatusText(kept).value + x)
            else if dot.Some? then SkipTo(x, ' ')
            else if SkipTo(x, '.').Some? then SkipTo(SkipTo(x, '.').value, ' ') else None
  {
    hide SkipTo;
    HttpPrefix(kept, x);
    SkipToIn(kept[5..], x, '.');
    var dot := SkipTo(kept[5..], '.');
    if dot.Some? {
      SkipToIn(dot.value, x, ' ');
    }
  }

  lemma SkipToAfterH(x: string, c: char)
    requires c != 'H'
    ensures SkipTo("H" + x, c) == SkipTo(x, c)
  {
    assert ("H" + x)[1..] == x;
  }

  /** One more 'H' between old bytes and an answer changes nothing about the status. */
  lemma StatusIgnoresH(kept: string)
    requires IsHttp(kept) && NulFree(kept)
    ensures Status(kept + REFUSING) == Status(kept + ACCEPTING)
  {
    hide StatusText, Strtol, SkipTo, IsHttp, NulFree;
    StatusTextAfter(kept, ACCEPTING);
    StatusTextAfter(kept, REFUSING);
    SkipToAfterH(ACCEPTING, '.');
    SkipToAfterH(ACCEPTING, ' ');
    if StatusText(kept).Some? {
      assert ACCEPTING == "H" + ACCEPTING[1..];
      StrtolBeforeH(StatusText(kept).value, ACCEPTING[1..], ACCEPTING);
    }
  }

  /** Old bytes that are no start of an answer spoil every answer. */
  lemma NotHttpAfter(kept: string)
    requires kept != "" && !IsHttp(kept)
    ensures Status(kept + ACCEPTING).None?
  {
    hide StatusText;
    var t := kept + ACCEPTING;
    if |kept| >= 5 {
      assert t[..5] == kept[..5];
    } else {
      assert t[..5][|kept|] == ACCEPTING[0] == 'H';
      assert "HTTP/"[|kept|] != 'H';
    }
    NotHttpStatus(t);
  }

  // ----- the condition -----

  lemma FedOnce(kept: string, bytes: string)
    ensures Feed(Start(kept), [bytes]) == Answered(Start(kept + bytes)) && Flat([bytes]) == bytes
  {
    assert [bytes][1..] == [] && bytes + "" == bytes;
  }

  lemma StateAnswered(heard: string)
    ensures Answered(Start(heard)).state ==
            if HeaderEnd(heard).None? then WaitingForConnectResponse
            else if Successful(Status(UpToNul(heard))) then Open else Closed
  {
    hide HeaderEnd, Status, UpToNul;
  }

  lemma EndAfter(kept: string, a: string)
    requires NulFree(kept) && forall k :: 0 <= k < |a| ==> a[k] != '\r' && a[k] != NUL
    ensures var t := kept + (a + HEADER_END); HeaderEnd(t).Some? && UpToNul(t) == t
  {
    hide FindEnd, UpToNul;
    HeaderAlone(a);
    var t := kept + (a + HEADER_END);
    UpToNulSplit(kept, a + HEADER_END);
    assert t[|t| - 4..|t|] == HEADER_END;
    FindEndIsFirst(t, |t|);
  }

  /** Any old byte makes some stream end otherwise than it should. */
  lemma OldBytesMatter(kept: string) returns (bytes: string)
    requires kept != ""
    ensures Decided(Flat([bytes]))
    ensures Observed(Feed(Start(kept), [bytes])).0 != Outcome(Flat([bytes])).0
  {
    hide HeaderEnd, Status, UpToNul, Decided, Outcome, Answered, Feed;
    if HeaderEnd(kept).Some? {
      bytes := "";
      assert kept + "" == kept;
      EmptyOutcome();
    } else if !NulFree(kept) {
      bytes := ACCEPTING;
      AcceptingOutcome();
      NulHidesAnswer(kept);
    } else if !Successful(Status(kept + ACCEPTING)) {
      bytes := ACCEPTING;
      AcceptingOutcome();
      EndAfter(kept, "HTTP/1.1 200");
    } else {
      bytes := REFUSING;
      RefusingOutcome();
      assert REFUSING == "HHTTP/1.1 200" + HEADER_END;
      EndAfter(kept, "HHTTP/1.1 200");
      if !IsHttp(kept) {
        NotHttpAfter(kept);
      }
      StatusIgnoresH(kept);
    }
    FedOnce(kept, bytes);
    StateAnswered(kept + bytes);
  }

  lemma EmptyOutcome()
    ensures Decided("") && Outcome("").0 == WaitingForConnectResponse
  {
    assert UpToNul("") == "";
  }

  lemma NulHidesAnswer(kept: string)
    requires !NulFree(kept) && HeaderEnd(kept).None?
    ensures HeaderEnd(kept + ACCEPTING).None?
  {
    hide FindEnd, UpToNul;
    UpToNulSplit(kept, ACCEPTING);
  }

  /**
   Exactly the sessions that start with an empty receive buffer treat every decided answer as it
   should be treated. So the tunnel property holds for the first open, and for a later one only if
   nothing at all of an earlier answer has been received.
   */
  lemma ReliableExactlyWhen(kept: string)
    ensures Reliable(kept) <==> kept == ""
  {
    hide Observed, Feed, Outcome, Decided, Flat;
    if kept == "" {
      forall chunks: seq<string> | Decided(Flat(chunks))
        ensures Observed(Feed(Start(kept), chunks)) == Outcome(Flat(chunks))
      {
        FragmentationIrrelevant(chunks);
      }
    } else {
      var bytes := OldBytesMatter(kept);
      assert Observed(Feed(Start(kept), [bytes])) != Outcome(Flat([bytes]));
    }
  }
}
