/** Whole lives of a proxy IO: opened, used and closed, broken by an error, or given up while opening. */
module HttpProxyLifecycle {
  import opened Options
  import opened CString
  import opened HttpProxyIo
  import opened HttpProxyAnswers

  function BytesOf(chunks: seq<string>): (events: seq<Event>)
    ensures |events| == |chunks|
  {
    if chunks == [] then [] else [UnderlyingBytes(chunks[0])] + BytesOf(chunks[1..])
  }

  lemma {:induction false} RunInParts(p: Proxy, a: seq<Event>, b: seq<Event>)
    ensures Run(p, a + b) == Run(Run(p, a), b)
    decreases |a|
  {
    hide Next;
    if a == [] {
      assert a + b == b;
    } else {
      assert (a + b)[1..] == a[1..] + b;
      RunInParts(Next(p, a[0]), a[1..], b);
    }
  }

  lemma {:induction false} FeedIsRun(p: Proxy, chunks: seq<string>)
    ensures Run(p, BytesOf(chunks)) == Feed(p, chunks)
    decreases |chunks|
  {
    hide OnUnderlyingBytes;
    if chunks != [] {
      FeedIsRun(OnUnderlyingBytes(p, chunks[0]), chunks[1..]);
      assert BytesOf(chunks)[1..] == BytesOf(chunks[1..]);
    }
  }

  lemma RunOne(p: Proxy, event: Event)
    ensures Run(p, [event]) == Next(p, event)
  {
    hide Next;
    assert [event][1..] == [];
  }

  lemma RunTwo(p: Proxy, a: Event, b: Event)
    ensures Run(p, [a, b]) == Next(Next(p, a), b)
  {
    hide Next;
    assert [a, b][1..] == [b];
    RunOne(Next(p, a), b);
  }

  /** Everything received while open is passed up. */
  lemma {:induction false} PassedUp(p: Proxy, chunks: seq<string>)
    requires p.state == Open
    ensures var q := Feed(p, chunks);
            && q.state == Open && Completes(q.log) == Completes(p.log)
            && Delivered(q.log) == Delivered(p.log) + Flat(chunks)
    decreases |chunks|
  {
    hide Completes, Delivered;
    if chunks == [] {
      assert Delivered(p.log) + "" == Delivered(p.log);
    } else {
      CompletesSnoc(p.log, Received(chunks[0]));
      DeliveredSnoc(p.log, Received(chunks[0]));
      PassedUp(OnUnderlyingBytes(p, chunks[0]), chunks[1..]);
      assert Completes(p.log) + [] == Completes(p.log);
      assert Delivered(p.log) + chunks[0] + Flat(chunks[1..]) == Delivered(p.log) + Flat(chunks);
    }
  }

  /** Nothing received in a broken instance is. */
  lemma {:induction false} Ignored(p: Proxy, chunks: seq<string>)
    requires p.state == Error
    ensures Feed(p, chunks) == p
    decreases |chunks|
  {
    if chunks != [] {
      Ignored(p, chunks[1..]);
    }
  }

  lemma Noted(p: Proxy, state: State, upward: Upward)
    requires !upward.Received?
    ensures var q := Told(p, state, upward);
            && q.state == state && Completes(q.log) == Completes(p.log) + [upward]
            && Delivered(q.log) == Delivered(p.log)
  {
    hide Completes, Delivered;
    CompletesSnoc(p.log, upward);
    DeliveredSnoc(p.log, upward);
    assert Delivered(p.log) + "" == Delivered(p.log);
  }

  const STARTED: seq<Event> := [OpenIo(true), UnderlyingOpen(Ok, true)]
  const ENDED: seq<Event> := [CloseIo(true), UnderlyingClosed(true)]

  lemma Started()
    ensures Run(CREATED, STARTED) == WAITING
  {
    RunTwo(CREATED, OpenIo(true), UnderlyingOpen(Ok, true));
  }

  /** The answer in any pieces, then traffic in any pieces. */
  lemma Used(chunks: seq<string>, head: string, tail: string, a: string, b: string, d: string, more: string,
             later: seq<string>)
    requires Flat(chunks) == head + tail && IsAnswer(head, a, b, d + more)
    requires |d| == 3 && d[0] == '2' && d[1] in "0123456789" && d[2] in "0123456789"
    requires more == "" || more[0] !in "0123456789"
    ensures Opened(Run(CREATED, STARTED + BytesOf(chunks) + BytesOf(later)), tail + Flat(later))
  {
    hide IsAnswer, Feed, Run, Completes, Delivered, Flat;
    RunInParts(CREATED, STARTED + BytesOf(chunks), BytesOf(later));
    RunInParts(CREATED, STARTED, BytesOf(chunks));
    Started();
    FeedIsRun(WAITING, chunks);
    CodeDecides(chunks, head, tail, a, b, d, more);
    var p := Feed(WAITING, chunks);
    FeedIsRun(p, later);
    PassedUp(p, later);
  }

  /**
   A whole life: opened by an answer that starts with a 2, used, and closed. Above, one open-complete
   and one close-complete are seen, and exactly the bytes behind the header.
   */
  lemma WholeLife(chunks: seq<string>, head: string, tail: string, a: string, b: string, d: string, more: string,
                  later: seq<string>)
    requires Flat(chunks) == head + tail && IsAnswer(head, a, b, d + more)
    requires |d| == 3 && d[0] == '2' && d[1] in "0123456789" && d[2] in "0123456789"
    requires more == "" || more[0] !in "0123456789"
    ensures var p := Run(CREATED, STARTED + BytesOf(chunks) + BytesOf(later) + ENDED);
            && p.state == Closed && Completes(p.log) == [OpenComplete(Ok), CloseComplete]
            && Delivered(p.log) == tail + Flat(later)
  {
    hide IsAnswer, Run, Completes, Delivered, Flat, BytesOf;
    var events := STARTED + BytesOf(chunks) + BytesOf(later);
    Used(chunks, head, tail, a, b, d, more, later);
    RunInParts(CREATED, events, ENDED);
    var p := Run(CREATED, events);
    RunTwo(p, CloseIo(true), UnderlyingClosed(true));
    Noted(p.(state := Closing), Closed, CloseComplete);
    assert [OpenComplete(Ok)] + [CloseComplete] == [OpenComplete(Ok), CloseComplete];
  }

  /** A life broken by errors: the first is passed up, nothing else is until it has been closed. */
  lemma BrokenLife(chunks: seq<string>, head: string, tail: string, a: string, b: string, d: string, more: string,
                   later: seq<string>, lost: seq<string>)
    requires Flat(chunks) == head + tail && IsAnswer(head, a, b, d + more)
    requires |d| == 3 && d[0] == '2' && d[1] in "0123456789" && d[2] in "0123456789"
    requires more == "" || more[0] !in "0123456789"
    ensures var events := STARTED + BytesOf(chunks) + BytesOf(later) + [UnderlyingError] + BytesOf(lost);
            var p, q := Run(CREATED, events + [UnderlyingError]), Run(CREATED, events + ENDED);
            && p.state == Error && Completes(p.log) == [OpenComplete(Ok), IoError]
            && Delivered(p.log) == tail + Flat(later)
            && q.state == Closed && Completes(q.log) == [OpenComplete(Ok), IoError, CloseComplete]
            && Delivered(q.log) == tail + Flat(later)
  {
    hide IsAnswer, Run, Completes, Delivered, Flat, BytesOf, Feed;
    var events := STARTED + BytesOf(chunks) + BytesOf(later);
    Used(chunks, head, tail, a, b, d, more, later);
    var open := Run(CREATED, events);
    RunInParts(CREATED, events, [UnderlyingError]);
    RunInParts(CREATED, events + [UnderlyingError], BytesOf(lost));
    RunOne(open, UnderlyingError);
    Noted(open, Error, IoError);
    var broken := Told(open, Error, IoError);
    FeedIsRun(broken, lost);
    Ignored(broken, lost);
    RunInParts(CREATED, events + [UnderlyingError] + BytesOf(lost), [UnderlyingError]);
    RunInParts(CREATED, events + [UnderlyingError] + BytesOf(lost), ENDED);
    RunOne(broken, UnderlyingError);
    RunTwo(broken, CloseIo(true), UnderlyingClosed(true));
    Noted(broken.(state := Closing), Closed, CloseComplete);
    assert [OpenComplete(Ok)] + [IoError] == [OpenComplete(Ok), IoError];
    assert [OpenComplete(Ok), IoError] + [CloseComplete] == [OpenComplete(Ok), IoError, CloseComplete];
  }

  /** An open that is given up, or fails, at any point before an answer: one open-complete tells which. */
  lemma OpenAbandoned(closing: bool, sent: bool)
    ensures var cancelled := Proxy(Closed, "", [OpenComplete(Cancelled)]);
            var failed := Proxy(Closed, "", [OpenComplete(Failed)]);
            && Run(CREATED, [OpenIo(true), CloseIo(closing)]) == cancelled
            && Run(CREATED, [OpenIo(true), UnderlyingOpen(Cancelled, sent)]) == cancelled
            && Run(CREATED, [OpenIo(true), UnderlyingOpen(Failed, sent)]) == failed
            && Run(CREATED, [OpenIo(true), UnderlyingOpen(Ok, false)]) == failed
            && Run(CREATED, [OpenIo(true), UnderlyingError]) == failed
            && Run(CREATED, [OpenIo(true), UnderlyingBytes("")]) == failed
            && Run(CREATED, STARTED + [CloseIo(closing)]) == cancelled
            && Run(CREATED, STARTED + [UnderlyingError]) == failed
            && Run(CREATED, [OpenIo(false)]) == CREATED
  {
    RunTwo(CREATED, OpenIo(true), CloseIo(closing));
    RunTwo(CREATED, OpenIo(true), UnderlyingOpen(Cancelled, sent));
    RunTwo(CREATED, OpenIo(true), UnderlyingOpen(Failed, sent));
    RunTwo(CREATED, OpenIo(true), UnderlyingOpen(Ok, false));
    RunTwo(CREATED, OpenIo(true), UnderlyingError);
    RunTwo(CREATED, OpenIo(true), UnderlyingBytes(""));
    RunOne(CREATED, OpenIo(false));
    Started();
    hide Run;
    RunInParts(CREATED, STARTED, [CloseIo(closing)]);
    RunInParts(CREATED, STARTED, [UnderlyingError]);
    RunOne(WAITING, CloseIo(closing));
    RunOne(WAITING, UnderlyingError);
  }
}
