/**
 The sending side of socketio_berkeley.c: a queue of what the socket would not take at once. The
 results of the system call `send` are parameters; everything it took is the wire.
 */
module SocketIo {
  import opened Options

  type byte = bv8

  datatype IoState = Closed | Opening | Open | Closing | Error

  /** A PENDING_SOCKET_IO; the identity stands for the callback and its context. */
  datatype Pending = Pending(id: nat, bytes: seq<byte>)

  /** What `send` returns: a number of bytes (never more than were offered), or -1 and errno. */
  datatype Reply = Took(count: nat) | Again | Hard

  datatype Event = SendComplete(id: nat) | IoError

  /** The instance, with the bytes the socket has taken and the callbacks made so far. */
  datatype Io = Io(state: IoState, pending: seq<Pending>, wire: seq<byte>, log: seq<Event>)

  const OPENED := Io(Open, [], [], [])

  datatype Step =
    | Send(id: nat, buffer: Option<seq<byte>>, reply: Reply)
    | DoWork(replies: seq<Reply>)
    | Close

  function Min(a: nat, b: nat): nat {
    if a < b then a else b
  }

  // ----- the three operations -----

  /** `socketio_send`: the new state and whether 0 is returned. */
  function SendStep(s: Io, id: nat, buffer: Option<seq<byte>>, reply: Reply): (Io, bool) {
    if buffer.None? || buffer.value == [] || s.state != Open then (s, false)
    else if s.pending != [] then (s.(pending := s.pending + [Pending(id, buffer.value)]), true)
    else match reply
      case Again => (s, true)
      case Hard => (s, false)
      case Took(count) =>
        var n := Min(count, |buffer.value|);
        if n == |buffer.value| then (s.(wire := s.wire + buffer.value, log := s.log + [SendComplete(id)]), true)
        else (s.(wire := s.wire + buffer.value[..n], pending := [Pending(id, buffer.value[n..])]), true)
  }

  /** The sending loop of `socketio_dowork`; when the replies run out the socket is full. */
  function Drain(s: Io, replies: seq<Reply>): Io
    decreases |s.pending|
  {
    if s.pending == [] || replies == [] then s
    else
      var head, rest := s.pending[0], s.pending[1..];
      match replies[0]
      case Again => s
      case Hard => Drain(Io(Error, rest, s.wire, s.log + [IoError]), replies[1..])
      case Took(count) =>
        var n := Min(count, |head.bytes|);
        if n == |head.bytes| then
          Drain(Io(s.state, rest, s.wire + head.bytes, s.log + [SendComplete(head.id)]), replies[1..])
        else s.(pending := [Pending(head.id, head.bytes[n..])] + rest, wire := s.wire + head.bytes[..n])
  }

  function CloseStep(s: Io): Io {
    if s.state != Closed && s.state != Closing then s.(state := Closed) else s
  }

  function Next(s: Io, step: Step): Io {
    match step
    case Send(id, buffer, reply) => SendStep(s, id, buffer, reply).0
    case DoWork(replies) => Drain(s, replies)
    case Close => CloseStep(s)
  }

  function Run(s: Io, steps: seq<Step>): Io
    decreases |steps|
  {
    if steps == [] then s else Run(Next(s, steps[0]), steps[1..])
  }

  // ----- the buffers a run has undertaken to send -----

  /** A buffer whose send returned 0, unless the queue was empty and the socket said EAGAIN. */
  function Taken(s: Io, step: Step): seq<Pending> {
    if step.Send? && SendStep(s, step.id, step.buffer, step.reply).1 && !(s.pending == [] && step.reply == Again)
    then [Pending(step.id, step.buffer.value)]
    else []
  }

  function Accepted(s: Io, steps: seq<Step>): seq<Pending>
    decreases |steps|
  {
    if steps == [] then [] else Taken(s, steps[0]) + Accepted(Next(s, steps[0]), steps[1..])
  }

  /** With an empty queue EAGAIN is reported as success although nothing of the buffer is kept. */
  lemma DroppedExactlyWhen(s: Io, id: nat, buffer: Option<seq<byte>>, reply: Reply)
    requires SendStep(s, id, buffer, reply).1
    ensures SendStep(s, id, buffer, reply).0 == s <==> s.pending == [] && reply == Again
  {
    var after := SendStep(s, id, buffer, reply).0;
    assert |after.pending| + |after.log| > |s.pending| + |s.log| || (s.pending == [] && reply == Again);
  }

  // ----- accounts -----

  function Flat(jobs: seq<Pending>): seq<byte> {
    if jobs == [] then [] else jobs[0].bytes + Flat(jobs[1..])
  }

  /** What left of a buffer: all of it, or what a hard error left on the wire. */
  function Part(job: Pending, cut: Option<nat>): seq<byte> {
    if cut.None? then job.bytes else job.bytes[..Min(cut.value, |job.bytes|)]
  }

  function Parts(jobs: seq<Pending>, cuts: seq<Option<nat>>): seq<byte>
    requires |cuts| <= |jobs|
    decreases |cuts|
  {
    if cuts == [] then []
    else
      var last := |cuts| - 1;
      Parts(jobs, cuts[..last]) + Part(jobs[last], cuts[last])
  }

  function Events(jobs: seq<Pending>, cuts: seq<Option<nat>>): seq<Event>
    requires |cuts| <= |jobs|
    decreases |cuts|
  {
    if cuts == [] then []
    else
      var last := |cuts| - 1;
      Events(jobs, cuts[..last]) + [if cuts[last].None? then SendComplete(jobs[last].id) else IoError]
  }

  /**
   The accounts of an instance that has undertaken `jobs`: the first of them are finished, each
   wholly sent and reported complete or cut short and reported as an error, in order; the others
   are the queue, in order, and only the first of these has bytes on the wire, though not all.
   */
  ghost predicate Explains(s: Io, jobs: seq<Pending>, cuts: seq<Option<nat>>) {
    && |cuts| + |s.pending| == |jobs|
    && s.log == Events(jobs, cuts)
    && (forall i :: 0 <= i < |jobs| ==> jobs[i].bytes != [])
    && (forall i :: 0 <= i < |cuts| && cuts[i].Some? ==> cuts[i].value < |jobs[i].bytes|)
    && (if s.pending == [] then s.wire == Parts(jobs, cuts)
        else
          && s.pending[1..] == jobs[|cuts| + 1..]
          && UnderWay(s, jobs[|cuts|], Parts(jobs, cuts)))
  }

  ghost predicate UnderWay(s: Io, job: Pending, before: seq<byte>)
    requires s.pending != []
  {
    var head := s.pending[0];
    var sent := |job.bytes| - |head.bytes|;
    && head.id == job.id && head.bytes != []
    && 0 <= sent && head.bytes == job.bytes[sent..]
    && s.wire == before + job.bytes[..sent]
  }

  /** Buffers undertaken later change nothing about the finished ones. */
  lemma {:induction false} MoreJobs(jobs: seq<Pending>, more: seq<Pending>, cuts: seq<Option<nat>>)
    requires |cuts| <= |jobs|
    ensures Parts(jobs + more, cuts) == Parts(jobs, cuts)
    ensures Events(jobs + more, cuts) == Events(jobs, cuts)
    decreases |cuts|
  {
    if cuts != [] {
      MoreJobs(jobs, more, cuts[..|cuts| - 1]);
    }
  }

  lemma OneMoreCut(jobs: seq<Pending>, cuts: seq<Option<nat>>, cut: Option<nat>)
    requires |cuts| < |jobs|
    ensures Parts(jobs, cuts + [cut]) == Parts(jobs, cuts) + Part(jobs[|cuts|], cut)
    ensures Events(jobs, cuts + [cut]) ==
            Events(jobs, cuts) + [if cut.None? then SendComplete(jobs[|cuts|].id) else IoError]
  {
    assert (cuts + [cut])[..|cuts|] == cuts;
  }

  lemma SendExplained(s: Io, jobs: seq<Pending>, cuts: seq<Option<nat>>, step: Step) returns (after: seq<Option<nat>>)
    requires Explains(s, jobs, cuts) && step.Send?
    ensures Explains(Next(s, step), jobs + Taken(s, step), after)
    ensures cuts <= after
  {
    hide Parts, Events;
    var next, all := Next(s, step), jobs + Taken(s, step);
    MoreJobs(jobs, Taken(s, step), cuts);
    after := cuts;
    if Taken(s, step) == [] {
      assert all == jobs;
    } else if s.pending != [] {
      assert next.pending[1..] == all[|cuts| + 1..];
    } else {
      var job := all[|jobs|];
      assert job == Pending(step.id, step.buffer.value);
      if next.pending == [] {
        after := cuts + [None];
        OneMoreCut(all, cuts, None);
      } else {
        assert next.pending[1..] == all[|cuts| + 1..];
        assert UnderWay(next, job, Parts(all, cuts));
      }
    }
  }

  /** The head of the queue is finished, by its last byte or by a hard error. */
  lemma HeadFinished(s: Io, jobs: seq<Pending>, cuts: seq<Option<nat>>, hard: bool, next: Io)
    returns (after: seq<Option<nat>>)
    requires Explains(s, jobs, cuts) && s.pending != []
    requires next.pending == s.pending[1..]
    requires next.wire == if hard then s.wire else s.wire + s.pending[0].bytes
    requires next.log == s.log + [if hard then IoError else SendComplete(s.pending[0].id)]
    ensures Explains(next, jobs, after)
    ensures cuts <= after
  {
    hide Parts, Events, UnderWay;
    var job := jobs[|cuts|];
    var sent := |job.bytes| - |s.pending[0].bytes|;
    WholeHead(s, job, Parts(jobs, cuts));
    var cut := if hard then Some(sent) else None;
    after := cuts + [cut];
    OneMoreCut(jobs, cuts, cut);
    if next.pending != [] {
      assert next.pending[0] == jobs[|cuts| + 1];
      assert next.pending[1..] == jobs[|after| + 1..];
      NotUnderWay(next, jobs[|after|]);
    }
  }

  /** With the rest of its bytes, or without, the head leaves what its finished part says. */
  lemma WholeHead(s: Io, job: Pending, before: seq<byte>)
    requires s.pending != [] && UnderWay(s, job, before)
    ensures var head := s.pending[0];
            var sent := |job.bytes| - |head.bytes|;
            && 0 <= sent < |job.bytes| && head.id == job.id
            && s.wire == before + Part(job, Some(sent)) && s.wire + head.bytes == before + Part(job, None)
  {
    var sent := |job.bytes| - |s.pending[0].bytes|;
    assert job.bytes[..sent] + job.bytes[sent..] == job.bytes;
    assert before + job.bytes[..sent] + job.bytes[sent..] == before + (job.bytes[..sent] + job.bytes[sent..]);
  }

  lemma NotUnderWay(s: Io, job: Pending)
    requires s.pending != [] && s.pending[0] == job && job.bytes != []
    ensures UnderWay(s, job, s.wire)
  {
    assert s.wire + job.bytes[..0] == s.wire;
  }

  lemma {:induction false} DrainExplained(s: Io, jobs: seq<Pending>, cuts: seq<Option<nat>>, replies: seq<Reply>)
    returns (after: seq<Option<nat>>)
    requires Explains(s, jobs, cuts)
    ensures Explains(Drain(s, replies), jobs, after)
    ensures cuts <= after
    decreases |s.pending|
  {
    hide Explains, UnderWay;
    after := cuts;
    if s.pending != [] && replies != [] && !replies[0].Again? {
      var head, rest, reply := s.pending[0], s.pending[1..], replies[0];
      if reply.Hard? {
        var next := Io(Error, rest, s.wire, s.log + [IoError]);
        after := HeadFinished(s, jobs, cuts, true, next);
        after := DrainExplained(next, jobs, after, replies[1..]);
      } else if Min(reply.count, |head.bytes|) == |head.bytes| {
        var next := Io(s.state, rest, s.wire + head.bytes, s.log + [SendComplete(head.id)]);
        after := HeadFinished(s, jobs, cuts, false, next);
        after := DrainExplained(next, jobs, after, replies[1..]);
      } else {
        PartlySent(s, jobs, cuts, reply.count);
      }
    }
  }

  lemma PartlySent(s: Io, jobs: seq<Pending>, cuts: seq<Option<nat>>, n: nat)
    requires Explains(s, jobs, cuts) && s.pending != [] && n < |s.pending[0].bytes|
    ensures var head := s.pending[0];
            Explains(s.(pending := [Pending(head.id, head.bytes[n..])] + s.pending[1..],
                        wire := s.wire + head.bytes[..n]), jobs, cuts)
  {
    hide Parts, Events, UnderWay;
    MoreUnderWay(s, jobs[|cuts|], Parts(jobs, cuts), n);
  }

  lemma MoreUnderWay(s: Io, job: Pending, before: seq<byte>, n: nat)
    requires s.pending != [] && UnderWay(s, job, before) && n < |s.pending[0].bytes|
    ensures var head := s.pending[0];
            UnderWay(s.(pending := [Pending(head.id, head.bytes[n..])] + s.pending[1..],
                        wire := s.wire + head.bytes[..n]), job, before)
  {
    var head := s.pending[0];
    var sent := |job.bytes| - |head.bytes|;
    assert job.bytes[..sent + n] == job.bytes[..sent] + head.bytes[..n];
    assert head.bytes[n..] == job.bytes[sent + n..];
    assert s.wire + head.bytes[..n] == before + (job.bytes[..sent] + head.bytes[..n]);
  }

  lemma StepExplained(s: Io, jobs: seq<Pending>, cuts: seq<Option<nat>>, step: Step) returns (after: seq<Option<nat>>)
    requires Explains(s, jobs, cuts)
    ensures Explains(Next(s, step), jobs + Taken(s, step), after)
    ensures cuts <= after
  {
    if step.Send? {
      after := SendExplained(s, jobs, cuts, step);
    } else {
      assert jobs + [] == jobs;
      if step.DoWork? {
        after := DrainExplained(s, jobs, cuts, step.replies);
      } else {
        after := cuts;
      }
    }
  }

  lemma {:induction false} RunExplained(s: Io, jobs: seq<Pending>, cuts: seq<Option<nat>>, steps: seq<Step>)
    returns (after: seq<Option<nat>>)
    requires Explains(s, jobs, cuts)
    ensures Explains(Run(s, steps), jobs + Accepted(s, steps), after)
    ensures cuts <= after
    decreases |steps|
  {
    hide Explains;
    if steps == [] {
      after := cuts;
      assert jobs + [] == jobs;
    } else {
      after := StepExplained(s, jobs, cuts, steps[0]);
      var next, taken := Next(s, steps[0]), Taken(s, steps[0]);
      after := RunExplained(next, jobs + taken, after, steps[1..]);
      assert jobs + taken + Accepted(next, steps[1..]) == jobs + Accepted(s, steps);
    }
  }

  /**
   Every run from the opened instance, hard errors included: what is on the wire, what is queued
   and the order of the callbacks are explained by the accepted buffers alone, up to where hard
   errors cut some of them short.
   */
  lemma SendQueueAccounts(steps: seq<Step>) returns (cuts: seq<Option<nat>>)
    ensures Explains(Run(OPENED, steps), Accepted(OPENED, steps), cuts)
  {
    cuts := RunExplained(OPENED, [], [], steps);
    assert [] + Accepted(OPENED, steps) == Accepted(OPENED, steps);
  }

  // ----- runs without a hard error -----

  lemma {:induction false} NoCuts(jobs: seq<Pending>, cuts: seq<Option<nat>>)
    requires |cuts| <= |jobs| && IoError !in Events(jobs, cuts)
    ensures Parts(jobs, cuts) == Flat(jobs[..|cuts|])
    ensures |Events(jobs, cuts)| == |cuts|
    ensures forall i :: 0 <= i < |cuts| ==> Events(jobs, cuts)[i] == SendComplete(jobs[i].id)
    decreases |cuts|
  {
    if cuts == [] {
      assert jobs[..0] == [];
    } else {
      var last := |cuts| - 1;
      var events := Events(jobs, cuts[..last]);
      assert Events(jobs, cuts) == events + [if cuts[last].None? then SendComplete(jobs[last].id) else IoError];
      assert IoError !in events;
      NoCuts(jobs, cuts[..last]);
      assert Events(jobs, cuts)[last] != IoError;
      FlatSnoc(jobs[..last], jobs[last]);
      assert jobs[..last] + [jobs[last]] == jobs[..|cuts|];
    }
  }

  lemma {:induction false} FlatSplit(a: seq<Pending>, b: seq<Pending>)
    ensures Flat(a + b) == Flat(a) + Flat(b)
  {
    if a == [] {
      assert a + b == b;
    } else {
      assert (a + b)[1..] == a[1..] + b;
      FlatSplit(a[1..], b);
    }
  }

  lemma FlatSnoc(a: seq<Pending>, job: Pending)
    ensures Flat(a + [job]) == Flat(a) + job.bytes
  {
    FlatSplit(a, [job]);
    assert [job][1..] == [];
    assert Flat([job]) == job.bytes + Flat([]);
  }

  /**
   Conservation: without a hard error on the queue, the wire followed by the queue is the accepted
   buffers in order, and the completions are those of the first accepted buffers, once each and in
   order, namely of exactly those whose last byte is on the wire.
   */
  lemma Conservation(steps: seq<Step>)
    requires IoError !in Run(OPENED, steps).log
    ensures var s, jobs := Run(OPENED, steps), Accepted(OPENED, steps);
            && s.wire + Flat(s.pending) == Flat(jobs)
            && |s.log| <= |jobs|
            && (forall i :: 0 <= i < |s.log| ==> s.log[i] == SendComplete(jobs[i].id))
            && |Flat(jobs[..|s.log|])| <= |s.wire|
            && (|s.log| < |jobs| ==> |s.wire| < |Flat(jobs[..|s.log| + 1])|)
  {
    var s, jobs := Run(OPENED, steps), Accepted(OPENED, steps);
    var cuts := SendQueueAccounts(steps);
    NoCuts(jobs, cuts);
    ConservedIn(s, jobs, cuts);
  }

  lemma ConservedIn(s: Io, jobs: seq<Pending>, cuts: seq<Option<nat>>)
    requires Explains(s, jobs, cuts) && Parts(jobs, cuts) == Flat(jobs[..|cuts|])
    ensures s.wire + Flat(s.pending) == Flat(jobs)
    ensures |Flat(jobs[..|cuts|])| <= |s.wire|
    ensures |cuts| < |jobs| ==> |s.wire| < |Flat(jobs[..|cuts| + 1])|
  {
    hide Parts, Events;
    var k := |cuts|;
    if s.pending == [] {
      assert jobs[..k] == jobs;
      assert s.wire + Flat([]) == s.wire;
    } else {
      var job, head := jobs[k], s.pending[0];
      var sent := |job.bytes| - |head.bytes|;
      FlatSplit(jobs[..k], jobs[k..]);
      assert jobs == jobs[..k] + jobs[k..];
      assert jobs[k..][1..] == jobs[k + 1..] == s.pending[1..];
      var rest := Flat(s.pending[1..]);
      assert job.bytes == job.bytes[..sent] + head.bytes;
      assert s.wire + (head.bytes + rest) == Flat(jobs[..k]) + (job.bytes + rest);
      FlatSnoc(jobs[..k], job);
      assert jobs[..k] + [job] == jobs[..k + 1];
    }
  }

  // ----- the instance -----

  class SocketInstance {
    var state: IoState
    var pending: seq<Pending>
    /** What the socket has taken, and the callbacks made: the environment's side. */
    ghost var wire: seq<byte>
    ghost var log: seq<Event>

    ghost function Value(): Io
      reads this
    {
      Io(state, pending, wire, log)
    }

    /** The instance after a successful open. */
    constructor Opened()
      ensures Value() == OPENED
    {
      state, pending, wire, log := Open, [], [], [];
    }

    /** The system call, whose reply is given: it takes a prefix of what is offered. */
    ghost method Offer(bytes: seq<byte>, reply: Reply)
      modifies this`wire
      ensures reply.Took? ==> wire == old(wire) + bytes[..Min(reply.count, |bytes|)]
      ensures reply.Took? && reply.count >= |bytes| ==> wire == old(wire) + bytes
      ensures !reply.Took? ==> wire == old(wire)
    {
      if reply.Took? {
        wire := wire + bytes[..Min(reply.count, |bytes|)];
        assert bytes[..|bytes|] == bytes;
      }
    }

    method AddPendingIo(id: nat, bytes: seq<byte>)
      modifies this`pending
      ensures pending == old(pending) + [Pending(id, bytes)]
    {
      pending := pending + [Pending(id, bytes)];
    }

    /** `socketio_send`; allocation succeeds. */
    method Send(id: nat, buffer: Option<seq<byte>>, reply: Reply) returns (ok: bool)
      modifies this
      ensures (Value(), ok) == SendStep(old(Value()), id, buffer, reply)
    {
      if buffer.None? || buffer.value == [] || state != Open {
        return false;
      }
      if pending != [] {
        AddPendingIo(id, buffer.value);
        return true;
      }
      Offer(buffer.value, reply);
      if reply.Took? {
        var sent := Min(reply.count, |buffer.value|);
        if sent != |buffer.value| {
          AddPendingIo(id, buffer.value[sent..]);
          assert pending == [Pending(id, buffer.value[sent..])];
        } else {
          log := log + [SendComplete(id)];
        }
        ok := true;
      } else {
        ok := reply.Again?;
      }
    }

    /** The sending loop of `socketio_dowork`. */
    method DoWork(replies: seq<Reply>)
      modifies this
      ensures Value() == Drain(old(Value()), replies)
    {
      var used := 0;
      while pending != [] && used < |replies|
        invariant 0 <= used <= |replies|
        invariant Drain(Value(), replies[used..]) == Drain(old(Value()), replies)
        decreases |pending|
      {
        var reply, first := replies[used], pending[0];
        DrainStep(Value(), replies, used);
        Offer(first.bytes, reply);
        used := used + 1;
        if reply.Again? {
          break;
        } else if reply.Hard? {
          pending := pending[1..];
          state := Error;
          log := log + [IoError];
        } else {
          var sent := Min(reply.count, |first.bytes|);
          if sent != |first.bytes| {
            pending := [Pending(first.id, first.bytes[sent..])] + pending[1..];
            break;
          } else {
            log := log + [SendComplete(first.id)];
            pending := pending[1..];
          }
        }
      }
    }

    /** `socketio_close`: the queue is left as it is. */
    method CloseSocket()
      modifies this`state
      ensures Value() == CloseStep(old(Value()))
    {
      if state != Closed && state != Closing {
        state := Closed;
      }
    }
  }

  lemma DrainStep(s: Io, replies: seq<Reply>, used: nat)
    requires s.pending != [] && used < |replies|
    ensures var head, rest, later := s.pending[0], s.pending[1..], replies[used + 1..];
            Drain(s, replies[used..]) ==
            match replies[used]
            case Again => s
            case Hard => Drain(Io(Error, rest, s.wire, s.log + [IoError]), later)
            case Took(count) =>
              var n := Min(count, |head.bytes|);
              if n == |head.bytes| then
                Drain(Io(s.state, rest, s.wire + head.bytes, s.log + [SendComplete(head.id)]), later)
              else s.(pending := [Pending(head.id, head.bytes[n..])] + rest, wire := s.wire + head.bytes[..n])
  {
    assert replies[used..][1..] == replies[used + 1..];
  }
}
