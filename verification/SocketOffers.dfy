/**
 Which buffers socketio_send undertakes to send, told from the calls and the callbacks alone, and that
 a willing socket empties the queue.
 */
module SocketOffers {
  import opened Options
  import opened SocketIo

  /** No close so far, and no error reported. */
  ghost predicate Usable(steps: seq<Step>) {
    (forall j :: 0 <= j < |steps| ==> !steps[j].Close?) && IoError !in Run(OPENED, steps).log
  }

  ghost predicate NonEmpty(step: Step) {
    step.Send? && step.buffer.Some? && step.buffer.value != []
  }

  /** All that has been undertaken so far has had its callback. */
  ghost predicate Idle(steps: seq<Step>)
    decreases steps, 2
  {
    |Run(OPENED, steps).log| == |Offers(steps)|
  }

  /**
   The buffers undertaken: the non-empty ones given to a usable instance, except those that the
   socket itself turned down because nothing was waiting before them.
   */
  ghost function Offers(steps: seq<Step>): seq<Pending>
    decreases steps, 1
  {
    if steps == [] then []
    else
      var last := |steps| - 1;
      var before, step := steps[..last], steps[last];
      if NonEmpty(step) && Usable(before) && (Idle(before) ==> step.reply.Took?)
      then Offers(before) + [Pending(step.id, step.buffer.value)]
      else Offers(before)
  }

  // ----- runs by their last step -----

  lemma {:induction false} RunSnoc(s: Io, steps: seq<Step>, step: Step)
    ensures Run(s, steps + [step]) == Next(Run(s, steps), step)
    ensures Accepted(s, steps + [step]) == Accepted(s, steps) + Taken(Run(s, steps), step)
    decreases |steps|
  {
    hide Next, Taken;
    if steps == [] {
      assert [] + [step] == [step] && [step][1..] == [];
      assert Run(s, [step]) == Run(Next(s, step), []);
      assert Accepted(s, [step]) == Taken(s, step) + Accepted(Next(s, step), []);
    } else {
      assert (steps + [step])[1..] == steps[1..] + [step];
      RunSnoc(Next(s, steps[0]), steps[1..], step);
    }
  }

  /** What the loop adds to the log, and that an error in it is what ends the open state. */
  lemma {:induction false} DrainLog(s: Io, replies: seq<Reply>) returns (added: seq<Event>)
    ensures Drain(s, replies).log == s.log + added
    ensures Drain(s, replies).state == if IoError in added then Error else s.state
    decreases |s.pending|
  {
    added := [];
    if s.pending != [] && replies != [] && !replies[0].Again? {
      var head, rest, reply := s.pending[0], s.pending[1..], replies[0];
      if reply.Hard? {
        var more := DrainLog(Io(Error, rest, s.wire, s.log + [IoError]), replies[1..]);
        added := [IoError] + more;
      } else if Min(reply.count, |head.bytes|) == |head.bytes| {
        var more := DrainLog(Io(s.state, rest, s.wire + head.bytes, s.log + [SendComplete(head.id)]), replies[1..]);
        added := [SendComplete(head.id)] + more;
      }
    }
  }

  lemma StepState(s: Io, step: Step)
    requires s.state == Open ==> IoError !in s.log
    ensures Next(s, step).state == Open <==> s.state == Open && !step.Close? && IoError !in Next(s, step).log
    ensures IoError in s.log ==> IoError in Next(s, step).log
  {
    if step.DoWork? {
      hide Drain;
      var added := DrainLog(s, step.replies);
    }
  }

  /** The instance is open exactly as long as it has been neither closed nor broken. */
  lemma {:induction false} OpenExactlyWhen(steps: seq<Step>)
    ensures Run(OPENED, steps).state == Open <==> Usable(steps)
    decreases |steps|
  {
    if steps != [] {
      var last := |steps| - 1;
      var before, step := steps[..last], steps[last];
      OpenExactlyWhen(before);
      assert steps == before + [step];
      RunSnoc(OPENED, before, step);
      hide Run, Next;
      StepState(Run(OPENED, before), step);
      assert forall j :: 0 <= j < last ==> steps[j] == before[j];
    }
  }

  /** Until it is closed, an instance is in error exactly after an error has been reported. */
  lemma {:induction false} ErrorExactlyWhen(steps: seq<Step>)
    requires forall j :: 0 <= j < |steps| ==> !steps[j].Close?
    ensures Run(OPENED, steps).state == if IoError in Run(OPENED, steps).log then Error else Open
    decreases |steps|
  {
    if steps != [] {
      var last := |steps| - 1;
      var before, step := steps[..last], steps[last];
      ErrorExactlyWhen(before);
      assert steps == before + [step];
      RunSnoc(OPENED, before, step);
      hide Run, Drain;
      if step.DoWork? {
        var added := DrainLog(Run(OPENED, before), step.replies);
      }
    }
  }

  /** Closing closes, and leaves the queue, the wire and the callbacks as they are. */
  lemma CloseCloses(steps: seq<Step>)
    ensures Run(OPENED, steps + [Close]) == Run(OPENED, steps).(state := Closed)
  {
    RunSnoc(OPENED, steps, Close);
    NoHalfwayStates(steps);
  }

  lemma {:induction false} NoHalfwayStates(steps: seq<Step>)
    ensures Run(OPENED, steps).state in {Open, Error, Closed}
    decreases |steps|
  {
    if steps != [] {
      var last := |steps| - 1;
      NoHalfwayStates(steps[..last]);
      assert steps == steps[..last] + [steps[last]];
      RunSnoc(OPENED, steps[..last], steps[last]);
      hide Run, Drain;
      if steps[last].DoWork? {
        var added := DrainLog(Run(OPENED, steps[..last]), steps[last].replies);
      }
    }
  }

  // ----- what is undertaken -----

  lemma {:induction false} EventsCount(jobs: seq<Pending>, cuts: seq<Option<nat>>)
    requires |cuts| <= |jobs|
    ensures |Events(jobs, cuts)| == |cuts|
    decreases |cuts|
  {
    if cuts != [] {
      EventsCount(jobs, cuts[..|cuts| - 1]);
    }
  }

  /** Nothing waits exactly when there have been as many callbacks as buffers undertaken. */
  lemma NothingWaitsExactlyWhen(steps: seq<Step>)
    ensures var s := Run(OPENED, steps);
            s.pending == [] <==> |s.log| == |Accepted(OPENED, steps)|
  {
    hide Run, Accepted, Parts, Events;
    var cuts := SendQueueAccounts(steps);
    EventsCount(Accepted(OPENED, steps), cuts);
  }

  /** The buffers a run has undertaken to send are those that the calls and callbacks tell. */
  lemma {:induction false} AcceptedAreOffers(steps: seq<Step>)
    ensures Accepted(OPENED, steps) == Offers(steps)
    decreases |steps|
  {
    if steps != [] {
      var last := |steps| - 1;
      var before, step := steps[..last], steps[last];
      AcceptedAreOffers(before);
      assert steps == before + [step];
      RunSnoc(OPENED, before, step);
      OpenExactlyWhen(before);
      NothingWaitsExactlyWhen(before);
      hide Run, Accepted, Usable;
      TakenIs(Run(OPENED, before), step);
    } else {
      assert Accepted(OPENED, []) == [];
    }
  }

  lemma TakenIs(s: Io, step: Step)
    ensures Taken(s, step) ==
            if NonEmpty(step) && s.state == Open && (s.pending == [] ==> step.reply.Took?)
            then [Pending(step.id, step.buffer.value)]
            else []
  {
  }

  /**
   In every run, with hard errors and closes anywhere, socketio_send returns 0 for exactly the
   non-empty buffers given to a usable instance, unless nothing waits and the socket fails hard.
   */
  lemma SendSucceedsExactlyWhen(steps: seq<Step>, id: nat, buffer: Option<seq<byte>>, reply: Reply)
    ensures SendStep(Run(OPENED, steps), id, buffer, reply).1 <==>
            && NonEmpty(Send(id, buffer, reply)) && Usable(steps)
            && (Idle(steps) ==> reply != Hard)
  {
    hide Run, Usable;
    OpenExactlyWhen(steps);
    AcceptedAreOffers(steps);
    NothingWaitsExactlyWhen(steps);
  }

  /** Once closed or broken an instance undertakes nothing more. */
  lemma NothingAfterwards(steps: seq<Step>, more: seq<Step>)
    requires !Usable(steps)
    ensures Offers(steps + more) == Offers(steps)
    decreases |more|
  {
    if more == [] {
      assert steps + more == steps;
    } else {
      var last := |more| - 1;
      var before := steps + more[..last];
      NothingAfterwards(steps, more[..last]);
      StaysUnusable(steps, more[..last]);
      assert (steps + more)[..|steps| + last] == before;
    }
  }

  lemma {:induction false} StaysUnusable(steps: seq<Step>, more: seq<Step>)
    requires !Usable(steps)
    ensures !Usable(steps + more)
    decreases |more|
  {
    OpenExactlyWhen(steps);
    if more == [] {
      assert steps + more == steps;
    } else {
      var last := |more| - 1;
      var before := steps + more[..last];
      StaysUnusable(steps, more[..last]);
      OpenExactlyWhen(before);
      assert steps + more == before + [more[last]];
      RunSnoc(OPENED, before, more[last]);
      OpenExactlyWhen(steps + more);
      hide Run, Usable;
      NeverReopens(Run(OPENED, before), more[last]);
    }
  }

  lemma NeverReopens(s: Io, step: Step)
    requires s.state != Open
    ensures Next(s, step).state != Open
  {
    if step.DoWork? {
      hide Drain;
      var added := DrainLog(s, step.replies);
    }
  }

  /**
   Conservation told from outside: without an error reported, the wire and the queue together are the
   buffers undertaken, in order.
   */
  lemma OffersConserved(steps: seq<Step>)
    requires IoError !in Run(OPENED, steps).log
    ensures var s := Run(OPENED, steps); s.wire + Flat(s.pending) == Flat(Offers(steps))
  {
    hide Run, Accepted, Offers;
    Conservation(steps);
    AcceptedAreOffers(steps);
  }

  // ----- progress -----

  /** The socket takes each waiting buffer whole. */
  ghost predicate TakesAll(pending: seq<Pending>, replies: seq<Reply>) {
    && |pending| <= |replies|
    && forall i :: 0 <= i < |pending| ==> replies[i].Took? && replies[i].count >= |pending[i].bytes|
  }

  function Completions(pending: seq<Pending>): seq<Event> {
    if pending == [] then [] else [SendComplete(pending[0].id)] + Completions(pending[1..])
  }

  /** Then one call of socketio_dowork empties the queue onto the wire and reports every buffer. */
  lemma {:induction false} QueueSent(s: Io, replies: seq<Reply>)
    requires TakesAll(s.pending, replies)
    ensures Drain(s, replies) ==
            Io(s.state, [], s.wire + Flat(s.pending), s.log + Completions(s.pending))
    decreases |s.pending|
  {
    if s.pending == [] {
      assert s.wire + [] == s.wire && s.log + [] == s.log;
    } else {
      var head, rest := s.pending[0], s.pending[1..];
      QueueSent(Io(s.state, rest, s.wire + head.bytes, s.log + [SendComplete(head.id)]), replies[1..]);
      assert s.wire + head.bytes + Flat(rest) == s.wire + (head.bytes + Flat(rest));
      assert s.log + [SendComplete(head.id)] + Completions(rest) == s.log + Completions(s.pending);
    }
  }

  /** Each of the first k waiting buffers is taken whole or fails hard. */
  ghost predicate Decisive(pending: seq<Pending>, replies: seq<Reply>, k: nat) {
    && k <= |pending| && k <= |replies|
    && forall i :: 0 <= i < k ==> replies[i] == Hard || (replies[i].Took? && replies[i].count >= |pending[i].bytes|)
  }

  function TakenBytes(pending: seq<Pending>, replies: seq<Reply>, k: nat): seq<byte>
    requires k <= |pending| && k <= |replies|
  {
    if k == 0 then []
    else (if replies[0].Hard? then [] else pending[0].bytes) + TakenBytes(pending[1..], replies[1..], k - 1)
  }

  function Reports(pending: seq<Pending>, replies: seq<Reply>, k: nat): seq<Event>
    requires k <= |pending| && k <= |replies|
  {
    if k == 0 then []
    else
      var report := if replies[0].Hard? then IoError else SendComplete(pending[0].id);
      [report] + Reports(pending[1..], replies[1..], k - 1)
  }

  /**
   The loop settles buffer after buffer, going on after a hard error: those taken are on the wire and
   reported complete, those that fail are dropped and reported as errors, and the rest is what waits.
   */
  lemma {:induction false} QueueSettled(s: Io, replies: seq<Reply>, k: nat)
    requires Decisive(s.pending, replies, k)
    requires k < |s.pending| && k < |replies| ==> replies[k] == Again
    ensures var after := Drain(s, replies);
            && after.pending == s.pending[k..]
            && after.wire == s.wire + TakenBytes(s.pending, replies, k)
            && after.log == s.log + Reports(s.pending, replies, k)
            && after.state == if Hard in replies[..k] then Error else s.state
    decreases k
  {
    hide Drain;
    if k == 0 {
      Stops(s, replies);
      assert s.wire + [] == s.wire && s.log + [] == s.log && s.pending[0..] == s.pending;
    } else {
      var head, rest := s.pending[0], s.pending[1..];
      var hard := replies[0] == Hard;
      var bytes := if hard then [] else head.bytes;
      var report := [if hard then IoError else SendComplete(head.id)];
      var next := Io(if hard then Error else s.state, rest, s.wire + bytes, s.log + report);
      FirstSettled(s, replies, next);
      LaterSettled(s.pending, replies, k);
      QueueSettled(next, replies[1..], k - 1);
      Regrouped(s.wire, bytes, TakenBytes(rest, replies[1..], k - 1));
      Regrouped(s.log, report, Reports(rest, replies[1..], k - 1));
    }
  }

  lemma Regrouped<T>(a: seq<T>, b: seq<T>, c: seq<T>)
    ensures a + b + c == a + (b + c)
  {
  }

  lemma Stops(s: Io, replies: seq<Reply>)
    requires s.pending != [] && replies != [] ==> replies[0] == Again
    ensures Drain(s, replies) == s
  {
  }

  lemma LaterSettled(pending: seq<Pending>, replies: seq<Reply>, k: nat)
    requires Decisive(pending, replies, k) && k > 0
    ensures Decisive(pending[1..], replies[1..], k - 1)
    ensures pending[1..][k - 1..] == pending[k..]
    ensures Hard in replies[..k] <==> replies[0] == Hard || Hard in replies[1..][..k - 1]
    ensures k < |replies| ==> replies[1..][k - 1] == replies[k]
  {
    assert replies[..k] == [replies[0]] + replies[1..][..k - 1];
  }

  lemma FirstSettled(s: Io, replies: seq<Reply>, next: Io)
    requires s.pending != [] && replies != []
    requires replies[0] == Hard || (replies[0].Took? && replies[0].count >= |s.pending[0].bytes|)
    requires next == Io(if replies[0] == Hard then Error else s.state, s.pending[1..],
                        s.wire + (if replies[0] == Hard then [] else s.pending[0].bytes),
                        s.log + [if replies[0] == Hard then IoError else SendComplete(s.pending[0].id)])
    ensures Drain(s, replies) == Drain(next, replies[1..])
  {
    assert s.wire + [] == s.wire;
  }
}
