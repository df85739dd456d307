/** The acquisition loop of the TTTR demos: poll the device flags, read the
    FIFO, decode what arrived, and leave the loop on a FIFO overrun, a failing
    library call or the end of the measurement. The device library is not
    modelled; what each call returns in one pass is a `Poll`. */
module Acquisition {
  import opened Base
  import opened Record
  import opened Decoder
  import opened Batch

  /** Extra empty polls the C and C# demos make after the measurement has
      ended, since records may still be on their way to the FIFO. */
  const MAX_STOP_RETRIES := 5

  /** How many ended-and-empty polls the loop tolerates: the C and C# demos
      leave once `stopretry > 5`, the Python demos on the first one. */
  function Grace(v: Variant): nat
  {
    if v == Reference then MAX_STOP_RETRIES else 0
  }

  /** What one pass of the loop gets back from the library: whether
      MH_GetFlags succeeded and reported FLAG_FIFOFULL, whether MH_ReadFiFo
      succeeded and the records it delivered, and whether MH_CTCStatus
      succeeded and reported the end of the acquisition time. A value that
      the loop would not ask for in that pass is ignored. */
  datatype Poll = Poll(flagsOk: bool, fifoFull: bool, readOk: bool, records: seq<Word>, statusOk: bool, measEnded: bool)

  /** Why the loop was left. FlagsError and StatusError leave without
      stopping the measurement (`goto ex`, or closeDevices in Python); the
      others go through `stoptttr`, which calls MH_StopMeas. */
  datatype StopReason = FlagsError | FifoOverrun | ReadError | StatusError | Done

  /** The loop's control state: passes made, the Progress counter, the
      stopretry counter and, once the loop has been left, why. */
  datatype Control = Control(polls: nat, progress: nat, stopRetry: nat, stop: Option<StopReason>)

  /** The state on entry: `Progress = 0`, `stopretry = 0`. */
  function Start(): Control
  {
    Control(0, 0, 0, None)
  }

  /** One pass of `while (true)`, as far as it steers the loop: it counts
      itself, never lowers Progress, and raises stopretry by at most one. */
  function PollStep(v: Variant, c: Control, p: Poll): (c': Control)
    requires c.stop.None?
    ensures c'.polls == c.polls + 1
    ensures c'.progress >= c.progress
    ensures c.stopRetry <= c'.stopRetry <= c.stopRetry + 1
  {
    var t := c.(polls := c.polls + 1);
    if !p.flagsOk then t.(stop := Some(FlagsError))
    else if p.fifoFull then t.(stop := Some(FifoOverrun))
    else if !p.readOk then t.(stop := Some(ReadError))
    else if |p.records| > 0 then t.(progress := t.progress + |p.records|)
    else if !p.statusOk then t.(stop := Some(StatusError))
    else if !p.measEnded then t
    else if t.stopRetry + 1 > Grace(v) then t.(stopRetry := t.stopRetry + 1, stop := Some(Done))
    else t.(stopRetry := t.stopRetry + 1)
  }

  /** The loop run against a sequence of polls; once it has been left the
      remaining polls are never made. */
  function Run(v: Variant, polls: seq<Poll>): (c: Control)
    ensures c.polls <= |polls|
    ensures c.stop.None? ==> c.polls == |polls|
    decreases |polls|
  {
    if |polls| == 0 then Start()
    else
      var c := Run(v, polls[..|polls| - 1]);
      if c.stop.Some? then c else PollStep(v, c, polls[|polls| - 1])
  }

  /** The records one pass hands to ProcessT2/ProcessT3. */
  function Delivered(p: Poll): seq<Word>
  {
    if p.flagsOk && !p.fifoFull && p.readOk then p.records else []
  }

  /** All records the passes hand to the decoder, in order. */
  function Fed(polls: seq<Poll>): seq<Word>
  {
    if |polls| == 0 then [] else Fed(polls[..|polls| - 1]) + Delivered(polls[|polls| - 1])
  }

  /** A pass that reads nothing and learns that the measurement has ended. */
  predicate EndedEmpty(p: Poll)
  {
    p.flagsOk && !p.fifoFull && p.readOk && |p.records| == 0 && p.statusOk && p.measEnded
  }

  /** The number of ended-and-empty passes. */
  function CountEndedEmpty(polls: seq<Poll>): nat
  {
    if |polls| == 0 then 0 else CountEndedEmpty(polls[..|polls| - 1]) + (if EndedEmpty(polls[|polls| - 1]) then 1 else 0)
  }

  /** A pass after which the loop goes round again, whatever the counter. */
  predicate Continues(p: Poll)
  {
    p.flagsOk && !p.fifoFull && p.readOk && (|p.records| > 0 || p.statusOk)
  }

  /** The pass that ends the loop for reason `r` shows `r`. */
  predicate ShowsCause(r: StopReason, p: Poll)
  {
    match r
    case FlagsError => !p.flagsOk
    case FifoOverrun => p.flagsOk && p.fifoFull
    case ReadError => p.flagsOk && !p.fifoFull && !p.readOk
    case StatusError => p.flagsOk && !p.fifoFull && p.readOk && |p.records| == 0 && !p.statusOk
    case Done => EndedEmpty(p)
  }

  /** One pass counts the records it delivers, bumps the counter exactly
      when it is ended and empty, and either goes round again or leaves the
      loop with a cause it shows, delivering nothing. */
  lemma PassFacts(v: Variant, c: Control, p: Poll)
    requires c.stop.None?
    ensures var t := PollStep(v, c, p);
      && t.progress == c.progress + |Delivered(p)|
      && t.stopRetry == c.stopRetry + (if EndedEmpty(p) then 1 else 0)
      && (t.stop.None? ==> Continues(p))
      && (t.stop.Some? ==> Delivered(p) == [] && ShowsCause(t.stop.value, p))
      && (t.stop == Some(Done) <==> EndedEmpty(p) && t.stopRetry > Grace(v))
  {
  }

  /** Progress counts every record delivered so far, and stopretry every
      ended-and-empty pass so far: it is never reset when records arrive in
      between. */
  lemma {:induction false} RunCounts(v: Variant, polls: seq<Poll>)
    ensures var c := Run(v, polls);
      && c.progress == |Fed(polls[..c.polls])|
      && c.stopRetry == CountEndedEmpty(polls[..c.polls])
    decreases |polls|
  {
    if |polls| > 0 {
      var init := polls[..|polls| - 1];
      RunCounts(v, init);
      var c := Run(v, init);
      if c.stop.None? {
        assert init[..c.polls] == init;
        assert polls[..c.polls + 1] == polls;
        PassFacts(v, c, polls[|polls| - 1]);
      } else {
        assert polls[..c.polls] == init[..c.polls];
      }
    }
  }

  /** The loop ends with Done exactly when the counter has passed the grace
      allowance, and the counter never goes beyond one past it. */
  lemma {:induction false} DoneRule(v: Variant, polls: seq<Poll>)
    ensures var c := Run(v, polls);
      && c.stopRetry <= Grace(v) + 1
      && (c.stop == Some(Done) <==> c.stopRetry > Grace(v))
    decreases |polls|
  {
    if |polls| > 0 {
      var init := polls[..|polls| - 1];
      DoneRule(v, init);
      var c := Run(v, init);
      if c.stop.None? {
        PassFacts(v, c, polls[|polls| - 1]);
      }
    }
  }

  /** Every pass before the one that ends the loop goes round again. */
  lemma {:induction false} EarlierPassesContinue(v: Variant, polls: seq<Poll>)
    ensures var c := Run(v, polls);
      forall i :: 0 <= i < c.polls && (c.stop.None? || i < c.polls - 1) ==> Continues(polls[i])
    decreases |polls|
  {
    if |polls| > 0 {
      var init := polls[..|polls| - 1];
      EarlierPassesContinue(v, init);
      var c := Run(v, init);
      if c.stop.None? {
        PassFacts(v, c, polls[|polls| - 1]);
      }
      forall i | 0 <= i < |init| ensures init[i] == polls[i] { }
    }
  }

  /** The pass that ends the loop shows why and delivers no records, so a
      FIFO overrun stops before anything is read. */
  lemma {:induction false} LastPassShowsCause(v: Variant, polls: seq<Poll>)
    ensures var c := Run(v, polls);
      c.stop.Some? ==> (0 < c.polls && Delivered(polls[c.polls - 1]) == [] && ShowsCause(c.stop.value, polls[c.polls - 1]))
    decreases |polls|
  {
    if |polls| > 0 {
      var init := polls[..|polls| - 1];
      LastPassShowsCause(v, init);
      var c := Run(v, init);
      if c.stop.None? {
        PassFacts(v, c, polls[|polls| - 1]);
      } else {
        assert init[c.polls - 1] == polls[c.polls - 1];
      }
    }
  }

  /** Passes after the one that left the loop change nothing. */
  lemma {:induction false} StoppedIsFinal(v: Variant, a: seq<Poll>, b: seq<Poll>)
    requires Run(v, a).stop.Some?
    ensures Run(v, a + b) == Run(v, a)
    decreases |b|
  {
    if |b| > 0 {
      assert (a + b)[..|a + b| - 1] == a + b[..|b| - 1];
      StoppedIsFinal(v, a, b[..|b| - 1]);
    } else {
      assert a + b == a;
    }
  }

  /** When the loop ends with Done, the C and C# demos have seen six
      ended-and-empty passes and the Python demos one. */
  lemma DoneAfterGrace(v: Variant, polls: seq<Poll>)
    requires Run(v, polls).stop == Some(Done)
    ensures var c := Run(v, polls);
      CountEndedEmpty(polls[..c.polls]) == if v == Reference then MAX_STOP_RETRIES + 1 else 1
  {
    RunCounts(v, polls);
    DoneRule(v, polls);
  }

  /** The loop's full state: its control state, `oflcorrection`, and the
      events handed to the Got* functions. */
  datatype Session = Session(control: Control, correction: nat, events: seq<Event>)

  /** One pass of the demos' loop, with its record loop written out as in
      the source: it steers as `PollStep` does and decodes the records it
      reads, continuing from the current correction. */
  method Pass(v: Variant, mode: Mode, s: Session, p: Poll) returns (next: Session)
    requires s.control.stop.None?
    ensures next.control == PollStep(v, s.control, p)
    ensures var d := Decode(v, mode, s.correction, Delivered(p));
      next.correction == d.correction && next.events == s.events + d.events
  {
    var c := s.control.(polls := s.control.polls + 1);
    var correction, events := s.correction, s.events;
    assert s.events + [] == s.events;
    if !p.flagsOk {
      c := c.(stop := Some(FlagsError));
    } else if p.fifoFull {
      c := c.(stop := Some(FifoOverrun));
    } else if !p.readOk {
      c := c.(stop := Some(ReadError));
    } else if |p.records| > 0 {
      var ofl, batch := ProcessBuffer(v, mode, correction, p.records, |p.records|);
      assert p.records[..|p.records|] == p.records;
      c := c.(progress := c.progress + |p.records|);
      correction, events := ofl, events + batch;
    } else if !p.statusOk {
      c := c.(stop := Some(StatusError));
    } else if p.measEnded {
      c := c.(stopRetry := c.stopRetry + 1);
      if c.stopRetry > Grace(v) {
        c := c.(stop := Some(Done));
      }
    }
    next := Session(c, correction, events);
  }

  /** While the loop has not been left, the next pass extends the run. */
  lemma RunExtends(v: Variant, polls: seq<Poll>, i: nat)
    requires i < |polls| && Run(v, polls[..i]).stop.None?
    ensures Run(v, polls[..i + 1]) == PollStep(v, Run(v, polls[..i]), polls[i])
  {
    assert polls[..i + 1][..i] == polls[..i];
  }

  /** A run that has been left, or has used every poll, is the whole run. */
  lemma RunEndsAt(v: Variant, polls: seq<Poll>, i: nat)
    requires i <= |polls|
    requires i < |polls| ==> Run(v, polls[..i]).stop.Some?
    ensures Run(v, polls) == Run(v, polls[..i])
  {
    if i < |polls| {
      assert polls == polls[..i] + polls[i..];
      StoppedIsFinal(v, polls[..i], polls[i..]);
    } else {
      assert polls[..i] == polls;
    }
  }

  /** Decoding what one more pass delivers continues the decoding of
      everything delivered before. */
  lemma FedExtends(v: Variant, mode: Mode, polls: seq<Poll>, i: nat, correction: nat, events: seq<Event>)
    requires i < |polls|
    requires Decoded(correction, events) == Decode(v, mode, 0, Fed(polls[..i]))
    ensures var d := Decode(v, mode, correction, Delivered(polls[i]));
      Decoded(d.correction, events + d.events) == Decode(v, mode, 0, Fed(polls[..i + 1]))
  {
    assert polls[..i + 1][..i] == polls[..i];
    assert Fed(polls[..i + 1]) == Fed(polls[..i]) + Delivered(polls[i]);
    DecodeSplit(v, mode, 0, Fed(polls[..i]), Delivered(polls[i]));
  }

  /** The demos' loop from `oflcorrection = 0` until a pass leaves it: it
      steers as `Run` does, and its events and correction are those of
      decoding every record the passes delivered. */
  method Acquire(v: Variant, mode: Mode, polls: seq<Poll>) returns (s: Session)
    ensures s.control == Run(v, polls)
    ensures Decoded(s.correction, s.events) == Decode(v, mode, 0, Fed(polls[..s.control.polls]))
  {
    s := Session(Start(), 0, []);
    var i := 0;
    while i < |polls| && s.control.stop.None?
      invariant 0 <= i <= |polls|
      invariant s.control == Run(v, polls[..i]) && s.control.polls == i
      invariant Decoded(s.correction, s.events) == Decode(v, mode, 0, Fed(polls[..i]))
    {
      RunExtends(v, polls, i);
      FedExtends(v, mode, polls, i, s.correction, s.events);
      s := Pass(v, mode, s, polls[i]);
      i := i + 1;
    }
    RunEndsAt(v, polls, i);
  }
}
