/** The C and C# copies keep `oflcorrection` and every reported time in an
    unsigned 64-bit integer (`uint64_t`, `ulong`), whose additions wrap
    silently. This module models that arithmetic and relates it to the
    unbounded decoder. */
module FixedWidth {
  import opened Base
  import opened Record
  import opened Classify
  import opened Decoder
  import opened Batch

  const U64_LIMIT: nat := 0x1_0000_0000_0000_0000

  type UInt64 = n: nat | n < 0x1_0000_0000_0000_0000

  /** Unsigned 64-bit addition. */
  function Add64(a: UInt64, b: nat): UInt64
  {
    (a + b) % U64_LIMIT
  }

  /** ProcessT2 / ProcessT3 of the C and C# copies with 64-bit arithmetic:
      `oflcorrection += (uint64_t)WRAPAROUND * count` and
      `truetime = oflcorrection + counter`. Only overflow records move the
      correction, and every reported time fits 64 bits. */
  function Step64(mode: Mode, correction: UInt64, w: Word): (r: StepOut)
    ensures r.correction < U64_LIMIT
    ensures KindOf(Extract(mode, w)) != Overflow ==> r.correction == correction
    ensures r.event.Some? ==> r.event.value.Time() < U64_LIMIT
  {
    var f := Extract(mode, w);
    match KindOf(f)
    case Overflow => StepOut(Add64(correction, Wraparound(mode) * f.Counter()), None)
    case Marker => StepOut(correction, Some(MarkerEvent(mode, f.channel, Add64(correction, f.Counter()))))
    case Sync => StepOut(correction, Some(PhotonT2(0, Add64(correction, f.timetag))))
    case Regular =>
      var e := if mode == T2 then PhotonT2(f.channel + 1, Add64(correction, f.timetag))
               else PhotonT3(f.channel + 1, Add64(correction, f.nsync), f.dtime);
      StepOut(correction, Some(e))
    case Unused => StepOut(correction, None)
  }

  /** The record loop of the C and C# copies with 64-bit arithmetic: at most
      one event per record, each with a time that fits 64 bits. */
  function Decode64(mode: Mode, correction: UInt64, recs: seq<Word>): (d: Decoded)
    ensures d.correction < U64_LIMIT
    ensures |d.events| <= |recs|
    ensures forall i :: 0 <= i < |d.events| ==> d.events[i].Time() < U64_LIMIT
    decreases |recs|
  {
    if |recs| == 0 then Decoded(correction, [])
    else
      var d := Decode64(mode, correction, recs[..|recs| - 1]);
      var r := Step64(mode, d.correction, recs[|recs| - 1]);
      Decoded(r.correction, d.events + Emitted(r.event))
  }

  /** An event with its time reduced modulo 2^64. */
  function WrapEvent(e: Event): Event
  {
    match e
    case PhotonT2(c, t) => PhotonT2(c, t % U64_LIMIT)
    case MarkerT2(m, t) => MarkerT2(m, t % U64_LIMIT)
    case PhotonT3(c, n, d) => PhotonT3(c, n % U64_LIMIT, d)
    case MarkerT3(m, n) => MarkerT3(m, n % U64_LIMIT)
  }

  function WrapEvents(es: seq<Event>): (ws: seq<Event>)
    ensures |ws| == |es|
    ensures forall i :: 0 <= i < |es| ==> ws[i] == WrapEvent(es[i])
  {
    if |es| == 0 then [] else WrapEvents(es[..|es| - 1]) + [WrapEvent(es[|es| - 1])]
  }

  lemma AddMod(a: nat, b: nat)
    ensures (a % U64_LIMIT + b) % U64_LIMIT == (a + b) % U64_LIMIT
  {
    var q := a / U64_LIMIT;
    assert a == U64_LIMIT * q + a % U64_LIMIT;
    var s := a % U64_LIMIT + b;
    DivModUnique(a + b, U64_LIMIT, q + s / U64_LIMIT, s % U64_LIMIT);
  }

  /** One record: the 64-bit step is the unbounded step reduced mod 2^64. */
  lemma Step64IsStepMod(mode: Mode, correction: nat, w: Word)
    ensures var r := Step(Reference, mode, correction, w);
      var r64 := Step64(mode, correction % U64_LIMIT, w);
      && r64.correction == r.correction % U64_LIMIT
      && (r.event.None? <==> r64.event.None?)
      && (r.event.Some? ==> r64.event.value == WrapEvent(r.event.value))
  {
    var k := KindOf(Extract(mode, w));
    if k == Overflow {
      OverflowStep64(mode, correction, w);
    } else if k != Unused {
      EventStep64(mode, correction, w);
    }
  }

  lemma OverflowStep64(mode: Mode, correction: nat, w: Word)
    requires KindOf(Extract(mode, w)) == Overflow
    ensures var r := Step(Reference, mode, correction, w);
      var r64 := Step64(mode, correction % U64_LIMIT, w);
      r64 == StepOut(r.correction % U64_LIMIT, None) && r.event.None?
  {
    var f := Extract(mode, w);
    AddMod(correction, Wraparound(mode) * f.Counter());
  }

  lemma EventStep64(mode: Mode, correction: nat, w: Word)
    requires KindOf(Extract(mode, w)) in {Marker, Sync, Regular}
    ensures var r := Step(Reference, mode, correction, w);
      var r64 := Step64(mode, correction % U64_LIMIT, w);
      && r.correction == correction && r64.correction == correction % U64_LIMIT
      && r.event.Some? && r64.event == Some(WrapEvent(r.event.value))
  {
    var f := Extract(mode, w);
    var t := correction + f.Counter();
    assert Add64(correction % U64_LIMIT, f.Counter()) == t % U64_LIMIT by {
      AddMod(correction, f.Counter());
    }
    match KindOf(f)
    case Marker => MarkerStep64(mode, correction, w);
    case Sync => SyncStep64(mode, correction, w);
    case Regular => RegularStep64(mode, correction, w);
  }

  lemma MarkerStep64(mode: Mode, correction: nat, w: Word)
    requires KindOf(Extract(mode, w)) == Marker
    requires var f := Extract(mode, w); Add64(correction % U64_LIMIT, f.Counter()) == (correction + f.Counter()) % U64_LIMIT
    ensures var r := Step(Reference, mode, correction, w);
      var r64 := Step64(mode, correction % U64_LIMIT, w);
      && r.correction == correction && r64.correction == correction % U64_LIMIT
      && r.event.Some? && r64.event == Some(WrapEvent(r.event.value))
  {
  }

  lemma SyncStep64(mode: Mode, correction: nat, w: Word)
    requires KindOf(Extract(mode, w)) == Sync
    requires var f := Extract(mode, w); Add64(correction % U64_LIMIT, f.Counter()) == (correction + f.Counter()) % U64_LIMIT
    ensures var r := Step(Reference, mode, correction, w);
      var r64 := Step64(mode, correction % U64_LIMIT, w);
      && r.correction == correction && r64.correction == correction % U64_LIMIT
      && r.event.Some? && r64.event == Some(WrapEvent(r.event.value))
  {
  }

  lemma RegularStep64(mode: Mode, correction: nat, w: Word)
    requires KindOf(Extract(mode, w)) == Regular
    requires var f := Extract(mode, w); Add64(correction % U64_LIMIT, f.Counter()) == (correction + f.Counter()) % U64_LIMIT
    ensures var r := Step(Reference, mode, correction, w);
      var r64 := Step64(mode, correction % U64_LIMIT, w);
      && r.correction == correction && r64.correction == correction % U64_LIMIT
      && r.event.Some? && r64.event == Some(WrapEvent(r.event.value))
  {
  }

  /** A whole stream: the 64-bit decoder computes the unbounded decoder's
      correction and event times modulo 2^64, and the same events otherwise. */
  lemma {:induction false} Decode64IsDecodeMod(mode: Mode, correction: nat, recs: seq<Word>)
    ensures var d := Decode(Reference, mode, correction, recs);
      Decode64(mode, correction % U64_LIMIT, recs) == Decoded(d.correction % U64_LIMIT, WrapEvents(d.events))
    decreases |recs|
  {
    if |recs| > 0 {
      var init, w := recs[..|recs| - 1], recs[|recs| - 1];
      Decode64IsDecodeMod(mode, correction, init);
      var d := Decode(Reference, mode, correction, init);
      Step64IsStepMod(mode, d.correction, w);
      var r := Step(Reference, mode, d.correction, w);
      assert WrapEvents(d.events + Emitted(r.event)) == WrapEvents(d.events) + WrapEvents(Emitted(r.event));
    }
  }

  /** Every event time in `es` is below `bound`. */
  predicate TimesBelow(es: seq<Event>, bound: nat)
  {
    forall i :: 0 <= i < |es| ==> es[i].Time() < bound
  }

  lemma TimesBelowAppend(es: seq<Event>, o: Option<Event>, bound: nat, bound': nat)
    requires TimesBelow(es, bound) && bound <= bound'
    requires o.Some? ==> o.value.Time() < bound'
    ensures TimesBelow(es + Emitted(o), bound')
  {
  }

  /** Every event of the C/C# decoder lies before the end of the overflow
      period the stream ends in. */
  lemma {:induction false} EventsBeforePeriodEnd(mode: Mode, correction: nat, recs: seq<Word>)
    ensures var d := Decode(Reference, mode, correction, recs);
      TimesBelow(d.events, d.correction + Wraparound(mode))
    decreases |recs|
  {
    if |recs| > 0 {
      var init, w := recs[..|recs| - 1], recs[|recs| - 1];
      EventsBeforePeriodEnd(mode, correction, init);
      var d := Decode(Reference, mode, correction, init);
      var r := Step(Reference, mode, d.correction, w);
      if r.event.Some? {
        ReferenceEventsWithinPeriod(mode, d.correction, w);
      }
      TimesBelowAppend(d.events, r.event, d.correction + Wraparound(mode), r.correction + Wraparound(mode));
    }
  }

  /** Reducing times that are already below 2^64 changes nothing. */
  lemma WrapEventsBelowLimit(es: seq<Event>, bound: nat)
    requires TimesBelow(es, bound) && bound <= U64_LIMIT
    ensures WrapEvents(es) == es
  {
    forall i | 0 <= i < |es|
      ensures WrapEvents(es)[i] == es[i]
    {
      assert es[i].Time() < U64_LIMIT;
    }
  }

  /** As long as the correction stays a full period below 2^64, the 64-bit
      arithmetic of the C and C# copies never wraps and they decode exactly
      as the unbounded model does. */
  lemma NoWrapBelowLimit(mode: Mode, correction: UInt64, recs: seq<Word>)
    requires Decode(Reference, mode, correction, recs).correction + Wraparound(mode) <= U64_LIMIT
    ensures Decode64(mode, correction, recs) == Decode(Reference, mode, correction, recs)
  {
    var d := Decode(Reference, mode, correction, recs);
    var d64 := Decode64(mode, correction, recs);
    assert d64 == Decoded(d.correction % U64_LIMIT, WrapEvents(d.events)) by {
      DivModUnique(correction, U64_LIMIT, 0, correction);
      Decode64IsDecodeMod(mode, correction, recs);
    }
    DivModUnique(d.correction, U64_LIMIT, 0, d.correction);
    assert WrapEvents(d.events) == d.events by {
      EventsBeforePeriodEnd(mode, correction, recs);
      WrapEventsBelowLimit(d.events, d.correction + Wraparound(mode));
    }
  }
}
