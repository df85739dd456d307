/** ProcessT2 / ProcessT3 and the batch loop around them: decoding a stream
    of records into events while threading the overflow correction. */
module Decoder {
  import opened Base
  import opened Record
  import opened Classify

  /** The demo copies of the decoder, which differ in two details. */
  datatype Variant =
    | Reference  // the C and C# copies
    | Python32   // the 32-bit Python copy: marker time adds wraparound * counter
    | Python64   // the 64-bit Python copy: as Python32, and a count of 0 is one overflow

  /** What the Got* callbacks receive. Times are overflow-corrected: ticks of
      the base resolution in T2, sync periods in T3. */
  datatype Event =
    | PhotonT2(channel: nat, time: nat)         // channel 0 is the sync input
    | MarkerT2(markers: nat, time: nat)
    | PhotonT3(channel: nat, nsync: nat, dtime: nat)
    | MarkerT3(markers: nat, nsync: nat)
  {
    predicate IsPhoton()
    {
      PhotonT2? || PhotonT3?
    }

    /** The overflow-corrected time (T2) or sync-period index (T3). */
    function Time(): nat
    {
      match this
      case PhotonT2(_, t) => t
      case MarkerT2(_, t) => t
      case PhotonT3(_, n, _) => n
      case MarkerT3(_, n) => n
    }

    /** The same event, `k` ticks or sync periods later. */
    function Delay(k: nat): (e: Event)
      ensures e.Time() == Time() + k
    {
      match this
      case PhotonT2(c, t) => PhotonT2(c, t + k)
      case MarkerT2(m, t) => MarkerT2(m, t + k)
      case PhotonT3(c, n, d) => PhotonT3(c, n + k, d)
      case MarkerT3(m, n) => MarkerT3(m, n + k)
    }
  }

  /** The result of processing one record: the correction after it and the
      event it reported, if any. */
  datatype StepOut = StepOut(correction: nat, event: Option<Event>)

  /** The result of processing a sequence of records. */
  datatype Decoded = Decoded(correction: nat, events: seq<Event>)

  /** What an overflow record with the given count adds to the correction:
      always whole periods, and nothing only for a count of 0 outside the
      64-bit Python copy. */
  function OverflowIncrement(v: Variant, mode: Mode, count: nat): (n: nat)
    ensures n % Wraparound(mode) == 0
    ensures n == 0 <==> count == 0 && v != Python64
  {
    if v == Python64 && count == 0 then Wraparound(mode) else Wraparound(mode) * count
  }

  /** The time a marker record is reported at: never before the correction,
      and within the current period in the C and C# copies. */
  function MarkerTime(v: Variant, mode: Mode, correction: nat, counter: nat): (t: nat)
    ensures t >= correction
    ensures counter == 0 ==> t == correction
    ensures v == Reference && counter < Wraparound(mode) ==> t < correction + Wraparound(mode)
  {
    if v == Reference then correction + counter else correction + Wraparound(mode) * counter
  }

  function MarkerEvent(mode: Mode, markers: nat, time: nat): Event
  {
    if mode == T2 then MarkerT2(markers, time) else MarkerT3(markers, time)
  }

  /** One record, decoded by classifying it first. */
  function Step(v: Variant, mode: Mode, correction: nat, w: Word): (r: StepOut)
    // the correction never decreases, and only overflow records move it
    ensures r.correction >= correction
    ensures r.correction != correction ==> KindOf(Extract(mode, w)) == Overflow
    // a record that reports an event leaves the correction alone
    ensures r.event.Some? ==> r.correction == correction
    // regular records are photons on channels 1..64 at correction + counter
    ensures Extract(mode, w).special == 0 <==> r.event.Some? && r.event.value.IsPhoton() && r.event.value != PhotonT2(0, r.event.value.Time())
    ensures Extract(mode, w).special == 0 ==>
      var f, e := Extract(mode, w), r.event.value;
      && e.channel == f.channel + 1 && 1 <= e.channel <= 64
      && e.Time() == correction + f.Counter()
      && (mode == T2 ==> e.PhotonT2?)
      && (mode == T3 ==> e.PhotonT3? && e.dtime == f.dtime)
  {
    var f := Extract(mode, w);
    match KindOf(f)
    case Overflow => StepOut(correction + OverflowIncrement(v, mode, f.Counter()), None)
    case Marker => StepOut(correction, Some(MarkerEvent(mode, f.channel, MarkerTime(v, mode, correction, f.Counter()))))
    case Sync => StepOut(correction, Some(PhotonT2(0, correction + f.timetag)))
    case Regular =>
      var e := if mode == T2 then PhotonT2(f.channel + 1, correction + f.timetag)
               else PhotonT3(f.channel + 1, correction + f.nsync, f.dtime);
      StepOut(correction, Some(e))
    case Unused => StepOut(correction, None)
  }

  /** ProcessT2 / ProcessT3 as the demos write them: under `special == 1` a
      chain of independent `if`s (overflow, marker, sync), each reading the
      correction as the previous one left it, and every Got* call appended
      to the output. The branches exclude one another, so a record yields at
      most one call, and only the overflow branch moves the correction. */
  function SourceStep(v: Variant, mode: Mode, correction: nat, w: Word): (s: Decoded)
    ensures |s.events| <= 1
    ensures s.correction >= correction
    ensures s.correction != correction ==> Extract(mode, w).channel == OVERFLOW_CHANNEL
  {
    var f := Extract(mode, w);
    if f.special == 1 then
      var c := if f.channel == 0x3F then correction + OverflowIncrement(v, mode, f.Counter()) else correction;
      var markers := if 1 <= f.channel && f.channel <= 15
                     then [MarkerEvent(mode, f.channel, MarkerTime(v, mode, c, f.Counter()))] else [];
      var sync := if mode == T2 && f.channel == 0 then [PhotonT2(0, c + f.Counter())] else [];
      Decoded(c, markers + sync)
    else if mode == T2 then
      Decoded(correction, [PhotonT2(f.channel + 1, correction + f.timetag)])
    else
      Decoded(correction, [PhotonT3(f.channel + 1, correction + f.nsync, f.dtime)])
  }

  function Emitted(o: Option<Event>): (s: seq<Event>)
    ensures |s| <= 1
  {
    if o.Some? then [o.value] else []
  }

  /** The if-chain of the demos and the classification agree on every
      record: the chain never calls two Got* functions for one record. */
  lemma StepMatchesSource(v: Variant, mode: Mode, correction: nat, w: Word)
    ensures var s, r := SourceStep(v, mode, correction, w), Step(v, mode, correction, w);
      s.correction == r.correction && s.events == Emitted(r.event)
  {
  }

  /** Processing records in buffer order, index 0 first, threading the
      correction from one record to the next. */
  function Decode(v: Variant, mode: Mode, correction: nat, recs: seq<Word>): (d: Decoded)
    ensures d.correction >= correction
    ensures |d.events| <= |recs|
    decreases |recs|
  {
    if |recs| == 0 then Decoded(correction, [])
    else
      var d := Decode(v, mode, correction, recs[..|recs| - 1]);
      var r := Step(v, mode, d.correction, recs[|recs| - 1]);
      Decoded(r.correction, d.events + Emitted(r.event))
  }

  /** An overflow record adds wraparound * count to the correction and
      reports nothing; in the C, C# and 32-bit Python copies a count of 0
      adds nothing, in the 64-bit Python copy it adds one wraparound. */
  lemma OverflowRecord(v: Variant, mode: Mode, correction: nat, w: Word)
    requires Extract(mode, w).special == 1 && Extract(mode, w).channel == OVERFLOW_CHANNEL
    ensures var n, r := Extract(mode, w).Counter(), Step(v, mode, correction, w);
      && r.event == None
      && (n > 0 || v != Python64 ==> r.correction == correction + Wraparound(mode) * n)
      && (n == 0 && v == Python64 ==> r.correction == correction + Wraparound(mode))
  {
  }

  /** In the 64-bit Python copy every overflow record moves time forward. */
  lemma Python64OverflowAdvances(mode: Mode, correction: nat, w: Word)
    requires KindOf(Extract(mode, w)) == Overflow
    ensures Step(Python64, mode, correction, w).correction >= correction + Wraparound(mode)
  {
    var n := Extract(mode, w).Counter();
    if n > 0 {
      MulAtLeast(Wraparound(mode), n);
    }
  }

  /** A marker record reports its channel field as the marker bitmask and
      leaves the correction alone. The C and C# copies report it at
      correction + counter, the Python copies at correction + wraparound *
      counter. */
  lemma MarkerRecord(v: Variant, mode: Mode, correction: nat, w: Word)
    requires Extract(mode, w).special == 1 && 1 <= Extract(mode, w).channel <= 15
    ensures var f, r := Extract(mode, w), Step(v, mode, correction, w);
      && r.correction == correction
      && r.event == Some(MarkerEvent(mode, f.channel, MarkerTime(v, mode, correction, f.Counter())))
      && r.event.value.markers == f.channel
      && (v == Reference ==> r.event.value.Time() == correction + f.Counter())
      && (v != Reference ==> r.event.value.Time() == correction + Wraparound(mode) * f.Counter())
  {
  }

  /** Channel 0 with special = 1 is the sync input, reported as a photon on
      channel 0 in T2; T3 has no such branch and drops the record. */
  lemma SyncRecord(v: Variant, mode: Mode, correction: nat, w: Word)
    requires Extract(mode, w).special == 1 && Extract(mode, w).channel == 0
    ensures var r := Step(v, mode, correction, w);
      && r.correction == correction
      && (mode == T2 ==> r.event == Some(PhotonT2(0, correction + Extract(mode, w).Counter())))
      && (mode == T3 ==> r.event == None)
  {
  }

  /** A special record on channels 16..62 reports nothing and leaves the
      correction alone. */
  lemma UnusedRecord(v: Variant, mode: Mode, correction: nat, w: Word)
    requires Extract(mode, w).special == 1 && 16 <= Extract(mode, w).channel <= 62
    ensures Step(v, mode, correction, w) == StepOut(correction, None)
  {
  }

  /** Decoding is invariant under translation in time: starting `k` later
      moves the correction and every reported time `k` later. */
  lemma StepDelay(v: Variant, mode: Mode, correction: nat, k: nat, w: Word)
    ensures var r, s := Step(v, mode, correction, w), Step(v, mode, correction + k, w);
      && s.correction == r.correction + k
      && (r.event.None? <==> s.event.None?)
      && (r.event.Some? ==> s.event.value == r.event.value.Delay(k))
  {
  }

  /** An overflow record delays the next event by exactly what it added to
      the correction. */
  lemma OverflowDelaysNextEvent(v: Variant, mode: Mode, correction: nat, ov: Word, w: Word)
    requires KindOf(Extract(mode, ov)) == Overflow
    requires Step(v, mode, correction, w).event.Some?
    ensures var k := OverflowIncrement(v, mode, Extract(mode, ov).Counter());
      var after := Step(v, mode, Step(v, mode, correction, ov).correction, w);
      after.event.Some? && after.event.value.Time() == Step(v, mode, correction, w).event.value.Time() + k
  {
    var k := OverflowIncrement(v, mode, Extract(mode, ov).Counter());
    StepDelay(v, mode, correction, k, w);
  }

  /** The C and C# copies report every event inside the current overflow
      period: its time is the correction plus a counter below the wraparound. */
  lemma ReferenceEventsWithinPeriod(mode: Mode, correction: nat, w: Word)
    requires Step(Reference, mode, correction, w).event.Some?
    ensures var t := Step(Reference, mode, correction, w).event.value.Time();
      correction <= t < correction + Wraparound(mode)
  {
  }

  /** The Python copies report a marker with a nonzero counter at
      correction + wraparound * counter: a full period or more beyond the
      current one, and never at the C/C# time. */
  lemma PythonMarkerTimeDiverges(v: Variant, mode: Mode, correction: nat, w: Word)
    requires v != Reference
    requires KindOf(Extract(mode, w)) == Marker && Extract(mode, w).Counter() > 0
    ensures var t := Step(v, mode, correction, w).event.value.Time();
      && t >= correction + Wraparound(mode)
      && t != Step(Reference, mode, correction, w).event.value.Time()
  {
    MulAtLeast(Wraparound(mode), Extract(mode, w).Counter());
  }

  /** The record 0x82000001 (T2 marker 1, timetag 1) at correction 0: the
      C/C# copies report it at tick 1, the Python copies at tick 2^25. */
  lemma PythonMarkerCounterexample()
    ensures Step(Reference, T2, 0, 0x8200_0001).event == Some(MarkerT2(1, 1))
    ensures Step(Python32, T2, 0, 0x8200_0001).event == Some(MarkerT2(1, 33554432))
    ensures Step(Python64, T2, 0, 0x8200_0001).event == Some(MarkerT2(1, 33554432))
  {
    Pow2Values();
  }

  /** All copies agree on photons: from the same correction a record that
      one copy reports as a photon is reported identically by every copy. */
  lemma VariantsAgreeOnPhoton(v1: Variant, v2: Variant, mode: Mode, correction: nat, w: Word)
    requires Step(v1, mode, correction, w).event.Some?
    requires Step(v1, mode, correction, w).event.value.IsPhoton()
    ensures Step(v2, mode, correction, w) == Step(v1, mode, correction, w)
  {
  }
}
