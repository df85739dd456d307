/** The T3 instant-histogramming demos: every regular T3 photon increments
    `histogram[Channel][DTime]`, a MAXINPCHAN x T3HISTBINS table of unsigned
    32-bit counters that starts all zero. */
module Histogram {
  import opened Base
  import opened Record
  import opened Classify
  import opened Decoder

  const MAXINPCHAN: nat := 64
  /** 2^15 bins: one per value of the 15-bit dtime field. */
  const T3HISTBINS: nat := 32768
  /** The cells are `unsigned int`: they count modulo 2^32. */
  const CELL_LIMIT: nat := 0x1_0000_0000

  type Table = seq<seq<nat>>

  /** MAXINPCHAN rows of T3HISTBINS cells. */
  predicate Shaped(h: Table)
  {
    |h| == MAXINPCHAN && forall c :: 0 <= c < |h| ==> |h[c]| == T3HISTBINS
  }

  function Sum(s: seq<nat>): nat
  {
    if |s| == 0 then 0 else Sum(s[..|s| - 1]) + s[|s| - 1]
  }

  /** The sum of all cells. */
  function Total(h: Table): nat
  {
    if |h| == 0 then 0 else Total(h[..|h| - 1]) + Sum(h[|h| - 1])
  }

  /** The histogram after `memset(histogram, 0, sizeof(histogram))`. */
  function Cleared(): (h: Table)
    ensures Shaped(h)
    ensures forall c, d :: 0 <= c < |h| && 0 <= d < |h[c]| ==> h[c][d] == 0
  {
    seq(MAXINPCHAN, _ => seq(T3HISTBINS, _ => 0))
  }

  /** `histogram[row][bin]++` on an unsigned 32-bit cell. */
  function Bump(h: Table, row: nat, bin: nat): (h': Table)
    requires Shaped(h) && row < MAXINPCHAN && bin < T3HISTBINS
    ensures Shaped(h')
    ensures h'[row][bin] == (h[row][bin] + 1) % CELL_LIMIT
    ensures forall c, d :: 0 <= c < |h| && 0 <= d < |h[c]| && (c != row || d != bin) ==> h'[c][d] == h[c][d]
  {
    var x: nat := (h[row][bin] + 1) % CELL_LIMIT;
    var updated: seq<nat> := h[row][bin := x];
    h[row := updated]
  }

  /** A photon event whose cell lies outside the table. */
  datatype HistError = OutOfRange(channel: nat, dtime: nat)

  /** GotPhotonT3 as written, `histogram[Channel][DTime]++` with the external
      channel 1..64 as the row, and the empty GotMarkerT3. An index outside
      the table is an IndexError in the Python copy and a write past the
      array in the C copy; both are the error result here. */
  function GotEvent(h: Table, e: Event): (r: Result<Table, HistError>)
    requires Shaped(h)
    ensures r.Success? ==> Shaped(r.value)
    ensures !e.PhotonT3? ==> r == Success(h)
    ensures e.PhotonT3? ==> (r.Success? <==> e.channel < MAXINPCHAN && e.dtime < T3HISTBINS)
  {
    match e
    case PhotonT3(ch, _, dt) =>
      if ch < MAXINPCHAN && dt < T3HISTBINS then Success(Bump(h, ch, dt)) else Failure(OutOfRange(ch, dt))
    case _ => Success(h)
  }

  /** GotPhotonT3 with the row the table has room for: the 0-based channel
      field, external channel minus one. */
  function GotEventByInput(h: Table, e: Event): (r: Result<Table, HistError>)
    requires Shaped(h)
    ensures r.Success? ==> Shaped(r.value)
    ensures !e.PhotonT3? ==> r == Success(h)
    ensures e.PhotonT3? ==> (r.Success? <==> 1 <= e.channel <= MAXINPCHAN && e.dtime < T3HISTBINS)
  {
    match e
    case PhotonT3(ch, _, dt) =>
      if 1 <= ch <= MAXINPCHAN && dt < T3HISTBINS then Success(Bump(h, ch - 1, dt)) else Failure(OutOfRange(ch, dt))
    case _ => Success(h)
  }

  /** Feeds events to the histogram in order; the first error stops it. */
  function Accumulate(byInput: bool, h: Table, es: seq<Event>): (r: Result<Table, HistError>)
    requires Shaped(h)
    ensures r.Success? ==> Shaped(r.value)
    decreases |es|
  {
    if |es| == 0 then Success(h)
    else
      match Accumulate(byInput, h, es[..|es| - 1])
      case Failure(err) => Failure(err)
      case Success(h1) =>
        if byInput then GotEventByInput(h1, es[|es| - 1]) else GotEvent(h1, es[|es| - 1])
  }

  /** The number of T3 photon events. */
  function CountPhotonT3(es: seq<Event>): (n: nat)
    ensures n <= |es|
  {
    if |es| == 0 then 0 else CountPhotonT3(es[..|es| - 1]) + (if es[|es| - 1].PhotonT3? then 1 else 0)
  }

  /** The number of regular (special = 0) records. */
  function CountRegular(mode: Mode, recs: seq<Word>): nat
  {
    if |recs| == 0 then 0
    else CountRegular(mode, recs[..|recs| - 1]) + (if Extract(mode, recs[|recs| - 1]).special == 0 then 1 else 0)
  }

  lemma {:induction false} SumUpdate(s: seq<nat>, i: nat, x: nat)
    requires i < |s|
    ensures Sum(s[i := x]) + s[i] == Sum(s) + x
    decreases |s|
  {
    var n := |s| - 1;
    if i < n {
      SumUpdate(s[..n], i, x);
      assert s[i := x][..n] == s[..n][i := x];
    } else {
      assert s[i := x][..n] == s[..n];
    }
  }

  lemma {:induction false} TotalUpdate(h: Table, c: nat, row: seq<nat>)
    requires c < |h|
    ensures Total(h[c := row]) + Sum(h[c]) == Total(h) + Sum(row)
    decreases |h|
  {
    var n := |h| - 1;
    if c < n {
      TotalUpdate(h[..n], c, row);
      assert h[c := row][..n] == h[..n][c := row];
    } else {
      assert h[c := row][..n] == h[..n];
    }
  }

  lemma {:induction false} SumZero(s: seq<nat>)
    requires forall i :: 0 <= i < |s| ==> s[i] == 0
    ensures Sum(s) == 0
    decreases |s|
  {
    if |s| > 0 {
      SumZero(s[..|s| - 1]);
    }
  }

  lemma {:induction false} TotalZero(h: Table)
    requires forall c, d :: 0 <= c < |h| && 0 <= d < |h[c]| ==> h[c][d] == 0
    ensures Total(h) == 0
    decreases |h|
  {
    if |h| > 0 {
      TotalZero(h[..|h| - 1]);
      SumZero(h[|h| - 1]);
    }
  }

  /** The cleared histogram counts nothing. */
  lemma ClearedIsEmpty()
    ensures Total(Cleared()) == 0
  {
    TotalZero(Cleared());
  }

  /** Unless the bumped cell wraps, an increment adds exactly one to the total. */
  lemma BumpTotal(h: Table, row: nat, bin: nat)
    requires Shaped(h) && row < MAXINPCHAN && bin < T3HISTBINS
    requires h[row][bin] + 1 < CELL_LIMIT
    ensures Total(Bump(h, row, bin)) == Total(h) + 1
  {
    var x := h[row][bin] + 1;
    assert x % CELL_LIMIT == x;
    SumUpdate(h[row], bin, x);
    TotalUpdate(h, row, h[row][bin := x]);
  }

  /** Feeding events continues from the histogram the earlier ones left. */
  lemma AccumulateInit(byInput: bool, h: Table, es: seq<Event>)
    requires Shaped(h) && |es| > 0 && Accumulate(byInput, h, es).Success?
    ensures var init, e := es[..|es| - 1], es[|es| - 1];
      && Accumulate(byInput, h, init).Success?
      && var h1 := Accumulate(byInput, h, init).value;
         Accumulate(byInput, h, es) == if byInput then GotEventByInput(h1, e) else GotEvent(h1, e)
  {
  }

  /** Whether event `e` lands in cell [row][bin]: the row is the external
      channel as the demos write it, or one less with the corrected row. */
  predicate Hits(byInput: bool, e: Event, row: nat, bin: nat)
  {
    e.PhotonT3? && e.dtime == bin && (if byInput then e.channel == row + 1 else e.channel == row)
  }

  /** How many events of `es` land in cell [row][bin]. */
  function CellHits(byInput: bool, es: seq<Event>, row: nat, bin: nat): (n: nat)
    ensures n <= |es|
  {
    if |es| == 0 then 0
    else CellHits(byInput, es[..|es| - 1], row, bin) + (if Hits(byInput, es[|es| - 1], row, bin) then 1 else 0)
  }

  /** No cell of `h` reaches 2^32 once the events of `es` landing in it are
      added: no 32-bit counter wraps. */
  predicate CellsFit(byInput: bool, h: Table, es: seq<Event>)
    requires Shaped(h)
  {
    forall row, bin :: 0 <= row < MAXINPCHAN && 0 <= bin < T3HISTBINS ==>
      h[row][bin] + CellHits(byInput, es, row, bin) < CELL_LIMIT
  }

  lemma CellsFitInit(byInput: bool, h: Table, es: seq<Event>)
    requires Shaped(h) && |es| > 0 && CellsFit(byInput, h, es)
    ensures CellsFit(byInput, h, es[..|es| - 1])
  {
    forall row, bin | 0 <= row < MAXINPCHAN && 0 <= bin < T3HISTBINS
      ensures h[row][bin] + CellHits(byInput, es[..|es| - 1], row, bin) < CELL_LIMIT
    {
      assert h[row][bin] + CellHits(byInput, es, row, bin) < CELL_LIMIT;
    }
  }

  /** While no counter wraps, every cell ends up holding its starting value
      plus the number of events that landed in it. */
  lemma {:induction false} AccumulateCells(byInput: bool, h: Table, es: seq<Event>)
    requires Shaped(h) && CellsFit(byInput, h, es)
    requires Accumulate(byInput, h, es).Success?
    ensures var h2 := Accumulate(byInput, h, es).value;
      forall row, bin :: 0 <= row < MAXINPCHAN && 0 <= bin < T3HISTBINS ==>
        h2[row][bin] == h[row][bin] + CellHits(byInput, es, row, bin)
    decreases |es|
  {
    if |es| > 0 {
      var init, e := es[..|es| - 1], es[|es| - 1];
      AccumulateInit(byInput, h, es);
      CellsFitInit(byInput, h, es);
      AccumulateCells(byInput, h, init);
      var h1 := Accumulate(byInput, h, init).value;
      var h2 := Accumulate(byInput, h, es).value;
      forall row, bin | 0 <= row < MAXINPCHAN && 0 <= bin < T3HISTBINS
        ensures h2[row][bin] == h[row][bin] + CellHits(byInput, es, row, bin)
      {
        assert h[row][bin] + CellHits(byInput, es, row, bin) < CELL_LIMIT;
        assert h1[row][bin] == h[row][bin] + CellHits(byInput, init, row, bin);
        if Hits(byInput, e, row, bin) {
          assert h2 == Bump(h1, row, bin);
        } else if e.PhotonT3? {
          var r := if byInput then e.channel - 1 else e.channel;
          assert h2 == Bump(h1, r, e.dtime);
          assert r != row || e.dtime != bin;
        } else {
          assert h2 == h1;
        }
      }
    }
  }

  /** While no counter wraps, the total of all cells grows by exactly the
      number of T3 photon events the histogram accepted. */
  lemma {:induction false} AccumulateTotal(byInput: bool, h: Table, es: seq<Event>)
    requires Shaped(h) && CellsFit(byInput, h, es)
    requires Accumulate(byInput, h, es).Success?
    ensures Total(Accumulate(byInput, h, es).value) == Total(h) + CountPhotonT3(es)
    decreases |es|
  {
    if |es| > 0 {
      var init, e := es[..|es| - 1], es[|es| - 1];
      AccumulateInit(byInput, h, es);
      CellsFitInit(byInput, h, es);
      AccumulateTotal(byInput, h, init);
      var h1 := Accumulate(byInput, h, init).value;
      if e.PhotonT3? {
        var row := if byInput then e.channel - 1 else e.channel;
        AccumulateCells(byInput, h, init);
        assert Hits(byInput, e, row, e.dtime);
        assert h[row][e.dtime] + CellHits(byInput, es, row, e.dtime) < CELL_LIMIT;
        BumpTotal(h1, row, e.dtime);
      }
    }
  }

  /** A regular T3 record increments exactly the cell
      `[channel + 1][dtime]` when the channel field is at most 62; with
      channel field 63 the row is 64 = MAXINPCHAN and the write misses the
      table. Every other record leaves the histogram as it is. */
  lemma RecordEffect(v: Variant, correction: nat, h: Table, w: Word)
    requires Shaped(h)
    ensures var f, r := Extract(T3, w), Step(v, T3, correction, w);
      && (f.special == 0 && f.channel < MAXINPCHAN - 1 ==> GotEvent(h, r.event.value) == Success(Bump(h, f.channel + 1, f.dtime)))
      && (f.special == 0 && f.channel == MAXINPCHAN - 1 ==> GotEvent(h, r.event.value) == Failure(OutOfRange(MAXINPCHAN, f.dtime)))
      && (f.special == 1 && r.event.Some? ==> GotEvent(h, r.event.value) == Success(h))
  {
  }

  /** The number of T3 photon events decoded from a stream is the number of
      its regular records. */
  lemma {:induction false} PhotonT3Count(v: Variant, correction: nat, recs: seq<Word>)
    ensures CountPhotonT3(Decode(v, T3, correction, recs).events) == CountRegular(T3, recs)
  {
    if |recs| > 0 {
      var init, w := recs[..|recs| - 1], recs[|recs| - 1];
      PhotonT3Count(v, correction, init);
      var d := Decode(v, T3, correction, init);
      var r := Step(v, T3, d.correction, w);
      assert Decode(v, T3, correction, recs) == Decoded(r.correction, d.events + Emitted(r.event));
      var b := if Extract(T3, w).special == 0 then 1 else 0;
      assert CountRegular(T3, recs) == CountRegular(T3, init) + b;
      if r.event.Some? {
        var es := d.events + [r.event.value];
        assert es[..|es| - 1] == d.events;
        assert r.event.value.PhotonT3? <==> b == 1;
      } else {
        assert d.events + Emitted(r.event) == d.events;
      }
    }
  }

  /** Whether T3 record `w` is a regular record whose photon lands in cell
      [row][bin]. */
  predicate RecordHits(byInput: bool, w: Word, row: nat, bin: nat)
  {
    var f := Extract(T3, w);
    f.special == 0 && f.dtime == bin && (if byInput then f.channel == row else f.channel + 1 == row)
  }

  /** How many records of `recs` land in cell [row][bin]. */
  function RecordCellHits(byInput: bool, recs: seq<Word>, row: nat, bin: nat): (n: nat)
    ensures n <= |recs|
  {
    if |recs| == 0 then 0
    else RecordCellHits(byInput, recs[..|recs| - 1], row, bin) + (if RecordHits(byInput, recs[|recs| - 1], row, bin) then 1 else 0)
  }

  /** No cell of `h` reaches 2^32 once the records of `recs` landing in it
      are counted. */
  predicate RecordsFit(byInput: bool, h: Table, recs: seq<Word>)
    requires Shaped(h)
  {
    forall row, bin :: 0 <= row < MAXINPCHAN && 0 <= bin < T3HISTBINS ==>
      h[row][bin] + RecordCellHits(byInput, recs, row, bin) < CELL_LIMIT
  }

  /** A T3 record's event lands in a cell exactly when the record names it. */
  lemma StepHits(byInput: bool, v: Variant, correction: nat, w: Word, row: nat, bin: nat)
    ensures var r := Step(v, T3, correction, w);
      && (r.event.Some? ==> (Hits(byInput, r.event.value, row, bin) <==> RecordHits(byInput, w, row, bin)))
      && (r.event.None? ==> !RecordHits(byInput, w, row, bin))
  {
  }

  /** The photons decoded from a T3 stream land in a cell exactly as often
      as the stream's regular records name that cell. */
  lemma {:induction false} DecodedCellHits(byInput: bool, v: Variant, correction: nat, recs: seq<Word>, row: nat, bin: nat)
    ensures CellHits(byInput, Decode(v, T3, correction, recs).events, row, bin) == RecordCellHits(byInput, recs, row, bin)
  {
    if |recs| > 0 {
      var init, w := recs[..|recs| - 1], recs[|recs| - 1];
      DecodedCellHits(byInput, v, correction, init, row, bin);
      var d := Decode(v, T3, correction, init);
      var r := Step(v, T3, d.correction, w);
      assert Decode(v, T3, correction, recs) == Decoded(r.correction, d.events + Emitted(r.event));
      StepHits(byInput, v, d.correction, w, row, bin);
      if r.event.Some? {
        var es := d.events + [r.event.value];
        assert es[..|es| - 1] == d.events;
      } else {
        assert d.events + Emitted(r.event) == d.events;
      }
    }
  }

  /** Every regular record of `recs` has a channel field below 63. */
  predicate ChannelsFit(recs: seq<Word>)
  {
    forall i :: 0 <= i < |recs| && Extract(T3, recs[i]).special == 0 ==> Extract(T3, recs[i]).channel < MAXINPCHAN - 1
  }

  /** Feeding one more event continues from where the earlier ones left off. */
  lemma AccumulateSnoc(byInput: bool, h: Table, es: seq<Event>, e: Event)
    requires Shaped(h) && Accumulate(byInput, h, es).Success?
    ensures var h1 := Accumulate(byInput, h, es).value;
      Accumulate(byInput, h, es + [e]) == if byInput then GotEventByInput(h1, e) else GotEvent(h1, e)
  {
    assert (es + [e])[..|es|] == es;
  }

  /** The event a T3 record decodes to, if any, is accepted by a histogram:
      always with the corrected row, and with the row the demos use when a
      regular record's channel field is below 63. */
  lemma RecordAccepted(byInput: bool, v: Variant, correction: nat, h: Table, w: Word)
    requires Shaped(h)
    requires !byInput && Extract(T3, w).special == 0 ==> Extract(T3, w).channel < MAXINPCHAN - 1
    ensures var r := Step(v, T3, correction, w);
      r.event.Some? ==> (if byInput then GotEventByInput(h, r.event.value) else GotEvent(h, r.event.value)).Success?
  {
  }

  /** The histogram accepts every event decoded from a T3 stream: always
      with the corrected row, and with the row the demos use as long as no
      regular record is on channel field 63. */
  lemma {:induction false} AccumulateDecoded(byInput: bool, v: Variant, correction: nat, h: Table, recs: seq<Word>)
    requires Shaped(h)
    requires !byInput ==> ChannelsFit(recs)
    ensures Accumulate(byInput, h, Decode(v, T3, correction, recs).events).Success?
  {
    if |recs| > 0 {
      var init, w := recs[..|recs| - 1], recs[|recs| - 1];
      assert !byInput ==> ChannelsFit(init) by {
        if !byInput {
          forall i | 0 <= i < |init| && Extract(T3, init[i]).special == 0
            ensures Extract(T3, init[i]).channel < MAXINPCHAN - 1
          {
            assert init[i] == recs[i];
          }
        }
      }
      AccumulateDecoded(byInput, v, correction, h, init);
      var d := Decode(v, T3, correction, init);
      var r := Step(v, T3, d.correction, w);
      assert Decode(v, T3, correction, recs).events == d.events + Emitted(r.event);
      if r.event.Some? {
        assert !byInput && Extract(T3, w).special == 0 ==> Extract(T3, w).channel < MAXINPCHAN - 1;
        RecordAccepted(byInput, v, d.correction, Accumulate(byInput, h, d.events).value, w);
        AccumulateSnoc(byInput, h, d.events, r.event.value);
      } else {
        assert d.events + Emitted(r.event) == d.events;
      }
    }
  }

  /** The count invariant of the histogramming demos: starting from any
      histogram, and while no 32-bit cell wraps, every cell grows by exactly
      the number of regular records naming it, and the sum of all cells by
      the number of regular records. With the row the demos use, this needs
      every channel field below 63. */
  lemma HistogramCountsRegularRecords(byInput: bool, v: Variant, correction: nat, h: Table, recs: seq<Word>)
    requires Shaped(h) && RecordsFit(byInput, h, recs)
    requires !byInput ==> ChannelsFit(recs)
    ensures var r := Accumulate(byInput, h, Decode(v, T3, correction, recs).events);
      && r.Success?
      && Total(r.value) == Total(h) + CountRegular(T3, recs)
      && forall row, bin :: 0 <= row < MAXINPCHAN && 0 <= bin < T3HISTBINS ==>
           r.value[row][bin] == h[row][bin] + RecordCellHits(byInput, recs, row, bin)
  {
    var es := Decode(v, T3, correction, recs).events;
    forall row, bin | 0 <= row < MAXINPCHAN && 0 <= bin < T3HISTBINS
      ensures h[row][bin] + CellHits(byInput, es, row, bin) < CELL_LIMIT
      ensures CellHits(byInput, es, row, bin) == RecordCellHits(byInput, recs, row, bin)
    {
      DecodedCellHits(byInput, v, correction, recs, row, bin);
    }
    AccumulateDecoded(byInput, v, correction, h, recs);
    AccumulateTotal(byInput, h, es);
    AccumulateCells(byInput, h, es);
    PhotonT3Count(v, correction, recs);
  }

  /** The record 0x7E000000 is a regular T3 record on channel field 63. */
  lemma Channel63Record()
    ensures Extract(T3, 0x7E00_0000) == T3Fields(0, 63, 0, 0)
  {
    Pow2Values();
  }

  /** A regular record on channel field 63, the 64th input, such as
      0x7E000000, is reported on external channel 64; the demos write it to
      row 64 of a 64-row table. */
  lemma Channel64Counterexample(v: Variant, correction: nat, h: Table, w: Word)
    requires Shaped(h)
    requires Extract(T3, w).special == 0 && Extract(T3, w).channel == MAXINPCHAN - 1
    ensures Accumulate(false, h, Decode(v, T3, correction, [w]).events) == Failure(OutOfRange(MAXINPCHAN, Extract(T3, w).dtime))
  {
    var e := Step(v, T3, correction, w).event.value;
    assert Decode(v, T3, correction, [w]).events == [e] by {
      assert [w][..0] == [];
    }
    assert [e][..0] == [];
  }

  /** With the corrected row the same record lands in row 63, the last. */
  lemma Channel64Corrected(v: Variant, correction: nat, h: Table, w: Word)
    requires Shaped(h)
    requires Extract(T3, w).special == 0 && Extract(T3, w).channel == MAXINPCHAN - 1
    ensures Accumulate(true, h, Decode(v, T3, correction, [w]).events) == Success(Bump(h, MAXINPCHAN - 1, Extract(T3, w).dtime))
  {
    var e := Step(v, T3, correction, w).event.value;
    assert Decode(v, T3, correction, [w]).events == [e] by {
      assert [w][..0] == [];
    }
    assert e.PhotonT3? && e.channel == MAXINPCHAN && e.dtime == Extract(T3, w).dtime;
    assert Accumulate(true, h, [e]) == GotEventByInput(h, e) by {
      assert [e][..0] == [];
    }
  }
}
