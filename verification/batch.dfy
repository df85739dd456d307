/** The batch loop `for (i = 0; i < nRecords; i++) ProcessT2(buffer[i])` and
    what decoding a whole stream of records guarantees. */
module Batch {
  import opened Base
  import opened Record
  import opened Classify
  import opened Decoder

  /** The loop of the demos over the first `nRecords` entries of the FIFO
      buffer, one ProcessT2/ProcessT3 call per record in index order. */
  method ProcessBuffer(v: Variant, mode: Mode, correction: nat, buffer: seq<Word>, nRecords: nat)
    returns (ofl: nat, events: seq<Event>)
    requires nRecords <= |buffer|
    ensures Decoded(ofl, events) == Decode(v, mode, correction, buffer[..nRecords])
    ensures ofl >= correction && |events| <= nRecords
  {
    ofl, events := correction, [];
    var i := 0;
    while i < nRecords
      invariant 0 <= i <= nRecords
      invariant Decoded(ofl, events) == Decode(v, mode, correction, buffer[..i])
    {
      assert buffer[..i + 1][..i] == buffer[..i];
      var r := Step(v, mode, ofl, buffer[i]);
      ofl, events := r.correction, events + Emitted(r.event);
      i := i + 1;
    }
  }

  /** Whether a record reaches a Got* function. */
  predicate Reports(mode: Mode, w: Word)
  {
    KindOf(Extract(mode, w)) in {Marker, Sync, Regular}
  }

  /** The number of records in `recs` that reach a Got* function. */
  function CountReported(mode: Mode, recs: seq<Word>): (n: nat)
    ensures n <= |recs|
  {
    if |recs| == 0 then 0
    else CountReported(mode, recs[..|recs| - 1]) + (if Reports(mode, recs[|recs| - 1]) then 1 else 0)
  }

  /** The sum of what the overflow records of `recs` add to the correction. */
  function OverflowTotal(v: Variant, mode: Mode, recs: seq<Word>): nat
  {
    if |recs| == 0 then 0
    else
      var f := Extract(mode, recs[|recs| - 1]);
      OverflowTotal(v, mode, recs[..|recs| - 1])
        + (if KindOf(f) == Overflow then OverflowIncrement(v, mode, f.Counter()) else 0)
  }

  /** Exactly the marker, sync and regular records produce events, one each. */
  lemma {:induction false} EventCount(v: Variant, mode: Mode, correction: nat, recs: seq<Word>)
    ensures |Decode(v, mode, correction, recs).events| == CountReported(mode, recs)
  {
    if |recs| > 0 {
      EventCount(v, mode, correction, recs[..|recs| - 1]);
    }
  }

  /** The correction after a batch is the starting correction plus what its
      overflow records added, and nothing else. */
  lemma {:induction false} CorrectionIsOverflowTotal(v: Variant, mode: Mode, correction: nat, recs: seq<Word>)
    ensures Decode(v, mode, correction, recs).correction == correction + OverflowTotal(v, mode, recs)
  {
    if |recs| > 0 {
      CorrectionIsOverflowTotal(v, mode, correction, recs[..|recs| - 1]);
    }
  }

  /** Decoding a stream in two batches, the second starting from the
      correction the first left, is decoding it in one: batch boundaries
      do not matter, and events come out in record order. */
  lemma {:induction false} DecodeSplit(v: Variant, mode: Mode, correction: nat, a: seq<Word>, b: seq<Word>)
    ensures var first := Decode(v, mode, correction, a);
      var second := Decode(v, mode, first.correction, b);
      Decode(v, mode, correction, a + b) == Decoded(second.correction, first.events + second.events)
    decreases |b|
  {
    if |b| > 0 {
      var b' := b[..|b| - 1];
      assert (a + b)[..|a + b| - 1] == a + b';
      assert (a + b)[|a + b| - 1] == b[|b| - 1];
      DecodeSplit(v, mode, correction, a, b');
    } else {
      assert a + b == a;
    }
  }

  /** The photon events of a stream, in order. */
  function Photons(es: seq<Event>): (ps: seq<Event>)
    ensures |ps| <= |es|
  {
    if |es| == 0 then []
    else Photons(es[..|es| - 1]) + (if es[|es| - 1].IsPhoton() then [es[|es| - 1]] else [])
  }

  lemma PhotonsAppend(es: seq<Event>, o: Option<Event>)
    ensures Photons(es + Emitted(o)) == Photons(es) + Photons(Emitted(o))
  {
    if o.Some? {
      assert (es + Emitted(o))[..|es|] == es;
    } else {
      assert es + Emitted(o) == es;
    }
  }

  /** No overflow record of `recs` has a count of 0. */
  predicate NoZeroCountOverflow(mode: Mode, recs: seq<Word>)
  {
    forall i :: 0 <= i < |recs| && KindOf(Extract(mode, recs[i])) == Overflow ==> Extract(mode, recs[i]).Counter() > 0
  }

  /** The C/C# and 32-bit Python copies keep the same correction and report
      the same photons on every stream; the 64-bit Python copy does too on
      every stream without zero-count overflow records. */
  lemma {:induction false} VariantsAgreeOnPhotons(v: Variant, mode: Mode, correction: nat, recs: seq<Word>)
    requires v == Python64 ==> NoZeroCountOverflow(mode, recs)
    ensures var d, r := Decode(v, mode, correction, recs), Decode(Reference, mode, correction, recs);
      d.correction == r.correction && Photons(d.events) == Photons(r.events)
  {
    if |recs| > 0 {
      var init := recs[..|recs| - 1];
      var w := recs[|recs| - 1];
      assert v == Python64 ==> NoZeroCountOverflow(mode, init) by {
        if v == Python64 {
          forall i | 0 <= i < |init| && KindOf(Extract(mode, init[i])) == Overflow
            ensures Extract(mode, init[i]).Counter() > 0
          {
            assert init[i] == recs[i];
          }
        }
      }
      VariantsAgreeOnPhotons(v, mode, correction, init);
      var d, r := Decode(v, mode, correction, init), Decode(Reference, mode, correction, init);
      var sd, sr := Step(v, mode, d.correction, w), Step(Reference, mode, r.correction, w);
      assert sd.correction == sr.correction by {
        assert v == Python64 ==> (KindOf(Extract(mode, w)) == Overflow ==> Extract(mode, w).Counter() > 0) by {
          if v == Python64 {
            assert recs[|recs| - 1] == w;
          }
        }
      }
      assert Photons(Emitted(sd.event)) == Photons(Emitted(sr.event)) by {
        if sr.event.Some? && sr.event.value.IsPhoton() {
          VariantsAgreeOnPhoton(Reference, v, mode, d.correction, w);
        } else if sd.event.Some? && sd.event.value.IsPhoton() {
          VariantsAgreeOnPhoton(v, Reference, mode, d.correction, w);
        } else {
          assert Photons(Emitted(sd.event)) == [];
          assert Photons(Emitted(sr.event)) == [];
        }
      }
      PhotonsAppend(d.events, sd.event);
      PhotonsAppend(r.events, sr.event);
    }
  }

  /** A T2 overflow record with the full count 0x1FFFFFF followed by a
      regular record on channel field 1 with timetag 1: one photon on
      external channel 2, one tick after the new correction. */
  lemma T2OverflowThenPhoton()
    ensures var k := 33554432 * 0x1FF_FFFF;
      Decode(Reference, T2, 0, [0xFFFF_FFFF, 0x0200_0001]) == Decoded(k, [PhotonT2(2, k + 1)])
  {
    Pow2Values();
    var recs: seq<Word> := [0xFFFF_FFFF, 0x0200_0001];
    assert recs[..1] == [0xFFFF_FFFF];
    assert recs[..1][..0] == [];
  }

  /** A T3 marker record (special 1, channel 3, nsync 500) at correction 0
      reports marker bitmask 3 at sync period 500; a special record on
      channel 20 reports nothing and the next record decodes normally. */
  lemma T3MarkerAndUnusedChannel()
    ensures Decode(Reference, T3, 0, [0x8600_01F4]) == Decoded(0, [MarkerT3(3, 500)])
    ensures Decode(Reference, T3, 0, [0xA800_0000, 0x8600_01F4]) == Decoded(0, [MarkerT3(3, 500)])
  {
    Pow2Values();
    var recs: seq<Word> := [0xA800_0000, 0x8600_01F4];
    assert recs[..1] == [0xA800_0000];
    assert recs[..1][..0] == [];
    assert [0x8600_01F4 as Word][..0] == [];
  }
}
