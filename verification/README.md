# MultiHarp TTTR record decoder

A Dafny model of the record-decoding core of the MultiHarp TTTR demo
programs. The demos read 32-bit TTTR records from the device FIFO in bursts.
ProcessT2/ProcessT3 split each record into its bit fields. They classify it
as an overflow, marker, sync or regular (photon) record. They keep the
running overflow correction `oflcorrection`. They report corrected times to
the GotPhoton/GotMarker callbacks. The acquisition loop around them polls
the device flags, reads the FIFO, and leaves on a FIFO overrun, a failing
library call, or the end of the measurement (the `stopretry` rule). The
T3 instant-histogramming demos also count every T3 photon into
`histogram[channel][dtime]`.

Modules, in dependency order:

- `Base` holds `Option`/`Result`, powers of two, shifts and masks on
  naturals, and the arithmetic lemmas the rest needs.
- `BinString` holds the zero-padded binary strings of the Python demos
  (`'{0:0{1}b}'.format(rec, 32)` and `int(s, base=2)`).
- `Record` holds the 32-bit record, its T2 and T3 field layouts,
  `Extract` (shift-and-mask) and its inverse `Pack`.
- `Classify` holds the closed classification of a record by its
  (special, channel) pair.
- `Decoder` holds the per-record step, the demos' if-chain, and stream
  decoding with the correction threaded through.
- `Batch` holds the `for (i = 0; i < nRecords; i++)` loop and the
  whole-stream properties.
- `FixedWidth` holds the C/C# 64-bit arithmetic and its relation to the
  unbounded model.
- `Histogram` holds the T3 instant histogram.
- `Acquisition` holds the polling loop, its stop rule, and the loop with
  decoding.

The demo copies differ in two details. `Decoder.Variant` names them:

- `Reference` is the C and C# copies.
- `Python32` is the 32-bit Python copy. It reports a marker at
  `oflcorrection + WRAPAROUND * counter`.
- `Python64` is the 64-bit Python copy. It behaves as `Python32`, except
  that an overflow record with count 0 adds one wraparound.

Times are unbounded naturals. The C/C# `uint64_t`/`ulong` arithmetic is
modelled separately in `FixedWidth`, which proves that it is the unbounded
decoder reduced modulo 2^64.

Three behaviours of the demos are worth knowing when reading the model:

- Special records on channels 16..62 (and channel 0 in T3) match no branch
  of ProcessT2/ProcessT3. They are dropped silently and leave the
  correction unchanged (`Decoder.UnusedRecord`, and `Decoder.SyncRecord`
  for channel 0 in T3).
- The correction has no upper bound check. In the C and C# copies it wraps
  modulo 2^64 (`FixedWidth.Decode64IsDecodeMod`).
- An overflow record with count 0 adds nothing to the correction in the C,
  C# and 32-bit Python copies. So the next event can carry the same time
  it would have had without that record.
  `Decoder.OverflowDelaysNextEvent` states the exact delay, which is
  wraparound * count.

## Model

| member | source | states |
|---|---|---|
| Record.Wraparound | Windows/64bit/CSharp/advanced/tttrmode_eventfilter_main/tttrmode.cs:745 | T2WRAPAROUND_V2 = 33554432 and T3WRAPAROUND = 1024 are 2 to the power of the counter width (25 and 10 bits) |
| Record.Extract | Windows/64bit/CSharp/advanced/tttrmode_eventfilter_main/tttrmode.cs:748-750 | the shift-and-mask fields of a record fit their bit widths, and the counter is below the wraparound |
| Record.ExtractPack | Windows/64bit/CSharp/advanced/tttrmode_eventfilter_main/tttrmode.cs:790-793 | any in-range T2 or T3 fields, packed into a record and extracted again, come back unchanged |
| Record.PackExtract | Windows/32bit/C/advanced/tttrmode_eventfilter_main/tttrmode.c:165-175 | the fields of a record pack back into the same 32-bit word: the layout covers every bit exactly once |
| Record.PythonSlicesT2 | Windows/32bit/Python/advanced/t3mode_instant_histogramming/tttrmode.py:165-174 | the slices [0:1], [1:7], [7:32] of the 32-digit binary string parse to special, channel and timetag |
| Record.PythonSlicesT3 | Windows/32bit/Python/advanced/t3mode_instant_histogramming/tttrmode.py:204-213 | the slices [0:1], [1:7], [7:22], [22:32] parse to special, channel, dtime and nsync |
| BinString.ParseDigits | Windows/64bit/Python/advanced/tttrmode_instant_processing/tttrmode.py:124-133 | parsing the zero-padded width-digit binary rendering of n gives back n modulo 2^width, so a 32-bit record survives the string round trip |
| Classify.KindOf | Windows/32bit/C/advanced/tttrmode_eventfilter_main/tttrmode.c:129-155 | each record kind holds exactly when its (special, channel) condition does, so the kinds are exhaustive and disjoint |
| Decoder.Step | Windows/64bit/CSharp/advanced/tttrmode_eventfilter_main/tttrmode.cs:741-780 | the correction never decreases and only overflow records move it; a record is reported as a non-sync photon iff special is 0, on channel field + 1 (1..64), at correction + counter, as a PhotonT2 in T2 and a PhotonT3 with its dtime in T3 |
| Decoder.SourceStep | Windows/64bit/CSharp/advanced/tttrmode_eventfilter_main/tttrmode.cs:741-820 | ProcessT2/ProcessT3 as written, a chain of independent ifs under special == 1: it reports at most one event per record, and only the overflow branch (channel 0x3F) moves the correction, never downwards |
| Decoder.StepMatchesSource | Windows/64bit/CSharp/advanced/tttrmode_eventfilter_main/tttrmode.cs:783-820 | the demos' chain of independent ifs and the one-kind classification agree: same correction, and at most one Got* call per record |
| Decoder.Decode | Windows/32bit/C/advanced/tttrmode_eventfilter_main/tttrmode.c:717-722 | over a stream, the correction never decreases and at most one event is reported per record |
| Decoder.OverflowRecord | Windows/32bit/C/advanced/tttrmode_eventfilter_main/tttrmode.c:131-135 | an overflow record reports nothing and adds wraparound * count; a count of 0 adds one wraparound only in the 64-bit Python copy |
| Decoder.OverflowIncrement | Windows/64bit/Python/advanced/tttrmode_instant_processing/tttrmode.py:137-143 | an overflow always adds whole wraparound periods, and adds nothing exactly when the count is 0 outside the 64-bit Python copy |
| Decoder.Python64OverflowAdvances | Windows/64bit/Python/advanced/tttrmode_instant_processing/tttrmode.py:137-143 | in the 64-bit Python copy every overflow record adds at least one wraparound |
| Decoder.MarkerRecord | Windows/32bit/C/advanced/tttrmode_eventfilter_main/tttrmode.c:184-189 | a marker record reports its channel field as the marker bitmask and leaves the correction alone; the time is correction + counter in the C/C# copies and correction + wraparound * counter in the Python copies |
| Decoder.MarkerTime | Windows/32bit/Python/advanced/t3mode_instant_histogramming/tttrmode.py:182 | a marker time is never before the correction and equals it for a counter of 0; in the C/C# copies a counter below the wraparound keeps it within the current period, which the Python formula does not |
| Decoder.SyncRecord | Windows/32bit/C/advanced/tttrmode_eventfilter_main/tttrmode.c:143-148 | special 1 with channel 0 is a photon on channel 0 at correction + timetag in T2, and is dropped in T3 |
| Decoder.UnusedRecord | Windows/64bit/CSharp/advanced/tttrmode_eventfilter_main/tttrmode.cs:797-810 | a special record on channels 16..62 reports nothing and leaves the correction unchanged |
| Decoder.StepDelay | Windows/32bit/C/advanced/tttrmode_eventfilter_main/tttrmode.c:138-154 | starting k later moves the new correction and the reported time exactly k later, and nothing else |
| Decoder.OverflowDelaysNextEvent | Windows/32bit/C/advanced/tttrmode_eventfilter_main/tttrmode.c:179-198 | an overflow record delays the next reported event by exactly what it added to the correction |
| Decoder.ReferenceEventsWithinPeriod | Windows/64bit/CSharp/advanced/tttrmode_eventfilter_main/tttrmode.cs:762-776 | the C/C# copies report every event at correction + a counter below the wraparound |
| Decoder.PythonMarkerTimeDiverges | Windows/32bit/Python/advanced/t3mode_instant_histogramming/tttrmode.py:219-222 | the Python copies report a marker with a nonzero counter a full period or more after the correction, never at the C/C# time |
| Decoder.PythonMarkerCounterexample | Windows/64bit/Python/advanced/tttrmode_instant_processing/tttrmode.py:144-148 | record 0x82000001 at correction 0 is marker 1 at tick 1 in C/C#, and at tick 33554432 in both Python copies |
| Decoder.VariantsAgreeOnPhoton | Windows/32bit/Python/advanced/t3mode_instant_histogramming/tttrmode.py:224-230 | a record that one copy reports as a photon is decoded identically by every copy |
| Batch.ProcessBuffer | Windows/64bit/CSharp/advanced/tttrmode_eventfilter_main/tttrmode.cs:626-631 | the loop over buffer[0..nRecords) yields the correction and the events of decoding those records in index order |
| Batch.EventCount | Windows/32bit/C/advanced/tttrmode_eventfilter_main/tttrmode.c:129-155 | the number of events is exactly the number of marker, sync and regular records |
| Batch.CorrectionIsOverflowTotal | Windows/32bit/C/advanced/tttrmode_eventfilter_main/tttrmode.c:182 | the final correction is the initial one plus what the overflow records added, and nothing else |
| Batch.DecodeSplit | Windows/32bit/C/advanced/tttrmode_eventfilter_main/tttrmode.c:709-726 | decoding in two bursts, the second resuming from the first's correction, equals decoding the concatenation, so burst boundaries do not matter |
| Batch.VariantsAgreeOnPhotons | Windows/64bit/Python/advanced/tttrmode_instant_processing/tttrmode.py:179-197 | the C/C#, 32-bit Python and (without zero-count overflows) 64-bit Python copies keep the same correction and report the same photons over any stream |
| Batch.T2OverflowThenPhoton | Windows/64bit/CSharp/advanced/tttrmode_eventfilter_main/tttrmode.cs:755-778 | overflow count 0x1FFFFFF then a regular record on channel field 1 with timetag 1 give one photon on channel 2 at the new correction + 1 |
| Batch.T3MarkerAndUnusedChannel | Windows/64bit/CSharp/advanced/tttrmode_eventfilter_main/tttrmode.cs:797-809 | a T3 marker record gives marker 3 at sync 500, and a preceding special record on channel 20 changes nothing |
| FixedWidth.Step64IsStepMod | Windows/32bit/C/advanced/tttrmode_eventfilter_main/tttrmode.c:159-200 | one record with uint64 arithmetic gives the unbounded step's correction and times modulo 2^64, and the same events otherwise |
| FixedWidth.Step64 | Windows/32bit/C/advanced/tttrmode_eventfilter_main/tttrmode.c:111-200 | ProcessT2/ProcessT3 with uint64_t arithmetic: only overflow records move the correction, and every reported time fits 64 bits |
| FixedWidth.Decode64IsDecodeMod | Windows/32bit/C/advanced/tttrmode_eventfilter_main/tttrmode.c:62 | a whole stream with uint64 arithmetic is the unbounded decoding reduced modulo 2^64 |
| FixedWidth.Decode64 | Windows/32bit/C/advanced/tttrmode_eventfilter_main/tttrmode.c:715-723 | the record loop over the global uint64_t correction: at most one event per record, every time and the final correction below 2^64 |
| FixedWidth.EventsBeforePeriodEnd | Windows/64bit/CSharp/advanced/tttrmode_eventfilter_main/tttrmode.cs:806-813 | every event of a C/C# stream lies before the final correction + wraparound |
| FixedWidth.NoWrapBelowLimit | Windows/64bit/CSharp/advanced/tttrmode_eventfilter_main/tttrmode.cs:48 | while the final correction stays a period below 2^64, the ulong decoder equals the unbounded one exactly |
| Histogram.Cleared | Windows/64bit/C/advanced/t3mode_instant_histogramming/tttrmode.c:223 | the cleared table has 64 rows of 32768 cells, all zero |
| Histogram.ClearedIsEmpty | Windows/64bit/C/advanced/t3mode_instant_histogramming/tttrmode.c:223 | the cleared table's cells sum to zero |
| Histogram.Bump | Windows/64bit/C/advanced/t3mode_instant_histogramming/tttrmode.c:81 | the increment raises one unsigned 32-bit cell by one modulo 2^32, keeps the table's shape and changes no other cell |
| Histogram.BumpTotal | Windows/64bit/C/advanced/t3mode_instant_histogramming/tttrmode.c:81 | unless the bumped cell is at 2^32 - 1, one increment adds exactly one to the table's total |
| Histogram.GotEvent | Windows/64bit/C/advanced/t3mode_instant_histogramming/tttrmode.c:79-82 | a T3 photon is accepted iff its external channel and dtime index into the table, and markers leave the table alone |
| Histogram.GotEventByInput | Windows/64bit/C/advanced/t3mode_instant_histogramming/tttrmode.c:576-581 | with row = channel - 1, a T3 photon is accepted iff its channel is 1..64 and its dtime fits |
| Histogram.Accumulate | Windows/32bit/Python/advanced/t3mode_instant_histogramming/tttrmode.py:145-147 | feeding events in order keeps the table's shape |
| Histogram.AccumulateTotal | Windows/32bit/Python/advanced/t3mode_instant_histogramming/tttrmode.py:147 | while no cell's count plus the events landing in it reaches 2^32, the total grows by exactly the number of T3 photons accepted |
| Histogram.AccumulateCells | Windows/64bit/C/advanced/t3mode_instant_histogramming/tttrmode.c:79-82 | while no counter wraps, every cell ends up at its starting value plus the number of events landing in it, so no count is lost or misplaced |
| Histogram.DecodedCellHits | Windows/64bit/C/advanced/t3mode_instant_histogramming/tttrmode.c:174-182 | the photons decoded from a T3 stream land in each cell exactly as often as its regular records name that cell |
| Histogram.RecordEffect | Windows/64bit/C/advanced/t3mode_instant_histogramming/tttrmode.c:174-182 | a regular T3 record bumps cell [channel + 1][dtime] when the channel field is below 63, misses the table at 63, and special records leave it alone |
| Histogram.PhotonT3Count | Windows/64bit/C/advanced/t3mode_instant_histogramming/tttrmode.c:160-182 | a T3 stream yields exactly one photon event per regular record |
| Histogram.HistogramCountsRegularRecords | Windows/64bit/C/advanced/t3mode_instant_histogramming/tttrmode.c:532-539 | while no cell's count plus the regular records naming it reaches 2^32, every cell grows by exactly the number of regular records naming it, and the total by the number of regular records; with the demos' row this needs every channel field below 63 |
| Histogram.Channel63Record | Windows/64bit/C/advanced/t3mode_instant_histogramming/tttrmode.c:148-156 | 0x7E000000 is a regular T3 record on channel field 63 with dtime 0 and nsync 0 |
| Histogram.Channel64Counterexample | Windows/64bit/C/advanced/t3mode_instant_histogramming/tttrmode.c:177-181 | a regular record on channel field 63 goes to row 64 of a 64-row table: the histogram update fails |
| Histogram.Channel64Corrected | Windows/32bit/Python/advanced/t3mode_instant_histogramming/tttrmode.py:127 | with row = channel - 1 the same record bumps row 63, the last row |
| Acquisition.PassFacts | Windows/32bit/C/advanced/tttrmode_eventfilter_main/tttrmode.c:685-749 | one pass adds the records it delivers to Progress and bumps stopretry iff it is ended and empty; it either goes round again or leaves with a cause it shows and delivers nothing; Done iff stopretry passes the grace |
| Acquisition.PollStep | Windows/64bit/CSharp/advanced/tttrmode_eventfilter_main/tttrmode.cs:590-660 | one pass of `while (true)` counts itself, never lowers Progress, and raises stopretry by at most one |
| Acquisition.Run | Windows/64bit/CSharp/advanced/tttrmode_eventfilter_main/tttrmode.cs:590-660 | the loop makes no more passes than there are polls, and while it has not been left it has made them all |
| Acquisition.RunCounts | Windows/64bit/CSharp/advanced/tttrmode_eventfilter_main/tttrmode.cs:634-654 | Progress (a C# `long`) counts every record delivered so far, and stopretry every ended-and-empty pass so far (it is never reset) |
| Acquisition.DoneRule | Windows/64bit/CSharp/advanced/tttrmode_eventfilter_main/tttrmode.cs:647-654 | the loop ends with Done exactly when stopretry exceeds the grace, and stopretry never exceeds the grace by more than one |
| Acquisition.EarlierPassesContinue | Windows/64bit/CSharp/advanced/tttrmode_eventfilter_main/tttrmode.cs:592-646 | every pass before the last one had no flags, overrun, read or status failure |
| Acquisition.LastPassShowsCause | Windows/64bit/CSharp/advanced/tttrmode_eventfilter_main/tttrmode.cs:601-615 | the pass that ends the loop shows its cause and delivers no records, so an overrun stops before reading |
| Acquisition.StoppedIsFinal | Windows/64bit/Python/advanced/tttrmode_instant_processing/tttrmode.py:206-215 | once the loop has been left, later polls change nothing |
| Acquisition.DoneAfterGrace | Windows/32bit/C/advanced/tttrmode_eventfilter_main/tttrmode.c:737-744 | Done comes after six ended-and-empty passes in the C/C# copies and after one in the Python copies |
| Acquisition.Pass | Windows/32bit/Python/advanced/t3mode_instant_histogramming/tttrmode.py:486-522 | one pass steers as PassFacts says and decodes exactly the records it delivered, continuing from the current correction |
| Acquisition.Acquire | Windows/64bit/Python/advanced/tttrmode_instant_processing/tttrmode.py:373-410 | the loop from oflcorrection = 0 steers as Run does, and its correction and events are those of decoding every delivered record in order |

## Left out

- The MultiHarp library (MH_GetFlags, MH_ReadFiFo, MH_CTCStatus, MH_StopMeas, device opening and configuration) is not modelled. What one pass gets back from it is an input (`Acquisition.Poll`).
- Console and file output is not modelled. This covers progress printing, the GotPhoton/GotMarker output formatting, the histogram save loops, and the Python save loop that stops one bin early (`range(0, T3HISTBINS - 1)`).
- Event-filter configuration, count-rate reading, and the other demo programs (histogramming mode, multiple devices) are outside the decoder core.
- The Python `try/except` around the string formatting is not modelled. It cannot fail for a 32-bit record.
- The C bit-field unions are taken to allocate from the least significant bit. The demos rely on this, and the C# shift-and-mask copies state the same layout explicitly.
- MAXINPCHAN is taken as 64, as the Python copies define it. The C header mhdefin.h is not part of this model.
- Python's `sys.exit` on the way out (closeDevices) and the difference between the Python copies' Done paths (`MH_StopMeas; break` against `stoptttr()`) are side effects after the loop. Only the reason for leaving is modelled.
- Histogram.Bump: models the C copy's unsigned 32-bit cell. The Python copies use float64 cells (numpy.zeros), which do not wrap at 2^32.
- Histogram.GotEvent: an index outside the table is an error result. In the C copy it is an out-of-bounds write whose effect is not modelled.
- Acquisition.PassFacts: a failing library call is a boolean of the poll. The retcode values and error strings are not modelled.
- Acquisition.RunCounts: Progress is unbounded. The C copies declare it `unsigned int` (Windows/32bit/C/advanced/tttrmode_eventfilter_main/tttrmode.c:237), so after 2^32 records their counter holds the delivered count modulo 2^32. It is only printed and does not steer the loop.
- Decoder.Step: works on unbounded naturals. The C/C# 64-bit wrap-around is stated separately by FixedWidth.Step64IsStepMod.

## Findings

| source | as written | input that shows it | evidently intended | confidence | as-written member | corrected member |
|---|---|---|---|---|---|---|
| Windows/32bit/Python/advanced/t3mode_instant_histogramming/tttrmode.py:182 | the Python copies report a marker at `oflcorrection + WRAPAROUND * counter` (also lines 220, and lines 145 and 187 of the 64-bit copy) | record 0x82000001 in T2 at correction 0: marker 1 at tick 33554432 instead of tick 1 | `oflcorrection + counter`, as in the C and C# copies, so that every event lies inside the current overflow period | not executed | Decoder.PythonMarkerCounterexample | Decoder.ReferenceEventsWithinPeriod |
| Windows/64bit/C/advanced/t3mode_instant_histogramming/tttrmode.c:81 | `histogram[Channel][DTime]++` with Channel = channel field + 1 (1..64) into a table of MAXINPCHAN = 64 rows (also line 147 of the 32-bit Python copy) | regular T3 record 0x7E000000 (channel field 63): row 64 is past the table; an IndexError in Python and an out-of-bounds write in C | row = channel field (external channel - 1); the output loop prints rows 0..NumChannels-1, where row 0 is never filled as written | not executed | Histogram.Channel64Counterexample | Histogram.Channel64Corrected |
