/** The closed classification of a record by its (special, channel) pair. */
module Classify {
  import opened Record

  /** What a record is, as the branches of ProcessT2 / ProcessT3 see it. */
  datatype Kind =
    | Overflow   // special = 1, channel = 0x3F: counter holds the number of overflows
    | Marker     // special = 1, channel 1..15: channel holds the marker bitmask
    | Sync       // special = 1, channel 0, T2 only: a sync event, reported on channel 0
    | Regular    // special = 0: a photon on input channel (channel + 1)
    | Unused     // any other special record: no branch of the demos handles it

  function KindOf(f: Fields): (k: Kind)
    requires f.InRange()
    ensures k == Overflow <==> f.special == 1 && f.channel == OVERFLOW_CHANNEL
    ensures k == Marker <==> f.special == 1 && 1 <= f.channel <= 15
    ensures k == Sync <==> f.special == 1 && f.channel == 0 && f.ModeOf() == T2
    ensures k == Regular <==> f.special == 0
    ensures k == Unused <==> f.special == 1 && (16 <= f.channel < OVERFLOW_CHANNEL || (f.channel == 0 && f.ModeOf() == T3))
  {
    if f.special == 0 then Regular
    else if f.channel == OVERFLOW_CHANNEL then Overflow
    else if 1 <= f.channel <= 15 then Marker
    else if f.channel == 0 && f.T2Fields? then Sync
    else Unused
  }
}
