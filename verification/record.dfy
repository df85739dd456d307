/** The 32-bit TTTR record of the MultiHarp in its two timing modes, and the
    shift-and-mask extraction of its bit fields.

    T2 record:  | special:1 | channel:6 | timetag:25 |
    T3 record:  | special:1 | channel:6 | dtime:15 | nsync:10 |

    The C demos read the same fields through a union of bit-fields, the C#
    demos by shift-and-mask, the Python demos by slicing a binary string; all
    three are modelled by `Extract` (for the Python slicing this is proved
    below, for the C bit-fields it is the LSB-first allocation the demos
    rely on). */
module Record {
  import opened Base
  import BinString

  /** An unsigned 32-bit FIFO record. */
  type Word = w: nat | w < 0x1_0000_0000

  /** Timing mode, fixed for a measurement (MODE_T2 / MODE_T3). */
  datatype Mode = T2 | T3

  /** The channel code that, with special = 1, marks an overflow record. */
  const OVERFLOW_CHANNEL: nat := 0x3F

  /** Number of ticks of the truncated counter: T2WRAPAROUND_V2 and T3WRAPAROUND. */
  function Wraparound(mode: Mode): (n: nat)
    ensures n == Pow2(CounterBits(mode))
  {
    Pow2Values();
    match mode
    case T2 => 33554432
    case T3 => 1024
  }

  /** Width of the truncated counter field: timetag in T2, nsync in T3. */
  function CounterBits(mode: Mode): nat
  {
    match mode
    case T2 => 25
    case T3 => 10
  }

  datatype Fields =
    | T2Fields(special: nat, channel: nat, timetag: nat)
    | T3Fields(special: nat, channel: nat, dtime: nat, nsync: nat)
  {
    /** The truncated counter the overflow correction extends; on an
        overflow record it holds the number of overflows. */
    function Counter(): nat
    {
      if T2Fields? then timetag else nsync
    }

    function ModeOf(): Mode
    {
      if T2Fields? then T2 else T3
    }

    /** Every field fits its bit width. */
    predicate InRange()
    {
      && special < 2
      && channel < 64
      && (T2Fields? ==> timetag < 33554432)
      && (T3Fields? ==> dtime < 32768 && nsync < 1024)
    }
  }

  /** `(TTTRRecord >> lo) & (0xFFFFFFFF >> (32 - width))`. */
  function BitField(w: Word, lo: nat, width: nat): nat
  {
    Low(Shr(w, lo), width)
  }

  /** Splits a record into the fields of the given mode. */
  function Extract(mode: Mode, w: Word): (f: Fields)
    ensures f.InRange() && f.ModeOf() == mode
    ensures f.Counter() < Wraparound(mode)
  {
    Pow2Values();
    match mode
    case T2 => T2Fields(BitField(w, 31, 1), BitField(w, 25, 6), BitField(w, 0, 25))
    case T3 => T3Fields(BitField(w, 31, 1), BitField(w, 25, 6), BitField(w, 10, 15), BitField(w, 0, 10))
  }

  /** Assembles a record from its fields, the inverse of `Extract`. */
  function Pack(f: Fields): Word
    requires f.InRange()
  {
    match f
    case T2Fields(s, c, t) => s * 0x8000_0000 + c * 0x200_0000 + t
    case T3Fields(s, c, d, n) => s * 0x8000_0000 + c * 0x200_0000 + d * 1024 + n
  }

  /** Decoding a packed record reproduces its fields. */
  lemma ExtractPack(f: Fields)
    requires f.InRange()
    ensures Extract(f.ModeOf(), Pack(f)) == f
  {
    match f
    case T2Fields(s, c, t) => ExtractPackT2(s, c, t);
    case T3Fields(s, c, d, n) => ExtractPackT3(s, c, d, n);
  }

  lemma ExtractPackT2(s: nat, c: nat, t: nat)
    requires T2Fields(s, c, t).InRange()
    ensures Extract(T2, Pack(T2Fields(s, c, t))) == T2Fields(s, c, t)
  {
    Pow2Values();
    var w := Pack(T2Fields(s, c, t));
    assert BitField(w, 0, 25) == t by {
      DivModUnique(w, 0x200_0000, s * 64 + c, t);
    }
    assert BitField(w, 25, 6) == c by {
      DivModUnique(w, 0x200_0000, s * 64 + c, t);
      DivModUnique(s * 64 + c, 64, s, c);
    }
    assert BitField(w, 31, 1) == s by {
      DivModUnique(w, 0x8000_0000, s, c * 0x200_0000 + t);
      DivModUnique(s, 2, 0, s);
    }
  }

  lemma ExtractPackT3(s: nat, c: nat, d: nat, n: nat)
    requires T3Fields(s, c, d, n).InRange()
    ensures Extract(T3, Pack(T3Fields(s, c, d, n))) == T3Fields(s, c, d, n)
  {
    Pow2Values();
    var w := Pack(T3Fields(s, c, d, n));
    assert BitField(w, 0, 10) == n by {
      DivModUnique(w, 1024, s * 0x20_0000 + c * 0x8000 + d, n);
    }
    assert BitField(w, 10, 15) == d by {
      DivModUnique(w, 1024, s * 0x20_0000 + c * 0x8000 + d, n);
      DivModUnique(s * 0x20_0000 + c * 0x8000 + d, 0x8000, s * 64 + c, d);
    }
    assert BitField(w, 25, 6) == c by {
      DivModUnique(w, 0x200_0000, s * 64 + c, d * 1024 + n);
      DivModUnique(s * 64 + c, 64, s, c);
    }
    assert BitField(w, 31, 1) == s by {
      DivModUnique(w, 0x8000_0000, s, c * 0x200_0000 + d * 1024 + n);
      DivModUnique(s, 2, 0, s);
    }
  }

  /** Re-packing the extracted fields gives back the record. */
  lemma PackExtract(mode: Mode, w: Word)
    ensures Pack(Extract(mode, w)) == w
  {
    Pow2Values();
    var f := Extract(mode, w);
    assert w == (w / 0x200_0000) * 0x200_0000 + w % 0x200_0000;
    assert w / 0x200_0000 == (w / 0x8000_0000) * 64 + (w / 0x200_0000) % 64 by {
      ShrShr(w, 25, 6);
    }
    if mode == T3 {
      assert w % 0x200_0000 == (w % 0x200_0000) / 1024 * 1024 + w % 1024;
    }
  }

  /** The binary-string slices the Python demos take, `[0:1]`, `[1:7]` and
      `[7:32]` of the 32-digit string, are the T2 fields. */
  lemma PythonSlicesT2(w: Word)
    ensures var s := BinString.Digits(w, 32);
      var f := Extract(T2, w);
      && BinString.ParseBin(s[0..1]) == f.special
      && BinString.ParseBin(s[1..7]) == f.channel
      && BinString.ParseBin(s[7..32]) == f.timetag
  {
    var s := BinString.Digits(w, 32);
    var high := Shr(w, 25);
    BinString.DigitsSplit(w, 7, 25);
    BinString.DigitsSplit(high, 1, 6);
    ShrShr(w, 25, 6);
    assert s[0..1] == BinString.Digits(Shr(w, 31), 1);
    assert s[1..7] == BinString.Digits(high, 6);
    assert s[7..32] == BinString.Digits(w, 25);
    BinString.ParseDigits(Shr(w, 31), 1);
    BinString.ParseDigits(high, 6);
    BinString.ParseDigits(w, 25);
    assert Shr(w, 0) == w;
  }

  /** The T3 slices `[0:1]`, `[1:7]`, `[7:22]` and `[22:32]` are special,
      channel, dtime and nsync. */
  lemma PythonSlicesT3(w: Word)
    ensures var s := BinString.Digits(w, 32);
      var f := Extract(T3, w);
      && BinString.ParseBin(s[0..1]) == f.special
      && BinString.ParseBin(s[1..7]) == f.channel
      && BinString.ParseBin(s[7..22]) == f.dtime
      && BinString.ParseBin(s[22..32]) == f.nsync
  {
    var s := BinString.Digits(w, 32);
    var f := Extract(T3, w);
    var mid, high := Shr(w, 10), Shr(w, 25);
    assert s == BinString.Digits(mid, 22) + BinString.Digits(w, 10) by {
      BinString.DigitsSplit(w, 22, 10);
    }
    assert BinString.ParseBin(s[22..32]) == f.nsync by {
      assert s[22..32] == BinString.Digits(w, 10);
      BinString.ParseDigits(w, 10);
      assert Shr(w, 0) == w;
    }
    assert BinString.Digits(mid, 22) == BinString.Digits(high, 7) + BinString.Digits(mid, 15) by {
      BinString.DigitsSplit(mid, 7, 15);
      ShrShr(w, 10, 15);
    }
    assert BinString.ParseBin(s[7..22]) == f.dtime by {
      assert s[7..22] == BinString.Digits(mid, 15);
      BinString.ParseDigits(mid, 15);
    }
    assert BinString.Digits(high, 7) == BinString.Digits(Shr(w, 31), 1) + BinString.Digits(high, 6) by {
      BinString.DigitsSplit(high, 1, 6);
      ShrShr(w, 25, 6);
    }
    assert BinString.ParseBin(s[1..7]) == f.channel by {
      assert s[1..7] == BinString.Digits(high, 6);
      BinString.ParseDigits(high, 6);
    }
    assert BinString.ParseBin(s[0..1]) == f.special by {
      assert s[0..1] == BinString.Digits(Shr(w, 31), 1);
      BinString.ParseDigits(Shr(w, 31), 1);
    }
  }
}
