/** The Python demos read record fields by formatting the record as a
    zero-padded binary string and parsing slices of it back with base 2.
    This module models both directions on unbounded naturals. */
module BinString {
  import opened Base

  /** The character of one binary digit. */
  function DigitChar(b: nat): char
    requires b < 2
  {
    if b == 0 then '0' else '1'
  }

  predicate IsBinary(s: string)
  {
    forall i :: 0 <= i < |s| ==> s[i] == '0' || s[i] == '1'
  }

  /** The `width` lowest binary digits of `n`, most significant first, as
      `'{0:0{1}b}'.format(n, width)` prints them when `n < 2^width`. */
  function Digits(n: nat, width: nat): (s: string)
    ensures |s| == width
    ensures IsBinary(s)
  {
    if width == 0 then [] else Digits(n / 2, width - 1) + [DigitChar(n % 2)]
  }

  /** `int(s, base=2)` for a string of binary digits. */
  function ParseBin(s: string): (v: nat)
    requires IsBinary(s)
    ensures v < Pow2(|s|)
  {
    if |s| == 0 then 0
    else
      var last := if s[|s| - 1] == '1' then 1 else 0;
      2 * ParseBin(s[..|s| - 1]) + last
  }

  /** Parsing the printed digits gives back the value, truncated to the width. */
  lemma {:induction false} ParseDigits(n: nat, width: nat)
    ensures ParseBin(Digits(n, width)) == Low(n, width)
  {
    if width > 0 {
      var s := Digits(n, width);
      assert s[..width - 1] == Digits(n / 2, width - 1);
      ParseDigits(n / 2, width - 1);
      ModDouble(n, Pow2(width - 1));
    }
  }

  /** Shifting right by one and then by `low - 1` is shifting by `low`. */
  lemma HalfThenShift(n: nat, low: nat)
    requires low > 0
    ensures Shr(n / 2, low - 1) == Shr(n, low)
  {
    assert Pow2(low) == 2 * Pow2(low - 1);
    DivDiv(n, 2, Pow2(low - 1));
  }

  /** The printed digits of `n` split into the digits of its high part and
      the digits of its low part: slicing a binary string is shifting. */
  lemma {:induction false} DigitsSplit(n: nat, high: nat, low: nat)
    ensures Digits(n, high + low) == Digits(Shr(n, low), high) + Digits(n, low)
  {
    if low > 0 {
      var half, d := n / 2, [DigitChar(n % 2)];
      DigitsSplit(half, high, low - 1);
      HalfThenShift(n, low);
      assert Digits(n, high + low) == Digits(half, high + low - 1) + d;
      assert Digits(n, low) == Digits(half, low - 1) + d;
    } else {
      assert Shr(n, 0) == n;
    }
  }
}
