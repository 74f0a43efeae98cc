/**
  Unsigned binary numerals, most significant digit first: the `format(n, 'b')`
  and `int(s, 2)` conversions of Python over the digits 0 and 1.
*/
module Binary {

  type Bit = b: int | 0 <= b <= 1

  function Pow2(n: nat): (r: nat)
    ensures r >= 1
  {
    if n == 0 then 1 else 2 * Pow2(n - 1)
  }

  /** The value of a big-endian digit string, as `int(s, 2)` reads it. */
  function Value(bits: seq<Bit>): (r: nat)
    ensures r < Pow2(|bits|)
  {
    if bits == [] then 0 else 2 * Value(bits[..|bits| - 1]) + bits[|bits| - 1]
  }

  /** The `w` low-order digits of `n`, most significant first. */
  function ToBits(n: nat, w: nat): (r: seq<Bit>)
    ensures |r| == w
  {
    if w == 0 then [] else ToBits(n / 2, w - 1) + [n % 2]
  }

  /** `w` digits are enough to write every number below 2^w exactly. */
  lemma {:induction false} ValueToBits(n: nat, w: nat)
    requires n < Pow2(w)
    ensures Value(ToBits(n, w)) == n
  {
    if w > 0 {
      var r := ToBits(n, w);
      assert r[..w - 1] == ToBits(n / 2, w - 1);
      ValueToBits(n / 2, w - 1);
    }
  }

  /** Every digit string is the numeral of its own value, at its own width. */
  lemma {:induction false} ToBitsValue(bits: seq<Bit>)
    ensures ToBits(Value(bits), |bits|) == bits
  {
    if bits != [] {
      var init := bits[..|bits| - 1];
      ToBitsValue(init);
      assert bits == init + [bits[|bits| - 1]];
    }
  }

  /** Reading the first digit of a `w`-digit numeral of a number below 2^(w-1) gives 0. */
  lemma {:induction false} ToBitsLeadingZero(n: nat, w: nat)
    requires w >= 1 && n < Pow2(w - 1)
    ensures ToBits(n, w)[0] == 0
  {
    if w > 1 {
      ToBitsLeadingZero(n / 2, w - 1);
    }
  }

  /**
    The number of digits `format(n, '08b')` writes: the binary length of `n`,
    but never fewer than eight.
  */
  function Width(n: nat): (r: nat)
    ensures r >= 8
    ensures r == 8 <==> n < 256
  {
    if n < 256 then 8 else 1 + Width(n / 2)
  }

  lemma {:induction false} WidthBound(n: nat)
    ensures n < Pow2(Width(n))
  {
    assert Pow2(8) == 256;
    if n >= 256 {
      WidthBound(n / 2);
    }
  }

  /** `format(n, '08b')`: the binary numeral of `n`, zero-padded on the left to eight digits. */
  function Format08b(n: nat): (r: seq<Bit>)
    ensures |r| == Width(n)
    ensures Value(r) == n
  {
    WidthBound(n);
    ValueToBits(n, Width(n));
    ToBits(n, Width(n))
  }
}
