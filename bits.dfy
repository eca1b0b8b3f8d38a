/**
 * Bit-level helpers shared by every TEDS field element: zero padding to a
 * byte boundary, reversal, big-endian reading, and the binary digit strings
 * the encoders build.
 *
 * A bitstream is a `seq<bool>` in stream order: element 0 is the first bit
 * read. TEDS sends each field least-significant bit first, so the value of
 * a field window `w` is LsbValue(w) = sum of w[i] * 2^i.
 */
module Bits {

  function Pow2(n: nat): (r: nat)
    ensures r >= 1
  {
    if n == 0 then 1 else 2 * Pow2(n - 1)
  }

  function Bit(b: bool): nat { if b then 1 else 0 }

  function Zeros(n: nat): seq<bool> { seq(n, _ => false) }

  /** The value of a window sent least-significant bit first. */
  function LsbValue(w: seq<bool>): (v: nat)
    ensures v < Pow2(|w|)
  {
    if w == [] then 0 else Bit(w[0]) + 2 * LsbValue(w[1..])
  }

  /** The value of a bit sequence read most-significant bit first
      (an unsigned big-endian conversion of whole bytes). */
  function BigEndian(s: seq<bool>): (v: nat)
    ensures v < Pow2(|s|)
  {
    if s == [] then 0 else 2 * BigEndian(s[..|s| - 1]) + Bit(s[|s| - 1])
  }

  /** `zero_pad_bitstream`: append zeros up to the next multiple of 8. */
  function ZeroPad(s: seq<bool>): (r: seq<bool>)
    ensures |r| % 8 == 0 && |s| <= |r| < |s| + 8
    ensures r[..|s|] == s
    ensures forall i :: |s| <= i < |r| ==> !r[i]
  {
    var target := (|s| + 7) / 8 * 8;
    s + Zeros(target - |s|)
  }

  /** `reverse_bitstream`: the bits in the opposite order. */
  function Reverse(s: seq<bool>): seq<bool>
  {
    seq(|s|, i requires 0 <= i < |s| => s[|s| - 1 - i])
  }

  /** The unsigned bit packer: the low n bits of v, most significant first. */
  function UIntBits(v: nat, n: nat): seq<bool>
  {
    if n == 0 then [] else UIntBits(v / 2, n - 1) + [v % 2 == 1]
  }

  /** The low n bits of v, least significant first. */
  function LsbBits(v: nat, n: nat): seq<bool>
  {
    if n == 0 then [] else [v % 2 == 1] + LsbBits(v / 2, n - 1)
  }

  /** The binary digits of n without leading zeros ("0" for 0). */
  function BinDigits(n: nat): seq<bool>
  {
    if n < 2 then [n == 1] else BinDigits(n / 2) + [n % 2 == 1]
  }

  /** Left padding of a digit string with zeros to width w. */
  function ZFill(s: seq<bool>, w: nat): seq<bool>
  {
    if |s| >= w then s else Zeros(w - |s|) + s
  }

  // ---------------------------------------------------------------------
  // Padding and reversal

  /** A byte-aligned input is returned unchanged, and the padded length is
      the least multiple of 8 not below the input length. */
  lemma ZeroPadAligned(s: seq<bool>)
    ensures |s| % 8 == 0 ==> ZeroPad(s) == s
    ensures forall m :: |s| <= m && m % 8 == 0 ==> |ZeroPad(s)| <= m
  {
    if |s| % 8 == 0 {
      assert (|s| + 7) / 8 * 8 == |s|;
    }
  }

  lemma ReverseLength(s: seq<bool>)
    ensures |Reverse(s)| == |s|
    ensures forall i :: 0 <= i < |s| ==> Reverse(s)[i] == s[|s| - 1 - i]
  {
  }

  lemma {:induction false} ReverseInvolution(s: seq<bool>)
    ensures Reverse(Reverse(s)) == s
  {
    var r := Reverse(s);
    assert |Reverse(r)| == |s|;
    forall i | 0 <= i < |s|
      ensures Reverse(r)[i] == s[i]
    {
      assert Reverse(r)[i] == r[|s| - 1 - i];
    }
  }

  lemma ReverseCons(s: seq<bool>)
    requires s != []
    ensures Reverse(s) == Reverse(s[1..]) + [s[0]]
  {
  }

  lemma ReverseSnoc(s: seq<bool>, b: bool)
    ensures Reverse(s + [b]) == [b] + Reverse(s)
  {
  }

  // ---------------------------------------------------------------------
  // The central identity: pad, reverse, read big-endian = LSB-first value

  lemma {:induction false} BigEndianOfReverse(w: seq<bool>)
    ensures BigEndian(Reverse(w)) == LsbValue(w)
  {
    if w != [] {
      var r := Reverse(w);
      ReverseCons(w);
      assert r[..|r| - 1] == Reverse(w[1..]);
      BigEndianOfReverse(w[1..]);
    }
  }

  lemma {:induction false} LsbValueZeros(w: seq<bool>, k: nat)
    ensures LsbValue(w + Zeros(k)) == LsbValue(w)
  {
    if w == [] {
      assert [] + Zeros(k) == Zeros(k);
      if k > 0 {
        assert Zeros(k)[1..] == [] + Zeros(k - 1);
        LsbValueZeros([], k - 1);
        assert LsbValue(Zeros(k)) == 2 * LsbValue([] + Zeros(k - 1));
      }
    } else {
      assert (w + Zeros(k))[1..] == w[1..] + Zeros(k);
      LsbValueZeros(w[1..], k);
    }
  }

  /** The value every numeric element decodes: padding on the right and
      reversing, then reading big-endian, yields sum of w[i] * 2^i. */
  lemma WindowValueIsLsb(w: seq<bool>)
    ensures BigEndian(Reverse(ZeroPad(w))) == LsbValue(w)
    ensures BigEndian(Reverse(ZeroPad(w))) < Pow2(|w|)
  {
    var p := ZeroPad(w);
    assert p == w + Zeros(|p| - |w|);
    BigEndianOfReverse(p);
    LsbValueZeros(w, |p| - |w|);
  }

  // ---------------------------------------------------------------------
  // Fixed-width encodings

  lemma {:induction false} ReverseUIntBits(v: nat, n: nat)
    ensures Reverse(UIntBits(v, n)) == LsbBits(v, n)
  {
    if n > 0 {
      ReverseSnoc(UIntBits(v / 2, n - 1), v % 2 == 1);
      ReverseUIntBits(v / 2, n - 1);
    }
  }

  lemma {:induction false} LsbBitsLength(v: nat, n: nat)
    ensures |LsbBits(v, n)| == n
  {
    if n > 0 {
      LsbBitsLength(v / 2, n - 1);
    }
  }

  /** Encoding then decoding an in-range value gives it back. */
  lemma {:induction false} LsbRoundTrip(v: nat, n: nat)
    requires v < Pow2(n)
    ensures |LsbBits(v, n)| == n
    ensures LsbValue(LsbBits(v, n)) == v
  {
    if n > 0 {
      LsbRoundTrip(v / 2, n - 1);
      assert LsbBits(v, n)[1..] == LsbBits(v / 2, n - 1);
    }
  }

  /** Decoding then encoding a window gives it back. */
  lemma {:induction false} LsbBitsOfValue(w: seq<bool>)
    ensures LsbBits(LsbValue(w), |w|) == w
  {
    if w != [] {
      var v := LsbValue(w);
      assert v / 2 == LsbValue(w[1..]);
      assert (v % 2 == 1) == w[0];
      LsbBitsOfValue(w[1..]);
    }
  }

  /** Widening an in-range value appends zero bits. */
  lemma {:induction false} LsbBitsWiden(v: nat, m: nat, k: nat)
    requires v < Pow2(m) && m <= k
    ensures LsbBits(v, k) == LsbBits(v, m) + Zeros(k - m)
  {
    if m == 0 {
      assert v == 0;
      ZeroLsbBits(k);
    } else {
      LsbBitsWiden(v / 2, m - 1, k - 1);
    }
  }

  lemma {:induction false} ZeroLsbBits(k: nat)
    ensures LsbBits(0, k) == Zeros(k)
  {
    if k > 0 {
      ZeroLsbBits(k - 1);
      assert Zeros(k) == [false] + Zeros(k - 1);
    }
  }

  lemma {:induction false} ZeroUIntBits(k: nat)
    ensures UIntBits(0, k) == Zeros(k)
  {
    if k > 0 {
      ZeroUIntBits(k - 1);
      assert Zeros(k) == Zeros(k - 1) + [false];
    }
  }

  // ---------------------------------------------------------------------
  // Binary digit strings

  /** The binary digits of n have value n, and n fits in that many bits. */
  lemma {:induction false} BinDigitsAreUIntBits(n: nat)
    ensures |BinDigits(n)| >= 1
    ensures n < Pow2(|BinDigits(n)|)
    ensures BinDigits(n) == UIntBits(n, |BinDigits(n)|)
  {
    if n >= 2 {
      BinDigitsAreUIntBits(n / 2);
    }
  }

  /** A value below 2^k has at most k binary digits. */
  lemma {:induction false} BinDigitsLength(n: nat, k: nat)
    requires 1 <= k && n < Pow2(k)
    ensures |BinDigits(n)| <= k
  {
    if n >= 2 {
      BinDigitsLength(n / 2, k - 1);
    }
  }

  /** The last k digits of n's binary digits padded to width k are the low k bits of n. */
  lemma {:induction false} LowDigits(n: nat, k: nat)
    ensures |ZFill(BinDigits(n), k)| >= k
    ensures ZFill(BinDigits(n), k)[|ZFill(BinDigits(n), k)| - k..] == UIntBits(n, k)
  {
    if k == 0 {
    } else if n < 2 {
      SingleDigit(n, k);
    } else {
      LowDigits(n / 2, k - 1);
      LowDigitsStep(n, k);
    }
  }

  lemma LowDigitsStep(n: nat, k: nat)
    requires n >= 2 && k >= 1
    requires |ZFill(BinDigits(n / 2), k - 1)| >= k - 1
    requires ZFill(BinDigits(n / 2), k - 1)[|ZFill(BinDigits(n / 2), k - 1)| - (k - 1)..] == UIntBits(n / 2, k - 1)
    ensures |ZFill(BinDigits(n), k)| >= k
    ensures ZFill(BinDigits(n), k)[|ZFill(BinDigits(n), k)| - k..] == UIntBits(n, k)
  {
    var x := n % 2 == 1;
    var z := ZFill(BinDigits(n / 2), k - 1);
    assert BinDigits(n) == BinDigits(n / 2) + [x];
    ZFillSnoc(BinDigits(n / 2), x, k - 1);
    assert ZFill(BinDigits(n), k) == z + [x];
    LastDigits(z, x, k - 1);
    assert UIntBits(n, k) == UIntBits(n / 2, k - 1) + [x];
  }

  lemma SingleDigit(n: nat, k: nat)
    requires n < 2 && k >= 1
    ensures ZFill(BinDigits(n), k) == UIntBits(n, k)
  {
    ZeroUIntBits(k - 1);
    assert UIntBits(n, k) == Zeros(k - 1) + [n == 1];
  }

  lemma ZFillSnoc(s: seq<bool>, b: bool, k: nat)
    ensures ZFill(s + [b], k + 1) == ZFill(s, k) + [b]
  {
  }

  lemma LastDigits(z: seq<bool>, b: bool, k: nat)
    requires |z| >= k
    ensures (z + [b])[|z + [b]| - (k + 1)..] == z[|z| - k..] + [b]
  {
  }

  /** A value whose digits fit in k bits zero-fills to exactly its k-bit form. */
  lemma ZFillFits(n: nat, k: nat)
    requires 1 <= k && n < Pow2(k)
    ensures ZFill(BinDigits(n), k) == UIntBits(n, k)
  {
    BinDigitsLength(n, k);
    LowDigits(n, k);
  }
}
