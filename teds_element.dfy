/**
 * The TEDS field elements of the Template Description Language: UnInt,
 * Chr5, ASCII, Date, ConRes, ConRelRes, Single, Enum and Constant.
 *
 * Each element decodes a window of the bitstream into its value
 * (`from_bits`) and encodes its value back into bits (`to_bits`).
 * Numeric windows are zero-padded on the right to a byte boundary,
 * reversed and read big-endian, which is the LSB-first value of the window.
 *
 * An element is a value here: `from_bits` returns the element with its
 * value set instead of assigning `self.val`.
 */
module TedsElement {
  import opened Wrappers
  import opened Bits

  /** The exceptions the codec raises. */
  datatype TedsError =
    | ReadError        // a read past the end of the bitstream
    | NotImplemented   // Single, Enum, and the force templates
    | EncodeOfNone     // `to_bits` on an element whose value is None
    | UIntOutOfRange   // packing v into n bits with n < 1 or v outside [0, 2^n)
    | InvalidPreamble  // the 40-bit vendor preamble does not match
    | InvalidTemplate  // selector bits outside {0, 1}
    | MissingKey       // a dictionary lookup of an absent field name
    | InvalidBinary    // a list item without binary digits (negative)

  /**
   * One element class per variant. `len` is the width in bits; -1 means
   * "every remaining bit". Date, ConRes and ConRelRes carry the integer
   * raw code of their window (for Date: days since 1998-01-01).
   */
  datatype Element =
    | UnInt(len: int, val: Option<int>)
    | Chr5(len: int, text: Option<string>)
    | Ascii(len: int, text: Option<string>)
    | Date(len: int, days: Option<int>)
    | ConRes(len: int, start: real, step: real, raw: Option<int>)
    | ConRelRes(len: int, start: real, step: real, raw: Option<int>)
    | Single(len: int)
    | Enum(len: int)
    | Constant(len: int, fixed: Option<string>)

  // ---------------------------------------------------------------------
  // Decoding

  /** The unsigned value `from_bits` reads from a numeric window: zero-pad
      to whole bytes, reverse, read the bytes big-endian. */
  function UIntFromBits(w: seq<bool>): nat
  {
    BigEndian(Reverse(ZeroPad(w)))
  }

  /** That value is the window read least-significant bit first, which is
      how the decoders below state it. */
  lemma UIntFromBitsIsLsb(w: seq<bool>)
    ensures UIntFromBits(w) == LsbValue(w)
    ensures UIntFromBits(w) < Pow2(|w|)
  {
    WindowValueIsLsb(w);
  }

  function PrependText(t: string, r: Result<string, TedsError>): Result<string, TedsError>
  {
    if r.Success? then Success(t + r.value) else r
  }

  /** Chr5 `from_bits`: one character with code 96 + g per 5-bit group g; a
      window whose length is not a multiple of 5 reads past its end. */
  function Chr5Decode(w: seq<bool>): (r: Result<string, TedsError>)
    ensures r.Success? ==> forall k :: 0 <= k < |r.value| ==> 96 <= r.value[k] as int < 128
    ensures r.Failure? ==> r.error == ReadError
    decreases |w|
  {
    if |w| == 0 then Success("")
    else if |w| < 5 then Failure(ReadError)
    else
      var g := LsbValue(w[..5]);
      PrependText([(96 + g) as char], Chr5Decode(w[5..]))
  }

  /** ASCII `from_bits`: one character per 7-bit group while at least 7
      bits remain; a shorter tail is dropped. Every character has a 7-bit
      code. */
  function AsciiDecode(w: seq<bool>): (r: string)
    ensures forall k :: 0 <= k < |r| ==> r[k] as int < 128
    decreases |w|
  {
    if |w| < 7 then ""
    else [LsbValue(w[..7]) as char] + AsciiDecode(w[7..])
  }

  /** Chr5 decoding succeeds exactly on whole 5-bit groups, one character
      per group, and fails with a read error otherwise. */
  lemma {:induction false} Chr5DecodeShape(w: seq<bool>)
    ensures Chr5Decode(w).Success? <==> |w| % 5 == 0
    ensures Chr5Decode(w).Failure? ==> Chr5Decode(w).error == ReadError
    ensures Chr5Decode(w).Success? ==> |Chr5Decode(w).value| == |w| / 5
    decreases |w|
  {
    if |w| >= 5 {
      Chr5DecodeShape(w[5..]);
    }
  }

  /** ASCII decoding gives one character per whole 7-bit group. */
  lemma {:induction false} AsciiDecodeLength(w: seq<bool>)
    ensures |AsciiDecode(w)| == |w| / 7
    decreases |w|
  {
    if |w| >= 7 {
      AsciiDecodeLength(w[7..]);
    }
  }

  /** `from_bits` of any element on the window it was given. */
  function ElementFromBits(e: Element, w: seq<bool>): (r: Result<Element, TedsError>)
    ensures (e.Single? || e.Enum?) <==> r == Failure(NotImplemented)
    ensures e.Constant? ==> r == Success(e)
    ensures r.Success? ==> r.value.len == e.len && !IsUnset(r.value)
  {
    match e
    case UnInt(len, _) => Success(UnInt(len, Some(LsbValue(w))))
    case Chr5(len, _) =>
      var s :- Chr5Decode(w);
      Success(Chr5(len, Some(s)))
    case Ascii(len, _) => Success(Ascii(len, Some(AsciiDecode(w))))
    case Date(len, _) => Success(Date(len, Some(LsbValue(w))))
    case ConRes(len, start, step, _) => Success(ConRes(len, start, step, Some(LsbValue(w))))
    case ConRelRes(len, start, step, _) => Success(ConRelRes(len, start, step, Some(LsbValue(w))))
    case Single(_) => Failure(NotImplemented)
    case Enum(_) => Failure(NotImplemented)
    case Constant(_, _) => Success(e)
  }

  // ---------------------------------------------------------------------
  // Physical values of the scaled kinds (exact arithmetic)

  function Pow(x: real, n: nat): real
  {
    if n == 0 then 1.0 else x * Pow(x, n - 1)
  }

  /** ConRes: start + raw * step. */
  function ConResValue(start: real, step: real, raw: nat): real
  {
    start + raw as real * step
  }

  /** ConRelRes: start * (1 + 2 * step) ^ raw. */
  function ConRelResValue(start: real, step: real, raw: nat): real
  {
    start * Pow(1.0 + 2.0 * step, raw)
  }

  // ---------------------------------------------------------------------
  // Encoding

  /** `to_bitstream`: v packed into n bits, reversed. The bit packer
      refuses a zero width and a value that does not fit. */
  function ToBitstream(v: int, n: int): (r: Result<seq<bool>, TedsError>)
    ensures r.Success? <==> 1 <= n && 0 <= v < Pow2(n)
    ensures r.Failure? ==> r.error == UIntOutOfRange
    ensures r.Success? ==> |r.value| == n && r.value == LsbBits(v, n) && LsbValue(r.value) == v
  {
    if 1 <= n && 0 <= v < Pow2(n) then
      ReverseUIntBits(v, n);
      LsbRoundTrip(v, n);
      Success(Reverse(UIntBits(v, n)))
    else Failure(UIntOutOfRange)
  }

  /** Chr5 bits of one character: the low five bits of its code, least
      significant first. */
  function Chr5CharBits(c: char): seq<bool>
  {
    LsbBits(c as int, 5)
  }

  /** `to_bits` obtains those bits from the code's binary digits: padded
      with zeros to at least five, the last five taken, then reversed. */
  lemma Chr5CharBitsFromDigits(c: char)
    ensures |ZFill(BinDigits(c as int), 5)| >= 5
    ensures var z := ZFill(BinDigits(c as int), 5);
      Chr5CharBits(c) == Reverse(z[|z| - 5..])
  {
    LowDigits(c as int, 5);
    ReverseUIntBits(c as int, 5);
  }

  /** Chr5 `to_bits`: five bits per character, in string order. */
  function Chr5Encode(s: string): seq<bool>
  {
    if s == [] then [] else Chr5CharBits(s[0]) + Chr5Encode(s[1..])
  }

  /** ASCII bits of one character: the code's seven low bits, least
      significant first. A code of 128 or more is not truncated: all its
      binary digits are emitted. */
  function AsciiCharBits(c: char): seq<bool>
  {
    if (c as int) < 128 then LsbBits(c as int, 7) else Reverse(BinDigits(c as int))
  }

  /** `to_bits` obtains those bits from the code's binary digits, padded
      with zeros to at least seven and reversed; a code of 128 or more
      gives more than seven bits. */
  lemma AsciiCharBitsFromDigits(c: char)
    ensures AsciiCharBits(c) == Reverse(ZFill(BinDigits(c as int), 7))
    ensures (c as int) >= 128 ==> |AsciiCharBits(c)| > 7
  {
    AsciiDigits(c as int);
    if (c as int) >= 128 {
      ReverseLength(BinDigits(c as int));
    }
  }

  lemma AsciiDigits(n: nat)
    ensures n < 128 ==> Reverse(ZFill(BinDigits(n), 7)) == LsbBits(n, 7)
    ensures n >= 128 ==> |ZFill(BinDigits(n), 7)| > 7
  {
    BinDigitsAreUIntBits(n);
    ReverseUIntBits(n, 7);
    if n < 128 {
      ZFillFits(n, 7);
    } else if |BinDigits(n)| <= 7 {
      PowMonotone(|BinDigits(n)|, 7);
    }
  }

  lemma {:induction false} PowMonotone(m: nat, k: nat)
    requires m <= k
    ensures Pow2(m) <= Pow2(k)
  {
    if m < k {
      PowMonotone(m, k - 1);
    }
  }

  /** ASCII `to_bits`: seven bits per character (more for a code of 128
      or more), in string order. */
  function AsciiEncode(s: string): seq<bool>
  {
    if s == [] then [] else AsciiCharBits(s[0]) + AsciiEncode(s[1..])
  }

  /** `to_bits` of any element: None for a Constant, an error for Single,
      Enum and an unset value. */
  function ElementToBits(e: Element): (r: Result<Option<seq<bool>>, TedsError>)
    ensures e.Constant? <==> r == Success(None)
    ensures (e.Single? || e.Enum?) ==> r == Failure(NotImplemented)
  {
    match e
    case UnInt(len, v) =>
      if v.None? then Failure(EncodeOfNone) else
      var b :- ToBitstream(v.value, len); Success(Some(b))
    case Chr5(_, t) => if t.None? then Failure(EncodeOfNone) else Success(Some(Chr5Encode(t.value)))
    case Ascii(_, t) => if t.None? then Failure(EncodeOfNone) else Success(Some(AsciiEncode(t.value)))
    case Date(len, d) =>
      if d.None? then Failure(EncodeOfNone) else
      var b :- ToBitstream(d.value, len); Success(Some(b))
    case ConRes(len, _, _, raw) =>
      if raw.None? then Failure(EncodeOfNone) else
      var b :- ToBitstream(raw.value, len); Success(Some(b))
    case ConRelRes(len, _, _, raw) =>
      if raw.None? then Failure(EncodeOfNone) else
      var b :- ToBitstream(raw.value, len); Success(Some(b))
    case Single(_) => Failure(NotImplemented)
    case Enum(_) => Failure(NotImplemented)
    case Constant(_, _) => Success(None)
  }

  /** Whether an element holds a value; every kind but Single, Enum and
      Constant checks this before emitting any bit. */
  predicate IsUnset(e: Element)
  {
    match e
    case UnInt(_, v) => v.None?
    case Chr5(_, t) => t.None?
    case Ascii(_, t) => t.None?
    case Date(_, d) => d.None?
    case ConRes(_, _, _, raw) => raw.None?
    case ConRelRes(_, _, _, raw) => raw.None?
    case Single(_) => false
    case Enum(_) => false
    case Constant(_, _) => false
  }

  // ---------------------------------------------------------------------
  // The loops of from_bits / to_bits

  /** Chr5 `from_bits`: reads 5 bits per iteration, appending a character. */
  method Chr5FromBits(w: seq<bool>) returns (r: Result<string, TedsError>)
    ensures r == Chr5Decode(w)
  {
    var text := "";
    var pos := 0;
    assert w[pos..] == w;
    assert PrependText(text, Chr5Decode(w)) == Chr5Decode(w) by {
      if Chr5Decode(w).Success? {
        assert text + Chr5Decode(w).value == Chr5Decode(w).value;
      }
    }
    while pos < |w|
      invariant 0 <= pos <= |w|
      invariant Chr5Decode(w) == PrependText(text, Chr5Decode(w[pos..]))
    {
      if |w| - pos < 5 {
        return Failure(ReadError);
      }
      var g := LsbValue(w[pos..pos + 5]);
      Chr5DecodeStep(w[pos..]);
      assert w[pos..][..5] == w[pos..pos + 5] && w[pos..][5..] == w[pos + 5..];
      PrependTextAssoc(text, [(96 + g) as char], Chr5Decode(w[pos + 5..]));
      text := text + [(96 + g) as char];
      pos := pos + 5;
    }
    assert w[pos..] == [] && text + "" == text;
    return Success(text);
  }

  lemma Chr5DecodeStep(w: seq<bool>)
    requires |w| >= 5
    ensures Chr5Decode(w) == PrependText([(96 + LsbValue(w[..5])) as char], Chr5Decode(w[5..]))
  {
  }

  lemma PrependTextAssoc(t: string, u: string, r: Result<string, TedsError>)
    ensures PrependText(t, PrependText(u, r)) == PrependText(t + u, r)
  {
    if r.Success? {
      assert t + (u + r.value) == (t + u) + r.value;
    }
  }

  /** ASCII `from_bits`: one iteration per started 7-bit group; a group is
      read only while at least 7 bits remain. */
  method AsciiFromBits(w: seq<bool>) returns (s: string)
    ensures s == AsciiDecode(w)
  {
    s := "";
    var pos := 0;
    var i := 0;
    while i < |w|
      invariant 0 <= pos <= |w| && pos <= i
      invariant pos == i || |w| - pos < 7
      invariant s + AsciiDecode(w[pos..]) == AsciiDecode(w)
      decreases |w| - i
    {
      if |w| - pos >= 7 {
        assert w[pos..][..7] == w[pos..pos + 7] && w[pos..][7..] == w[pos + 7..];
        s := s + [LsbValue(w[pos..pos + 7]) as char];
        pos := pos + 7;
      }
      i := i + 7;
    }
  }

  /** Chr5 `to_bits`: accumulates five bits per character. */
  method Chr5ToBits(s: string) returns (bits: seq<bool>)
    ensures bits == Chr5Encode(s)
  {
    bits := [];
    for i := 0 to |s|
      invariant bits + Chr5Encode(s[i..]) == Chr5Encode(s)
    {
      var c := Chr5CharBits(s[i]);
      assert s[i..][1..] == s[i + 1..];
      assert Chr5Encode(s[i..]) == c + Chr5Encode(s[i + 1..]);
      assert bits + Chr5Encode(s[i..]) == (bits + c) + Chr5Encode(s[i + 1..]);
      bits := bits + c;
    }
  }

  /** ASCII `to_bits`: accumulates the bits of each character. */
  method AsciiToBits(s: string) returns (bits: seq<bool>)
    ensures bits == AsciiEncode(s)
  {
    bits := [];
    for i := 0 to |s|
      invariant bits + AsciiEncode(s[i..]) == AsciiEncode(s)
    {
      var c := AsciiCharBits(s[i]);
      assert s[i..][1..] == s[i + 1..];
      assert AsciiEncode(s[i..]) == c + AsciiEncode(s[i + 1..]);
      assert bits + AsciiEncode(s[i..]) == (bits + c) + AsciiEncode(s[i + 1..]);
      bits := bits + c;
    }
  }

  /** `from_bits` of an element on its window. */
  method FromBits(e: Element, w: seq<bool>) returns (r: Result<Element, TedsError>)
    ensures r == ElementFromBits(e, w)
  {
    match e {
      case Chr5(len, _) =>
        var s := Chr5FromBits(w);
        if s.Failure? {
          return Failure(s.error);
        }
        return Success(Chr5(len, Some(s.value)));
      case Ascii(len, _) =>
        var s := AsciiFromBits(w);
        return Success(Ascii(len, Some(s)));
      case _ =>
        return ElementFromBits(e, w);
    }
  }

  /** `to_bits` of an element. */
  method ToBits(e: Element) returns (r: Result<Option<seq<bool>>, TedsError>)
    ensures r == ElementToBits(e)
  {
    match e {
      case Chr5(_, t) =>
        if t.None? {
          return Failure(EncodeOfNone);
        }
        var b := Chr5ToBits(t.value);
        return Success(Some(b));
      case Ascii(_, t) =>
        if t.None? {
          return Failure(EncodeOfNone);
        }
        var b := AsciiToBits(t.value);
        return Success(Some(b));
      case _ =>
        return ElementToBits(e);
    }
  }

  // ---------------------------------------------------------------------
  // Properties of the codecs

  /** Every element that checks its value raises before emitting a bit
      when the value is None. */
  lemma UnsetRaises(e: Element)
    requires IsUnset(e)
    ensures ElementToBits(e) == Failure(EncodeOfNone)
  {
  }

  /** UnInt: an in-range value encodes to exactly `len` LSB-first bits and
      decodes back to itself. */
  lemma UnIntRoundTrip(len: int, v: int)
    requires 1 <= len && 0 <= v < Pow2(len)
    ensures ElementToBits(UnInt(len, Some(v))).Success?
    ensures var bits := ElementToBits(UnInt(len, Some(v))).value.value;
      |bits| == len && ElementFromBits(UnInt(len, None), bits) == Success(UnInt(len, Some(v)))
  {
  }

  /** Date: days since 1998-01-01 round-trip for any raw value of the width. */
  lemma DateRoundTrip(len: int, days: int)
    requires 1 <= len && 0 <= days < Pow2(len)
    ensures ElementToBits(Date(len, Some(days))).Success?
    ensures var bits := ElementToBits(Date(len, Some(days))).value.value;
      |bits| == len && ElementFromBits(Date(len, None), bits) == Success(Date(len, Some(days)))
  {
  }

  /** Adding a multiple of 2^n does not change the low n bits. */
  lemma {:induction false} LsbBitsPeriodic(v: nat, m: nat, n: nat)
    ensures LsbBits(v + Pow2(n) * m, n) == LsbBits(v, n)
  {
    if n > 0 {
      var x := Pow2(n - 1) * m;
      assert Pow2(n) * m == 2 * x;
      assert (v + 2 * x) % 2 == v % 2;
      assert (v + 2 * x) / 2 == v / 2 + x;
      LsbBitsPeriodic(v / 2, m, n - 1);
    }
  }

  /** One Chr5 group: the character decoded from a 5-bit window encodes
      back to that window. */
  lemma Chr5GroupEncodeDecode(u: seq<bool>)
    requires |u| == 5
    ensures Chr5CharBits((96 + LsbValue(u)) as char) == u
  {
    LsbBitsPeriodic(LsbValue(u), 3, 5);
    LsbBitsOfValue(u);
  }

  /** One Chr5 character with a code in 96..127 encodes to 5 bits whose
      value is the code minus 96. */
  lemma Chr5GroupDecodeEncode(c: char)
    requires 96 <= c as int < 128
    ensures |Chr5CharBits(c)| == 5
    ensures LsbValue(Chr5CharBits(c)) == c as int - 96
  {
    var v := c as int - 96;
    assert Pow2(5) == 32;
    LsbBitsPeriodic(v, 3, 5);
    assert v + Pow2(5) * 3 == c as int;
    LsbRoundTrip(v, 5);
  }

  /** Decoding a Chr5 window and encoding the text gives the window back. */
  lemma {:induction false} Chr5EncodeDecode(w: seq<bool>)
    requires |w| % 5 == 0
    ensures Chr5Decode(w).Success? && Chr5Encode(Chr5Decode(w).value) == w
  {
    Chr5DecodeShape(w);
    if |w| > 0 {
      var s := Chr5Decode(w).value;
      var c := (96 + LsbValue(w[..5])) as char;
      Chr5DecodeStep(w);
      var rest := Chr5Decode(w[5..]).value;
      assert s == [c] + rest;
      Chr5EncodeDecode(w[5..]);
      assert Chr5Encode(s) == Chr5CharBits(c) + Chr5Encode(rest) by {
        assert s[0] == c && s[1..] == rest;
      }
      Chr5GroupEncodeDecode(w[..5]);
      assert w == w[..5] + w[5..];
    }
  }

  /** Encoding a text whose codes lie in 96..127 and decoding gives it back. */
  lemma {:induction false} Chr5DecodeEncode(s: string)
    requires forall k :: 0 <= k < |s| ==> 96 <= s[k] as int < 128
    ensures |Chr5Encode(s)| == 5 * |s|
    ensures Chr5Decode(Chr5Encode(s)) == Success(s)
  {
    if s != [] {
      Chr5DecodeEncode(s[1..]);
      Chr5GroupDecodeEncode(s[0]);
      var w := Chr5Encode(s);
      assert w[..5] == Chr5CharBits(s[0]) && w[5..] == Chr5Encode(s[1..]);
      Chr5DecodeStep(w);
      assert [s[0]] + s[1..] == s;
    }
  }

  /** One ASCII group: the character decoded from a 7-bit window encodes
      back to that window. */
  lemma AsciiGroupEncodeDecode(u: seq<bool>)
    requires |u| == 7
    ensures AsciiCharBits(LsbValue(u) as char) == u
  {
    LsbBitsOfValue(u);
  }

  /** Decoding an ASCII window and encoding the text gives back the window
      without its tail of fewer than 7 bits. */
  lemma {:induction false} AsciiEncodeDecode(w: seq<bool>)
    ensures AsciiEncode(AsciiDecode(w)) == w[..|w| / 7 * 7]
  {
    if |w| >= 7 {
      AsciiEncodeDecode(w[7..]);
      AsciiGroupEncodeDecode(w[..7]);
      AsciiEncodeDecodeStep(w);
      WholeGroupsStep(w);
    }
  }

  /** Encoding the text of a window is encoding its first character, then
      the text of the bits after the first group. */
  lemma AsciiEncodeDecodeStep(w: seq<bool>)
    requires |w| >= 7
    ensures AsciiEncode(AsciiDecode(w)) ==
      AsciiCharBits(LsbValue(w[..7]) as char) + AsciiEncode(AsciiDecode(w[7..]))
  {
    var s := AsciiDecode(w);
    assert s[0] == LsbValue(w[..7]) as char && s[1..] == AsciiDecode(w[7..]);
  }

  /** The whole 7-bit groups of a window are its first group, then the
      whole groups of the bits after it. */
  lemma WholeGroupsStep(w: seq<bool>)
    requires |w| >= 7
    ensures w[..|w| / 7 * 7] == w[..7] + w[7..][..|w[7..]| / 7 * 7]
  {
    assert |w| / 7 * 7 == 7 + (|w| - 7) / 7 * 7;
  }

  /** A 7-bit code's bits are seven bits whose value is the code. */
  lemma AsciiCharRoundTrip(ch: char)
    requires ch as int < 128
    ensures |AsciiCharBits(ch)| == 7 && LsbValue(AsciiCharBits(ch)) == ch as int
  {
    assert Pow2(7) == 128;
    LsbRoundTrip(ch as int, 7);
  }

  /** Decoding a 7-bit group followed by more bits. */
  lemma AsciiDecodeCons(head: seq<bool>, tail: seq<bool>)
    requires |head| == 7
    ensures AsciiDecode(head + tail) == [LsbValue(head) as char] + AsciiDecode(tail)
  {
    assert (head + tail)[..7] == head && (head + tail)[7..] == tail;
  }

  /** Encoding a text of 7-bit codes and decoding gives it back. */
  lemma {:induction false} AsciiDecodeEncode(s: string)
    requires forall k :: 0 <= k < |s| ==> s[k] as int < 128
    ensures |AsciiEncode(s)| == 7 * |s|
    ensures AsciiDecode(AsciiEncode(s)) == s
  {
    if s != [] {
      var head := AsciiCharBits(s[0]);
      var tail := AsciiEncode(s[1..]);
      AsciiDecodeEncode(s[1..]);
      AsciiCharRoundTrip(s[0]);
      AsciiDecodeCons(head, tail);
      assert AsciiEncode(s) == head + tail;
      assert [s[0]] + s[1..] == s;
    }
  }

  /** ConRes: the encoder's quotient (val - start) / step recovers the raw
      code exactly when computed without rounding error. */
  lemma ConResQuotient(start: real, step: real, raw: nat)
    requires step != 0.0
    ensures (ConResValue(start, step, raw) - start) / step == raw as real
  {
  }

  lemma {:induction false} PowIncreasing(x: real, a: nat, b: nat)
    requires x > 1.0 && a < b
    ensures 0.0 < Pow(x, a) < Pow(x, b)
    decreases b
  {
    PowPositive(x, a);
    if b > a + 1 {
      PowIncreasing(x, a, b - 1);
    }
    var p := Pow(x, b - 1);
    PowPositive(x, b - 1);
    MulGreater(x, p);
  }

  lemma MulGreater(x: real, p: real)
    requires x > 1.0 && p > 0.0
    ensures x * p > p
  {
    assert x * p - p == (x - 1.0) * p;
  }

  lemma {:induction false} PowPositive(x: real, n: nat)
    requires x > 1.0
    ensures Pow(x, n) >= 1.0
  {
    if n > 0 {
      PowPositive(x, n - 1);
    }
  }

  /** ConRelRes with positive start and step is strictly increasing in the
      raw code, so a decoded value determines its code (the logarithm in the
      encoder has an exact integer answer). */
  lemma ConRelResInjective(start: real, step: real, a: nat, b: nat)
    requires start > 0.0 && step > 0.0
    ensures a < b ==> ConRelResValue(start, step, a) < ConRelResValue(start, step, b)
    ensures ConRelResValue(start, step, a) == ConRelResValue(start, step, b) ==> a == b
  {
    if a < b {
      PowIncreasing(1.0 + 2.0 * step, a, b);
    } else if b < a {
      PowIncreasing(1.0 + 2.0 * step, b, a);
    }
  }
}
