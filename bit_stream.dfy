/** The bit stream that the placement pass writes into the matrix: each
    character code, then each correction byte, as an 8-bit numeral written
    most significant bit first, concatenated without separators. */
module BitStream {

  type Bit = b: int | 0 <= b <= 1
  type Byte = b: int | 0 <= b < 256

  function Pow2(w: nat): (p: nat)
    ensures p >= 1
  {
    if w == 0 then 1 else 2 * Pow2(w - 1)
  }

  /** The w-digit binary numeral of v, most significant digit first and padded
      with zeros on the left: Python's format(v, '0wb') whenever v < 2^w. */
  function ToBits(v: nat, w: nat): (r: seq<Bit>)
    ensures |r| == w
  {
    if w == 0 then [] else ToBits(v / 2, w - 1) + [v % 2]
  }

  /** The number a sequence of bits denotes when read most significant bit first. */
  function Value(s: seq<Bit>): (v: nat)
    ensures v < Pow2(|s|)
  {
    if s == [] then 0 else 2 * Value(s[..|s| - 1]) + s[|s| - 1]
  }

  /** ToBits(v, w) spells v in binary whenever v fits in w bits ... */
  lemma {:induction false} ValueOfToBits(v: nat, w: nat)
    requires v < Pow2(w)
    ensures Value(ToBits(v, w)) == v
  {
    if w > 0 {
      var s := ToBits(v, w);
      assert s[..w - 1] == ToBits(v / 2, w - 1);
      ValueOfToBits(v / 2, w - 1);
    }
  }

  /** ... and every bit sequence is the numeral of its own value. */
  lemma {:induction false} ToBitsOfValue(s: seq<Bit>)
    ensures ToBits(Value(s), |s|) == s
  {
    if s != [] {
      var init := s[..|s| - 1];
      ToBitsOfValue(init);
      assert s == init + [s[|s| - 1]];
    }
  }

  /** The 8-bit expansion of a sequence of bytes, byte order preserved. */
  function BytesToBits(bs: seq<Byte>): (r: seq<Bit>)
    ensures |r| == 8 * |bs|
  {
    if bs == [] then [] else ToBits(bs[0], 8) + BytesToBits(bs[1..])
  }

  /** Reads a bit sequence back as bytes, eight bits at a time. */
  function BitsToBytes(bits: seq<Bit>): (r: seq<Byte>)
    requires |bits| % 8 == 0
    ensures 8 * |r| == |bits|
  {
    if bits == [] then []
    else
      var b := Value(bits[..8]);
      assert Pow2(8) == 256;
      [b] + BitsToBytes(bits[8..])
  }

  lemma {:induction false} BytesToBitsChunk(bs: seq<Byte>, k: nat)
    requires k < |bs|
    ensures BytesToBits(bs)[8 * k .. 8 * k + 8] == ToBits(bs[k], 8)
  {
    if k > 0 {
      BytesToBitsChunk(bs[1..], k - 1);
      assert BytesToBits(bs)[8 * k .. 8 * k + 8] == BytesToBits(bs[1..])[8 * (k - 1) .. 8 * (k - 1) + 8];
    }
  }

  lemma {:induction false} BytesToBitsAppend(xs: seq<Byte>, ys: seq<Byte>)
    ensures BytesToBits(xs + ys) == BytesToBits(xs) + BytesToBits(ys)
  {
    if xs != [] {
      assert (xs + ys)[1..] == xs[1..] + ys;
      BytesToBitsAppend(xs[1..], ys);
    } else {
      assert xs + ys == ys;
    }
  }

  lemma {:induction false} BitsToBytesOfBytesToBits(bs: seq<Byte>)
    ensures BitsToBytes(BytesToBits(bs)) == bs
  {
    if bs != [] {
      var bits := BytesToBits(bs);
      assert bits[..8] == ToBits(bs[0], 8);
      assert bits[8..] == BytesToBits(bs[1..]);
      assert Pow2(8) == 256;
      ValueOfToBits(bs[0], 8);
      BitsToBytesOfBytesToBits(bs[1..]);
    }
  }

  lemma {:induction false} BytesToBitsOfBitsToBytes(bits: seq<Bit>)
    requires |bits| % 8 == 0
    ensures BytesToBits(BitsToBytes(bits)) == bits
  {
    if bits != [] {
      ToBitsOfValue(bits[..8]);
      BytesToBitsOfBitsToBytes(bits[8..]);
      assert bits == bits[..8] + bits[8..];
    }
  }

  /** The number of binary digits of v (0 for 0). */
  function BitLength(v: nat): nat
  {
    if v == 0 then 0 else 1 + BitLength(v / 2)
  }

  /** BitLength(v) is the least width in which v fits. */
  lemma {:induction false} BitLengthBounds(v: nat)
    ensures v < Pow2(BitLength(v))
    ensures v > 0 ==> Pow2(BitLength(v) - 1) <= v
  {
    if v > 0 {
      BitLengthBounds(v / 2);
    }
  }

  lemma {:induction false} Pow2Monotone(a: nat, b: nat)
    requires a <= b
    ensures Pow2(a) <= Pow2(b)
  {
    if a < b {
      Pow2Monotone(a, b - 1);
    }
  }

  /** Python's format(v, '08b'): the binary numeral of v, padded with zeros on
      the left to eight digits, and longer, unpadded, when v needs more. */
  function Format08b(v: nat): seq<Bit>
  {
    ToBits(v, if BitLength(v) <= 8 then 8 else BitLength(v))
  }

  /** format(v, '08b') always spells v, in at least eight digits, and in exactly
      eight just when v < 256; then it is the 8-bit numeral of v, and otherwise
      it has exactly as many digits as v needs, with no padding. */
  lemma Format08bSpec(v: nat)
    ensures Value(Format08b(v)) == v
    ensures |Format08b(v)| >= 8
    ensures |Format08b(v)| == 8 <==> v < 256
    ensures v < 256 ==> Format08b(v) == ToBits(v, 8)
    ensures v >= 256 ==> |Format08b(v)| == BitLength(v)
  {
    var w := BitLength(v);
    var width := if w <= 8 then 8 else w;
    BitLengthBounds(v);
    assert Pow2(8) == 256;
    if w <= 8 {
      Pow2Monotone(w, 8);
    } else {
      Pow2Monotone(8, w - 1);
    }
    ValueOfToBits(v, width);
  }

  /** Every character code is below 256, the range in which format(ord(ch), '08b')
      yields exactly eight digits. */
  predicate IsByteText(data: string)
  {
    forall i :: 0 <= i < |data| ==> data[i] as int < 256
  }

  /** The character codes of a byte text (Python's ord). */
  function Codes(data: string): seq<Byte>
    requires IsByteText(data)
  {
    seq(|data|, i requires 0 <= i < |data| => data[i] as int)
  }

  /** text_to_binary: format(ord(ch), '08b') for each character, concatenated. */
  function TextToBinary(data: string): seq<Bit>
  {
    if data == [] then [] else Format08b(data[0] as int) + TextToBinary(data[1..])
  }

  /** Each character contributes at least eight bits, and exactly eight for
      every character exactly when the text is a byte text. */
  lemma {:induction false} TextToBinaryLength(data: string)
    ensures |TextToBinary(data)| >= 8 * |data|
    ensures |TextToBinary(data)| == 8 * |data| <==> IsByteText(data)
  {
    if data != [] {
      TextToBinaryLength(data[1..]);
      Format08bSpec(data[0] as int);
      if !IsByteText(data[1..]) {
        var i :| 0 <= i < |data[1..]| && data[1..][i] as int >= 256;
        assert data[i + 1] as int >= 256;
      }
      if IsByteText(data) {
        assert data[0] as int < 256;
        assert IsByteText(data[1..]) by {
          forall i | 0 <= i < |data[1..]| ensures data[1..][i] as int < 256 {
            assert data[1..][i] == data[i + 1];
          }
        }
      }
    }
  }

  /** On a byte text, text_to_binary is the 8-bit expansion of the codes. */
  lemma {:induction false} TextToBinaryOfBytes(data: string)
    requires IsByteText(data)
    ensures TextToBinary(data) == BytesToBits(Codes(data))
  {
    if data != [] {
      assert IsByteText(data[1..]) by {
        forall i | 0 <= i < |data[1..]| ensures data[1..][i] as int < 256 {
          assert data[1..][i] == data[i + 1];
        }
      }
      TextToBinaryOfBytes(data[1..]);
      Format08bSpec(data[0] as int);
      assert Codes(data)[1..] == Codes(data[1..]);
    }
  }

  /** The full stream of add_data_to_qr: the text bits followed by the 8-bit
      expansion of each correction byte. */
  function FullStream(data: string, ecc: seq<Byte>): seq<Bit>
  {
    TextToBinary(data) + BytesToBits(ecc)
  }

  /** text_to_binary on a byte text yields eight bits per character, and chunk k
      spells the code of character k, most significant bit first. */
  lemma TextToBinaryLayout(data: string, k: nat)
    requires IsByteText(data)
    requires k < |data|
    ensures |TextToBinary(data)| == 8 * |data|
    ensures TextToBinary(data)[8 * k .. 8 * k + 8] == ToBits(data[k] as int, 8)
    ensures Value(TextToBinary(data)[8 * k .. 8 * k + 8]) == data[k] as int
  {
    TextToBinaryOfBytes(data);
    BytesToBitsChunk(Codes(data), k);
    assert Pow2(8) == 256;
    ValueOfToBits(data[k] as int, 8);
  }

  /** For a byte text the full stream is the 8-bit expansion of the character
      codes followed by the correction bytes: 8 * (|data| + |ecc|) bits; the text
      occupies the first 8 * |data| of them and chunk |data| + j spells
      correction byte j. */
  lemma FullStreamLayout(data: string, ecc: seq<Byte>)
    requires IsByteText(data)
    ensures FullStream(data, ecc) == BytesToBits(Codes(data) + ecc)
    ensures |FullStream(data, ecc)| == 8 * (|data| + |ecc|)
    ensures FullStream(data, ecc)[..8 * |data|] == TextToBinary(data)
    ensures forall j :: 0 <= j < |ecc| ==>
      FullStream(data, ecc)[8 * (|data| + j) .. 8 * (|data| + j) + 8] == ToBits(ecc[j], 8)
  {
    TextToBinaryOfBytes(data);
    BytesToBitsAppend(Codes(data), ecc);
    var s := BytesToBits(Codes(data) + ecc);
    forall j | 0 <= j < |ecc|
      ensures s[8 * (|data| + j) .. 8 * (|data| + j) + 8] == ToBits(ecc[j], 8)
    {
      BytesToBitsChunk(Codes(data) + ecc, |data| + j);
    }
  }

  /** Reading the stream of a byte text back eight bits at a time recovers the
      character codes and the correction bytes. */
  lemma FullStreamDecodes(data: string, ecc: seq<Byte>)
    requires IsByteText(data)
    ensures |FullStream(data, ecc)| % 8 == 0
    ensures BitsToBytes(FullStream(data, ecc)) == Codes(data) + ecc
  {
    TextToBinaryOfBytes(data);
    BytesToBitsAppend(Codes(data), ecc);
    BitsToBytesOfBytesToBits(Codes(data) + ecc);
  }
}
