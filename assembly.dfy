/**
 * The byte assembler, `bits_to_bytes`: consecutive groups of 8 bits become
 * bytes, each group reversed first in LSB-first mode; a trailing group
 * shorter than 8 bits is dropped.
 */
module Assembly {
  import opened Binary

  /** `int(group, 2)`, or `int(group[::-1], 2)` in LSB-first mode. */
  function GroupByte(group: seq<Bit>, lsbFirst: bool): (b: Byte)
    requires |group| == 8
  {
    Pow2Eight();
    ValueMsb(if lsbFirst then Reverse(group) else group)
  }

  /**
   * MSB first, bit j of the group weighs 2^(7-j); LSB first, it weighs 2^j.
   */
  lemma GroupByteWeights(group: seq<Bit>, lsbFirst: bool)
    requires |group| == 8
    ensures GroupByte(group, lsbFirst) == if lsbFirst then WeightedLsb(group) else WeightedMsb(group)
  {
    if lsbFirst {
      ReversedValue(group);
    } else {
      ValueMsbIsWeighted(group);
    }
  }

  /** The bytes of a bit stream: one per full group of 8, in order. */
  function Assemble(bits: seq<Bit>, lsbFirst: bool): seq<Byte>
  {
    if |bits| < 8 then []
    else [GroupByte(bits[..8], lsbFirst)] + Assemble(bits[8..], lsbFirst)
  }

  /** Exactly floor(|bits| / 8) bytes: the partial group is dropped, never padded. */
  lemma {:induction false} AssembleLength(bits: seq<Bit>, lsbFirst: bool)
    ensures |Assemble(bits, lsbFirst)| == |bits| / 8
  {
    if |bits| >= 8 {
      AssembleLength(bits[8..], lsbFirst);
    }
  }

  /** Byte k is made of bits 8k .. 8k+7 and of nothing else; it exists when those bits do. */
  lemma {:induction false} AssembleAt(bits: seq<Bit>, lsbFirst: bool, k: nat)
    requires 8 * k + 8 <= |bits|
    ensures k < |Assemble(bits, lsbFirst)|
    ensures Assemble(bits, lsbFirst)[k] == GroupByte(bits[8 * k..8 * k + 8], lsbFirst)
  {
    var rest := bits[8..];
    var out, tail := Assemble(bits, lsbFirst), Assemble(rest, lsbFirst);
    assert out == [GroupByte(bits[..8], lsbFirst)] + tail;
    if k > 0 {
      var i := 8 * (k - 1);
      assert k - 1 < |tail| && tail[k - 1] == GroupByte(rest[i..i + 8], lsbFirst) by {
        AssembleAt(rest, lsbFirst, k - 1);
      }
      assert rest[i..i + 8] == bits[8 * k..8 * k + 8] by {
        assert 8 + i == 8 * k;
        SliceOfSuffix(bits, 8, i, i + 8);
      }
      assert out[k] == tail[k - 1];
    } else {
      assert bits[..8] == bits[8 * k..8 * k + 8];
    }
  }

  /** Byte k as a positional sum over bits 8k .. 8k+7, for either bit order. */
  lemma AssembleWeights(bits: seq<Bit>, lsbFirst: bool, k: nat)
    requires 8 * k + 8 <= |bits|
    ensures k < |Assemble(bits, lsbFirst)|
    ensures Assemble(bits, lsbFirst)[k] ==
      if lsbFirst then WeightedLsb(bits[8 * k..8 * k + 8]) else WeightedMsb(bits[8 * k..8 * k + 8])
  {
    AssembleAt(bits, lsbFirst, k);
    GroupByteWeights(bits[8 * k..8 * k + 8], lsbFirst);
  }

  /** Assembling from offset i: one byte for the next full group, nothing once fewer than 8 bits are left. */
  lemma AssembleFrom(bits: seq<Bit>, lsbFirst: bool, i: nat)
    requires i <= |bits|
    ensures |bits| - i < 8 ==> Assemble(bits[i..], lsbFirst) == []
    ensures |bits| - i >= 8 ==>
      Assemble(bits[i..], lsbFirst) == [GroupByte(bits[i..i + 8], lsbFirst)] + Assemble(bits[i + 8..], lsbFirst)
  {
    if |bits| - i >= 8 {
      assert bits[i..][..8] == bits[i..i + 8] && bits[i..][8..] == bits[i + 8..];
    }
  }

  function Min(a: int, b: int): int
  {
    if a < b then a else b
  }

  method BitsToBytes(bits: seq<Bit>, lsbFirst: bool) returns (bytes: seq<Byte>)
    ensures bytes == Assemble(bits, lsbFirst)
  {
    bytes := [];
    var i := 0;
    while i < |bits|
      invariant 0 <= i
      invariant bytes + Assemble(bits[Min(i, |bits|)..], lsbFirst) == Assemble(bits, lsbFirst)
    {
      var segment := bits[i..Min(i + 8, |bits|)];
      AssembleFrom(bits, lsbFirst, i);
      if |segment| == 8 {
        // `int(segment, 2)` cannot raise here: every item of a Bit string is 0 or 1,
        // so the source's ValueError branch has no counterpart.
        ghost var group := segment;
        if lsbFirst {
          segment := Reverse(segment);
        }
        Pow2Eight();
        assert ValueMsb(segment) == GroupByte(group, lsbFirst);
        AppendAssoc(bytes, [ValueMsb(segment)], Assemble(bits[i + 8..], lsbFirst));
        bytes := bytes + [ValueMsb(segment)];
      }
      i := i + 8;
    }
  }

  /** The bit stream of a byte sequence: `format(b, '08b')` for each byte, in order. */
  function Explode(bytes: seq<Byte>): (bits: seq<Bit>)
    ensures |bits| == 8 * |bytes|
  {
    if bytes == [] then [] else Format8(bytes[0]) + Explode(bytes[1..])
  }

  /** The same with each byte's 8 bits reversed (least significant first). */
  function ExplodeReversed(bytes: seq<Byte>): (bits: seq<Bit>)
    ensures |bits| == 8 * |bytes|
  {
    if bytes == [] then [] else Reverse(Format8(bytes[0])) + ExplodeReversed(bytes[1..])
  }

  /** MSB-first reassembly of MSB-first bits gives the bytes back. */
  lemma {:induction false} RoundTripMsb(bytes: seq<Byte>)
    ensures Assemble(Explode(bytes), false) == bytes
  {
    if bytes != [] {
      var bits := Explode(bytes);
      assert bits[..8] == Format8(bytes[0]) && bits[8..] == Explode(bytes[1..]);
      ByteRoundTrip(bytes[0]);
      RoundTripMsb(bytes[1..]);
    }
  }

  /** LSB-first reassembly of per-byte reversed bits gives the bytes back. */
  lemma {:induction false} RoundTripLsb(bytes: seq<Byte>)
    ensures Assemble(ExplodeReversed(bytes), true) == bytes
  {
    if bytes != [] {
      var bits := ExplodeReversed(bytes);
      var group := Reverse(Format8(bytes[0]));
      assert bits[..8] == group && bits[8..] == ExplodeReversed(bytes[1..]);
      ReverseInvolutive(Format8(bytes[0]));
      ByteRoundTrip(bytes[0]);
      RoundTripLsb(bytes[1..]);
    }
  }
}
