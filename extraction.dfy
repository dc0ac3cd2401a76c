/**
 * The two bit extractors: `extract_hidden_data_by_plane` (channel-major,
 * "RRR...GGG...BBB...") and `extract_hidden_data_by_pixel` (pixel-major,
 * "RGB,RGB,RGB...").  Both take, from every selected channel a pixel has,
 * the low bits of its value, most significant first.
 */
module Extraction {
  import opened Binary

  /** A pixel: its channel values in order (R, G, B, A for an RGBA image). */
  type Pixel = seq<Byte>

  /**
   * How many digits `format(v, '08b')[-n:]` keeps: n for 1 <= n <= 8; for
   * n == 0 (`s[-0:]` is `s[0:]`) and for n > 8 Python's slice keeps all 8.
   */
  function Width(n: nat): (w: nat)
    ensures 1 <= w <= 8
    ensures 1 <= n <= 8 ==> w == n
  {
    if 1 <= n <= 8 then n else 8
  }

  /** The low Width(n) bits of v, most significant first. */
  function LowBits(v: Byte, n: nat): (r: seq<Bit>)
    ensures |r| == Width(n)
  {
    ToBinary(v, Width(n))
  }

  /** Python's `s[-n:]` for n >= 0: the last n items, or all of s when n is 0 or exceeds |s|. */
  function TakeLast(s: seq<Bit>, n: nat): (r: seq<Bit>)
    ensures |r| == if 1 <= n <= |s| then n else |s|
  {
    if 1 <= n <= |s| then s[|s| - n..] else s
  }

  /** `format(v, '08b')[-n:]` is exactly the low Width(n) bits of v. */
  lemma FormatSuffixIsLowBits(v: Byte, n: nat)
    ensures TakeLast(Format8(v), n) == LowBits(v, n)
  {
    Format8IsBinary(v);
    ToBinarySuffix(v, 8, Width(n));
  }

  /** Read back, the extracted chunk is v modulo 2^Width(n): exactly the low bits. */
  lemma LowBitsValue(v: Byte, n: nat)
    ensures ValueMsb(LowBits(v, n)) == v % Pow2(Width(n))
  {
    ToBinaryValue(v, Width(n));
  }

  /** Bit j of the extracted chunk is bit (Width(n)-1-j) of the value. */
  lemma LowBitsAt(v: Byte, n: nat, j: nat)
    requires j < Width(n)
    ensures LowBits(v, n)[j] == (v / Pow2(Width(n) - 1 - j)) % 2
  {
    ToBinaryAt(v, Width(n), j);
  }

  /** What one (pixel, channel) pair contributes: nothing if the pixel lacks the channel. */
  function ChannelBits(p: Pixel, c: nat, n: nat): seq<Bit>
  {
    if c < |p| then LowBits(p[c], n) else []
  }

  /** One channel's bits across all pixels, in pixel order. */
  function PlaneOf(pixels: seq<Pixel>, c: nat, n: nat): seq<Bit>
  {
    if pixels == [] then []
    else PlaneOf(pixels[..|pixels| - 1], c, n) + ChannelBits(pixels[|pixels| - 1], c, n)
  }

  /** The by-plane stream: the planes of the selected channels, in the given order. */
  function ByPlane(pixels: seq<Pixel>, n: nat, channels: seq<nat>): seq<Bit>
  {
    if channels == [] then []
    else ByPlane(pixels, n, channels[..|channels| - 1]) + PlaneOf(pixels, channels[|channels| - 1], n)
  }

  /** One pixel's selected channels, in the given order. */
  function PixelChunk(p: Pixel, channels: seq<nat>, n: nat): seq<Bit>
  {
    if channels == [] then []
    else PixelChunk(p, channels[..|channels| - 1], n) + ChannelBits(p, channels[|channels| - 1], n)
  }

  /** The by-pixel stream: each pixel's chunk, in pixel order. */
  function ByPixel(pixels: seq<Pixel>, n: nat, channels: seq<nat>): seq<Bit>
  {
    if pixels == [] then []
    else ByPixel(pixels[..|pixels| - 1], n, channels) + PixelChunk(pixels[|pixels| - 1], channels, n)
  }

  /** Number of selected channels a pixel has. */
  function ChannelsPresent(p: Pixel, channels: seq<nat>): nat
  {
    if channels == [] then 0
    else ChannelsPresent(p, channels[..|channels| - 1]) + (if channels[|channels| - 1] < |p| then 1 else 0)
  }

  /** Number of (pixel, channel) pairs whose pixel has the channel. */
  function ValidPairs(pixels: seq<Pixel>, channels: seq<nat>): nat
  {
    if pixels == [] then 0
    else ValidPairs(pixels[..|pixels| - 1], channels) + ChannelsPresent(pixels[|pixels| - 1], channels)
  }

  /** Number of pixels that have channel c. */
  function PixelsWith(pixels: seq<Pixel>, c: nat): nat
  {
    if pixels == [] then 0
    else PixelsWith(pixels[..|pixels| - 1], c) + (if c < |pixels[|pixels| - 1]| then 1 else 0)
  }

  /** One `format(value, '08b')[-numLsb:]` step of either extractor, or nothing. */
  method PairBits(p: Pixel, c: nat, numLsb: nat) returns (chunk: seq<Bit>)
    ensures chunk == ChannelBits(p, c, numLsb)
  {
    chunk := [];
    if c < |p| {
      FormatSuffixIsLowBits(p[c], numLsb);
      chunk := TakeLast(Format8(p[c]), numLsb);
    }
  }

  method ExtractByPlane(pixels: seq<Pixel>, numLsb: nat, channels: seq<nat>) returns (bits: seq<Bit>)
    ensures bits == ByPlane(pixels, numLsb, channels)
  {
    bits := [];
    for i := 0 to |channels|
      invariant bits == ByPlane(pixels, numLsb, channels[..i])
    {
      var c := channels[i];
      ghost var done := bits;
      for j := 0 to |pixels|
        invariant bits == done + PlaneOf(pixels[..j], c, numLsb)
      {
        var chunk := PairBits(pixels[j], c, numLsb);
        PlaneOfPrefix(pixels, c, numLsb, j);
        AppendAssoc(done, PlaneOf(pixels[..j], c, numLsb), chunk);
        bits := bits + chunk;
      }
      assert pixels[..|pixels|] == pixels;
      assert bits == done + PlaneOf(pixels, c, numLsb);
      ByPlanePrefix(pixels, numLsb, channels, i);
    }
    assert channels[..|channels|] == channels;
  }

  method ExtractByPixel(pixels: seq<Pixel>, numLsb: nat, channels: seq<nat>) returns (bits: seq<Bit>)
    ensures bits == ByPixel(pixels, numLsb, channels)
  {
    bits := [];
    for i := 0 to |pixels|
      invariant bits == ByPixel(pixels[..i], numLsb, channels)
    {
      var p := pixels[i];
      ghost var done := bits;
      for j := 0 to |channels|
        invariant bits == done + PixelChunk(p, channels[..j], numLsb)
      {
        var chunk := PairBits(p, channels[j], numLsb);
        PixelChunkPrefix(p, channels, numLsb, j);
        AppendAssoc(done, PixelChunk(p, channels[..j], numLsb), chunk);
        bits := bits + chunk;
      }
      assert channels[..|channels|] == channels;
      ByPixelPrefix(pixels, numLsb, channels, i);
    }
    assert pixels[..|pixels|] == pixels;
  }

  lemma PlaneOfPrefix(pixels: seq<Pixel>, c: nat, n: nat, j: nat)
    requires j < |pixels|
    ensures PlaneOf(pixels[..j + 1], c, n) == PlaneOf(pixels[..j], c, n) + ChannelBits(pixels[j], c, n)
  {
    assert pixels[..j + 1][..j] == pixels[..j];
  }

  lemma ByPlanePrefix(pixels: seq<Pixel>, n: nat, channels: seq<nat>, i: nat)
    requires i < |channels|
    ensures ByPlane(pixels, n, channels[..i + 1]) == ByPlane(pixels, n, channels[..i]) + PlaneOf(pixels, channels[i], n)
  {
    assert channels[..i + 1][..i] == channels[..i];
  }

  lemma PixelChunkPrefix(p: Pixel, channels: seq<nat>, n: nat, j: nat)
    requires j < |channels|
    ensures PixelChunk(p, channels[..j + 1], n) == PixelChunk(p, channels[..j], n) + ChannelBits(p, channels[j], n)
  {
    assert channels[..j + 1][..j] == channels[..j];
  }

  lemma ByPixelPrefix(pixels: seq<Pixel>, n: nat, channels: seq<nat>, i: nat)
    requires i < |pixels|
    ensures ByPixel(pixels[..i + 1], n, channels) == ByPixel(pixels[..i], n, channels) + PixelChunk(pixels[i], channels, n)
  {
    assert pixels[..i + 1][..i] == pixels[..i];
  }

  lemma MulAdd(w: nat, a: nat, b: nat)
    ensures w * (a + b) == w * a + w * b
  {
  }

  lemma {:induction false} PlaneOfLength(pixels: seq<Pixel>, c: nat, n: nat)
    ensures |PlaneOf(pixels, c, n)| == Width(n) * PixelsWith(pixels, c)
  {
    if pixels != [] {
      var init, p := pixels[..|pixels| - 1], pixels[|pixels| - 1];
      PlaneOfLength(init, c, n);
      var b := if c < |p| then 1 else 0;
      assert |ChannelBits(p, c, n)| == Width(n) * b;
      MulAdd(Width(n), PixelsWith(init, c), b);
    }
  }

  lemma {:induction false} ValidPairsSnoc(pixels: seq<Pixel>, channels: seq<nat>, c: nat)
    ensures ValidPairs(pixels, channels + [c]) == ValidPairs(pixels, channels) + PixelsWith(pixels, c)
  {
    if pixels != [] {
      ValidPairsSnoc(pixels[..|pixels| - 1], channels, c);
      assert (channels + [c])[..|channels|] == channels;
    }
  }

  lemma {:induction false} ValidPairsNone(pixels: seq<Pixel>)
    ensures ValidPairs(pixels, []) == 0
  {
    if pixels != [] {
      ValidPairsNone(pixels[..|pixels| - 1]);
    }
  }

  /** Each valid pair contributes Width(n) bits to the by-plane stream. */
  lemma {:induction false} ByPlaneLength(pixels: seq<Pixel>, n: nat, channels: seq<nat>)
    ensures |ByPlane(pixels, n, channels)| == Width(n) * ValidPairs(pixels, channels)
  {
    if channels == [] {
      ValidPairsNone(pixels);
    } else {
      var init, c := channels[..|channels| - 1], channels[|channels| - 1];
      var w, a, b := Width(n), ValidPairs(pixels, init), PixelsWith(pixels, c);
      assert |ByPlane(pixels, n, channels)| == w * a + w * b by {
        ByPlaneLength(pixels, n, init);
        PlaneOfLength(pixels, c, n);
      }
      assert ValidPairs(pixels, channels) == a + b by {
        assert channels == init + [c];
        ValidPairsSnoc(pixels, init, c);
      }
      MulAdd(w, a, b);
    }
  }

  lemma {:induction false} PixelChunkLength(p: Pixel, channels: seq<nat>, n: nat)
    ensures |PixelChunk(p, channels, n)| == Width(n) * ChannelsPresent(p, channels)
  {
    if channels != [] {
      var init, c := channels[..|channels| - 1], channels[|channels| - 1];
      PixelChunkLength(p, init, n);
      var b := if c < |p| then 1 else 0;
      assert |ChannelBits(p, c, n)| == Width(n) * b;
      MulAdd(Width(n), ChannelsPresent(p, init), b);
    }
  }

  /** Each valid pair contributes Width(n) bits to the by-pixel stream. */
  lemma {:induction false} ByPixelLength(pixels: seq<Pixel>, n: nat, channels: seq<nat>)
    ensures |ByPixel(pixels, n, channels)| == Width(n) * ValidPairs(pixels, channels)
  {
    if pixels != [] {
      var init, p := pixels[..|pixels| - 1], pixels[|pixels| - 1];
      var w, a, b := Width(n), ValidPairs(init, channels), ChannelsPresent(p, channels);
      assert |ByPixel(pixels, n, channels)| == w * a + w * b by {
        ByPixelLength(init, n, channels);
        PixelChunkLength(p, channels, n);
      }
      MulAdd(w, a, b);
    }
  }

  /** The two flows emit the same number of bits: numLsb times the valid pairs. */
  lemma FlowsSameLength(pixels: seq<Pixel>, n: nat, channels: seq<nat>)
    ensures |ByPlane(pixels, n, channels)| == |ByPixel(pixels, n, channels)| == Width(n) * ValidPairs(pixels, channels)
  {
    ByPlaneLength(pixels, n, channels);
    ByPixelLength(pixels, n, channels);
  }

  /** With one selected channel the two flows produce the same stream. */
  lemma {:induction false} SingleChannelFlowsAgree(pixels: seq<Pixel>, n: nat, c: nat)
    ensures ByPlane(pixels, n, [c]) == ByPixel(pixels, n, [c])
  {
    assert [c][..0] == [];
    PlaneIsByPixel(pixels, n, c);
  }

  lemma {:induction false} PlaneIsByPixel(pixels: seq<Pixel>, n: nat, c: nat)
    ensures PlaneOf(pixels, c, n) == ByPixel(pixels, n, [c])
  {
    if pixels != [] {
      var init, p := pixels[..|pixels| - 1], pixels[|pixels| - 1];
      PlaneIsByPixel(init, n, c);
      assert [c][..|[c]| - 1] == [];
      assert PixelChunk(p, [c], n) == PixelChunk(p, [], n) + ChannelBits(p, c, n);
    }
  }

  /** Every pixel has channel c. */
  predicate AllHave(pixels: seq<Pixel>, c: nat)
  {
    forall k :: 0 <= k < |pixels| ==> c < |pixels[k]|
  }

  lemma {:induction false} PixelsWithAll(pixels: seq<Pixel>, c: nat)
    requires AllHave(pixels, c)
    ensures PixelsWith(pixels, c) == |pixels|
  {
    if pixels != [] {
      var init := pixels[..|pixels| - 1];
      assert AllHave(init, c) by {
        forall k | 0 <= k < |init| ensures c < |init[k]| {
          assert init[k] == pixels[k];
        }
      }
      PixelsWithAll(init, c);
    }
  }

  lemma AllHavePrefix(pixels: seq<Pixel>, c: nat, m: nat)
    requires AllHave(pixels, c) && m <= |pixels|
    ensures AllHave(pixels[..m], c)
  {
    forall i | 0 <= i < m ensures c < |pixels[..m][i]| {
      assert pixels[..m][i] == pixels[i];
    }
  }

  /** The plane of the first m pixels is a prefix of the whole plane. */
  lemma {:induction false} PlaneOfGrows(pixels: seq<Pixel>, c: nat, n: nat, m: nat)
    requires m <= |pixels|
    ensures PlaneOf(pixels[..m], c, n) <= PlaneOf(pixels, c, n)
  {
    if m < |pixels| {
      var init := pixels[..|pixels| - 1];
      PlaneOfGrows(init, c, n, m);
      assert init[..m] == pixels[..m];
    } else {
      assert pixels[..m] == pixels;
    }
  }

  /** An item of a sequence that starts a prefix of another, found in the longer one. */
  lemma IndexInPrefix<T>(whole: seq<T>, before: seq<T>, chunk: seq<T>, i: nat)
    requires before + chunk <= whole && i < |chunk|
    ensures |before| + i < |whole| && whole[|before| + i] == chunk[i]
  {
    assert (before + chunk)[|before| + i] == chunk[i];
  }

  /**
   * Chunk k of a plane is pixel k's chunk, when every pixel has the
   * channel: bit i == k*w + j, j < w, is bit j of that chunk.
   */
  lemma PlaneOfChunk(pixels: seq<Pixel>, c: nat, n: nat, k: nat, j: nat, i: nat)
    requires AllHave(pixels, c)
    requires k < |pixels| && j < Width(n) && i == Width(n) * k + j
    ensures |PlaneOf(pixels, c, n)| == Width(n) * |pixels|
    ensures i < |PlaneOf(pixels, c, n)| && PlaneOf(pixels, c, n)[i] == LowBits(pixels[k][c], n)[j]
  {
    var w := Width(n);
    var whole, before := PlaneOf(pixels, c, n), PlaneOf(pixels[..k], c, n);
    var chunk := LowBits(pixels[k][c], n);
    assert |whole| == w * |pixels| by {
      PlaneOfLength(pixels, c, n);
      PixelsWithAll(pixels, c);
    }
    assert |before| == w * k by {
      AllHavePrefix(pixels, c, k);
      PlaneOfLength(pixels[..k], c, n);
      PixelsWithAll(pixels[..k], c);
    }
    assert before + chunk <= whole by {
      PlaneOfPrefix(pixels, c, n, k);
      PlaneOfGrows(pixels, c, n, k + 1);
    }
    IndexInPrefix(whole, before, chunk, j);
  }

  /**
   * Bit positions of a plane when every pixel has the channel: bit
   * i == k*w + j, j < w, is bit (w-1-j) of pixel k's value.
   */
  lemma PlaneOfAt(pixels: seq<Pixel>, c: nat, n: nat, k: nat, j: nat, i: nat)
    requires AllHave(pixels, c)
    requires k < |pixels| && j < Width(n) && i == Width(n) * k + j
    ensures i < |PlaneOf(pixels, c, n)| && PlaneOf(pixels, c, n)[i] == (pixels[k][c] / Pow2(Width(n) - 1 - j)) % 2
  {
    PlaneOfChunk(pixels, c, n, k, j, i);
    LowBitsAt(pixels[k][c], n, j);
  }

  /** Every pixel has every selected channel. */
  predicate AllHaveAll(pixels: seq<Pixel>, channels: seq<nat>)
  {
    forall k, m :: 0 <= k < |pixels| && 0 <= m < |channels| ==> channels[m] < |pixels[k]|
  }

  lemma {:induction false} ChannelsPresentAll(p: Pixel, channels: seq<nat>)
    requires forall m :: 0 <= m < |channels| ==> channels[m] < |p|
    ensures ChannelsPresent(p, channels) == |channels|
  {
    if channels != [] {
      var init := channels[..|channels| - 1];
      assert forall m :: 0 <= m < |init| ==> init[m] == channels[m];
      ChannelsPresentAll(p, init);
    }
  }

  /** When every pixel has every selected channel, each pixel contributes Width(n) bits per channel. */
  lemma {:induction false} ByPixelLengthAll(pixels: seq<Pixel>, n: nat, channels: seq<nat>)
    requires AllHaveAll(pixels, channels)
    ensures |ByPixel(pixels, n, channels)| == (Width(n) * |channels|) * |pixels|
  {
    if pixels != [] {
      var init, p := pixels[..|pixels| - 1], pixels[|pixels| - 1];
      var b := Width(n) * |channels|;
      assert AllHaveAll(init, channels) by {
        forall k, m | 0 <= k < |init| && 0 <= m < |channels| ensures channels[m] < |init[k]| {
          assert init[k] == pixels[k];
        }
      }
      ByPixelLengthAll(init, n, channels);
      assert |PixelChunk(p, channels, n)| == b by {
        assert forall m :: 0 <= m < |channels| ==> channels[m] < |pixels[|pixels| - 1]|;
        PixelChunkLength(p, channels, n);
        ChannelsPresentAll(p, channels);
      }
      MulAdd(b, |init|, 1);
    }
  }

  /** The stream of the first m pixels is a prefix of the whole by-pixel stream. */
  lemma {:induction false} ByPixelGrows(pixels: seq<Pixel>, n: nat, channels: seq<nat>, m: nat)
    requires m <= |pixels|
    ensures ByPixel(pixels[..m], n, channels) <= ByPixel(pixels, n, channels)
  {
    if m < |pixels| {
      var init := pixels[..|pixels| - 1];
      ByPixelGrows(init, n, channels, m);
      assert init[..m] == pixels[..m];
    } else {
      assert pixels[..m] == pixels;
    }
  }

  /** The chunk of the first m channels is a prefix of the pixel's whole chunk. */
  lemma {:induction false} PixelChunkGrows(p: Pixel, channels: seq<nat>, n: nat, m: nat)
    requires m <= |channels|
    ensures PixelChunk(p, channels[..m], n) <= PixelChunk(p, channels, n)
  {
    if m < |channels| {
      var init := channels[..|channels| - 1];
      PixelChunkGrows(p, init, n, m);
      assert init[..m] == channels[..m];
    } else {
      assert channels[..m] == channels;
    }
  }

  /**
   * Bit positions of the by-pixel stream when every pixel has every
   * selected channel: with w == Width(n) and C channels, bit
   * i == C*w*k + w*m + j, j < w, is bit (w-1-j) of channel channels[m] of
   * pixel k.
   */
  lemma ByPixelAt(pixels: seq<Pixel>, n: nat, channels: seq<nat>, k: nat, m: nat, j: nat, i: nat)
    requires AllHaveAll(pixels, channels)
    requires k < |pixels| && m < |channels| && j < Width(n)
    requires i == (Width(n) * |channels|) * k + Width(n) * m + j
    ensures i < |ByPixel(pixels, n, channels)|
      && ByPixel(pixels, n, channels)[i] == (pixels[k][channels[m]] / Pow2(Width(n) - 1 - j)) % 2
  {
    var w, p := Width(n), pixels[k];
    var whole, before := ByPixel(pixels, n, channels), ByPixel(pixels[..k], n, channels);
    var chunk, head := PixelChunk(p, channels, n), PixelChunk(p, channels[..m], n);
    assert channels[m] < |p|;
    var bits := LowBits(p[channels[m]], n);
    assert |before| == (w * |channels|) * k by {
      assert AllHaveAll(pixels[..k], channels) by {
        forall k', m' | 0 <= k' < k && 0 <= m' < |channels| ensures channels[m'] < |pixels[..k][k']| {
          assert pixels[..k][k'] == pixels[k'];
        }
      }
      ByPixelLengthAll(pixels[..k], n, channels);
    }
    assert before + chunk <= whole by {
      ByPixelPrefix(pixels, n, channels, k);
      ByPixelGrows(pixels, n, channels, k + 1);
    }
    assert |head| == w * m by {
      assert forall m' :: 0 <= m' < m ==> channels[..m][m'] < |p| by {
        forall m' | 0 <= m' < m ensures channels[..m][m'] < |p| {
          assert channels[..m][m'] == channels[m'];
        }
      }
      PixelChunkLength(p, channels[..m], n);
      ChannelsPresentAll(p, channels[..m]);
    }
    assert head + bits <= chunk by {
      PixelChunkPrefix(p, channels, n, m);
      PixelChunkGrows(p, channels, n, m + 1);
    }
    IndexInPrefix(chunk, head, bits, j);
    IndexInPrefix(whole, before, chunk, w * m + j);
    LowBitsAt(p[channels[m]], n, j);
  }
}
