/**
 * Bits, bytes and the binary notation the extractor works with: Python's
 * `format(v, '08b')`, `int(s, 2)` and `s[::-1]` on strings of '0'/'1'.
 */
module Binary {

  /** A channel value or a reconstructed byte. */
  type Byte = x: int | 0 <= x < 256

  /** One character of a bit string: '0' or '1'. */
  type Bit = b: int | 0 <= b < 2

  lemma AppendAssoc<T>(a: seq<T>, b: seq<T>, c: seq<T>)
    ensures (a + b) + c == a + (b + c)
  {
  }

  /** A slice of a suffix is a slice of the whole. */
  lemma SliceOfSuffix<T>(s: seq<T>, d: nat, i: nat, j: nat)
    requires d + j <= |s| && i <= j
    ensures s[d..][i..j] == s[d + i..d + j]
  {
    forall m | 0 <= m < j - i
      ensures s[d..][i..j][m] == s[d + i..d + j][m]
    {
    }
  }

  function Pow2(n: nat): (r: nat)
    ensures r >= 1
  {
    if n == 0 then 1 else 2 * Pow2(n - 1)
  }

  lemma Pow2Eight()
    ensures Pow2(8) == 256
  {
  }

  /** `int(s, 2)`: the bit string read most significant bit first. */
  function ValueMsb(s: seq<Bit>): (r: nat)
    ensures r < Pow2(|s|)
  {
    if s == [] then 0 else 2 * ValueMsb(s[..|s| - 1]) + s[|s| - 1]
  }

  /** Reference reading of a bit string: bit j weighs 2^(|s|-1-j). */
  function WeightedMsb(s: seq<Bit>): nat
  {
    if s == [] then 0 else s[0] * Pow2(|s| - 1) + WeightedMsb(s[1..])
  }

  /** Reference reading of a bit string least significant bit first: bit j weighs 2^j. */
  function WeightedLsb(s: seq<Bit>): nat
  {
    if s == [] then 0 else s[0] + 2 * WeightedLsb(s[1..])
  }

  /** `s[::-1]`. */
  function Reverse(s: seq<Bit>): (r: seq<Bit>)
    ensures |r| == |s|
    ensures forall i :: 0 <= i < |s| ==> r[i] == s[|s| - 1 - i]
  {
    seq(|s|, i requires 0 <= i < |s| => s[|s| - 1 - i])
  }

  /** `s[::-1][::-1] == s`: reversing twice gives the string back. */
  lemma ReverseInvolutive(s: seq<Bit>)
    ensures Reverse(Reverse(s)) == s
  {
    var r := Reverse(s);
    forall i | 0 <= i < |s|
      ensures Reverse(r)[i] == s[i]
    {
      assert Reverse(r)[i] == r[|s| - 1 - i];
    }
  }

  /**
   * `format(v, '0{w}b')` for a value below 2^w: w binary digits, most
   * significant first.  For larger values it keeps the low w digits.
   */
  function ToBinary(v: nat, w: nat): (r: seq<Bit>)
    ensures |r| == w
  {
    if w == 0 then [] else ToBinary(v / 2, w - 1) + [v % 2]
  }

  /** `int(format(v, '0{w}b'), 2)` gives back v, reduced modulo 2^w. */
  lemma {:induction false} ToBinaryValue(v: nat, w: nat)
    ensures ValueMsb(ToBinary(v, w)) == v % Pow2(w)
  {
    if w > 0 {
      var r := ToBinary(v, w);
      assert r[..|r| - 1] == ToBinary(v / 2, w - 1);
      ToBinaryValue(v / 2, w - 1);
      ModDouble(v, Pow2(w - 1));
    }
  }

  /** Euclidean division is determined by quotient and remainder. */
  lemma DivModUnique(v: int, d: int, q: int, r: int)
    requires d > 0 && 0 <= r < d && v == d * q + r
    ensures v / d == q && v % d == r
  {
    var q', r' := v / d, v % d;
    assert d * (q - q') == r' - r;
    if q > q' {
      MulAtLeast(d, q - q');
    } else if q < q' {
      MulAtLeast(d, q' - q);
    }
  }

  lemma {:induction false} MulAtLeast(d: nat, k: nat)
    requires k >= 1
    ensures d * k >= d
  {
    if k > 1 {
      MulAtLeast(d, k - 1);
    }
  }

  /** Taking the last binary digit off: v mod 2p and v / 2p through v / 2. */
  lemma ModDouble(v: nat, p: nat)
    requires p >= 1
    ensures v % (2 * p) == 2 * ((v / 2) % p) + v % 2
    ensures v / (2 * p) == (v / 2) / p
  {
    var q, b := v / 2, v % 2;
    var a, r := q / p, q % p;
    assert v == (2 * p) * a + (2 * r + b);
    DivModUnique(v, 2 * p, a, 2 * r + b);
  }

  /** The last n of w binary digits are the n-digit binary form. */
  lemma {:induction false} ToBinarySuffix(v: nat, w: nat, n: nat)
    requires n <= w
    ensures ToBinary(v, w)[w - n..] == ToBinary(v, n)
    decreases w
  {
    if n == 0 {
    } else if n == w {
    } else {
      ToBinarySuffix(v / 2, w - 1, n - 1);
      var s := ToBinary(v / 2, w - 1);
      assert ToBinary(v, w) == s + [v % 2];
      assert ToBinary(v, w)[w - n..] == s[w - n..] + [v % 2];
      assert ToBinary(v, n) == ToBinary(v / 2, n - 1) + [v % 2];
    }
  }

  /** Digit j of the w-digit form of v is bit (w-1-j) of v. */
  lemma {:induction false} ToBinaryAt(v: nat, w: nat, j: nat)
    requires j < w
    ensures ToBinary(v, w)[j] == (v / Pow2(w - 1 - j)) % 2
    decreases w
  {
    if j < w - 1 {
      ToBinaryAt(v / 2, w - 1, j);
      assert ToBinary(v, w)[j] == ToBinary(v / 2, w - 1)[j];
      ModDouble(v, Pow2(w - 2 - j));
    }
  }

  /** Appending a bit doubles the reference reading. */
  lemma {:induction false} WeightedMsbSnoc(s: seq<Bit>, b: Bit)
    ensures WeightedMsb(s + [b]) == 2 * WeightedMsb(s) + b
  {
    if s != [] {
      assert (s + [b])[1..] == s[1..] + [b];
      WeightedMsbSnoc(s[1..], b);
      if s[0] == 1 {
        assert WeightedMsb(s + [b]) == Pow2(|s|) + WeightedMsb(s[1..] + [b]);
      } else {
        assert WeightedMsb(s + [b]) == WeightedMsb(s[1..] + [b]);
      }
    }
  }

  /** `int(s, 2)` agrees with the positional sum: bit j weighs 2^(|s|-1-j). */
  lemma {:induction false} ValueMsbIsWeighted(s: seq<Bit>)
    ensures ValueMsb(s) == WeightedMsb(s)
  {
    if s != [] {
      var init := s[..|s| - 1];
      ValueMsbIsWeighted(init);
      assert s == init + [s[|s| - 1]];
      WeightedMsbSnoc(init, s[|s| - 1]);
    }
  }

  /** Reading the reversed string MSB first is reading the string LSB first. */
  lemma {:induction false} ReversedValue(s: seq<Bit>)
    ensures ValueMsb(Reverse(s)) == WeightedLsb(s)
  {
    if s != [] {
      var r := Reverse(s);
      assert r[..|r| - 1] == Reverse(s[1..]);
      ReversedValue(s[1..]);
    }
  }

  /** `format(v, '08b')` for a byte: digit i is bit 7-i of v. */
  function Format8(v: Byte): (s: seq<Bit>)
    ensures |s| == 8
  {
    seq(8, i requires 0 <= i < 8 => (v / Pow2(7 - i)) % 2)
  }

  /** The 8-digit format is the 8-digit binary form. */
  lemma Format8IsBinary(v: Byte)
    ensures Format8(v) == ToBinary(v, 8)
  {
    forall j | 0 <= j < 8
      ensures Format8(v)[j] == ToBinary(v, 8)[j]
    {
      ToBinaryAt(v, 8, j);
    }
  }

  /** A byte survives `format(v, '08b')` followed by `int(_, 2)`. */
  lemma ByteRoundTrip(v: Byte)
    ensures ValueMsb(Format8(v)) == v
  {
    Format8IsBinary(v);
    ToBinaryValue(v, 8);
    Pow2Eight();
  }
}
