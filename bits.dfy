/** Bitstreams as the codec sees them: a string of '0' and '1' characters,
    modelled as a sequence of booleans (true is '1'). Reading follows Python's
    `int(bitstream[a:b], 2)`: the slice is clipped at the end of the stream and
    an empty slice is an error. Writing follows `format(v, '0<w>b')`, which pads
    on the left but never truncates. */
module Bits {
  import opened Wrappers

  type Bits = seq<bool>

  function Min(a: nat, b: nat): nat { if a < b then a else b }

  function Max(a: nat, b: nat): nat { if a < b then b else a }

  function Pow2(n: nat): (p: nat)
    ensures p >= 1
  {
    if n == 0 then 1 else 2 * Pow2(n - 1)
  }

  lemma {:induction false} Pow2Monotonic(a: nat, b: nat)
    requires a <= b
    ensures Pow2(a) <= Pow2(b)
    decreases b
  {
    if a < b {
      Pow2Monotonic(a, b - 1);
    }
  }

  lemma {:induction false} Pow2Add(a: nat, b: nat)
    ensures Pow2(a + b) == Pow2(a) * Pow2(b)
    decreases b
  {
    if b > 0 {
      Pow2Add(a, b - 1);
      assert Pow2(a + b) == 2 * Pow2(a + b - 1);
      assert Pow2(b) == 2 * Pow2(b - 1);
    }
  }

  /** The powers of two that the field widths of the codec need, one doubling at a time. */
  lemma Pow2Values()
    ensures Pow2(1) == 2
    ensures Pow2(2) == 4
    ensures Pow2(3) == 8
    ensures Pow2(4) == 16
    ensures Pow2(5) == 32
    ensures Pow2(6) == 64
    ensures Pow2(7) == 128
    ensures Pow2(8) == 256
    ensures Pow2(9) == 512
    ensures Pow2(10) == 1024
    ensures Pow2(11) == 2048
    ensures Pow2(12) == 4096
    ensures Pow2(13) == 8192
    ensures Pow2(14) == 16384
    ensures Pow2(15) == 32768
    ensures Pow2(16) == 65536
    ensures Pow2(17) == 131072
    ensures Pow2(18) == 262144
    ensures Pow2(19) == 524288
    ensures Pow2(20) == 1048576
    ensures Pow2(21) == 2097152
    ensures Pow2(22) == 4194304
    ensures Pow2(23) == 8388608
    ensures Pow2(24) == 16777216
    ensures Pow2(25) == 33554432
    ensures Pow2(26) == 67108864
    ensures Pow2(27) == 134217728
    ensures Pow2(28) == 268435456
    ensures Pow2(29) == 536870912
    ensures Pow2(30) == 1073741824
  {
    assert Pow2(1) == 2;
    assert Pow2(2) == 4;
    assert Pow2(3) == 8;
    assert Pow2(4) == 16;
    assert Pow2(5) == 32;
    assert Pow2(6) == 64;
    assert Pow2(7) == 128;
    assert Pow2(8) == 256;
    assert Pow2(9) == 512;
    assert Pow2(10) == 1024;
    assert Pow2(11) == 2048;
    assert Pow2(12) == 4096;
    assert Pow2(13) == 8192;
    assert Pow2(14) == 16384;
    assert Pow2(15) == 32768;
    assert Pow2(16) == 65536;
    assert Pow2(17) == 131072;
    assert Pow2(18) == 262144;
    assert Pow2(19) == 524288;
    assert Pow2(20) == 1048576;
    assert Pow2(21) == 2097152;
    assert Pow2(22) == 4194304;
    assert Pow2(23) == 8388608;
    assert Pow2(24) == 16777216;
    assert Pow2(25) == 33554432;
    assert Pow2(26) == 67108864;
    assert Pow2(27) == 134217728;
    assert Pow2(28) == 268435456;
    assert Pow2(29) == 536870912;
    assert Pow2(30) == 1073741824;
  }

  function BitValue(b: bool): nat { if b then 1 else 0 }

  /** Big-endian unsigned value: the first bit is the most significant. */
  function Uint(bs: Bits): (v: nat)
    ensures v < Pow2(|bs|)
  {
    if |bs| == 0 then 0 else 2 * Uint(bs[..|bs| - 1]) + BitValue(bs[|bs| - 1])
  }

  /** Appending one bit doubles the value and adds the bit. */
  lemma UintSnoc(bs: Bits, b: bool)
    ensures Uint(bs + [b]) == 2 * Uint(bs) + BitValue(b)
  {
    assert (bs + [b])[..|bs|] == bs;
  }

  /** The value of a concatenation: the left part is shifted by the length of the right part. */
  lemma {:induction false} UintAppend(a: Bits, b: Bits)
    ensures Uint(a + b) == Uint(a) * Pow2(|b|) + Uint(b)
    decreases |b|
  {
    if |b| == 0 {
      assert a + b == a;
    } else {
      var b', last := b[..|b| - 1], b[|b| - 1];
      assert b == b' + [last];
      assert a + b == (a + b') + [last];
      UintSnoc(a + b', last);
      UintSnoc(b', last);
      UintAppend(a, b');
      ShiftStep(Uint(a), Pow2(|b'|), Uint(b'), BitValue(last));
    }
  }

  lemma ShiftStep(x: int, p: int, y: int, l: int)
    ensures 2 * (x * p + y) + l == x * (2 * p) + (2 * y + l)
  {
  }

  /** A most-significant-first reading: the first bit weighs 2^(n-1). */
  lemma UintFirst(bs: Bits)
    requires |bs| >= 1
    ensures Uint(bs) == BitValue(bs[0]) * Pow2(|bs| - 1) + Uint(bs[1..])
  {
    var head, tail := [bs[0]], bs[1..];
    assert bs == head + tail;
    UintAppend(head, tail);
    assert head[..0] == [];
    assert Uint(head) == BitValue(bs[0]);
  }

  function Zeros(n: nat): (z: Bits)
    ensures |z| == n
    ensures forall i :: 0 <= i < n ==> !z[i]
  {
    seq(n, i => false)
  }

  lemma {:induction false} UintZeros(n: nat)
    ensures Uint(Zeros(n)) == 0
    decreases n
  {
    if n > 0 {
      assert Zeros(n)[..n - 1] == Zeros(n - 1);
      UintZeros(n - 1);
    }
  }

  /** Leading zero bits do not change the value. */
  lemma UintLeadingZeros(n: nat, b: Bits)
    ensures Uint(Zeros(n) + b) == Uint(b)
  {
    UintAppend(Zeros(n), b);
    UintZeros(n);
  }

  /** The minimal binary digits of v, as Python's bin(v) without its prefix ("0" for zero). */
  function Binary(v: nat): (bs: Bits)
    ensures |bs| >= 1
    ensures Uint(bs) == v
    decreases v
  {
    if v < 2 then [v == 1]
    else
      var d := Binary(v / 2) + [v % 2 == 1];
      assert d[..|d| - 1] == Binary(v / 2);
      d
  }

  /** Minimal digits have a leading one: 2^(|Binary(v)|-1) <= v < 2^|Binary(v)| for v >= 1. */
  lemma {:induction false} BinaryLength(v: nat)
    ensures v < Pow2(|Binary(v)|)
    ensures v >= 1 ==> Pow2(|Binary(v)| - 1) <= v
    decreases v
  {
    if v >= 2 {
      BinaryLength(v / 2);
    }
  }

  /** format(v, '0<w>b'): the binary digits of v, left-padded with zeros to at
      least w bits. A value that does not fit keeps all of its digits. */
  function Format(v: nat, w: nat): (bs: Bits)
    ensures Uint(bs) == v
    ensures |bs| == Max(w, |Binary(v)|)
  {
    var d := Binary(v);
    if |d| < w then
      UintLeadingZeros(w - |d|, d);
      Zeros(w - |d|) + d
    else d
  }

  /** The width promised by a format is met exactly when the value fits. */
  lemma FormatWidth(v: nat, w: nat)
    requires w >= 1
    ensures |Format(v, w)| >= w
    ensures |Format(v, w)| == w <==> v < Pow2(w)
  {
    BinaryLength(v);
    if v < Pow2(w) {
      if v >= 1 && |Binary(v)| - 1 >= w {
        Pow2Monotonic(w, |Binary(v)| - 1);
      }
    } else {
      if |Binary(v)| <= w {
        Pow2Monotonic(|Binary(v)|, w);
      }
    }
  }

  /** A w-bit stream is determined by its value: Format inverts Uint. */
  lemma {:induction false} FormatUint(bs: Bits)
    requires |bs| >= 1
    ensures Format(Uint(bs), |bs|) == bs
    decreases |bs|
  {
    var v := Uint(bs);
    FormatWidth(v, |bs|);
    var f := Format(v, |bs|);
    if |bs| == 1 {
      assert bs[..0] == [];
    } else {
      var front := bs[..|bs| - 1];
      FormatUint(front);
      FormatWidth(Uint(front), |front|);
      UintFirstBits(f, bs);
    }
  }

  /** Two streams of the same length and value are equal. */
  lemma {:induction false} UintFirstBits(a: Bits, b: Bits)
    requires |a| == |b| && Uint(a) == Uint(b)
    ensures a == b
    decreases |a|
  {
    if |a| > 0 {
      var n := |a| - 1;
      assert Uint(a) == 2 * Uint(a[..n]) + BitValue(a[n]);
      assert Uint(b) == 2 * Uint(b[..n]) + BitValue(b[n]);
      assert a[n] == b[n];
      UintFirstBits(a[..n], b[..n]);
      assert a == a[..n] + [a[n]];
      assert b == b[..n] + [b[n]];
    }
  }

  /** Python's s[a:b] for a <= b: both ends clipped at the end of s. */
  function Slice(bs: Bits, a: nat, b: nat): (s: Bits)
    requires a <= b
    ensures |s| == Min(b, |bs|) - Min(a, |bs|)
    ensures b <= |bs| ==> s == bs[a..b]
    ensures a <= |bs| ==> s == bs[a..Min(b, |bs|)]
    ensures |bs| <= a ==> s == []
  {
    bs[Min(a, |bs|)..Min(b, |bs|)]
  }

  /** Python's s[a:]. */
  function SliceFrom(bs: Bits, a: nat): (s: Bits)
    ensures |s| == |bs| - Min(a, |bs|)
    ensures a <= |bs| ==> s == bs[a..]
  {
    bs[Min(a, |bs|)..]
  }

  /** int(bitstream[a:b], 2): the value of the bits that remain of the slice,
      and an error when the slice is empty because it starts past the end. */
  function Field(bs: Bits, a: nat, b: nat): (r: Result<nat>)
    requires a < b
    ensures r.Ok? <==> a < |bs|
    ensures r.Err? ==> r.error == EmptyBinaryLiteral
    ensures r.Ok? ==> r.value < Pow2(b - a)
    ensures r.Ok? ==> r.value == Uint(Slice(bs, a, b))
    ensures r.Ok? && b <= |bs| ==> r.value == Uint(bs[a..b])
  {
    var s := Slice(bs, a, b);
    if |s| == 0 then Err(EmptyBinaryLiteral)
    else
      Pow2Monotonic(|s|, b - a);
      Ok(Uint(s))
  }

  /** A field read only sees the bits of its own slice. */
  lemma FieldOfPrefix(bs: Bits, bs': Bits, a: nat, b: nat)
    requires a < b <= |bs| && b <= |bs'| && bs[a..b] == bs'[a..b]
    ensures Field(bs, a, b) == Field(bs', a, b)
  {
  }

  /** The two's-complement correction the decoder applies to a w-bit raw value:
      the unique value in [-2^(w-1), 2^(w-1)) congruent to raw modulo 2^w. */
  function Signed(raw: nat, w: nat): (s: int)
    requires w >= 1 && raw < Pow2(w)
    ensures -(Pow2(w - 1) as int) <= s < Pow2(w - 1)
    ensures s == raw || s == raw - Pow2(w)
  {
    if raw >= Pow2(w - 1) then raw - Pow2(w) else raw
  }

  /** The boundary points of the correction. */
  lemma SignedBoundaries(w: nat)
    requires w >= 1
    ensures Signed(Pow2(w - 1), w) == -(Pow2(w - 1) as int)
    ensures Signed(Pow2(w - 1) - 1, w) == Pow2(w - 1) - 1
    ensures Signed(0, w) == 0
  {
  }

  /** The correction agrees with the bit-level definition of two's complement:
      the leading bit weighs -2^(w-1), the others their unsigned weights. */
  lemma SignedIsTwosComplement(bs: Bits)
    requires |bs| >= 1
    ensures Signed(Uint(bs), |bs|) == (if bs[0] then -(Pow2(|bs| - 1) as int) else 0) + Uint(bs[1..])
  {
    UintFirst(bs);
    assert Uint(bs[1..]) < Pow2(|bs| - 1);
  }
}
