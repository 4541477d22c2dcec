/** Fixed-width unsigned integers, their little-endian bytes, and single bits.
    Conversions that truncate in the source are written out with `%`. */
module Bytes {
  type uint8 = x: int | 0 <= x < 0x100
  type uint16 = x: int | 0 <= x < 0x1_0000
  type uint32 = x: int | 0 <= x < 0x1_0000_0000

  datatype Option<+T> = None | Some(value: T)

  function Lo(w: uint16): uint8 { w % 0x100 }

  function Hi(w: uint16): uint8 { w / 0x100 }

  /** `static_cast<uint16_t>`. */
  function Cut16(n: nat): uint16 { n % 0x1_0000 }

  /** `0 - w` in 16 bits. */
  function Negated16(w: uint16): uint16 { (0 - w as int) % 0x1_0000 }

  function Le16(lo: uint8, hi: uint8): uint16 { lo + 0x100 * hi }

  /** The four bytes memcpy copies out of a 32-bit word on a little-endian host. */
  function Le32Bytes(v: uint32): (b: seq<uint8>)
    ensures |b| == 4
  {
    [v % 0x100, v / 0x100 % 0x100, v / 0x1_0000 % 0x100, v / 0x100_0000]
  }

  function Le32(b: seq<uint8>): uint32
    requires |b| == 4
  {
    (b[0] as int) + 0x100 * (b[1] as int) + 0x1_0000 * (b[2] as int) + 0x100_0000 * (b[3] as int)
  }

  /** The bytes are the digits of the word to the base 256, lowest first. */
  lemma Le32Digits(v: uint32)
    ensures var b := Le32Bytes(v);
            v as int == b[0] as int + 0x100 * b[1] as int + 0x1_0000 * b[2] as int + 0x100_0000 * b[3] as int
  {
    var q := v / 0x100;
    assert v / 0x1_0000 == q / 0x100 && v / 0x100_0000 == q / 0x1_0000;
  }

  lemma Le32RoundTrip(v: uint32)
    ensures Le32(Le32Bytes(v)) == v
  {
    var q := v / 0x100;
    assert v / 0x1_0000 == q / 0x100 && v / 0x100_0000 == q / 0x1_0000;
  }

  /** `std::copy(src, src + |src|, dst + at)`. */
  function Splice<T>(dst: seq<T>, at: nat, src: seq<T>): (r: seq<T>)
    requires at + |src| <= |dst|
    ensures |r| == |dst|
    ensures forall i :: 0 <= i < |r| ==> r[i] == if at <= i < at + |src| then src[i - at] else dst[i]
  {
    dst[..at] + src + dst[at + |src|..]
  }

  function Zeros(n: nat): (z: seq<uint8>)
    ensures |z| == n && forall i :: 0 <= i < n ==> z[i] == 0
  {
    seq(n, _ => 0)
  }

  /** Bit `i` of `v`: `(v >> i) & 1`. */
  predicate Bit(v: nat, i: nat) {
    if i == 0 then v % 2 == 1 else Bit(v / 2, i - 1)
  }

  function Pow2(n: nat): (p: nat)
    ensures p >= 1
  {
    if n == 0 then 1 else 2 * Pow2(n - 1)
  }

  /** The number whose bit `i` is `bs[i]`. */
  function FromBits(bs: seq<bool>): (v: nat)
    ensures v < Pow2(|bs|)
  {
    if bs == [] then 0 else (if bs[0] then 1 else 0) + 2 * FromBits(bs[1..])
  }

  lemma {:induction false} BitOfFromBits(bs: seq<bool>, i: nat)
    ensures Bit(FromBits(bs), i) == (i < |bs| && bs[i])
    decreases i
  {
    if bs == [] {
      if i > 0 { BitOfFromBits(bs, i - 1); }
    } else {
      assert FromBits(bs) / 2 == FromBits(bs[1..]);
      if i > 0 { BitOfFromBits(bs[1..], i - 1); }
    }
  }

  /** Setting one more bit on top adds its weight: the `bits |= 1u << i` of the accumulation loops. */
  lemma {:induction false} FromBitsSnoc(bs: seq<bool>, b: bool)
    ensures FromBits(bs + [b]) == FromBits(bs) + (if b then Pow2(|bs|) else 0)
  {
    if bs == [] {
      assert FromBits([b]) == (if b then 1 else 0) + 2 * FromBits([]);
    } else {
      assert (bs + [b])[1..] == bs[1..] + [b];
      FromBitsSnoc(bs[1..], b);
    }
  }

  type positive = x: int | 0 < x witness 1

  const WEIGHTS: seq<positive> := [1, 2, 4, 8, 16, 32, 64, 128]

  /** Bit `i` of a byte is the binary digit of that weight. */
  lemma {:induction false} BitIsDigit(v: nat, i: nat)
    requires i < 8
    ensures Bit(v, i) <==> v / WEIGHTS[i] % 2 == 1
    decreases i
  {
    if i > 0 {
      BitIsDigit(v / 2, i - 1);
      HalvedDigit(v, i);
    }
  }

  lemma HalvedDigit(v: nat, i: nat)
    requires 0 < i < 8
    ensures v / 2 / WEIGHTS[i - 1] == v / WEIGHTS[i]
  {
    assert v / 2 / 2 == v / 4 && v / 2 / 4 == v / 8 && v / 2 / 8 == v / 16;
    assert v / 2 / 16 == v / 32 && v / 2 / 32 == v / 64 && v / 2 / 64 == v / 128;
  }

  lemma Pow2Eight()
    ensures Pow2(8) == 0x100
  {
    assert Pow2(4) == 16;
    assert Pow2(6) == 64;
  }
}
