/**
 * Machine integers of the engine: 32-bit signed payloads (`int`), 32-bit
 * unsigned ids and ticks (`std::uint32_t`), bytes, and the fixed-width
 * little-endian byte images that `serialize` writes with `ss.write`.
 */
module Machine {

  const TWO_31: int := 0x8000_0000
  const TWO_32: int := 0x1_0000_0000

  type Byte = x: int | 0 <= x < 256
  type Int32 = x: int | -0x8000_0000 <= x < 0x8000_0000
  type Uint32 = x: int | 0 <= x < 0x1_0000_0000

  /**
   * Two's-complement wrap-around into the 32-bit signed range. Signed
   * overflow is undefined in C++; the model takes what the hardware
   * arithmetic does.
   */
  function Wrap32(x: int): (r: Int32)
    ensures (x - r) % TWO_32 == 0
    ensures -TWO_31 <= x < TWO_31 ==> r == x
  {
    (x + TWO_31) % TWO_32 - TWO_31
  }

  /** Wrap32 is determined by the residue of its argument. */
  lemma WrapUnique(x: int, r: Int32)
    requires (x - r) % TWO_32 == 0
    ensures Wrap32(x) == r
  {
    var w := Wrap32(x);
    assert (w - r) % TWO_32 == 0 by {
      assert w - r == (x - r) - (x - w);
    }
  }

  /** Adding a wrapped offset is the same as adding the offset and wrapping once. */
  lemma WrapAddWrap(a: int, d: int)
    ensures Wrap32(a + Wrap32(d)) == Wrap32(a + d)
  {
    var w := Wrap32(d);
    var r := Wrap32(a + d);
    assert ((a + w) - r) % TWO_32 == 0 by {
      assert (a + w) - r == ((a + d) - r) - (d - w);
    }
    WrapUnique(a + w, r);
  }

  /** The successor of a tick counter, `tick + 1` on `std::uint32_t`. */
  function NextTick(t: Uint32): (r: Uint32)
    ensures t < TWO_32 - 1 ==> r == t + 1
    ensures t == TWO_32 - 1 ==> r == 0
  {
    (t + 1) % TWO_32
  }

  function Pow256(n: nat): (p: nat)
    ensures p >= 1
  {
    if n == 0 then 1 else 256 * Pow256(n - 1)
  }

  /** The `n` low-order bytes of `u`, least significant first. */
  function EncodeLE(u: nat, n: nat): (bs: seq<Byte>)
    ensures |bs| == n
  {
    if n == 0 then [] else [u % 256] + EncodeLE(u / 256, n - 1)
  }

  /** The number whose little-endian image is `bs`. */
  function DecodeLE(bs: seq<Byte>): (u: nat)
    ensures u < Pow256(|bs|)
  {
    if bs == [] then 0 else bs[0] + 256 * DecodeLE(bs[1..])
  }

  lemma {:induction false} DecodeEncodeLE(u: nat, n: nat)
    requires u < Pow256(n)
    ensures DecodeLE(EncodeLE(u, n)) == u
  {
    if n > 0 {
      var bs := EncodeLE(u, n);
      assert bs[1..] == EncodeLE(u / 256, n - 1);
      DecodeEncodeLE(u / 256, n - 1);
    }
  }

  /** Encoding the number a byte string decodes to, at the same length, gives the bytes back. */
  lemma {:induction false} EncodeDecodeLE(bs: seq<Byte>)
    ensures EncodeLE(DecodeLE(bs), |bs|) == bs
  {
    if bs != [] {
      var u := DecodeLE(bs);
      assert u % 256 == bs[0] && u / 256 == DecodeLE(bs[1..]);
      EncodeDecodeLE(bs[1..]);
    }
  }

  /** Two's-complement reading of an int as its unsigned 32-bit pattern. */
  function ToUnsigned(v: Int32): (u: Uint32)
    ensures (u - v) % TWO_32 == 0
  {
    if v < 0 then v + TWO_32 else v
  }

  function ToSigned(u: Uint32): (v: Int32)
    ensures (u - v) % TWO_32 == 0
  {
    if u >= TWO_31 then u - TWO_32 else u
  }

  /** `ss.write((char*) &v, sizeof(int))` on a little-endian machine. */
  function EncodeInt32(v: Int32): (bs: seq<Byte>)
    ensures |bs| == 4
  {
    EncodeLE(ToUnsigned(v), 4)
  }

  /**
   * Reads back the four bytes `EncodeInt32` writes: every 4-byte pattern
   * is the image of exactly the int32 read from it.
   */
  function DecodeInt32(bs: seq<Byte>): (v: Int32)
    requires |bs| == 4
    ensures EncodeInt32(v) == bs
  {
    assert Pow256(4) == TWO_32;
    EncodeDecodeLE(bs);
    ToSigned(DecodeLE(bs))
  }

  lemma Int32RoundTrip(v: Int32)
    ensures DecodeInt32(EncodeInt32(v)) == v
  {
    assert Pow256(4) == TWO_32;
    DecodeEncodeLE(ToUnsigned(v), 4);
  }
}
