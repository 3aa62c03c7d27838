/**
 * The typed attribute values of include/core/types.hpp over integer
 * payloads: `PrimitiveValue<int>`, `Vec2<int>` and
 * `PrimitiveValueNoInterp<int>`.
 */
module Types {
  import opened Machine

  datatype GameValue =
    | IntVal(v: Int32)               // PrimitiveValue<int>
    | Vec2i(x: Int32, y: Int32)      // Vec2<int>
    | NoInterpInt(v: Int32)          // PrimitiveValueNoInterp<int>
  {
    /** The value is a `PrimitiveValue<int>`, possibly the no-interp subclass. */
    predicate IsPrimitive() { IntVal? || NoInterpInt? }
  }

  /** Two values of exactly the same kind. */
  predicate SameKind(a: GameValue, b: GameValue)
  {
    (a.IntVal? && b.IntVal?) || (a.Vec2i? && b.Vec2i?) || (a.NoInterpInt? && b.NoInterpInt?)
  }

  /**
   * The downcast `a` performs on `b` in get_delta and change succeeds: a
   * primitive accepts any `PrimitiveValue<int>` (the no-interp kind
   * derives from it), a vector accepts only a vector.
   */
  predicate Compatible(a: GameValue, b: GameValue)
  {
    (a.IsPrimitive() && b.IsPrimitive()) || (a.Vec2i? && b.Vec2i?)
  }

  /** `interp` downcasts its delta, except in the no-interp kind, which ignores it. */
  predicate InterpCompatible(a: GameValue, delta: GameValue)
  {
    a.NoInterpInt? || Compatible(a, delta)
  }

  /**
   * get_delta: the change that leads from `a` to `newer`, component-wise.
   * The no-interp kind inherits PrimitiveValue's get_delta, so its delta
   * is a plain `IntVal`.
   */
  function GetDelta(a: GameValue, newer: GameValue): (d: GameValue)
    requires Compatible(a, newer)
    ensures a.IsPrimitive() ==> d.IntVal? && (d.v - (newer.v - a.v)) % TWO_32 == 0
    ensures a.Vec2i? ==> d.Vec2i? && (d.x - (newer.x - a.x)) % TWO_32 == 0
                                 && (d.y - (newer.y - a.y)) % TWO_32 == 0
  {
    match a
    case Vec2i(x, y) => Vec2i(Wrap32(newer.x - x), Wrap32(newer.y - y))
    case _ => IntVal(Wrap32(newer.v - a.v))
  }

  /** Truncation toward zero, the C++ conversion of a floating value to an int. */
  function TruncToZero(r: real): (i: int)
    ensures r >= 0.0 ==> i as real <= r < i as real + 1.0
    ensures r < 0.0 ==> i as real - 1.0 < r <= i as real
  {
    if r >= 0.0 then r.Floor else -((-r).Floor)
  }

  /** `component + delta * t`, computed in floating point and stored back into an int. */
  function InterpComponent(c: Int32, d: Int32, t: real): Int32
  {
    Wrap32(TruncToZero(c as real + d as real * t))
  }

  /**
   * interp: the value a fraction `t` of the way along `delta`. The
   * no-interp kind returns its own value whatever `delta` and `t` are.
   */
  function Interp(a: GameValue, delta: GameValue, t: real): (r: GameValue)
    requires InterpCompatible(a, delta)
    ensures r.Vec2i? == a.Vec2i? && r.NoInterpInt? == a.NoInterpInt?
  {
    match a
    case IntVal(v) => IntVal(InterpComponent(v, delta.v, t))
    case Vec2i(x, y) => Vec2i(InterpComponent(x, delta.x, t), InterpComponent(y, delta.y, t))
    case NoInterpInt(v) => NoInterpInt(v)
  }

  /**
   * change: the receiver keeps its own kind and takes `other`'s payload.
   */
  function Changed(a: GameValue, other: GameValue): (r: GameValue)
    requires Compatible(a, other)
    ensures SameKind(r, a)
    ensures a.IsPrimitive() ==> r.v == other.v
    ensures a.Vec2i? ==> r.x == other.x && r.y == other.y
  {
    match a
    case IntVal(_) => IntVal(other.v)
    case NoInterpInt(_) => NoInterpInt(other.v)
    case Vec2i(_, _) => Vec2i(other.x, other.y)
  }

  /** sizeof(T) for a primitive, 2 * sizeof(T) for a vector. */
  function Width(a: GameValue): nat
  {
    if a.Vec2i? then 8 else 4
  }

  /** serialize: the raw bytes of the payload, `x` then `y` for a vector. */
  function Serialize(a: GameValue): (bs: seq<Byte>)
    ensures |bs| == Width(a)
  {
    match a
    case Vec2i(x, y) => EncodeInt32(x) + EncodeInt32(y)
    case _ => EncodeInt32(a.v)
  }

  /**
   * The bytes a stringstream hands to `read` calls totalling `n` bytes:
   * the available ones, then the zeros the value-initialised payload
   * already held.
   */
  function PadTo(bs: seq<Byte>, n: nat): (r: seq<Byte>)
    ensures |r| == n
    ensures |bs| >= n ==> r == bs[..n]
  {
    if |bs| >= n then bs[..n] else bs + seq(n - |bs|, _ => 0)
  }

  /**
   * deserialize: a fresh value of the receiver's class read from `bytes`.
   * The no-interp kind inherits PrimitiveValue's deserialize, so it
   * yields a plain `IntVal`.
   */
  function Deserialize(a: GameValue, bytes: seq<Byte>): (r: GameValue)
    ensures Compatible(a, r) && !r.NoInterpInt?
  {
    var bs := PadTo(bytes, Width(a));
    if a.Vec2i? then Vec2i(DecodeInt32(bs[..4]), DecodeInt32(bs[4..]))
    else IntVal(DecodeInt32(bs))
  }

  /** The CRC-32 the engine applies to payload bytes; supplied by the caller. */
  type Crc = seq<Byte> -> bv32

  /**
   * checksum: one CRC run over the payload's bytes, `x` then `y` for a
   * vector, so two values with the same payload bytes share a checksum.
   */
  function Checksum(a: GameValue, crc: Crc): (c: bv32)
    ensures a.Vec2i? ==> c == crc(EncodeInt32(a.x) + EncodeInt32(a.y))
    ensures !a.Vec2i? ==> c == crc(EncodeInt32(a.v))
  {
    crc(Serialize(a))
  }

  // ---- Vec2<int> arithmetic operators ----

  function Plus(a: GameValue, b: GameValue): (r: GameValue)
    requires a.Vec2i? && b.Vec2i?
    ensures r.Vec2i?
  {
    Vec2i(Wrap32(a.x + b.x), Wrap32(a.y + b.y))
  }

  function Minus(a: GameValue, b: GameValue): (r: GameValue)
    requires a.Vec2i? && b.Vec2i?
    ensures r.Vec2i?
  {
    Vec2i(Wrap32(a.x - b.x), Wrap32(a.y - b.y))
  }

  function Scale(a: GameValue, s: Int32): (r: GameValue)
    requires a.Vec2i?
    ensures r.Vec2i?
  {
    Vec2i(Wrap32(a.x * s), Wrap32(a.y * s))
  }

  // ---- properties ----

  /** Without overflow, get_delta is exactly `newer - a`, component-wise. */
  lemma DeltaIsDifference(a: GameValue, newer: GameValue)
    requires Compatible(a, newer)
    ensures a.IsPrimitive() && -TWO_31 <= newer.v - a.v < TWO_31 ==>
              GetDelta(a, newer) == IntVal(newer.v - a.v)
    ensures a.Vec2i? && -TWO_31 <= newer.x - a.x < TWO_31 && -TWO_31 <= newer.y - a.y < TWO_31 ==>
              GetDelta(a, newer) == Vec2i(newer.x - a.x, newer.y - a.y)
  {
  }

  /** The vector delta is the vector difference operator. */
  lemma DeltaIsMinus(a: GameValue, newer: GameValue)
    requires a.Vec2i? && newer.Vec2i?
    ensures GetDelta(a, newer) == Minus(newer, a)
  {
  }

  /** Interpolating a whole step reaches the component the delta was taken towards. */
  lemma InterpComponentAtOne(c: Int32, target: Int32)
    ensures InterpComponent(c, Wrap32(target - c), 1.0) == target
  {
    var d := Wrap32(target - c);
    assert c as real + d as real * 1.0 == (c + d) as real;
    WrapAddWrap(c, target - c);
  }

  /**
   * For interpolating kinds, `interp(get_delta(b), 1)` reproduces `b`'s
   * payload in the receiver's kind, and `b` itself when the kinds agree.
   */
  lemma InterpDeltaAtOne(a: GameValue, b: GameValue)
    requires Compatible(a, b) && !a.NoInterpInt?
    ensures InterpCompatible(a, GetDelta(a, b))
    ensures Interp(a, GetDelta(a, b), 1.0) == Changed(a, b)
    ensures SameKind(a, b) ==> Interp(a, GetDelta(a, b), 1.0) == b
  {
    match a
    case IntVal(v) =>
      InterpComponentAtOne(v, b.v);
    case Vec2i(x, y) =>
      InterpComponentAtOne(x, b.x);
      InterpComponentAtOne(y, b.y);
  }

  /** Interpolating by a fraction 0 returns the original value, whatever the delta. */
  lemma InterpAtZero(a: GameValue, delta: GameValue)
    requires InterpCompatible(a, delta)
    ensures Interp(a, delta, 0.0) == a
  {
    match a
    case IntVal(v) =>
      assert v as real + delta.v as real * 0.0 == v as real;
    case Vec2i(x, y) =>
      assert x as real + delta.x as real * 0.0 == x as real;
      assert y as real + delta.y as real * 0.0 == y as real;
    case NoInterpInt(v) =>
  }

  /** The no-interp kind snaps: it ignores both the delta and the fraction. */
  lemma NoInterpIgnoresDelta(v: Int32, delta: GameValue, t: real)
    ensures Interp(NoInterpInt(v), delta, t) == NoInterpInt(v)
  {
  }

  /**
   * An intermediate interpolation of an int stays between the start and
   * the end of the step (no overshoot), as long as the end fits in 32 bits.
   */
  lemma InterpComponentBetween(c: Int32, d: Int32, t: real)
    requires 0.0 <= t <= 1.0
    requires -TWO_31 <= c + d < TWO_31
    ensures d >= 0 ==> c <= InterpComponent(c, d, t) <= c + d
    ensures d < 0 ==> c + d <= InterpComponent(c, d, t) <= c
  {
    var m := ScaledBetween(d as real, t);
    assert InterpComponent(c, d, t) == Wrap32(TruncToZero(c as real + m));
    OffsetBetween(c, d, m);
  }

  /** The offset `d * t` lies between 0 and `d`. */
  lemma ScaledBetween(d: real, t: real) returns (m: real)
    requires 0.0 <= t <= 1.0
    ensures m == d * t
    ensures d >= 0.0 ==> 0.0 <= m <= d
    ensures d < 0.0 ==> d <= m <= 0.0
  {
    m := d * t;
    assert d - m == d * (1.0 - t);
    if d >= 0.0 {
      MulNonNegative(d, t);
      MulNonNegative(d, 1.0 - t);
    } else {
      MulNonNegative(-d, t);
      MulNonNegative(-d, 1.0 - t);
    }
  }

  lemma MulNonNegative(a: real, b: real)
    requires 0.0 <= a && 0.0 <= b
    ensures 0.0 <= a * b
  {
  }

  lemma OffsetBetween(c: Int32, d: int, m: real)
    requires d >= 0 ==> 0.0 <= m <= d as real
    requires d < 0 ==> d as real <= m <= 0.0
    requires -TWO_31 <= c + d < TWO_31
    ensures d >= 0 ==> c <= Wrap32(TruncToZero(c as real + m)) <= c + d
    ensures d < 0 ==> c + d <= Wrap32(TruncToZero(c as real + m)) <= c
  {
    var x := c as real + m;
    assert (c + d) as real == c as real + d as real;
    if d >= 0 {
      TruncBetween(x, c, c + d);
    } else {
      TruncBetween(x, c + d, c);
    }
  }

  lemma TruncBetween(x: real, lo: int, hi: int)
    requires lo as real <= x <= hi as real
    ensures lo <= TruncToZero(x) <= hi
  {
  }

  /** Truncation toward zero on the vectors of test_types: 7 at one half, 8 at 0.6, -2 for a negative half step. */
  lemma Vec2InterpTruncates()
    ensures Interp(Vec2i(5, 5), Vec2i(5, 5), 0.5) == Vec2i(7, 7)
    ensures Interp(Vec2i(5, 5), Vec2i(5, 5), 0.6) == Vec2i(8, 8)
    ensures Interp(Vec2i(0, 0), Vec2i(-5, -5), 0.5) == Vec2i(-2, -2)
  {
    assert TruncToZero(7.5) == 7;
    assert TruncToZero(8.0) == 8;
    assert TruncToZero(-2.5) == -2;
  }

  /** A value's bytes read back through a receiver of the same kind give its payload. */
  lemma DeserializeSerialize(a: GameValue)
    ensures Deserialize(a, Serialize(a)) == (if a.NoInterpInt? then IntVal(a.v) else a)
  {
    match a
    case Vec2i(x, y) =>
      var bs := Serialize(a);
      assert bs[..4] == EncodeInt32(x);
      assert bs[4..] == EncodeInt32(y);
      assert PadTo(bs, 8) == bs;
      Int32RoundTrip(x);
      Int32RoundTrip(y);
    case _ =>
      assert PadTo(Serialize(a), 4) == EncodeInt32(a.v);
      Int32RoundTrip(a.v);
  }

  /**
   * Deserializing a slot's bytes and `change`-ing the slot with the
   * result restores the value, no-interp kind included.
   */
  lemma ChangeDeserializeRoundTrip(slot: GameValue, a: GameValue)
    requires SameKind(slot, a)
    ensures Compatible(slot, Deserialize(slot, Serialize(a)))
    ensures Changed(slot, Deserialize(slot, Serialize(a))) == a
  {
    DeserializeSerialize(a);
    assert Deserialize(slot, Serialize(a)) == Deserialize(a, Serialize(a));
  }

  /** Short input is padded with zeros; surplus bytes are ignored. */
  lemma DeserializeShortAndLong(a: GameValue, bytes: seq<Byte>)
    requires !a.Vec2i?
    ensures |bytes| == 0 ==> Deserialize(a, bytes) == IntVal(0)
    ensures |bytes| >= 4 ==> Deserialize(a, bytes) == IntVal(DecodeInt32(bytes[..4]))
  {
    if |bytes| == 0 {
      assert PadTo(bytes, 4) == EncodeInt32(0);
      Int32RoundTrip(0);
    }
  }

  /** Equal payload bytes give equal checksums: an int and its no-interp twin agree. */
  lemma ChecksumByPayload(v: Int32, crc: Crc)
    ensures Checksum(IntVal(v), crc) == Checksum(NoInterpInt(v), crc)
  {
  }

  /** `+` followed by `-` of the same vector restores the original vector. */
  lemma PlusMinusCancel(a: GameValue, b: GameValue)
    requires a.Vec2i? && b.Vec2i?
    ensures Minus(Plus(a, b), b) == a
  {
    WrapAddWrap(-(b.x as int), a.x + b.x);
    WrapAddWrap(-(b.y as int), a.y + b.y);
    assert Wrap32(-(b.x as int) + Wrap32(a.x + b.x)) == a.x;
    assert Wrap32(-(b.y as int) + Wrap32(a.y + b.y)) == a.y;
  }

  /** Multiplying after wrapping is multiplying and wrapping once. */
  lemma WrapMulWrap(x: int, s: int)
    ensures Wrap32(Wrap32(x) * s) == Wrap32(x * s)
  {
    var w := Wrap32(x);
    var k := (x - w) / TWO_32;
    assert x - w == k * TWO_32;
    assert x * s - w * s == (k * s) * TWO_32 by {
      assert x * s - w * s == (x - w) * s;
    }
    var r := Wrap32(w * s);
    assert (x * s - r) % TWO_32 == 0 by {
      var j := (w * s - r) / TWO_32;
      assert w * s - r == j * TWO_32;
      assert x * s - r == (k * s + j) * TWO_32;
    }
    WrapUnique(x * s, r);
  }

  /** `v * 1` is `v`. */
  lemma ScaleByOne(a: GameValue)
    requires a.Vec2i?
    ensures Scale(a, 1) == a
  {
  }

  /** `v * 0` is the zero vector. */
  lemma ScaleByZero(a: GameValue)
    requires a.Vec2i?
    ensures Scale(a, 0) == Vec2i(0, 0)
  {
  }

  /** One component of the distributive law. */
  lemma MulDistributesWrapped(x: int, y: int, s: int)
    ensures Wrap32(Wrap32(x + y) * s) == Wrap32(Wrap32(x * s) + Wrap32(y * s))
  {
    var p, q := x * s, y * s;
    assert (x + y) * s == p + q;
    WrapMulWrap(x + y, s);
    WrapAddWrap(Wrap32(p), q);
    WrapAddWrap(q, p);
  }

  /** The scalar product distributes over `+`, under wrap-around. */
  lemma ScaleDistributes(a: GameValue, b: GameValue, s: Int32)
    requires a.Vec2i? && b.Vec2i?
    ensures Scale(Plus(a, b), s) == Plus(Scale(a, s), Scale(b, s))
  {
    var sum, sa, sb := Plus(a, b), Scale(a, s), Scale(b, s);
    assert Scale(sum, s).x == Wrap32(Wrap32(a.x + b.x) * s) by {
      assert sum.x == Wrap32(a.x + b.x);
    }
    assert Scale(sum, s).y == Wrap32(Wrap32(a.y + b.y) * s) by {
      assert sum.y == Wrap32(a.y + b.y);
    }
    MulDistributesWrapped(a.x, b.x, s);
    MulDistributesWrapped(a.y, b.y, s);
  }

  /** One component of the associative law. */
  lemma MulAssocWrapped(x: int, s: int, u: int)
    ensures Wrap32(Wrap32(x * s) * u) == Wrap32(x * Wrap32(s * u))
  {
    WrapMulWrap(x * s, u);
    WrapMulWrap(s * u, x);
    assert (x * s) * u == (s * u) * x;
    assert Wrap32(s * u) * x == x * Wrap32(s * u);
  }

  /** Scaling by `s` then by `u` is scaling by `s * u`, under wrap-around. */
  lemma ScaleCompose(a: GameValue, s: Int32, u: Int32)
    requires a.Vec2i?
    ensures Scale(Scale(a, s), u) == Scale(a, Wrap32(s * u))
  {
    var sa := Scale(a, s);
    assert sa.x == Wrap32(a.x * s) && sa.y == Wrap32(a.y * s);
    MulAssocWrapped(a.x, s, u);
    MulAssocWrapped(a.y, s, u);
  }

  /** Interpolating a vector by a whole step is the `+` operator. */
  lemma InterpVecAtOneIsPlus(a: GameValue, d: GameValue)
    requires a.Vec2i? && d.Vec2i?
    ensures Interp(a, d, 1.0) == Plus(a, d)
  {
    assert a.x as real + d.x as real * 1.0 == (a.x + d.x) as real;
    assert a.y as real + d.y as real * 1.0 == (a.y + d.y) as real;
  }

  /**
   * A value object in memory: the target of change, `+=` and `-=`,
   * which overwrite its payload in place.
   */
  class ValueSlot {
    var value: GameValue

    constructor (v: GameValue)
      ensures value == v
    {
      value := v;
    }

    /** change: copy `other`'s payload into this slot; `other` is left as it was. */
    method Change(other: ValueSlot)
      requires Compatible(value, other.value)
      modifies this
      ensures value == Changed(old(value), old(other.value))
      ensures other.value == old(other.value)
    {
      value := Changed(value, other.value);
    }

    /** operator+= on a vector. */
    method AddAssign(other: GameValue)
      requires value.Vec2i? && other.Vec2i?
      modifies this
      ensures value == Plus(old(value), other)
    {
      value := Vec2i(Wrap32(value.x + other.x), Wrap32(value.y + other.y));
    }

    /** operator-= on a vector. */
    method SubAssign(other: GameValue)
      requires value.Vec2i? && other.Vec2i?
      modifies this
      ensures value == Minus(old(value), other)
    {
      value := Vec2i(Wrap32(value.x - other.x), Wrap32(value.y - other.y));
    }
  }
}
