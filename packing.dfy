/**
 * The packed representation behind a bit array: a buffer of bytes in which
 * bit `i` is bit `i % 8` of byte `i / 8`, least significant bit first.
 *
 * Bytes are `bv8`.  The source keeps its buffer in a PHP string and goes
 * through `ord`/`chr`, which map a character to 0..255 and back modulo 256;
 * on `bv8` the same byte-wise `|`, `&`, `^` and `~` need no reduction.
 */
module Packing {

  /** The number of bytes that hold `n` bits: the least `c` with `8 * c >= n`. */
  function ByteCount(n: nat): (c: nat)
    ensures n <= 8 * c < n + 8
  {
    (n + 7) / 8
  }

  /**
   * The one-bit mask `1 << k`, written out byte by byte so that the proofs
   * need no conversion from integers to bit-vectors; `MaskIsShift` shows it
   * is the shift.
   */
  function Mask(k: nat): (m: bv8)
    requires k < 8
  {
    match k
    case 0 => 0x01
    case 1 => 0x02
    case 2 => 0x04
    case 3 => 0x08
    case 4 => 0x10
    case 5 => 0x20
    case 6 => 0x40
    case _ => 0x80
  }

  lemma MaskIsShift(k: nat)
    requires k < 8
    ensures Mask(k) == 1 << k
  {
  }

  /** Bit `k` of byte `b`, counting from the least significant bit. */
  function BitOf(b: bv8, k: nat): (on: bool)
    requires k < 8
  {
    (b & Mask(k)) != 0
  }

  /** Two bytes are equal exactly when they agree on all eight bits. */
  lemma ByteExtensionality(a: bv8, b: bv8)
    requires forall k :: 0 <= k < 8 ==> BitOf(a, k) == BitOf(b, k)
    ensures a == b
  {
    assert BitOf(a, 0) == BitOf(b, 0) && BitOf(a, 1) == BitOf(b, 1);
    assert BitOf(a, 2) == BitOf(b, 2) && BitOf(a, 3) == BitOf(b, 3);
    assert BitOf(a, 4) == BitOf(b, 4) && BitOf(a, 5) == BitOf(b, 5);
    assert BitOf(a, 6) == BitOf(b, 6) && BitOf(a, 7) == BitOf(b, 7);
  }

  /** `m` has exactly one bit set. */
  ghost predicate IsOneBit(m: bv8)
  {
    m == 1 || m == 2 || m == 4 || m == 8 || m == 16 || m == 32 || m == 64 || m == 128
  }

  /** Every mask has exactly one bit set, and different bits have different masks. */
  lemma MaskOneBit(k: nat)
    requires k < 8
    ensures IsOneBit(Mask(k))
  {
  }

  lemma MaskInjective(n: nat, k: nat)
    requires n < 8 && k < 8
    ensures (Mask(n) == Mask(k)) == (n == k)
  {
  }

  /** Each bit of an OR, AND, XOR or complement depends on that bit alone. */
  lemma OrBit(x: bv8, y: bv8, k: nat)
    requires k < 8
    ensures BitOf(x | y, k) == (BitOf(x, k) || BitOf(y, k))
  {
    var m := Mask(k);
    assert (x | y) & m == (x & m) | (y & m);
    MaskOneBit(k);
  }

  lemma AndBit(x: bv8, y: bv8, k: nat)
    requires k < 8
    ensures BitOf(x & y, k) == (BitOf(x, k) && BitOf(y, k))
  {
    var m := Mask(k);
    assert (x & y) & m == (x & m) & (y & m);
    MaskOneBit(k);
  }

  lemma XorBit(x: bv8, y: bv8, k: nat)
    requires k < 8
    ensures BitOf(x ^ y, k) == (BitOf(x, k) != BitOf(y, k))
  {
    var m := Mask(k);
    assert (x ^ y) & m == (x & m) ^ (y & m);
    MaskOneBit(k);
  }

  lemma NotBit(x: bv8, k: nat)
    requires k < 8
    ensures BitOf(!x, k) == !BitOf(x, k)
  {
    var m := Mask(k);
    assert !x & m == (x & m) ^ m;
    MaskOneBit(k);
  }

  /** Setting or clearing the bit of one one-bit mask, read through another. */
  lemma SetClearOneBit(b: bv8, m: bv8, mj: bv8)
    requires IsOneBit(m) && IsOneBit(mj)
    ensures ((b | m) & mj != 0) == (m == mj || b & mj != 0)
    ensures ((b & !m) & mj != 0) == (m != mj && b & mj != 0)
  {
  }

  /**
   * Byte `b` with bit `k` set to `value`: an OR with the one-bit mask to set,
   * an AND with the mask's complement to clear.
   */
  function WithBit(b: bv8, k: nat, value: bool): (c: bv8)
    requires k < 8
  {
    if value then b | Mask(k) else b & !Mask(k)
  }

  /** `WithBit` makes bit `k` read `value` and leaves the other seven bits alone. */
  lemma WithBitBits(b: bv8, k: nat, value: bool, j: nat)
    requires k < 8 && j < 8
    ensures BitOf(WithBit(b, k, value), j) == if j == k then value else BitOf(b, j)
  {
    MaskOneBit(k);
    MaskOneBit(j);
    MaskInjective(k, j);
    SetClearOneBit(b, Mask(k), Mask(j));
  }

  /** Writing the value a bit already has leaves the byte as it is. */
  lemma WithBitSame(b: bv8, k: nat, value: bool)
    requires k < 8 && BitOf(b, k) == value
    ensures WithBit(b, k, value) == b
  {
    forall j | 0 <= j < 8
      ensures BitOf(WithBit(b, k, value), j) == BitOf(b, j)
    {
      WithBitBits(b, k, value, j);
    }
    ByteExtensionality(WithBit(b, k, value), b);
  }

  /** A second write of bit `k` overrides the first: only the last value is kept. */
  lemma WithBitTwice(b: bv8, k: nat, first: bool, second: bool)
    requires k < 8
    ensures WithBit(WithBit(b, k, first), k, second) == WithBit(b, k, second)
  {
    forall j | 0 <= j < 8
      ensures BitOf(WithBit(WithBit(b, k, first), k, second), j) == BitOf(WithBit(b, k, second), j)
    {
      WithBitBits(WithBit(b, k, first), k, second, j);
      WithBitBits(b, k, first, j);
      WithBitBits(b, k, second, j);
    }
    ByteExtensionality(WithBit(WithBit(b, k, first), k, second), WithBit(b, k, second));
  }

  // ---------------------------------------------------------------------
  // Unpacking: the reference reading of a buffer as a sequence of bits
  // ---------------------------------------------------------------------

  /** The eight bits of one byte, least significant first. */
  function UnpackByte(b: bv8): (r: seq<bool>)
    ensures |r| == 8
  {
    seq(8, k requires 0 <= k < 8 => BitOf(b, k))
  }

  /** All bits of a buffer, byte after byte, each byte least significant bit first. */
  function Unpack(d: seq<bv8>): (r: seq<bool>)
    ensures |r| == 8 * |d|
  {
    if d == [] then [] else UnpackByte(d[0]) + Unpack(d[1..])
  }

  /** Bit `i` of the unpacked buffer is bit `i % 8` of byte `i / 8`. */
  lemma {:induction false} UnpackAt(d: seq<bv8>, i: nat)
    requires i < 8 * |d|
    ensures Unpack(d)[i] == BitOf(d[i / 8], i % 8)
  {
    if i < 8 {
      assert Unpack(d)[i] == UnpackByte(d[0])[i];
    } else {
      UnpackAt(d[1..], i - 8);
      assert (i - 8) / 8 == i / 8 - 1 && (i - 8) % 8 == i % 8;
      assert Unpack(d)[i] == Unpack(d[1..])[i - 8];
    }
  }

  // ---------------------------------------------------------------------
  // Packing: the reference layout the constructors produce
  // ---------------------------------------------------------------------

  /**
   * The byte whose low `|w|` bits are `w`, least significant first, with
   * every higher bit clear; built by OR-ing in one bit at a time.
   */
  function PackByte(w: seq<bool>): (b: bv8)
    requires |w| <= 8
    decreases |w|
  {
    if w == [] then 0
    else PackByte(w[..|w| - 1]) | (if w[|w| - 1] then Mask(|w| - 1) else 0)
  }

  /** Bit `k` of `PackByte(w)` is `w[k]`, and every bit past `w` is clear. */
  lemma {:induction false} PackByteBits(w: seq<bool>, k: nat)
    requires |w| <= 8 && k < 8
    ensures BitOf(PackByte(w), k) == (k < |w| && w[k])
    decreases |w|
  {
    if w != [] {
      var n := |w| - 1;
      PackByteBits(w[..n], k);
      PackByteLast(w);
      WithBitBits(PackByte(w[..n]), n, true, k);
    }
  }

  /** The last value of `w` sets its bit of `PackByte(w)` or leaves the byte alone. */
  lemma PackByteLast(w: seq<bool>)
    requires 0 < |w| <= 8
    ensures PackByte(w) ==
      if w[|w| - 1] then WithBit(PackByte(w[..|w| - 1]), |w| - 1, true) else PackByte(w[..|w| - 1])
  {
    assert PackByte(w[..|w| - 1]) | 0 == PackByte(w[..|w| - 1]);
  }

  /** Bits `8 * j .. 8 * j + 8` of `v`, cut short at the end of `v`. */
  function Chunk(v: seq<bool>, j: nat): (w: seq<bool>)
    requires j < ByteCount(|v|)
    ensures |w| <= 8 && (8 * j + 8 <= |v| ==> |w| == 8)
  {
    if 8 * j + 8 <= |v| then v[8 * j .. 8 * j + 8] else v[8 * j ..]
  }

  /**
   * The packed buffer of `v`: eight values to a byte, least significant bit
   * first, one partial last byte for the remainder.
   */
  function Pack(v: seq<bool>): (d: seq<bv8>)
    ensures |d| == ByteCount(|v|)
  {
    seq(ByteCount(|v|), j requires 0 <= j < ByteCount(|v|) => PackByte(Chunk(v, j)))
  }

  /**
   * One step of the packing walk: the accumulator for the values since the
   * last byte boundary, with the value at `offset` OR-ed in, is the packed
   * byte of one more value, and at the eighth value of a byte it is that
   * byte of `Pack(v)`.
   */
  lemma PackStep(v: seq<bool>, offset: nat, ord: bv8)
    requires offset < |v| && ord == PackByte(v[8 * (offset / 8) .. offset])
    ensures var next := if v[offset] then ord | Mask(offset % 8) else ord;
      next == PackByte(v[8 * (offset / 8) .. offset + 1])
  {
    var start := 8 * (offset / 8);
    assert offset - start == offset % 8;
    var w := v[start .. offset];
    assert v[start .. offset + 1] == w + [v[offset]];
    PackByteSnoc(w, v[offset]);
  }

  /** Packing one more value ORs in its bit, or leaves the byte alone for a clear value. */
  lemma PackByteSnoc(w: seq<bool>, b: bool)
    requires |w| < 8
    ensures PackByte(w + [b]) == if b then PackByte(w) | Mask(|w|) else PackByte(w)
  {
    assert (w + [b])[..|w|] == w;
    if !b {
      assert PackByte(w) | 0 == PackByte(w);
    }
  }

  /** Where the walk crosses a byte boundary, and where it does not. */
  lemma StepBoundary(v: seq<bool>, offset: nat)
    requires offset < |v|
    ensures offset % 8 == 7 ==>
      (offset + 1) / 8 == offset / 8 + 1 &&
      v[8 * (offset / 8) .. offset + 1] == Chunk(v, offset / 8) &&
      v[8 * ((offset + 1) / 8) .. offset + 1] == []
    ensures offset % 8 != 7 ==> (offset + 1) / 8 == offset / 8
  {
  }

  /** A count of bits splits into whole bytes and at most one partial byte. */
  lemma ByteCountSplit(n: nat)
    ensures ByteCount(n) == n / 8 + (if n % 8 == 0 then 0 else 1)
  {
  }

  /**
   * The state of the packing walk before the value at `offset`: the bytes
   * completed so far are those of `Pack(v)`, and the accumulator `ord` holds
   * the values since the last byte boundary.
   */
  ghost predicate Walked(d: seq<bv8>, v: seq<bool>, offset: nat, ord: bv8)
  {
    offset <= |v| && |d| == ByteCount(|v|) &&
    (forall j :: 0 <= j < offset / 8 ==> d[j] == PackByte(Chunk(v, j))) &&
    ord == PackByte(v[8 * (offset / 8) .. offset])
  }

  /** The walk starts with nothing completed and an empty accumulator. */
  lemma WalkStart(d: seq<bv8>, v: seq<bool>)
    requires |d| == ByteCount(|v|)
    ensures Walked(d, v, 0, 0)
  {
  }

  /**
   * One value of the walk: OR its bit into the accumulator; at the eighth
   * value of a byte, store the accumulator and clear it.
   */
  lemma WalkStep(d: seq<bv8>, v: seq<bool>, offset: nat, ord: bv8)
    requires Walked(d, v, offset, ord) && offset < |v|
    ensures var next := if v[offset] then ord | Mask(offset % 8) else ord;
      if offset % 8 == 7 then Walked(d[offset / 8 := next], v, offset + 1, 0)
      else Walked(d, v, offset + 1, next)
  {
    PackStep(v, offset, ord);
    StepBoundary(v, offset);
    var next := if v[offset] then ord | Mask(offset % 8) else ord;
    if offset % 8 == 7 {
      var e := d[offset / 8 := next];
      forall j | 0 <= j < (offset + 1) / 8
        ensures e[j] == PackByte(Chunk(v, j))
      {
      }
    }
  }

  /** Storing the partial last byte, if any, completes `Pack(v)`. */
  lemma WalkEnd(d: seq<bv8>, v: seq<bool>, ord: bv8)
    requires Walked(d, v, |v|, ord)
    ensures |v| % 8 != 0 ==> |v| / 8 < |d| && d[|v| / 8 := ord] == Pack(v)
    ensures |v| % 8 == 0 ==> d == Pack(v)
  {
    ByteCountSplit(|v|);
    var e := if |v| % 8 != 0 then d[|v| / 8 := ord] else d;
    if |v| % 8 != 0 {
      assert v[8 * (|v| / 8) .. |v|] == Chunk(v, |v| / 8);
    }
    forall j | 0 <= j < |d|
      ensures e[j] == Pack(v)[j]
    {
    }
  }

  /** `n` clear bits. */
  function Zeros(n: nat): (r: seq<bool>)
    ensures |r| == n && forall k :: 0 <= k < n ==> !r[k]
  {
    seq(n, _ => false)
  }

  /**
   * Unpacking a packed sequence gives it back, followed by the clear padding
   * bits that fill its last byte.
   */
  lemma UnpackPack(v: seq<bool>)
    ensures Unpack(Pack(v)) == v + Zeros(8 * ByteCount(|v|) - |v|)
  {
    var d := Pack(v);
    var r := v + Zeros(8 * ByteCount(|v|) - |v|);
    forall i | 0 <= i < 8 * |d|
      ensures Unpack(d)[i] == r[i]
    {
      UnpackAt(d, i);
      ChunkAt(v, i);
      PackByteBits(Chunk(v, i / 8), i % 8);
    }
  }

  /** Value `i` of `v` is value `i % 8` of chunk `i / 8`. */
  lemma ChunkAt(v: seq<bool>, i: nat)
    requires i < 8 * ByteCount(|v|)
    ensures i / 8 < ByteCount(|v|)
    ensures (i % 8 < |Chunk(v, i / 8)|) == (i < |v|)
    ensures i < |v| ==> Chunk(v, i / 8)[i % 8] == v[i]
  {
    assert i == 8 * (i / 8) + i % 8;
  }

  /** The round trip the constructors rely on: the first `|v|` bits of `Pack(v)` are `v`. */
  lemma PackRoundTrip(v: seq<bool>)
    ensures Unpack(Pack(v))[..|v|] == v
  {
    UnpackPack(v);
    assert (v + Zeros(8 * ByteCount(|v|) - |v|))[..|v|] == v;
  }

  // ---------------------------------------------------------------------
  // Byte-wise algebra on buffers, and what it does to the bits
  // ---------------------------------------------------------------------

  /** The three binary operators the bit array applies byte by byte. */
  datatype BitOp = Or | And | Xor

  /** The operator on one byte. */
  function ByteOp(op: BitOp, x: bv8, y: bv8): (z: bv8)
  {
    match op
    case Or => x | y
    case And => x & y
    case Xor => x ^ y
  }

  /** The operator on one bit. */
  function BoolOp(op: BitOp, x: bool, y: bool): (z: bool)
  {
    match op
    case Or => x || y
    case And => x && y
    case Xor => x != y
  }

  /** The byte operator acts on each bit separately, as the bit operator. */
  lemma ByteOpBits(op: BitOp, x: bv8, y: bv8, k: nat)
    requires k < 8
    ensures BitOf(ByteOp(op, x, y), k) == BoolOp(op, BitOf(x, k), BitOf(y, k))
  {
    match op
    case Or => OrBit(x, y, k);
    case And => AndBit(x, y, k);
    case Xor => XorBit(x, y, k);
  }

  /** Every byte complemented. */
  function Complement(d: seq<bv8>): (r: seq<bv8>)
    ensures |r| == |d|
  {
    seq(|d|, j requires 0 <= j < |d| => !d[j])
  }

  /** Two equally long buffers combined byte by byte. */
  function Combine(op: BitOp, a: seq<bv8>, b: seq<bv8>): (r: seq<bv8>)
    requires |a| == |b|
    ensures |r| == |a|
  {
    seq(|a|, j requires 0 <= j < |a| => ByteOp(op, a[j], b[j]))
  }

  /** Every bit negated. */
  function Negate(v: seq<bool>): (r: seq<bool>)
    ensures |r| == |v|
  {
    seq(|v|, i requires 0 <= i < |v| => !v[i])
  }

  /** Two equally long bit sequences combined bit by bit. */
  function Pointwise(op: BitOp, x: seq<bool>, y: seq<bool>): (r: seq<bool>)
    requires |x| == |y|
    ensures |r| == |x|
  {
    seq(|x|, i requires 0 <= i < |x| => BoolOp(op, x[i], y[i]))
  }

  /** Complementing every byte negates every bit, padding included. */
  lemma UnpackComplement(d: seq<bv8>)
    ensures Unpack(Complement(d)) == Negate(Unpack(d))
  {
    forall i | 0 <= i < 8 * |d|
      ensures Unpack(Complement(d))[i] == Negate(Unpack(d))[i]
    {
      UnpackAt(d, i);
      UnpackAt(Complement(d), i);
      NotBit(d[i / 8], i % 8);
    }
  }

  /** Combining byte by byte combines bit by bit, padding included. */
  lemma UnpackCombine(op: BitOp, a: seq<bv8>, b: seq<bv8>)
    requires |a| == |b|
    ensures Unpack(Combine(op, a, b)) == Pointwise(op, Unpack(a), Unpack(b))
  {
    forall i | 0 <= i < 8 * |a|
      ensures Unpack(Combine(op, a, b))[i] == Pointwise(op, Unpack(a), Unpack(b))[i]
    {
      UnpackAt(a, i);
      UnpackAt(b, i);
      UnpackAt(Combine(op, a, b), i);
      ByteOpBits(op, a[i / 8], b[i / 8], i % 8);
    }
  }

  /** Negation and combination commute with cutting a prefix. */
  lemma PrefixNegate(v: seq<bool>, n: nat)
    requires n <= |v|
    ensures Negate(v)[..n] == Negate(v[..n])
  {
  }

  lemma PrefixPointwise(op: BitOp, x: seq<bool>, y: seq<bool>, n: nat)
    requires |x| == |y| && n <= |x|
    ensures Pointwise(op, x, y)[..n] == Pointwise(op, x[..n], y[..n])
  {
  }

  // ---------------------------------------------------------------------
  // Algebra laws
  // ---------------------------------------------------------------------

  /** Complementing twice restores the whole buffer. */
  lemma ComplementTwice(d: seq<bv8>)
    ensures Complement(Complement(d)) == d
  {
  }

  /** XOR with the same buffer twice restores the whole buffer. */
  lemma CombineXorTwice(a: seq<bv8>, b: seq<bv8>)
    requires |a| == |b|
    ensures Combine(Xor, Combine(Xor, a, b), b) == a
  {
  }

  /** AND and OR of a buffer with itself leave it as it is. */
  lemma CombineSelf(op: BitOp, a: seq<bv8>)
    requires op != Xor
    ensures Combine(op, a, a) == a
  {
  }

  /** Negating twice restores every bit. */
  lemma NegateTwice(v: seq<bool>)
    ensures Negate(Negate(v)) == v
  {
  }

  /** XOR with the same bits twice restores every bit. */
  lemma PointwiseXorTwice(x: seq<bool>, y: seq<bool>)
    requires |x| == |y|
    ensures Pointwise(Xor, Pointwise(Xor, x, y), y) == x
  {
  }

  /** AND and OR of bits with themselves leave them as they are. */
  lemma PointwiseSelf(op: BitOp, x: seq<bool>)
    requires op != Xor
    ensures Pointwise(op, x, x) == x
  {
  }
}
