/**
 * The bit array: a fixed number of bits packed into a byte buffer, with
 * bounds-checked indexed access, in-place byte-wise algebra and two views
 * (a sequence of booleans and a '0'/'1' string).
 */
module BitArrays {
  import opened Packing
  import opened BitStrings

  /** The ways an operation on a bit array can fail. */
  datatype Error =
    | OutOfRange     // an index outside 0 .. size - 1
    | SizeMismatch   // a binary operator between arrays of different sizes
    | Unsupported    // removing an index

  /** The outcome of an operation that returns nothing on success. */
  datatype Status = Done | Failed(error: Error)

  /** The outcome of an operation that returns a value on success. */
  datatype Result<T> = Ok(value: T) | Err(error: Error)

  class BitArray {
    /** The number of bits; fixed for the object's lifetime. */
    const size: nat
    /** The packed bits: bit `i` is bit `i % 8` of byte `i / 8`. */
    const data: array<bv8>

    /** The buffer has exactly the bytes the bits need. */
    ghost predicate Valid()
      reads this
    {
      data.Length == ByteCount(size)
    }

    /**
     * The bits the array holds: the buffer unpacked and cut to `size`.
     * The padding bits of the last byte are never part of it.
     */
    ghost function Bits(): (v: seq<bool>)
      reads this, data
      requires Valid()
      ensures |v| == size
    {
      Unpack(data[..])[..size]
    }

    /** A zero-filled array of `n` bits. */
    constructor (n: nat)
      ensures Valid() && size == n && fresh(data)
      ensures forall j :: 0 <= j < data.Length ==> data[j] == 0
    {
      size := n;
      data := new bv8[ByteCount(n)](_ => 0);
    }

    /** A zero-filled array of `n` bits: every index reads as clear. */
    static method FromInteger(n: nat) returns (b: BitArray)
      ensures fresh(b) && fresh(b.data) && b.Valid() && b.size == n
      ensures forall j :: 0 <= j < b.data.Length ==> b.data[j] == 0
      ensures b.Bits() == Zeros(n)
    {
      b := new BitArray(n);
      forall i | 0 <= i < n
        ensures !b.Bits()[i]
      {
        UnpackAt(b.data[..], i);
      }
    }

    /**
     * An array holding `v`, packed eight values to a byte, least significant
     * bit first; a completed byte is stored at every eighth value and the
     * partial last byte, if any, after the walk.
     */
    static method FromIterable(v: seq<bool>) returns (b: BitArray)
      ensures fresh(b) && fresh(b.data) && b.Valid() && b.size == |v|
      ensures b.data[..] == Pack(v)
      ensures b.Bits() == v
    {
      b := new BitArray(|v|);
      var data := b.data;
      var offset := 0;
      var ord: bv8 := 0;
      WalkStart(data[..], v);
      while offset < |v|
        invariant Walked(data[..], v, offset, ord)
      {
        WalkStep(data[..], v, offset, ord);
        if v[offset] {
          ord := ord | Mask(offset % 8);
        }
        if offset % 8 == 7 {
          ghost var before := data[..];
          data[offset / 8] := ord;
          assert data[..] == before[offset / 8 := ord];
          ord := 0;
        }
        offset := offset + 1;
      }
      WalkEnd(data[..], v, ord);
      if offset % 8 != 0 {
        ghost var before := data[..];
        data[offset / 8] := ord;
        assert data[..] == before[offset / 8 := ord];
      }
      PackRoundTrip(v);
    }

    /**
     * An array holding the bits of the string `s`: bit `i` is set exactly
     * when `s[i]` is not '0'; packed as `FromIterable` packs.
     */
    static method FromString(s: string) returns (b: BitArray)
      ensures fresh(b) && fresh(b.data) && b.Valid() && b.size == |s|
      ensures b.data[..] == Pack(Decode(s))
      ensures b.Bits() == Decode(s)
    {
      ghost var v := Decode(s);
      b := new BitArray(|s|);
      var data := b.data;
      var ord: bv8 := 0;
      var offset := 0;
      WalkStart(data[..], v);
      while offset < b.size
        invariant Walked(data[..], v, offset, ord)
      {
        WalkStep(data[..], v, offset, ord);
        if s[offset] != '0' {
          ord := ord | Mask(offset % 8);
        }
        if offset % 8 == 7 {
          ghost var before := data[..];
          data[offset / 8] := ord;
          assert data[..] == before[offset / 8 := ord];
          ord := 0;
        }
        offset := offset + 1;
      }
      WalkEnd(data[..], v, ord);
      if offset % 8 != 0 {
        ghost var before := data[..];
        data[offset / 8] := ord;
        assert data[..] == before[offset / 8 := ord];
      }
      PackRoundTrip(v);
    }

    /** An independent copy of `source`, with a buffer of its own. */
    constructor Clone(source: BitArray)
      requires source.Valid()
      ensures Valid() && fresh(data) && size == source.size
      ensures data[..] == source.data[..] && Bits() == source.Bits()
    {
      size := source.size;
      data := new bv8[source.data.Length](j requires 0 <= j < source.data.Length reads source.data => source.data[j]);
    }

    /** Whether `i` is an index of the array. */
    predicate OffsetExists(i: int)
      reads this, data
      requires Valid()
      ensures OffsetExists(i) <==> 0 <= i < |Bits()|
      ensures OffsetExists(i) ==> i / 8 < data.Length
    {
      0 <= i && i < size
    }

    /** Bit `i`, or `OutOfRange` when `i` is not an index. */
    function OffsetGet(i: int): (r: Result<bool>)
      reads this, data
      requires Valid()
      ensures r.Ok? <==> 0 <= i < size
      ensures r.Err? ==> r.error == OutOfRange
      ensures r.Ok? ==> r.value == Bits()[i]
    {
      if OffsetExists(i) then
        UnpackAt(data[..], i);
        Ok(BitOf(data[i / 8], i % 8))
      else
        Err(OutOfRange)
    }

    /**
     * Sets bit `i` to `value`, writing only byte `i / 8`; fails with
     * `OutOfRange`, and changes nothing, when `i` is not an index.
     */
    method OffsetSet(i: int, value: bool) returns (r: Status)
      requires Valid()
      modifies data
      ensures r == if 0 <= i < size then Done else Failed(OutOfRange)
      ensures r.Failed? ==> data[..] == old(data[..])
      ensures r.Done? ==> Bits() == old(Bits())[i := value]
      ensures r.Done? ==> data[..] == old(data[..])[i / 8 := WithBit(old(data[i / 8]), i % 8, value)]
      ensures r.Done? && old(Bits())[i] == value ==> data[..] == old(data[..])
      ensures forall j :: 0 <= j < data.Length && j != i / 8 ==> data[j] == old(data[j])
    {
      if OffsetExists(i) {
        ghost var before := data[..];
        var index := i / 8;
        UnpackAt(before, i);
        if BitOf(data[index], i % 8) == value {
          WithBitSame(data[index], i % 8, value);
        }
        data[index] := WithBit(data[index], i % 8, value);
        forall k | 0 <= k < size
          ensures Bits()[k] == Unpack(before)[..size][i := value][k]
        {
          UnpackAt(data[..], k);
          UnpackAt(before, k);
          if k / 8 == index {
            WithBitBits(before[index], i % 8, value, k % 8);
          }
        }
        r := Done;
      } else {
        r := Failed(OutOfRange);
      }
    }

    /** Removing an index is refused: the set of indices is fixed. */
    method OffsetUnset(i: int) returns (r: Status)
      ensures r == Failed(Unsupported)
    {
      r := Failed(Unsupported);
    }

    /** The number of bits (not the number of set bits). */
    function Count(): (n: nat)
      reads this, data
      requires Valid()
      ensures n == |Bits()|
    {
      size
    }

    /** The bits as a sequence of booleans, index 0 first. */
    method JsonSerialize() returns (r: seq<bool>)
      requires Valid()
      ensures r == Bits()
    {
      r := [];
      var offset := 0;
      while offset < size
        invariant 0 <= offset <= size
        invariant r == Bits()[..offset]
      {
        UnpackAt(data[..], offset);
        r := r + [BitOf(data[offset / 8], offset % 8)];
        offset := offset + 1;
      }
    }

    /** The bits as a string of '0' and '1', index 0 first. */
    method ToString() returns (s: string)
      requires Valid()
      ensures s == Encode(Bits())
    {
      s := seq(size, _ => '0');
      var offset := 0;
      while offset < size
        invariant 0 <= offset <= size && |s| == size
        invariant forall k :: 0 <= k < offset ==> s[k] == BitChar(Bits()[k])
        invariant forall k :: offset <= k < size ==> s[k] == '0'
      {
        UnpackAt(data[..], offset);
        if BitOf(data[offset / 8], offset % 8) {
          s := s[offset := '1'];
        }
        offset := offset + 1;
      }
    }

    /** Complements every byte of the buffer, padding bits included. */
    method ApplyComplement()
      requires Valid()
      modifies data
      ensures data[..] == Complement(old(data[..]))
      ensures Bits() == Negate(old(Bits()))
    {
      var length := data.Length;
      for i := 0 to length
        invariant forall j :: 0 <= j < i ==> data[j] == !old(data[j])
        invariant forall j :: i <= j < length ==> data[j] == old(data[j])
      {
        data[i] := !data[i];
      }
      UnpackComplement(old(data[..]));
      PrefixNegate(Unpack(old(data[..])), size);
    }

    /**
     * Combines the buffer byte by byte with that of `other` under `op`, when
     * the sizes agree; fails with `SizeMismatch`, and changes nothing,
     * otherwise.  `other` may be this very array.
     */
    method Apply(op: BitOp, other: BitArray) returns (r: Status)
      requires Valid() && other.Valid()
      modifies data
      ensures r == if size == other.size then Done else Failed(SizeMismatch)
      ensures r.Done? ==> data[..] == Combine(op, old(data[..]), old(other.data[..]))
      ensures r.Done? ==> Bits() == Pointwise(op, old(Bits()), old(other.Bits()))
      ensures r.Failed? ==> data[..] == old(data[..])
      ensures other.data != data ==> other.data[..] == old(other.data[..])
    {
      if size == other.size {
        var length := data.Length;
        for i := 0 to length
          invariant forall j :: 0 <= j < i ==> data[j] == ByteOp(op, old(data[j]), old(other.data[j]))
          invariant forall j :: i <= j < length ==> data[j] == old(data[j]) && other.data[j] == old(other.data[j])
        {
          data[i] := ByteOp(op, data[i], other.data[i]);
        }
        UnpackCombine(op, old(data[..]), old(other.data[..]));
        PrefixPointwise(op, Unpack(old(data[..])), Unpack(old(other.data[..])), size);
        r := Done;
      } else {
        r := Failed(SizeMismatch);
      }
    }

    /** Byte-wise OR with `other`; see `Apply`. */
    method ApplyOr(other: BitArray) returns (r: Status)
      requires Valid() && other.Valid()
      modifies data
      ensures r == if size == other.size then Done else Failed(SizeMismatch)
      ensures r.Done? ==> data[..] == Combine(Or, old(data[..]), old(other.data[..]))
      ensures r.Done? ==> Bits() == Pointwise(Or, old(Bits()), old(other.Bits()))
      ensures r.Failed? ==> data[..] == old(data[..])
      ensures other.data != data ==> other.data[..] == old(other.data[..])
    {
      r := Apply(Or, other);
    }

    /** Byte-wise AND with `other`; see `Apply`. */
    method ApplyAnd(other: BitArray) returns (r: Status)
      requires Valid() && other.Valid()
      modifies data
      ensures r == if size == other.size then Done else Failed(SizeMismatch)
      ensures r.Done? ==> data[..] == Combine(And, old(data[..]), old(other.data[..]))
      ensures r.Done? ==> Bits() == Pointwise(And, old(Bits()), old(other.Bits()))
      ensures r.Failed? ==> data[..] == old(data[..])
      ensures other.data != data ==> other.data[..] == old(other.data[..])
    {
      r := Apply(And, other);
    }

    /** Byte-wise XOR with `other`; see `Apply`. */
    method ApplyXor(other: BitArray) returns (r: Status)
      requires Valid() && other.Valid()
      modifies data
      ensures r == if size == other.size then Done else Failed(SizeMismatch)
      ensures r.Done? ==> data[..] == Combine(Xor, old(data[..]), old(other.data[..]))
      ensures r.Done? ==> Bits() == Pointwise(Xor, old(Bits()), old(other.Bits()))
      ensures r.Failed? ==> data[..] == old(data[..])
      ensures other.data != data ==> other.data[..] == old(other.data[..])
    {
      r := Apply(Xor, other);
    }
  }
}
