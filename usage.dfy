/**
 * What callers of the bit array can rely on, proved from the contracts of
 * `BitArrays.BitArray` alone: the two round trips, a fresh array, the
 * algebra laws on live objects, and the sequence of calls in the usage
 * script of the repository.
 */
module Usage {
  import opened Packing
  import opened BitStrings
  import opened BitArrays

  /** The string form of an array built from `s` is `s` with every non-'0' read as '1'. */
  method StringRoundTrip(s: string) returns (t: string)
    ensures t == Normalize(s)
  {
    var bits := BitArray.FromString(s);
    t := bits.ToString();
    EncodeDecode(s);
  }

  /** The boolean view of an array built from `v` is `v`, and its count is `|v|`. */
  method SequenceRoundTrip(v: seq<bool>) returns (w: seq<bool>, n: nat)
    ensures w == v && n == |v|
  {
    var bits := BitArray.FromIterable(v);
    w := bits.JsonSerialize();
    n := bits.Count();
  }

  /** A fresh array of `n` bits reads clear at every index and fails outside them. */
  method FreshRead(n: nat, i: int) returns (r: Result<bool>)
    ensures r == if 0 <= i < n then Ok(false) else Err(OutOfRange)
  {
    var bits := BitArray.FromInteger(n);
    r := bits.OffsetGet(i);
  }

  /** Setting a bit twice to the same value changes nothing the second time. */
  method SetTwice(bits: BitArray, i: int, value: bool) returns (r: Status)
    requires bits.Valid()
    modifies bits.data
    ensures r == if 0 <= i < bits.size then Done else Failed(OutOfRange)
    ensures r.Done? ==> bits.Bits() == old(bits.Bits())[i := value]
    ensures r.Failed? ==> bits.data[..] == old(bits.data[..])
  {
    r := bits.OffsetSet(i, value);
    ghost var once := bits.data[..];
    var again := bits.OffsetSet(i, value);
    assert again == r;
    assert bits.data[..] == once;
  }

  /** The string form is over '0' and '1' and reads back as the bits it was made from. */
  method StringForm(bits: BitArray) returns (s: string)
    requires bits.Valid()
    ensures |s| == bits.size
    ensures forall i :: 0 <= i < |s| ==> s[i] == '0' || s[i] == '1'
    ensures Decode(s) == bits.Bits()
  {
    s := bits.ToString();
    forall i | 0 <= i < |s|
      ensures s[i] == '0' || s[i] == '1'
    {
      EncodeAlphabet(bits.Bits(), i);
    }
    DecodeEncode(bits.Bits());
  }

  /** A string over '0' and '1' survives the trip through a bit array unchanged. */
  method BitStringRoundTrip(s: string) returns (t: string)
    requires forall i :: 0 <= i < |s| ==> s[i] == '0' || s[i] == '1'
    ensures t == s
  {
    t := StringRoundTrip(s);
    NormalizeBitString(s);
  }

  /** A second set of the same index overrides the first: the buffer is as after the second alone. */
  method SetOverwrites(bits: BitArray, i: int, first: bool, second: bool) returns (r: Status)
    requires bits.Valid()
    modifies bits.data
    ensures r == if 0 <= i < bits.size then Done else Failed(OutOfRange)
    ensures r.Done? ==> bits.data[..] == old(bits.data[..])[i / 8 := WithBit(old(bits.data[i / 8]), i % 8, second)]
    ensures r.Failed? ==> bits.data[..] == old(bits.data[..])
  {
    r := bits.OffsetSet(i, first);
    var again := bits.OffsetSet(i, second);
    if r.Done? {
      WithBitTwice(old(bits.data[i / 8]), i % 8, first, second);
    }
  }

  /** After a set, the index reads the new value and every other index reads as before. */
  method SetThenGet(bits: BitArray, i: int, value: bool, k: int) returns (r: Result<bool>)
    requires bits.Valid()
    modifies bits.data
    ensures r == if 0 <= k < bits.size && k != i then old(bits.OffsetGet(k))
                 else if 0 <= k < bits.size then Ok(value) else Err(OutOfRange)
  {
    var status := bits.OffsetSet(i, value);
    r := bits.OffsetGet(k);
  }

  /** Complementing twice restores every bit, and the whole buffer, padding bits included. */
  method ComplementTwice(bits: BitArray)
    requires bits.Valid()
    modifies bits.data
    ensures bits.Bits() == old(bits.Bits())
    ensures bits.data[..] == old(bits.data[..])
  {
    bits.ApplyComplement();
    bits.ApplyComplement();
    NegateTwice(old(bits.Bits()));
    Packing.ComplementTwice(old(bits.data[..]));
  }

  /** XOR with the same array twice restores the whole buffer. */
  method XorTwice(bits: BitArray, other: BitArray) returns (r: Status)
    requires bits.Valid() && other.Valid() && bits.data != other.data
    modifies bits.data
    ensures r == if bits.size == other.size then Done else Failed(SizeMismatch)
    ensures bits.Bits() == old(bits.Bits())
    ensures bits.data[..] == old(bits.data[..])
  {
    r := bits.ApplyXor(other);
    if r.Done? {
      var again := bits.ApplyXor(other);
      PointwiseXorTwice(old(bits.Bits()), other.Bits());
      CombineXorTwice(old(bits.data[..]), other.data[..]);
    }
  }

  /** AND and OR of an array with itself leave it as it is. */
  method CombineWithItself(bits: BitArray)
    requires bits.Valid()
    modifies bits.data
    ensures bits.Bits() == old(bits.Bits())
    ensures bits.data[..] == old(bits.data[..])
  {
    var r := bits.ApplyAnd(bits);
    PointwiseSelf(And, old(bits.Bits()));
    CombineSelf(And, old(bits.data[..]));
    r := bits.ApplyOr(bits);
    PointwiseSelf(Or, old(bits.Bits()));
    CombineSelf(Or, old(bits.data[..]));
  }

  /** AND and OR with an independent copy leave the array as it is. */
  method CombineWithCopy(bits: BitArray)
    requires bits.Valid()
    modifies bits.data
    ensures bits.data[..] == old(bits.data[..])
  {
    var copy := new BitArray.Clone(bits);
    var r := bits.ApplyAnd(copy);
    CombineSelf(And, old(bits.data[..]));
    r := bits.ApplyOr(copy);
    CombineSelf(Or, old(bits.data[..]));
  }

  /** The values the usage script passes through, worked out on the specification functions. */
  lemma WalkthroughValues()
    ensures Decode("10010") == [true, false, false, true, false]
    ensures Negate([true, false, false, true, false]) == [false, true, true, false, true]
    ensures Pointwise(Xor, [false, true, true, false, true], [true, false, false, false, true])
      == [true, true, true, false, false]
    ensures [true, true, true, false, false][4 := true] == [true, true, true, false, true]
    ensures Encode([true, false, false, true, false]) == "10010"
    ensures Encode([false, true, true, false, true]) == "01101"
    ensures Encode([true, true, true, false, false]) == "11100"
    ensures Encode([true, true, true, false, true]) == "11101"
  {
  }

  /**
   * The usage script: "10010", complemented to "01101", XOR-ed with
   * [true, false, false, false, true] to "11100", bit 4 set to "11101",
   * whose boolean view is [true, true, true, false, true].
   */
  method Walkthrough() returns (s1: string, s2: string, s3: string, s4: string, view: seq<bool>)
    ensures s1 == "10010" && s2 == "01101" && s3 == "11100" && s4 == "11101"
    ensures view == [true, true, true, false, true]
  {
    WalkthroughValues();
    var bits := BitArray.FromString("10010");
    s1 := bits.ToString();
    bits.ApplyComplement();
    s2 := bits.ToString();
    var mask := BitArray.FromIterable([true, false, false, false, true]);
    var r := bits.ApplyXor(mask);
    s3 := bits.ToString();
    r := bits.OffsetSet(4, true);
    s4 := bits.ToString();
    view := bits.JsonSerialize();
  }
}
