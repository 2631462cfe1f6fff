# BitArray in Dafny

A model of the packed bit array `chdemko\BitArray\BitArray` of php-bitarray.
An array holds a fixed number of bits, `size`, in a byte buffer of
`ceil(size / 8)` bytes. Bit `i` is bit `i % 8` (least significant first) of
byte `i / 8`. The model is a Dafny class with `const size: nat` and
`const data: array<bv8>`. The ghost function `Bits()` unpacks the buffer and
cuts it to `size` bits, and every method's contract is stated against it.
The padding bits of the last byte are not part of `Bits()`. The packing
constructors leave them clear, and the bulk operators overwrite them.

Modules:

- `Packing` holds the pure representation. It has the one-bit masks and
  `BitOf`, and the reference `Unpack` (bytes to bits) and `Pack` (bits to
  bytes). It also has the invariant `Walked` of the two packing walks, the
  byte-wise `Complement` and `Combine` with their bit-level counterparts
  `Negate` and `Pointwise`, and the algebra laws.
- `BitStrings` holds the `'0'`/`'1'` text form: `Encode`, the lenient
  `Decode` (every character other than `'0'` is a set bit) and `Normalize`.
- `BitArrays` holds the class `BitArray`, its errors and its result types.
- `Usage` holds client methods: the two round trips, the algebra laws on
  live objects, and the calls of the repository's usage script.

PHP's `ord`/`chr` map a byte of the string buffer to 0..255 and back modulo
256. The model uses `bv8` directly, so `|`, `&`, `^` and `~` need no
reduction. The one-bit mask `1 << k` is written out as a table (`Mask`), and
`MaskIsShift` proves that it equals the shift. Exceptions become results:
`Status` (`Done` or `Failed(error)`) for operations that return nothing, and
`Result<T>` for `offsetGet`.

## Model

| member | source | states |
|---|---|---|
| BitArrays.BitArray.constructor | src/BitArray/BitArray.php:47-51 | A new array has the size it was asked for, a fresh buffer of exactly `ceil(n / 8)` bytes, and every byte 0. |
| BitArrays.BitArray.FromInteger | src/BitArray/BitArray.php:62-65 | Gives a fresh zero-filled array of `n` bits whose bits are all clear (`Bits() == Zeros(n)`). |
| BitArrays.BitArray.FromIterable | src/BitArray/BitArray.php:76-104 | The loop of the packing walk produces `Pack(v)`. That buffer has one byte per eight values, least significant bit first, with the partial last byte flushed at the end. Its bits are `v` and its size is `|v|`. |
| BitArrays.BitArray.FromString | src/BitArray/BitArray.php:115-140 | The same walk over a string: the buffer is `Pack(Decode(s))`. Bit `i` is set exactly when `s[i]` is not `'0'`, and the size is `|s|`. |
| BitArrays.BitArray.Clone | src/BitArray/BitArray.php:163-166 | A copy has a fresh buffer of its own, with the same bytes, size and bits as the source. |
| BitArrays.BitArray.OffsetExists | src/BitArray/BitArray.php:177-180 | Holds exactly when `0 <= i < size`. The byte such an index lives in is inside the buffer. |
| BitArrays.BitArray.OffsetGet | src/BitArray/BitArray.php:193-203 | Succeeds exactly on the indices and then returns `Bits()[i]`; otherwise fails with `OutOfRange`. |
| BitArrays.BitArray.OffsetSet | src/BitArray/BitArray.php:217-236 | Succeeds exactly on the indices, and the new bits are the old ones with bit `i` replaced by `value`. Only byte `i / 8` is written, and it becomes `WithBit` of its old value: an OR with the mask to set, an AND with the mask's complement to clear, so its other bits, padding included, stay. Setting a bit to the value it already has leaves the buffer unchanged. Out of range, it fails with `OutOfRange` and changes nothing. |
| BitArrays.BitArray.OffsetUnset | src/BitArray/BitArray.php:249-252 | Always fails with `Unsupported`. |
| BitArrays.BitArray.Count | src/BitArray/BitArray.php:261-264 | Is the number of bits, `|Bits()|`. |
| BitArrays.BitArray.JsonSerialize | src/BitArray/BitArray.php:273-283 | The loop builds exactly `Bits()`, index 0 first. |
| BitArrays.BitArray.ToString | src/BitArray/BitArray.php:292-305 | The loop builds exactly `Encode(Bits())`: a `'0'`/`'1'` string with one character per bit. |
| BitArrays.BitArray.ApplyComplement | src/BitArray/BitArray.php:326-336 | The buffer becomes `Complement` of the old buffer, padding included, and every observable bit is negated. |
| BitArrays.BitArray.Apply | src/BitArray/BitArray.php:349-426 | The shared body of the three binary operators. With equal sizes, the buffer becomes the byte-wise combination with the argument's old buffer, and every bit is the operator applied to the two old bits. The argument is unchanged unless it is the same buffer. With different sizes, it fails with `SizeMismatch` and changes nothing. |
| BitArrays.BitArray.ApplyOr | src/BitArray/BitArray.php:349-366 | `Apply` with OR: bit `i` becomes the OR of the two old bits. Fails with `SizeMismatch`, changing nothing, when the sizes differ. |
| BitArrays.BitArray.ApplyAnd | src/BitArray/BitArray.php:379-396 | `Apply` with AND: bit `i` becomes the AND of the two old bits. Fails with `SizeMismatch`, changing nothing, when the sizes differ. |
| BitArrays.BitArray.ApplyXor | src/BitArray/BitArray.php:409-426 | `Apply` with XOR: bit `i` becomes the XOR of the two old bits. Fails with `SizeMismatch`, changing nothing, when the sizes differ. |
| Packing.ByteCount | src/BitArray/BitArray.php:50 | `ceil(n / 8)` is the least byte count that holds `n` bits: `n <= 8 * c < n + 8`. |
| Packing.MaskIsShift | src/BitArray/BitArray.php:86 | The mask table is `1 << k` for every bit position. |
| Packing.UnpackAt | src/BitArray/BitArray.php:197 | Bit `i` of the unpacked buffer is bit `i % 8` of byte `i / 8`. |
| Packing.PackByteBits | src/BitArray/BitArray.php:82-93 | A byte packed from up to eight values has bit `k` set exactly when value `k` exists and is true. |
| Packing.WalkStep | src/BitArray/BitArray.php:84-95 | One step of the walk keeps its invariant. The accumulator holds the packing of the current partial byte, and every completed byte holds its chunk. At every eighth value the byte is flushed and the accumulator restarts from 0. |
| Packing.WalkEnd | src/BitArray/BitArray.php:98-101 | After the walk, flushing the partial last byte (if any) gives exactly `Pack(v)`. |
| Packing.UnpackPack | src/BitArray/BitArray.php:76-104 | Unpacking `Pack(v)` gives `v` followed by clear padding bits. |
| Packing.PackRoundTrip | src/BitArray/BitArray.php:76-104 | Unpacking `Pack(v)` and cutting it to `|v|` bits gives `v` back. |
| Packing.WithBitBits | src/BitArray/BitArray.php:223-230 | Setting or clearing bit `k` of a byte changes bit `k` to the value and leaves the other seven bits as they were. |
| Packing.WithBitSame | src/BitArray/BitArray.php:223-230 | Writing a bit's own value leaves the byte unchanged. |
| Packing.WithBitTwice | src/BitArray/BitArray.php:223-230 | A second write of the same bit overrides the first: the byte is as after the second write alone. |
| Packing.ByteOpBits | src/BitArray/BitArray.php:357 | Byte-wise OR, AND and XOR act on each bit separately, as the boolean operator. |
| Packing.UnpackComplement | src/BitArray/BitArray.php:330-333 | Complementing every byte negates every unpacked bit, padding included. |
| Packing.UnpackCombine | src/BitArray/BitArray.php:355-358 | Combining two buffers byte by byte combines their unpacked bits pointwise. |
| Packing.ComplementTwice | src/BitArray/BitArray.php:326-336 | Complementing twice restores the whole buffer. |
| Packing.CombineXorTwice | src/BitArray/BitArray.php:409-426 | XOR with the same buffer twice restores the whole buffer. |
| Packing.CombineSelf | src/BitArray/BitArray.php:349-396 | OR and AND of a buffer with itself leave it unchanged. |
| Packing.NegateTwice | src/BitArray/BitArray.php:326-336 | Negating the bits twice restores them. |
| Packing.PointwiseXorTwice | src/BitArray/BitArray.php:409-426 | XOR with the same bits twice restores them. |
| Packing.PointwiseSelf | src/BitArray/BitArray.php:349-396 | OR and AND of bits with themselves leave them unchanged. |
| BitStrings.EncodeAlphabet | src/BitArray/BitArray.php:294-302 | The string form holds only `'0'` and `'1'`. |
| BitStrings.EncodeDecode | src/BitArray/BitArray.php:122 | Reading a string as bits and writing it back maps every non-`'0'` character to `'1'`. |
| BitStrings.DecodeEncode | src/BitArray/BitArray.php:298-300 | Reading back the string form gives the bits, so the string form loses nothing. |
| BitStrings.NormalizeBitString | src/BitArray/BitArray.php:122 | A string over `'0'` and `'1'` survives the string round trip unchanged. |
| Usage.StringRoundTrip | src/BitArray/BitArray.php:115-140 | The string form of `fromString(s)` is `s` with every non-`'0'` character replaced by `'1'`. |
| Usage.SequenceRoundTrip | src/BitArray/BitArray.php:273-283 | The boolean view of `fromIterable(v)` is `v`, and its count is `|v|`. |
| Usage.StringForm | src/BitArray/BitArray.php:292-305 | The string form has one character per bit, holds only `'0'` and `'1'`, and reads back as the array's bits. |
| Usage.BitStringRoundTrip | src/BitArray/BitArray.php:115-140 | A string over `'0'` and `'1'` comes back unchanged from `fromString` followed by the string form. |
| Usage.SetOverwrites | src/BitArray/BitArray.php:217-236 | Two sets of the same index leave the buffer as the second set alone would. |
| Usage.FreshRead | src/BitArray/BitArray.php:47-51 | Every index of a fresh array reads false, and every other index fails with `OutOfRange`. |
| Usage.SetThenGet | src/BitArray/BitArray.php:217-236 | After a set, the index reads the new value, every other index reads as before, and out-of-range reads still fail. |
| Usage.SetTwice | src/BitArray/BitArray.php:217-231 | Repeating a set has the effect of one set. |
| Usage.ComplementTwice | src/BitArray/BitArray.php:326-336 | Complementing an array twice restores its bits (through `NegateTwice`) and its whole buffer. |
| Usage.XorTwice | src/BitArray/BitArray.php:409-426 | XOR-ing an array with the same other array twice restores its bits (through `PointwiseXorTwice`) and its whole buffer. It fails only on a size mismatch. |
| Usage.CombineWithItself | src/BitArray/BitArray.php:349-396 | AND and OR of an array with itself leave its bits (through `PointwiseSelf`) and its buffer unchanged. |
| Usage.CombineWithCopy | src/BitArray/BitArray.php:163-166 | AND and OR with an independent clone leave the array unchanged. |
| Usage.WalkthroughValues | examples/BitArray.php:22-36 | The bit and string values the usage script goes through: "10010", "01101", "11100", "11101". |
| Usage.Walkthrough | examples/BitArray.php:22-47 | The script's calls give "10010", then "01101" after the complement, then "11100" after XOR with `[true, false, false, false, true]`, then "11101" after setting index 4. The final boolean view is `[true, true, true, false, true]`. |

## Left out

- `fromJson` (src/BitArray/BitArray.php:151-154) calls PHP's `json_decode`, a foreign call. On an already decoded sequence it is `FromIterable`.
- `getIterator` (src/BitArray/BitArray.php:314-317) returns an `Iterator` object. src/BitArray/Iterator.php is not part of this model. For the same reason, the `foreach` over the array in examples/BitArray.php:38-44 is not modelled.
- `nextSetBit` and `fromTraversable` are called from examples/BitArray.php but are not defined in src/BitArray/BitArray.php. `Usage.Walkthrough` uses `FromIterable` where the script calls `fromTraversable`.
- PHP truthiness of arbitrary values in `fromIterable` and the `is_int` check in `offsetExists` are not modelled. Values are `bool` and indices are `int`.
- `BitArrays.BitArray.FromString`: a PHP string is a byte string, measured by `strlen` and indexed one byte at a time. The model's `string` stands for that byte string, one `char` per byte. Non-ASCII text is not modelled as such: PHP reads a multi-byte UTF-8 character as one bit per byte (a two-byte "é" gives two bits), and so does the model only when each byte is given as its own `char`. The same reading applies to `Usage.StringRoundTrip` and `Usage.BitStringRoundTrip`.
- `FromIterable`: the PHP code sizes the array by `count($iterable)` and then walks the iterable. The model takes one finite sequence for both, so an iterable whose count disagrees with its walk is not modelled.
- The `(int)` cast of a negative or non-integer size in `__construct` is not modelled: the size is a `nat`.
- The operators return `$this` for chaining. The model returns a `Status` instead, and chaining is calling the methods one after another.
- Exceptions (`InvalidArgumentException`, `RuntimeException`) become `Failed(error)` or `Err(error)` values, and their classes and messages are not modelled.
- The PHP interfaces `ArrayAccess`, `Countable`, `IteratorAggregate` and `JsonSerializable` are not modelled as such: `$bits[i]` is `OffsetGet`/`OffsetSet`, `count($bits)` is `Count`, and `json_encode($bits)` is `JsonSerialize` without the JSON text.
- `echo` and the other output of the usage script are not modelled.
- `BitArrays.BitArray.Clone`: PHP's `clone` copies the object and `__clone` then gives the copy its own buffer. The model is a constructor that copies `size` and the bytes into a fresh buffer.
