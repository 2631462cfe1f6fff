/**
 * The textual form of a bit array: one character per bit, index 0 first.
 * Encoding writes only '0' and '1'; decoding is lenient and reads every
 * character other than '0' as a set bit.  A `string` here stands for a
 * byte string, one `char` per byte.
 */
module BitStrings {

  /** The character for one bit. */
  function BitChar(b: bool): (c: char)
  {
    if b then '1' else '0'
  }

  /** The bit string of `v`. */
  function Encode(v: seq<bool>): (s: string)
    ensures |s| == |v|
  {
    seq(|v|, i requires 0 <= i < |v| => BitChar(v[i]))
  }

  /** The bits a string stands for: set wherever the character is not '0'. */
  function Decode(s: string): (v: seq<bool>)
    ensures |v| == |s|
  {
    seq(|s|, i requires 0 <= i < |s| => s[i] != '0')
  }

  /** `s` with every character other than '0' replaced by '1'. */
  function Normalize(s: string): (t: string)
    ensures |t| == |s|
  {
    seq(|s|, i requires 0 <= i < |s| => if s[i] == '0' then '0' else '1')
  }

  /** An encoded string holds only '0' and '1'. */
  lemma EncodeAlphabet(v: seq<bool>, i: nat)
    requires i < |v|
    ensures Encode(v)[i] == '0' || Encode(v)[i] == '1'
  {
  }

  /** Decoding then encoding a string normalizes it. */
  lemma EncodeDecode(s: string)
    ensures Encode(Decode(s)) == Normalize(s)
  {
  }

  /** Encoding then decoding gives the bits back, so encoding loses nothing. */
  lemma DecodeEncode(v: seq<bool>)
    ensures Decode(Encode(v)) == v
  {
  }

  /** A string over '0' and '1' is its own normal form. */
  lemma NormalizeBitString(s: string)
    requires forall i :: 0 <= i < |s| ==> s[i] == '0' || s[i] == '1'
    ensures Normalize(s) == s
  {
  }
}
