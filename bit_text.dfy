/**
  `binary_to_string`: reading a string of bits as text, eight bits per
  character. The per-byte conversion `convert_eight_bits_to_character`
  belongs to the channel base class, which is not part of this model; it is
  a parameter here and is assumed to yield one character per group.
 */
module BitText {

  /** Each complete group of eight bits, converted, in order; an incomplete tail is dropped. */
  function TextOf(bits: string, convert: seq<char> -> char): string
    decreases |bits|
  {
    if |bits| < 8 then "" else [convert(bits[..8])] + TextOf(bits[8..], convert)
  }

  /** One character per complete group of eight bits. */
  lemma {:induction false} TextOfLength(bits: string, convert: seq<char> -> char)
    ensures |TextOf(bits, convert)| == |bits| / 8
    decreases |bits|
  {
    if |bits| >= 8 {
      TextOfLength(bits[8..], convert);
    }
  }

  /** Character `k` is the conversion of bits `8k` up to `8k + 8`. */
  lemma {:induction false} TextOfAt(bits: string, convert: seq<char> -> char, k: nat)
    requires k < |bits| / 8
    ensures |TextOf(bits, convert)| == |bits| / 8
    ensures TextOf(bits, convert)[k] == convert(bits[8 * k .. 8 * k + 8])
    decreases k
  {
    TextOfLength(bits, convert);
    if k > 0 {
      TextOfAt(bits[8..], convert, k - 1);
      assert bits[8..][8 * (k - 1) .. 8 * (k - 1) + 8] == bits[8 * k .. 8 * k + 8];
    }
  }

  /** Text of a whole number of bytes followed by more bits is the two texts joined. */
  lemma {:induction false} TextOfConcat(a: string, b: string, convert: seq<char> -> char)
    requires |a| % 8 == 0
    ensures TextOf(a + b, convert) == TextOf(a, convert) + TextOf(b, convert)
    decreases |a|
  {
    if a == [] {
      assert a + b == b;
    } else {
      assert (a + b)[..8] == a[..8];
      assert (a + b)[8..] == a[8..] + b;
      TextOfConcat(a[8..], b, convert);
    }
  }

  /** A trailing group of fewer than eight bits contributes nothing. */
  lemma {:induction false} TextOfDropsTail(bits: string, convert: seq<char> -> char)
    ensures TextOf(bits, convert) == TextOf(bits[..|bits| / 8 * 8], convert)
  {
    var whole := |bits| / 8 * 8;
    assert whole % 8 == 0 && |bits| - whole < 8;
    var tail := bits[whole..];
    assert bits == bits[..whole] + tail;
    TextOfConcat(bits[..whole], tail, convert);
    assert TextOf(tail, convert) == "";
  }

  /** The accumulating loop of `binary_to_string`, stepping through the bits eight at a time. */
  method BinaryToString(binaryMessage: string, convert: seq<char> -> char) returns (decodedString: string)
    ensures decodedString == TextOf(binaryMessage, convert)
  {
    decodedString := "";
    var i := 0;
    while i < |binaryMessage|
      invariant i % 8 == 0 && i <= |binaryMessage| + 7
      invariant decodedString == TextOf(binaryMessage[..if i <= |binaryMessage| then i else |binaryMessage|], convert)
    {
      var end := if i + 8 <= |binaryMessage| then i + 8 else |binaryMessage|;
      var eightBits := binaryMessage[i..end];
      TextOfConcat(binaryMessage[..i], eightBits, convert);
      assert binaryMessage[..i] + eightBits == binaryMessage[..end];
      if |eightBits| == 8 {
        assert TextOf(eightBits, convert) == [convert(eightBits)] by {
          assert eightBits[..8] == eightBits;
        }
        decodedString := decodedString + [convert(eightBits)];
      }
      i := i + 8;
    }
    assert binaryMessage[..|binaryMessage|] == binaryMessage;
  }
}
