/**
 * Hexadecimal text: the digits `fmt`'s `%x` verb writes for a byte slice,
 * and the digits Go's `hex.Decode` reads.
 *
 * Text is a sequence of bytes (`bv8`), exactly as a Go string or `[]byte`.
 * `Encode` writes the lower-case digits `0-9a-f`, as `%x` does; `Decode`
 * accepts both `a-f` and `A-F`, as `hex.Decode` does.
 */
module Hex {

  datatype Option<+T> = None | Some(value: T)

  /** `0-9`, `a-f` or `A-F`: the bytes `hex.Decode` accepts. */
  predicate IsHexDigit(c: bv8) {
    (0x30 <= c <= 0x39) || (0x61 <= c <= 0x66) || (0x41 <= c <= 0x46)
  }

  /** `0-9` or `a-f`: the bytes `%x` writes. */
  predicate IsLowerHexDigit(c: bv8) {
    (0x30 <= c <= 0x39) || (0x61 <= c <= 0x66)
  }

  /** The digit `%x` writes for a nibble: one of "0123456789abcdef". */
  function Digit(n: bv8): (c: bv8)
    requires n < 16
    ensures IsLowerHexDigit(c)
  {
    if n < 10 then 0x30 + n else 0x61 + (n - 10)
  }

  /** The nibble a hex digit of either case stands for. */
  function Value(c: bv8): (n: bv8)
    requires IsHexDigit(c)
    ensures n < 16
  {
    if c <= 0x39 then c - 0x30
    else if c >= 0x61 then c - 0x61 + 10
    else c - 0x41 + 10
  }

  /** The byte a pair of hex digits stands for: high nibble first. */
  function Pair(hi: bv8, lo: bv8): bv8
    requires IsHexDigit(hi) && IsHexDigit(lo)
  {
    (Value(hi) << 4) | Value(lo)
  }

  /** The upper-case spelling of a digit: `a-f` become `A-F`, every other byte is kept. */
  function Upper(c: bv8): (u: bv8)
    ensures IsHexDigit(c) <==> IsHexDigit(u)
    ensures IsHexDigit(c) ==> Value(u) == Value(c)
    ensures !IsLowerHexDigit(c) ==> u == c
  {
    if 0x61 <= c <= 0x66 then c - 0x20 else c
  }

  /** Reading back the digits written for a byte yields the byte. */
  lemma PairOfDigits(b: bv8)
    ensures Pair(Digit(b >> 4), Digit(b & 0x0f)) == b
  {
    assert Value(Digit(b >> 4)) == b >> 4;
    assert Value(Digit(b & 0x0f)) == b & 0x0f;
  }

  /** A pair of digits is read back as the nibbles they stand for. */
  lemma PairNibbles(hi: bv8, lo: bv8)
    requires IsHexDigit(hi) && IsHexDigit(lo)
    ensures Pair(hi, lo) >> 4 == Value(hi)
    ensures Pair(hi, lo) & 0x0f == Value(lo)
  {
  }

  /** A lower-case digit is the one written for the nibble it stands for. */
  lemma DigitOfValue(c: bv8)
    requires IsLowerHexDigit(c)
    ensures Digit(Value(c)) == c
  {
  }

  /**
   * `%x` on a byte slice, as `fmt.Sprintf` writes it: two lower-case digits
   * per byte, high nibble first.
   */
  function Encode(bs: seq<bv8>): (r: seq<bv8>)
    ensures |r| == 2 * |bs|
    ensures forall k :: 0 <= k < |r| ==> IsLowerHexDigit(r[k])
  {
    if |bs| == 0 then []
    else [Digit(bs[0] >> 4), Digit(bs[0] & 0x0f)] + Encode(bs[1..])
  }

  /**
   * `hex.Decode` on an even number of digits: `None` (an `InvalidByteError`)
   * as soon as a byte is not a hex digit.
   */
  function Decode(s: seq<bv8>): (r: Option<seq<bv8>>)
    requires |s| % 2 == 0
    ensures r.Some? <==> forall k :: 0 <= k < |s| ==> IsHexDigit(s[k])
    ensures r.Some? ==> |r.value| == |s| / 2
  {
    if |s| == 0 then Some([])
    else if !IsHexDigit(s[0]) || !IsHexDigit(s[1]) then None
    else
      var rest := Decode(s[2..]);
      if rest.None? then None else Some([Pair(s[0], s[1])] + rest.value)
  }

  /** `hex.Decode` inverts what `%x` writes. */
  lemma {:induction false} DecodeEncode(bs: seq<bv8>)
    ensures Decode(Encode(bs)) == Some(bs)
  {
    if |bs| > 0 {
      var e := Encode(bs);
      assert e[2..] == Encode(bs[1..]);
      DecodeEncode(bs[1..]);
      HeadPair(bs);
      assert bs == [bs[0]] + bs[1..];
    }
  }

  /** Byte `j` of the input is written as the digits at `2 * j` and `2 * j + 1`. */
  lemma {:induction false} EncodeAt(bs: seq<bv8>, j: nat)
    requires j < |bs|
    ensures Encode(bs)[2 * j] == Digit(bs[j] >> 4)
    ensures Encode(bs)[2 * j + 1] == Digit(bs[j] & 0x0f)
  {
    if j > 0 {
      EncodeAt(bs[1..], j - 1);
      assert Encode(bs)[2..] == Encode(bs[1..]);
    }
  }

  /** Byte `j` of the output is read from the digits at `2 * j` and `2 * j + 1`. */
  lemma {:induction false} DecodeAt(s: seq<bv8>, j: nat)
    requires |s| % 2 == 0 && Decode(s).Some? && j < |s| / 2
    ensures Decode(s).value[j] == Pair(s[2 * j], s[2 * j + 1])
  {
    if j > 0 {
      DecodeAt(s[2..], j - 1);
    }
  }

  /** The first two digits `%x` writes read back as the first byte. */
  lemma HeadPair(bs: seq<bv8>)
    requires |bs| > 0
    ensures IsHexDigit(Encode(bs)[0]) && IsHexDigit(Encode(bs)[1])
    ensures Pair(Encode(bs)[0], Encode(bs)[1]) == bs[0]
  {
    PairOfDigits(bs[0]);
  }
}
