/**
 * The three malformed texts the package's own test table lists as errors
 * (a text without separators, a four-byte text and a text two digits too
 * long), and the error `Parse` gives each.
 *
 * Three more texts show that the first defect the loop meets decides the
 * error, whatever comes after it.
 */
module ErrorTexts {
  import Hex
  import opened Uuid
  import opened Codec
  import opened CodecLaws
  import Groups

  /** The bytes of "6ba7". */
  const ShortText: seq<bv8> := [0x36, 0x62, 0x61, 0x37]

  /** The bytes of "6ba7b8109dad11d180b400c04fd430c8": 32 digits, no separators. */
  const UnseparatedText: seq<bv8> := [0x36, 0x62, 0x61, 0x37, 0x62, 0x38, 0x31, 0x30] + [0x39, 0x64, 0x61, 0x64] + [0x31, 0x31, 0x64, 0x31] +
                                     [0x38, 0x30, 0x62, 0x34] + [0x30, 0x30, 0x63, 0x30, 0x34, 0x66, 0x64, 0x34, 0x33, 0x30, 0x63, 0x38]

  /** The bytes of "0012416f-9eec-3ed4-a8b0-3bceecde1cd9", a canonical body. */
  const LongBody: seq<bv8> := Join([0x30, 0x30, 0x31, 0x32, 0x34, 0x31, 0x36, 0x66], [0x39, 0x65, 0x65, 0x63], [0x33, 0x65, 0x64, 0x34], [0x61, 0x38, 0x62, 0x30],
                                   [0x33, 0x62, 0x63, 0x65, 0x65, 0x63, 0x64, 0x65, 0x31, 0x63, 0x64, 0x39])

  /** The bytes of "0012416f-9eec-3ed4-a8b0-3bceecde1cd9ab": the body followed by two more digits. */
  const LongText: seq<bv8> := LongBody + [0x61, 0x62]

  /** "6ba7" is too short. */
  lemma ShortTextRejected()
    ensures Parse(ShortText) == Rejected(TooShort)
  {
    ShortInput(ShortText);
  }

  /** "6ba7b8109dad11d180b400c04fd430c8" has a digit where the first separator belongs. */
  lemma UnseparatedTextRejected()
    ensures Parse(UnseparatedText) == Rejected(InvalidFormat)
  {
    var p := UnseparatedText;
    assert p[..8] == [0x36, 0x62, 0x61, 0x37, 0x62, 0x38, 0x31, 0x30];
    assert ConformsFrom(p[..8], 0);
    MissingSeparatorInput(p, 8);
  }

  /** The digits `%x` writes for bytes 0-9 of the identifier behind "0012416f-…". */
  lemma LongBodyDigits()
    ensures Hex.Encode([0x00, 0x12, 0x41, 0x6f]) == [0x30, 0x30, 0x31, 0x32, 0x34, 0x31, 0x36, 0x66]
    ensures Hex.Encode([0x9e, 0xec]) == [0x39, 0x65, 0x65, 0x63]
    ensures Hex.Encode([0x3e, 0xd4]) == [0x33, 0x65, 0x64, 0x34]
    ensures Hex.Encode([0xa8, 0xb0]) == [0x61, 0x38, 0x62, 0x30]
  {
  }

  /** The digits `%x` writes for bytes 10-15 of the identifier behind "0012416f-…". */
  lemma LongBodyNode()
    ensures Hex.Encode([0x3b, 0xce, 0xec, 0xde, 0x1c, 0xd9]) == [0x33, 0x62, 0x63, 0x65, 0x65, 0x63, 0x64, 0x65, 0x31, 0x63, 0x64, 0x39]
  {
  }

  /** The digits of "0012416f-9eec-3ed4-a8b0-3bceecde1cd9" stand for these bytes. */
  lemma LongBodyWritten()
    ensures String([0x00, 0x12, 0x41, 0x6f, 0x9e, 0xec, 0x3e, 0xd4, 0xa8, 0xb0, 0x3b, 0xce, 0xec, 0xde, 0x1c, 0xd9]) == LongBody
  {
    var u: UUID := [0x00, 0x12, 0x41, 0x6f, 0x9e, 0xec, 0x3e, 0xd4, 0xa8, 0xb0, 0x3b, 0xce, 0xec, 0xde, 0x1c, 0xd9];
    assert u[0..4] == [0x00, 0x12, 0x41, 0x6f] && u[4..6] == [0x9e, 0xec] && u[6..8] == [0x3e, 0xd4] && u[8..10] == [0xa8, 0xb0];
    assert u[10..16] == [0x3b, 0xce, 0xec, 0xde, 0x1c, 0xd9];
    LongBodyDigits();
    LongBodyNode();
  }

  /** "0012416f-9eec-3ed4-a8b0-3bceecde1cd9" is a canonical body. */
  lemma LongBodyShape()
    ensures IsCanonicalShape(LongBody)
  {
    var u: UUID := [0x00, 0x12, 0x41, 0x6f, 0x9e, 0xec, 0x3e, 0xd4, 0xa8, 0xb0, 0x3b, 0xce, 0xec, 0xde, 0x1c, 0xd9];
    LongBodyWritten();
    StringValue(u);
  }

  /** A canonical body with more bytes after it runs past the body with its first four groups whole. */
  lemma Extended(b: seq<bv8>, s: seq<bv8>)
    requires IsCanonicalShape(b)
    ensures |b + s| == 36 + |s| && ConformsFrom((b + s)[..24], 0)
  {
    assert (b + s)[..24] == b[..24];
    Groups.ConformsSlice(b, 0, 0, 24);
  }

  /** "0012416f-9eec-3ed4-a8b0-3bceecde1cd9ab" is too long. */
  lemma LongTextRejected()
    ensures Parse(LongText) == Rejected(TooLong)
  {
    LongBodyShape();
    Extended(LongBody, [0x61, 0x62]);
    TrailingInput(LongText);
  }

  // ---------------------------------------------------------------------
  // The first defect decides
  // ---------------------------------------------------------------------

  /** The bytes of "00000000-0000-0000-0000-": the first four groups, whole. */
  const ZeroGroups: seq<bv8> := [0x30, 0x30, 0x30, 0x30, 0x30, 0x30, 0x30, 0x30, 0x2d, 0x30, 0x30, 0x30, 0x30, 0x2d,
                                 0x30, 0x30, 0x30, 0x30, 0x2d, 0x30, 0x30, 0x30, 0x30, 0x2d]

  /** The bytes of "00000000-0000-0000-0000-zzzzzzzzzzzzab": a last group of letters, two bytes too long. */
  const LettersTooLong: seq<bv8> := ZeroGroups + seq(12, _ => 0x7a) + [0x61, 0x62]

  /** The bytes of "00000000-0000-0000-0000-zzzzzzzz": a last group of letters, four bytes short. */
  const LettersTooShort: seq<bv8> := ZeroGroups + seq(8, _ => 0x7a)

  /** The bytes of "0000000z-0000-0000-0000-000000000000ab": a bad first group in a text two bytes too long. */
  const BadFirstTooLong: seq<bv8> := seq(7, _ => 0x30) + [0x7a] + ZeroGroups[8..] + seq(12, _ => 0x30) + [0x61, 0x62]

  /** "00000000-0000-0000-0000-" has its separators in place and digits elsewhere. */
  lemma ZeroGroupsConform()
    ensures ConformsFrom(ZeroGroups, 0)
  {
  }

  /** The too-long test on the last group comes before its digits are decoded. */
  lemma LettersTooLongRejected()
    ensures Parse(LettersTooLong) == Rejected(TooLong)
  {
    ZeroGroupsConform();
    assert LettersTooLong[..24] == ZeroGroups;
    TrailingInput(LettersTooLong);
  }

  /** The length test on the last group comes before its digits are decoded. */
  lemma LettersTooShortRejected()
    ensures Parse(LettersTooShort) == Rejected(TooShort)
  {
    ZeroGroupsConform();
    assert LettersTooShort[..24] == ZeroGroups;
    TruncatedInput(LettersTooShort);
  }

  /** A bad digit in the first group is found before the length of the last group is looked at. */
  lemma BadFirstTooLongRejected()
    ensures Parse(BadFirstTooLong) == Rejected(InvalidHexDigit)
  {
    var p := BadFirstTooLong;
    assert p[..9] != UrnPrefix by {
      assert p[0] != UrnPrefix[0];
    }
    assert p[7] == 0x7a;
    BadDigitInput(p, 7);
  }
}
