/**
 * The canonical text form of a UUID (section 3 of RFC 4122): `String`
 * writes it, `Parse` (the source's `Parse` and `UnmarshalText`) reads it
 * back from any of three surface forms.
 *
 *   plain   6ba7b810-9dad-11d1-80b4-00c04fd430c8
 *   braced  {6ba7b810-9dad-11d1-80b4-00c04fd430c8}
 *   URN     urn:uuid:6ba7b810-9dad-11d1-80b4-00c04fd430c8
 *
 * Text is bytes (`bv8`), as a Go string is. The 36 bytes of the plain form
 * are called the body below; its separators sit at indices 8, 13, 18, 23.
 */
module Codec {
  import Hex
  import opened Uuid

  const Dash: bv8 := 0x2d
  const LBrace: bv8 := 0x7b
  const RBrace: bv8 := 0x7d

  /** `urnPrefix`: the bytes of "urn:uuid:". */
  const UrnPrefix: seq<bv8> := [0x75, 0x72, 0x6e, 0x3a, 0x75, 0x75, 0x69, 0x64, 0x3a]

  /** `byteGroups`: the number of hex digits in each of the five groups. */
  const ByteGroups: seq<nat> := [8, 4, 4, 4, 12]

  // ---------------------------------------------------------------------
  // The canonical body, described by position
  // ---------------------------------------------------------------------

  /** The indices of the four separators in the body. */
  predicate IsDashIndex(k: int) {
    k == 8 || k == 13 || k == 18 || k == 23
  }

  /**
   * `s` may stand at indices `p .. p + |s|` of a body: a `-` at every
   * separator index and a hex digit of either case everywhere else.
   */
  predicate ConformsFrom(s: seq<bv8>, p: nat) {
    p + |s| <= 36 &&
    forall k :: 0 <= k < |s| ==> if IsDashIndex(p + k) then s[k] == Dash else Hex.IsHexDigit(s[k])
  }

  /** A complete body: 8-4-4-4-12 hex digits of either case with `-` between the groups. */
  predicate IsCanonicalShape(b: seq<bv8>) {
    |b| == 36 && ConformsFrom(b, 0)
  }

  /** The separators of a body are in place, whatever the other bytes are. */
  predicate Separated(b: seq<bv8>) {
    |b| == 36 && forall k :: 0 <= k < 36 && IsDashIndex(k) ==> b[k] == Dash
  }

  /** The index in the body of the high digit of byte `j`. */
  function DigitIndex(j: nat): nat
    requires j < 16
  {
    2 * j + (if j < 4 then 0 else if j < 6 then 1 else if j < 8 then 2 else if j < 10 then 3 else 4)
  }

  /** The 16 bytes a body stands for: byte `j` is the digit pair at `DigitIndex(j)`. */
  function BodyValue(b: seq<bv8>): UUID
    requires IsCanonicalShape(b)
  {
    seq(16, j requires 0 <= j < 16 => Hex.Pair(b[DigitIndex(j)], b[DigitIndex(j) + 1]))
  }

  /** The texts the parser accepts: a body, alone, after `{` (with or without `}`), or after `urn:uuid:`. */
  predicate AcceptedForm(text: seq<bv8>) {
    IsCanonicalShape(text)
    || (|text| == 37 && text[0] == LBrace && IsCanonicalShape(text[1..]))
    || (|text| == 38 && text[0] == LBrace && text[37] == RBrace && IsCanonicalShape(text[1..37]))
    || (|text| == 45 && text[..9] == UrnPrefix && IsCanonicalShape(text[9..]))
  }

  /** The body inside an accepted text. */
  function FormBody(text: seq<bv8>): seq<bv8>
    requires AcceptedForm(text)
  {
    if |text| == 36 then text else if |text| == 45 then text[9..] else text[1..37]
  }

  // ---------------------------------------------------------------------
  // Encoding
  // ---------------------------------------------------------------------

  /** The format `"%x-%x-%x-%x-%x"`: five groups of digits joined by `-`. */
  function Join(g0: seq<bv8>, g1: seq<bv8>, g2: seq<bv8>, g3: seq<bv8>, g4: seq<bv8>): seq<bv8> {
    g0 + [Dash] + g1 + [Dash] + g2 + [Dash] + g3 + [Dash] + g4
  }

  /**
   * `String`: `fmt.Sprintf("%x-%x-%x-%x-%x", ...)` over bytes 0-3, 4-5,
   * 6-7, 8-9 and 10-15; `%x` on a byte slice writes two lower-case digits
   * per byte.
   */
  function String(u: UUID): (s: seq<bv8>)
    ensures |s| == 36
    ensures forall k :: 0 <= k < 36 ==>
              if IsDashIndex(k) then s[k] == Dash else Hex.IsLowerHexDigit(s[k])
  {
    Join(Hex.Encode(u[0..4]), Hex.Encode(u[4..6]), Hex.Encode(u[6..8]), Hex.Encode(u[8..10]), Hex.Encode(u[10..16]))
  }

  // ---------------------------------------------------------------------
  // Parsing
  // ---------------------------------------------------------------------

  /** The errors `UnmarshalText` returns. */
  datatype ParseError = TooShort | InvalidFormat | InvalidHexDigit | TooLong

  /**
   * What parsing a text comes to. `Panicked` is not an error value: it is
   * the run-time index-out-of-range panic of `t[0]` when the unread text is
   * empty at a separator, which the input `urn:uuid:` followed by 23 bytes
   * reaches.
   */
  datatype ParseResult = Parsed(uuid: UUID) | Rejected(error: ParseError) | Panicked

  /** The body index of the unread text when group `i` is about to be read (its separator, for i > 0). */
  function Pos(i: nat): nat
    requires i <= 5
  {
    if i == 0 then 0 else if i == 1 then 8 else if i == 2 then 13 else if i == 3 then 18 else if i == 4 then 23 else 36
  }

  /** The number of bytes decoded before group `i`. */
  function ByteOffset(i: nat): nat
    requires i <= 5
  {
    if i == 0 then 0 else if i == 1 then 4 else if i == 2 then 6 else if i == 3 then 8 else if i == 4 then 10 else 16
  }

  /**
   * One pass of the loop over `byteGroups`, from group `i` on: `t` is the
   * unread text and `acc` the bytes decoded so far (the filled prefix of the
   * output array).
   */
  function ParseGroups(t: seq<bv8>, braced: bool, i: nat, acc: seq<bv8>): ParseResult
    requires i <= 5 && |acc| == ByteOffset(i)
    decreases 5 - i
  {
    if i == 5 then Parsed(acc)
    else if i > 0 && |t| == 0 then Panicked
    else if i > 0 && t[0] != Dash then Rejected(InvalidFormat)
    else
      var t1 := if i > 0 then t[1..] else t;
      var g := ByteGroups[i];
      if |t1| < g then Rejected(TooShort)
      else if i == 4 && |t1| > g && ((braced && t1[g] != RBrace) || |t1[g..]| > 1 || !braced) then
        Rejected(TooLong)
      else
        var bs := Hex.Decode(t1[..g]);
        if bs.None? then Rejected(InvalidHexDigit)
        else ParseGroups(t1[g..], braced, i + 1, acc + bs.value)
  }

  /**
   * `Parse` / `UnmarshalText`: reject texts under 32 bytes, strip a
   * `urn:uuid:` prefix or else a `{` (remembering it), then read the groups.
   */
  function Parse(text: seq<bv8>): ParseResult
  {
    if |text| < 32 then Rejected(TooShort)
    else if text[..9] == UrnPrefix then ParseGroups(text[9..], false, 0, [])
    else if text[0] == LBrace then ParseGroups(text[1..], true, 0, [])
    else ParseGroups(text, false, 0, [])
  }

  /** `Must`: the caller promises that parsing succeeded. */
  function Must(r: ParseResult): UUID
    requires r.Parsed?
  {
    r.uuid
  }
}
