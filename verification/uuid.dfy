/**
 * The UUID value of RFC 4122: sixteen bytes, the two bit-fields read from
 * them, byte-wise equality, and the constructors for versions 3, 4 and 5,
 * which overwrite the version and variant fields of hash or random output.
 */
module Uuid {

  /** Go's `[16]byte` array type `UUID`. */
  type UUID = s: seq<bv8> | |s| == 16 witness [0, 0, 0, 0, 0, 0, 0, 0, 0, 0, 0, 0, 0, 0, 0, 0]

  /** The all-zero identifier: a legitimate value, not an error sentinel. */
  const Nil: UUID := [0, 0, 0, 0, 0, 0, 0, 0, 0, 0, 0, 0, 0, 0, 0, 0]

  /** The layout families of section 4.1.1 of RFC 4122, in the order of Go's `iota` constants. */
  datatype Variant = NCS | RFC4122 | Microsoft | Future

  /** The version field: the high nibble of byte 6 (section 4.1.3 of RFC 4122). */
  function Version(u: UUID): (v: bv8)
    ensures v < 16
    ensures v as int == u[6] as int / 16
  {
    u[6] >> 4
  }

  /**
   * The variant field, read from the top bits of byte 8 with the source's
   * three masked tests in order. The two middle tests look odd but are exact:
   * `(b & 0xc0) | 0x80 == 0x80` holds iff bit 6 is clear, and
   * `(b & 0xe0) | 0xc0 == 0xc0` holds iff bit 5 is clear. The ensures give
   * the patterns of section 4.1.1 of RFC 4122: 0xx, 10x, 110 and 111.
   */
  function VariantOf(u: UUID): (v: Variant)
    ensures v == NCS <==> u[8] >> 7 == 0
    ensures v == RFC4122 <==> u[8] >> 6 == 2
    ensures v == Microsoft <==> u[8] >> 5 == 6
    ensures v == Future <==> u[8] >> 5 == 7
  {
    if u[8] & 0x80 == 0x00 then NCS
    else if (u[8] & 0xc0) | 0x80 == 0x80 then RFC4122
    else if (u[8] & 0xe0) | 0xc0 == 0xc0 then Microsoft
    else Future
  }

  /** `Equal`: `bytes.Equal` on the two arrays, byte by byte. */
  function Equal(a: UUID, b: UUID): (r: bool)
    ensures r <==> a == b
  {
    forall i | 0 <= i < 16 :: a[i] == b[i]
  }

  /**
   * The two stores every constructor makes: the version nibble into the high
   * half of byte 6 (`(b & 0x0f) | version << 4`), and the RFC 4122 variant
   * into byte 8 (`(b & 0xbf) | 0x80`, which leaves the top two bits `10`).
   */
  function Stamp(raw: UUID, version: bv8): (u: UUID)
    requires version < 16
    ensures Version(u) == version
    ensures VariantOf(u) == RFC4122
    ensures forall i :: 0 <= i < 16 && i != 6 && i != 8 ==> u[i] == raw[i]
    ensures u[6] & 0x0f == raw[6] & 0x0f
    ensures u[8] & 0x3f == raw[8] & 0x3f
  {
    raw[6 := (raw[6] & 0x0f) | (version << 4)][8 := (raw[8] & 0xbf) | 0x80]
  }

  /** The output of a hash function: MD5 gives 16 bytes, SHA-1 gives 20. */
  type Digest = d: seq<bv8> | |d| >= 16 witness [0, 0, 0, 0, 0, 0, 0, 0, 0, 0, 0, 0, 0, 0, 0, 0]

  /**
   * `newFromHash`: hash the 16 namespace bytes followed by the bytes of the
   * name, and copy the leading 16 bytes of the digest. The hash primitive is
   * a parameter; whatever it returns past byte 16 is dropped.
   */
  function NewFromHash(hash: seq<bv8> -> Digest, ns: UUID, name: seq<bv8>): (u: UUID)
    ensures forall i :: 0 <= i < 16 ==> u[i] == hash(ns + name)[i]
  {
    hash(ns + name)[..16]
  }

  /** `NewV3`: name-based identifier; `md5` stands for `crypto/md5`. */
  function NewV3(md5: seq<bv8> -> Digest, ns: UUID, name: seq<bv8>): (u: UUID)
    ensures Version(u) == 3 && VariantOf(u) == RFC4122
    ensures forall i :: 0 <= i < 16 && i != 6 && i != 8 ==> u[i] == md5(ns + name)[i]
    ensures u[6] & 0x0f == md5(ns + name)[6] & 0x0f
    ensures u[8] & 0x3f == md5(ns + name)[8] & 0x3f
  {
    Stamp(NewFromHash(md5, ns, name), 3)
  }

  /**
   * `NewV4`: random identifier. `random` stands for the 16 bytes read from
   * `crypto/rand` into the buffer.
   */
  function NewV4(random: seq<bv8>): (u: UUID)
    requires |random| == 16
    ensures Version(u) == 4 && VariantOf(u) == RFC4122
    ensures forall i :: 0 <= i < 16 && i != 6 && i != 8 ==> u[i] == random[i]
    ensures u[6] & 0x0f == random[6] & 0x0f
    ensures u[8] & 0x3f == random[8] & 0x3f
  {
    Stamp(random, 4)
  }

  /** `NewV5`: name-based identifier; `sha1` stands for `crypto/sha1`. */
  function NewV5(sha1: seq<bv8> -> Digest, ns: UUID, name: seq<bv8>): (u: UUID)
    ensures Version(u) == 5 && VariantOf(u) == RFC4122
    ensures forall i :: 0 <= i < 16 && i != 6 && i != 8 ==> u[i] == sha1(ns + name)[i]
    ensures u[6] & 0x0f == sha1(ns + name)[6] & 0x0f
    ensures u[8] & 0x3f == sha1(ns + name)[8] & 0x3f
  {
    Stamp(NewFromHash(sha1, ns, name), 5)
  }
}
