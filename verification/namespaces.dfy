/**
 * The package's fixed identifiers: `Nil` and the four name-space
 * identifiers of Appendix C of RFC 4122, which the source builds with
 * `Must(Parse(...))` from their canonical texts. Each identifier is written
 * here as its sixteen bytes, and each text as the bytes of the string
 * literal (a Go string is its bytes), group by group. The lemmas show that
 * `String` writes each identifier as its literal and that `Parse` of the
 * literal succeeds with exactly those bytes, so `Must` never fails.
 */
module Namespaces {
  import Hex
  import opened Uuid
  import opened Codec
  import opened CodecLaws

  /** The bytes of "00000000-0000-0000-0000-000000000000". */
  const NilText: seq<bv8> := Join([0x30, 0x30, 0x30, 0x30, 0x30, 0x30, 0x30, 0x30], [0x30, 0x30, 0x30, 0x30], [0x30, 0x30, 0x30, 0x30], [0x30, 0x30, 0x30, 0x30],
                                  [0x30, 0x30, 0x30, 0x30, 0x30, 0x30, 0x30, 0x30, 0x30, 0x30, 0x30, 0x30])

  /** The bytes of "6ba7b810-9dad-11d1-80b4-00c04fd430c8". */
  const DNSText: seq<bv8> := Join([0x36, 0x62, 0x61, 0x37, 0x62, 0x38, 0x31, 0x30], [0x39, 0x64, 0x61, 0x64], [0x31, 0x31, 0x64, 0x31], [0x38, 0x30, 0x62, 0x34],
                                 [0x30, 0x30, 0x63, 0x30, 0x34, 0x66, 0x64, 0x34, 0x33, 0x30, 0x63, 0x38])

  /** The bytes of "6ba7b811-9dad-11d1-80b4-00c04fd430c8". */
  const URLText: seq<bv8> := Join([0x36, 0x62, 0x61, 0x37, 0x62, 0x38, 0x31, 0x31], [0x39, 0x64, 0x61, 0x64], [0x31, 0x31, 0x64, 0x31], [0x38, 0x30, 0x62, 0x34],
                                 [0x30, 0x30, 0x63, 0x30, 0x34, 0x66, 0x64, 0x34, 0x33, 0x30, 0x63, 0x38])

  /** The bytes of "6ba7b812-9dad-11d1-80b4-00c04fd430c8". */
  const OIDText: seq<bv8> := Join([0x36, 0x62, 0x61, 0x37, 0x62, 0x38, 0x31, 0x32], [0x39, 0x64, 0x61, 0x64], [0x31, 0x31, 0x64, 0x31], [0x38, 0x30, 0x62, 0x34],
                                 [0x30, 0x30, 0x63, 0x30, 0x34, 0x66, 0x64, 0x34, 0x33, 0x30, 0x63, 0x38])

  /** The bytes of "6ba7b814-9dad-11d1-80b4-00c04fd430c8". */
  const X500Text: seq<bv8> := Join([0x36, 0x62, 0x61, 0x37, 0x62, 0x38, 0x31, 0x34], [0x39, 0x64, 0x61, 0x64], [0x31, 0x31, 0x64, 0x31], [0x38, 0x30, 0x62, 0x34],
                                 [0x30, 0x30, 0x63, 0x30, 0x34, 0x66, 0x64, 0x34, 0x33, 0x30, 0x63, 0x38])

  const NamespaceDNS: UUID := [0x6b, 0xa7, 0xb8, 0x10, 0x9d, 0xad, 0x11, 0xd1, 0x80, 0xb4, 0x00, 0xc0, 0x4f, 0xd4, 0x30, 0xc8]

  const NamespaceURL: UUID := [0x6b, 0xa7, 0xb8, 0x11, 0x9d, 0xad, 0x11, 0xd1, 0x80, 0xb4, 0x00, 0xc0, 0x4f, 0xd4, 0x30, 0xc8]

  const NamespaceOID: UUID := [0x6b, 0xa7, 0xb8, 0x12, 0x9d, 0xad, 0x11, 0xd1, 0x80, 0xb4, 0x00, 0xc0, 0x4f, 0xd4, 0x30, 0xc8]

  const NamespaceX500: UUID := [0x6b, 0xa7, 0xb8, 0x14, 0x9d, 0xad, 0x11, 0xd1, 0x80, 0xb4, 0x00, 0xc0, 0x4f, 0xd4, 0x30, 0xc8]

  /** The digits of the bytes the four name-space identifiers share after byte 3. */
  lemma SharedGroups()
    ensures Hex.Encode([0x9d, 0xad]) == [0x39, 0x64, 0x61, 0x64]
    ensures Hex.Encode([0x11, 0xd1]) == [0x31, 0x31, 0x64, 0x31]
    ensures Hex.Encode([0x80, 0xb4]) == [0x38, 0x30, 0x62, 0x34]
  {
  }

  /** The digits of the last six bytes the four name-space identifiers share. */
  lemma SharedNode()
    ensures Hex.Encode([0x00, 0xc0, 0x4f, 0xd4, 0x30, 0xc8]) == [0x30, 0x30, 0x63, 0x30, 0x34, 0x66, 0x64, 0x34, 0x33, 0x30, 0x63, 0x38]
  {
  }

  /** A text `String` writes for `u` parses back to `u`. */
  lemma ParseWritten(u: UUID, text: seq<bv8>)
    requires String(u) == text
    ensures Parse(text) == Parsed(u)
  {
    ParseString(u);
  }

  /** `String` writes `Nil` as "00000000-0000-0000-0000-000000000000". */
  lemma NilString()
    ensures String(Nil) == NilText
  {
    assert Nil[0..4] == [0, 0, 0, 0];
    assert Nil[4..6] == Nil[6..8] == Nil[8..10] == [0, 0];
    assert Nil[10..16] == [0, 0, 0, 0, 0, 0];
    assert Hex.Encode([0, 0]) == [0x30, 0x30, 0x30, 0x30];
    assert Hex.Encode([0, 0, 0, 0]) == [0x30, 0x30, 0x30, 0x30, 0x30, 0x30, 0x30, 0x30];
    assert Hex.Encode([0, 0, 0, 0, 0, 0]) == [0x30, 0x30, 0x30, 0x30, 0x30, 0x30, 0x30, 0x30, 0x30, 0x30, 0x30, 0x30];
  }

  /** `Nil` reads back from its text. */
  lemma NilParses()
    ensures Parse(NilText) == Parsed(Nil)
    ensures Must(Parse(NilText)) == Nil
  {
    NilString();
    ParseWritten(Nil, NilText);
  }

  /** `Nil` has version 0 and variant NCS. */
  lemma NilFields()
    ensures Version(Nil) == 0 && VariantOf(Nil) == NCS
  {
  }

  /** `String` writes `NamespaceDNS` as "6ba7b810-9dad-11d1-80b4-00c04fd430c8". */
  lemma NamespaceDNSString()
    ensures String(NamespaceDNS) == DNSText
  {
    assert NamespaceDNS[0..4] == [0x6b, 0xa7, 0xb8, 0x10];
    assert NamespaceDNS[4..6] == [0x9d, 0xad] && NamespaceDNS[6..8] == [0x11, 0xd1] && NamespaceDNS[8..10] == [0x80, 0xb4];
    assert NamespaceDNS[10..16] == [0x00, 0xc0, 0x4f, 0xd4, 0x30, 0xc8];
    assert Hex.Encode([0x6b, 0xa7, 0xb8, 0x10]) == [0x36, 0x62, 0x61, 0x37, 0x62, 0x38, 0x31, 0x30];
    SharedGroups();
    SharedNode();
  }

  /** `NamespaceDNS = Must(Parse(...))`: the parse of the literal succeeds with these bytes. */
  lemma NamespaceDNSParses()
    ensures Parse(DNSText) == Parsed(NamespaceDNS)
    ensures Must(Parse(DNSText)) == NamespaceDNS
  {
    NamespaceDNSString();
    ParseWritten(NamespaceDNS, DNSText);
  }

  /** `NamespaceDNS` is an identifier of version 1 and of the RFC 4122 variant. */
  lemma NamespaceDNSFields()
    ensures Version(NamespaceDNS) == 1 && VariantOf(NamespaceDNS) == RFC4122
  {
  }

  /** `String` writes `NamespaceURL` as "6ba7b811-9dad-11d1-80b4-00c04fd430c8". */
  lemma NamespaceURLString()
    ensures String(NamespaceURL) == URLText
  {
    assert NamespaceURL[0..4] == [0x6b, 0xa7, 0xb8, 0x11];
    assert NamespaceURL[4..6] == [0x9d, 0xad] && NamespaceURL[6..8] == [0x11, 0xd1] && NamespaceURL[8..10] == [0x80, 0xb4];
    assert NamespaceURL[10..16] == [0x00, 0xc0, 0x4f, 0xd4, 0x30, 0xc8];
    assert Hex.Encode([0x6b, 0xa7, 0xb8, 0x11]) == [0x36, 0x62, 0x61, 0x37, 0x62, 0x38, 0x31, 0x31];
    SharedGroups();
    SharedNode();
  }

  /** `NamespaceURL = Must(Parse(...))`: the parse of the literal succeeds with these bytes. */
  lemma NamespaceURLParses()
    ensures Parse(URLText) == Parsed(NamespaceURL)
    ensures Must(Parse(URLText)) == NamespaceURL
  {
    NamespaceURLString();
    ParseWritten(NamespaceURL, URLText);
  }

  /** `NamespaceURL` is an identifier of version 1 and of the RFC 4122 variant. */
  lemma NamespaceURLFields()
    ensures Version(NamespaceURL) == 1 && VariantOf(NamespaceURL) == RFC4122
  {
  }

  /** `String` writes `NamespaceOID` as "6ba7b812-9dad-11d1-80b4-00c04fd430c8". */
  lemma NamespaceOIDString()
    ensures String(NamespaceOID) == OIDText
  {
    assert NamespaceOID[0..4] == [0x6b, 0xa7, 0xb8, 0x12];
    assert NamespaceOID[4..6] == [0x9d, 0xad] && NamespaceOID[6..8] == [0x11, 0xd1] && NamespaceOID[8..10] == [0x80, 0xb4];
    assert NamespaceOID[10..16] == [0x00, 0xc0, 0x4f, 0xd4, 0x30, 0xc8];
    assert Hex.Encode([0x6b, 0xa7, 0xb8, 0x12]) == [0x36, 0x62, 0x61, 0x37, 0x62, 0x38, 0x31, 0x32];
    SharedGroups();
    SharedNode();
  }

  /** `NamespaceOID = Must(Parse(...))`: the parse of the literal succeeds with these bytes. */
  lemma NamespaceOIDParses()
    ensures Parse(OIDText) == Parsed(NamespaceOID)
    ensures Must(Parse(OIDText)) == NamespaceOID
  {
    NamespaceOIDString();
    ParseWritten(NamespaceOID, OIDText);
  }

  /** `NamespaceOID` is an identifier of version 1 and of the RFC 4122 variant. */
  lemma NamespaceOIDFields()
    ensures Version(NamespaceOID) == 1 && VariantOf(NamespaceOID) == RFC4122
  {
  }

  /** `String` writes `NamespaceX500` as "6ba7b814-9dad-11d1-80b4-00c04fd430c8". */
  lemma NamespaceX500String()
    ensures String(NamespaceX500) == X500Text
  {
    assert NamespaceX500[0..4] == [0x6b, 0xa7, 0xb8, 0x14];
    assert NamespaceX500[4..6] == [0x9d, 0xad] && NamespaceX500[6..8] == [0x11, 0xd1] && NamespaceX500[8..10] == [0x80, 0xb4];
    assert NamespaceX500[10..16] == [0x00, 0xc0, 0x4f, 0xd4, 0x30, 0xc8];
    assert Hex.Encode([0x6b, 0xa7, 0xb8, 0x14]) == [0x36, 0x62, 0x61, 0x37, 0x62, 0x38, 0x31, 0x34];
    SharedGroups();
    SharedNode();
  }

  /** `NamespaceX500 = Must(Parse(...))`: the parse of the literal succeeds with these bytes. */
  lemma NamespaceX500Parses()
    ensures Parse(X500Text) == Parsed(NamespaceX500)
    ensures Must(Parse(X500Text)) == NamespaceX500
  {
    NamespaceX500String();
    ParseWritten(NamespaceX500, X500Text);
  }

  /** `NamespaceX500` is an identifier of version 1 and of the RFC 4122 variant. */
  lemma NamespaceX500Fields()
    ensures Version(NamespaceX500) == 1 && VariantOf(NamespaceX500) == RFC4122
  {
  }

}
