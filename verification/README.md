# A verified model of the Go `uuid` package

The package implements the RFC 4122 universally unique identifier. A UUID is a
16-byte array with a version field and a variant field. The package provides
- the canonical 36-byte text form: `String`, written `8-4-4-4-12` in
  lower-case hex;
- a strict parser for that text (`Parse` / `UnmarshalText`), which also
  accepts `{…}` and `urn:uuid:…`;
- the two bit-field accessors, `Version` and `Variant`;
- the constructors `NewV3`, `NewV4` and `NewV5`, which stamp a version and the
  RFC 4122 variant onto hash or random output;
- the fixed identifiers `Nil` and `NamespaceDNS`/`URL`/`OID`/`X500`.

The model is written in Dafny as pure functions over immutable values:
- A UUID is a `seq<bv8>` of length 16.
- Text is a `seq<bv8>`, because a Go string or `[]byte` is a sequence of
  bytes.
- `Parse` returns one of three outcomes:
  - `Parsed(uuid)`;
  - `Rejected(error)`, with one of the four errors the source reports
    (`TooShort`, `InvalidFormat`, `InvalidHexDigit`, `TooLong`);
  - `Panicked`. This is the index-out-of-range panic the source hits on one
    input shape.

The modules follow the structure of the program:

| module | file | contents |
|---|---|---|
| `Hex` | hex.dfy | `Encode`, the digits `fmt`'s `%x` verb writes for a byte slice; `Decode`, `encoding/hex`'s decoder (either case); and their inverse relation |
| `Uuid` | uuid.dfy | the UUID type, `Version`, `VariantOf`, `Equal`, the version/variant stamping, `NewFromHash`, `NewV3`/`NewV4`/`NewV5` |
| `Codec` | codec.dfy | `String`, the loop of `UnmarshalText` over the five groups (`ParseGroups`), `Parse`, `Must`, and the declarative description of the accepted texts (`IsCanonicalShape`, `BodyValue`, `AcceptedForm`) |
| `Groups` | groups.dfy | the loop followed group by group: one lemma per outcome, each by induction on the groups still to read |
| `CodecLaws` | codec_laws.dfy | what the parser and the printer promise about whole texts |
| `Namespaces` | namespaces.dfy | `Nil` and the four name-space identifiers with their literals |
| `ErrorTexts` | error_texts.dfy | the three malformed texts the package's test table lists, three texts that show which defect decides the error, and their errors |

The parser is characterised exactly. `Parse` succeeds on precisely the
`AcceptedForm` texts, and it then returns the bytes the body stands for. The
accepted texts are:
- a canonical body of 36 bytes;
- `{` followed by a body, with or without a closing `}`;
- `urn:uuid:` followed by a body.

The panic is characterised exactly too. Each of the four errors has a lemma
giving the inputs that produce it. Within a group the loop runs four checks in
order: the separator, the length, the too-long test (last group only), then
the digits. The first check that fails decides the error. Each error lemma
therefore asks only that the text pass the checks made before the defect it
names, and leaves everything after that defect unconstrained:
- a wrong separator (`MissingSeparatorInput`);
- a text that ends early (`TruncatedInput`), whatever its cut group holds;
- a bad digit (`BadDigitInput`), whatever follows its group;
- too much trailing text (`TrailingInput`), whatever the last group holds;
- texts under 32 bytes (`ShortInput`).

The panic occurs exactly for `urn:uuid:` followed by the first four groups
and nothing else, 32 bytes in all. The loop then reads `t[0]` of an empty
slice at uuid.go:156. The model reproduces this as the `Panicked` outcome.
The parser's other surprising acceptance is also kept: a text that opens with
`{` may omit the closing brace.

Two more points on the source:
- The middle two tests of `Variant` are exact, not always true:
  `(b & 0xc0) | 0x80 == 0x80` holds exactly when bit 6 is clear, and
  `(b & 0xe0) | 0xc0 == 0xc0` exactly when bit 5 is clear. So `VariantOf`
  states the four top-bit patterns `0xx`, `10x`, `110` and `111`.
- `Must` panics on an error. Here it is a function whose precondition is that
  the parse succeeded. The name-space lemmas discharge that precondition for
  the four literals.

## Model

| member | source | states |
|---|---|---|
| Hex.Encode | uuid.go:112 | `%x` on a byte slice writes exactly two digits per byte, all of them lower-case hex |
| Hex.Decode | uuid.go:174-177 | decoding succeeds exactly when every byte is a hex digit of either case, and then yields half as many bytes |
| Hex.DecodeEncode | uuid.go:174 | decoding the digits `%x` writes gives back the original bytes |
| Hex.EncodeAt | uuid.go:112 | byte `j` is written as the digits of its high and low nibble at positions `2j` and `2j+1` |
| Hex.DecodeAt | uuid.go:174 | byte `j` of the decoded output is read from the digit pair at positions `2j` and `2j+1` |
| Uuid.Version | uuid.go:93-95 | the version is below 16 and is byte 6 divided by 16 (its high nibble) |
| Uuid.VariantOf | uuid.go:97-107 | NCS, RFC4122, Microsoft and Future are returned exactly for top bits of byte 8 equal to `0xx`, `10x`, `110` and `111` respectively, each as an if-and-only-if |
| Uuid.Equal | uuid.go:86-88 | the byte-wise comparison is true exactly when the two identifiers are equal |
| Uuid.Stamp | uuid.go:30-31 | after the two stores the version field holds the given version and the variant is RFC4122; every byte other than 6 and 8 is unchanged, as are the low nibble of byte 6 and the low six bits of byte 8 |
| Uuid.NewFromHash | uuid.go:186-193 | the identifier is the first 16 bytes of the hash of namespace bytes followed by name bytes; later digest bytes are dropped |
| Uuid.NewV3 | uuid.go:28-33 | the result has version 3 and the RFC4122 variant, and agrees with the MD5 digest everywhere outside the version and variant bits |
| Uuid.NewV4 | uuid.go:35-43 | the result has version 4 and the RFC4122 variant, and agrees with the random bytes everywhere outside the version and variant bits |
| Uuid.NewV5 | uuid.go:45-50 | the result has version 5 and the RFC4122 variant, and agrees with the SHA-1 digest everywhere outside the version and variant bits |
| Codec.String | uuid.go:111-113 | the text has 36 bytes: `-` at indices 8, 13, 18 and 23, and a lower-case hex digit everywhere else |
| Groups.Step | uuid.go:154-181 | one pass of the loop over a group whose separator is in place: it fails on a bad digit, or else moves on with the decoded group appended |
| Groups.Accept | uuid.go:154-183 | from any group on, the rest of a canonical body, followed by nothing or (braced) one `}`, is read to the bytes the body stands for |
| Groups.Conform | uuid.go:154-183 | conversely, a text the loop reads through is a canonical body followed by nothing or (braced) one `}`, and a text on which it panics conforms and ends right before a separator |
| Groups.Truncated | uuid.go:153-166 | a text that ends before the body does is too short, or panics when it ends right before a separator, whatever its cut group holds, once every earlier group is whole and the cut group's separator (if the text holds it) is in place |
| Groups.Trailing | uuid.go:153-171 | a text that runs past the body, other than by one `}` after `{`, is too long once the first four groups and the last separator are in place, whatever the last group holds |
| Groups.BadDigit | uuid.go:153-177 | a non-hex byte in a group gives the invalid-digit error once the earlier groups are whole, its separator is in place, the group is complete and (for the last group) the too-long test passes; nothing after the group matters |
| Groups.MissingDash | uuid.go:155-159 | a text that conforms up to a separator index but has some other byte there has an invalid format |
| CodecLaws.ParseAcceptsExactly | uuid.go:136-184 | `Parse` succeeds if and only if the text is a body, `{` + body (with or without `}`), or `urn:uuid:` + body, and then returns the bytes the body stands for |
| CodecLaws.AcceptedParses | uuid.go:142-150 | each accepted form parses to the value of its body |
| CodecLaws.ParsedIsAccepted | uuid.go:142-183 | every text that parses has one of the accepted forms |
| CodecLaws.FormsAgree | uuid.go:131-135 | the plain, braced (with and without `}`) and URN forms of a body all parse to the same bytes |
| CodecLaws.StringValue | uuid.go:111-113 | the written text is a canonical body standing for the identifier it was written from |
| CodecLaws.StringOfBody | uuid.go:111-113 | every lower-case canonical body is exactly the text written for the bytes it stands for, so the written texts are precisely the lower-case bodies |
| CodecLaws.StringDigits | uuid.go:112 | byte `j` is written as its two nibble digits at body index `DigitIndex(j)` |
| CodecLaws.ParseString | uuid.go:111-113 | `Parse(u.String()) == u` for every identifier |
| CodecLaws.RoundTrip | uuid.go:131-135 | the round trip also holds for the braced and URN spellings of the written text |
| CodecLaws.CaseInsensitive | uuid.go:174 | the upper-case spelling of the written text parses to the same identifier |
| CodecLaws.UpperBody | uuid.go:174 | spelling a body's digits in upper case keeps it canonical and keeps the bytes it stands for |
| CodecLaws.ShortInput | uuid.go:137-140 | every text under 32 bytes is too short |
| CodecLaws.PanicsExactly | uuid.go:154-160 | `Parse` panics if and only if the text is `urn:uuid:` followed by 23 conforming bytes |
| CodecLaws.TruncatedInput | uuid.go:136-166 | a text shorter than a body, whose groups before the cut one are whole and whose cut group's separator (if present) is in place, is too short in the plain and braced forms, and in the URN form except for the 23-byte panic |
| CodecLaws.TrailingInput | uuid.go:136-171 | a text longer than a body whose first four groups and last separator are in place is too long in the plain and URN forms, and in the braced form unless the excess is exactly `}`, whatever the last group holds |
| CodecLaws.BadDigitInput | uuid.go:136-177 | a non-hex byte in a group, reached with the earlier groups whole, its separator in place and the group complete, gives the invalid-digit error in every form that reads the text, whatever follows (for the last group, once the too-long test passes) |
| CodecLaws.MissingSeparatorInput | uuid.go:155-159 | a text that conforms up to a separator index but holds something else there has an invalid format, in every form long enough not to be too short |
| Namespaces.NilString | uuid.go:53 | `Nil` is written as `00000000-0000-0000-0000-000000000000` |
| Namespaces.NilParses | uuid.go:53 | that text parses back to `Nil` |
| Namespaces.NilFields | uuid.go:53 | `Nil` has version 0 and the NCS variant |
| Namespaces.NamespaceDNSString | uuid.go:57 | `String` writes `NamespaceDNS` as its literal `6ba7b810-9dad-11d1-80b4-00c04fd430c8` |
| Namespaces.NamespaceDNSParses | uuid.go:57 | `Must(Parse(...))` of the literal succeeds and yields `NamespaceDNS` |
| Namespaces.NamespaceDNSFields | uuid.go:57 | `NamespaceDNS` has version 1 and the RFC4122 variant |
| Namespaces.NamespaceURLString | uuid.go:58 | `String` writes `NamespaceURL` as its literal |
| Namespaces.NamespaceURLParses | uuid.go:58 | `Must(Parse(...))` of the literal succeeds and yields `NamespaceURL` |
| Namespaces.NamespaceURLFields | uuid.go:58 | `NamespaceURL` has version 1 and the RFC4122 variant |
| Namespaces.NamespaceOIDString | uuid.go:59 | `String` writes `NamespaceOID` as its literal |
| Namespaces.NamespaceOIDParses | uuid.go:59 | `Must(Parse(...))` of the literal succeeds and yields `NamespaceOID` |
| Namespaces.NamespaceOIDFields | uuid.go:59 | `NamespaceOID` has version 1 and the RFC4122 variant |
| Namespaces.NamespaceX500String | uuid.go:60 | `String` writes `NamespaceX500` as its literal |
| Namespaces.NamespaceX500Parses | uuid.go:60 | `Must(Parse(...))` of the literal succeeds and yields `NamespaceX500` |
| Namespaces.NamespaceX500Fields | uuid.go:60 | `NamespaceX500` has version 1 and the RFC4122 variant |
| ErrorTexts.ShortTextRejected | uuid_test.go:52 | `6ba7` is too short |
| ErrorTexts.UnseparatedTextRejected | uuid_test.go:51 | 32 digits without separators have an invalid format |
| ErrorTexts.LongTextRejected | uuid_test.go:53 | a body followed by two more digits is too long |
| ErrorTexts.LettersTooLongRejected | uuid.go:168-177 | `00000000-0000-0000-0000-zzzzzzzzzzzzab` is too long: the too-long test runs before the last group is decoded |
| ErrorTexts.LettersTooShortRejected | uuid.go:163-177 | `00000000-0000-0000-0000-zzzzzzzz` is too short: the length test runs before the last group is decoded |
| ErrorTexts.BadFirstTooLongRejected | uuid.go:153-177 | `0000000z-0000-0000-0000-000000000000ab` has a bad digit: the first group fails before the length of the last is looked at |

## Left out

- The `crypto/rand` reader: `NewV4` takes the 16 random bytes as a parameter. The source ignores the error and count of `random.Read`, so a short read is not modelled.
- MD5 and SHA-1 are foreign primitives. They are parameters of type `seq<bv8> -> Digest`, so the fixed version-3 and version-5 identifiers of the test table, which depend on the real hashes, are not proved.
- Uuid.NewFromHash: only digests of at least 16 bytes are modelled. Go's `copy` into the zeroed array would leave the tail zero for a shorter digest, which neither MD5 (16 bytes) nor SHA-1 (20 bytes) produces.
- The panic of `Must`: it is the precondition of `Codec.Must` instead.
- The thin wrappers `MakeV3`, `MakeV4`, `MakeV5`, `MarshalText` and `Bytes` only delegate to modelled operations.
- The error message texts of `fmt.Errorf`: errors are the four constructors of `ParseError`.
- The partially filled receiver that `UnmarshalText` leaves behind when it fails midway: a rejected parse carries no bytes.
- `encoding/hex` is not part of this model beyond `hex.Decode` and the `%x` output that `Encode` models. The decoder's error values collapse into `None`.
- The converse of the four error lemmas is not stated: the model proves which error each kind of defect produces, but has no single lemma saying that every rejected text has one of those defects (`ParseAcceptsExactly` does say that every rejected or panicking text is outside the accepted forms).
