/**
 * What `String` and `Parse` promise about whole texts: the written form,
 * the round trip, the agreement of the three surface forms, case
 * insensitivity, and exactly which texts end in which error (or in the
 * index-out-of-range panic). The group-by-group reasoning is in `Groups`.
 */
module CodecLaws {
  import Hex
  import opened Uuid
  import opened Codec
  import opened Groups

  // ---------------------------------------------------------------------
  // Which branch of `UnmarshalText` a text takes
  // ---------------------------------------------------------------------

  /** A text that starts with a digit and has its first separator in place is read as the plain form. */
  lemma PlainForm(text: seq<bv8>)
    requires |text| >= 32 && Hex.IsHexDigit(text[0]) && text[8] == Dash
    ensures Parse(text) == ParseGroups(text, false, 0, [])
  {
    assert text[..9][8] != UrnPrefix[8];
  }

  /** After `urn:uuid:` the rest is read unbraced. */
  lemma UrnForm(p: seq<bv8>)
    requires |p| >= 23
    ensures Parse(UrnPrefix + p) == ParseGroups(p, false, 0, [])
  {
    assert (UrnPrefix + p)[..9] == UrnPrefix;
    assert (UrnPrefix + p)[9..] == p;
  }

  /** After `{` the rest is read braced. */
  lemma BracedForm(p: seq<bv8>)
    requires |p| >= 31
    ensures Parse([LBrace] + p) == ParseGroups(p, true, 0, [])
  {
    assert ([LBrace] + p)[..9][0] != UrnPrefix[0];
    assert ([LBrace] + p)[1..] == p;
  }

  // ---------------------------------------------------------------------
  // Accepted texts
  // ---------------------------------------------------------------------

  /** A canonical body, read from group 0 and followed by `tail`, yields the bytes it stands for. */
  lemma AcceptBody(b: seq<bv8>, tail: seq<bv8>, braced: bool)
    requires IsCanonicalShape(b) && TailOk(tail, braced)
    ensures ParseGroups(b + tail, braced, 0, []) == Parsed(BodyValue(b))
  {
    Accept(b, tail, braced, 0, []);
    assert b[Pos(0)..] == b;
    assert [] + BodyValue(b)[ByteOffset(0)..] == BodyValue(b);
  }

  /** The plain form of a body parses to the bytes it stands for. */
  lemma PlainParses(b: seq<bv8>)
    requires IsCanonicalShape(b)
    ensures Parse(b) == Parsed(BodyValue(b))
  {
    PlainForm(b);
    AcceptBody(b, [], false);
    assert b + [] == b;
  }

  /** The braced form of a body, closing brace included, parses to the bytes it stands for. */
  lemma ClosedParses(b: seq<bv8>)
    requires IsCanonicalShape(b)
    ensures Parse([LBrace] + b + [RBrace]) == Parsed(BodyValue(b))
  {
    BracedForm(b + [RBrace]);
    AcceptBody(b, [RBrace], true);
    assert [LBrace] + (b + [RBrace]) == [LBrace] + b + [RBrace];
  }

  /** The braced form of a body without its closing brace parses too. */
  lemma OpenParses(b: seq<bv8>)
    requires IsCanonicalShape(b)
    ensures Parse([LBrace] + b) == Parsed(BodyValue(b))
  {
    BracedForm(b);
    AcceptBody(b, [], true);
    assert b + [] == b;
  }

  /** The URN form of a body parses to the bytes it stands for. */
  lemma UrnParses(b: seq<bv8>)
    requires IsCanonicalShape(b)
    ensures Parse(UrnPrefix + b) == Parsed(BodyValue(b))
  {
    UrnForm(b);
    AcceptBody(b, [], false);
    assert b + [] == b;
  }

  /** Every accepted form parses, to the bytes its body stands for. */
  lemma AcceptedParses(text: seq<bv8>)
    requires AcceptedForm(text)
    ensures Parse(text) == Parsed(BodyValue(FormBody(text)))
  {
    var b := FormBody(text);
    if |text| == 36 {
      PlainParses(b);
    } else if |text| == 45 {
      assert text == UrnPrefix + b;
      UrnParses(b);
    } else if |text| == 37 {
      assert text == [LBrace] + b;
      OpenParses(b);
    } else {
      assert text == [LBrace] + b + [RBrace];
      ClosedParses(b);
    }
  }

  /** A text the loop reads through from the start is a canonical body with an allowed tail. */
  lemma ReadThroughBody(t: seq<bv8>, braced: bool)
    requires ParseGroups(t, braced, 0, []).Parsed?
    ensures |t| >= 36 && IsCanonicalShape(t[..36]) && TailOk(t[36..], braced)
  {
    Conform(t, braced, 0, []);
  }

  /** A text read through after `urn:uuid:` is the URN form. */
  lemma UrnReadThrough(text: seq<bv8>)
    requires |text| >= 9 && ParseGroups(text[9..], false, 0, []).Parsed?
    ensures |text| == 45 && IsCanonicalShape(text[9..])
  {
    ReadThroughBody(text[9..], false);
    assert text[9..][..36] == text[9..];
  }

  /** A text read through after `{` is a braced form, with or without its closing brace. */
  lemma BracedReadThrough(text: seq<bv8>)
    requires |text| >= 1 && ParseGroups(text[1..], true, 0, []).Parsed?
    ensures |text| == 37 || (|text| == 38 && text[37] == RBrace)
    ensures IsCanonicalShape(text[1..37])
  {
    ReadThroughBody(text[1..], true);
    assert text[1..][..36] == text[1..37];
  }

  /** Every text that parses has one of the accepted forms. */
  lemma ParsedIsAccepted(text: seq<bv8>)
    requires Parse(text).Parsed?
    ensures AcceptedForm(text)
  {
    if text[..9] == UrnPrefix {
      UrnReadThrough(text);
    } else if text[0] == LBrace {
      BracedReadThrough(text);
      assert |text| == 37 ==> text[1..] == text[1..37];
    } else {
      ReadThroughBody(text, false);
      assert text[..36] == text;
    }
  }

  /**
   * `Parse` succeeds on exactly the accepted forms, and then yields the
   * bytes of the body: the parser is neither stricter nor looser than the
   * 8-4-4-4-12 layout in its three wrappings.
   */
  lemma ParseAcceptsExactly(text: seq<bv8>)
    ensures Parse(text).Parsed? <==> AcceptedForm(text)
    ensures Parse(text).Parsed? ==> Parse(text).uuid == BodyValue(FormBody(text))
  {
    if Parse(text).Parsed? {
      ParsedIsAccepted(text);
    }
    if AcceptedForm(text) {
      AcceptedParses(text);
    }
  }

  /** The plain, braced (with or without `}`) and URN forms of a body parse to the same bytes. */
  lemma FormsAgree(b: seq<bv8>)
    requires IsCanonicalShape(b)
    ensures Parse(b) == Parsed(BodyValue(b))
    ensures Parse([LBrace] + b + [RBrace]) == Parsed(BodyValue(b))
    ensures Parse([LBrace] + b) == Parsed(BodyValue(b))
    ensures Parse(UrnPrefix + b) == Parsed(BodyValue(b))
  {
    PlainParses(b);
    ClosedParses(b);
    OpenParses(b);
    UrnParses(b);
  }

  // ---------------------------------------------------------------------
  // What `String` writes
  // ---------------------------------------------------------------------

  /** Group `i` of the written text is the encoding of the bytes it stands for. */
  lemma StringGroup(u: UUID, i: nat)
    requires i < 5
    ensures String(u)[Start(i)..Pos(i + 1)] == Hex.Encode(u[ByteOffset(i)..ByteOffset(i + 1)])
  {
    var e0, e1, e2, e3, e4 := Hex.Encode(u[0..4]), Hex.Encode(u[4..6]), Hex.Encode(u[6..8]),
                              Hex.Encode(u[8..10]), Hex.Encode(u[10..16]);
    var s := String(u);
    assert s == Join(e0, e1, e2, e3, e4);
    if i == 0 {
      assert s[0..8] == e0;
    } else if i == 1 {
      assert s[9..13] == e1;
    } else if i == 2 {
      assert s[14..18] == e2;
    } else if i == 3 {
      assert s[19..23] == e3;
    } else {
      assert s[24..36] == e4;
    }
  }

  /** The written text is a canonical body standing for the bytes it was written from. */
  lemma StringValue(u: UUID)
    ensures IsCanonicalShape(String(u))
    ensures BodyValue(String(u)) == u
  {
    var s := String(u);
    assert IsCanonicalShape(s);
    forall m | 0 <= m < 16
      ensures BodyValue(s)[m] == u[m]
    {
      var i := GroupOf(m);
      var a, c := ByteOffset(i), ByteOffset(i + 1);
      GroupValue(s, i);
      StringGroup(u, i);
      Hex.DecodeEncode(u[a..c]);
      assert BodyValue(s)[a..c][m - a] == u[a..c][m - a];
    }
  }

  /** Where group `i` of a text is the encoding of its bytes, byte `j` is written at `DigitIndex(j)`. */
  lemma GroupDigits(s: seq<bv8>, u: UUID, i: nat, j: nat)
    requires i < 5 && ByteOffset(i) <= j < ByteOffset(i + 1)
    requires DigitIndex(j) == Start(i) + 2 * (j - ByteOffset(i)) && Pos(i + 1) <= |s|
    requires s[Start(i)..Pos(i + 1)] == Hex.Encode(u[ByteOffset(i)..ByteOffset(i + 1)])
    ensures s[DigitIndex(j)] == Hex.Digit(u[j] >> 4)
    ensures s[DigitIndex(j) + 1] == Hex.Digit(u[j] & 0x0f)
  {
    var a, c := ByteOffset(i), ByteOffset(i + 1);
    Layout(i);
    Hex.EncodeAt(u[a..c], j - a);
    assert u[a..c][j - a] == u[j];
    assert s[Start(i)..Pos(i + 1)][2 * (j - a)] == s[DigitIndex(j)];
    assert s[Start(i)..Pos(i + 1)][2 * (j - a) + 1] == s[DigitIndex(j) + 1];
  }

  /** The two digits `String` writes for byte `j`, at the body index `DigitIndex(j)`. */
  lemma StringDigits(u: UUID, j: nat)
    requires j < 16
    ensures String(u)[DigitIndex(j)] == Hex.Digit(u[j] >> 4)
    ensures String(u)[DigitIndex(j) + 1] == Hex.Digit(u[j] & 0x0f)
  {
    var i := GroupOf(j);
    StringGroup(u, i);
    GroupDigits(String(u), u, i, j);
  }

  /** A canonical body spelled in lower case, as `String` writes it. */
  predicate IsLowerBody(b: seq<bv8>) {
    IsCanonicalShape(b) && forall k :: 0 <= k < 36 && !IsDashIndex(k) ==> Hex.IsLowerHexDigit(b[k])
  }

  /** The byte whose digits stand at body index `k`. */
  function DigitByte(k: nat): (j: nat)
    requires k < 36 && !IsDashIndex(k)
    ensures j < 16 && (DigitIndex(j) == k || DigitIndex(j) + 1 == k)
  {
    var dashes := if k < 8 then 0 else if k < 13 then 1 else if k < 18 then 2 else if k < 23 then 3 else 4;
    (k - dashes) / 2
  }

  /**
   * Conversely to `StringValue`, `String` writes every lower-case body back
   * exactly: the written texts are precisely the lower-case bodies.
   */
  lemma StringOfBody(b: seq<bv8>)
    requires IsLowerBody(b)
    ensures String(BodyValue(b)) == b
  {
    var v := BodyValue(b);
    var s := String(v);
    forall k | 0 <= k < 36
      ensures s[k] == b[k]
    {
      if !IsDashIndex(k) {
        var j := DigitByte(k);
        var d := DigitIndex(j);
        StringDigits(v, j);
        Hex.PairNibbles(b[d], b[d + 1]);
        Hex.DigitOfValue(b[d]);
        Hex.DigitOfValue(b[d + 1]);
      }
    }
  }

  /** `Parse(u.String()) == u`: every identifier reads back from the text written for it. */
  lemma ParseString(u: UUID)
    ensures Parse(String(u)) == Parsed(u)
  {
    StringValue(u);
    PlainParses(String(u));
  }

  /** The round trip holds for the braced and URN spellings of the written text too. */
  lemma RoundTrip(u: UUID)
    ensures Parse(String(u)) == Parsed(u)
    ensures Parse([LBrace] + String(u) + [RBrace]) == Parsed(u)
    ensures Parse(UrnPrefix + String(u)) == Parsed(u)
  {
    StringValue(u);
    FormsAgree(String(u));
  }

  /** The text with every `a-f` spelled `A-F`. */
  function UpperText(s: seq<bv8>): (r: seq<bv8>)
    ensures |r| == |s|
    ensures forall k :: 0 <= k < |s| ==> r[k] == Hex.Upper(s[k])
  {
    seq(|s|, k requires 0 <= k < |s| => Hex.Upper(s[k]))
  }

  /** Spelling a body in upper case changes neither its shape nor the bytes it stands for. */
  lemma UpperBody(b: seq<bv8>)
    requires IsCanonicalShape(b)
    ensures IsCanonicalShape(UpperText(b))
    ensures BodyValue(UpperText(b)) == BodyValue(b)
  {
    var up := UpperText(b);
    assert IsCanonicalShape(up);
    forall m | 0 <= m < 16
      ensures BodyValue(up)[m] == BodyValue(b)[m]
    {
      var d := DigitIndex(m);
      assert Hex.Value(up[d]) == Hex.Value(b[d]);
      assert Hex.Value(up[d + 1]) == Hex.Value(b[d + 1]);
    }
  }

  /** Parsing is case-insensitive: the upper-case spelling of `u.String()` also reads back as `u`. */
  lemma CaseInsensitive(u: UUID)
    ensures Parse(UpperText(String(u))) == Parsed(u)
  {
    StringValue(u);
    UpperBody(String(u));
    FormsAgree(UpperText(String(u)));
  }

  // ---------------------------------------------------------------------
  // Rejected texts
  // ---------------------------------------------------------------------

  /** Under 32 bytes, a text is too short whatever it holds. */
  lemma ShortInput(text: seq<bv8>)
    requires |text| < 32
    ensures Parse(text) == Rejected(TooShort)
  {
  }

  /**
   * The panic: `Parse` indexes past the end of the text exactly for
   * `urn:uuid:` followed by the first four groups and nothing else, the only
   * text of 32 bytes or more that runs out right before a separator.
   */
  lemma PanicsExactly(text: seq<bv8>)
    ensures Parse(text) == Panicked <==>
              |text| == 32 && text[..9] == UrnPrefix && ConformsFrom(text[9..], 0)
  {
    if |text| >= 32 {
      if text[..9] == UrnPrefix {
        var t := text[9..];
        if ParseGroups(t, false, 0, []).Panicked? {
          Conform(t, false, 0, []);
        }
        if |t| == 23 && ConformsFrom(t, 0) {
          assert t[..23] == t;
          Truncated(t, false, 0, []);
        }
      } else if text[0] == LBrace {
        if ParseGroups(text[1..], true, 0, []).Panicked? {
          Conform(text[1..], true, 0, []);
        }
      } else if ParseGroups(text, false, 0, []).Panicked? {
        Conform(text, false, 0, []);
      }
    }
  }

  /**
   * A text that stops short of a whole body is too short in every form,
   * whatever its cut group holds, provided the groups before that one are
   * whole and its separator, if present, is in place; the one exception is
   * the panic of `urn:uuid:` followed by 23 bytes.
   */
  lemma TruncatedInput(p: seq<bv8>)
    requires |p| < 36 && ConformsFrom(p[..Reach(|p|)], 0)
    ensures Parse(p) == Rejected(TooShort)
    ensures Parse([LBrace] + p) == Rejected(TooShort)
    ensures Parse(UrnPrefix + p) == if |p| == 23 then Panicked else Rejected(TooShort)
  {
    if |p| >= 32 {
      assert p[..Reach(|p|)][0] == p[0] && p[..Reach(|p|)][8] == p[8];
      PlainForm(p);
      Truncated(p, false, 0, []);
    }
    if |p| >= 31 {
      BracedForm(p);
      Truncated(p, true, 0, []);
    }
    if |p| >= 23 {
      UrnForm(p);
      Truncated(p, false, 0, []);
    }
  }

  /**
   * A text that runs past the end of a body is too long in the plain and URN
   * forms, and in the braced form unless all it adds is one `}`, whatever
   * the digits of its last group are: the length test comes first.
   */
  lemma TrailingInput(p: seq<bv8>)
    requires |p| > 36 && ConformsFrom(p[..24], 0)
    ensures Parse(p) == Rejected(TooLong)
    ensures Parse(UrnPrefix + p) == Rejected(TooLong)
    ensures p[36..] != [RBrace] ==> Parse([LBrace] + p) == Rejected(TooLong)
  {
    assert p[..24][0] == p[0] && p[..24][8] == p[8];
    PlainForm(p);
    Trailing(p, false, 0, []);
    UrnForm(p);
    if p[36..] != [RBrace] {
      BracedForm(p);
      Trailing(p, true, 0, []);
    }
  }

  /**
   * A byte other than a hex digit at body index `k` gives the invalid-digit
   * error in every form, whatever follows its group, once the groups before
   * it are whole, its separator is in place and the text holds the whole
   * group; in the last group the text must also pass the too-long test.
   */
  lemma BadDigitInput(p: seq<bv8>, k: nat)
    requires k < 36 && !IsDashIndex(k) && Pos(GroupAt(k) + 1) <= |p|
    requires ConformsFrom(p[..Start(GroupAt(k))], 0) && !Hex.IsHexDigit(p[k])
    ensures |p| >= 32 && p[0] != LBrace && p[..9] != UrnPrefix && (GroupAt(k) < 4 || |p| == 36) ==>
              Parse(p) == Rejected(InvalidHexDigit)
    ensures |p| >= 31 && (GroupAt(k) < 4 || TailOk(p[36..], true)) ==>
              Parse([LBrace] + p) == Rejected(InvalidHexDigit)
    ensures |p| >= 23 && (GroupAt(k) < 4 || |p| == 36) ==>
              Parse(UrnPrefix + p) == Rejected(InvalidHexDigit)
  {
    if GroupAt(k) < 4 || |p| == 36 {
      BadDigit(p, false, 0, [], k);
    }
    if |p| >= 31 && (GroupAt(k) < 4 || TailOk(p[36..], true)) {
      BracedForm(p);
      BadDigit(p, true, 0, [], k);
    }
    if |p| >= 23 {
      UrnForm(p);
    }
  }

  /**
   * A text that conforms up to a separator index but holds something else
   * there has an invalid format, in every form, once it is long enough not
   * to be too short.
   */
  lemma MissingSeparatorInput(p: seq<bv8>, d: nat)
    requires IsDashIndex(d) && d < |p| && ConformsFrom(p[..d], 0) && p[d] != Dash
    ensures |p| >= 32 ==> Parse(p) == Rejected(InvalidFormat)
    ensures |p| >= 31 ==> Parse([LBrace] + p) == Rejected(InvalidFormat)
    ensures |p| >= 23 ==> Parse(UrnPrefix + p) == Rejected(InvalidFormat)
  {
    MissingDash(p, false, 0, [], d);
    MissingDash(p, true, 0, [], d);
    assert p[..d][0] == p[0];
    if |p| >= 32 {
      assert p[..9][0] == p[0];
      assert p[..9] != UrnPrefix;
    }
    if |p| >= 31 {
      BracedForm(p);
    }
    if |p| >= 23 {
      UrnForm(p);
    }
  }
}
