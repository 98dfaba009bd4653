/**
 * The loop of `UnmarshalText` over the five groups, followed from group `i`
 * on. Each lemma here is proved by induction on the groups left, one pass
 * of the loop per step; `CodecLaws` states what they come to for whole texts.
 *
 * When group `i` is about to be read, the unread text `t` stands at body
 * index `Pos(i)`: its first `Span(i)` bytes are the separator (for i > 0)
 * and the group's digits, `GroupText(t, i)`, and `Rest(t, i)` is what the
 * next pass sees.
 */
module Groups {
  import Hex
  import opened Codec

  // ---------------------------------------------------------------------
  // The layout of one group
  // ---------------------------------------------------------------------

  /** The body index of the first digit of group `i`. */
  function Start(i: nat): nat
    requires i < 5
  {
    if i == 0 then 0 else Pos(i) + 1
  }

  /** The bytes one pass of the loop consumes for group `i`: separator and digits. */
  function Span(i: nat): nat
    requires i < 5
  {
    Pos(i + 1) - Pos(i)
  }

  /** The digits of group `i` in the unread text. */
  function GroupText(t: seq<bv8>, i: nat): seq<bv8>
    requires i < 5 && Pos(i + 1) <= Pos(i) + |t|
  {
    t[Start(i) - Pos(i)..Span(i)]
  }

  /** The unread text after group `i`. */
  function Rest(t: seq<bv8>, i: nat): seq<bv8>
    requires i < 5 && Pos(i + 1) <= Pos(i) + |t|
  {
    t[Span(i)..]
  }

  /** What may follow the last group: nothing, or one `}` when the text began with `{`. */
  predicate TailOk(tail: seq<bv8>, braced: bool) {
    tail == [] || (braced && tail == [RBrace])
  }

  lemma Layout(i: nat)
    requires i < 5
    ensures ByteGroups[i] == 2 * (ByteOffset(i + 1) - ByteOffset(i)) && ByteGroups[i] >= 4
    ensures Pos(i) <= Start(i) < Pos(i + 1) == Start(i) + ByteGroups[i] <= 36
    ensures i > 0 ==> IsDashIndex(Pos(i)) && Start(i) == Pos(i) + 1
    ensures ByteOffset(i) < ByteOffset(i + 1)
  {
  }

  /** Group `i` holds no separator, and byte `m` of the value is read from its digits. */
  lemma Digits(i: nat)
    requires i < 5
    ensures forall k :: Start(i) <= k < Pos(i + 1) ==> !IsDashIndex(k)
    ensures forall k :: Pos(i) < k < Pos(i + 1) ==> !IsDashIndex(k)
    ensures forall m :: ByteOffset(i) <= m < ByteOffset(i + 1) ==>
              DigitIndex(m) == Start(i) + 2 * (m - ByteOffset(i))
  {
  }

  /** The group that byte `j` of the value is read from, and where its digits stand. */
  lemma GroupOf(j: nat) returns (i: nat)
    requires j < 16
    ensures i < 5 && ByteOffset(i) <= j < ByteOffset(i + 1)
    ensures DigitIndex(j) == Start(i) + 2 * (j - ByteOffset(i))
  {
    i := if j < 4 then 0 else if j < 6 then 1 else if j < 8 then 2 else if j < 10 then 3 else 4;
  }

  /** The group whose span, separator and digits, holds body index `e`. */
  function GroupAt(e: nat): (j: nat)
    requires e < 36
    ensures j < 5 && Pos(j) <= e < Pos(j + 1)
  {
    if e < 8 then 0 else if e < 13 then 1 else if e < 18 then 2 else if e < 23 then 3 else 4
  }

  /**
   * How much of a text that ends at body index `e` the loop checks before
   * it finds the end: the groups before the cut one, and the cut group's
   * separator when the text holds it.
   */
  function Reach(e: nat): (r: nat)
    requires e < 36
    ensures Pos(GroupAt(e)) <= r <= e
  {
    if e == Pos(GroupAt(e)) then e else Start(GroupAt(e))
  }

  /** Body index `e` at or past `Pos(i)` lies in group `i` or a later one, whose span starts past group `i`. */
  lemma Later(i: nat, e: nat)
    requires i < 5 && Pos(i) <= e < 36
    ensures i <= GroupAt(e)
    ensures GroupAt(e) == i <==> e < Pos(i + 1)
    ensures GroupAt(e) > i ==> i < 4 && Pos(i + 1) <= Reach(e) && Pos(i + 1) < Start(GroupAt(e))
  {
  }

  // ---------------------------------------------------------------------
  // Conformance of pieces of text
  // ---------------------------------------------------------------------

  /** A slice of a conforming text conforms at its own position. */
  lemma ConformsSlice(s: seq<bv8>, p: nat, a: nat, c: nat)
    requires ConformsFrom(s, p) && a <= c <= |s|
    ensures ConformsFrom(s[a..c], p + a)
  {
    forall k | 0 <= k < c - a
      ensures if IsDashIndex(p + a + k) then s[a..c][k] == Dash else Hex.IsHexDigit(s[a..c][k])
    {
      assert s[a..c][k] == s[a + k];
    }
  }

  /** Two conforming pieces, side by side, conform together. */
  lemma ConformsJoin(s: seq<bv8>, p: nat, n: nat)
    requires n <= |s| && ConformsFrom(s[..n], p) && ConformsFrom(s[n..], p + n)
    ensures ConformsFrom(s, p)
  {
    forall k | 0 <= k < |s|
      ensures if IsDashIndex(p + k) then s[k] == Dash else Hex.IsHexDigit(s[k])
    {
      if k < n {
        assert s[..n][k] == s[k];
      } else {
        assert s[n..][k - n] == s[k];
      }
    }
  }

  /** The first `Span(i)` bytes conform iff the separator is in place and the digits are hex. */
  lemma SpanConforms(t: seq<bv8>, i: nat)
    requires i < 5 && Pos(i + 1) <= Pos(i) + |t|
    ensures ConformsFrom(t[..Span(i)], Pos(i)) <==>
              (i > 0 ==> t[0] == Dash) &&
              forall k :: 0 <= k < |GroupText(t, i)| ==> Hex.IsHexDigit(GroupText(t, i)[k])
  {
    Layout(i);
    Digits(i);
    var g := GroupText(t, i);
    var o := Start(i) - Pos(i);
    if ConformsFrom(t[..Span(i)], Pos(i)) {
      if i > 0 {
        assert t[..Span(i)][0] == t[0];
      }
      forall k | 0 <= k < |g|
        ensures Hex.IsHexDigit(g[k])
      {
        assert g[k] == t[..Span(i)][o + k];
      }
    }
    if (i > 0 ==> t[0] == Dash) && forall k :: 0 <= k < |g| ==> Hex.IsHexDigit(g[k]) {
      forall k | 0 <= k < Span(i)
        ensures if IsDashIndex(Pos(i) + k) then t[..Span(i)][k] == Dash else Hex.IsHexDigit(t[..Span(i)][k])
      {
        if k >= o {
          assert t[..Span(i)][k] == g[k - o];
        }
      }
    }
  }

  // ---------------------------------------------------------------------
  // One pass of the loop
  // ---------------------------------------------------------------------

  /**
   * One pass over group `i` whose separator is in place, which is long
   * enough, and after which (for the last group) nothing too much follows:
   * it fails on a bad digit, or moves on to group `i + 1`.
   */
  lemma Step(t: seq<bv8>, braced: bool, i: nat, acc: seq<bv8>)
    requires i < 5 && |acc| == ByteOffset(i)
    requires Pos(i + 1) <= Pos(i) + |t|
    requires i > 0 ==> t[0] == Dash
    requires i == 4 ==> TailOk(Rest(t, i), braced)
    ensures |GroupText(t, i)| % 2 == 0
    ensures Hex.Decode(GroupText(t, i)).None? ==> ParseGroups(t, braced, i, acc) == Rejected(InvalidHexDigit)
    ensures Hex.Decode(GroupText(t, i)).Some? ==>
              |acc + Hex.Decode(GroupText(t, i)).value| == ByteOffset(i + 1) &&
              ParseGroups(t, braced, i, acc) ==
              ParseGroups(Rest(t, i), braced, i + 1, acc + Hex.Decode(GroupText(t, i)).value)
  {
    Layout(i);
    var t1 := if i > 0 then t[1..] else t;
    var g := ByteGroups[i];
    assert t1[..g] == GroupText(t, i);
    assert t1[g..] == Rest(t, i);
  }

  /**
   * The unread text is the rest of a 36-byte text from group `i` on,
   * followed by `tail`: the pieces one pass sees are pieces of that text.
   */
  lemma BodyPieces(b: seq<bv8>, tail: seq<bv8>, i: nat)
    requires |b| == 36 && i < 5
    ensures Pos(i + 1) <= Pos(i) + |b[Pos(i)..] + tail|
    ensures (b[Pos(i)..] + tail)[..Span(i)] == b[Pos(i)..Pos(i + 1)]
    ensures GroupText(b[Pos(i)..] + tail, i) == b[Start(i)..Pos(i + 1)]
    ensures Rest(b[Pos(i)..] + tail, i) == b[Pos(i + 1)..] + tail
  {
    Layout(i);
    var t := b[Pos(i)..] + tail;
    assert t[..Span(i)] == b[Pos(i)..][..Span(i)] == b[Pos(i)..Pos(i + 1)];
    assert t[Start(i) - Pos(i)..Span(i)] == b[Start(i)..Pos(i + 1)];
    assert t[Span(i)..] == b[Pos(i)..][Span(i)..] + tail == b[Pos(i + 1)..] + tail;
  }

  /** Group `i` of a canonical body is all hex digits. */
  lemma GroupIsHex(b: seq<bv8>, i: nat)
    requires IsCanonicalShape(b) && i < 5
    ensures Hex.Decode(b[Start(i)..Pos(i + 1)]).Some?
  {
    Layout(i);
    Digits(i);
    ConformsSlice(b, 0, Start(i), Pos(i + 1));
  }

  /** A canonical body has its separators in place. */
  lemma ShapeSeparated(b: seq<bv8>)
    requires IsCanonicalShape(b)
    ensures Separated(b)
  {
  }

  /** Byte `m` of the value is read from the digit pair of group `i` that stands for it. */
  lemma GroupByte(b: seq<bv8>, i: nat, m: nat)
    requires IsCanonicalShape(b) && i < 5 && ByteOffset(i) <= m < ByteOffset(i + 1)
    ensures |b[Start(i)..Pos(i + 1)]| % 2 == 0
    ensures Hex.Decode(b[Start(i)..Pos(i + 1)]).Some?
    ensures Hex.Decode(b[Start(i)..Pos(i + 1)]).value[m - ByteOffset(i)] == BodyValue(b)[m]
  {
    Layout(i);
    GroupIsHex(b, i);
    var grp := b[Start(i)..Pos(i + 1)];
    var j := m - ByteOffset(i);
    var d := DigitIndex(m);
    assert d == Start(i) + 2 * j;
    Hex.DecodeAt(grp, j);
    assert grp[2 * j] == b[d] && grp[2 * j + 1] == b[d + 1];
    assert BodyValue(b)[m] == Hex.Pair(b[d], b[d + 1]);
  }

  /** Group `i` of a canonical body decodes to bytes `ByteOffset(i) .. ByteOffset(i + 1)` of its value. */
  lemma GroupValue(b: seq<bv8>, i: nat)
    requires IsCanonicalShape(b) && i < 5
    ensures Hex.Decode(b[Start(i)..Pos(i + 1)]) == Hex.Some(BodyValue(b)[ByteOffset(i)..ByteOffset(i + 1)])
  {
    Layout(i);
    GroupIsHex(b, i);
    var bs := Hex.Decode(b[Start(i)..Pos(i + 1)]).value;
    var v := BodyValue(b)[ByteOffset(i)..ByteOffset(i + 1)];
    forall j | 0 <= j < |v|
      ensures bs[j] == v[j]
    {
      GroupByte(b, i, ByteOffset(i) + j);
    }
    assert bs == v;
  }

  /** `acc + v[a..c] + v[c..] == acc + v[a..]`. */
  lemma SplitSlice(acc: seq<bv8>, v: seq<bv8>, a: nat, c: nat)
    requires a <= c <= |v|
    ensures acc + v[a..c] + v[c..] == acc + v[a..]
  {
    assert v[a..c] + v[c..] == v[a..];
  }

  /** One pass over group `i` of a text whose separators are in place. */
  lemma SeparatedStep(b: seq<bv8>, tail: seq<bv8>, braced: bool, i: nat, acc: seq<bv8>)
    requires Separated(b) && i < 5 && |acc| == ByteOffset(i) && (i == 4 ==> TailOk(tail, braced))
    ensures |b[Start(i)..Pos(i + 1)]| % 2 == 0
    ensures Hex.Decode(b[Start(i)..Pos(i + 1)]).None? ==>
              ParseGroups(b[Pos(i)..] + tail, braced, i, acc) == Rejected(InvalidHexDigit)
    ensures Hex.Decode(b[Start(i)..Pos(i + 1)]).Some? ==>
              |acc + Hex.Decode(b[Start(i)..Pos(i + 1)]).value| == ByteOffset(i + 1) &&
              ParseGroups(b[Pos(i)..] + tail, braced, i, acc) ==
              ParseGroups(b[Pos(i + 1)..] + tail, braced, i + 1, acc + Hex.Decode(b[Start(i)..Pos(i + 1)]).value)
  {
    Layout(i);
    BodyPieces(b, tail, i);
    var t := b[Pos(i)..] + tail;
    assert i > 0 ==> t[0] == b[Pos(i)];
    Step(t, braced, i, acc);
  }

  /**
   * One pass over group `i` of a text whose first `Span(i)` bytes conform:
   * the loop moves on to group `i + 1` with the decoded group appended.
   */
  lemma ConformingStep(t: seq<bv8>, braced: bool, i: nat, acc: seq<bv8>) returns (acc': seq<bv8>)
    requires i < 4 && |acc| == ByteOffset(i)
    requires Pos(i + 1) <= Pos(i) + |t| && ConformsFrom(t[..Span(i)], Pos(i))
    ensures |acc'| == ByteOffset(i + 1)
    ensures ParseGroups(t, braced, i, acc) == ParseGroups(Rest(t, i), braced, i + 1, acc')
  {
    SpanConforms(t, i);
    Step(t, braced, i, acc);
    acc' := acc + Hex.Decode(GroupText(t, i)).value;
  }

  /**
   * One pass over group `i` that the loop does not reject: the first
   * `Span(i)` bytes conform, and the loop moves on to group `i + 1`.
   */
  lemma AcceptedStep(t: seq<bv8>, braced: bool, i: nat, acc: seq<bv8>) returns (acc': seq<bv8>)
    requires i < 5 && |acc| == ByteOffset(i) && (i == 0 || |t| > 0)
    requires !ParseGroups(t, braced, i, acc).Rejected?
    ensures Pos(i + 1) <= Pos(i) + |t| && ConformsFrom(t[..Span(i)], Pos(i))
    ensures i == 4 ==> TailOk(Rest(t, i), braced)
    ensures |acc'| == ByteOffset(i + 1)
    ensures ParseGroups(t, braced, i, acc) == ParseGroups(Rest(t, i), braced, i + 1, acc')
  {
    Layout(i);
    assert Pos(i + 1) <= Pos(i) + |t|;
    assert i == 4 ==> TailOk(Rest(t, i), braced);
    Step(t, braced, i, acc);
    SpanConforms(t, i);
    acc' := acc + Hex.Decode(GroupText(t, i)).value;
  }

  /** A conforming prefix of at least `Span(i)` bytes splits into group `i` and a conforming rest. */
  lemma PrefixPieces(t: seq<bv8>, i: nat, n: nat)
    requires i < 5 && Span(i) <= n <= |t| && ConformsFrom(t[..n], Pos(i))
    ensures Pos(i + 1) <= Pos(i) + |t|
    ensures ConformsFrom(t[..Span(i)], Pos(i))
    ensures ConformsFrom(Rest(t, i)[..n - Span(i)], Pos(i + 1))
  {
    ConformsSlice(t[..n], Pos(i), 0, Span(i));
    assert t[..n][..Span(i)] == t[..Span(i)];
    ConformsSlice(t[..n], Pos(i), Span(i), n);
    assert t[..n][Span(i)..n] == Rest(t, i)[..n - Span(i)];
  }

  /** Group `i` and a conforming rest conform together. */
  lemma JoinPieces(t: seq<bv8>, i: nat, n: nat)
    requires i < 5 && Span(i) <= n <= |t|
    requires ConformsFrom(t[..Span(i)], Pos(i)) && ConformsFrom(Rest(t, i)[..n - Span(i)], Pos(i + 1))
    ensures ConformsFrom(t[..n], Pos(i))
  {
    assert t[..n][..Span(i)] == t[..Span(i)];
    assert t[..n][Span(i)..] == Rest(t, i)[..n - Span(i)];
    ConformsJoin(t[..n], Pos(i), Span(i));
  }

  /**
   * A text that ends inside the span of group `i`, with the separator in
   * place if it holds one, is too short, unless it is empty and group `i`
   * begins with a separator: the digits it holds are never looked at.
   */
  lemma ShortGroup(t: seq<bv8>, braced: bool, i: nat, acc: seq<bv8>)
    requires i < 5 && |acc| == ByteOffset(i) && |t| < Span(i)
    requires i > 0 && |t| > 0 ==> t[0] == Dash
    ensures ParseGroups(t, braced, i, acc) == if IsDashIndex(Pos(i) + |t|) then Panicked else Rejected(TooShort)
  {
    Layout(i);
    Digits(i);
  }

  // ---------------------------------------------------------------------
  // The loop from group `i` on
  // ---------------------------------------------------------------------

  /**
   * The rest of a canonical body, followed by nothing or (braced) by one
   * `}`, is read to the bytes the body stands for.
   */
  lemma {:induction false} Accept(b: seq<bv8>, tail: seq<bv8>, braced: bool, i: nat, acc: seq<bv8>)
    requires IsCanonicalShape(b) && TailOk(tail, braced) && i <= 5 && |acc| == ByteOffset(i)
    ensures ParseGroups(b[Pos(i)..] + tail, braced, i, acc) == Parsed(acc + BodyValue(b)[ByteOffset(i)..])
    decreases 5 - i
  {
    if i < 5 {
      ShapeSeparated(b);
      SeparatedStep(b, tail, braced, i, acc);
      GroupValue(b, i);
      var v := BodyValue(b);
      Accept(b, tail, braced, i + 1, acc + v[ByteOffset(i)..ByteOffset(i + 1)]);
      SplitSlice(acc, v, ByteOffset(i), ByteOffset(i + 1));
    }
  }

  /** The unread text, from group `i` on, is a body followed by nothing or (braced) one `}`. */
  predicate ReadThrough(t: seq<bv8>, braced: bool, i: nat)
    requires i <= 5
  {
    36 <= Pos(i) + |t| && ConformsFrom(t[..36 - Pos(i)], Pos(i)) && TailOk(t[36 - Pos(i)..], braced)
  }

  /** The unread text, from group `i` on, conforms and ends right before a separator. */
  predicate StopsAtSeparator(t: seq<bv8>, i: nat)
    requires i <= 5
  {
    IsDashIndex(Pos(i) + |t|) && ConformsFrom(t, Pos(i))
  }

  /** Group `i` put in front of a text that reads through, or stops at a separator, keeps it so. */
  lemma JoinGroup(t: seq<bv8>, braced: bool, i: nat)
    requires i < 4 && Pos(i + 1) <= Pos(i) + |t| && ConformsFrom(t[..Span(i)], Pos(i))
    ensures ReadThrough(Rest(t, i), braced, i + 1) ==> ReadThrough(t, braced, i)
    ensures StopsAtSeparator(Rest(t, i), i + 1) ==> StopsAtSeparator(t, i)
  {
    var rest := Rest(t, i);
    if ReadThrough(rest, braced, i + 1) {
      JoinPieces(t, i, 36 - Pos(i));
      assert t[36 - Pos(i)..] == rest[36 - Pos(i + 1)..];
    }
    if StopsAtSeparator(rest, i + 1) {
      assert rest[..|t| - Span(i)] == rest;
      JoinPieces(t, i, |t|);
      assert t[..|t|] == t;
    }
  }

  /**
   * Conversely, a text the loop does not reject conforms: if it is read
   * through, it is a body followed by nothing or (braced) one `}`; if it
   * panics, it conforms as far as it goes and stops right before a
   * separator.
   */
  lemma {:induction false} Conform(t: seq<bv8>, braced: bool, i: nat, acc: seq<bv8>)
    requires i <= 4 && |acc| == ByteOffset(i)
    requires !ParseGroups(t, braced, i, acc).Rejected?
    ensures ParseGroups(t, braced, i, acc).Parsed? ==> ReadThrough(t, braced, i)
    ensures ParseGroups(t, braced, i, acc).Panicked? ==> StopsAtSeparator(t, i)
    decreases 4 - i
  {
    if i == 0 || |t| > 0 {
      var acc' := AcceptedStep(t, braced, i, acc);
      if i < 4 {
        Conform(Rest(t, i), braced, i + 1, acc');
        JoinGroup(t, braced, i);
      }
    }
  }

  /** Past a whole group before the cut one, the rest of the text still conforms as far as the loop checks it. */
  lemma CutAheadStep(t: seq<bv8>, braced: bool, i: nat, acc: seq<bv8>) returns (acc': seq<bv8>)
    requires i <= 4 && |acc| == ByteOffset(i) && Span(i) <= |t|
    requires Pos(i) + |t| < 36 && Pos(i) <= Reach(Pos(i) + |t|)
    requires ConformsFrom(t[..Reach(Pos(i) + |t|) - Pos(i)], Pos(i))
    ensures i < 4 && |acc'| == ByteOffset(i + 1) && Pos(i + 1) + |Rest(t, i)| == Pos(i) + |t|
    ensures Pos(i + 1) <= Reach(Pos(i) + |t|)
    ensures ConformsFrom(Rest(t, i)[..Reach(Pos(i) + |t|) - Pos(i + 1)], Pos(i + 1))
    ensures ParseGroups(t, braced, i, acc) == ParseGroups(Rest(t, i), braced, i + 1, acc')
  {
    var e := Pos(i) + |t|;
    Layout(i);
    Later(i, e);
    PrefixPieces(t, i, Reach(e) - Pos(i));
    acc' := ConformingStep(t, braced, i, acc);
  }

  /**
   * A text that ends at body index `e` before the body does is too short
   * (or panics) once the loop reaches its end; it gets there when every
   * group before the cut one is whole and the cut group's separator, if
   * the text holds it, is in place.
   */
  lemma {:induction false} Truncated(t: seq<bv8>, braced: bool, i: nat, acc: seq<bv8>)
    requires i <= 4 && |acc| == ByteOffset(i)
    requires Pos(i) + |t| < 36 && Pos(i) <= Reach(Pos(i) + |t|)
    requires ConformsFrom(t[..Reach(Pos(i) + |t|) - Pos(i)], Pos(i))
    ensures ParseGroups(t, braced, i, acc) == if IsDashIndex(Pos(i) + |t|) then Panicked else Rejected(TooShort)
    decreases 4 - i
  {
    Layout(i);
    if |t| < Span(i) {
      if i > 0 && |t| > 0 {
        Later(i, Pos(i) + |t|);
        assert t[..Reach(Pos(i) + |t|) - Pos(i)][0] == t[0];
      }
      ShortGroup(t, braced, i, acc);
    } else {
      var acc' := CutAheadStep(t, braced, i, acc);
      Truncated(Rest(t, i), braced, i + 1, acc');
    }
  }

  /**
   * A text that runs past the end of the body, other than by one `}` after
   * a `{`, is too long once the loop reaches the last group: the digits of
   * that group are never looked at.
   */
  lemma {:induction false} Trailing(t: seq<bv8>, braced: bool, i: nat, acc: seq<bv8>)
    requires i <= 4 && |acc| == ByteOffset(i)
    requires 36 < Pos(i) + |t| && ConformsFrom(t[..24 - Pos(i)], Pos(i))
    requires !TailOk(t[36 - Pos(i)..], braced)
    ensures ParseGroups(t, braced, i, acc) == Rejected(TooLong)
    decreases 4 - i
  {
    if i == 4 {
      assert t[..1][0] == t[0];
      assert t[1..][12..] == t[13..];
    } else {
      Layout(i);
      PrefixPieces(t, i, 24 - Pos(i));
      var acc' := ConformingStep(t, braced, i, acc);
      assert Rest(t, i)[36 - Pos(i + 1)..] == t[36 - Pos(i)..];
      Trailing(Rest(t, i), braced, i + 1, acc');
    }
  }

  /** A byte other than a hex digit in group `i` itself fails the decode of that group. */
  lemma BadGroup(t: seq<bv8>, braced: bool, i: nat, acc: seq<bv8>, k: nat)
    requires i < 5 && |acc| == ByteOffset(i)
    requires Start(i) <= k < Pos(i + 1) <= Pos(i) + |t| && !Hex.IsHexDigit(t[k - Pos(i)])
    requires i > 0 ==> t[0] == Dash
    requires i == 4 ==> TailOk(Rest(t, i), braced)
    ensures ParseGroups(t, braced, i, acc) == Rejected(InvalidHexDigit)
  {
    Step(t, braced, i, acc);
    assert GroupText(t, i)[k - Start(i)] == t[k - Pos(i)];
  }

  /**
   * The unread text, from group `i` on, reaches a byte other than a hex
   * digit at body index `k`: the groups before it are whole, its separator
   * is in place, the text holds the whole group and, for the last group,
   * passes the too-long test.
   */
  predicate BadAhead(t: seq<bv8>, braced: bool, i: nat, k: nat)
    requires i < 5
  {
    Pos(i) <= k < 36 && !IsDashIndex(k) && Pos(i) <= Start(GroupAt(k)) && Pos(GroupAt(k) + 1) <= Pos(i) + |t| &&
    ConformsFrom(t[..Start(GroupAt(k)) - Pos(i)], Pos(i)) && !Hex.IsHexDigit(t[k - Pos(i)]) &&
    (GroupAt(k) == 4 ==> TailOk(t[36 - Pos(i)..], braced))
  }

  /** Past a whole group before the bad one, the rest of the text still reaches the bad byte. */
  lemma BadAheadStep(t: seq<bv8>, braced: bool, i: nat, acc: seq<bv8>, k: nat) returns (acc': seq<bv8>)
    requires i < 5 && |acc| == ByteOffset(i) && BadAhead(t, braced, i, k) && GroupAt(k) != i
    ensures i < 4 && |acc'| == ByteOffset(i + 1) && BadAhead(Rest(t, i), braced, i + 1, k)
    ensures ParseGroups(t, braced, i, acc) == ParseGroups(Rest(t, i), braced, i + 1, acc')
  {
    Later(i, k);
    var j := GroupAt(k);
    PrefixPieces(t, i, Start(j) - Pos(i));
    acc' := ConformingStep(t, braced, i, acc);
    assert Rest(t, i)[k - Pos(i + 1)] == t[k - Pos(i)];
    assert j == 4 ==> Rest(t, i)[36 - Pos(i + 1)..] == t[36 - Pos(i)..];
  }

  /**
   * A byte other than a hex digit is rejected as a bad digit once the loop
   * reaches its group, whatever follows that group.
   */
  lemma {:induction false} BadDigit(t: seq<bv8>, braced: bool, i: nat, acc: seq<bv8>, k: nat)
    requires i <= 4 && |acc| == ByteOffset(i) && BadAhead(t, braced, i, k)
    ensures ParseGroups(t, braced, i, acc) == Rejected(InvalidHexDigit)
    decreases 4 - i
  {
    if GroupAt(k) == i {
      Layout(i);
      if i > 0 {
        assert t[..Start(i) - Pos(i)][0] == t[0];
      }
      BadGroup(t, braced, i, acc, k);
    } else {
      var acc' := BadAheadStep(t, braced, i, acc, k);
      BadDigit(Rest(t, i), braced, i + 1, acc', k);
    }
  }

  /**
   * A text that conforms up to separator index `d` but has something
   * else there has an invalid format.
   */
  lemma {:induction false} MissingDash(t: seq<bv8>, braced: bool, i: nat, acc: seq<bv8>, d: nat)
    requires i <= 4 && |acc| == ByteOffset(i)
    requires IsDashIndex(d) && Pos(i) <= d < Pos(i) + |t|
    requires ConformsFrom(t[..d - Pos(i)], Pos(i)) && t[d - Pos(i)] != Dash
    ensures ParseGroups(t, braced, i, acc) == Rejected(InvalidFormat)
    decreases 4 - i
  {
    if Pos(i) < d {
      Layout(i);
      PrefixPieces(t, i, d - Pos(i));
      var acc' := ConformingStep(t, braced, i, acc);
      assert Rest(t, i)[d - Pos(i + 1)] == t[d - Pos(i)];
      MissingDash(Rest(t, i), braced, i + 1, acc', d);
    }
  }
}
