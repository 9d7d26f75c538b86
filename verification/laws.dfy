/**
  The laws that tie `encode` and `decode` together: decoding undoes
  encoding, decoding ignores whitespace, and the decoded length follows
  from the symbol count and the padding.
*/
module Base64Laws {
  import opened Wrappers
  import opened Bytes
  import opened Alphabet
  import opened Base64Encode
  import opened Base64Decode

  /** Each of the first `count` symbols of a group is the symbol of its 6-bit value. */
  lemma GroupSymbolsAt(b0: byte, b1: byte, b2: byte, count: nat)
    requires count <= 4
    ensures forall k :: 0 <= k < count ==> GroupSymbols(b0, b1, b2, count)[k] == SymbolByte(SplitGroup(b0, b1, b2)[k])
  {
  }

  /** Looking up the four symbols of a full group gives back its 6-bit values. */
  lemma ValuesOfGroup(b0: byte, b1: byte, b2: byte, count: nat)
    requires count <= 4
    ensures forall k :: 0 <= k < count ==>
      IsBase64(GroupSymbols(b0, b1, b2, count)[k]) &&
      ValueOf(GroupSymbols(b0, b1, b2, count)[k]) == SplitGroup(b0, b1, b2)[k]
  {
    GroupSymbolsAt(b0, b1, b2, count);
    forall k | 0 <= k < count
      ensures IsBase64(GroupSymbols(b0, b1, b2, count)[k])
      ensures ValueOf(GroupSymbols(b0, b1, b2, count)[k]) == SplitGroup(b0, b1, b2)[k]
    {
      ValueOfSymbolByte(SplitGroup(b0, b1, b2)[k]);
    }
  }

  /**
    Joining the 6-bit values of a group and unpacking the result gives back
    its bytes; a zero second or third byte leaves the last one or two values
    zero, as the padding that replaces them counts.
  */
  lemma GroupBits(b0: byte, b1: byte, b2: byte)
    ensures var s := SplitGroup(b0, b1, b2); Unpack24(Join24(s[0], s[1], s[2], s[3])) == [b0, b1, b2]
    ensures b2 == 0 ==> SplitGroup(b0, b1, b2)[3] == 0
    ensures b1 == 0 && b2 == 0 ==> SplitGroup(b0, b1, b2)[2] == 0
  {
    UnpackPack(b0, b1, b2);
  }

  /** Decoding the four symbols of a full group gives back its three bytes. */
  lemma DecodeFullGroup(b0: byte, b1: byte, b2: byte)
    ensures var g := GroupSymbols(b0, b1, b2, 4);
      ValidQuad(g[0], g[1], g[2], g[3]) && DecodeQuad(g[0], g[1], g[2], g[3]) == [b0, b1, b2]
  {
    ValuesOfGroup(b0, b1, b2, 4);
    GroupBits(b0, b1, b2);
  }

  /** Decoding three symbols and `=` gives back the final pair of bytes. */
  lemma DecodePairGroup(b0: byte, b1: byte)
    ensures var g := GroupSymbols(b0, b1, 0, 3);
      ValidQuad(g[0], g[1], g[2], Pad) && DecodeQuad(g[0], g[1], g[2], Pad) == [b0, b1]
  {
    ValuesOfGroup(b0, b1, 0, 3);
    GroupBits(b0, b1, 0);
  }

  /** Decoding two symbols and `==` gives back the final single byte. */
  lemma DecodeSingleGroup(b0: byte)
    ensures var g := GroupSymbols(b0, 0, 0, 2);
      ValidQuad(g[0], g[1], Pad, Pad) && DecodeQuad(g[0], g[1], Pad, Pad) == [b0]
  {
    ValuesOfGroup(b0, 0, 0, 2);
    GroupBits(b0, 0, 0);
  }

  /** An encoding is symbols and padding only, with no whitespace, in valid groups. */
  lemma EncodeIsValid(data: seq<byte>)
    ensures forall k :: 0 <= k < |Encode(data)| ==> IsSymbolOrPad(Encode(data)[k]) && !IsSpace(Encode(data)[k])
    ensures ValidGroups(Encode(data))
  {
    var r := Encode(data);
    var p := PaddingFor(|data|);
    EncodeShape(data);
    EncodeLength(data);
    forall k | 0 <= k < |r|
      ensures IsSymbolOrPad(r[k]) && !IsSpace(r[k])
    {
      ClassesDisjoint(r[k]);
    }
    forall k | 0 <= k < |r| && r[k] == Pad
      ensures |r| - 2 <= k && r[|r| - 1] == Pad
    {
      ClassesDisjoint(r[k]);
    }
  }

  /** Decoding the groups of an encoding gives back the data. */
  lemma {:induction false} DecodeGroupsEncode(data: seq<byte>)
    ensures ValidGroups(Encode(data))
    ensures DecodeGroups(Encode(data)) == data
    decreases |data|
  {
    EncodeIsValid(data);
    if |data| == 1 {
      DecodeEncodeSingle(data[0]);
      SingleIs(data);
    } else if |data| == 2 {
      DecodeEncodePair(data[0], data[1]);
      PairIs(data);
    } else if |data| >= 3 {
      DecodeGroupsEncode(data[3..]);
      DecodeEncodeGroup(data, data[0], data[1], data[2], data[3..]);
      GroupIs(data);
    }
  }

  /** The first group of an encoding decodes to the first three bytes. */
  lemma DecodeEncodeGroup(data: seq<byte>, b0: byte, b1: byte, b2: byte, rest: seq<byte>)
    requires |data| >= 3 && data[0] == b0 && data[1] == b1 && data[2] == b2 && data[3..] == rest
    requires ValidGroups(Encode(data))
    requires ValidGroups(Encode(rest)) && DecodeGroups(Encode(rest)) == rest
    ensures DecodeGroups(Encode(data)) == [b0, b1, b2] + rest
  {
    var g := GroupSymbols(b0, b1, b2, 4);
    EncodeFirstGroup(data);
    DecodeFullGroup(b0, b1, b2);
    DecodeGroupsConsValue(Encode(data), g, Encode(rest), [b0, b1, b2], rest);
  }

  /** The encoding of three bytes or more starts with the symbols of the first three. */
  lemma EncodeFirstGroup(data: seq<byte>)
    requires |data| >= 3
    ensures Encode(data) == GroupSymbols(data[0], data[1], data[2], 4) + Encode(data[3..])
  {
  }

  /** Decoding a first group to `first` and the rest to `tail` decodes the whole to `first + tail`. */
  lemma DecodeGroupsConsValue(s: seq<byte>, g: seq<byte>, rest: seq<byte>, first: seq<byte>, tail: seq<byte>)
    requires s == g + rest && |g| == 4 && ValidGroups(s)
    requires ValidQuad(g[0], g[1], g[2], g[3]) && DecodeQuad(g[0], g[1], g[2], g[3]) == first
    requires ValidGroups(rest) && DecodeGroups(rest) == tail
    ensures DecodeGroups(s) == first + tail
  {
    DecodeGroupsCons(g, rest);
  }

  /** The encoding of a single byte decodes to it. */
  lemma DecodeEncodeSingle(b0: byte)
    requires ValidGroups(Encode([b0]))
    ensures DecodeGroups(Encode([b0])) == [b0]
  {
    var g := GroupSymbols(b0, 0, 0, 2);
    var q := g + [Pad, Pad];
    assert Encode([b0]) == q;
    DecodeSingleGroup(b0);
    assert q[0] == g[0] && q[1] == g[1] && q[2] == Pad && q[3] == Pad;
    assert q + [] == q;
    DecodeGroupsCons(q, []);
  }

  /** The encoding of a pair of bytes decodes to them. */
  lemma DecodeEncodePair(b0: byte, b1: byte)
    requires ValidGroups(Encode([b0, b1]))
    ensures DecodeGroups(Encode([b0, b1])) == [b0, b1]
  {
    var g := GroupSymbols(b0, b1, 0, 3);
    var q := g + [Pad];
    assert Encode([b0, b1]) == q;
    DecodePairGroup(b0, b1);
    assert q[0] == g[0] && q[1] == g[1] && q[2] == g[2] && q[3] == Pad;
    assert q + [] == q;
    DecodeGroupsCons(q, []);
  }

  /** Decoding a text of groups decodes its first group, then the rest. */
  lemma DecodeGroupsCons(g: seq<byte>, rest: seq<byte>)
    requires |g| == 4 && ValidGroups(g + rest)
    ensures ValidQuad(g[0], g[1], g[2], g[3]) && ValidGroups(rest)
    ensures DecodeGroups(g + rest) == DecodeQuad(g[0], g[1], g[2], g[3]) + DecodeGroups(rest)
  {
    var s := g + rest;
    ValidGroupsRest(s);
    GroupThenRest(g, rest);
  }

  /*
    The three views of the data below are stated as lemmas, not asserted in
    DecodeGroupsEncode: there the sequence equalities would share one proof
    obligation with the unfolding of Encode and Decode, which is far costlier.
  */

  /** One byte is the sequence of that byte. */
  lemma SingleIs(data: seq<byte>)
    requires |data| == 1
    ensures data == [data[0]]
  {
  }

  /** Two bytes are the sequence of those bytes. */
  lemma PairIs(data: seq<byte>)
    requires |data| == 2
    ensures data == [data[0], data[1]]
  {
  }

  /** At least three bytes are the first group followed by the rest. */
  lemma GroupIs(data: seq<byte>)
    requires |data| >= 3
    ensures data == [data[0], data[1], data[2]] + data[3..]
  {
  }

  lemma GroupThenRest(g: seq<byte>, rest: seq<byte>)
    requires |g| == 4
    ensures (g + rest)[0] == g[0] && (g + rest)[1] == g[1] && (g + rest)[2] == g[2] && (g + rest)[3] == g[3]
    ensures (g + rest)[4..] == rest
  {
  }

  /** Round trip: decoding the encoding of any data gives back that data. */
  lemma DecodeEncode(data: seq<byte>)
    ensures Decode(Encode(data)) == Success(data)
  {
    var r := Encode(data);
    EncodeIsValid(data);
    assert FirstInvalid(r, 0).None?;
    StripSpaceNoSpace(r);
    DecodeGroupsEncode(data);
  }

  /** Different data never share an encoding. */
  lemma EncodeInjective(a: seq<byte>, b: seq<byte>)
    ensures Encode(a) == Encode(b) <==> a == b
  {
    if Encode(a) == Encode(b) {
      DecodeEncode(a);
      DecodeEncode(b);
    }
  }

  /**
    The decoded length is three quarters of the symbol count once the
    padding is taken off, rounded down.
  */
  lemma {:induction false} DecodedLength(s: seq<byte>)
    requires ValidGroups(s)
    ensures |DecodeGroups(s)| == (|s| - GetPadding(s)) * 3 / 4
    decreases |s|
  {
    GroupCount(|s|);
    if |s| <= 4 {
      LastGroupLength(s);
    } else {
      var rest := s[4..];
      FirstGroupLength(s, rest);
      DecodedLength(rest);
      LengthStep(s, rest, |DecodeGroups(s)|, |DecodeGroups(rest)|);
    }
  }

  /** The induction step of DecodedLength: one more full group in front. */
  lemma LengthStep(s: seq<byte>, rest: seq<byte>, whole: int, part: int)
    requires |s| >= 8 && rest == s[4..]
    requires whole == 3 + part && part == (|rest| - GetPadding(rest)) * 3 / 4
    ensures whole == (|s| - GetPadding(s)) * 3 / 4
  {
    GetPaddingDrop(s);
    QuarterStep(|s|, GetPadding(s), whole, part);
  }

  /** A multiple of four is no group, one group, or at least two. */
  lemma GroupCount(n: nat)
    requires n % 4 == 0
    ensures n == 0 || n == 4 || n >= 8
  {
  }

  /** The empty text decodes to nothing, and a last group to `(4 - padding) * 3 / 4` bytes. */
  lemma LastGroupLength(s: seq<byte>)
    requires ValidGroups(s) && (|s| == 0 || |s| == 4)
    ensures |DecodeGroups(s)| == (|s| - GetPadding(s)) * 3 / 4
  {
    if |s| == 4 {
      ValidGroupsRest(s);
      assert s[4..] == [];
    }
  }

  /** A group that is not the last decodes to three bytes. */
  lemma FirstGroupLength(s: seq<byte>, rest: seq<byte>)
    requires ValidGroups(s) && |s| >= 8 && rest == s[4..]
    ensures ValidGroups(rest)
    ensures |DecodeGroups(s)| == 3 + |DecodeGroups(rest)|
  {
    ValidGroupsRest(s);
    UnpaddedFirstGroup(s);
    FullQuadLength(s[0], s[1], s[2], s[3]);
    assert DecodeGroups(s) == DecodeQuad(s[0], s[1], s[2], s[3]) + DecodeGroups(rest);
  }

  /** Only the last group of a well-padded text can hold `=`. */
  lemma UnpaddedFirstGroup(s: seq<byte>)
    requires WellPadded(s) && |s| >= 8
    ensures s[2] != Pad && s[3] != Pad
  {
    assert s[2] == Pad ==> |s| - 2 <= 2;
    assert s[3] == Pad ==> |s| - 2 <= 3;
  }

  /** A group without `=` decodes to three bytes. */
  lemma FullQuadLength(c0: byte, c1: byte, c2: byte, c3: byte)
    requires ValidQuad(c0, c1, c2, c3) && c2 != Pad && c3 != Pad
    ensures |DecodeQuad(c0, c1, c2, c3)| == 3
  {
  }

  /** Dropping the first group keeps the padding. */
  lemma GetPaddingDrop(s: seq<byte>)
    requires |s| >= 8
    ensures GetPadding(s[4..]) == GetPadding(s)
  {
    assert s[4..][|s| - 5] == s[|s| - 1];
    assert s[4..][|s| - 6] == s[|s| - 2];
  }

  /** One more full group adds three bytes to the three-quarters count. */
  lemma QuarterStep(n: int, p: int, whole: int, rest: int)
    requires n >= 8 && 0 <= p <= 2
    requires rest == (n - 4 - p) * 3 / 4 && whole == 3 + rest
    ensures whole == (n - p) * 3 / 4
  {
    var x := n - p;
    assert (x - 4) * 3 / 4 + 3 == x * 3 / 4;
  }

  /**
    A successful decode has the intended length: three quarters of the
    whitespace-free text less its padding.
  */
  lemma DecodeLength(text: seq<byte>)
    requires Decode(text).Success?
    ensures var s := StripSpace(text); |Decode(text).value| == (|s| - GetPadding(s)) * 3 / 4
  {
    DecodeAccepted(text);
    DecodedLength(StripSpace(text));
  }

  /**
    The size `decode` reserves, `(n - get_padding(input)) * 3 / 4` on the raw
    input with `get_padding` as written, is never below the length of a
    successful intended decode.
    It can exceed it: whitespace and a second `=` are counted as symbols.
  */
  lemma ReservedLengthBound(text: seq<byte>)
    requires Decode(text).Success?
    ensures |Decode(text).value| <= (|text| - GetPaddingAsWritten(text)) * 3 / 4
  {
    var s := StripSpace(text);
    DecodeLength(text);
    DecodeAccepted(text);
    assert ValidGroups(s);
    if exists k :: 0 <= k < |text| && IsSpace(text[k]) {
      var k :| 0 <= k < |text| && IsSpace(text[k]);
      StripSpaceShorter(text, k);
    } else {
      StripSpaceNoSpace(text);
      PaddingAsWrittenBelow(s);
    }
    assert |s| - GetPadding(s) <= |text| - GetPaddingAsWritten(text);
  }

  /** On a well-padded text the as-written count never exceeds the intended one. */
  lemma PaddingAsWrittenBelow(s: seq<byte>)
    requires WellPadded(s)
    ensures GetPaddingAsWritten(s) <= GetPadding(s)
  {
    assert |s| >= 2 && s[|s| - 2] == Pad ==> s[|s| - 1] == Pad;
  }

  /** A text holding whitespace is longer than its stripped form. */
  lemma StripSpaceShorter(text: seq<byte>, k: nat)
    requires k < |text| && IsSpace(text[k])
    ensures |StripSpace(text)| < |text|
  {
    var a := text[..k];
    var b := text[k + 1..];
    assert text == a + [text[k]] + b;
    StripSpaceAppend(a + [text[k]], b);
    StripSpaceAppend(a, [text[k]]);
    StripSpaceAllSpace([text[k]]);
  }

  /**
    The outcome of decoding, by cause: after the first rejected byte, a
    symbol count that is not a multiple of four, then misplaced padding;
    success exactly when the stripped text is whole, well-padded groups.
  */
  lemma DecodeOutcome(text: seq<byte>)
    ensures Decode(text) == Failure(InvalidLength) <==>
      (forall k :: 0 <= k < |text| ==> IsAccepted(text[k])) && |StripSpace(text)| % 4 != 0
    ensures Decode(text) == Failure(InvalidPadding) <==>
      (forall k :: 0 <= k < |text| ==> IsAccepted(text[k])) && |StripSpace(text)| % 4 == 0 && !WellPadded(StripSpace(text))
    ensures Decode(text).Success? <==>
      (forall k :: 0 <= k < |text| ==> IsAccepted(text[k])) && ValidGroups(StripSpace(text))
  {
    if forall k :: 0 <= k < |text| ==> IsAccepted(text[k]) {
      DecodeAccepted(text);
    }
  }

  /** Stripping is idempotent. */
  lemma StripStripped(text: seq<byte>)
    ensures StripSpace(StripSpace(text)) == StripSpace(text)
  {
    StripSpaceNoSpace(StripSpace(text));
  }

  /** A text with no rejected byte decodes as its stripped form does. */
  lemma DecodeStripped(text: seq<byte>)
    requires forall k :: 0 <= k < |text| ==> IsAccepted(text[k])
    ensures Decode(text) == Decode(StripSpace(text))
  {
    var s := StripSpace(text);
    DecodeAccepted(text);
    StripSpaceSymbols(text);
    forall k | 0 <= k < |s|
      ensures IsAccepted(s[k])
    {
    }
    DecodeAccepted(s);
    StripStripped(text);
  }

  /** Inserting whitespace does not change the stripped text. */
  lemma StripSpaceInsert(a: seq<byte>, w: seq<byte>, b: seq<byte>)
    requires forall k :: 0 <= k < |w| ==> IsSpace(w[k])
    ensures StripSpace(a + w + b) == StripSpace(a + b)
  {
    StripSpaceAppend(a + w, b);
    StripSpaceAppend(a, w);
    StripSpaceAppend(a, b);
    StripSpaceAllSpace(w);
    assert StripSpace(a) + [] == StripSpace(a);
  }

  /**
    Inserting whitespace anywhere changes decoding only in where a rejected
    byte is reported: both texts decode or neither does, a successful decode
    gives the same bytes, a length or padding error stays the same, and a
    rejected byte after the insertion point moves by the inserted length.
  */
  lemma DecodeIgnoresWhitespace(a: seq<byte>, w: seq<byte>, b: seq<byte>)
    requires forall k :: 0 <= k < |w| ==> IsSpace(w[k])
    ensures Decode(a + w + b).Success? <==> Decode(a + b).Success?
    ensures !IsRejection(Decode(a + b)) ==> Decode(a + w + b) == Decode(a + b)
    ensures IsRejection(Decode(a + b)) ==>
      var e := Decode(a + b).error;
      Decode(a + w + b) == Failure(InvalidCharacter(e.symbol, if e.position < |a| then e.position else e.position + |w|))
  {
    var t := a + w + b;
    var u := a + b;
    AcceptedWithSpace(a, w, b);
    if forall k :: 0 <= k < |u| ==> IsAccepted(u[k]) {
      StripSpaceInsert(a, w, b);
      DecodeAccepted(t);
      DecodeAccepted(u);
    } else {
      RejectionMoves(a, w, b);
    }
  }

  /** The decoder rejected a byte. */
  predicate IsRejection(r: Result<seq<byte>, DecodeError>)
  {
    r.Failure? && r.error.InvalidCharacter?
  }

  /** The first rejected byte of `a + b` is the first of `a + w + b`, shifted past `w` when it lies in `b`. */
  lemma RejectionMoves(a: seq<byte>, w: seq<byte>, b: seq<byte>)
    requires forall k :: 0 <= k < |w| ==> IsSpace(w[k])
    requires IsRejection(Decode(a + b))
    ensures var e := Decode(a + b).error;
      Decode(a + w + b) == Failure(InvalidCharacter(e.symbol, if e.position < |a| then e.position else e.position + |w|))
  {
    var t := a + w + b;
    var u := a + b;
    var e := Decode(u).error;
    var p := e.position;
    var q := if p < |a| then p else p + |w|;
    assert t[q] == u[p];
    forall k | 0 <= k < q
      ensures IsAccepted(t[k])
    {
      if k < |a| {
        assert t[k] == u[k];
      } else if k < |a| + |w| {
        assert t[k] == w[k - |a|];
      } else {
        assert t[k] == u[k - |w|];
      }
    }
    DecodeRejects(t, q);
  }

  /** Whitespace is accepted, so inserting it neither adds nor hides a rejected byte. */
  lemma AcceptedWithSpace(a: seq<byte>, w: seq<byte>, b: seq<byte>)
    requires forall k :: 0 <= k < |w| ==> IsSpace(w[k])
    ensures (forall k :: 0 <= k < |a + w + b| ==> IsAccepted((a + w + b)[k])) <==>
            (forall k :: 0 <= k < |a + b| ==> IsAccepted((a + b)[k]))
  {
    var t := a + w + b;
    var u := a + b;
    if forall k :: 0 <= k < |u| ==> IsAccepted(u[k]) {
      forall k | 0 <= k < |t|
        ensures IsAccepted(t[k])
      {
        if k < |a| {
          assert t[k] == u[k];
        } else if k >= |a| + |w| {
          assert t[k] == u[k - |w|];
        }
      }
    }
    if forall k :: 0 <= k < |t| ==> IsAccepted(t[k]) {
      forall k | 0 <= k < |u|
        ensures IsAccepted(u[k])
      {
        if k < |a| {
          assert u[k] == t[k];
        } else {
          assert u[k] == t[k + |w|];
        }
      }
    }
  }
}
