/**
  Worked examples: the encodings of "hello", "hi" and "h", the three ways
  the intended decoder rejects a text, and what the source's encoder and
  decoder make of the same inputs.
*/
module Base64Examples {
  import opened Wrappers
  import opened Bytes
  import opened Alphabet
  import opened Base64Encode
  import opened Base64Decode
  import opened Base64Laws

  /** "hello" */
  const Hello: seq<byte> := [0x68, 0x65, 0x6C, 0x6C, 0x6F]

  /** "aGVsbG8=" */
  const HelloText: seq<byte> := [0x61, 0x47, 0x56, 0x73, 0x62, 0x47, 0x38, Pad]

  /** "hi" */
  const Hi: seq<byte> := [0x68, 0x69]

  /** "aGk=" */
  const HiText: seq<byte> := [0x61, 0x47, 0x6B, Pad]

  /** "hello" encodes to "aGVsbG8=": one full group, then a pair padded with one `=`. */
  lemma EncodeHello()
    ensures Encode(Hello) == HelloText
  {
    assert SplitGroup(0x68, 0x65, 0x6C) == [26, 6, 21, 44];
    assert SplitGroup(0x6C, 0x6F, 0) == [27, 6, 60, 0];
    assert Hello[3..] == [0x6C, 0x6F];
  }

  /** "hi" encodes to "aGk=" and "h" to "aA==". */
  lemma EncodeShortTails()
    ensures Encode(Hi) == HiText
    ensures Encode([0x68]) == [0x61, 0x41, Pad, Pad]
  {
    assert SplitGroup(0x68, 0x69, 0) == [26, 6, 36, 0];
    assert SplitGroup(0x68, 0, 0) == [26, 0, 0, 0];
  }

  /** `decode` reserves 2 bytes for "aA==", which decodes to the single byte "h". */
  lemma ReserveOverH()
    ensures var t: seq<byte> := [0x61, 0x41, Pad, Pad];
      (|t| - GetPaddingAsWritten(t)) * 3 / 4 == 2 && Decode(t) == Success([0x68])
  {
    EncodeShortTails();
    DecodeEncode([0x68]);
    GetPaddingAsWrittenWrong();
  }

  /** "aGVsbG8=" decodes to "hello", and so does the same text broken by a newline. */
  lemma DecodeHello()
    ensures Decode(HelloText) == Success(Hello)
    ensures Decode(HelloText[..4] + [0x0A] + HelloText[4..]) == Success(Hello)
  {
    EncodeHello();
    DecodeEncode(Hello);
    DecodeIgnoresWhitespace(HelloText[..4], [0x0A], HelloText[4..]);
    assert HelloText[..4] + HelloText[4..] == HelloText;
  }

  /** Seven symbols are not whole groups: "aGVsbG8" fails with InvalidLength. */
  lemma DecodeRejectsLength()
    ensures Decode([0x61, 0x47, 0x56, 0x73, 0x62, 0x47, 0x38]) == Failure(InvalidLength)
  {
    var text: seq<byte> := [0x61, 0x47, 0x56, 0x73, 0x62, 0x47, 0x38];
    assert IsBase64(0x61) && IsBase64(0x47) && IsBase64(0x56) && IsBase64(0x73);
    assert IsBase64(0x62) && IsBase64(0x38);
    forall k | 0 <= k < |text|
      ensures IsBase64(text[k])
    {
      assert k < 4 || k == 4 || k == 5 || k == 6;
    }
    SymbolsOnly(text);
  }

  /** A text of symbols only decodes as its symbols do: nothing is rejected or stripped. */
  lemma SymbolsOnly(text: seq<byte>)
    requires forall k :: 0 <= k < |text| ==> IsBase64(text[k])
    ensures forall k :: 0 <= k < |text| ==> IsSymbolOrPad(text[k])
    ensures Decode(text) == DecodeSymbols(text)
  {
    forall k | 0 <= k < |text|
      ensures IsAccepted(text[k]) && !IsSpace(text[k])
    {
      ClassesDisjoint(text[k]);
    }
    StripSpaceNoSpace(text);
    DecodeAccepted(text);
  }

  /** `#` is no symbol: "aG#sbG8=" fails at position 2. */
  lemma DecodeRejectsCharacter()
    ensures Decode([0x61, 0x47, 0x23, 0x73, 0x62, 0x47, 0x38, Pad]) == Failure(InvalidCharacter(0x23, 2))
  {
    var text: seq<byte> := [0x61, 0x47, 0x23, 0x73, 0x62, 0x47, 0x38, Pad];
    assert !IsAccepted(text[2]) && IsAccepted(text[1]) && IsAccepted(text[0]);
    assert FirstInvalid(text, 2) == Some(2);
    assert FirstInvalid(text, 1) == Some(2);
  }

  /** A `=` in second place: "a=VsbG8=" fails with InvalidPadding. */
  lemma DecodeRejectsPadding()
    ensures Decode([0x61, Pad, 0x56, 0x73, 0x62, 0x47, 0x38, Pad]) == Failure(InvalidPadding)
  {
    var text: seq<byte> := [0x61, Pad, 0x56, 0x73, 0x62, 0x47, 0x38, Pad];
    StripSpaceNoSpace(text);
    DecodeAccepted(text);
    assert !WellPadded(text) by {
      assert text[1] == Pad;
    }
  }

  /** "aGk=" decodes to "hi". */
  lemma DecodeHi()
    ensures Decode(HiText) == Success(Hi)
  {
    EncodeShortTails();
    DecodeEncode(Hi);
  }

  /**
    The source's `decode` turns "aGk=", the encoding of "hi", into the single
    byte 0: the as-written table reads `a`, `G` and `k` as 0 and `=` as 61,
    and a final `=` emits one byte where two are encoded.
  */
  lemma DecodeAsWrittenHi()
    ensures DecodeAsWritten(HiText) == Success([0])
  {
    AsWrittenTableAtHi();
    LoopOverHi(IndicesAsWritten);
  }

  /** The as-written table entries for the bytes of "aGk=". */
  lemma AsWrittenTableAtHi()
    ensures IsLookupTable(IndicesAsWritten)
    ensures IndicesAsWritten[0x61] == 0 && IndicesAsWritten[0x47] == 0 && IndicesAsWritten[0x6B] == 0
    ensures IndicesAsWritten[0x3D] == 61
  {
    TablesAreLookupTables();
    IndicesAsWrittenNeverNotFound();
  }

  /** The loop of `decode` over "aGk=" with a table that reads `a`, `G`, `k` as 0 and `=` as 61. */
  lemma LoopOverHi(t: seq<int>)
    requires IsLookupTable(t) && t[0x61] == 0 && t[0x47] == 0 && t[0x6B] == 0 && t[0x3D] == 61
    ensures DecodeLoop(t, HiText, 0, 0, 0, []) == Success([0])
  {
    var s := HiText;
    assert DecodeLoop(t, s, 4, 4, 61, [0]) == Success([0]);
    var d := t[s[3] as int];
    assert d == 61 && !IsSpace(s[3]);
    assert ((0 as bv64) << 6) | (d as bv64) == 61;
    assert Emitted(s[3], 3, 3, 61) == [0];
    var none: seq<byte> := [];
    assert none + [0] == [0];
    assert DecodeLoop(t, s, 3, 3, 0, []) == Success([0]);
    InnerStep(t, s, 2, 2);
    InnerStep(t, s, 1, 1);
    InnerStep(t, s, 0, 0);
  }

  /**
    The emission rule alone: even with a table that reads every symbol
    right and `=` as 0, the loop of `decode` turns "aGk=" into "h" alone,
    one byte where the group encodes two.
  */
  lemma PaddedGroupEmitsOne()
    ensures var t := Indices[0x3D := 0];
      IsLookupTable(t) && DecodeLoop(t, HiText, 0, 0, 0, []) == Success([0x68])
    ensures Decode(HiText) == Success([0x68, 0x69])
  {
    DecodeHi();
    var t := Indices[0x3D := 0];
    IntendedTableAtHi();
    LoopOverHiReadRight(t);
  }

  /** The intended table is a lookup table and reads `a`, `G`, `k` as 26, 6 and 36. */
  lemma IntendedTableAtHi()
    ensures IsLookupTable(Indices[0x3D := 0])
    ensures Indices[0x61] == 26 && Indices[0x47] == 6 && Indices[0x6B] == 36
  {
    TablesAreLookupTables();
    IndexOfSymbolByte(26);
    IndexOfSymbolByte(6);
    IndexOfSymbolByte(36);
  }

  /** The loop of `decode` over "aGk=" with a table that reads `a`, `G`, `k` right and `=` as 0. */
  lemma LoopOverHiReadRight(t: seq<int>)
    requires IsLookupTable(t) && t[0x61] == 26 && t[0x47] == 6 && t[0x6B] == 36 && t[0x3D] == 0
    ensures DecodeLoop(t, HiText, 0, 0, 0, []) == Success([0x68])
  {
    var s := HiText;
    var none: seq<byte> := [];
    LoopOverHiLastSymbol(t);
    assert ((0x686 as bv64) << 6) | ((36 as int) as bv64) == 0x1A1A4;
    assert Emitted(s[2], 2, 2, 0x1A1A4) == [] && none + [] == none;
    assert DecodeLoop(t, s, 2, 2, 0x686, []) == Success([0x68]);
    assert ((26 as bv64) << 6) | ((6 as int) as bv64) == 0x686;
    assert Emitted(s[1], 1, 1, 0x686) == [];
    assert DecodeLoop(t, s, 1, 1, 26, []) == Success([0x68]);
    assert ((0 as bv64) << 6) | ((26 as int) as bv64) == 26;
    assert Emitted(s[0], 0, 0, 26) == [];
  }

  /** The last pass of that loop: the `=` completes the group and emits its first byte. */
  lemma LoopOverHiLastSymbol(t: seq<int>)
    requires IsLookupTable(t) && t[0x3D] == 0
    ensures DecodeLoop(t, HiText, 3, 3, 0x1A1A4, []) == Success([0x68])
  {
    var s := HiText;
    var none: seq<byte> := [];
    assert DecodeLoop(t, s, 4, 4, 0x686900, [0x68]) == Success([0x68]);
    assert ((0x1A1A4 as bv64) << 6) | ((0 as int) as bv64) == 0x686900;
    assert Emitted(s[3], 3, 3, 0x686900) == [0x68];
    assert none + [0x68] == [0x68];
  }

  /** A symbol read as 0 inside a group, with nothing read so far, leaves the loop's state as it was. */
  lemma InnerStep(t: seq<int>, s: seq<byte>, i: nat, x: nat)
    requires IsLookupTable(t) && i < |s| && !IsSpace(s[i]) && t[s[i] as int] == 0 && x % 4 != 3
    ensures DecodeLoop(t, s, i, x, 0, []) == DecodeLoop(t, s, i + 1, x + 1, 0, [])
  {
    var none: seq<byte> := [];
    assert Emitted(s[i], i, x, 0) == [];
    assert none + [] == none;
    assert ((0 as bv64) << 6) | ((0 as int) as bv64) == 0;
  }

  /** "AA=A" */
  const MisplacedPadText: seq<byte> := [0x41, 0x41, Pad, 0x41]

  /**
    `decode` reserves 2 bytes for "AA=A", and its loop emits 3, because the
    `=` inside the group is read as the value 61; the intended decoder
    rejects the text with InvalidPadding.
  */
  lemma ReserveUnderAsWritten()
    ensures var t := MisplacedPadText;
      (|t| - GetPaddingAsWritten(t)) * 3 / 4 == 2 && DecodeAsWritten(t) == Success([0x00, 0x0F, 0x40])
    ensures Decode(MisplacedPadText) == Failure(InvalidPadding)
  {
    AsWrittenTableAtA();
    LoopOverMisplacedPad(IndicesAsWritten);
    DecodeRejectsMisplacedPad();
  }

  /** "AA=A" has a `=` before its last symbol, so `Decode` fails with InvalidPadding. */
  lemma DecodeRejectsMisplacedPad()
    ensures Decode(MisplacedPadText) == Failure(InvalidPadding)
  {
    var t := MisplacedPadText;
    StripSpaceNoSpace(t);
    DecodeAccepted(t);
    assert !WellPadded(t) by {
      assert t[2] == Pad;
    }
  }

  /** The as-written table entries for the bytes of "AA=A". */
  lemma AsWrittenTableAtA()
    ensures IsLookupTable(IndicesAsWritten)
    ensures IndicesAsWritten[0x41] == 0 && IndicesAsWritten[0x3D] == 61
  {
    TablesAreLookupTables();
    IndicesAsWrittenNeverNotFound();
  }

  /** The loop of `decode` over "AA=A" with a table that reads `A` as 0 and `=` as 61. */
  lemma LoopOverMisplacedPad(t: seq<int>)
    requires IsLookupTable(t) && t[0x41] == 0 && t[0x3D] == 61
    ensures DecodeLoop(t, MisplacedPadText, 0, 0, 0, []) == Success([0x00, 0x0F, 0x40])
  {
    var s := MisplacedPadText;
    var none: seq<byte> := [];
    assert DecodeLoop(t, s, 4, 4, 0xF40, [0x00, 0x0F, 0x40]) == Success([0x00, 0x0F, 0x40]);
    assert ((61 as bv64) << 6) | ((0 as int) as bv64) == 0xF40;
    assert Emitted(s[3], 3, 3, 0xF40) == [0x00, 0x0F, 0x40];
    assert none + [0x00, 0x0F, 0x40] == [0x00, 0x0F, 0x40];
    assert DecodeLoop(t, s, 3, 3, 61, []) == Success([0x00, 0x0F, 0x40]);
    assert ((0 as bv64) << 6) | ((61 as int) as bv64) == 61;
    assert Emitted(s[2], 2, 2, 61) == [] && none + [] == none;
    assert DecodeLoop(t, s, 2, 2, 0, []) == Success([0x00, 0x0F, 0x40]);
    InnerStep(t, s, 1, 1);
    InnerStep(t, s, 0, 0);
  }

  /**
    The source's `decode` accepts the three texts the intended decoder
    rejects: a bad length, a `#`, a misplaced `=`.
  */
  lemma DecodeAsWrittenAcceptsInvalid()
    ensures DecodeAsWritten([0x61, 0x47, 0x56, 0x73, 0x62, 0x47, 0x38]).Success?
    ensures DecodeAsWritten([0x61, 0x47, 0x23, 0x73, 0x62, 0x47, 0x38, Pad]).Success?
    ensures DecodeAsWritten([0x61, Pad, 0x56, 0x73, 0x62, 0x47, 0x38, Pad]).Success?
  {
    DecodeAsWrittenNeverFails([0x61, 0x47, 0x56, 0x73, 0x62, 0x47, 0x38]);
    DecodeAsWrittenNeverFails([0x61, 0x47, 0x23, 0x73, 0x62, 0x47, 0x38, Pad]);
    DecodeAsWrittenNeverFails([0x61, Pad, 0x56, 0x73, 0x62, 0x47, 0x38, Pad]);
  }

  /** The source's `encode` ends a whole number of groups with a stray `A`: "hel" gives "aGVsA", not "aGVs". */
  method EncodeAsWrittenHel() returns (output: seq<byte>)
    ensures output == [0x61, 0x47, 0x56, 0x73, 0x41]
  {
    output := EncodeAsWritten([0x68, 0x65, 0x6C]);
    assert SplitGroup(0x68, 0x65, 0x6C) == [26, 6, 21, 44];
    assert SymbolByte(0) == 0x41;
  }
}
