/**
  `yams::base64::decode`: Base64 text back to bytes. Whitespace is skipped,
  every other byte must be a symbol of the alphabet or the padding `=`, and
  every group of four symbols gives back up to three bytes (sections 3.2,
  3.3 and 4 of RFC 4648).

  `Decode` is the intended decoder: it rejects any byte outside the alphabet,
  padding and whitespace, a symbol count that is not a multiple of four,
  and a `=` anywhere but at the end. `DecodeAsWritten` is the loop the
  source runs, with its own lookup table and its own emission rule.
*/
module Base64Decode {
  import opened Wrappers
  import opened Bytes
  import opened Alphabet
  import opened Base64Encode

  /** Why a text is not valid Base64. */
  datatype DecodeError =
    | InvalidCharacter(symbol: byte, position: nat)
    | InvalidPadding
    | InvalidLength

  /** Bytes the decoder does not reject outright: a symbol, the padding, or whitespace. */
  predicate IsAccepted(c: byte)
  {
    IsBase64(c) || c == Pad || IsSpace(c)
  }

  /** A symbol or the padding. */
  predicate IsSymbolOrPad(c: byte)
  {
    IsBase64(c) || c == Pad
  }

  /** The position of the first rejected byte at or after position i, if any. */
  function FirstInvalid(text: seq<byte>, i: nat): (r: Option<nat>)
    requires i <= |text|
    ensures r.None? <==> forall k :: i <= k < |text| ==> IsAccepted(text[k])
    ensures r.Some? ==> i <= r.value < |text| && !IsAccepted(text[r.value])
    ensures r.Some? ==> forall k :: i <= k < r.value ==> IsAccepted(text[k])
    decreases |text| - i
  {
    if i == |text| then None
    else if !IsAccepted(text[i]) then Some(i)
    else FirstInvalid(text, i + 1)
  }

  /** The text with its whitespace removed, the other bytes kept in order. */
  function StripSpace(text: seq<byte>): (s: seq<byte>)
    ensures |s| <= |text|
    ensures forall k :: 0 <= k < |s| ==> !IsSpace(s[k])
  {
    if |text| == 0 then []
    else if IsSpace(text[0]) then StripSpace(text[1..])
    else [text[0]] + StripSpace(text[1..])
  }

  /** Stripping keeps exactly the bytes that are not whitespace. */
  lemma {:induction false} StripSpaceKeeps(text: seq<byte>)
    ensures forall c :: c in StripSpace(text) <==> c in text && !IsSpace(c)
  {
    if |text| > 0 {
      StripSpaceKeeps(text[1..]);
      assert text == [text[0]] + text[1..];
    }
  }

  /** The stripped form of a text with no rejected byte is symbols and padding only. */
  lemma StripSpaceSymbols(text: seq<byte>)
    requires forall k :: 0 <= k < |text| ==> IsAccepted(text[k])
    ensures forall k :: 0 <= k < |StripSpace(text)| ==> IsSymbolOrPad(StripSpace(text)[k])
  {
    var s := StripSpace(text);
    StripSpaceKeeps(text);
    forall k | 0 <= k < |s|
      ensures IsSymbolOrPad(s[k])
    {
      assert s[k] in s;
    }
  }

  /** A text without whitespace is its own stripped form. */
  lemma {:induction false} StripSpaceNoSpace(text: seq<byte>)
    requires forall k :: 0 <= k < |text| ==> !IsSpace(text[k])
    ensures StripSpace(text) == text
  {
    if |text| > 0 {
      StripSpaceNoSpace(text[1..]);
      assert [text[0]] + text[1..] == text;
    }
  }

  /** Stripping distributes over concatenation. */
  lemma {:induction false} StripSpaceAppend(a: seq<byte>, b: seq<byte>)
    ensures StripSpace(a + b) == StripSpace(a) + StripSpace(b)
  {
    if |a| > 0 {
      assert (a + b)[0] == a[0];
      assert (a + b)[1..] == a[1..] + b;
      StripSpaceAppend(a[1..], b);
    } else {
      assert a + b == b;
    }
  }

  /** Stripping a run of whitespace leaves nothing. */
  lemma {:induction false} StripSpaceAllSpace(w: seq<byte>)
    requires forall k :: 0 <= k < |w| ==> IsSpace(w[k])
    ensures StripSpace(w) == []
  {
    if |w| > 0 {
      StripSpaceAllSpace(w[1..]);
    }
  }

  /** The number of `=` the text ends with (a reference count, no upper bound). */
  function TrailingPads(s: seq<byte>): (n: nat)
    ensures n <= |s|
    ensures forall k :: |s| - n <= k < |s| ==> s[k] == Pad
    ensures n < |s| ==> s[|s| - n - 1] != Pad
  {
    if |s| == 0 || s[|s| - 1] != Pad then 0
    else 1 + TrailingPads(s[..|s| - 1])
  }

  /**
    `detail::get_padding` as intended: 2 when the text ends in `==`, 1 when
    it ends in a single `=`, 0 otherwise. It is the trailing `=` count,
    capped at the two a valid text can have.
  */
  function GetPadding(s: seq<byte>): (p: nat)
    ensures p <= 2 && p <= |s|
    ensures p == if TrailingPads(s) < 2 then TrailingPads(s) else 2
  {
    if |s| >= 2 && s[|s| - 2] == Pad && s[|s| - 1] == Pad then 2
    else if |s| >= 1 && s[|s| - 1] == Pad then 1
    else 0
  }

  /**
    `detail::get_padding` as written. A final `=` returns 1 before `==` is
    ever checked, and the fallback `cond ? 1 : 0 + (...)` parses as
    `cond ? 1 : (0 + ...)`, so a `=` in second-to-last place alone also
    counts as 1.
  */
  function GetPaddingAsWritten(s: seq<byte>): (p: int)
    ensures 0 <= p <= 1
    ensures p == 1 <==> (|s| >= 1 && s[|s| - 1] == Pad) || (|s| >= 2 && s[|s| - 2] == Pad)
  {
    var sz := |s|;
    if sz > 0 && s[sz - 1] == Pad then 1
    else if sz > 1 && s[sz - 2] == Pad && s[sz - 1] == Pad then 2
    else if sz == 0 then 0
    else if sz == 1 then (if s[sz - 1] == Pad then 1 else 0)
    else if s[sz - 1] == Pad then 1
    else 0 + (if s[sz - 2] == Pad then 1 else 0)
  }

  /** The as-written count is 1 for `aA==` (should be 2) and for `ab=c` (should be 0). */
  lemma GetPaddingAsWrittenWrong()
    ensures GetPaddingAsWritten([0x61, 0x41, Pad, Pad]) == 1
    ensures GetPadding([0x61, 0x41, Pad, Pad]) == 2
    ensures GetPaddingAsWritten([0x61, 0x62, Pad, 0x63]) == 1
    ensures GetPadding([0x61, 0x62, Pad, 0x63]) == 0
  {
  }

  /**
    `=` appears only as the last symbol, or as the last two: a `=` in
    second-to-last place must be followed by another.
  */
  predicate WellPadded(s: seq<byte>)
  {
    forall k :: 0 <= k < |s| && s[k] == Pad ==> |s| - 2 <= k && s[|s| - 1] == Pad
  }

  /** A text is well padded exactly when its `=` are its last `GetPadding` symbols. */
  lemma WellPaddedIff(s: seq<byte>)
    ensures WellPadded(s) <==> forall k :: 0 <= k < |s| ==> (s[k] == Pad <==> |s| - GetPadding(s) <= k)
  {
    var p := GetPadding(s);
    if WellPadded(s) {
      forall k | 0 <= k < |s|
        ensures s[k] == Pad <==> |s| - p <= k
      {
        if s[k] == Pad && k == |s| - 2 {
          assert p == 2;
        }
      }
    }
  }

  /** The 6-bit value a symbol or padding contributes: `=` counts as 0. */
  function PadValue(c: byte): Sextet
    requires IsSymbolOrPad(c)
  {
    if c == Pad then 0 else ValueOf(c)
  }

  /** The three bytes of a 24-bit group, the high byte first; packing them gives the group back. */
  function Unpack24(n: bv24): (r: seq<byte>)
    ensures |r| == 3
    ensures Pack24(r[0], r[1], r[2]) == n
  {
    [((n >> 16) & 0xFF) as byte, ((n >> 8) & 0xFF) as byte, (n & 0xFF) as byte]
  }

  /** Unpacking inverts packing. */
  lemma UnpackPack(b0: byte, b1: byte, b2: byte)
    ensures Unpack24(Pack24(b0, b1, b2)) == [b0, b1, b2]
  {
  }

  /** A valid group: two symbols, then symbols or padding, and no symbol after a `=`. */
  predicate ValidQuad(c0: byte, c1: byte, c2: byte, c3: byte)
  {
    IsBase64(c0) && IsBase64(c1) && IsSymbolOrPad(c2) && IsSymbolOrPad(c3) && (c2 == Pad ==> c3 == Pad)
  }

  /**
    One group of four: its 24 bits, of which 1, 2 or 3 bytes are emitted for
    two, one or no `=` at its end.
  */
  function DecodeQuad(c0: byte, c1: byte, c2: byte, c3: byte): (r: seq<byte>)
    requires ValidQuad(c0, c1, c2, c3)
    ensures |r| == 3 - (if c2 == Pad then 2 else if c3 == Pad then 1 else 0)
  {
    var bytes := Unpack24(Join24(ValueOf(c0), ValueOf(c1), PadValue(c2), PadValue(c3)));
    if c2 == Pad then bytes[..1]
    else if c3 == Pad then bytes[..2]
    else bytes
  }

  /** Every group of a well-padded symbol text of whole groups is valid. */
  predicate ValidGroups(s: seq<byte>)
  {
    |s| % 4 == 0 && WellPadded(s) && forall k :: 0 <= k < |s| ==> IsSymbolOrPad(s[k])
  }

  /** The groups after the first of a valid text are valid. */
  lemma ValidGroupsRest(s: seq<byte>)
    requires ValidGroups(s) && 4 <= |s|
    ensures ValidQuad(s[0], s[1], s[2], s[3])
    ensures ValidGroups(s[4..])
  {
    assert s[0] != Pad && s[1] != Pad;
    if s[2] == Pad {
      assert |s| - 2 <= 2 && s[3] == Pad;
    }
  }

  /** The bytes of all groups, in order. */
  function DecodeGroups(s: seq<byte>): (r: seq<byte>)
    requires ValidGroups(s)
    decreases |s|
  {
    if |s| == 0 then []
    else
      ValidGroupsRest(s);
      DecodeQuad(s[0], s[1], s[2], s[3]) + DecodeGroups(s[4..])
  }

  /** Decoding whitespace-free text: length first, then padding, then the groups. */
  function DecodeSymbols(s: seq<byte>): (r: Result<seq<byte>, DecodeError>)
    requires forall k :: 0 <= k < |s| ==> IsSymbolOrPad(s[k])
    ensures r == Failure(InvalidLength) <==> |s| % 4 != 0
    ensures r == Failure(InvalidPadding) <==> |s| % 4 == 0 && !WellPadded(s)
    ensures r.Success? <==> ValidGroups(s)
  {
    if |s| % 4 != 0 then Failure(InvalidLength)
    else if !WellPadded(s) then Failure(InvalidPadding)
    else Success(DecodeGroups(s))
  }

  /**
    `decode` as intended. The first byte that is neither a symbol, `=` nor
    whitespace is reported with its position; otherwise the whitespace is
    dropped and the symbols are decoded group by group.
  */
  function Decode(text: seq<byte>): (r: Result<seq<byte>, DecodeError>)
    ensures r.Failure? && r.error.InvalidCharacter? ==>
      var p := r.error.position;
      p < |text| && text[p] == r.error.symbol && !IsAccepted(text[p]) &&
      forall k :: 0 <= k < p ==> IsAccepted(text[k])
    ensures (r.Success? || !r.error.InvalidCharacter?) ==> forall k :: 0 <= k < |text| ==> IsAccepted(text[k])
    ensures |text| == 0 ==> r == Success([])
  {
    match FirstInvalid(text, 0)
    case Some(p) => Failure(InvalidCharacter(text[p], p))
    case None =>
      StripSpaceSymbols(text);
      DecodeSymbols(StripSpace(text))
  }

  /** A text with no rejected byte decodes as its symbols, stripped of whitespace, do. */
  lemma DecodeAccepted(text: seq<byte>)
    requires forall k :: 0 <= k < |text| ==> IsAccepted(text[k])
    ensures forall k :: 0 <= k < |StripSpace(text)| ==> IsSymbolOrPad(StripSpace(text)[k])
    ensures Decode(text) == DecodeSymbols(StripSpace(text))
  {
    StripSpaceSymbols(text);
  }

  /** A rejected byte makes decoding fail, reporting it or an earlier one. */
  lemma DecodeRejects(text: seq<byte>, k: nat)
    requires k < |text| && !IsAccepted(text[k])
    ensures Decode(text).Failure? && Decode(text).error.InvalidCharacter?
    ensures Decode(text).error.position <= k
  {
  }

  /** The reverse-table lookup of the source's loop: the table maps every byte to NotFound or a 6-bit value. */
  predicate IsLookupTable(t: seq<int>)
  {
    |t| == 256 && forall k :: 0 <= k < 256 ==> t[k] == NotFound || 0 <= t[k] < 64
  }

  /** Both the intended and the as-written table are lookup tables. */
  lemma TablesAreLookupTables()
    ensures IsLookupTable(Indices)
    ensures IsLookupTable(IndicesAsWritten)
  {
    IndicesAsWrittenNeverNotFound();
  }

  /**
    What the loop emits after shifting in symbol c, the x-th symbol, found at
    position i: nothing inside a group; at its fourth symbol the high byte,
    and the middle and low bytes too unless c is `=`.
  */
  function Emitted(c: byte, i: nat, x: nat, n: bv64): (r: seq<byte>)
    ensures x % 4 != 3 ==> r == []
    ensures x % 4 == 3 ==> |r| == (if c == Pad then 1 else if i > 0 then 3 else 2)
    ensures x % 4 == 3 ==> r[0] as bv64 == (n >> 16) & 0xFF && r[|r| - 1] as bv64 == (if c == Pad then (n >> 16) else n) & 0xFF
  {
    if x % 4 != 3 then []
    else if c == Pad then [((n >> 16) & 0xFF) as byte]
    else
      [((n >> 16) & 0xFF) as byte]
      + (if i > 0 then [((n >> 8) & 0xFF) as byte] else [])
      + [(n & 0xFF) as byte]
  }

  /**
    The loop of `decode` from position i, as written: whitespace is skipped
    without advancing the symbol counter x; each other byte is looked up in
    `table` and shifted into the accumulator n (a 64-bit `size_t`); at every
    fourth symbol the byte `(n >> 16) & 0xFF` is emitted, and the two others
    only when that fourth symbol is not `=`. The `i > 0` test always holds
    there, since i >= 3.
  */
  function DecodeLoop(table: seq<int>, input: seq<byte>, i: nat, x: nat, n: bv64, output: seq<byte>)
    : (r: Result<seq<byte>, DecodeError>)
    requires IsLookupTable(table) && i <= |input|
    ensures r.Success? ==> output <= r.value
    ensures r.Failure? ==> r.error.InvalidCharacter?
    decreases |input| - i
  {
    if i == |input| then Success(output)
    else if IsSpace(input[i]) then DecodeLoop(table, input, i + 1, x, n, output)
    else
      var d := table[input[i] as int];
      if d == NotFound then Failure(InvalidCharacter(input[i], i))
      else
        var n' := (n << 6) | (d as bv64);
        var emitted := Emitted(input[i], i, x, n');
        DecodeLoop(table, input, i + 1, x + 1, n', output + emitted)
  }

  /** `decode` as written: empty input gives empty output, otherwise the loop runs over the as-written table. */
  function DecodeAsWritten(input: seq<byte>): (r: Result<seq<byte>, DecodeError>)
    ensures |input| == 0 ==> r == Success([])
  {
    TablesAreLookupTables();
    if |input| == 0 then Success([])
    else DecodeLoop(IndicesAsWritten, input, 0, 0, 0, [])
  }

  /** With the as-written table the `-1` check never fires: the loop never fails. */
  lemma {:induction false} DecodeLoopAsWrittenNeverFails(input: seq<byte>, i: nat, x: nat, n: bv64, output: seq<byte>)
    requires i <= |input|
    ensures IsLookupTable(IndicesAsWritten)
    ensures DecodeLoop(IndicesAsWritten, input, i, x, n, output).Success?
    decreases |input| - i
  {
    TablesAreLookupTables();
    IndicesAsWrittenNeverNotFound();
    if i < |input| {
      var d := IndicesAsWritten[input[i] as int];
      assert d != NotFound;
      if IsSpace(input[i]) {
        DecodeLoopAsWrittenNeverFails(input, i + 1, x, n, output);
      } else {
        var n' := (n << 6) | (d as bv64);
        var emitted := Emitted(input[i], i, x, n');
        DecodeLoopAsWrittenNeverFails(input, i + 1, x + 1, n', output + emitted);
      }
    }
  }

  /** `decode` as written accepts every input: it never reports an invalid character. */
  lemma DecodeAsWrittenNeverFails(input: seq<byte>)
    ensures DecodeAsWritten(input).Success?
  {
    if |input| > 0 {
      DecodeLoopAsWrittenNeverFails(input, 0, 0, 0, []);
    }
  }
}
