/**
  `yams::base64::encode`: bytes to Base64 text (section 4 of RFC 4648),
  three bytes at a time, with `=` padding for a final group of one or two
  bytes (section 3.2 of RFC 4648).
*/
module Base64Encode {
  import opened Bytes
  import opened Alphabet

  /** Three bytes as one 24-bit group, the first byte in the high bits. */
  function Pack24(b0: byte, b1: byte, b2: byte): bv24
  {
    ((b0 as bv24) << 16) | ((b1 as bv24) << 8) | (b2 as bv24)
  }

  /** Four 6-bit values as one 24-bit group, the first value in the high bits. */
  function Join24(s0: Sextet, s1: Sextet, s2: Sextet, s3: Sextet): bv24
  {
    ((s0 as bv24) << 18) | ((s1 as bv24) << 12) | ((s2 as bv24) << 6) | (s3 as bv24)
  }

  /**
    The four 6-bit values of a three-byte group, computed by the masks and
    shifts of the `update` helper. They are the group's 24 bits read six at
    a time from the top, so no bit is lost or moved.
  */
  function SplitGroup(b0: byte, b1: byte, b2: byte): (s: seq<Sextet>)
    ensures |s| == 4
    ensures Join24(s[0], s[1], s[2], s[3]) == Pack24(b0, b1, b2)
  {
    [ (b0 & 0xFC) >> 2,
      ((b0 & 0x03) << 4) + ((b1 & 0xF0) >> 4),
      ((b1 & 0x0F) << 2) + ((b2 & 0xC0) >> 6),
      b2 & 0x3F ]
  }

  /** The alphabet bytes of a run of 6-bit values (`charset[buffer_4[index]]`). */
  function Symbols(s: seq<Sextet>): (r: seq<byte>)
    ensures |r| == |s|
    ensures forall k :: 0 <= k < |s| ==> r[k] == SymbolByte(s[k])
  {
    seq(|s|, k requires 0 <= k < |s| => SymbolByte(s[k]))
  }

  /** The first `count` symbols of the group of bytes b0, b1, b2. */
  function GroupSymbols(b0: byte, b1: byte, b2: byte, count: nat): (r: seq<byte>)
    requires count <= 4
    ensures |r| == count
  {
    Symbols(SplitGroup(b0, b1, b2)[..count])
  }

  /** The number of `=` that end the encoding of n bytes. */
  function PaddingFor(n: nat): (p: nat)
    ensures p <= 2
    ensures (n + p) % 3 == 0
  {
    if n % 3 == 0 then 0 else 3 - n % 3
  }

  /**
    Base64 encoding: every full group of three bytes becomes four symbols; a
    final group of one byte becomes two symbols and `==`, a final group of
    two bytes three symbols and `=`, the missing bits taken as zero. The
    result has 4 * ceil(n/3) bytes, a multiple of four.
  */
  function Encode(data: seq<byte>): (r: seq<byte>)
    ensures |r| % 4 == 0
    ensures |r| == 0 <==> |data| == 0
    decreases |data|
  {
    if |data| == 0 then []
    else if |data| == 1 then GroupSymbols(data[0], 0, 0, 2) + [Pad, Pad]
    else if |data| == 2 then GroupSymbols(data[0], data[1], 0, 3) + [Pad]
    else GroupSymbols(data[0], data[1], data[2], 4) + Encode(data[3..])
  }

  /** The encoding has 4 * ceil(n/3) bytes, a multiple of four (the size `reserve`d for it). */
  lemma {:induction false} EncodeLength(data: seq<byte>)
    ensures |Encode(data)| == 4 * ((|data| + 2) / 3)
    ensures |Encode(data)| % 4 == 0
    decreases |data|
  {
    if |data| >= 3 {
      EncodeLength(data[3..]);
    }
  }

  /**
    The encoding is symbols followed by exactly the padding: `==` after a
    final single byte, `=` after a final pair, nothing otherwise.
  */
  lemma {:induction false} EncodeShape(data: seq<byte>)
    ensures forall k :: 0 <= k < |Encode(data)| - PaddingFor(|data|) ==> IsBase64(Encode(data)[k])
    ensures forall k :: |Encode(data)| - PaddingFor(|data|) <= k < |Encode(data)| ==> Encode(data)[k] == Pad
    decreases |data|
  {
    var r := Encode(data);
    if |data| >= 3 {
      EncodeShape(data[3..]);
      var g := GroupSymbols(data[0], data[1], data[2], 4);
      assert r == g + Encode(data[3..]);
      assert PaddingFor(|data[3..]|) == PaddingFor(|data|);
      forall k | 0 <= k < |r| - PaddingFor(|data|)
        ensures IsBase64(r[k])
      {
        if k >= 4 {
          assert r[k] == Encode(data[3..])[k - 4];
        }
      }
    }
  }

  /** Encoding splits at any multiple of three: groups never straddle the split. */
  lemma {:induction false} EncodeAppend(d: seq<byte>, e: seq<byte>)
    requires |d| % 3 == 0
    ensures Encode(d + e) == Encode(d) + Encode(e)
    decreases |d|
  {
    if |d| == 0 {
      EmptyAppend(e);
    } else {
      var h := GroupSymbols(d[0], d[1], d[2], 4);
      AppendAfterGroup(d, e);
      EncodeAppend(d[3..], e);
      calc {
        Encode(d + e);
        h + Encode(d[3..] + e);
        h + (Encode(d[3..]) + Encode(e));
        (h + Encode(d[3..])) + Encode(e);
        Encode(d) + Encode(e);
      }
    }
  }

  /**
    Appending to nothing leaves e. A lemma of its own: asserted inside
    EncodeAppend, the sequence equality shares an obligation with the
    unfolding of Encode and costs far more.
  */
  lemma EmptyAppend(e: seq<byte>)
    ensures [] + e == e
  {
  }

  /** Appending to a sequence of at least three bytes leaves its first group in place. */
  lemma AppendAfterGroup(d: seq<byte>, e: seq<byte>)
    requires 3 <= |d|
    ensures (d + e)[0] == d[0] && (d + e)[1] == d[1] && (d + e)[2] == d[2]
    ensures (d + e)[3..] == d[3..] + e
  {
  }

  /** The encoding of one full group. */
  lemma EncodeGroup(b0: byte, b1: byte, b2: byte)
    ensures Encode([b0, b1, b2]) == GroupSymbols(b0, b1, b2, 4)
  {
    assert [b0, b1, b2][3..] == [];
  }

  /** The `update` helper: the first `bound` symbols of the buffered group. */
  function Update(buffer: seq<byte>, bound: nat): (r: seq<byte>)
    requires |buffer| == 3 && bound <= 4
    ensures |r| == bound
    ensures forall j :: 0 <= j < bound ==> r[j] == SymbolByte(SplitGroup(buffer[0], buffer[1], buffer[2])[j])
  {
    GroupSymbols(buffer[0], buffer[1], buffer[2], bound)
  }

  /**
    `encode` as written. The loop fills `buffer_3` and flushes every full
    group; afterwards the buffer is zero-filled and `update(j, i+1)` emits
    i+1 symbols of it, followed by the padding for i leftover bytes. When no
    bytes are left over (i == 0, the empty input included) this emits one
    symbol too many, `charset[0]`.
  */
  method EncodeAsWritten(input: seq<byte>) returns (output: seq<byte>)
    ensures |input| % 3 != 0 ==> output == Encode(input)
    ensures |input| % 3 == 0 ==> output == Encode(input) + [SymbolByte(0)]
    ensures |input| == 0 ==> output == ['A' as bv8]
  {
    var buffer, i;
    output, buffer, i := EncodeGroupsAsWritten(input);
    ghost var groups := WholeGroups(|input|);
    buffer := ZeroFill(buffer, i);
    output := output + Update(buffer, i + 1);
    if i == 1 {
      output := output + [Pad, Pad];
      FlushTailOne(input, buffer, groups);
    } else if i == 2 {
      output := output + [Pad];
      FlushTailTwo(input, buffer, groups);
    } else {
      FlushTailNone(input, buffer);
    }
  }

  /**
    The main loop of `encode`, `for (x=0, l=n; l || x < l; x++, l--)`, which
    runs once per input byte: it buffers each byte and flushes every full
    group of three. It leaves the i = n mod 3 leftover bytes in the buffer.
  */
  method EncodeGroupsAsWritten(input: seq<byte>) returns (output: seq<byte>, buffer: seq<byte>, i: nat)
    ensures i == |input| % 3 && |buffer| == 3
    ensures forall k :: 0 <= k < i ==> buffer[k] == input[|input| - i + k]
    ensures output == Encode(input[..|input| - i])
  {
    output := [];
    buffer := [0, 0, 0];
    i := 0;
    var x := 0;
    var l := |input|;
    var groups := 0;
    assert input[..3 * groups] == [];
    while l != 0 || x < l
      invariant 0 <= l && x + l == |input|
      invariant Buffered(input, x, i, groups, buffer, output)
      decreases l
    {
      output, buffer, i, groups := BufferByte(input, x, output, buffer, i, groups);
      x := x + 1;
      l := l - 1;
    }
    LoopExit(input, groups, i, buffer, output);
  }

  /**
    The state of the main loop after x input bytes: `groups` full groups are
    flushed and encoded in `output`, and the i bytes read since then are at
    the front of `buffer_3`.
  */
  predicate Buffered(input: seq<byte>, x: nat, i: nat, groups: nat, buffer: seq<byte>, output: seq<byte>)
  {
    x <= |input| && i < 3 && x == 3 * groups + i && |buffer| == 3
    && (forall k :: 0 <= k < i ==> buffer[k] == input[x - i + k])
    && output == Encode(input[..3 * groups])
  }

  /**
    One pass of the loop: `buffer_3[i++] = input[x]`, and when the buffer is
    full, `update(i, 4)` flushes it and i starts again from zero.
  */
  method BufferByte(input: seq<byte>, x: nat, output: seq<byte>, buffer: seq<byte>, i: nat, groups: nat)
    returns (output': seq<byte>, buffer': seq<byte>, i': nat, groups': nat)
    requires x < |input| && Buffered(input, x, i, groups, buffer, output)
    ensures Buffered(input, x + 1, i', groups', buffer', output')
  {
    buffer' := buffer[i := input[x]];
    i' := i + 1;
    groups' := groups;
    output' := output;
    if i' == 3 {
      output' := FlushGroup(output, input, groups, buffer');
      i' := 0;
      groups' := groups + 1;
    }
  }

  /** When the loop ends, i = n mod 3 bytes are buffered and the groups before them are encoded. */
  lemma LoopExit(input: seq<byte>, groups: nat, i: nat, buffer: seq<byte>, output: seq<byte>)
    requires Buffered(input, |input|, i, groups, buffer, output)
    ensures i == |input| % 3 && |buffer| == 3
    ensures forall k :: 0 <= k < i ==> buffer[k] == input[|input| - i + k]
    ensures output == Encode(input[..|input| - i])
  {
    assert |input| == 3 * groups + i;
  }

  /** `for (j=i; j < 3; j++) buffer_3[j] = '\0'`: the unused buffer slots become zero. */
  method ZeroFill(buffer: seq<byte>, i: nat) returns (filled: seq<byte>)
    requires |buffer| == 3 && i <= 3
    ensures |filled| == 3
    ensures forall k :: 0 <= k < i ==> filled[k] == buffer[k]
    ensures forall k :: i <= k < 3 ==> filled[k] == 0
  {
    filled := buffer;
    var j := i;
    while j < 3
      invariant i <= j <= 3
      invariant |filled| == 3
      invariant forall k :: 0 <= k < i ==> filled[k] == buffer[k]
      invariant forall k :: i <= k < j ==> filled[k] == 0
    {
      filled := filled[j := 0];
      j := j + 1;
    }
  }

  /**
    `update(i, 4)` on a full buffer: the output so far, the encoding of the
    groups before, is extended to the encoding of one more group.
  */
  method FlushGroup(output: seq<byte>, input: seq<byte>, groups: nat, buffer: seq<byte>) returns (extended: seq<byte>)
    requires 3 * groups + 3 <= |input|
    requires |buffer| == 3
    requires var start := 3 * groups;
      buffer[0] == input[start] && buffer[1] == input[start + 1] && buffer[2] == input[start + 2]
    requires output == Encode(input[..3 * groups])
    ensures extended == Encode(input[..3 * groups + 3])
  {
    var start := 3 * groups;
    assert start % 3 == 0;
    var g := [buffer[0], buffer[1], buffer[2]];
    TakeGroup(input, start);
    EncodeAppend(input[..start], g);
    EncodeGroup(buffer[0], buffer[1], buffer[2]);
    extended := output + Update(buffer, 4);
  }

  lemma TakeGroup(input: seq<byte>, start: nat)
    requires start + 3 <= |input|
    ensures input[..start + 3] == input[..start] + [input[start], input[start + 1], input[start + 2]]
  {
  }

  /** With no bytes left over, the as-written tail is one extra `charset[0]`. */
  lemma FlushTailNone(input: seq<byte>, buffer: seq<byte>)
    requires |input| % 3 == 0
    requires buffer == [0, 0, 0]
    ensures Encode(input[..|input|]) + Update(buffer, 1) == Encode(input) + [SymbolByte(0)]
  {
    assert input[..|input|] == input;
    UpdateZero();
  }

  lemma UpdateZero()
    ensures Update([0, 0, 0], 1) == [SymbolByte(0)]
  {
    assert SplitGroup(0, 0, 0)[0] == 0;
  }

  /** With one byte left over, the as-written tail is that byte's encoding. */
  lemma FlushTailOne(input: seq<byte>, buffer: seq<byte>, groups: nat)
    requires |input| == 3 * groups + 1
    requires |buffer| == 3 && buffer[0] == input[|input| - 1] && buffer[1] == 0 && buffer[2] == 0
    ensures Encode(input[..|input| - 1]) + Update(buffer, 2) + [Pad, Pad] == Encode(input)
  {
    var front, tail := input[..|input| - 1], input[|input| - 1..];
    SplitAt(input, |input| - 1);
    EncodeSingle(tail, buffer);
    EncodeWithTail(input, front, tail, groups, Update(buffer, 2), [Pad, Pad]);
  }

  /** With two bytes left over, the as-written tail is their encoding. */
  lemma FlushTailTwo(input: seq<byte>, buffer: seq<byte>, groups: nat)
    requires |input| == 3 * groups + 2
    requires |buffer| == 3 && buffer[0] == input[|input| - 2] && buffer[1] == input[|input| - 1] && buffer[2] == 0
    ensures Encode(input[..|input| - 2]) + Update(buffer, 3) + [Pad] == Encode(input)
  {
    var front, tail := input[..|input| - 2], input[|input| - 2..];
    SplitAt(input, |input| - 2);
    EncodePair(tail, buffer);
    EncodeWithTail(input, front, tail, groups, Update(buffer, 3), [Pad]);
  }

  /** A final single byte encodes as the first two symbols of its zero-filled buffer, then `==`. */
  lemma EncodeSingle(tail: seq<byte>, buffer: seq<byte>)
    requires |tail| == 1 && |buffer| == 3
    requires buffer[0] == tail[0] && buffer[1] == 0 && buffer[2] == 0
    ensures Encode(tail) == Update(buffer, 2) + [Pad, Pad]
  {
  }

  /** A final pair of bytes encodes as the first three symbols of its zero-filled buffer, then `=`. */
  lemma EncodePair(tail: seq<byte>, buffer: seq<byte>)
    requires |tail| == 2 && |buffer| == 3
    requires buffer[0] == tail[0] && buffer[1] == tail[1] && buffer[2] == 0
    ensures Encode(tail) == Update(buffer, 3) + [Pad]
  {
  }

  /** Whole groups followed by a tail encode as the groups, then the tail's symbols and padding. */
  lemma EncodeWithTail(input: seq<byte>, front: seq<byte>, tail: seq<byte>, groups: nat, symbols: seq<byte>, pads: seq<byte>)
    requires input == front + tail && |front| == 3 * groups
    requires Encode(tail) == symbols + pads
    ensures Encode(front) + symbols + pads == Encode(input)
  {
    ThreeDivides(groups);
    EncodeAppend(front, tail);
    TailJoin(Encode(input), Encode(front), Encode(tail), symbols, pads);
  }

  /** A sequence is its front and its rest. */
  lemma SplitAt(s: seq<byte>, k: nat)
    requires k <= |s|
    ensures s == s[..k] + s[k..]
  {
  }

  /** A whole split as a front and a tail, the tail split again, is the three parts in order. */
  lemma TailJoin(whole: seq<byte>, front: seq<byte>, tail: seq<byte>, u: seq<byte>, pads: seq<byte>)
    requires whole == front + tail && tail == u + pads
    ensures front + u + pads == whole
  {
  }

  /** The number of whole groups of three in n bytes. */
  function WholeGroups(n: nat): (g: nat)
    ensures n == 3 * g + n % 3
  {
    n / 3
  }

  /**
    A multiple of three leaves no remainder. A lemma of its own keeps this
    modular fact out of EncodeWithTail, whose other steps it slows down.
  */
  lemma ThreeDivides(g: nat)
    ensures (3 * g) % 3 == 0
  {
  }
}
