/**
  The Base64 alphabet of RFC 4648 section 4 (Table 1), its forward lookup
  `get_index`, the reverse table `indices`, the symbol test `is_base64`,
  and the whitespace class `decode` skips.
*/
module Alphabet {
  import opened CompileTimeString
  import opened Bytes

  /** A 6-bit value, the index of a symbol in the alphabet. */
  type Sextet = v: bv8 | v < 64

  /** The padding symbol `=`. */
  const Pad: byte := 0x3D

  /** "Not found", the `(size_t)-1` that `get_index` returns. */
  const NotFound: int := -1

  /**
    The 64 symbols in value order. The source spells them as one literal of
    64 chars plus terminator; the four runs below are that same literal.
  */
  const AlphabetText: seq<char> := Upper + Lower + Digits + "+/"

  const Upper: seq<char> := "ABCDEFGHIJKLMNOPQRSTUVWXYZ"
  const Lower: seq<char> := "abcdefghijklmnopqrstuvwxyz"
  const Digits: seq<char> := "0123456789"

  /** Each run of the alphabet is a run of consecutive ASCII codes. */
  lemma RunsAreConsecutive()
    ensures |Upper| == 26 && forall v :: 0 <= v < 26 ==> Upper[v] as int == 65 + v
    ensures |Lower| == 26 && forall v :: 0 <= v < 26 ==> Lower[v] as int == 97 + v
    ensures |Digits| == 10 && forall v :: 0 <= v < 10 ==> Digits[v] as int == 48 + v
  {
  }

  /**
    `charset`: a `ct_str<64>` built through the `string_view` constructor,
    so it holds exactly the 64 symbols and no terminator.
  */
  const Charset: CtStr := FromView(AlphabetText, 64)

  /** Table 1 of RFC 4648: the ASCII code of the symbol for value v, by the four runs it consists of. */
  function SymbolCode(v: nat): (n: nat)
    requires v < 64
    ensures n < 128
  {
    if v < 26 then 65 + v
    else if v < 52 then 97 + (v - 26)
    else if v < 62 then 48 + (v - 52)
    else if v == 62 then 43
    else 47
  }

  /** The char with the code of byte `b` (how `get_index` sees a byte). */
  function ByteChar(b: byte): char
  {
    (b as int) as char
  }

  /** `charset` spells out Table 1, and its `size()` is 63 because it has no terminator. */
  lemma CharsetIsTable()
    ensures |Charset| == 64
    ensures forall v :: 0 <= v < 64 ==> Charset[v] as int == SymbolCode(v)
    ensures Size(Charset) == 63
  {
    RunsAreConsecutive();
    forall v | 0 <= v < 64
      ensures Charset[v] as int == SymbolCode(v)
    {
      assert Charset[v] == AlphabetText[v];
      if v < 26 {
        assert AlphabetText[v] == Upper[v];
      } else if v < 52 {
        assert AlphabetText[v] == Lower[v - 26];
      } else if v < 62 {
        assert AlphabetText[v] == Digits[v - 52];
      }
    }
  }

  /** The 64 symbols are pairwise distinct. */
  lemma CharsetDistinct()
    ensures forall i, j :: 0 <= i < 64 && 0 <= j < 64 && i != j ==> Charset[i] != Charset[j]
  {
    CharsetIsTable();
    forall i, j | 0 <= i < 64 && 0 <= j < 64 && Charset[i] == Charset[j]
      ensures i == j
    {
      assert SymbolCode(i) == SymbolCode(j);
    }
  }

  /** The byte that encodes symbol value `v`, as `charset[v]` pushed into the output. */
  function SymbolByte(v: Sextet): (b: byte)
    ensures b as int == SymbolCode(v as int)
    ensures IsBase64(b) && b != Pad
  {
    if v < 26 then v + 0x41
    else if v < 52 then v + 0x47
    else if v < 62 then v - 4
    else if v == 62 then 0x2B
    else 0x2F
  }

  /**
    `get_index` searching from position `i`: the first position holding `c`,
    or NotFound when no later position does. Only the 64 symbols are searched.
  */
  function IndexFrom(c: char, i: nat): (r: int)
    requires i <= 64
    ensures r == NotFound || i <= r < 64
    ensures r != NotFound ==> Charset[r] == c
    ensures r != NotFound ==> forall k :: i <= k < r ==> Charset[k] != c
    ensures r == NotFound <==> forall k :: i <= k < 64 ==> Charset[k] != c
    decreases 64 - i
  {
    CharsetIsTable();
    if i == 64 then NotFound
    else if Charset[i] == c then i
    else IndexFrom(c, i + 1)
  }

  /** `detail::get_index`: the value of symbol `c`, or NotFound. */
  function GetIndex(c: char): (r: int)
    ensures r == NotFound || 0 <= r < 64
    ensures r != NotFound ==> Charset[r] == c
    ensures r == NotFound <==> forall k :: 0 <= k < 64 ==> Charset[k] != c
  {
    IndexFrom(c, 0)
  }

  /** `get_index(charset[v]) == v` for every symbol value. */
  lemma GetIndexInvertsCharset(v: nat)
    requires v < 64
    ensures GetIndex(Charset[v]) == v
  {
    CharsetIsTable();
    CharsetDistinct();
  }

  /** The intended entry of the reverse table for byte code k. */
  function ReverseEntry(k: nat): int
    requires k < 256
  {
    GetIndex(k as char)
  }

  /**
    `detail::generate_indices` as intended: a 256-entry reverse table whose
    entry for the code of `charset[v]` is v and whose every other entry is
    NotFound.
  */
  function GenerateIndices(): (t: seq<int>)
    ensures |t| == 256
    ensures forall k :: 0 <= k < 256 ==> t[k] == NotFound || 0 <= t[k] < 64
    ensures forall k :: 0 <= k < 256 && t[k] != NotFound ==> Charset[t[k]] == k as char
    ensures forall k :: 0 <= k < 256 ==> (t[k] == NotFound <==> forall v :: 0 <= v < 64 ==> Charset[v] != k as char)
  {
    seq(256, k requires 0 <= k < 256 => ReverseEntry(k))
  }

  /** `indices`, the reverse table as intended. */
  const Indices: seq<int> := GenerateIndices()

  /** Entry b of the reverse table, for a byte b. */
  function IndexOf(b: byte): int
  {
    Indices[b as int]
  }

  /** The table entry for the byte of symbol v is v. */
  lemma IndexOfSymbolByte(v: Sextet)
    ensures IndexOf(SymbolByte(v)) == v as int
  {
    var k := SymbolByte(v) as int;
    CharsetIsTable();
    assert Charset[v as int] as int == k;
    assert Charset[v as int] == k as char;
    var t := Indices;
    assert t[k] != NotFound;
    CharsetDistinct();
  }

  /** The table marks exactly the non-symbol bytes NotFound. */
  lemma IndexOfNotFound(b: byte)
    ensures IndexOf(b) == NotFound <==> !IsBase64(b)
  {
    IsBase64Iff(b);
    assert ByteChar(b) == (b as int) as char;
  }

  /**
    The 6-bit value of a symbol byte: the inverse of Table 1, by the four
    runs of the alphabet.
  */
  function ValueOf(b: byte): (v: Sextet)
    requires IsBase64(b)
    ensures SymbolByte(v) == b
  {
    if 0x41 <= b <= 0x5A then b - 0x41
    else if 0x61 <= b <= 0x7A then b - 0x47
    else if 0x30 <= b <= 0x39 then b + 4
    else if b == 0x2B then 62
    else 63
  }

  /** The reverse table `indices` maps every symbol byte to its value. */
  lemma IndexOfValueOf(b: byte)
    requires IsBase64(b)
    ensures IndexOf(b) == ValueOf(b) as int
  {
    IndexOfSymbolByte(ValueOf(b));
  }

  /** Looking up the byte of a symbol gives back its value. */
  lemma ValueOfSymbolByte(v: Sextet)
    ensures IsBase64(SymbolByte(v))
    ensures ValueOf(SymbolByte(v)) == v
  {
    IndexOfSymbolByte(v);
    IndexOfNotFound(SymbolByte(v));
  }

  /**
    `indices` as the source builds it: entry k is `get_index(charset[k])` for
    the 64 positions k it lists, and the remaining 192 entries are
    zero-initialised. Entry k is therefore k, not the value of the symbol
    with code k.
  */
  function GenerateIndicesAsWritten(): (t: seq<int>)
    ensures |t| == 256
    ensures forall k :: 0 <= k < 64 ==> t[k] == k
    ensures forall k :: 64 <= k < 256 ==> t[k] == 0
  {
    GetIndexInvertsAll();
    seq(256, k requires 0 <= k < 256 => if k < 64 then GetIndex(Charset[k]) else 0)
  }

  /** `get_index` inverts `charset` at every position. */
  lemma GetIndexInvertsAll()
    ensures forall k :: 0 <= k < 64 ==> GetIndex(Charset[k]) == k
  {
    forall k | 0 <= k < 64
      ensures GetIndex(Charset[k]) == k
    {
      GetIndexInvertsCharset(k);
    }
  }

  /** `indices` as the source builds it. */
  const IndicesAsWritten: seq<int> := GenerateIndicesAsWritten()

  /**
    The table as written never holds NotFound, so the `-1` check in `decode`
    never fires: every byte is read as some value below 64.
  */
  lemma IndicesAsWrittenNeverNotFound()
    ensures forall k :: 0 <= k < 64 ==> IndicesAsWritten[k] == k
    ensures forall k :: 0 <= k < 256 ==> 0 <= IndicesAsWritten[k] < 64
  {
  }

  /**
    The table as written is not a reverse table: it reads the symbol 'a' as 0
    where its value is 26, and reads '#', which is no symbol, as 35.
  */
  lemma IndicesAsWrittenIsNotReverse()
    ensures IndicesAsWritten[0x61] == 0 && IndexOf(0x61) == 26
    ensures IndicesAsWritten[0x23] == 35 && IndexOf(0x23) == NotFound
  {
    IndicesAsWrittenNeverNotFound();
    IndexOfSymbolByte(26);
    assert SymbolByte(26) == 0x61;
    IndexOfNotFound(0x23);
  }

  /** `is_base64`: an upper-case letter, a lower-case letter, a digit, `+` or `/`. */
  predicate IsBase64(c: byte)
  {
    var n := c as int;
    ('A' as int <= n <= 'Z' as int) ||
    ('a' as int <= n <= 'z' as int) ||
    ('0' as int <= n <= '9' as int) ||
    n == '+' as int || n == '/' as int
  }

  /** `is_base64(c)` holds exactly for the 64 symbols of `charset`. */
  lemma IsBase64Iff(c: byte)
    ensures IsBase64(c) <==> exists v :: 0 <= v < 64 && Charset[v] == ByteChar(c)
  {
    CharsetIsTable();
    var n := c as int;
    assert ByteChar(c) as int == n;
    if IsBase64(c) {
      var v: nat :=
        if 65 <= n <= 90 then n - 65
        else if 97 <= n <= 122 then n - 97 + 26
        else if 48 <= n <= 57 then n - 48 + 52
        else if n == 43 then 62
        else 63;
      assert Charset[v] as int == n;
    }
  }

  /** `std::isspace` in the C locale: space, `\t`, `\n`, `\v`, `\f`, `\r`. */
  predicate IsSpace(c: byte)
  {
    c == 0x20 || (0x09 <= c <= 0x0D)
  }

  /** No symbol is whitespace or padding, and padding is not whitespace. */
  lemma ClassesDisjoint(c: byte)
    ensures IsBase64(c) ==> !IsSpace(c) && c != Pad
    ensures IsSpace(c) ==> c != Pad
  {
  }
}
