# Base64 codec of yams, modelled in Dafny

This project models the Base64 codec in `include/yams/base64.hpp` and the
compile-time string `ct_str<N>` in `include/yams/compile_time_string.hpp`.
The codec follows RFC 4648: the alphabet of Table 1 in section 4 and `=`
padding as in section 3.2. The model covers:

- the alphabet `charset`, the forward lookup `detail::get_index`, the
  reverse table `indices` built by `detail::generate_indices`, and the
  symbol test `is_base64`;
- `encode`: groups of three bytes become four symbols, and a final group of
  one or two bytes is padded with `==` or `=`;
- `detail::get_padding`: the count of trailing `=`;
- `decode`: whitespace is skipped, each symbol is looked up, and every group
  of four symbols gives back up to three bytes;
- `ct_str<N>`: construction, assignment, equality, concatenation,
  `operator[]` and `size()`.

The source has several bugs. Each of them is modelled twice: once as the
code is written (the `AsWritten` members and the as-written members named
under "## Findings") and once as evidently intended. The rest of the model builds on the intended version.
The intended decoder reports errors with a `Result` instead of throwing:

- `InvalidCharacter(byte, position)` for the first byte that is not a
  symbol, `=` or whitespace;
- `InvalidLength` when the symbols do not fill whole groups of four;
- `InvalidPadding` when `=` appears anywhere but as the last one or two
  symbols.

The source itself checks only for invalid characters, and that check never
fires. The length and padding errors come from the intended behaviour.

Files, one module each:

- `wrappers.dfy`: `Option` and `Result`.
- `bytes.dfy`: the byte type, `bv8`.
- `compile_time_string.dfy`: `ct_str<N>` as a `seq<char>` of length N >= 1.
- `alphabet.dfy`: `charset`, `get_index`, both reverse tables, `is_base64`
  and the whitespace class.
- `encode.dfy`: the intended `Encode` and the source's loop, `EncodeAsWritten`.
- `decode.dfy`: the intended `Decode`, `get_padding` both ways, and the
  source's loop, `DecodeAsWritten`.
- `laws.dfy`: the round trip, the length laws and whitespace insensitivity.
- `examples.dfy`: worked inputs, including the counterexamples to the source.

The whitespace class is the C-locale `std::isspace`: space, `\t`, `\n`,
`\v`, `\f`, `\r`.

## Model

| member | source | states |
|---|---|---|
| CompileTimeString.FromArray | include/yams/compile_time_string.hpp:13 | construction from a char array copies all N chars, terminator included, and `operator[]` reads them back |
| CompileTimeString.FromView | include/yams/compile_time_string.hpp:15 | construction from a view copies exactly the first n chars of a view holding at least n |
| CompileTimeString.Copy | include/yams/compile_time_string.hpp:17 | a copy compares equal to its source |
| CompileTimeString.Assign | include/yams/compile_time_string.hpp:19-22 | copy assignment keeps the size and yields a value equal to the source |
| CompileTimeString.AssignArray | include/yams/compile_time_string.hpp:24-27 | assignment from a same-size char array yields exactly that array's chars |
| CompileTimeString.Equals | include/yams/compile_time_string.hpp:30-33 | `==` holds exactly when both strings have the same size and the same chars |
| CompileTimeString.EqualsIsEquivalence | include/yams/compile_time_string.hpp:30 | same-size equality is reflexive, symmetric and transitive |
| CompileTimeString.DifferentSizesDiffer | include/yams/compile_time_string.hpp:32-33 | strings of different sizes never compare equal |
| CompileTimeString.Concat | include/yams/compile_time_string.hpp:35-41 | `a + b` has N+N2-1 chars: the first N-1 chars of `a`, then all of `b` |
| CompileTimeString.At | include/yams/compile_time_string.hpp:43-45 | `operator[]` and `at<I>()` read the char stored at position n, for n below N |
| CompileTimeString.Size | include/yams/compile_time_string.hpp:48 | `size()` is a valid position: the one just past the last char before the terminator |
| CompileTimeString.LiteralSize | include/yams/compile_time_string.hpp:48 | for a string built from a literal, `size()` is its C-string length: the char there is the terminator and every char before it is not |
| CompileTimeString.ConcatSize | include/yams/compile_time_string.hpp:48 | `size()` is N-1, and `size(a + b) == size(a) + size(b)` |
| CompileTimeString.ConcatAt | include/yams/compile_time_string.hpp:35-45 | position n of `a + b` reads `a[n]` below `a.size()` and `b[n - a.size()]` from there on |
| CompileTimeString.ConcatAssociative | include/yams/compile_time_string.hpp:35-41 | concatenation is associative |
| CompileTimeString.ConcatLiteral | include/yams/compile_time_string.hpp:51-54 | `ct_str + literal` keeps the string without its terminator, followed by the whole literal |
| CompileTimeString.LiteralConcat | include/yams/compile_time_string.hpp:56-59 | `literal + ct_str` keeps the literal without its terminator, followed by the whole string |
| CompileTimeString.EqualsLiteral | include/yams/compile_time_string.hpp:61-64 | `ct_str == literal` holds exactly when the chars and sizes agree |
| CompileTimeString.LiteralEquals | include/yams/compile_time_string.hpp:66-69 | `literal == ct_str` holds exactly when the chars and sizes agree |
| Alphabet.CharsetIsTable | include/yams/base64.hpp:28 | `charset` holds the 64 symbols of Table 1 in value order and no terminator, so its `size()` is 63 |
| Alphabet.CharsetDistinct | include/yams/base64.hpp:28 | the 64 symbols are pairwise distinct |
| Alphabet.IndexFrom | include/yams/base64.hpp:37-42 | the search from position i finds the first later position holding c, or reports not found exactly when none does |
| Alphabet.GetIndex | include/yams/base64.hpp:36-43 | `get_index(c)` is -1 exactly when c is not a symbol, and otherwise the position of c |
| Alphabet.GetIndexInvertsCharset | include/yams/base64.hpp:36-43 | `get_index(charset[v]) == v` for every v < 64 |
| Alphabet.SymbolByte | include/yams/base64.hpp:123 | the byte pushed for value v is the code of `charset[v]`; it is a symbol and never `=` |
| Alphabet.GenerateIndices | include/yams/base64.hpp:51-54 | the intended reverse table has 256 entries; entry k is -1 exactly when byte k is no symbol, and otherwise the value whose symbol is k |
| Alphabet.IndexOfSymbolByte | include/yams/base64.hpp:85 | the reverse table maps the byte of symbol v back to v |
| Alphabet.IndexOfNotFound | include/yams/base64.hpp:85 | the reverse table marks exactly the bytes that fail `is_base64` as -1 |
| Alphabet.ValueOf | include/yams/base64.hpp:177 | the value of a symbol byte is the one whose symbol is that byte |
| Alphabet.IndexOfValueOf | include/yams/base64.hpp:177 | looking a symbol up in the reverse table gives its value |
| Alphabet.ValueOfSymbolByte | include/yams/base64.hpp:177 | reading back the symbol of v gives v |
| Alphabet.GenerateIndicesAsWritten | include/yams/base64.hpp:51-54 | the table as built has 256 entries, k at each position k < 64 and 0 at every other position |
| Alphabet.IndicesAsWrittenNeverNotFound | include/yams/base64.hpp:51-54 | the table as built by the source holds k at position k < 64 and a value below 64 everywhere, never -1 |
| Alphabet.IndicesAsWrittenIsNotReverse | include/yams/base64.hpp:85 | the table as built reads the symbol `a` as 0 instead of 26, and the non-symbol `#` as 35 instead of -1 |
| Alphabet.IsBase64Iff | include/yams/base64.hpp:92-97 | `IsBase64`, the model of `is_base64(c)`, holds exactly when c is one of the 64 symbols of `charset` |
| Alphabet.ClassesDisjoint | include/yams/base64.hpp:172 | the classes `IsBase64`, `IsSpace` (C-locale `std::isspace`) and `=` are pairwise disjoint: no symbol is whitespace or `=`, and `=` is not whitespace |
| Base64Encode.SplitGroup | include/yams/base64.hpp:117-120 | `buffer_4` holds four values that, joined six bits each from the top, give back the 24 bits of the three buffered bytes, so no bit is lost or moved |
| Base64Encode.Update | include/yams/base64.hpp:115-125 | `update(index, bound)` pushes exactly `bound` bytes, the j-th being `charset[buffer_4[j]]` |
| Base64Encode.Symbols | include/yams/base64.hpp:122-124 | the output holds one symbol per 6-bit value, `charset[value]`, in order |
| Base64Encode.PaddingFor | include/yams/base64.hpp:144-153 | at most two `=` are added, exactly enough to complete the last group of three |
| Base64Encode.Encode | include/yams/base64.hpp:109-154 | the intended encoding is whole groups of four bytes, and it is empty exactly when the data is |
| Base64Encode.EncodeLength | include/yams/base64.hpp:113 | the encoding of n bytes has 4 * ceil(n/3) bytes, a multiple of four, so empty input gives empty output |
| Base64Encode.EncodeShape | include/yams/base64.hpp:139-153 | the encoding is symbols followed by exactly the padding: `==` after one leftover byte, `=` after two, none otherwise |
| Base64Encode.EncodeAppend | include/yams/base64.hpp:130-137 | encoding whole groups and then more data is encoding each part and joining the results |
| Base64Encode.EncodeGroup | include/yams/base64.hpp:133-136 | three bytes encode to the four symbols of their group |
| Base64Encode.EncodeGroupsAsWritten | include/yams/base64.hpp:127-137 | the main loop leaves n mod 3 bytes in the buffer and has output the encoding of all earlier full groups |
| Base64Encode.BufferByte | include/yams/base64.hpp:131-136 | one pass of the main loop keeps its invariant: the buffer holds the bytes since the last full group, and the output is the encoding of all full groups so far |
| Base64Encode.ZeroFill | include/yams/base64.hpp:139-142 | the buffered bytes are kept and the unused slots become zero |
| Base64Encode.FlushGroup | include/yams/base64.hpp:133-136 | flushing a full buffer with `update(i, 4)` turns the encoding of the first g groups into the encoding of the first g+1 |
| Base64Encode.EncodeAsWritten | include/yams/base64.hpp:109-154 | the source's `encode` agrees with `Encode` when n mod 3 is not 0, and otherwise adds one `A`; the empty input gives "A" |
| Base64Decode.FirstInvalid | include/yams/base64.hpp:171-184 | finds the first byte that is neither a symbol, `=` nor whitespace, or reports that there is none |
| Base64Decode.StripSpace | include/yams/base64.hpp:172-175 | the stripped text has no whitespace and is no longer than the input |
| Base64Decode.StripSpaceKeeps | include/yams/base64.hpp:172-175 | stripping keeps exactly the bytes that are not whitespace |
| Base64Decode.StripSpaceAppend | include/yams/base64.hpp:171-175 | stripping a concatenation strips each part |
| Base64Decode.TrailingPads | include/yams/base64.hpp:56-79 | counts the `=` at the end of a text: those positions are `=`, and the one before is not |
| Base64Decode.GetPadding | include/yams/base64.hpp:56-79 | the padding count is 0, 1 or 2 and is the number of trailing `=`, capped at 2 |
| Base64Decode.GetPaddingAsWritten | include/yams/base64.hpp:56-79 | the source's count is 1 exactly when one of the last two bytes is `=`, and 0 otherwise; it never returns 2 |
| Base64Decode.GetPaddingAsWrittenWrong | include/yams/base64.hpp:62-64 | for "aA==" the source counts 1 where there are 2, and for "ab=c" it counts 1 where there are none |
| Base64Decode.WellPaddedIff | include/yams/base64.hpp:189 | a text is well padded exactly when its `=` are its last `GetPadding` symbols |
| Base64Decode.Unpack24 | include/yams/base64.hpp:188-193 | the three bytes taken from the accumulator, high byte first, pack back into the same 24-bit group |
| Base64Decode.UnpackPack | include/yams/base64.hpp:188-193 | the bytes `(n >> 16) & 0xFF`, `(n >> 8) & 0xFF`, `n & 0xFF` of a packed group are the group's three bytes |
| Base64Decode.DecodeQuad | include/yams/base64.hpp:186-195 | a group of four emits three bytes, two when it ends in one `=`, one when it ends in `==` |
| Base64Decode.DecodeSymbols | include/yams/base64.hpp:161-200 | fails with InvalidLength exactly when the symbols are not whole groups, with InvalidPadding exactly when `=` is misplaced, and succeeds otherwise |
| Base64Decode.Decode | include/yams/base64.hpp:161-200 | reports the first rejected byte with its position; any other outcome means every byte is accepted; the empty text decodes to nothing |
| Base64Decode.DecodeAccepted | include/yams/base64.hpp:171-175 | a text with no rejected byte decodes as its whitespace-free symbols do |
| Base64Decode.DecodeRejects | include/yams/base64.hpp:182-184 | a rejected byte anywhere makes decoding fail with InvalidCharacter at that byte or an earlier one |
| Base64Decode.TablesAreLookupTables | include/yams/base64.hpp:85 | both the intended and the as-written table map every byte to -1 or a value below 64 |
| Base64Decode.Emitted | include/yams/base64.hpp:187-195 | the loop emits nothing inside a group; at the fourth symbol it emits one byte after `=` and otherwise three, the first being `(n >> 16) & 0xFF` |
| Base64Decode.DecodeLoop | include/yams/base64.hpp:171-197 | the source's loop only ever fails with InvalidCharacter, and the output emitted so far is a prefix of its final output |
| Base64Decode.DecodeAsWritten | include/yams/base64.hpp:161-162 | the source's `decode` returns the empty string for empty input |
| Base64Decode.DecodeLoopAsWrittenNeverFails | include/yams/base64.hpp:177-184 | with the table as built, the -1 check never fires from any state of the loop |
| Base64Decode.DecodeAsWrittenNeverFails | include/yams/base64.hpp:161-200 | the source's `decode` accepts every input |
| Base64Laws.GroupBits | include/yams/base64.hpp:186-193 | splitting three bytes into four 6-bit values and shifting them back gives the same three bytes |
| Base64Laws.DecodeFullGroup | include/yams/base64.hpp:186-195 | the four symbols of a full group decode to its three bytes |
| Base64Laws.DecodePairGroup | include/yams/base64.hpp:186-195 | three symbols and `=` decode to the two bytes they encode |
| Base64Laws.DecodeSingleGroup | include/yams/base64.hpp:186-195 | two symbols and `==` decode to the byte they encode |
| Base64Laws.EncodeIsValid | include/yams/base64.hpp:139-153 | every encoding is whole, well-padded groups of symbols and `=` |
| Base64Laws.DecodeGroupsEncode | include/yams/base64.hpp:186-195 | decoding the groups of an encoding gives back the data |
| Base64Laws.DecodeEncode | include/yams/base64.hpp:109-200 | round trip: `decode(encode(data)) == data` for all data |
| Base64Laws.EncodeInjective | include/yams/base64.hpp:109-154 | two data encode the same exactly when they are equal |
| Base64Laws.DecodedLength | include/yams/base64.hpp:163-164 | valid groups decode to `(symbols - padding) * 3 / 4` bytes |
| Base64Laws.DecodeLength | include/yams/base64.hpp:163-164 | a successful decode has the intended length, computed from the whitespace-free text: (symbols - padding) * 3 / 4 |
| Base64Laws.ReservedLengthBound | include/yams/base64.hpp:163-167 | the size `dl` that `decode` reserves, computed from the raw input with `get_padding` as written, is never below the decoded length of a text the intended decoder accepts |
| Base64Laws.DecodeOutcome | include/yams/base64.hpp:161-200 | the outcome of decoding, by cause, both ways: InvalidLength, InvalidPadding or success exactly under the conditions named |
| Base64Laws.StripStripped | include/yams/base64.hpp:172-175 | stripping whitespace is idempotent |
| Base64Laws.DecodeStripped | include/yams/base64.hpp:172-175 | a text with no rejected byte decodes as its stripped form does |
| Base64Laws.StripSpaceInsert | include/yams/base64.hpp:172-175 | inserting a run of whitespace does not change the stripped text |
| Base64Laws.DecodeIgnoresWhitespace | include/yams/base64.hpp:172-184 | inserting whitespace anywhere: both texts decode or neither does, a success gives the same bytes, a length or padding error is unchanged, and a rejected byte keeps its symbol and moves by the inserted length when it lies after the insertion point |
| Base64Laws.RejectionMoves | include/yams/base64.hpp:172-184 | the first rejected byte of the text with whitespace inserted is the same byte, at a position shifted past the whitespace when it comes after it |
| Base64Examples.EncodeHello | tests/base64_tests.cpp:11-15 | "hello" encodes to "aGVsbG8=" |
| Base64Examples.DecodeHello | tests/base64_tests.cpp:17 | "aGVsbG8=" decodes to "hello", also with a newline inside |
| Base64Examples.EncodeShortTails | include/yams/base64.hpp:144-152 | "hi" encodes to "aGk=" and "h" to "aA==" |
| Base64Examples.ReserveOverH | include/yams/base64.hpp:163-165 | for "aA==" `decode` reserves 2 bytes, while the text decodes to the one byte "h" |
| Base64Examples.ReserveUnderAsWritten | include/yams/base64.hpp:163-197 | for "AA=A" `decode` reserves 2 bytes while its loop emits the 3 bytes 0x00 0x0F 0x40, reading the inner `=` as 61; the intended decoder rejects the text with InvalidPadding |
| Base64Examples.DecodeRejectsLength | include/yams/base64.hpp:171-197 | "aGVsbG8", seven symbols, fails with InvalidLength |
| Base64Examples.DecodeRejectsCharacter | include/yams/base64.hpp:182-184 | "aG#sbG8=" fails with InvalidCharacter for `#` at position 2 |
| Base64Examples.DecodeRejectsPadding | include/yams/base64.hpp:189 | "a=VsbG8=" fails with InvalidPadding |
| Base64Examples.DecodeAsWrittenHi | include/yams/base64.hpp:177-195 | the source's `decode` turns "aGk=", the encoding of "hi", into the single byte 0 |
| Base64Examples.PaddedGroupEmitsOne | include/yams/base64.hpp:188-194 | even with a correct table the loop turns "aGk=" into "h", where `Decode` gives "hi" |
| Base64Examples.DecodeAsWrittenAcceptsInvalid | include/yams/base64.hpp:182-184 | the source's `decode` accepts "aGVsbG8", "aG#sbG8=" and "a=VsbG8=" |
| Base64Examples.EncodeAsWrittenHel | include/yams/base64.hpp:143 | the source's `encode` turns "hel" into "aGVsA" instead of "aGVs" |

## Left out

- `include/yams/bits/win.hpp`: Windows file mapping and handle wrappers. This is operating-system I/O with no codec logic.
- `tests/yams.cpp`: it only prints a `ct_str`, so there is nothing to state about it.
- The debug output in `decode` (base64.hpp lines 178-181). It is I/O only.
- The `throw` in `decode` (base64.hpp line 183) becomes a `Failure` result, not control flow.
- `consteval`, templates and `index_sequence`. `charset` and the reverse tables are plain constants, and `ct_str<N>` carries N as its length.
- `ct_str::data()` returns a pointer to the storage. The model has no pointers; `At` stands for reading through it.
- `get_index` reading `charset[i]` for i from 64 to 255 is undefined behaviour. The model searches the 64 symbols only.
- `std::isspace` depends on the locale. The model fixes the C locale: space, `\t`, `\n`, `\v`, `\f`, `\r`.
- The 64-bit width of `size_t`. The accumulator `n` in `decode` is a `bv64`. The lengths are unbounded integers; inputs longer than 2^64 are out of scope.
- `output.reserve` and the lengths `el` and `dl` in `decode` have no effect on the result. `DecodedLength` and `DecodeLength` give the intended size, computed from the whitespace-free text. The source's `dl` is computed from the raw input with `get_padding` as written, so it can over-reserve ("aA==" reserves 2 bytes and decodes to 1); `ReservedLengthBound` proves it is never below the decoded length of a text the intended decoder accepts; the source's own loop can emit more ("AA=A": 2 reserved, 3 emitted, see `ReserveUnderAsWritten`).
- The intended decoder accepts non-canonical trailing bits (for example "QR=="). The source does not check them either, and RFC 4648 leaves the choice to the implementation.
- The order of the intended decoder's checks is: the first rejected byte, then the length, then the padding.
- Base64Decode.DecodeLoop: its contract only states the kind of failure and that output is only ever appended to. What the loop computes is stated by the lemmas and examples about `DecodeAsWritten`.
- Base64Decode.DecodeAsWritten: its contract covers only the empty input. Every other input is described by `DecodeAsWrittenNeverFails` and the examples.

## Findings

| source | as written | input that shows it | evidently intended | confidence | as-written member | corrected member |
|---|---|---|---|---|---|---|
| include/yams/base64.hpp:143 | `update(j, i+1)` emits i+1 symbols even when no byte is left over (i == 0) | "hel" gives "aGVsA"; the empty input gives "A" | no symbol when no byte is left over, so the length is 4 * ceil(n/3) | high, not executed | Base64Encode.EncodeAsWritten | Base64Encode.EncodeLength |
| include/yams/base64.hpp:62-64 | `get_padding` returns 1 as soon as the last byte is `=`, before testing for `==`; the fallback on line 77 parses as `c ? 1 : (0 + ...)` | "aA==" gives 1; "ab=c" gives 1 | 2 for a `==` tail, 1 for a single `=`, 0 otherwise | high, not executed | Base64Decode.GetPaddingAsWrittenWrong | Base64Decode.GetPadding |
| include/yams/base64.hpp:53 | `indices` holds `get_index(charset[k])` = k at position k and 0 elsewhere, so it is not a reverse table | `a` is read as 0 instead of 26 | entry b is the value of the symbol with code b, and -1 for non-symbols | high, not executed | Alphabet.IndicesAsWrittenIsNotReverse | Alphabet.GenerateIndices |
| include/yams/base64.hpp:182-184 | the -1 check never fires, because the table as built holds no -1 | "aG#sbG8=" decodes without error | a byte outside the alphabet, `=` and whitespace is rejected | high, not executed | Base64Decode.DecodeAsWrittenNeverFails | Base64Decode.DecodeRejects |
| include/yams/base64.hpp:188-194 | a group ending in `=` emits one byte, whether it ends in `=` or in `==` | with a table that reads the symbols right, "aGk=" gives "h" | two bytes for one `=`, one byte for `==` | high, not executed | Base64Examples.PaddedGroupEmitsOne | Base64Decode.DecodeQuad |
| include/yams/base64.hpp:171-197 | no length or padding check: a partial final group is dropped and a `=` inside the text is read as a value | "aGVsbG8" and "a=VsbG8=" decode without error | InvalidLength and InvalidPadding | medium, not executed | Base64Examples.DecodeAsWrittenAcceptsInvalid | Base64Laws.DecodeOutcome |
