# Verified models for Nessus and its bundled libraries

This Dafny project models the parts of the repository where correctness is hardest to see from one function at a time,
and proves what they promise. `dafny verify dfyconfig.toml` checks all of it. Each cluster is independent of the others.

- **JSON** (`Json*.dfy`): the strict jsoncpp reader and its two printers, as `parser_impl` uses them. `JsonValue` is the
  tree, `JsonLexer`, `JsonText` and `JsonGrammar` say what a document means, `JsonReader` is the mutating class proved
  equal to it. `JsonSpelling` is the middle ground between printing and parsing: a text spells a value, whatever its
  white space. Both writers are proved to spell their value, and whatever spells a value is proved to read back as it.
  `JsonSizes` says what 32-bit array sizes leave of a value. `JsonDocuments` goes beyond the writers: trees are documents
  taken apart, and each is read as its meaning; `JsonAccepted` is the converse, that nothing else is accepted, and
  `JsonErrors` is about what is reported then. `JsonRanges` is about source offsets, `JsonTokens` about what the two
  writers have in common, `JsonLayout` about their white space, `JsonOrder` about `operator<` and `operator==`. The
  standard is RFC 8259 (grammar: section 2, strings: section 7).
- **Base64** (`Base64*.dfy`): the unrolled, table-driven encoder and decoder against RFC 4648 section 4.
- **Queue** (`CircularQueue.dfy`, `BlockingQueue.dfy`): a ring buffer, and the blocking queue over it as a step system.
- **Cursors** (`SqlCursor.dfy`, `IcursorStream.dfy`): a client that tracks a server's cursor from row counts, the
  stateless retrieval on top of it, and iterators that share one forward-only stream.
- **Pool allocator** (`PoolAllocator.dfy`): two lists under two locks, as a step system of threads.
- **COPY text** (`CopyText.dfy`): the escaper, and the unescaper that splits a line in one in-place buffer.
- **NV21** (`Nv21*.dfy`): pixels, rows, the wrapper for any width, chunked kernels, and the image loop.

Methods follow the statements of the source and are proved against functions; the laws are lemmas about these functions.
Where statements run under a lock, the class holds the locked bodies and the step system interleaves them, with the
unlocked steps between them (such as `notify_one`) as steps of their own. `hide` statements only keep proofs short.

## What turned out not to hold, and exactly when it does

- `Value::operator<` subtracts sizes as ints: values whose sizes differ by 2^31 are each less than the other
  (`JsonOrder.BothLess`). It is a strict total order with `operator==` if and only if maps have at most 2^31-1 entries
  and there are no NaNs (`JsonOrder.TotalOrderExactly`).
- `FastWriter` keeps the size of an array in an int, so an array of 2^31 or more elements is written as `[]`; one entry at
  index 2^31-1 is enough (`JsonFastText.LoneEntryIsLost`). A written value comes back if and only if every array has at
  most 2^31-1 elements and the nesting is at most 1000 (`JsonFastText.WriteThenParse`); it parses with `true` if and only
  if its root is an array or object.
- `StyledWriter` throws on such an array, or writes all of it, depending on the product `size * 3`
  (`JsonStyledText.Throws`); at index 2^32-1 its size is 0 and it is written as `[]`.
- The styled and the fast writer agree on tokens if and only if no key contains a NUL and no array has more than 2^31-1
  elements (`JsonTokens.WritersAgree`).
- The strict reader accepts more than RFC 8259, and not all of it. A document is accepted, and as what value, if and only
  if it starts with the text of a tree with an array or object as its root, nested at most 1000 deep, in which each high
  surrogate is followed by an escape, and the numbers have doubles (`JsonAccepted.AcceptsExactly`); every document of the
  standard is such a text (`JsonDocuments.StandardIsLegal`), and the other trees are the quirks listed below.
- The nesting counter is one too high after a failure for a missing value, and only then (`JsonReader.Leak`).
- The Base64 decoder reports an invalid character only in the groups it checks: all groups of the tail, and the first of
  every 128-character block (`Base64Decoder.RejectsExactly`).
- A cursor tracks its position in all call sequences if and only if the result has fewer than 2^31-2 rows
  (`SqlCursor.OwnedIsReliable`): with exactly that many, a move by `all()` is not recognized as having hit the end.
- Stateless retrieval from `begin == size` down to an actual row returns that row as well
  (`SqlCursor.StatelessCursorRetrieve`).
- Iterators on one stream all get their own blocks if and only if their positions are at least a stride apart
  (`IcursorStream.Icursorstream.ServiceIterators`); a stride changed in between breaks that (`IcursorStream.ChangedStride`).
- The allocator's upper bound on reused blocks of size `bs` holds in all runs if and only if `bs * ratio` does not wrap in
  64 bits (`PoolAllocator.ReuseBoundExactly`). Only an allocation of 2^64/ratio bytes, at least 2^56, gets there, which no
  heap of today returns; the model has no allocation failure.
- A COPY row survives the trip if and only if it is non-empty and holds no character that is written in octal, which the
  reader does not decode (`CopyText.RoundTrip`).

Quirks of the strict reader that the model keeps: a comma before a closing brace is accepted after a member named "";
comments are skipped inside objects and after array elements although strict mode forbids them, and after a comment that
follows a member any one token is taken for the comma; a lone "-" decodes as 0, and a number may have leading zeros or
lack the digits of its fraction or exponent; control characters may stand in strings; any escape is taken for the second
half of a surrogate pair; whatever follows the root is ignored.

## Model

| member | source | states |
|---|---|---|
| JsonText.DecimalValue | parser/cpp/jsoncpp.cpp:152-158 | reading the digits of the decimal text of a number gives the number back, and the text is all digits |
| JsonText.DecimalLength | parser/cpp/jsoncpp.cpp:144-158 | a number below 10^w has at most w digits, so 64-bit numbers and their sign fit the 25-byte buffer |
| JsonText.DecodeQuoted | parser/cpp/jsoncpp.cpp:833-885 | the string decoder inverts the quoting of valueToQuotedStringN on every byte string, NUL and quotes included |
| JsonText.ScanEscaped | parser/cpp/jsoncpp.cpp:640-650 | the string scanner stops at the closing quote of a quoted string and nowhere inside it, whatever bytes it quotes |
| JsonText.HexDigitsAre | parser/cpp/jsoncpp.cpp:925-941 | hexadecimal digits of either case have the place in 0123456789abcdef as their value, and no other character has one |
| JsonText.ShortEscapesAre | parser/cpp/jsoncpp.cpp:845-869 | the eight characters that may follow a backslash, each with what it stands for, and no others |
| JsonText.EscapeTable | parser/cpp/jsoncpp.cpp:4274-4313 | what the printer makes of each character: the seven short escapes, u00 and two upper-case digits for other control characters, the character itself else |
| JsonWriter.UintToString | parser/cpp/jsoncpp.cpp:152-158 | digits written backwards from `current` spell exactly the number; every store is inside the 25-byte buffer |
| JsonWriter.ValueToString | parser/cpp/jsoncpp.cpp:4103-4127 | the decimal text of every integer from -2^63 to 2^64-1, with the minimum as its own case |
| JsonWriter.ValueToQuotedString | parser/cpp/jsoncpp.cpp:4256-4318 | fast path and escaping loop write the same quoted form; the fast path is taken only where nothing needs escaping |
| JsonReader.Reader.AccumulateDigits | parser/cpp/jsoncpp.cpp:768-786 | the loop yields the value of the digit run exactly when it consists of digits and the value is within the limit; the accumulator never exceeds the limit |
| JsonReader.DigitStep | parser/cpp/jsoncpp.cpp:771-786 | the threshold test fires exactly when one more digit would leave the range or more digits follow a full accumulator |
| JsonReader.Reader.DecodeNumber | parser/cpp/jsoncpp.cpp:758-798 | an optional minus and digits decode to the exact integer in -2^63..2^64-1, tagged int or uint by size, everything else goes to the double path |
| JsonText.IntegersDecode | parser/cpp/jsoncpp.cpp:758-798 | digits after an optional minus decode to the number they stand for if it is in -2^63..2^64-1, as an int if and only if it is negative or less than 2^31 |
| JsonText.OthersDecode | parser/cpp/jsoncpp.cpp:773-786 | larger numbers, and texts that are not digits, are left to the double path |
| JsonSpelling.IntegerTextDecodes | parser/cpp/jsoncpp.cpp:758-798 | decodeNumber inverts valueToString on every 64-bit integer, re-tagged by its size |
| JsonReader.Reader.DecodeString | parser/cpp/jsoncpp.cpp:833-885 | the loop over the token decodes escapes and surrogate pairs as the recursive decoder does, with the same error position |
| JsonReader.Reader.DecodeUnicodeCodePoint | parser/cpp/jsoncpp.cpp:887-916 | surrogate halves are joined to one code point, and a missing second half is reported |
| JsonLexer.ReadToken | parser/cpp/jsoncpp.cpp:445-514 | a token lies inside the document, starts after skipped white space, and is empty only at the end of the document |
| JsonLexer.SkipComments | parser/cpp/jsoncpp.cpp:659-661 | the comment loops stop at a token that is no comment, inside the document |
| JsonLexer.Recover | parser/cpp/jsoncpp.cpp:956-967 | recovery stops inside the document, at the wanted token or at the end |
| JsonGrammar.ParseValue | parser/cpp/jsoncpp.cpp:350-432 | on every byte string: the read position stays in the document and moves on success, failure adds exactly one error and success none, a successful node spans up to the new position |
| JsonGrammar.ParseMembers | parser/cpp/jsoncpp.cpp:652-708 | the member loop obeys the same law, trailing-comma and comment quirks included |
| JsonGrammar.ParseElements | parser/cpp/jsoncpp.cpp:710-746 | the element loop obeys the same law |
| JsonGrammar.Parse | parser/cpp/jsoncpp.cpp:308-348 | a parse that does not throw is true exactly when no error is recorded |
| JsonReader.Reader.GetNextChar | parser/cpp/jsoncpp.cpp:978-982 | the read position never passes the end; at the end the character is NUL |
| JsonReader.Reader.ReadNumber | parser/cpp/jsoncpp.cpp:618-638 | the scanning loop stops where the grammar of numbers ends |
| JsonReader.Reader.ReadString | parser/cpp/jsoncpp.cpp:640-650 | the scanning loop stops after the closing quote or at the end |
| JsonReader.Reader.ReadComment | parser/cpp/jsoncpp.cpp:537-616 | both comment forms end where the scanner functions say, and an unterminated C comment fails |
| JsonReader.Reader.ReadToken | parser/cpp/jsoncpp.cpp:445-514 | the imperative scanner computes the token of the specification and moves the position to its end |
| JsonReader.Reader.RecoverFromError | parser/cpp/jsoncpp.cpp:956-967 | skips to the wanted token and drops the errors met on the way |
| JsonReader.Reader.ReadValue | parser/cpp/jsoncpp.cpp:350-432 | the mutating reader computes ParseValue on every document; the node stack below its top is restored; the nesting counter is balanced except for the leak on a missing value |
| JsonReader.ScalarLeak | parser/cpp/jsoncpp.cpp:355-430 | the nesting counter is left one too high exactly by the path that reports a missing value |
| JsonReader.Reader.ReadObject | parser/cpp/jsoncpp.cpp:652-708 | the member loop stores each child back under its key, later duplicates replacing earlier ones |
| JsonReader.Reader.ReadArray | parser/cpp/jsoncpp.cpp:710-746 | the element loop appends children at increasing indices |
| JsonReader.Reader.ParseDocument | parser/cpp/jsoncpp.cpp:308-348 | returns, throws and records exactly what Parse says, from any earlier state of the reader; true exactly when there are no errors |
| JsonAccepted.AcceptsExactly | parser/cpp/jsoncpp.cpp:308-432 | for every document and value: parsing succeeds with that value if and only if the document starts with the text of a tree whose root is an array or object, nested at most 1000 deep, and which stands for that value; the trees are those of the standard, widened by comments between members and after elements, any token for a comma behind a comment, a comma behind a last member named by the empty string, and numbers without some of their digits |
| JsonAccepted.RecoverTree | parser/cpp/jsoncpp.cpp:350-432 | whatever reads as a value, anywhere in a document, is the text of such a tree |
| JsonAccepted.RecoverNext | parser/cpp/jsoncpp.cpp:691-704 | what a member is followed by: a closing brace, or a comma or, behind a comment, some other complete token, and then more members |
| JsonDocuments.ReadsDocument | parser/cpp/jsoncpp.cpp:308-432 | the text of such a tree, with anything behind it, is accepted if and only if its root is an array or object, its nesting is at most 1000, no high surrogate stands alone and its numbers have doubles; and then the result is its meaning |
| JsonDocuments.StandardIsLegal | parser/cpp/jsoncpp.cpp:350-432 | every document of RFC 8259, any white space, escapes, numbers and repeated names, is the text of such a tree |
| JsonDocuments.MemberTurn | parser/cpp/jsoncpp.cpp:652-708 | one turn of the member loop: it goes on behind the member exactly if name and value read |
| JsonDocuments.NumeralDecodes | parser/cpp/jsoncpp.cpp:758-798 | a number of the grammar has the value NumeralMeaning states: a 64-bit integer if it is digits and has room, else what the stream extraction makes of it |
| JsonDocuments.NibbleIs | parser/cpp/jsoncpp.cpp:925-941 | the hexadecimal value in which the meaning of an escape is stated is the place of the digit |
| JsonDocuments.PairsAreCodePoints | parser/cpp/jsoncpp.cpp:887-916 | the two escapes for the halves of a code point above the first plane stand for its UTF-8 bytes |
| JsonErrors.ParseErrors | parser/cpp/jsoncpp.cpp:308-432 | a failed parse reports one error that is true of the token it names, and, exactly if the root is no array or object, that |
| JsonErrors.StringFault | parser/cpp/jsoncpp.cpp:833-941 | the error position in a string token is behind the character at fault, by kind of error |
| JsonDocuments.ReadsTree | parser/cpp/jsoncpp.cpp:350-432 | the same for a value anywhere in a document and at any nesting |
| JsonDocuments.DecodesUnits | parser/cpp/jsoncpp.cpp:833-916 | decodeString yields the bytes a string stands for, escape by escape, or fails exactly if a high surrogate is not followed by a second escape |
| JsonDocuments.ScanUnits | parser/cpp/jsoncpp.cpp:640-650 | the scanner ends a string at its closing quote, however its characters are escaped |
| JsonDocuments.NumeralToken | parser/cpp/jsoncpp.cpp:618-638 | the scanner takes every number of the grammar as one token, sign, fraction and exponent included |
| JsonDocuments.LastMemberWins | parser/cpp/jsoncpp.cpp:652-708 | in the result a name has the value of its last member |
| JsonDocuments.Utf8Inverts | parser/cpp/jsoncpp.cpp:104-133 | every code point is encoded in the fewest bytes that hold it, one to four, and their payload bits give it back |
| JsonRanges.ValueLocal | parser/cpp/jsoncpp.cpp:350-432 | a value read inside a slice of the document is the value read from the whole document, moved by the slice's start |
| JsonRanges.TokenLocal | parser/cpp/jsoncpp.cpp:445-514 | a token that ends inside a slice is the same token when only the slice is scanned |
| JsonRanges.PutFaithful | parser/cpp/jsoncpp.cpp:652-708 | storing a child under a key, also over an earlier one, keeps sibling ranges apart and inside their parent |
| JsonRanges.ParseIsFaithful | parser/cpp/jsoncpp.cpp:308-432 | after a successful parse each node's range lies inside its parent's, siblings' ranges are disjoint, and reading just that slice gives the same node |
| JsonWriter.FastWriter.Write | parser/cpp/jsoncpp.cpp:4337-4397 | the appending writer yields the recursive text of the value and a line feed: missing array elements as null, and an array whose size is not positive as an int as [] |
| JsonWriter.FastWriter.WriteArray | parser/cpp/jsoncpp.cpp:4372-4381 | the loop up to the int size over a sparse map writes each stored element, and null for each hole, once and in order, or nothing if that int is not positive |
| JsonWriter.RemainingStep | parser/cpp/jsoncpp.cpp:4372-4381 | one turn of the index loop finds the element, or the hole, that comes next in the map |
| JsonWriter.NamesAscend | parser/cpp/jsoncpp.cpp:4383-4395 | the names are written in ascending byte order |
| JsonSizes.SizeIsLast | parser/cpp/jsoncpp.cpp:3291-3312 | size() before it is cut to 32 bits is one more than the last index |
| JsonSizes.BoundIsSize | parser/cpp/jsoncpp.cpp:3291-3312 | the 32-bit size() in an int is the size of the array up to 2^31-1 and else not positive; in an unsigned int it is the size up to 2^32-1 and else 0 |
| JsonSizes.CropShows | parser/cpp/jsoncpp.cpp:4372-4381 | a value and what such a loop shows of it have the same canonical form if and only if every array in it has a size that the loop bound can hold |
| JsonFastText.FastSpells | parser/cpp/jsoncpp.cpp:4337-4397 | what FastWriter writes spells what its int sizes show of the value, by the tokens of the reader, wherever it stands in a document |
| JsonSpelling.SpelledValue | parser/cpp/jsoncpp.cpp:350-432 | any text that spells a value, with any white space, reads back as that value in canonical form, or throws exactly when it is nested too deeply |
| JsonFastText.WriteThenParse | parser/cpp/jsoncpp.cpp:4337-4397 | round trip of a real-free value: the canonical value, which holds the same numbers, texts and names, comes back if and only if it is nested at most 1000 deep and every array has at most 2^31-1 elements; the result is true exactly for an array or object root |
| JsonSpelling.CanonHoldsTheSame | parser/cpp/jsoncpp.cpp:789-796 | the canonical form holds at every place the same number, text or name, and null for each missing element |
| JsonFastText.WriteThenParseShown | parser/cpp/jsoncpp.cpp:4337-4397 | for every size: what comes back is the canonical form of what the int sizes show, and it throws exactly if that is nested more than 1000 deep |
| JsonFastText.LoneEntryIsLost | parser/cpp/jsoncpp.cpp:4372-4381 | an array with one entry, at index 2^31-1, is written as [] and comes back empty |
| JsonFastText.CanonIsCanonical | parser/cpp/jsoncpp.cpp:789-796 | canonical form is a fixed point: a second write and parse changes nothing |
| JsonStyledWriter.StyledWriter.Write | parser/cpp/jsoncpp.cpp:4405-4414 | the indenting writer yields the recursive layout, or throws exactly if it meets an array whose size is negative as an int and not many-lined by the wrapped product |
| JsonStyledWriter.StyledWriter.WriteValue | parser/cpp/jsoncpp.cpp:4416-4473 | it throws exactly as Throws says; else indentation is balanced, and in collecting mode exactly one child text is pushed for a leaf |
| JsonStyledText.LoneEntryThrows | parser/cpp/jsoncpp.cpp:4519-4533 | the array with one entry at index 2^31-1 makes reserve() throw |
| JsonStyledWriter.StyledWriter.IsMultineArray | parser/cpp/jsoncpp.cpp:4519-4544 | decides the layout by size, nesting and line length, all in 32 bits; throws exactly where a negative size is reserved; on the one-line path there is one child text for each element, in order |
| JsonStyledWriter.StyledWriter.WriteLines | parser/cpp/jsoncpp.cpp:4477-4503 | one element on each line, from the collected texts if there are any |
| JsonStyledWriter.StyledWriter.WriteOneLine | parser/cpp/jsoncpp.cpp:4505-4514 | the collected texts on one line, commas between them |
| JsonStyledWriter.StyledWriter.WriteObjectValue | parser/cpp/jsoncpp.cpp:4446-4471 | members in order, each name cut at its first NUL |
| JsonLayout.DocumentIsPretty | parser/cpp/jsoncpp.cpp:4405-4574 | the document is the layout of its value: brackets where they fall, three columns an indentation, an element or member a line, or an array on one line |
| JsonLayout.StyledIsPretty | parser/cpp/jsoncpp.cpp:4416-4517 | so is what is appended for a value anywhere, built from the layouts of its parts alone |
| JsonLayout.MultilineIsSprawling | parser/cpp/jsoncpp.cpp:4519-4544 | an array goes on one line exactly if three times its size is below 74, no element is a container that is not empty, and the line itself is shorter than 74, sums in 32 bits |
| JsonLayout.FastIsFlat | parser/cpp/jsoncpp.cpp:4345-4397 | FastWriter writes the token texts of what its int sizes show, and nothing between them |
| JsonStyledWriter.LeafTextsLength | parser/cpp/jsoncpp.cpp:4519-4544 | there is one collected text for every index of the array, holes included |
| JsonStyledText.StyledSpells | parser/cpp/jsoncpp.cpp:4416-4517 | what StyledWriter writes spells the value with keys cut at their first NUL and arrays of size 2^32 empty |
| JsonTokens.SpelledTokens | parser/cpp/jsoncpp.cpp:445-514 | a text that spells a value has exactly the value's token texts, in order |
| JsonTokens.WritersAgree | parser/cpp/jsoncpp.cpp:4337-4574 | for a value without reals and null strings StyledWriter finishes with the token texts of FastWriter, in order, if and only if no key it shows contains a NUL and no array it shows has more than 2^31-1 elements |
| JsonTokens.CropTokens | parser/cpp/jsoncpp.cpp:4372-4381 | an array too large for an int has fewer tokens in the text of FastWriter |
| JsonTokens.StyledThenParse | parser/cpp/jsoncpp.cpp:4405-4574 | without NULs in keys: the text of StyledWriter parses to the canonical value if and only if it is nested at most 1000 deep and no array has size 2^32; up to 2^31-1 elements it parses as the text of FastWriter does, or both throw |
| JsonOrder.EqualIsSameTree | parser/cpp/jsoncpp.cpp:2989-3031 | operator== is equality of the trees with source offsets forgotten, for trees without NaN, and false for one with a NaN |
| JsonOrder.EqualIsEquivalence | parser/cpp/jsoncpp.cpp:2989-3031 | operator== is symmetric and transitive, and reflexive on a value if and only if it holds no NaN |
| JsonOrder.Trichotomy | parser/cpp/jsoncpp.cpp:2937-2981 | exactly one of less, equal and greater, through nested arrays and objects, on values without NaN whose maps have at most 2^31-1 entries |
| JsonOrder.Transitive | parser/cpp/jsoncpp.cpp:2937-2981 | operator< is transitive on such values |
| JsonOrder.TotalOrderExactly | parser/cpp/jsoncpp.cpp:2937-3031 | for every bound on map sizes, with and without NaNs: trichotomy and transitivity hold on all well-formed values within it if and only if the bound is at most 2^31-1 and there are no NaNs |
| JsonOrder.BothLess | parser/cpp/jsoncpp.cpp:2970-2975 | any two arrays whose sizes differ by 2^31 are each less than the other: the size subtraction overflows |
| JsonOrder.OverflowingSizesAreNotOrdered | parser/cpp/jsoncpp.cpp:2970-2975 | a concrete such pair |
| JsonValue.StringLessTotal | parser/cpp/jsoncpp.cpp:2699-2710 | the byte-wise comparison of keys, then by length, is total |
| JsonValue.StringLessTransitive | parser/cpp/jsoncpp.cpp:2699-2710 | and transitive |
| JsonValue.KeyLessTotal | parser/cpp/jsoncpp.cpp:2699-2721 | so is the order of map keys, by index or by name |
| JsonValue.StringLessMeans | parser/cpp/jsoncpp.cpp:2699-2710 | one string is before another exactly if they agree up to some place, and there the one ends or has the smaller byte |
| JsonValue.KeyLessMeans | parser/cpp/jsoncpp.cpp:2699-2721 | keys are ordered so, by index or by name |
| JsonOrder.ScalarsByValue | parser/cpp/jsoncpp.cpp:2943-2969 | integers by value, false before true, strings in that byte order, a null string first |
| JsonOrder.DoublesByValue | parser/cpp/jsoncpp.cpp:2947-2948 | doubles by value, the infinities at the ends, a NaN neither less nor greater nor equal |
| JsonOrder.TypesInOrder | parser/cpp/jsoncpp.cpp:2938-2940 | values of different type by type: null, int, uint, real, string, bool, array, object |
| JsonOrder.FewerEntriesAreLess | parser/cpp/jsoncpp.cpp:2970-2976 | of two maps with up to 2^31-1 entries the one with fewer is less |
| JsonOrder.SameSizeByFirstDifference | parser/cpp/jsoncpp.cpp:2970-2976 | of two maps of one size the one whose first different entry has the smaller key, or value under the same key, is less |
| Base64.DecodeEncode | parser/cpp/base64_x.hpp:290-580 | round trip of the RFC 4648 section 4 definitions: the encoding of any non-empty byte string is a valid text that decodes to it |
| Base64.ValueIsPlace | parser/cpp/base64_x.hpp:288-288 | a character has the value of its place in the alphabet of RFC 4648, and padding is = |
| Base64.EncodesAsStandard | parser/cpp/base64_x.hpp:290-340 | each character of the encoding is the one of the alphabet at six bits of the input, or padding |
| Base64.DecodesAsStandard | parser/cpp/base64_x.hpp:290-580 | each decoded byte is made of the places of its two characters in the alphabet |
| Base64.GroupsInvert | parser/cpp/base64_x.hpp:290-297 | cutting 24 bits into four sextets and joining them again is the identity, byte by byte |
| Base64.Store | parser/cpp/base64_x.hpp:23-24 | a four-byte little-endian store changes those four bytes only |
| Base64Encoder.PairLookupEncodes | parser/cpp/base64_x.hpp:295-296 | two 12-bit table lookups give the four characters of a group's four sextets, in memory order |
| Base64Encoder.SingleLookupEncodes | parser/cpp/base64_x.hpp:290-293 | so do four 6-bit lookups |
| Base64Encoder.EncodeStep | parser/cpp/base64_x.hpp:298-304 | one unrolled step writes eight right characters, and the registers again hold the big-endian loads three and six bytes ahead; every load is inside the input |
| Base64Encoder.EncodeBlock | parser/cpp/base64_x.hpp:328-334 | sixteen steps, tight at 103 remaining input bytes |
| Base64Encoder.EncodeUnrolled | parser/cpp/base64_x.hpp:324-337 | the three phases together write a prefix of the encoding and stop before the last group |
| Base64Encoder.EncodeTail | parser/cpp/base64_x.hpp:306-314 | the last one to three bytes, with padding |
| Base64Encoder.Tb64xenc | parser/cpp/base64_x.hpp:319-340 | the unrolled encoder writes exactly the RFC 4648 encoding, by its alphabet, (n+2)/3*4 characters, and nothing beyond it, for every length |
| Base64Decoder.WordDecodes | parser/cpp/base64_x.hpp:520-523 | the OR of the tables' entries holds the group's bytes in memory order, for four characters or fewer |
| Base64Decoder.WordTracks | parser/cpp/base64_x.hpp:520-523 | a word is all ones if a character is invalid, else below 2^24 |
| Base64Decoder.DecodeStep | parser/cpp/base64_x.hpp:525-531 | one unrolled step decodes two groups; its over-wide stores spill one byte that is rewritten later; loads stay in the text |
| Base64Decoder.DecodeBlock | parser/cpp/base64_x.hpp:549-554 | sixteen steps, of which only the first group reaches the accumulator |
| Base64Decoder.DecodeLast | parser/cpp/base64_x.hpp:563-578 | the last one to four characters are decoded without a spill |
| Base64Decoder.Tb64xdec | parser/cpp/base64_x.hpp:535-580 | for every text: valid groups decode to their bytes, nothing beyond the decoded length is written, and the result is 0 exactly for an empty or ragged text or one with an invalid checked group |
| Base64Decoder.RejectsExactly | parser/cpp/base64_x.hpp:535-580 | rejected are exactly the texts with a bad character in the last two groups, or three of an odd number, or in every 32nd group followed by 33 more |
| Base64Decoder.DecodedLengthIs | parser/cpp/base64_x.hpp:535-580 | three bytes a group, less one or two for the padding at the end |
| Base64Decoder.FirstOfFourUnchecked | parser/cpp/base64_x.hpp:549-561 | invalid characters in an unchecked group are not reported, for every text of this shape |
| Base64Decoder.EncodedIsAccepted | parser/cpp/base64_x.hpp:535-580 | an encoding has no invalid group, so the accumulator never becomes all ones |
| Base64Decoder.EncodeThenDecode | parser/cpp/base64_x.hpp:535-580 | tb64xdec on an encoding of b returns |b| and writes exactly b, the empty string included |
| CircularQueue.Ring.Push | common/include/Primitives/circular_queue.hpp:47-60 | a full ring loses its oldest item, or the new one if it has no room at all; nothing else is lost or reordered |
| CircularQueue.BetweenPush | common/include/Primitives/circular_queue.hpp:47-60 | the slots between head and tail, around the end, hold the old items and the new one; a tail that meets the head overran exactly the oldest |
| CircularQueue.CircularQueue.PushBack | common/include/Primitives/circular_queue.hpp:47-60 | the in-place push refines the push on the sequence of items; a disabled queue ignores it |
| CircularQueue.CircularQueue.PopFront | common/include/Primitives/circular_queue.hpp:109-112 | refines taking the oldest item |
| CircularQueue.CircularQueue.At | common/include/Primitives/circular_queue.hpp:100-104 | index i, around the end of the ring, is item i of the sequence |
| CircularQueue.CircularQueue.Size | common/include/Primitives/circular_queue.hpp:82-92 | the wrapped difference is the number of items |
| CircularQueue.CircularQueue.Full | common/include/Primitives/circular_queue.hpp:119-127 | full exactly at max_items, and never when disabled |
| CircularQueue.CircularQueue.MoveFrom | common/include/Primitives/circular_queue.hpp:136-149 | a move takes everything and leaves a valid, disabled queue; a queue moved onto itself is left so too |
| BlockingQueue.BoundedBlockingQueue.LockedEnqueue | common/include/Primitives/bounded_blocking_queue.hpp:20-54 | the locked body of the three enqueues serves the call exactly when it need not wait |
| BlockingQueue.BoundedBlockingQueue.LockedDequeue | common/include/Primitives/bounded_blocking_queue.hpp:56-81 | the locked body of the two dequeues takes the oldest item, or waits exactly on an empty queue |
| BlockingQueue.StepKeepsInv | common/include/Primitives/bounded_blocking_queue.hpp:20-81 | every step of every thread (begin, wake, time out, spurious wake, notify) keeps the invariant |
| BlockingQueue.RunKeepsInv | common/include/Primitives/bounded_blocking_queue.hpp:20-81 | so does every run, with any number of threads |
| BlockingQueue.Safety | common/include/Primitives/bounded_blocking_queue.hpp:20-81 | in every interleaving from the start: a sleeping side is covered by wake-ups on their way; pushed items, in order, are those gone followed by those queued; the overrun counter counts the drops |
| BlockingQueue.NoLostWakeUp | common/include/Primitives/bounded_blocking_queue.hpp:20-81 | with no notify in flight nobody sleeps while able to go on, and producers and consumers do not both sleep if the queue has room for an item |
| BlockingQueue.OnlyNowaitDrops | common/include/Primitives/bounded_blocking_queue.hpp:46-54 | only enqueue_nowait on a full queue drops, and it drops the oldest item |
| BlockingQueue.StepsServe | common/include/Primitives/bounded_blocking_queue.hpp:20-81 | a thread that begins a call or comes back from waiting, woken or not, is served exactly if there is an item, or room, or it need not wait, with the effect on the items; else it waits again, or gives up if its time is over; no other step moves items |
| BlockingQueue.OnlyTimeoutsGiveUp | common/include/Primitives/bounded_blocking_queue.hpp:30-44 | a call ends unserved only after its timeout, with the queue full or empty |
| BlockingQueue.NotifyKeepsCover | common/include/Primitives/bounded_blocking_queue.hpp:27-27 | notify_one hands its coverage to the waiter it wakes, or finds none asleep |
| SqlCursor.FindQueryEnd | 3rd-party/cpp/libpqxx/src/sql_cursor.cxx:54-83 | everything after the end is white space or semicolons, and the character before it is not |
| SqlCursor.SqlCursor.AdjustPosition | 3rd-party/cpp/libpqxx/src/sql_cursor.cxx:182-243 | the statements compute the adjustment function, each of the four internal errors included |
| SqlCursor.AdjustThrows | 3rd-party/cpp/libpqxx/src/sql_cursor.cxx:182-243 | each internal error and exactly when it is thrown, and the displacement otherwise |
| SqlCursor.StridesAre | 3rd-party/cpp/libpqxx/src/sql_cursor.cxx:280-296 | from 2^31-2 on a stride is ALL, from -(2^31-1) down BACKWARD ALL |
| SqlCursor.PassedForwards | 3rd-party/cpp/libpqxx/src/sql_cursor.cxx:246-259 | which rows a fetch forwards returns, and where the cursor lands |
| SqlCursor.PassedBackwards | 3rd-party/cpp/libpqxx/src/sql_cursor.cxx:246-259 | which rows a fetch backwards returns, and where the cursor lands |
| SqlCursor.SqlCursor.Fetch | 3rd-party/cpp/libpqxx/src/sql_cursor.cxx:246-259 | server and client take one step together; the rows are those the server passes |
| SqlCursor.SqlCursor.Move | 3rd-party/cpp/libpqxx/src/sql_cursor.cxx:262-277 | the same for MOVE, with the row count |
| SqlCursor.StepTracks | 3rd-party/cpp/libpqxx/src/sql_cursor.cxx:182-243 | on fewer than ALL rows a call throws nothing, keeps position, end flag and end position right, and from a known position reports the true displacement |
| SqlCursor.AllCallsTrack | 3rd-party/cpp/libpqxx/src/sql_cursor.cxx:182-277 | so does every sequence of calls, for owned and adopted cursors |
| SqlCursor.OwnedIsReliable | 3rd-party/cpp/libpqxx/src/sql_cursor.cxx:87-95 | an owned cursor is right about its position, both flags and every displacement in all call sequences if and only if the result has fewer than ALL rows |
| SqlCursor.AdoptedLearns | 3rd-party/cpp/libpqxx/src/sql_cursor.cxx:142-154 | an adopted cursor is never wrong, and a move back to the beginning makes its position known |
| SqlCursor.ObtainStatelessCursorSize | 3rd-party/cpp/libpqxx/src/cursor.cxx:46-52 | the number of rows from a known position, and -2 from an unknown one |
| SqlCursor.StatelessCursorRetrieve | 3rd-party/cpp/libpqxx/src/cursor.cxx:55-73 | throws exactly for a start outside 0..size; returns the wanted rows if and only if it is not a descent from `size` to an actual row, and then one row more; the same wherever the cursor stood before |
| SqlCursor.WantedAt | 3rd-party/cpp/libpqxx/src/cursor.cxx:55-73 | the wanted rows are all of begin, begin+1, ... or begin, begin-1, ... up to, not including, end |
| IcursorStream.Icursorstream.SetStride | 3rd-party/cpp/libpqxx/src/cursor.cxx:111-117 | a stride below 1 is refused and changes nothing |
| IcursorStream.BlockAt | 3rd-party/cpp/libpqxx/src/cursor.cxx:120-127 | the block at p holds rows p, p+1, ..., a stride of them or up to the end |
| IcursorStream.Icursorstream.FetchBlock | 3rd-party/cpp/libpqxx/src/cursor.cxx:120-127 | a block of at most one stride from m_realpos, which moves by the rows read |
| IcursorStream.Icursorstream.Ignore | 3rd-party/cpp/libpqxx/src/cursor.cxx:130-137 | m_realpos moves to the skipped position or the end |
| IcursorStream.Icursorstream.InsertIterator | 3rd-party/cpp/libpqxx/src/cursor.cxx:147-155 | the intrusive doubly linked list stays well formed, with the new iterator in front |
| IcursorStream.Icursorstream.RemoveIterator | 3rd-party/cpp/libpqxx/src/cursor.cxx:158-178 | it stays well formed without the removed one, wherever that stood |
| IcursorStream.InsertedContents | 3rd-party/cpp/libpqxx/src/cursor.cxx:186-195 | the multimap of due iterators stays in key order, and gains the new entry and no other |
| IcursorStream.Icursorstream.CollectTodo | 3rd-party/cpp/libpqxx/src/cursor.cxx:188-195 | it lists exactly the registered iterators positioned between m_realpos and topos |
| IcursorStream.PlanStep | 3rd-party/cpp/libpqxx/src/cursor.cxx:197-205 | serving one more group of equal positions keeps every block start at or after its iterator's position, and equal to it as long as positions are a block apart |
| IcursorStream.Icursorstream.ServiceIterators | 3rd-party/cpp/libpqxx/src/cursor.cxx:181-206 | every due iterator gets the block that starts at its recorded start; all starts are the iterators' own positions if and only if due positions are at least a stride apart; the cursor only moves forward and no other iterator changes |
| IcursorStream.Icursorstream.ServiceAligned | 3rd-party/cpp/libpqxx/src/cursor.cxx:181-206 | with one stride throughout every due iterator gets exactly rows [p, min(p+stride, n)) |
| IcursorStream.Icursorstream.Advance | 3rd-party/cpp/libpqxx/src/cursor.cxx:259-272 | positions handed out stay multiples of the stride; a negative advance is refused |
| IcursorStream.Icursorstream.Refresh | 3rd-party/cpp/libpqxx/src/cursor.cxx:321-326 | an iterator the cursor has not passed gets its own block |
| IcursorStream.RunRequests | 3rd-party/cpp/libpqxx/src/cursor.cxx:140-326 | in every sequence of iterators made, copied, advanced, refreshed and dropped, with one stride, the list stays in order and no iterator ever holds rows of any block but its own |
| IcursorStream.ChangedStride | 3rd-party/cpp/libpqxx/src/cursor.cxx:111-206 | two iterators two rows apart and a stride then set to 5: serving both gives one of them the rows of a block that is not its own |
| PoolAllocator.PoolAllocator.TakeBudget | common/include/Primitives/pool_allocator.hpp:75-93 | the search takes the first budget that fits, or none |
| PoolAllocator.PoolAllocator.TakePayout | common/include/Primitives/pool_allocator.hpp:117-133 | the search takes the first payout of the address, or none |
| PoolAllocator.PoolAllocator.Clear | common/include/Primitives/pool_allocator.hpp:60-71 | frees exactly the budgets |
| PoolAllocator.FitsExactly | common/include/Primitives/pool_allocator.hpp:80-82 | the size test keeps blocks of a size from every request too small for them if and only if bs*ratio does not wrap in 64 bits; otherwise it names a request it lets through |
| PoolAllocator.ReusedBlockFits | common/include/Primitives/pool_allocator.hpp:73-93 | a reused block is the first that is large enough and within the ratio by the 64-bit product, and within the ratio if that does not wrap; a new one of the size asked for is allocated only when no budget passes |
| PoolAllocator.ReuseBoundExactly | common/include/Primitives/pool_allocator.hpp:73-132 | for every block size and ratio: in all interleavings every reuse of a block of that size is within the ratio if and only if bs*ratio does not wrap |
| PoolAllocator.OverflowingRun | common/include/Primitives/pool_allocator.hpp:73-132 | the run that shows the other half: set the ratio, allocate, free, ask again, and the block is handed out for a request too small for it |
| PoolAllocator.StepKeepsAccounts | common/include/Primitives/pool_allocator.hpp:60-147 | every step keeps each live block in exactly one home with its allocated size, and the wild-free path is never taken |
| PoolAllocator.EveryRunAccounts | common/include/Primitives/pool_allocator.hpp:60-147 | so every interleaving of fastMalloc, fastFree and clear by any threads does |
| PoolAllocator.FreedIsFound | common/include/Primitives/pool_allocator.hpp:115-132 | a block a client held is found in the payouts with its allocated size |
| PoolAllocator.DeliveredToOneHolder | common/include/Primitives/pool_allocator.hpp:73-113 | in every run a block about to be delivered is held by no client and no other thread, is not in the budgets, and is large enough |
| CopyText.StreamTo.EscapeFieldToBuffer | 3rd-party/cpp/libpqxx/src/stream_to.cxx:125-155 | the loop appends the escaped field and a tab |
| CopyText.StreamTo.WriteBuffer | 3rd-party/cpp/libpqxx/src/stream_to.cxx:72-83 | sends the row without its last tab and empties the buffer |
| CopyText.StreamTo.WriteRow | 3rd-party/cpp/libpqxx/src/stream_to.cxx:72-155 | writes the line of a row, nulls included |
| CopyText.StreamFrom.ParseLine | 3rd-party/cpp/libpqxx/src/stream_from.cxx:176-298 | one in-place buffer of line size plus one is enough; at the end every finished field still reads back, zero-terminated, what the line says, or the right failure is thrown |
| CopyText.ReadingWrites | 3rd-party/cpp/libpqxx/src/stream_from.cxx:205-283 | a write never passes the read position and leaves finished fields alone |
| CopyText.FieldCloses | 3rd-party/cpp/libpqxx/src/stream_from.cxx:215-230 | closing a field adds exactly one view, and a zero for any field but null |
| CopyText.WriteThenRead | 3rd-party/cpp/libpqxx/src/stream_from.cxx:176-298 | every non-empty row arrives with each octal escape as its three digits, and nulls as nulls |
| CopyText.EscapeTable | 3rd-party/cpp/libpqxx/src/stream_to.cxx:125-155 | what the writer makes of each character, octal digits included |
| CopyText.ParsesExactly | 3rd-party/cpp/libpqxx/src/stream_from.cxx:176-298 | for every line and result: the line reads so if and only if that is what its parts mean, taken apart into tab-separated cells of plain and escaped characters, null sequences, a lone backslash or a late null sequence at the end |
| CopyText.UnescapeTable | 3rd-party/cpp/libpqxx/src/stream_from.cxx:239-276 | what the reader makes of each character behind a backslash |
| CopyText.ReceivedIsSame | 3rd-party/cpp/libpqxx/src/stream_to.cxx:139-146 | a field survives if and only if all its characters are printable ASCII or one of the six escaped controls |
| CopyText.RoundTrip | 3rd-party/cpp/libpqxx/src/stream_to.cxx:125-155 | a row survives writing and reading if and only if it is non-empty and all its fields do |
| Nv21Pixel.ClampLimits | 3rd-party/cpp/libyuv/src/row_common.cc:22-28 | the branchless clamps limit to 0..255 |
| Nv21Pixel.ChannelRange | 3rd-party/cpp/libyuv/src/row_common.cc:185-188 | no product or sum of a pixel leaves 32 bits |
| Nv21Pixel.CloseToBt601 | 3rd-party/cpp/libyuv/src/row_common.cc:68-81 | the channels are within 3, 1 and 1 of the BT.601 formulas |
| Nv21Pixel.PixelExactly | 3rd-party/cpp/libyuv/src/row_common.cc:149-189 | the three bytes of a pixel to the last bit, limits included |
| Nv21Pixel.YuvPixel | 3rd-party/cpp/libyuv/src/row_common.cc:149-189 | stores the three bytes of the pixel and no others |
| Nv21Rows.Nv21ToRgb24RowC | 3rd-party/cpp/libyuv/src/row_common.cc:191-210 | the two-pixel loop and the odd last pixel draw pixel x from luma x and the chroma pair at x/2 |
| Nv21Rows.AnyRow | 3rd-party/cpp/libyuv/src/row_any.cc:34-49 | the wrapper draws the plain row for any width with a kernel that does so only on whole blocks; its copies stay in the temporary buffer |
| Nv21Rows.RowSplits | 3rd-party/cpp/libyuv/src/row_common.cc:223-231 | a row is the row of an even prefix followed by the row of the rest |
| Nv21Rows.ChunkedRow | 3rd-party/cpp/libyuv/src/row_common.cc:216-256 | the 2048-pixel chunk loop draws the plain row on whole blocks |
| Nv21Rows.ChunkedMatches | 3rd-party/cpp/libyuv/src/row_common.cc:216-256 | so the chunked row is itself a kernel that matches on whole blocks, however wide |
| Nv21Image.ChunkedIsFaithful | 3rd-party/cpp/libyuv/src/convert_argb.cc:58-73 | and a row function the image loop may use |
| Nv21Image.Nv21ToRgb24Matrix | 3rd-party/cpp/libyuv/src/convert_argb.cc:28-84 | refuses an empty size; otherwise writes each image row at its place, upwards for a negative height, chroma advancing every other row, and no other byte |
| Nv21Image.RowsApart | 3rd-party/cpp/libyuv/src/convert_argb.cc:44-49 | output rows do not overlap |
| Nv21Image.ImageIsUnique | 3rd-party/cpp/libyuv/src/convert_argb.cc:58-73 | the image does not depend on which faithful row function is used |
| Nv21Image.ImagePixel | 3rd-party/cpp/libyuv/src/convert_argb.cc:75-82 | output pixel (x, y) is YuvPixel of luma (x, y) and the VU pair at row y/2, column x/2 |

## Left out

- JSON doubles: `decodeDouble` and double printing are parameters (`toDouble`, `show`), and no law about them is claimed; the two zeros are one value.
- JSON comments: comments are skipped as the strict reader does, their text is not collected or written.
- `OurReader`, `BuiltStyledStreamWriter`, `StyledStreamWriter`, `Path` and the builder settings: near copies of the modelled code.
- JsonReader.Reader.ReadValue: the node stack holds values that are stored back into their parents when popped, where the source holds pointers into the tree; aliasing between nodes is not modelled.
- JsonReader.Reader.ParseDocument: an exception is a flag, error line and column numbers and message texts are not computed, and the byte order of `char` is taken as unsigned.
- JsonWriter.FastWriter.Write: the YAML, drop-null and no-line-feed switches are off, as `parser_impl` leaves them.
- JsonStyledWriter.StyledWriter.IsMultineArray: signed overflow, which C++ leaves undefined, wraps in two's complement; an object of exactly 2^32 members counts as not empty; comments do not force several lines.
- JsonStyledWriter.StyledWriter.Write: memory does not run out, and what a failed call leaves in the writer is not stated.
- JsonReader.Reader.ReadArray: the element index does not overflow its int, at 2^31 elements in one document.
- JsonValue.KeyLessTotal: keys are compared whole; `CZString` keeps 30 bits of a length, so the source cuts keys of 2^30 bytes or more, and string lengths are 32-bit there.
- Memory management in `Value` and `CZString`: values are trees of byte strings and sorted entry lists.
- Base64 tables: given by closed formula, not entry by entry; the little-endian branch only; prefetching is omitted.
- Base64Encoder.Tb64xenc: the input is a value, so encoding or decoding a buffer onto itself is not covered.
- CircularQueue.CircularQueue.PushBack: indices and the overrun counter do not wrap in 64 bits; copying a queue is not modelled.
- CircularQueue.CircularQueue.PopFront: the source leaves an empty queue undefined, so it is a precondition here, as for Front and At.
- BlockingQueue.Safety: the clock is abstracted: a timed wait may time out at any moment; fairness and progress under a scheduler are not stated.
- SqlCursor.SqlCursor.Fetch: the SQL text, quoting, transactions and connection failures are not modelled; the server is a row list and a position.
- SqlCursor.FindQueryEnd: single-byte encodings only.
- IcursorStream.Icursorstream.ServiceIterators: streams on adopted cursors, whose first position is unknown, are not covered; which of two equal positions is filled first makes no difference.
- IcursorStream.RunRequests: assigning one iterator to another is not among the requests.
- PoolAllocator.EveryRunAccounts: allocation failure, page-locked device memory and the float argument of set_size_compare_ratio are not modelled; the destructor's log is omitted.
- CopyText.StreamFrom.ParseLine: the single-byte scanner only; multi-byte glyphs and the copying of arithmetic fields without escaping are omitted.
- Nv21Rows.AnyRow: the vector kernels themselves are parameters assumed to match the plain row on whole blocks; SIMD code is not modelled.
- Nv21Image.Nv21ToRgb24Matrix: null pointers and the negation of the smallest int are not modelled.
- `convert_to_bgr`, `decode_and_convert`, `pipeline.cxx`, `robusttransaction.cxx`, encodings, tensors, plugins, CUDA, JNI, libpq and file I/O: foreign calls, plumbing, or no provable intent in the code.
