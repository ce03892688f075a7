# Message entity offsets of teloxide-core, in Dafny

Telegram describes formatting and links in a message with *message entities*.
Each entity has a kind, an `offset` and a `length`, and both count **UTF-16
code units** of the message text. Rust strings are UTF-8, so teloxide-core
provides `MessageEntityRef::parse`. It turns every entity into a
`MessageEntityRef`: the message text, a **UTF-8 byte range** into it, and the
entity's kind.

The resolver works in three steps:

- it builds one ref per entity with the raw UTF-16 range;
- it collects the start and end offset of every ref and sorts them in
  decreasing order, so the smallest is last;
- it walks the characters of the text plus one `'\0'` sentinel, keeping the
  running UTF-8 and UTF-16 lengths. At each character boundary it pops every
  offset that has been reached and overwrites it with the running UTF-8
  length. A reached offset that is not exactly the running UTF-16 length
  splits a surrogate pair and trips the `"Invalid utf-16 offset"` assertion.

The model has six modules:

- `Wrappers`: `Option` and `Result`.
- `Unicode`:
  - `Width` is Rust's `len_utf8`/`len_utf16`; `Encode` gives the actual code units.
  - `PrefixLen(enc, text, k)` is the running length after `k` characters.
  - `CharIndex` finds the character at a UTF-8 offset.
- `MessageEntities`:
  - the `MessageEntity` value, with its constructors and setters;
  - the `MessageEntityRef` value, with its accessors;
  - `Text()` returns `None` where Rust's `&message[range]` would panic.
- `EntityParse`:
  - `ParseSpec` is the declarative meaning of `parse`. `Locate` says where each
    UTF-16 offset lands: on a character boundary (at a UTF-8 offset), inside a
    character (a surrogate pair), or past the end.
  - `Parse` is the algorithm in imperative form. It uses an `array` of refs that
    is patched in place, a descending stack of `Slot`s (which ref, start or end),
    and the walk `PatchOffsets` / `PatchReached` with its loop invariants.
  - `Parse` is proved to return `ParseSpec`. The assertion failure is
    `Failure(InvalidUtf16Offset)`.
- `ParseProperties`: what the resolver guarantees, stated on `ParseSpec`.
- `ParseExamples`: the repository's unit-test scenarios and the
  counterexamples of the finding below.

The code and the intended contract disagree on one point. The intended contract
says an offset beyond the total UTF-16 length is an invalid offset. The code
never reaches such an offset in its walk, so it keeps its raw UTF-16 value and
no assertion fires. `Parse` follows the code. `ParseStrict` is the corrected
resolver (see "Findings").

## Model

| member | source | states |
|---|---|---|
| Unicode.Width | src/types/message_entity.rs:258-260 | Rust's `len_utf8` (1 to 4 bytes) and `len_utf16` (1 or 2 units); an ASCII character takes one unit in both |
| Unicode.PrefixLen | src/types/message_entity.rs:238-260 | the `len_utf8`/`len_utf16` accumulators after `k` characters; no contract of its own, its meaning is stated by `PrefixLenIsEncodedLength`, `PrefixLenGrows` and `PrefixLenInjective` |
| Unicode.TotalLen | src/types/message_entity.rs:238-260 | the accumulator after the last character is the length of the whole encoded text, at least one unit per character |
| Unicode.Encode | src/types/message_entity.rs:258-260 | a character takes exactly `Width` units (Rust's `len_utf8`/`len_utf16`), each in range; a two-unit UTF-16 encoding is a high then a low surrogate; a multi-byte UTF-8 encoding is a lead byte followed by continuation bytes |
| Unicode.EncodeTextAppend | src/types/message_entity.rs:237-260 | encoding a concatenation is the concatenation of the encodings |
| Unicode.PrefixLenIsEncodedLength | src/types/message_entity.rs:238-260 | the running `len_utf8`/`len_utf16` after `k` characters is the length of the encoding of those `k` characters |
| Unicode.PrefixLenGrows | src/types/message_entity.rs:258-260 | every character adds at least one unit, so the running lengths strictly increase with the character count |
| Unicode.PrefixLenInjective | src/types/message_entity.rs:258-260 | two character positions with the same running length are the same position |
| Unicode.EncodedSlice | src/types/message_entity.rs:237-260 | the units between the running lengths at positions `i <= j` are exactly the encoding of characters `i..j` |
| Unicode.AsciiOffsetsCoincide | src/types/message_entity.rs:258-260 | on ASCII text the UTF-8 and UTF-16 running lengths both equal the character count |
| Unicode.CharIndex | src/types/message_entity.rs:172-175 | returns the character position whose UTF-8 offset is `b` when there is one, and `None` exactly when `b` is not a character boundary |
| MessageEntities.Decimal | src/types/message_entity.rs:140-147 | the decimal rendering of a user id is non-empty and made of digits |
| MessageEntities.DecimalRoundTrip | src/types/message_entity.rs:140-147 | reading the digits back gives the id: the rendering denotes `n` |
| MessageEntities.UserUrl | src/types/message_entity.rs:142-148 | the link `text_mention_id` puts in its text link; its shape and the id it carries are stated by `UserUrlShape` |
| MessageEntities.UserUrlInjective | src/types/message_entity.rs:140-147 | two users with the same mention link have the same id |
| MessageEntities.MessageEntity.New | src/types/message_entity.rs:46-52 | the entity with the given kind, offset and length; a definition without a contract of its own, stated by `BuildersAgree` |
| MessageEntities.MessageEntity.Bold | src/types/message_entity.rs:55-61 | `new` with kind `Bold`; a definition without a contract of its own, stated by `BuildersAgree` |
| MessageEntities.MessageEntity.Italic | src/types/message_entity.rs:64-70 | `new` with kind `Italic`; a definition without a contract of its own, stated by `BuildersAgree` |
| MessageEntities.MessageEntity.Underline | src/types/message_entity.rs:73-79 | `new` with kind `Underline`; a definition without a contract of its own, stated by `BuildersAgree` |
| MessageEntities.MessageEntity.Strikethrough | src/types/message_entity.rs:82-88 | `new` with kind `Strikethrough`; a definition without a contract of its own, stated by `BuildersAgree` |
| MessageEntities.MessageEntity.Spoiler | src/types/message_entity.rs:91-97 | `new` with kind `Spoiler`; a definition without a contract of its own, stated by `BuildersAgree` |
| MessageEntities.MessageEntity.Code | src/types/message_entity.rs:100-106 | `new` with kind `Code`; a definition without a contract of its own, stated by `BuildersAgree` |
| MessageEntities.MessageEntity.Pre | src/types/message_entity.rs:109-115 | `new` with kind `Pre` and the optional language; a definition without a contract of its own, stated by `BuildersAgree` |
| MessageEntities.MessageEntity.TextLink | src/types/message_entity.rs:117-123 | `new` with kind `TextLink` and the URL; a definition without a contract of its own, stated by `BuildersAgree` |
| MessageEntities.MessageEntity.TextMention | src/types/message_entity.rs:132-138 | `new` with kind `TextMention` and the user; a definition without a contract of its own, stated by `BuildersAgree` |
| MessageEntities.MessageEntity.TextMentionId | src/types/message_entity.rs:142-148 | a text link to the user's mention URL; a definition without a contract of its own, stated by `BuildersAgree` |
| MessageEntities.MessageEntity.WithKind | src/types/message_entity.rs:150-153 | the entity with its kind replaced, offset and length kept; a definition without a contract of its own, stated by `BuildersAgree` |
| MessageEntities.MessageEntity.WithOffset | src/types/message_entity.rs:155-158 | the entity with its offset replaced, kind and length kept; a definition without a contract of its own, stated by `BuildersAgree` |
| MessageEntities.MessageEntity.WithLength | src/types/message_entity.rs:160-163 | the entity with its length replaced, kind and offset kept; a definition without a contract of its own, stated by `BuildersAgree` |
| MessageEntities.MessageEntityRef.Kind | src/types/message_entity.rs:168-170 | the stored kind; a definition without a contract of its own, stated by `AccessorsAgree` and `TextIsByteSlice` |
| MessageEntities.MessageEntityRef.Range | src/types/message_entity.rs:181-183 | the stored byte range; a definition without a contract of its own, stated by `AccessorsAgree` and `TextIsByteSlice` |
| MessageEntities.MessageEntityRef.Start | src/types/message_entity.rs:187-189 | the first byte of the range; a definition without a contract of its own, stated by `AccessorsAgree` and `TextIsByteSlice` |
| MessageEntities.MessageEntityRef.End | src/types/message_entity.rs:193-195 | the end byte of the range; a definition without a contract of its own, stated by `AccessorsAgree` and `TextIsByteSlice` |
| MessageEntities.MessageEntityRef.Len | src/types/message_entity.rs:199-201 | `Range::len`: the byte count, zero for a reversed range; a definition without a contract of its own, stated by `AccessorsAgree` and `TextIsByteSlice` |
| MessageEntities.MessageEntityRef.MessageText | src/types/message_entity.rs:204-206 | the whole message; a definition without a contract of its own, stated by `AccessorsAgree` and `TextIsByteSlice` |
| MessageEntities.MessageEntityRef.Text | src/types/message_entity.rs:172-175 | the slice exists (Rust does not panic) exactly when the range is ordered and both ends are character boundaries of the message |
| MessageEntities.TextIsByteSlice | src/types/message_entity.rs:172-201 | the text of a ref is exactly the UTF-8 bytes `start..end` of the message, and `len()` is its byte length |
| MessageEntities.TextOfBoundaries | src/types/message_entity.rs:172-175 | a range between the UTF-8 offsets of positions `i <= j` has as text exactly the characters `i..j` |
| MessageEntities.AccessorsAgree | src/types/message_entity.rs:166-206 | `range()` is `start()..end()`, `len()` is `end - start` (zero for a reversed range), `kind()` and `message_text()` return the stored fields |
| MessageEntities.BuildersAgree | src/types/message_entity.rs:45-163 | `new` stores its kind, offset and length; each per-kind constructor is `new` with its kind; `text_mention_id` is a text link to the user's URL; for every value, `kind(val)`, `offset(val)` and `length(val)` set their field to `val` and keep the other two |
| MessageEntities.UserUrlShape | src/types/message_entity.rs:140-147 | the mention link is `tg://user/?id=` followed by decimal digits, and those digits denote the id |
| EntityParse.Locate | src/types/message_entity.rs:237-261 | where the walk reaches an offset: on a boundary at its UTF-8 offset, inside a character, or never (past the end); its cases are stated by `LocateCases` |
| EntityParse.PatchedOffset | src/types/message_entity.rs:246-256 | the value a slot ends with: the UTF-8 offset when it lands on a boundary, its raw value otherwise; stated through `LocateBoundary` and `LocateCases` |
| EntityParse.RawRef | src/types/message_entity.rs:211-218 | the ref first built for an entity: message, `offset..offset + length` and kind; its use is stated by `ParseValueAt` and `ParseKeepsOrder` |
| EntityParse.PatchRef | src/types/message_entity.rs:252-256 | a ref with both ends replaced by their patched values, message and kind kept; stated by `ParseResolvesBoundaries` |
| EntityParse.ParseSpec | src/types/message_entity.rs:209-264 | what `parse` returns, per entity and without the walk; `Parse` is proved to compute it and `ParseProperties` states its properties |
| EntityParse.FirstReaching | src/types/message_entity.rs:237-261 | the first character position at or after `k` whose running UTF-16 length reaches `o`: every earlier position is below `o` |
| EntityParse.SlotsOf | src/types/message_entity.rs:221-231 | `2n` slots, slot `k` being the start (`k` even) or end (`k` odd) of ref `k / 2` |
| EntityParse.SlotsOfCover | src/types/message_entity.rs:221-231 | the slots list the start and the end of every ref exactly once |
| EntityParse.InsertDesc | src/types/message_entity.rs:233-235 | the result is one longer and holds, as a multiset, exactly the old slots plus the new one |
| EntityParse.InsertDescSorted | src/types/message_entity.rs:233-235 | insertion into a slot list sorted by decreasing value keeps it sorted |
| EntityParse.InsertDescDistinct | src/types/message_entity.rs:233-235 | insertion of a new slot keeps the slots distinct |
| EntityParse.SortDesc | src/types/message_entity.rs:233-235 | the result is sorted by decreasing current value and is a permutation of the slots (same multiset), so distinct slots stay distinct |
| EntityParse.LocateBoundary | src/types/message_entity.rs:246-256 | the UTF-16 offset of position `k` is reached at position `k` and patched to the UTF-8 offset of `k` |
| EntityParse.LocateInside | src/types/message_entity.rs:246-253 | an offset strictly between the running UTF-16 lengths of two neighbouring positions lands inside a character |
| EntityParse.LocateCases | src/types/message_entity.rs:237-261 | an offset is past the end iff it exceeds the total UTF-16 length; it is on a boundary iff some position has that UTF-16 offset, and then lands at its UTF-8 offset; otherwise it splits a two-unit character |
| EntityParse.PatchOne | src/types/message_entity.rs:252-256 | overwriting a reached, unpatched end with the running UTF-8 length is patching it |
| EntityParse.PatchStep | src/types/message_entity.rs:250-256 | popping and patching the top slot when it equals the running UTF-16 length keeps the walk's invariant |
| EntityParse.RaiseFloor | src/types/message_entity.rs:246-249 | once the top slot is above the running UTF-16 length, every slot on the stack is, the stack being sorted |
| EntityParse.PatchReached | src/types/message_entity.rs:246-257 | the inner loop: pops every reached slot and patches it; fails exactly on a reached slot that lands inside a character |
| EntityParse.PatchOffsets | src/types/message_entity.rs:237-261 | the walk with the `'\0'` sentinel and the early stop: it fails iff some slot lands inside a character; it patches every ref's both ends as `Locate` says; and it leaves slots unpatched iff some of them are beyond the text |
| EntityParse.WalkDone | src/types/message_entity.rs:237-261 | at the end of the walk every slot still stacked lies beyond the text and stays raw, and no slot lands inside a character |
| EntityParse.SlotsCoverEntities | src/types/message_entity.rs:211-231 | a property holds of every slot value iff it holds of every entity's offset and end |
| EntityParse.AlignedIffSlotsAligned | src/types/message_entity.rs:221-253 | no slot lands inside a character iff no entity is misaligned |
| EntityParse.WithinIffSlotsWithin | src/types/message_entity.rs:221-261 | every slot is within the text iff every entity ends within it |
| EntityParse.PatchedSlotsResolveEntities | src/types/message_entity.rs:209-264 | the walk's per-slot result, restated per entity |
| EntityParse.RawRefs | src/types/message_entity.rs:211-218 | a fresh array with one ref per entity holding `offset..offset + length` |
| EntityParse.ResolveRefs | src/types/message_entity.rs:209-264 | succeeds iff no entity is misaligned, and then returns the patched refs in entity order; leaves nothing unpatched iff every entity ends within the text |
| EntityParse.Parse | src/types/message_entity.rs:209-264 | returns `ParseSpec`: failure iff some offset splits a character, else every ref with both ends patched as `Locate` says |
| EntityParse.ParseStrict | src/types/message_entity.rs:209-264 | the corrected resolver: returns `ParseStrictSpec`, which also fails when an offset is beyond the text |
| ParseProperties.ParseValueAt | src/types/message_entity.rs:211-218 | on success ref `i` is entity `i`'s raw range with both ends patched |
| ParseProperties.ParseKeepsOrder | src/types/message_entity.rs:211-218 | one ref per entity, in entity order, with the entity's kind and the unchanged message text |
| ParseProperties.LocateInsideIffSplit | src/types/message_entity.rs:250-253 | an offset lands inside a character iff it points between the two units of a surrogate pair |
| ParseProperties.SurrogatePairAt | src/types/message_entity.rs:258-260 | a two-unit character sits in the UTF-16 encoded text as a high then a low surrogate at its running offset |
| ParseProperties.SplitOffsetIsBetweenSurrogates | src/types/message_entity.rs:250-253 | an offset that splits a pair has a high surrogate before it and a low surrogate at it |
| ParseProperties.ParseFailsIffSplit | src/types/message_entity.rs:246-257 | the call fails iff the offset or end of some entity splits a surrogate pair |
| ParseProperties.ParseSucceedsOnBoundaries | src/types/message_entity.rs:246-257 | entities whose both ends are UTF-16 boundaries never make the call fail |
| ParseProperties.ParseResolvesBoundaries | src/types/message_entity.rs:246-256 | an entity spanning positions `k1..k2` becomes the ref with the UTF-8 offsets of `k1` and `k2`, and its text is characters `k1..k2` |
| ParseProperties.ParseKeepsEncodedSpan | src/types/message_entity.rs:17-21 | that text is, in UTF-16, exactly the declared span of units, and in UTF-8 exactly the resolved byte range |
| ParseProperties.ParseResolvesAllBoundaries | src/types/message_entity.rs:209-264 | when every entity spans known positions, the whole result is the list of their UTF-8 ranges with the entities' kinds |
| ParseProperties.ParseResolvesEndOfText | src/types/message_entity.rs:239 | an entity ending at the end of the text, in UTF-16, ends at the total UTF-8 length: the sentinel step reaches it |
| ParseProperties.ParseIsPerEntity | src/types/message_entity.rs:211-218 | each ref is what the call returns for its entity alone, however the entities overlap |
| ParseProperties.ParseKeepsOverlap | src/types/message_entity.rs:209-264 | two entities whose UTF-16 spans overlap, both on character boundaries, are resolved to byte ranges that overlap |
| ParseProperties.ParseAsciiIsIdentity | src/types/message_entity.rs:258-260 | on ASCII text every ref keeps the entity's offsets unchanged |
| ParseProperties.ParseStrictSucceedsIffBoundaries | src/types/message_entity.rs:246-257 | the corrected resolver succeeds iff every offset and end is a UTF-16 boundary of the text |
| ParseProperties.ParseStrictRefsAreSlices | src/types/message_entity.rs:172-175 | every ref of the corrected resolver is an ordered byte range within the text whose text exists |
| ParseExamples.ParseCyrillic | src/types/message_entity.rs:350-388 | "быба" with four one-unit entities gives the byte ranges 0..2, 2..4, 4..6, 6..8 with the entities' kinds |
| ParseExamples.CyrillicTexts | src/types/message_entity.rs:350-388 | their texts are "б", "ы", "б", "а" |
| ParseExamples.ParseBengali | src/types/message_entity.rs:390-405 | in "xx আ #tt" the hashtag at 5 of length 3 is bytes 7..10 with text "#tt" |
| ParseExamples.ParseEnclosed | src/types/message_entity.rs:407-439 | "b i b" with nested bold/bold/italic gives texts "b ", "i b", "i" |
| ParseExamples.ParseNothing | src/types/message_entity.rs:441-445 | no entities give no refs |
| ParseExamples.ParseEmpty | src/types/message_entity.rs:447-474 | two empty entities over the empty text give two empty ranges with empty text |
| ParseExamples.PastEndOffsetKeptRaw | src/types/message_entity.rs:246-257 | an end one unit beyond "ббб" keeps its raw value 4 and silently yields "бб"; the corrected resolver rejects it |
| ParseExamples.PastEndRangeReversed | src/types/message_entity.rs:246-257 | an entity starting at the end of "ббб" comes back with the reversed range 6..4, which has no text (Rust's `text()` panics on it); the corrected resolver rejects it |

## Left out

- Serialisation (serde attributes, the flattened `kind`) is not modelled. This model covers only the values.
- `reqwest::Url` and `User` payloads are plain values: a URL is a `string`, and a user is its identifier.
- `UserId::url` is not part of this model. `MessageEntities.UserUrl` assumes the `tg://user/?id=<decimal id>` form that the doc comment of `text_mention_id` gives.
- `usize` is unbounded `nat`. `offset + length` overflow is not modelled.
- Lifetimes and borrowing are not modelled: refs hold the message by value and copy the entity's kind.
- The particular unstable sort is not modelled. `SortDesc` is an insertion sort, and the result does not depend on how equal offsets are ordered.
- The panic of the `assert_eq!` is `Failure(InvalidUtf16Offset)`. A refs list is returned only when no assertion fires.
- `MessageEntities.MessageEntityRef.Text` returns `None` where Rust's slicing panics. The panic itself is not modelled.
- The early `None` of the `try_fold` is kept as the loop's early exit in `EntityParse.PatchOffsets`. Its only effect is to stop the walk.

## Findings

| source | as written | input that shows it | evidently intended | confidence | as-written member | corrected member |
|---|---|---|---|---|---|---|
| src/types/message_entity.rs:246-257 | an offset beyond the text's UTF-16 length is never reached by the walk, so it is neither patched nor rejected and keeps its raw UTF-16 value | text "ббб" (3 UTF-16 units, 6 bytes), entity Bold at 0 with length 4: the ref gets range 0..4, whose text is "бб"; entity Bold at 3 with length 1: the ref gets the reversed range 6..4, whose text does not exist (`ParseExamples.PastEndRangeReversed`) | such an offset is an invalid offset and the call fails | not executed | ParseExamples.PastEndOffsetKeptRaw | EntityParse.ParseStrict |
