# id3v2lib in Dafny

A model of the core of id3v2lib, a small C library that reads and writes the
ID3v2 metadata tags at the start of MP3 files. The model covers these parts:

- the 10-byte tag header: the "ID3" magic, the versions, the flags, and the
  sync-safe tag size and extended-header size;
- the two frame layouts:
  - ID3v2.2: a 3-byte ID and a 3-byte big-endian size, with the fixed
    table that translates a v2.2 ID into its v2.3 ID;
  - ID3v2.3 and v2.4: a 4-byte ID, a 4-byte size and 2 flag bytes, where
    the size is big-endian in v2.3 and sync-safe in v2.4;
- the decoders for text, comment and attached-picture payloads;
- the reversal of unsynchronisation;
- the loop that loads a tag from a buffer;
- the byte layout of the `set_tag` writer;
- the getters and setters on a tag's frame list.

The modules follow the C files:

| module | file | flavour |
|---|---|---|
| `Wrappers` | — | `Option` and `Result` |
| `Utils` | utils.c helpers the core calls | big-endian and sync-safe integers, bytes |
| `HeaderCodec` | src/header.c | pure functions |
| `FrameCodec` | src/frame.c | pure parsers; the V2.2 ID conversion and the picture-payload parser are methods with loops |
| `Id3v2Lib` | src/id3v2lib.c | the `Tag` class, whose methods update the header, raw body and frame list; the unsynchronisation reversal works in place on an `array`; the byte layouts are functions |

Each loop is written as a method and proved against a specification
function:

- `ConvertV22FrameId` against `LookupV22`;
- `ParseMimeType` and `SkipDescription` against `ZeroByteFrom` and
  `ZeroUnitFrom`;
- `ParseApicFrameContent` against `ApicContentOf`;
- `ReverseUnsynchronisation` against `Unsync`;
- `Tag.WalkFrames` against `Walk`;
- `Tag.GetTagSize` against `FramesSize`;
- `Tag.SetTag` against `RewrittenFile`.

Lemmas about these functions state what the library promises. The headline
results:

- reversing unsynchronisation undoes unsynchronising;
- frames written by `write_frame` parse back;
- a file rewritten by `set_tag` loads back as the frames that were written;
- each setter finds the field's frame or appends one, and never creates a
  duplicate.

C pointers and integers are modelled as follows:

- Byte buffers are `seq<byte>`, with `byte` being 0..255.
- A frame's `size` is the length of its `data`.
- Where the C would read past the end of a buffer, the model returns an
  explicit outcome instead: `Truncated`/`TruncatedFrame` for a frame that
  runs past the tag's bytes, and `None` for payload decoders that run off
  the payload.
- The C `NULL` returns are `None` or a `LoadError`.

## Model

| member | source | states |
|---|---|---|
| Utils.BigEndianRoundTrip | src/id3v2lib.c:175-181 | the 4 bytes `itob` writes for a frame size read back through `btoi` as that size modulo 2^32 |
| Utils.BigEndianBound | src/frame.c:58 | a big-endian value of n bytes is below 256^n (so a v2.2 frame size is below 2^24) |
| Utils.SyncSafeRoundTrip | src/id3v2lib.c:166-173 | decoding the sync-safe size `write_header` encodes gives the size modulo 2^28 |
| Utils.SyncSafeEncodeDecode | src/header.c:51 | a 4-byte size field with no high bit set re-encodes to itself, so decoding loses nothing |
| HeaderCodec.GetTagHeaderWithBuffer | src/header.c:37-66 | there is a header exactly when the buffer has 10 bytes starting with "ID3" (14 when the extended-header flag is set); its versions and flags are bytes 3, 4 and 5; its tag size is the sync-safe value of bytes 6..10; `unsynchronised` holds iff flag 0x80 is set; the extended-header size is the sync-safe value of bytes 10..14 when flag 0x40 is set, and 0 otherwise |
| HeaderCodec.HeaderExample255 | src/header.c:51 | size bytes 00 00 01 7F declare 255 bytes, 7 bits per byte |
| HeaderCodec.HeaderExample127 | src/header.c:51 | size bytes 00 00 00 7F declare 127 bytes |
| HeaderCodec.GetTagVersion | src/header.c:68-78 | major version 3 gives v2.3, 4 gives v2.4, and any other version is not compatible |
| HeaderCodec.GetTagOrigVersion | src/id3v2lib.c:84-88 | major versions 2, 3 and 4 are accepted, and only 2 gives v2.2 |
| HeaderCodec.OrigVersionExtendsTagVersion | src/header.c:68-78 | the loader's version map agrees with get_tag_version on every major version except 2, which only the loader accepts, as v2.2 |
| FrameCodec.CheckFrameIdSpec | src/frame.c:24-28 | the ID check succeeds iff all ID bytes exist and are 'A'-'Z' or '0'-'9'; it fails iff an existing ID byte is not; it runs off the buffer only when every byte it saw was valid |
| FrameCodec.V22TableWellFormed | src/frame.c:245-286 | the table has 39 entries, each mapping three valid ID characters to four |
| FrameCodec.V22TableSorted | src/frame.c:245-286 | the table's keys are in strictly ascending order |
| FrameCodec.V22TableKeysDistinct | src/frame.c:245-286 | no two entries share a key |
| FrameCodec.LookupInSpec | src/frame.c:288-297 | a first-match table lookup fails iff no entry has the key, and otherwise returns the value of an entry with that key |
| FrameCodec.LookupV22Spec | src/frame.c:241-298 | a v2.2 ID translates to v iff (key, v) is in the table, and every translation is a valid 4-character v2.3 ID |
| FrameCodec.ConvertV22FrameId | src/frame.c:241-298 | the loop returns the first table value whose key equals the three source bytes, and nothing when the length is not 3 or no key matches |
| FrameCodec.ParsedFrameShape | src/frame.c:30-101 | a parsed frame was read from valid ID characters and has a valid 4-byte ID, 2 flag bytes and the tag's version |
| FrameCodec.InvalidIdMeansNoFrame | src/frame.c:41-48 | a byte among the ID bytes that is not a valid ID character means there is no frame; a zero padding byte is one such byte |
| FrameCodec.ParseFrame3Layout | src/frame.c:71-101 | the v2.3/v2.4 layout: the ID is bytes 0..4; the size is bytes 4..8, sync-safe iff v2.4; the flags are bytes 8..10; the data is the next `size` bytes; a frame that does not fit is Truncated |
| FrameCodec.ParseFrame2Layout | src/frame.c:39-69 | the v2.2 layout: the ID is the table translation of bytes 0..3, with no frame when there is none; the size is the 24-bit big-endian bytes 3..6; the flags are zero; the data follows |
| FrameCodec.BytesPerCharForEncoding | src/frame.c:103-110 | 2 bytes per character exactly for the two UTF-16 encodings, and 1 otherwise |
| FrameCodec.ParseTextFrameContentAsWritten | src/frame.c:112-164 | as written: no content for no frame or a payload under 2 bytes; otherwise the encoding byte, then the rest of the payload unchanged, then 0, 1 or 2 zero units |
| FrameCodec.TextPaddingAsWritten | src/frame.c:124-157 | as written: the output grows by one unit per non-zero (or missing) penultimate or last unit; the penultimate unit is read only when the text has at least two units and one more byte, so only such a text ending in two zero units is not padded |
| FrameCodec.TextPaddingAsWrittenShortZeroText | src/frame.c:133-144 | as written: a text of exactly two zero units, below that length, gets one more zero unit: the Latin-1 payload 00 00 00 decodes to 00 00 00 and the UTF-16 payload 01 00 00 00 00 to six zero bytes |
| FrameCodec.TextPaddingAsWrittenMissesListTerminator | src/frame.c:124-157 | as written, for 1-byte encodings or UTF-16 text of even byte length: the output fails to end in two zero units exactly when the penultimate unit is zero and the last is not |
| FrameCodec.TextPaddingAsWrittenCounterexample | src/frame.c:124-157 | as written: the Latin-1 payload 00 61 00 62 decodes to 61 00 62 00, one NUL short of a string terminator plus a list terminator |
| FrameCodec.ParseTextFrameContent | src/frame.c:112-164 | the same result shape as the code as written: the encoding byte, then the payload unchanged, then 0, 1 or 2 zero units; no content for a payload under 2 bytes |
| FrameCodec.PaddedUnits | src/frame.c:133-157 | appending zero units adds zero units and leaves every earlier unit as it was |
| FrameCodec.TextContentEndsWithTwoZeroUnits | src/frame.c:124-127 | for 1-byte encodings or UTF-16 text of even byte length, a decoded text always ends in a string terminator and a list terminator |
| FrameCodec.TextContentIdempotent | src/frame.c:124-157 | for 1-byte encodings or UTF-16 text of even byte length, decoding an already decoded text gives it back, so terminators are never added twice |
| FrameCodec.TextContentOddUtf16Example | src/frame.c:132-157 | the UTF-16 payload 01 61, of odd length, decodes to 61 00 00 00 00, whose aligned 2-byte units do not end in two zero units |
| FrameCodec.TextContentExample | src/frame.c:112-164 | "Hello" in Latin-1 decodes to "Hello" followed by two NULs |
| FrameCodec.TextContentExampleAsWritten | src/frame.c:112-164 | under the code as written, "Hello" in Latin-1 also decodes to "Hello" followed by two NULs |
| FrameCodec.TextDecodersAgree | src/frame.c:133-157 | the decoder as written and the corrected one give the same content iff it is not the case that the last unit is non-zero (or missing) while the one before it is zero |
| FrameCodec.ParseCommentFrameContent | src/frame.c:166-180 | no content for no frame or a payload under 5 bytes; otherwise the encoding is byte 0, the language bytes 1..4, the short description is empty and the text is bytes 5.. |
| FrameCodec.ZeroByteFrom | src/frame.c:196-202 | the scan finds the first zero byte at or after i, and nothing only when there is none |
| FrameCodec.ZeroByteFromFinds | src/frame.c:224-232 | a zero byte with no zero before it, from i on, is the one the scan finds |
| FrameCodec.ZeroUnitFrom | src/frame.c:224-228 | the 2-byte scan finds the first zero unit at an even distance from i, and nothing only when there is none |
| FrameCodec.ParseImageFormat | src/frame.c:183-193 | the v2.2 MIME type is "image/" followed by the three format bytes in lower case, and it takes 3 bytes |
| FrameCodec.ParseMimeType | src/frame.c:196-202 | the loop returns the string up to the first NUL and its length plus one, and nothing when there is no NUL |
| FrameCodec.SkipDescription | src/frame.c:224-232 | the loop stops at the description's terminator: a zero unit for UTF-16, a zero byte otherwise |
| FrameCodec.ParseApicFrameContent | src/frame.c:204-239 | the cursor method computes `ApicContentOf` of the frame |
| FrameCodec.ApicLayout | src/frame.c:204-239 | for v2.3/v2.4 the MIME type is bytes 1 up to the first NUL; the picture type is the byte after that NUL; the description runs to its first terminator, with no zero byte (or, for UTF-16, no zero unit) inside it; the picture is the rest of the payload |
| FrameCodec.ApicLayoutV22 | src/frame.c:210-236 | for v2.2 the MIME type is "image/" plus the lower-cased bytes 1..4; the picture type is byte 4; the description runs from byte 5 to its first terminator, with none inside it; the picture is the rest of the payload |
| FrameCodec.DescriptionScan | src/frame.c:224-232 | the description scan stops at a zero byte (a zero 2-byte unit for UTF-16) with no terminator between its start and there |
| Id3v2Lib.Unsync | src/id3v2lib.c:56-67 | the reversal never lengthens its input |
| Id3v2Lib.ReverseUnsynchronisation | src/id3v2lib.c:56-67 | the cursor loop writes `Unsync(src)` to the front of `dest` and leaves the rest of `dest` as it was |
| Id3v2Lib.UnsyncFromSuffix | src/id3v2lib.c:58-65 | the reversal from index i depends only on the bytes from i on |
| Id3v2Lib.UnsyncUnfold | src/id3v2lib.c:58-65 | the first byte is copied, and a 0x00 after a leading 0xFF is dropped |
| Id3v2Lib.UnsyncIdentity | src/id3v2lib.c:56-67 | input with no 0xFF 0x00 pair comes out unchanged |
| Id3v2Lib.UnsyncExample | src/id3v2lib.c:56-67 | FF 00 FF 00 AB becomes FF FF AB |
| Id3v2Lib.UnsyncTrailingFF | src/id3v2lib.c:60 | a final 0xFF is copied literally |
| Id3v2Lib.UnsyncReversesUnsynchronise | src/id3v2lib.c:56-67 | reversing an unsynchronised stream gives the original stream back |
| Id3v2Lib.Walk | src/id3v2lib.c:122-133 | the only way the frame walk fails is a truncated frame |
| Id3v2Lib.FramesFrom | src/id3v2lib.c:120-133 | the only way the frame loop over a tag body fails is a truncated frame |
| Id3v2Lib.ParsedFramesWellFormed | src/id3v2lib.c:125-128 | every frame the parser finds has a 4-byte ID and 2 flag bytes |
| Id3v2Lib.Clip | src/id3v2lib.c:118-119 | the raw copy is at most tag-size bytes, and it is exactly the tag-size bytes from the start when the buffer has them |
| Id3v2Lib.LoadTag | src/id3v2lib.c:69-138 | no valid header gives NoValidHeader; an unsupported major version gives NoCompatibleTag; a buffer shorter than tag size + 10 gives NotEnoughBytes (each iff); a loaded tag has the parsed header and a raw body of at most tag-size bytes |
| Id3v2Lib.WalkSuffixes | src/id3v2lib.c:122-133 | a walk started at the k-th frame's offset finds the frames from k on |
| Id3v2Lib.WalkAt | src/id3v2lib.c:122-133 | the k-th loaded frame is the one parsed at the sum of the earlier frames' sizes plus headers, and that offset is below the tag size |
| Id3v2Lib.WalkStops | src/id3v2lib.c:122-126 | the walk ends at or past the tag size, or at an offset with no frame |
| Id3v2Lib.WalkFinds | src/id3v2lib.c:122-133 | conversely, frames found one after another and followed by an offset with no frame are exactly what the walk returns |
| Id3v2Lib.PaddingHasNoFrames | src/frame.c:41-48 | a walk that starts on a zero byte finds no frames |
| Id3v2Lib.ZeroTagBodyHasNoFrames | src/id3v2lib.c:69-138 | a tag with a supported version, enough bytes and a body of zero bytes loads, with no frames, whether or not it is unsynchronised |
| Id3v2Lib.UnsyncFromZeroTail | src/id3v2lib.c:56-67 | reversing unsynchronisation keeps an all-zero tail all zero, at the same position or earlier |
| Id3v2Lib.UnsyncKeepsBody | src/id3v2lib.c:96-119 | for an unsynchronised tag of at least one byte with a zero body, the reversed buffer still holds bytes after the 10-byte header, so the loader's raw body is not empty |
| Id3v2Lib.FramesSizeAppend | src/id3v2lib.c:190-193 | appending a frame adds its size plus 10 |
| Id3v2Lib.FramesBytesAppend | src/id3v2lib.c:226-231 | writing one more frame appends its bytes |
| Id3v2Lib.FramesBytesSize | src/id3v2lib.c:183-197 | the written frames take exactly `get_tag_size` bytes |
| Id3v2Lib.RewrittenFileLayout | src/id3v2lib.c:199-252 | the rewritten file declares a tag size of the frames' size plus exactly 2048; the 2048 bytes after the frames are zero; the old file's bytes from old size + 10 on follow the tag |
| Id3v2Lib.WriteHeaderRoundTrip | src/id3v2lib.c:166-173 | a written header reads back with its version, flags, unsynchronisation flag and size modulo 2^28 |
| Id3v2Lib.WrittenFrameFields | src/id3v2lib.c:175-181 | write_frame lays out the ID, the 4 big-endian size bytes, the flags and the data, in that order |
| Id3v2Lib.WriteFrameRoundTrip | src/id3v2lib.c:175-181 | a written frame with a valid ID and a size below 2^32 parses back as a v2.3 frame with the same ID, flags and data |
| Id3v2Lib.WrittenFrameBytes | src/id3v2lib.c:226-231 | the k-th written frame's bytes start after the earlier frames' bytes |
| Id3v2Lib.WalkWrittenFrames | src/id3v2lib.c:122-133 | walking frames written back to back and followed by a zero byte returns those frames, as v2.3 frames |
| Id3v2Lib.PaddedBody | src/id3v2lib.c:234-236 | the written tag body is the frames followed by zeros, frames' size plus 2048 bytes long |
| Id3v2Lib.LoadRewrittenFile | src/id3v2lib.c:199-252 | loading the file `set_tag` wrote gives the new header and the frames that were written, as v2.3 frames, when their IDs are valid and the tag size fits 28 bits |
| Id3v2Lib.RewrittenFileSplit | src/id3v2lib.c:226-241 | the rewritten file is the header, a tag body of exactly tag-size bytes, and the old tail |
| Id3v2Lib.WrittenTagReadsBack | src/id3v2lib.c:211-224 | a flagless v2.3.0 header followed by tag-size bytes loads back as that header over those bytes |
| Id3v2Lib.Field.Id | src/id3v2lib.c:257-332 | every field's frame ID is four valid ID characters |
| Id3v2Lib.FieldIdsDistinct | src/id3v2lib.c:257-332 | the eleven fields have eleven different frame IDs |
| Id3v2Lib.FirstIndexOf | src/id3v2lib.c:257-262 | the lookup returns the first position holding the ID, and nothing only when no frame has it |
| Id3v2Lib.UpsertFindOrAppend | src/id3v2lib.c:390-400 | when the ID is present, only its first frame is rewritten (ID and payload replaced, flags and version kept); otherwise a new frame is appended; every other frame is untouched |
| Id3v2Lib.GetAfterUpsert | src/id3v2lib.c:390-400 | after a set, the getter for the ID finds a frame holding the new payload |
| Id3v2Lib.GetOtherAfterUpsert | src/id3v2lib.c:390-400 | after a set, the getter for any other ID finds what it found before |
| Id3v2Lib.FirstIndexOfUnique | src/id3v2lib.c:257-262 | a position holding the ID, with no earlier position holding it, is the one the lookup finds |
| Id3v2Lib.CountIdAppend | src/id3v2lib.c:393-396 | appending a frame adds one to its ID's count |
| Id3v2Lib.CountIdUpdate | src/id3v2lib.c:337-340 | rewriting a frame moves it from its old ID's count to its new ID's count |
| Id3v2Lib.CountIdZero | src/id3v2lib.c:257-262 | an ID's count is zero iff no frame has that ID |
| Id3v2Lib.UpsertCount | src/id3v2lib.c:390-508 | a set never duplicates a frame: the ID occurs once when it was absent, and as often as before otherwise |
| Id3v2Lib.SetTwice | src/id3v2lib.c:390-400 | setting a field twice leaves exactly one frame for it, holding the second payload |
| Id3v2Lib.TextFrameRoundTrip | src/id3v2lib.c:337-353 | a text frame `set_text_frame` builds from a C string decodes to that text plus two zero units; an empty text decodes to nothing |
| Id3v2Lib.TextFrameRoundTripAsWritten | src/id3v2lib.c:337-353 | the same round trip through the decoder as written: a text frame built from a C string decodes to that text plus two zero units, and an empty text to nothing |
| Id3v2Lib.CommentFrameRoundTrip | src/id3v2lib.c:355-369 | a frame `set_comment_frame` builds decodes with the given encoding, language "eng", an empty short description and the comment |
| Id3v2Lib.AlbumCoverFrameRoundTrip | src/id3v2lib.c:371-388 | a v2.3/v2.4 frame `set_album_cover_frame` builds decodes as Latin-1, with the MIME type, a front cover, an empty description and the picture |
| Id3v2Lib.Tag.constructor | src/id3v2lib.c:105 | a new tag has a zeroed header, no raw body and no frames |
| Id3v2Lib.Tag.LoadTagWithBuffer | src/id3v2lib.c:69-138 | returns a fresh tag whose contents are `LoadTag(buffer)` when that succeeds, and the error `LoadTag` gives otherwise |
| Id3v2Lib.Tag.ReadTagBody | src/id3v2lib.c:96-119 | the raw body is at most tag-size bytes (`Clip`) from after the header and any extended header, taken from the buffer after reversing unsynchronisation when the header says so; it is exactly tag-size bytes when that many exist there |
| Id3v2Lib.Tag.LoadFrames | src/id3v2lib.c:120-133 | the frame list becomes the frames of the raw body under the tag's version; the error is reported otherwise; the header and raw body are unchanged |
| Id3v2Lib.Tag.WalkFrames | src/id3v2lib.c:122-133 | the loop appends exactly the frames `Walk` finds, stops at the tag size or the first offset with no frame, and fails exactly when `Walk` does |
| Id3v2Lib.Tag.GetTagSize | src/id3v2lib.c:183-197 | the accumulator loop returns the frames' sizes plus 10 bytes per frame |
| Id3v2Lib.Tag.SetTag | src/id3v2lib.c:199-252 | installs the new v2.3.0 header and returns the header, the frames, 2048 zeros and the old file's tail; the frames and raw body are unchanged |
| Id3v2Lib.Tag.SetField | src/id3v2lib.c:390-400 | the frame list becomes `Upsert` of the old list; the header and raw body are unchanged |
| Id3v2Lib.Tag.SetTextField | src/id3v2lib.c:390-508 | the nine text setters upsert the field's frame with the encoding byte followed by the text |
| Id3v2Lib.Tag.SetComment | src/id3v2lib.c:474-484 | upserts the COMM frame with `set_comment_frame`'s payload |
| Id3v2Lib.Tag.SetAlbumCoverFromBytes | src/id3v2lib.c:532-542 | upserts the APIC frame with `set_album_cover_frame`'s payload |
| Id3v2Lib.TagGet | src/id3v2lib.c:257-332 | a getter finds a frame iff the tag is not null and some frame has the field's ID; the frame it finds is the first frame in the list with that ID |

## Left out

- `load_tag`, `get_tag_header`, `remove_tag` and `tag_set_album_cover` read or write files. They are not modelled. `set_tag` is modelled without its file I/O: it takes the old file's contents and returns the bytes it writes.
- utils.c and types.c are not part of this model. `btoi`, `itob`, `syncint_decode` and `syncint_encode` are defined in `Utils` from the ID3v2 standard. `get_tag_orig_version` is defined as `load_tag_with_buffer` uses it. The linked frame list is a `seq<Frame>`, with `add_to_list` as append.
- Reads past a buffer's end are not modelled as the C does them. Such reads are undefined behaviour there. The model makes them explicit outcomes instead: `Truncated` for a frame that runs past the tag body, and `None` from the payload decoders.
- `GetTagHeaderWithBuffer` also returns `None` for a 10-to-13-byte buffer whose extended-header flag is set. The C reads the extended-header size past such a buffer.
- `ParseCommentFrameContent` returns `None` for a payload under 5 bytes. The C copies a negative length there. It also assumes the short description is the single byte at index 4, as the C does.
- `Tag.LoadTagWithBuffer` reports `TruncatedFrame` when a frame runs past the raw body. The C reads on past its buffer there.
- The C `int` width is not modelled. Sizes are unbounded naturals. The 32-bit limit of the frame-size field and the 28-bit limit of the tag size appear as hypotheses of the round-trip lemmas, and as the `% 2^32` and `% 2^28` in their conclusions.
- Memory management is not modelled: allocation failure, `free` and leaks.
- The setters' text and MIME type are C strings. `NoNul` on them is the model of `strlen` stopping at the first NUL.
- `NewFrame`: the C leaves the flags and version of a new frame uninitialised. The model fixes them at zero flags and v2.3.
- `Tag.SetTag` returns the bytes `set_tag` writes over the file, not the file that results. `set_tag` reopens the file for update and never truncates it, so when the new tag is shorter than the old one the old file's last bytes remain after the written bytes.
- The loader's `memcpy` of tag-size bytes is modelled by `Clip`, which keeps only the bytes that exist. The C can copy past the end of its source in two cases: when the unsynchronisation reversal shortened the copy, and when an extended header moves the start past a buffer that was only checked against tag size + 10.
- FrameCodec.TextPaddingAsWrittenMissesListTerminator: stated only for a 1-byte encoding or UTF-16 text of even byte length, where the 2-byte units line up with the end of the text.
- FrameCodec.TextContentEndsWithTwoZeroUnits: stated under the same hypothesis. For an odd-length UTF-16 text the aligned units need not end in two zero units: the payload `01 61` decodes to `61 00 00 00 00` (FrameCodec.TextContentOddUtf16Example).
- FrameCodec.TextContentIdempotent: stated under the same hypothesis. For an odd-length UTF-16 text, decoding the output again pads it once more.
- `Field.Id` and `FRONT_COVER`: the setters' frame-ID constants (TITLE_FRAME_ID to ALBUM_COVER_FRAME_ID) and FRONT_COVER come from constants.h, which is not part of this model. The model takes them to be the getters' IDs TIT2 to APIC and the picture type 3.

## Findings

| source | as written | input that shows it | evidently intended | confidence | as-written member | corrected member |
|---|---|---|---|---|---|---|
| src/frame.c:124-157 | `parse_text_frame_content` adds one zero unit when the penultimate unit is non-zero and one more when the last unit is. A text whose last unit is non-zero but whose penultimate unit is zero gets only one terminator. | The Latin-1 payload `00 61 00 62` decodes to `61 00 62 00`. | The stated rule is that the decoded text ends in a string terminator and a list terminator. So a non-zero last unit should get two zero units, and a zero last unit after a non-zero one should get one. | not executed | FrameCodec.TextPaddingAsWrittenCounterexample | FrameCodec.TextContentEndsWithTwoZeroUnits |
