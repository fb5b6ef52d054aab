# RPM header decoder

A Dafny model of the header decoder of the `rpm` crate, a Rust library for
reading RPM packages, together with its error classification.

An RPM package starts with a 96-byte **Lead**. The Lead holds:

- a magic number;
- the format version, the package type and the architecture;
- a 66-byte NUL-padded name field;
- the OS, the signature type and 16 reserved bytes.

Two **header sections** follow the Lead: the signature section and the main
header section. The signature section is padded so that the main header
starts on an 8-byte boundary. Each section has three parts:

- a 16-byte prologue: magic, version, descriptor count and store size;
- `count` 16-byte tag descriptors, each a tag, a type code, an offset and a count;
- a raw store of `size` bytes.

The decoder reads these structures. It does not decode tag values while
reading a section. A separate function decodes one descriptor's value from a
section's store on demand.

The decoder is built from the combinators of the `nom` 1.x parsing library.
The model keeps that library's semantics:

- a parse is `Done(rest, value)`, `Error(kind, position)` or
  `Incomplete(needed)`;
- a sequence of steps re-bases a known `needed` count onto the start of the
  sequence;
- a counted repetition turns any failing element into a `Count` error at its
  start, and any shortfall into `Incomplete(Unknown)`;
- reading a NUL-terminated text leaves the NUL in the input;
- a peek leaves the input unconsumed;
- a literal match compares the bytes that are present, so a short input
  that already disagrees with the literal is an error, as in `nom` 1.2 and
  later.

The crate's errors are modelled as values. A parser error becomes a file
error: a failed literal match is `BadMagic` and any other kind is
`BadHeader`. I/O errors are wrapped unchanged. Each error has a cause, a
description and a displayed message.

Modules:

- `Cursor`: the parse result type and the byte-level primitives. These are
  big-endian integers, literal matching, raw byte runs and splitting at a NUL.
- `Utf8`: UTF-8 well-formedness, the check a name or text must pass.
- `Parser`: the data types and the decoder itself.
- `TypeCodes`: how the twelve wire type codes collapse onto eight types.
- `LeadProperties`, `SectionProperties`, `TagValProperties`,
  `HeaderProperties`: what each parser accepts and yields, and what it
  reports on bad or truncated input.
- `Layout`: an encoder for each structure, with proofs that the decoder
  inverts it.
- `Errors`, `ErrorProperties`: the error values and their classification.
- `Examples`: the inputs of the crate's unit tests, restated as lemmas about
  the model.

The model follows the code, including these less obvious behaviours:

- A magic number is matched by comparing the bytes that are present. An
  input shorter than the magic whose bytes already disagree with it is a
  `Tag` error, and so `BadMagic`, not `Incomplete`
  (`Cursor.TagBytes`, `Examples.ShortInputNotAPackage`). Only a short input
  that agrees so far needs more bytes.

- A Lead cut short inside its name text is not `Incomplete`. The search for
  the NUL runs to the end of the input and fails there with a `TakeUntil`
  error (`LeadProperties.ParseLeadCutInsideName`). A Lead cut after the NUL
  but before the end of the name field is `Incomplete(76)`
  (`LeadProperties.ParseLeadCut`).
- A name whose NUL lies beyond the 66-byte field is an `ExprOpt` error at
  that NUL (`LeadProperties.ParseLeadNameTooLong`). A name that is not valid
  UTF-8 is a `MapRes` error.
- A String value of `count` texts holds the first text and then `count - 1`
  empty texts. Each text read leaves its NUL in the input, so the next read
  starts at that NUL (`TagValProperties.ParseTagValString`).
- An unknown type code in a section's descriptor table surfaces as a `Count`
  error at the start of the table, because the counted repetition replaces
  the descriptor's own `MapRes` error. Both kinds classify as `BadHeader`.

## Model

| member | source | states |
|---|---|---|
| Cursor.IResult.After | src/parser.rs:98-113 | A step of a sequence keeps its outcome; only a known `needed` count is shifted by the bytes the sequence consumed before the step |
| Cursor.EncodeBigEndian | src/parser.rs:141-144 | Produces `width` bytes whose big-endian value is `v`: the inverse of the big-endian readers |
| Cursor.ToI16 | src/parser.rs:103 | The signed reading of a 16-bit value is non-negative exactly below 0x8000 and agrees with it modulo 2^16 |
| Cursor.Take | src/parser.rs:108 | Succeeds exactly when `n` bytes are present, returning those bytes and the rest; otherwise needs `n` |
| Cursor.TagBytes | src/parser.rs:100 | Compares the bytes present with the literal: a match exactly when the input starts with the whole literal; a Tag error at the input exactly when the bytes present disagree with it, even on an input shorter than the literal; a short input that agrees so far needs the literal's length |
| Cursor.BeUint | src/parser.rs:141-144 | Reads a `width`-byte big-endian integer below 256^width, or needs `width` bytes |
| Cursor.BeU8 | src/parser.rs:101 | Reads one byte as its value, or needs 1 |
| Cursor.BeU32 | src/parser.rs:120 | Reads four bytes as a big-endian u32, or needs 4 |
| Cursor.BeI16 | src/parser.rs:103 | Reads two bytes as a two's-complement big-endian i16, or needs 2 |
| Cursor.NulIndex | src/parser.rs:84 | The position of the first NUL: no NUL before it, a NUL at it unless it is the end |
| Cursor.NulIndexAt | src/parser.rs:84 | A NUL preceded by no other NUL is the first one |
| Cursor.TakeUntilNul | src/parser.rs:84 | Splits at the first NUL without consuming it; empty input needs 1 byte; input without a NUL is a TakeUntil error at the input |
| Utf8.EncodingLength | src/parser.rs:84 | An encoded code point is at most 4 bytes long, and is one byte long exactly when it is ASCII |
| Utf8.AsciiIsValid | src/parser.rs:84 | Every ASCII text passes the UTF-8 check |
| Parser.U32ToTagType | src/parser.rs:32-44 | A code resolves exactly when it is at most 11, and then it is one of its type's wire codes |
| TypeCodes.CanonicalCode | src/parser.rs:32-44 | Each type's canonical code is the smallest of its wire codes |
| TypeCodes.WireCodesDisjoint | src/parser.rs:40-41 | No wire code belongs to two types |
| TypeCodes.ResolvesExactly | src/parser.rs:32-44 | A code resolves to a type if and only if it is one of that type's wire codes |
| TypeCodes.CanonicalCodeResolves | src/parser.rs:32-44 | Each type's canonical code fits a u32 and resolves back to the type |
| TypeCodes.CollapseIsStable | src/parser.rs:40-41 | Re-encoding a resolved code with its canonical code resolves to the same type |
| Parser.Cstr | src/parser.rs:84 | Succeeds exactly when there is a NUL and the text before it is valid UTF-8; returns that text and leaves the NUL; else a TakeUntil or MapRes error at the input, or needs 1 byte on empty input |
| Parser.TakeCstr | src/parser.rs:87-96 | Succeeds exactly when the text fits the field width; the rest starts after the whole field; a text longer than the field is an ExprOpt error at its NUL |
| Parser.ParseLeadPrefix | src/parser.rs:100-104 | Magic, versions, type and arch are read from bytes 0 to 10; a Tag error at the input exactly when the bytes present disagree with the magic, even fewer than four; a short input that agrees so far needs the end of the first missing field |
| Parser.ParseLeadTrailer | src/parser.rs:106-108 | OS and signature type are read from the first 4 of 20 bytes; the trailer never errors, and a short trailer needs the end of the first missing field |
| Parser.ParseLead | src/parser.rs:98-113 | Success consumes exactly 96 bytes; errors point inside the input; a Tag error happens exactly when the bytes present disagree with the magic, even when fewer than four are present |
| LeadProperties.ParseLeadAccepts | src/parser.rs:98-113 | A Lead is accepted if and only if it has 96 bytes, the magic and a valid name within 66 bytes; the result is the fields at their fixed offsets |
| LeadProperties.ParseLeadOnlyLeads | src/parser.rs:98-113 | Only well-formed Leads are accepted |
| LeadProperties.ParseLeadReadsFields | src/parser.rs:98-113 | A well-formed Lead yields the fields at their fixed offsets and the input after byte 96 |
| LeadProperties.ParseLeadConsumesLead | src/parser.rs:212-226 | A well-formed 96-byte Lead leaves nothing behind |
| LeadProperties.ParseLeadTruncated | src/parser.rs:204-210 | Whenever a Lead parse is Incomplete, the input is shorter than 96 bytes and the count is the end offset of the first field that does not fit, not the full 96 |
| LeadProperties.ParseLeadCut | src/parser.rs:98-113 | A well-formed Lead cut before its name, or after the NUL ending its name, is Incomplete and needs the end of the first field that did not fit |
| LeadProperties.LeadBoundaryIsNext | src/parser.rs:98-108 | That reported offset is the least field boundary past the available length |
| LeadProperties.ParseLeadNameTooLong | src/parser.rs:91 | A name whose NUL lies beyond the 66-byte field is an ExprOpt error at the NUL |
| LeadProperties.ParseLeadCutInsideName | src/parser.rs:84 | A Lead cut inside its name text is a TakeUntil error at the name, not Incomplete |
| Parser.ParseSectionHeader | src/parser.rs:115-124 | Accepts exactly 16 bytes starting with the section magic and yields version, count and size at their offsets; a Tag error at the input exactly when the bytes present disagree with the magic, even fewer than three; a short prologue that agrees so far needs the end of the first missing field |
| Parser.ParseTagTypeField | src/parser.rs:129 | A type field succeeds exactly when its code is at most 11; a larger code is a MapRes error at the field |
| Parser.ParseTagEntry | src/parser.rs:126-134 | Accepts exactly a 16-byte record with a known type code and yields its four fields; an unknown code is a MapRes error at byte 4; a short record needs the end of the first missing field |
| Parser.TagEntriesFrom | src/parser.rs:163 | `n` descriptors read in turn consume exactly `16 * n` bytes |
| Parser.TagEntriesFromRecords | src/parser.rs:163 | A table read in full holds its descriptors record by record |
| Parser.RecordsHoldCons | src/parser.rs:163 | A table's records are its first record followed by the records of the rest |
| Parser.ParseTagEntries | src/parser.rs:163 | The counted table consumes `16 * n` bytes and holds its descriptors record by record; any failure is a Count error at the table's start or Incomplete with no count |
| SectionProperties.TagEntriesFromAccepts | src/parser.rs:163 | A table whose `n` records all have known type codes is read in full |
| SectionProperties.TagEntriesFromRejects | src/parser.rs:163 | A table whose record `k` has an unknown type code, after `k` valid records, fails with an error |
| SectionProperties.TagEntriesFromCut | src/parser.rs:163 | A table shorter than `n` records whose every complete type code field is known runs short (Incomplete), never an error |
| SectionProperties.TagEntriesFromOnPrefix | src/parser.rs:163 | A valid table cut short is Incomplete |
| SectionProperties.RecordsHoldUnique | src/parser.rs:163 | The descriptors a table holds are determined by its bytes |
| SectionProperties.SectionOfUnique | src/parser.rs:160-168 | The section laid out at the start of an input is determined by its bytes |
| Parser.ParseSection | src/parser.rs:160-168 | Success consumes prologue, `16 * count` table bytes and the `size`-byte store, with `count` descriptors and a `size`-byte store; errors are Tag or Count errors inside the input |
| SectionProperties.ParseSectionAccepts | src/parser.rs:160-168 | A section is accepted if and only if its bytes are well formed; it is then the section laid out at fixed offsets, and the rest follows it |
| SectionProperties.ParseSectionReads | src/parser.rs:160-168 | An accepted section is the one laid out at the start of its input |
| SectionProperties.ParseSectionBadMagic | src/parser.rs:117 | A section fails with a Tag error exactly when the bytes present disagree with the section magic, even fewer than three, and then at its start |
| SectionProperties.ParseSectionUnknownType | src/parser.rs:163 | A descriptor with an unknown type code makes the section a Count error at the start of its table |
| SectionProperties.ParseSectionTruncated | src/parser.rs:160-168 | A well-formed section cut short anywhere is Incomplete, never an error. Cut in the 16-byte prologue it needs the end of the first missing prologue field; cut in the descriptor table its need is Unknown, because the counted repetition does not say; cut in the store it needs the whole section, prologue, table and store |
| Parser.Padding | src/parser.rs:175 | The padding after the signature store is less than 8 bytes and brings the store size to a multiple of 8 |
| Parser.ParseSignature | src/parser.rs:174-175 | The signature section and its padding are consumed together; errors point inside the input |
| HeaderProperties.ParseSignatureAccepts | src/parser.rs:174-175 | The signature section and its padding are accepted if and only if the section is well formed and the padding is present |
| HeaderProperties.ParseSectionsAccepts | src/parser.rs:174-176 | Both sections are accepted if and only if each is well formed at its offset |
| HeaderProperties.ParseHeaderAccepts | src/parser.rs:171-179 | A header is accepted if and only if Lead, signature section and header section are well formed at their offsets; the result is those three structures |
| HeaderProperties.ParseHeaderAfterLead | src/parser.rs:171-179 | Once the Lead is read, the header succeeds exactly when its two sections do |
| HeaderProperties.ParseHeaderNoLead | src/parser.rs:173 | Without a Lead there is no header |
| HeaderProperties.ParseHeaderLeadFails | src/parser.rs:171-173 | A Lead cut short makes the header need what the Lead needs; a refused Lead makes the header fail with the Lead's error kind and position |
| HeaderProperties.ParseHeaderConsumes | src/parser.rs:171-179 | A header consumes exactly Lead, signature section, padding and header section; the payload is the rest |
| HeaderProperties.ParseHeaderErrorWithin | src/parser.rs:171-179 | A failed header reports a position inside its input |
| HeaderProperties.HeaderCutAfterLead | src/parser.rs:171-179 | Once the Lead is read, a known shortfall of the two sections becomes a shortfall of the header 96 bytes larger, counted from the start of the package |
| HeaderProperties.ParseHeaderCutInSignature | src/parser.rs:171-179 | After the Lead, a signature section that runs short and needs `k` bytes makes the header need `96 + k` bytes |
| HeaderProperties.SectionsCutInSignature | src/parser.rs:174 | A signature section that runs short leaves the two sections short by the same count |
| HeaderProperties.SectionsCutInPadding | src/parser.rs:175 | Padding that runs short needs the whole signature section and its whole padding |
| HeaderProperties.HeaderSectionAligned | src/parser.rs:175 | The header section starts on an 8-byte boundary of the package, whatever the signature holds |
| HeaderProperties.ParseHeaderBadMagic | src/parser.rs:173 | An input whose bytes present disagree with the Lead magic, however few, is a Tag error at its first byte, classified as BadMagic |
| Parser.ReadUints | src/parser.rs:140-144 | `n` integers of `width` bytes succeed exactly when `width * n` bytes are present; they are the big-endian values in order, each below 256^width; otherwise Incomplete with no count |
| Parser.ReadCstrs | src/parser.rs:145 | `n` texts are read, or a Count error at the input, or Incomplete with no count |
| Parser.Latin1 | src/parser.rs:140 | Each byte becomes the character with the same code |
| Parser.ParseTagVal | src/parser.rs:150-158 | A decoded value leaves the store unconsumed and has the variant of the descriptor's type |
| TagValProperties.ElementsAt | src/parser.rs:140-144 | Element `k` of an integer run is the big-endian value of bytes `width * k` to `width * (k + 1)` |
| TagValProperties.ParseTagValSkips | src/parser.rs:150-158 | A value is read at its offset; on success nothing is consumed, and a shortfall is re-based onto the start of the store |
| TagValProperties.ParseTagValPastEnd | src/parser.rs:153 | An offset past the end of the store needs the offset |
| TagValProperties.ParseTagValNull | src/parser.rs:139 | A Null value reads nothing |
| TagValProperties.ParseTagValBinary | src/parser.rs:146 | A Binary value is the `count` bytes at the offset, or needs the offset plus `count` |
| TagValProperties.TagValueFromNumeric | src/parser.rs:140-144 | Reading a numeric or character value is reading `count` integers of its width |
| TagValProperties.ParseTagValNumeric | src/parser.rs:140-144 | A numeric value is accepted exactly when `width * count` bytes follow the offset; it is those integers in order; otherwise Incomplete with no count |
| TagValProperties.CstrAtNul | src/parser.rs:84 | A text read at a NUL is empty and consumes nothing |
| TagValProperties.CstrsAtNul | src/parser.rs:145 | Texts read at a NUL are all empty and consume nothing |
| Parser.CstrsFrom | src/parser.rs:145 | `n` texts are read in turn; on success there are `n` values, and the rest is inside the input |
| TagValProperties.CstrsFromFirstOnly | src/parser.rs:145 | `n >= 1` texts succeed exactly when the first text is terminated and valid; the first is that text and the others are empty |
| TagValProperties.StringValueFrom | src/parser.rs:145 | A String value is the texts read at its start, or a Count error there, or Incomplete with no count |
| TagValProperties.ParseTagValString | src/parser.rs:145 | A String value of `count >= 1` texts holds the text at the offset and `count - 1` empty texts; an unterminated or invalid text is a Count error at the offset; with no byte after the offset the value is Incomplete with Unknown need |
| TagValProperties.ParseTagValNoStrings | src/parser.rs:145 | A String value of no texts is empty |
| Layout.EncodeLeadRoundTrip | src/parser.rs:98-113 | Decoding an encoded Lead gives it back and leaves what follows |
| Layout.EncodeSectionHeaderRoundTrip | src/parser.rs:115-124 | Decoding an encoded prologue gives it back and leaves what follows |
| Layout.EncodeTagEntryIsRecord | src/parser.rs:126-134 | An encoded descriptor is a record with a known type code that lays out the descriptor |
| Layout.EncodeTagEntryRoundTrip | src/parser.rs:126-134 | Decoding an encoded descriptor gives it back and leaves what follows |
| Layout.EncodedRecordsHold | src/parser.rs:163 | An encoded table has valid records that hold its descriptors |
| Layout.EncodeTagEntriesRoundTrip | src/parser.rs:163 | Decoding an encoded table gives its descriptors back and leaves what follows |
| Layout.EncodeSectionRoundTrip | src/parser.rs:160-168 | Decoding an encoded section gives it back and leaves what follows |
| Layout.EncodeSectionsRoundTrip | src/parser.rs:174-176 | Decoding encoded signature, padding and header sections gives both sections back |
| Layout.EncodeHeader | src/parser.rs:171-179 | An encoded header occupies exactly the header length |
| Layout.EncodeHeaderRoundTrip | src/parser.rs:171-179 | Decoding an encoded header gives it back and leaves the payload |
| Errors.FromIoError | src/error.rs:61-65 | An I/O failure becomes an Io error holding it |
| Errors.FromErrorKind | src/error.rs:68-77 | A parser error is a file error; it is BadMagic exactly for a Tag error and BadHeader otherwise |
| Errors.CauseOf | src/error.rs:52-58 | An error has no cause exactly when it is Internal |
| Errors.Description | src/error.rs:44-50 | An I/O error's description is the I/O failure's own; a file error's is the file error's; an internal error's is "internal error" |
| Errors.Message | src/error.rs:33-41 | A message names its class by prefix and then shows the wrapped error's message; an internal error's is "Internal error" |
| ErrorProperties.CauseRoundTrip | src/error.rs:52-58 | Rewrapping an error's cause gives the error back, and the cause of a wrapped cause is that cause |
| ErrorProperties.FileDescriptionsDistinct | src/error.rs:111-125 | Different file errors have different descriptions |
| ErrorProperties.FileMessagesDistinct | src/error.rs:95-109 | The displayed message of a file error identifies it |
| ErrorProperties.ClassifyLeadError | src/error.rs:68-77 | A failed Lead is BadMagic (the Tag kind) exactly when the bytes present disagree with the Lead magic, even when fewer than four are present; with at least four bytes, exactly when the first four are not the magic |
| ErrorProperties.ClassifySectionError | src/error.rs:68-77 | A failed section is BadMagic (the Tag kind) exactly when the bytes present disagree with the section magic, even when fewer than three are present, and BadHeader (every other kind) otherwise; with at least three bytes, BadMagic exactly when the first three are not the magic |
| ErrorProperties.ClassifyUnknownType | src/error.rs:74 | An unknown type code in a descriptor classifies as BadHeader |
| Examples.LeadOfZeros | src/parser.rs:188-194 | 96 zero bytes are a Tag error at the start |
| Examples.LeadOfNothing | src/parser.rs:196-202 | An empty input needs 4 bytes |
| Examples.ShortInputNotAPackage | src/parser.rs:100 | The three bytes `50 4B 03` already disagree with the Lead magic: the header is a Tag error at them, classified BadMagic |
| Examples.ShortInputAgreeing | src/parser.rs:100 | The two bytes `ED AB` agree with the Lead magic so far and need 4 bytes |
| Examples.ShortSectionMismatch | src/parser.rs:117 | Two zero bytes already disagree with the section magic: a Tag error at them |
| Examples.LeadCutAfterVersion | src/parser.rs:204-210 | The 6-byte prefix `ED AB EE DB 03 00` needs 8 bytes |
| Examples.SampleLeadParses | src/parser.rs:212-226 | The binary package Lead of version 3.0 named `hardlink-1:1.0-23.fc24` decodes to its fields and leaves nothing |
| Examples.SectionHeaderOk | src/parser.rs:228-234 | The signature prologue yields version 1, 8 descriptors and a 0x1484-byte store |
| Examples.TagEntryOk | src/parser.rs:236-242 | The first signature descriptor yields tag 0x3E, Binary, offset 0x1474, count 0x10 |
| Examples.TagEntryUnknownType | src/parser.rs:244-250 | Type code 0xBB is a MapRes error at byte 4 |
| Examples.StringValue | src/parser.rs:252-259 | A one-text String value at offset 2 over `hardlink` and a NUL is `["hardlink"]`, with the store unconsumed |

## Left out

- Reading packages from files is left out. `io::Error` is modelled as the two texts it reports, its message and its description.
- The error trait's `cause` returns a reference to a trait object. It is modelled as an `Option` of the wrapped error.
- Lifetimes and borrowing are left out. Slices of the input are modelled as copies of the bytes.
- The test fixtures are package files the model cannot read. The unit tests over them are restated with the fixture's relevant bytes as hypotheses.
- The full-header test (src/parser.rs:261-278) needs the whole fixture, so it is left out. Its general content is stated by `HeaderProperties.ParseHeaderAccepts` and `Layout.EncodeHeaderRoundTrip`.
- Parser.ParseHeader: no contract of its own. What it accepts, yields, consumes and reports is stated by the `HeaderProperties` lemmas about it.
- Parser.ParseSections: no contract of its own, for the same reason.
- Parser.TagValueFrom: no contract of its own. It is described per type by the `TagValProperties` lemmas.
- Parser.TagValueAt: no contract of its own, for the same reason.
- The library's other error kinds appear only as `Custom`. None of the modelled parsers raises them.
- The payload after the header, tag names, and decoding of tag values during section parsing are not part of the decoder.
- The crate's manifest is not part of this model. The `nom` release is taken to be 1.2 or later, whose literal match compares the bytes present. Under 1.0 and 1.1 an input shorter than a magic number would be `Incomplete` instead of a `Tag` error.
- Integer widths: `count` and `offset` values are converted to `usize` before use. On targets whose `usize` has at least 32 bits the conversion is lossless, so the model uses unbounded naturals.
- The exact need reported when the header section, the second of the two, runs short has no lemma of its own. The proof over the unfolded section parsers costs the solver too much. A cut in the Lead, in the signature section or in its padding is covered by `LeadProperties.ParseLeadCut`, `LeadProperties.ParseLeadCutInsideName`, `HeaderProperties.ParseHeaderLeadFails`, `HeaderProperties.ParseHeaderCutInSignature`, `HeaderProperties.SectionsCutInPadding` and `HeaderProperties.HeaderCutAfterLead`.
