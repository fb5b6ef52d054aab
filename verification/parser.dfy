/**
 The RPM header decoder: the 96-byte Lead, the section prologue, the tag
 descriptor table, the raw store, the whole header (Lead, signature
 section, alignment padding, header section) and the on-demand tag value
 decoder.

 Every parser is a function from the input bytes to an IResult. A parser
 made of several steps runs them in order; when a step runs short of
 input, the number of bytes it needed is re-based onto the start of the
 whole parser (`After`), so a truncated Lead reports the absolute offset
 of the end of the field that did not fit.
 */
module Parser {
  import opened Cursor
  import opened Utf8

  /** The fixed identification block at the start of a package. */
  datatype Lead = Lead(
    major: u8,
    minor: u8,
    rpmType: i16,
    archnum: i16,
    name: Bytes,     // the NUL-terminated text of the 66-byte name field
    osnum: i16,
    signatureType: i16)

  datatype TagType = Null | Char | Int8 | Int16 | Int32 | Int64 | String | Binary

  /** The outcome of resolving a wire type code. */
  datatype Resolution = Resolved(tagtype: TagType) | Unresolved(message: string)

  datatype TagValue =
    | Null
    | Char(chars: seq<char>)
    | Int8(int8s: seq<u8>)
    | Int16(int16s: seq<u16>)
    | Int32(int32s: seq<u32>)
    | Int64(int64s: seq<u64>)
    | String(strings: seq<Bytes>)
    | Binary(bytes: Bytes)

  datatype HeaderSectionHeader = HeaderSectionHeader(version: u8, count: u32, size: u32)

  /** One descriptor: the value of `tag` is `count` items of `tagtype`
      (for Binary, `count` bytes) at `offset` in the section's store. */
  datatype TagEntry = TagEntry(tag: u32, tagtype: TagType, offset: u32, count: u32)

  datatype HeaderSection = HeaderSection(hdr: HeaderSectionHeader, tags: seq<TagEntry>, store: Bytes)

  /** The decoded header: Lead, signature section and header section. */
  datatype Header = Header(lead: Lead, signature: HeaderSection, header: HeaderSection)

  const LeadMagic: Bytes := [0xED, 0xAB, 0xEE, 0xDB]
  const SectionMagic: Bytes := [0x8E, 0xAD, 0xE8]
  const LeadSize: nat := 0x60
  const NameWidth: nat := 66
  const SectionHeaderSize: nat := 16
  const TagEntrySize: nat := 16

  // ---------------------------------------------------------------------
  // Wire type codes

  /** The wire type codes that resolve to each variant. */
  function WireCodes(t: TagType): set<nat> {
    match t
    case Null => {0}
    case Char => {1}
    case Int8 => {2}
    case Int16 => {3}
    case Int32 => {4}
    case Int64 => {5}
    case String => {6, 8, 9}
    case Binary => {7, 10, 11}
  }

  /** Resolves a wire type code; codes above 11 are unknown. */
  function U32ToTagType(code: u32): (r: Resolution)
    ensures r.Resolved? <==> code <= 11
    ensures r.Resolved? ==> code in WireCodes(r.tagtype)
  {
    match code
    case 0 => Resolved(TagType.Null)
    case 1 => Resolved(TagType.Char)
    case 2 => Resolved(TagType.Int8)
    case 3 => Resolved(TagType.Int16)
    case 4 => Resolved(TagType.Int32)
    case 5 => Resolved(TagType.Int64)
    case 6 | 8 | 9 => Resolved(TagType.String)
    case 7 | 10 | 11 => Resolved(TagType.Binary)
    case _ => Unresolved(UnknownTagType)
  }

  /** The message of an unknown type code. */
  const UnknownTagType: string := "Unknown tag type"

  // ---------------------------------------------------------------------
  // NUL-terminated text

  /** The text up to the first NUL, which is left in the input. The text
      must be valid UTF-8, else a MapRes error at the input. */
  function Cstr(i: Bytes): (r: IResult<Bytes>)
    ensures r.Done? <==> NulIndex(i) < |i| && ValidUtf8(i[..NulIndex(i)])
    ensures r.Done? ==> r.value == i[..NulIndex(i)] && r.rest == i[NulIndex(i)..]
    ensures r.Done? ==> |r.rest| > 0 && r.rest[0] == 0
    ensures r.Error? ==> r.at == i && (r.kind == TakeUntil || r.kind == MapRes)
    ensures r.Incomplete? <==> |i| == 0
    ensures r.Incomplete? ==> r.needed == Size(1)
  {
    match TakeUntilNul(i)
    case Done(rest, s) => if ValidUtf8(s) then Done(rest, s) else Error(MapRes, i)
    case Error(k, at) => Error(k, at)
    case Incomplete(n) => Incomplete(n)
  }

  /** A fixed-width field of `maxlen` bytes holding NUL-terminated text:
      the text, then the NUL and the padding skipped up to the field width. */
  function TakeCstr(i: Bytes, maxlen: nat): (r: IResult<Bytes>)
    ensures r.Done? <==>
      NulIndex(i) < |i| && ValidUtf8(i[..NulIndex(i)]) && NulIndex(i) <= maxlen <= |i|
    ensures r.Done? ==>
      && r.value == i[..NulIndex(i)]
      && |r.value| <= maxlen
      && r.rest == i[maxlen..]
    ensures maxlen < NulIndex(i) < |i| ==> r.Error?
    ensures maxlen < NulIndex(i) < |i| && ValidUtf8(i[..NulIndex(i)]) ==>
      r == Error(ExprOpt, i[NulIndex(i)..])
    ensures r.Error? ==> IsSuffix(r.at, i) && r.kind in {TakeUntil, MapRes, ExprOpt}
    ensures r.Incomplete? ==>
      || (|i| == 0 && r.needed == Size(1))
      || (0 < |i| < maxlen && r.needed == Size(maxlen))
  {
    var (r0, s) :- Cstr(i);
    if maxlen < |s| then Error(ExprOpt, r0)
    else
      var (r1, _) :- Take(r0, maxlen - |s|).After(|i| - |r0|);
      Done(r1, s)
  }

  // ---------------------------------------------------------------------
  // Lead

  /** `b` is the least element of `bounds` past `n`: when a parser whose
      fields end at `bounds` runs out of input after `n` bytes, `b` is the
      end of the first field that did not fit. */
  predicate IsNextBoundary(bounds: seq<nat>, n: nat, b: nat) {
    b in bounds && n < b && forall c :: c in bounds && n < c ==> b <= c
  }

  /** The end offsets at which parsing a Lead can run out of input: magic,
      major, minor, type, arch, the first byte of the name, the name field,
      os, signature type and the reserved bytes. */
  const LeadBoundaries: seq<nat> := [4, 5, 6, 8, 10, 11, 76, 78, 80, 96]

  /** The count a Lead parse reports when only `n` bytes are available:
      the end of the first field that does not fit. */
  function LeadBoundary(n: nat): nat
    requires n < LeadSize
  {
    if n < 4 then 4
    else if n < 5 then 5
    else if n < 6 then 6
    else if n < 8 then 8
    else if n < 10 then 10
    else if n < 11 then 11
    else if n < 76 then 76
    else if n < 78 then 78
    else if n < 80 then 80
    else 96
  }

  /** The fields of a Lead before its name, in wire order. */
  type LeadPrefixFields = (u8, u8, i16, i16)

  /** The first 10 bytes of a Lead: magic, major, minor, type and arch. */
  function ParseLeadPrefix(i: Bytes): (r: IResult<LeadPrefixFields>)
    ensures r.Done? <==> |i| >= 10 && i[..4] == LeadMagic
    ensures r.Done? ==> r.rest == i[10..]
    ensures r.Done? ==> r.value == (i[4] as nat, i[5] as nat, I16Of(i[6..8]), I16Of(i[8..10]))
    ensures r.Error? <==> ClashesWith(i, LeadMagic)
    ensures r.Error? ==> r == Error(Tag, i)
    ensures r.Incomplete? ==> |i| < 10 && r.needed == Size(LeadBoundary(|i|))
  {
    var (r0, _) :- TagBytes(i, LeadMagic);
    var (r1, major) :- BeU8(r0).After(|i| - |r0|);
    var (r2, minor) :- BeU8(r1).After(|i| - |r1|);
    var (r3, rpmType) :- BeI16(r2).After(|i| - |r2|);
    var (r4, archnum) :- BeI16(r3).After(|i| - |r3|);
    assert r2[..2] == i[6..8] && r3[..2] == i[8..10];
    Done(r4, (major, minor, rpmType, archnum))
  }

  /** The last 20 bytes of a Lead: os, signature type and 16 reserved bytes. */
  function ParseLeadTrailer(i: Bytes): (r: IResult<(i16, i16)>)
    ensures r.Done? <==> |i| >= 20
    ensures r.Done? ==> r.rest == i[20..] && r.value == (I16Of(i[..2]), I16Of(i[2..4]))
    ensures !r.Error?
    ensures r.Incomplete? ==> |i| < 20 && r.needed == Size(LeadBoundary(76 + |i|) - 76)
  {
    var (r0, osnum) :- BeI16(i);
    var (r1, signatureType) :- BeI16(r0).After(|i| - |r0|);
    var (r2, _) :- Take(r1, 16).After(|i| - |r1|);
    assert r0[..2] == i[2..4];
    Done(r2, (osnum, signatureType))
  }

  /** The Lead as laid out at fixed offsets of `i`. */
  function LeadAt(i: Bytes): Lead
    requires |i| >= LeadSize && NulIndex(i[10..]) <= NameWidth
  {
    Lead(i[4] as nat, i[5] as nat,
         I16Of(i[6..8]), I16Of(i[8..10]),
         i[10..10 + NulIndex(i[10..])],
         I16Of(i[76..78]), I16Of(i[78..80]))
  }

  /** The conditions under which `i` starts with a Lead. */
  predicate IsLead(i: Bytes) {
    && |i| >= LeadSize
    && i[..4] == LeadMagic
    && NulIndex(i[10..]) <= NameWidth
    && ValidUtf8(i[10..10 + NulIndex(i[10..])])
  }

  /** The Lead: its prefix, the 66-byte name field, its trailer. The source
      runs these fields as one sequence of steps; grouping them changes no
      outcome, since each group re-bases its short counts onto its own start
      and the enclosing sequence adds the group's offset. */
  function ParseLead(i: Bytes): (r: IResult<Lead>)
    ensures r.Done? ==> |i| >= LeadSize && r.rest == i[LeadSize..]
    ensures r.Error? ==> IsSuffix(r.at, i)
    ensures r.Error? && r.kind == Tag <==> ClashesWith(i, LeadMagic)
    ensures r.Error? && r.kind == Tag ==> r.at == i
  {
    var (r0, prefix) :- ParseLeadPrefix(i);
    var (r1, name) :- TakeCstr(r0, NameWidth).After(|i| - |r0|);
    var (r2, trailer) :- ParseLeadTrailer(r1).After(|i| - |r1|);
    Done(r2, Lead(prefix.0, prefix.1, prefix.2, prefix.3, name, trailer.0, trailer.1))
  }

  // ---------------------------------------------------------------------
  // Sections

  /** The section prologue as laid out at fixed offsets of `i`. */
  function SectionHeaderAt(i: Bytes): HeaderSectionHeader
    requires |i| >= SectionHeaderSize
  {
    HeaderSectionHeader(i[3] as nat, U32Of(i[8..12]), U32Of(i[12..16]))
  }

  /** The count a section prologue parse reports when only `n` bytes are
      available: the end of the first field that does not fit. */
  function SectionHeaderBoundary(n: nat): nat
    requires n < SectionHeaderSize
  {
    if n < 3 then 3
    else if n < 4 then 4
    else if n < 8 then 8
    else if n < 12 then 12
    else 16
  }

  /** The 16-byte section prologue: magic, version, 4 reserved bytes, tag
      count and store size. */
  function ParseSectionHeader(i: Bytes): (r: IResult<HeaderSectionHeader>)
    ensures r.Done? <==> |i| >= SectionHeaderSize && i[..3] == SectionMagic
    ensures r.Done? ==> r.rest == i[SectionHeaderSize..] && r.value == SectionHeaderAt(i)
    ensures r.Error? <==> ClashesWith(i, SectionMagic)
    ensures r.Error? ==> r == Error(Tag, i)
    ensures r.Incomplete? ==> |i| < SectionHeaderSize && r.needed == Size(SectionHeaderBoundary(|i|))
  {
    var (r0, _) :- TagBytes(i, SectionMagic);
    var (r1, version) :- BeU8(r0).After(|i| - |r0|);
    var (r2, _) :- Take(r1, 4).After(|i| - |r1|);
    var (r3, count) :- BeU32(r2).After(|i| - |r2|);
    var (r4, size) :- BeU32(r3).After(|i| - |r3|);
    assert r2[..4] == i[8..12] && r3[..4] == i[12..16];
    Done(r4, HeaderSectionHeader(version, count, size))
  }

  /** A type code field: a big-endian u32 resolved to a TagType. An unknown
      code is a MapRes error at the field. */
  function ParseTagTypeField(i: Bytes): (r: IResult<TagType>)
    ensures r.Done? <==> |i| >= 4 && BigEndian(i[..4]) <= 11
    ensures r.Done? ==> r.rest == i[4..] && r.value == U32ToTagType(U32Of(i[..4])).tagtype
    ensures r.Error? <==> |i| >= 4 && BigEndian(i[..4]) > 11
    ensures r.Error? ==> r == Error(MapRes, i)
    ensures r.Incomplete? ==> |i| < 4 && r.needed == Size(4)
  {
    match BeU32(i)
    case Done(rest, code) =>
      (match U32ToTagType(code)
       case Resolved(t) => Done(rest, t)
       case Unresolved(_) => Error(MapRes, i))
    case Error(k, at) => Error(k, at)
    case Incomplete(n) => Incomplete(n)
  }

  /** A 16-byte descriptor record whose type code is known. */
  predicate IsTagEntry(rec: Bytes) {
    |rec| == TagEntrySize && BigEndian(rec[4..8]) <= 11
  }

  /** The descriptor as laid out at fixed offsets of the record `rec`. */
  function TagEntryAt(rec: Bytes): TagEntry
    requires IsTagEntry(rec)
  {
    TagEntry(U32Of(rec[..4]), U32ToTagType(U32Of(rec[4..8])).tagtype, U32Of(rec[8..12]), U32Of(rec[12..16]))
  }

  /** The count a descriptor parse reports when only `n` bytes are available. */
  function TagEntryBoundary(n: nat): nat
    requires n < TagEntrySize
  {
    if n < 4 then 4 else if n < 8 then 8 else if n < 12 then 12 else 16
  }

  /** One 16-byte descriptor: tag, type code, offset and count. */
  function ParseTagEntry(i: Bytes): (r: IResult<TagEntry>)
    ensures r.Done? <==> |i| >= TagEntrySize && IsTagEntry(i[..TagEntrySize])
    ensures r.Done? ==> r.rest == i[TagEntrySize..] && r.value == TagEntryAt(i[..TagEntrySize])
    ensures r.Error? <==> |i| >= 8 && BigEndian(i[4..8]) > 11
    ensures r.Error? ==> r == Error(MapRes, i[4..])
    ensures r.Incomplete? ==> |i| < TagEntrySize && r.needed == Size(TagEntryBoundary(|i|))
  {
    var (r0, tag) :- BeU32(i);
    assert |i| >= 8 ==> r0[..4] == i[4..8];
    assert |i| >= TagEntrySize ==> i[..TagEntrySize][4..8] == i[4..8];
    var (r1, tagtype) :- ParseTagTypeField(r0).After(|i| - |r0|);
    var (r2, offset) :- BeU32(r1).After(|i| - |r1|);
    var (r3, count) :- BeU32(r2).After(|i| - |r2|);
    ghost var rec := i[..TagEntrySize];
    assert rec[..4] == i[..4] && rec[8..12] == i[8..12] && rec[12..16] == i[12..16];
    assert r1[..4] == i[8..12] && r2[..4] == i[12..16];
    Done(r3, TagEntry(tag, tagtype, offset, count))
  }

  /** The `k`-th 16-byte record of a descriptor table starting at `i`. */
  function Record(i: Bytes, k: nat): Bytes
    requires TagEntrySize * (k + 1) <= |i|
  {
    i[TagEntrySize * k..TagEntrySize * (k + 1)]
  }

  /** `entries` are the descriptors recorded, in order, at the start of `i`. */
  predicate RecordsHold(i: Bytes, entries: seq<TagEntry>) {
    && |i| >= TagEntrySize * |entries|
    && forall k :: 0 <= k < |entries| ==>
         IsTagEntry(Record(i, k)) && entries[k] == TagEntryAt(Record(i, k))
  }

  lemma RecordsHoldCons(i: Bytes, entry: TagEntry, entries: seq<TagEntry>)
    requires |i| >= TagEntrySize && IsTagEntry(i[..TagEntrySize])
    requires entry == TagEntryAt(i[..TagEntrySize])
    requires RecordsHold(i[TagEntrySize..], entries)
    ensures RecordsHold(i, [entry] + entries)
  {
    var all := [entry] + entries;
    forall k | 0 <= k < |all|
      ensures IsTagEntry(Record(i, k)) && all[k] == TagEntryAt(Record(i, k))
    {
      if k > 0 {
        assert Record(i[TagEntrySize..], k - 1) == Record(i, k);
      }
    }
  }

  /** `n` descriptors, each parsed in turn; the first failure is returned as is. */
  function TagEntriesFrom(i: Bytes, n: nat): (r: IResult<seq<TagEntry>>)
    decreases n, 1
    ensures r.Done? ==> |i| >= TagEntrySize * n && r.rest == i[TagEntrySize * n..] && |r.value| == n
  {
    if n == 0 then Done(i, []) else TagEntriesStep(i, n)
  }

  /** A table of `n > 0` records: the first record, then the other `n - 1`. */
  function TagEntriesStep(i: Bytes, n: nat): (r: IResult<seq<TagEntry>>)
    requires n > 0
    decreases n, 0
    ensures r.Done? ==> |i| >= TagEntrySize * n && r.rest == i[TagEntrySize * n..] && |r.value| == n
  {
    var (r0, entry) :- ParseTagEntry(i);
    var (r1, entries) :- TagEntriesFrom(r0, n - 1);
    SuffixOfSuffix(i, TagEntrySize, TagEntrySize * (n - 1));
    Done(r1, [entry] + entries)
  }

  /** A table read in full holds, record by record, the descriptors it returns. */
  lemma {:induction false} TagEntriesFromRecords(i: Bytes, n: nat)
    ensures TagEntriesFrom(i, n).Done? ==> RecordsHold(i, TagEntriesFrom(i, n).value)
    decreases n
  {
    if n > 0 && TagEntriesFrom(i, n).Done? {
      TagEntriesFromRecords(i[TagEntrySize..], n - 1);
      RecordsFromRest(i, n);
    }
  }

  /** The records of a table read in full are its first record and the records of the rest. */
  lemma RecordsFromRest(i: Bytes, n: nat)
    requires n > 0 && TagEntriesFrom(i, n).Done? && |i| >= TagEntrySize
    requires TagEntriesFrom(i[TagEntrySize..], n - 1).Done? ==>
      RecordsHold(i[TagEntrySize..], TagEntriesFrom(i[TagEntrySize..], n - 1).value)
    ensures RecordsHold(i, TagEntriesFrom(i, n).value)
  {
    TagEntriesFromDone(i, n);
    RecordsHoldCons(i, TagEntryAt(i[..TagEntrySize]), TagEntriesFrom(i[TagEntrySize..], n - 1).value);
  }

  /** A table read in full is its first record followed by the rest of the table. */
  lemma TagEntriesFromDone(i: Bytes, n: nat)
    requires n > 0 && TagEntriesFrom(i, n).Done?
    ensures |i| >= TagEntrySize && IsTagEntry(i[..TagEntrySize])
    ensures TagEntriesFrom(i[TagEntrySize..], n - 1).Done?
    ensures TagEntriesFrom(i, n).value
         == [TagEntryAt(i[..TagEntrySize])] + TagEntriesFrom(i[TagEntrySize..], n - 1).value
  {
    assert ParseTagEntry(i).Done?;
  }

  /** The descriptor table of `n` entries, read as a counted repetition: any
      failing entry makes the whole table a Count error at its start, and a
      short table is Incomplete with no count. */
  function ParseTagEntries(i: Bytes, n: nat): (r: IResult<seq<TagEntry>>)
    ensures r.Done? ==> |i| >= TagEntrySize * n && r.rest == i[TagEntrySize * n..] && |r.value| == n
    ensures r.Done? ==> RecordsHold(i, r.value)
    ensures r.Error? ==> r == Error(Count, i)
    ensures r.Incomplete? ==> r == Incomplete(Unknown)
  {
    TagEntriesFromRecords(i, n);
    match TagEntriesFrom(i, n)
    case Done(rest, entries) => Done(rest, entries)
    case Error(_, _) => Error(Count, i)
    case Incomplete(_) => Incomplete(Unknown)
  }

  /** The number of bytes a section with `count` descriptors and a `size`-byte store occupies. */
  function SectionLength(count: nat, size: nat): nat {
    SectionHeaderSize + TagEntrySize * count + size
  }

  /** A section: the prologue, `count` descriptors, then the `size`-byte store.
      No tag value is decoded here. */
  function ParseSection(i: Bytes): (r: IResult<HeaderSection>)
    ensures r.Done? ==>
      && |i| >= SectionLength(r.value.hdr.count, r.value.hdr.size)
      && r.rest == i[SectionLength(r.value.hdr.count, r.value.hdr.size)..]
    ensures r.Done? ==> |r.value.tags| == r.value.hdr.count && |r.value.store| == r.value.hdr.size
    ensures r.Error? ==> IsSuffix(r.at, i) && r.kind in {Tag, Count}
  {
    var (r0, hdr) :- ParseSectionHeader(i);
    var (r1, tags) :- ParseTagEntries(r0, hdr.count).After(|i| - |r0|);
    var (r2, store) :- Take(r1, hdr.size).After(|i| - |r1|);
    Done(r2, HeaderSection(hdr, tags, store))
  }

  // ---------------------------------------------------------------------
  // The whole header

  /** The number of bytes skipped after a signature store of `size` bytes so
      that the header section starts on an 8-byte boundary. */
  function Padding(size: u32): (p: nat)
    ensures p < 8 && (size + p) % 8 == 0
    ensures p == (8 - size % 8) % 8
  {
    if size % 8 != 0 then 8 - size % 8 else 0
  }

  /** The number of bytes a section occupies. */
  function Span(s: HeaderSection): nat {
    SectionLength(s.hdr.count, s.hdr.size)
  }

  /** The number of bytes the whole header occupies: Lead, signature
      section, padding and header section. */
  function HeaderLength(h: Header): nat {
    LeadSize + Span(h.signature) + Padding(h.signature.hdr.size) + Span(h.header)
  }

  /** Lead, signature section, alignment padding, header section; the rest
      of the input is the payload. */
  function ParseHeader(i: Bytes): (r: IResult<Header>)
  {
    match ParseLead(i)
    case Error(k, a) => Error(k, a)
    case Incomplete(n) => Incomplete(n)
    case Done(r0, lead) =>
      match ParseSections(r0)
      case Error(k, a) =>
        Error(k, a)
      case Incomplete(n) => Incomplete(n).After(LeadSize)
      case Done(r1, sections) =>
        Done(r1, Header(lead, sections.0, sections.1))
  }

  /** The signature section, the padding that aligns the header section, and the header section. */
  function ParseSections(i: Bytes): (r: IResult<(HeaderSection, HeaderSection)>)
  {
    match ParseSignature(i)
    case Error(k, a) => Error(k, a)
    case Incomplete(n) => Incomplete(n)
    case Done(r1, signature) =>
      match ParseSection(r1)
      case Error(k, a) =>
        Error(k, a)
      case Incomplete(n) => Incomplete(n).After(|i| - |r1|)
      case Done(r2, header) =>
        Done(r2, (signature, header))
  }

  /** The signature section followed by the padding that aligns what comes next. */
  function ParseSignature(i: Bytes): (r: IResult<HeaderSection>)
    ensures r.Done? ==> |i| >= Span(r.value) + Padding(r.value.hdr.size)
    ensures r.Done? ==> r.rest == i[Span(r.value) + Padding(r.value.hdr.size)..]
    ensures r.Error? ==> IsSuffix(r.at, i)
  {
    var (r1, signature) :- ParseSection(i);
    var (r2, _) :- Take(r1, Padding(signature.hdr.size)).After(|i| - |r1|);
    SuffixOfSuffix(i, Span(signature), Padding(signature.hdr.size));
    Done(r2, signature)
  }

  // ---------------------------------------------------------------------
  // Tag values

  /** The byte width of one element of a numeric or character type. */
  function Width(t: TagType): nat {
    match t
    case Char => 1
    case Int8 => 1
    case Int16 => 2
    case Int32 => 4
    case Int64 => 8
    case _ => 0
  }

  predicate IsNumeric(t: TagType) {
    t.Char? || t.Int8? || t.Int16? || t.Int32? || t.Int64?
  }

  /** `values` are the big-endian `width`-byte integers, in order, at the
      start of `i`. */
  predicate ElementsHold(i: Bytes, values: seq<nat>, width: nat)
    decreases |values|
  {
    |values| == 0 ||
    (|i| >= width && values[0] == BigEndian(i[..width]) && ElementsHold(i[width..], values[1..], width))
  }

  /** `n` big-endian integers of `width` bytes each, read as a counted
      repetition: input too short for all of them is Incomplete with no count. */
  function ReadUints(i: Bytes, n: nat, width: nat): (r: IResult<seq<nat>>)
    decreases n
    ensures r.Done? <==> width * n <= |i|
    ensures r.Done? ==> r.rest == i[width * n..] && |r.value| == n && ElementsHold(i, r.value, width)
    ensures r.Done? ==> forall k :: 0 <= k < n ==> r.value[k] < Pow256(width)
    ensures !r.Done? ==> r == Incomplete(Unknown)
  {
    if n == 0 then Done(i, [])
    else
      assert width * n == width + width * (n - 1);
      match BeUint(i, width)
      case Done(r0, v) =>
        (match ReadUints(r0, n - 1, width)
         case Done(r1, vs) =>
           assert ([v] + vs)[1..] == vs;
           SuffixOfSuffix(i, width, width * (n - 1));
           Done(r1, [v] + vs)
         case _ => Incomplete(Unknown))
      case _ => Incomplete(Unknown)
  }

  /** `n` NUL-terminated texts read back to back, as a counted repetition.
      Since a text does not consume its NUL, every text after the first
      starts at that NUL. */
  function CstrsFrom(i: Bytes, n: nat): (r: IResult<seq<Bytes>>)
    decreases n
    ensures r.Done? ==> IsSuffix(r.rest, i) && |r.value| == n
  {
    if n == 0 then Done(i, [])
    else
      var (r0, s) :- Cstr(i);
      var (r1, ss) :- CstrsFrom(r0, n - 1);
      Done(r1, [s] + ss)
  }

  function ReadCstrs(i: Bytes, n: nat): (r: IResult<seq<Bytes>>)
    ensures r.Done? ==> IsSuffix(r.rest, i) && |r.value| == n
    ensures r.Error? ==> r == Error(Count, i)
    ensures r.Incomplete? ==> r == Incomplete(Unknown)
  {
    match CstrsFrom(i, n)
    case Done(rest, ss) => Done(rest, ss)
    case Error(_, _) => Error(Count, i)
    case Incomplete(_) => Incomplete(Unknown)
  }

  /** The byte values as characters, one per byte. */
  function Latin1(values: seq<nat>): (cs: seq<char>)
    requires forall k :: 0 <= k < |values| ==> values[k] < 0x100
    ensures |cs| == |values|
    ensures forall k :: 0 <= k < |values| ==> cs[k] as int == values[k]
  {
    seq(|values|, k requires 0 <= k < |values| => values[k] as char)
  }

  /** The value of descriptor `t` read from the start of `i`. */
  function TagValueFrom(i: Bytes, t: TagEntry): (r: IResult<TagValue>)
  {
    Pow256Values();
    match t.tagtype
    case Null => Done(i, TagValue.Null)
    case Char =>
      var (rest, vs) :- ReadUints(i, t.count, 1);
      Done(rest, TagValue.Char(Latin1(vs)))
    case Int8 =>
      var (rest, vs) :- ReadUints(i, t.count, 1);
      Done(rest, TagValue.Int8(vs))
    case Int16 =>
      var (rest, vs) :- ReadUints(i, t.count, 2);
      Done(rest, TagValue.Int16(vs))
    case Int32 =>
      var (rest, vs) :- ReadUints(i, t.count, 4);
      Done(rest, TagValue.Int32(vs))
    case Int64 =>
      var (rest, vs) :- ReadUints(i, t.count, 8);
      Done(rest, TagValue.Int64(vs))
    case String =>
      var (rest, ss) :- ReadCstrs(i, t.count);
      Done(rest, TagValue.String(ss))
    case Binary =>
      var (rest, bs) :- Take(i, t.count);
      Done(rest, TagValue.Binary(bs))
  }

  /** Skips `t.offset` bytes of the store, then reads the value. */
  function TagValueAt(store: Bytes, t: TagEntry): (r: IResult<TagValue>)
  {
    var (r0, _) :- Take(store, t.offset);
    TagValueFrom(r0, t).After(|store| - |r0|)
  }

  /** The variant of `v` is the one for type `t`. */
  predicate Matches(t: TagType, v: TagValue) {
    match t
    case Null => v.Null?
    case Char => v.Char?
    case Int8 => v.Int8?
    case Int16 => v.Int16?
    case Int32 => v.Int32?
    case Int64 => v.Int64?
    case String => v.String?
    case Binary => v.Binary?
  }

  /** The value of descriptor `t` in `store`, read without consuming anything:
      on success the remaining input is the whole store. */
  function ParseTagVal(store: Bytes, t: TagEntry): (r: IResult<TagValue>)
    ensures r.Done? ==> r.rest == store && Matches(t.tagtype, r.value)
  {
    match TagValueAt(store, t)
    case Done(_, v) => Done(store, v)
    case Error(k, at) => Error(k, at)
    case Incomplete(n) => Incomplete(n)
  }
}
