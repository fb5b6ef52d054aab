/**
 The on-disk layout written out: encoders for the Lead, the section
 prologue, descriptor records, sections and whole headers, each the
 inverse of its parser. Reserved bytes and padding are written as zeros
 and each type is written with its canonical code.
 */
module Layout {
  import opened Cursor
  import opened Utf8
  import opened Parser
  import opened TypeCodes
  import opened LeadProperties
  import opened SectionProperties

  function Zeros(n: nat): (z: Bytes)
    ensures |z| == n && forall j :: 0 <= j < n ==> z[j] == 0
  {
    seq(n, _ => 0)
  }

  /** The byte holding the 8-bit value `x`. */
  function ByteOf(x: u8): (b: byte)
    ensures b as nat == x
  {
    DivideByByte(x, 1);
    (x % 256) as byte
  }

  /** The two's-complement 16-bit pattern of `x`. */
  function U16OfI16(x: i16): (u: u16)
    ensures ToI16(u) == x
  {
    if x < 0 then x + 0x1_0000 else x
  }

  function I16Bytes(x: i16): (b: Bytes)
    ensures |b| == 2 && I16Of(b) == x
  {
    Pow256Values();
    EncodeBigEndian(U16OfI16(x), 2)
  }

  function U32Bytes(x: u32): (b: Bytes)
    ensures |b| == 4 && U32Of(b) == x
  {
    Pow256Values();
    EncodeBigEndian(x, 4)
  }

  // ---------------------------------------------------------------------
  // The Lead

  /** A name the Lead can carry: NUL-free UTF-8 text with room for its NUL
      in the 66-byte field. */
  predicate IsName(name: Bytes) {
    && |name| < NameWidth
    && ValidUtf8(name)
    && forall j :: 0 <= j < |name| ==> name[j] != 0
  }

  function LeadPrefixBytes(l: Lead): (b: Bytes)
    ensures |b| == 10
  {
    LeadMagic + [ByteOf(l.major), ByteOf(l.minor)] + I16Bytes(l.rpmType) + I16Bytes(l.archnum)
  }

  function NameField(name: Bytes): (b: Bytes)
    requires |name| < NameWidth
    ensures |b| == NameWidth
  {
    name + Zeros(NameWidth - |name|)
  }

  function LeadTrailerBytes(l: Lead): (b: Bytes)
    ensures |b| == 20
  {
    I16Bytes(l.osnum) + I16Bytes(l.signatureType) + Zeros(16)
  }

  /** The 96 bytes of `l`: the name NUL-padded, the reserved bytes zero. */
  function EncodeLead(l: Lead): (b: Bytes)
    requires |l.name| < NameWidth
    ensures |b| == LeadSize
  {
    LeadPrefixBytes(l) + NameField(l.name) + LeadTrailerBytes(l)
  }

  /** A slice of a slice is a slice of the whole. */
  lemma SliceOfSlice(i: Bytes, a: nat, b: nat, c: nat, d: nat)
    requires a <= b <= |i| && c <= d <= b - a
    ensures i[a..b][c..d] == i[a + c..a + d]
  {
    forall k | 0 <= k < d - c
      ensures i[a..b][c..d][k] == i[a + c..a + d][k]
    {
    }
  }

  lemma LeadPieces(l: Lead, rest: Bytes)
    requires |l.name| < NameWidth
    ensures var i := EncodeLead(l) + rest;
      && i[..10] == LeadPrefixBytes(l)
      && i[10..76] == NameField(l.name)
      && i[76..96] == LeadTrailerBytes(l)
      && i[LeadSize..] == rest
  {
    var i := EncodeLead(l) + rest;
    var p, f, q := LeadPrefixBytes(l), NameField(l.name), LeadTrailerBytes(l);
    assert i == p + f + q + rest;
  }

  lemma LeadPrefixLayout(l: Lead)
    ensures var p := LeadPrefixBytes(l);
      && p[..4] == LeadMagic && p[4] as nat == l.major && p[5] as nat == l.minor
      && p[6..8] == I16Bytes(l.rpmType) && p[8..10] == I16Bytes(l.archnum)
  {
    FieldsOf(LeadMagic, ByteOf(l.major), ByteOf(l.minor), I16Bytes(l.rpmType), I16Bytes(l.archnum));
  }

  lemma FieldsOf(m: Bytes, x: byte, y: byte, a: Bytes, b: Bytes)
    requires |m| == 4 && |a| == 2 && |b| == 2
    ensures var p := m + [x, y] + a + b;
      p[..4] == m && p[4] == x && p[5] == y && p[6..8] == a && p[8..10] == b
  {
  }

  lemma LeadPrefixFields(l: Lead, i: Bytes)
    requires |i| >= 10 && i[..10] == LeadPrefixBytes(l)
    ensures i[..4] == LeadMagic && i[4] as nat == l.major && i[5] as nat == l.minor
    ensures I16Of(i[6..8]) == l.rpmType && I16Of(i[8..10]) == l.archnum
  {
    LeadPrefixLayout(l);
    SliceOfSlice(i, 0, 10, 0, 4);
    SliceOfSlice(i, 0, 10, 6, 8);
    SliceOfSlice(i, 0, 10, 8, 10);
    assert i[4] == i[..10][4] && i[5] == i[..10][5];
  }

  lemma LeadTrailerLayout(l: Lead)
    ensures var q := LeadTrailerBytes(l);
      q[..2] == I16Bytes(l.osnum) && q[2..4] == I16Bytes(l.signatureType)
  {
    var a, b := I16Bytes(l.osnum), I16Bytes(l.signatureType);
    assert LeadTrailerBytes(l) == a + b + Zeros(16);
  }

  lemma LeadTrailerFields(l: Lead, i: Bytes)
    requires |i| >= LeadSize && i[76..96] == LeadTrailerBytes(l)
    ensures I16Of(i[76..78]) == l.osnum && I16Of(i[78..80]) == l.signatureType
  {
    LeadTrailerLayout(l);
    SliceOfSlice(i, 76, 96, 0, 2);
    SliceOfSlice(i, 76, 96, 2, 4);
  }

  /** The name is read back up to its NUL. */
  lemma NameFieldText(name: Bytes, f: Bytes)
    requires |name| < NameWidth && forall j :: 0 <= j < |name| ==> name[j] != 0
    requires |f| >= NameWidth && f[..NameWidth] == NameField(name)
    ensures NulIndex(f) == |name| && f[..|name|] == name
  {
    assert f[|name|] == NameField(name)[|name|] == 0;
    forall j | 0 <= j < |name|
      ensures f[j] != 0
    {
      assert f[j] == NameField(name)[j] == name[j];
    }
    NulIndexAt(f, |name|);
    assert f[..|name|] == NameField(name)[..|name|];
  }

  /** Parsing an encoded Lead gives it back and leaves what follows it. */
  lemma EncodeLeadRoundTrip(l: Lead, rest: Bytes)
    requires IsName(l.name)
    ensures ParseLead(EncodeLead(l) + rest) == Done(rest, l)
  {
    var i := EncodeLead(l) + rest;
    LeadPieces(l, rest);
    LeadPrefixFields(l, i);
    LeadTrailerFields(l, i);
    assert i[10..][..NameWidth] == i[10..76];
    NameFieldText(l.name, i[10..]);
    assert i[10..10 + |l.name|] == i[10..][..|l.name|];
    assert IsLead(i);
    ParseLeadAccepts(i);
  }

  // ---------------------------------------------------------------------
  // Sections

  function EncodeSectionHeader(h: HeaderSectionHeader): (b: Bytes)
    ensures |b| == SectionHeaderSize
  {
    SectionMagic + [ByteOf(h.version)] + Zeros(4) + U32Bytes(h.count) + U32Bytes(h.size)
  }

  /** Parsing an encoded prologue gives it back and leaves what follows it. */
  lemma EncodeSectionHeaderRoundTrip(h: HeaderSectionHeader, rest: Bytes)
    ensures ParseSectionHeader(EncodeSectionHeader(h) + rest) == Done(rest, h)
  {
    var e := EncodeSectionHeader(h);
    var i := e + rest;
    assert i[..3] == e[..3] == SectionMagic;
    assert i[3] == e[3] == ByteOf(h.version);
    assert i[8..12] == e[8..12] == U32Bytes(h.count);
    assert i[12..16] == e[12..16] == U32Bytes(h.size);
    assert i[SectionHeaderSize..] == rest;
  }

  /** The 16-byte record of `t`, its type written with the canonical code. */
  function EncodeTagEntry(t: TagEntry): (b: Bytes)
    ensures |b| == TagEntrySize
  {
    CanonicalCodeResolves(t.tagtype);
    U32Bytes(t.tag) + U32Bytes(CanonicalCode(t.tagtype)) + U32Bytes(t.offset) + U32Bytes(t.count)
  }

  lemma EncodeTagEntryIsRecord(t: TagEntry)
    ensures IsTagEntry(EncodeTagEntry(t)) && TagEntryAt(EncodeTagEntry(t)) == t
  {
    CanonicalCodeResolves(t.tagtype);
    WordsOf(U32Bytes(t.tag), U32Bytes(CanonicalCode(t.tagtype)), U32Bytes(t.offset), U32Bytes(t.count));
  }

  lemma WordsOf(a: Bytes, b: Bytes, c: Bytes, d: Bytes)
    requires |a| == 4 && |b| == 4 && |c| == 4 && |d| == 4
    ensures var e := a + b + c + d;
      e[..4] == a && e[4..8] == b && e[8..12] == c && e[12..16] == d
  {
  }

  /** Parsing an encoded descriptor gives it back and leaves what follows it. */
  lemma EncodeTagEntryRoundTrip(t: TagEntry, rest: Bytes)
    ensures ParseTagEntry(EncodeTagEntry(t) + rest) == Done(rest, t)
  {
    var i := EncodeTagEntry(t) + rest;
    EncodeTagEntryIsRecord(t);
    assert i[..TagEntrySize] == EncodeTagEntry(t);
    assert i[TagEntrySize..] == rest;
  }

  function EncodeTagEntries(ts: seq<TagEntry>): (b: Bytes)
    ensures |b| == TagEntrySize * |ts|
  {
    if |ts| == 0 then [] else EncodeTagEntry(ts[0]) + EncodeTagEntries(ts[1..])
  }

  /** An encoded table holds its descriptors, each record with a known
      type code, whatever follows the table. */
  lemma {:induction false} EncodedRecordsHold(ts: seq<TagEntry>, x: Bytes)
    ensures RecordsValid(EncodeTagEntries(ts) + x, |ts|)
    ensures RecordsHold(EncodeTagEntries(ts) + x, ts)
    decreases |ts|
  {
    if |ts| == 0 {
      assert RecordsHold(EncodeTagEntries(ts) + x, ts);
    } else {
      EncodedRecordsHold(ts[1..], x);
      EncodedRecordsCons(ts, x);
    }
    RecordsHoldValid(EncodeTagEntries(ts) + x, ts);
  }

  lemma EncodedRecordsCons(ts: seq<TagEntry>, x: Bytes)
    requires 0 < |ts|
    ensures var rest := ts[1..];
      RecordsHold(EncodeTagEntries(rest) + x, rest) ==> RecordsHold(EncodeTagEntries(ts) + x, ts)
  {
    var rest := ts[1..];
    if RecordsHold(EncodeTagEntries(rest) + x, rest) {
      EncodedSplit(ts, x);
      EncodedHeadAppend(ts[0], EncodeTagEntries(rest) + x, rest);
      HeadTail(ts);
    }
  }

  lemma EncodedHeadAppend(entry: TagEntry, body: Bytes, entries: seq<TagEntry>)
    requires RecordsHold(body, entries)
    ensures RecordsHold(EncodeTagEntry(entry) + body, [entry] + entries)
  {
    EncodeTagEntryIsRecord(entry);
    RecordsHoldAppend(EncodeTagEntry(entry), body, entry, entries);
  }

  lemma RecordsHoldAppend(head: Bytes, body: Bytes, entry: TagEntry, entries: seq<TagEntry>)
    requires |head| == TagEntrySize && IsTagEntry(head) && entry == TagEntryAt(head)
    requires RecordsHold(body, entries)
    ensures RecordsHold(head + body, [entry] + entries)
  {
    assert (head + body)[..TagEntrySize] == head;
    assert (head + body)[TagEntrySize..] == body;
    RecordsHoldCons(head + body, entry, entries);
  }

  lemma HeadTail(ts: seq<TagEntry>)
    requires 0 < |ts|
    ensures [ts[0]] + ts[1..] == ts
  {
  }

  /** An encoded table followed by `x` is its first record, then the rest of
      the table followed by `x`. */
  lemma EncodedSplit(ts: seq<TagEntry>, x: Bytes)
    requires 0 < |ts|
    ensures EncodeTagEntries(ts) + x == EncodeTagEntry(ts[0]) + (EncodeTagEntries(ts[1..]) + x)
  {
    var head, body := EncodeTagEntry(ts[0]), EncodeTagEntries(ts[1..]);
    assert EncodeTagEntries(ts) == head + body;
    Associative(head, body, x);
  }

  /** Parsing encoded descriptors one by one gives them back in order. */
  lemma EncodeTagEntriesRoundTrip(ts: seq<TagEntry>, rest: Bytes)
    ensures TagEntriesFrom(EncodeTagEntries(ts) + rest, |ts|) == Done(rest, ts)
  {
    var t := EncodeTagEntries(ts) + rest;
    EncodedRecordsHold(ts, rest);
    TagEntriesFromAccepts(t, |ts|);
    var r := TagEntriesFrom(t, |ts|);
    TagEntriesFromRecords(t, |ts|);
    RecordsHoldUnique(t, r.value, ts);
    assert t[TagEntrySize * |ts|..] == rest;
  }

  lemma Associative(a: Bytes, b: Bytes, c: Bytes)
    ensures (a + b) + c == a + (b + c)
  {
  }

  /** A section whose prologue agrees with its contents. */
  predicate IsConsistent(s: HeaderSection) {
    |s.tags| == s.hdr.count && |s.store| == s.hdr.size
  }

  function EncodeSection(s: HeaderSection): (b: Bytes)
    requires IsConsistent(s)
    ensures |b| == Span(s)
  {
    EncodeSectionHeader(s.hdr) + EncodeTagEntries(s.tags) + s.store
  }

  lemma PrologueFields(h: HeaderSectionHeader, i: Bytes)
    requires |i| >= SectionHeaderSize && i[..SectionHeaderSize] == EncodeSectionHeader(h)
    ensures i[..3] == SectionMagic && SectionHeaderAt(i) == h
  {
    EncodeSectionHeaderRoundTrip(h, i[SectionHeaderSize..]);
    assert EncodeSectionHeader(h) + i[SectionHeaderSize..] == i;
  }

  /** An encoded section is the section laid out at the start of its bytes. */
  lemma EncodedSectionIs(s: HeaderSection, rest: Bytes)
    requires IsConsistent(s)
    ensures IsSectionOf(EncodeSection(s) + rest, s)
  {
    var i := EncodeSection(s) + rest;
    var pro, table := EncodeSectionHeader(s.hdr), EncodeTagEntries(s.tags);
    PartsOf(pro, table, s.store, rest);
    PrologueFields(s.hdr, i);
    EncodedRecordsHold(s.tags, s.store + rest);
  }

  /** Where the three parts of a section and what follows it lie. */
  lemma PartsOf(a: Bytes, b: Bytes, c: Bytes, x: Bytes)
    ensures var i := a + b + c + x;
      && i[..|a|] == a
      && i[|a|..] == b + (c + x)
      && i[|a| + |b|..|a| + |b| + |c|] == c
      && i[|a| + |b| + |c|..] == x
  {
    var i := a + b + c + x;
    Associative(a + b, c, x);
    Associative(a, b, c + x);
    assert i == a + (b + (c + x));
  }

  /** Parsing an encoded section gives it back and leaves what follows it. */
  lemma EncodeSectionRoundTrip(s: HeaderSection, rest: Bytes)
    requires IsConsistent(s)
    ensures ParseSection(EncodeSection(s) + rest) == Done(rest, s)
  {
    var i := EncodeSection(s) + rest;
    EncodedSectionIs(s, rest);
    ParseSectionAccepts(i);
    SectionOfUnique(i, ParseSection(i).value, s);
    assert i[Span(s)..] == rest;
  }

  // ---------------------------------------------------------------------
  // Whole headers

  /** A header the encoder can write. */
  predicate IsEncodable(h: Header) {
    IsName(h.lead.name) && IsConsistent(h.signature) && IsConsistent(h.header)
  }

  /** Lead, signature section, zero padding to an 8-byte boundary, header section. */
  function EncodeHeader(h: Header): (b: Bytes)
    requires IsEncodable(h)
    ensures |b| == HeaderLength(h)
  {
    EncodeLead(h.lead) + EncodeSection(h.signature) + Zeros(Padding(h.signature.hdr.size)) + EncodeSection(h.header)
  }

  lemma EncodeSectionsRoundTrip(h: Header, rest: Bytes)
    requires IsEncodable(h)
    ensures ParseSections(EncodeSection(h.signature) + Zeros(Padding(h.signature.hdr.size)) + EncodeSection(h.header) + rest)
         == Done(rest, (h.signature, h.header))
  {
    var sig, pad, hdr := EncodeSection(h.signature), Zeros(Padding(h.signature.hdr.size)), EncodeSection(h.header);
    var afterPad := hdr + rest;
    var afterSig := pad + afterPad;
    Associative(sig + pad, hdr, rest);
    Associative(sig, pad, afterPad);
    EncodeSectionRoundTrip(h.signature, afterSig);
    assert afterSig[|pad|..] == afterPad;
    SignatureStep(sig + afterSig, h.signature, afterSig);
    EncodeSectionRoundTrip(h.header, rest);
    SectionsStep(sig + afterSig, h.signature, afterPad, h.header, rest);
  }

  lemma SignatureStep(i: Bytes, s: HeaderSection, after: Bytes)
    ensures ParseSection(i) == Done(after, s) && |after| >= Padding(s.hdr.size) ==>
      ParseSignature(i) == Done(after[Padding(s.hdr.size)..], s)
  {
  }

  lemma SectionsStep(i: Bytes, signature: HeaderSection, mid: Bytes, header: HeaderSection, rest: Bytes)
    ensures ParseSignature(i) == Done(mid, signature) && ParseSection(mid) == Done(rest, header) ==>
      ParseSections(i) == Done(rest, (signature, header))
  {
  }

  lemma HeaderStep(i: Bytes, lead: Lead, after: Bytes, signature: HeaderSection, header: HeaderSection, rest: Bytes)
    ensures ParseLead(i) == Done(after, lead) && ParseSections(after) == Done(rest, (signature, header)) ==>
      ParseHeader(i) == Done(rest, Header(lead, signature, header))
  {
  }

  /** Parsing an encoded header gives it back and leaves the payload. */
  lemma EncodeHeaderRoundTrip(h: Header, rest: Bytes)
    requires IsEncodable(h)
    ensures ParseHeader(EncodeHeader(h) + rest) == Done(rest, h)
  {
    var lead, sig, pad, hdr := EncodeLead(h.lead), EncodeSection(h.signature), Zeros(Padding(h.signature.hdr.size)), EncodeSection(h.header);
    var sections := sig + pad + hdr;
    Associative(lead, sig, pad);
    Associative(lead, sig + pad, hdr);
    Associative(lead, sections, rest);
    EncodeLeadRoundTrip(h.lead, sections + rest);
    EncodeSectionsRoundTrip(h, rest);
    HeaderStep(lead + (sections + rest), h.lead, sections + rest, h.signature, h.header, rest);
  }
}
