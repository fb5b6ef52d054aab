/**
 What parsing a whole header accepts and yields: a Lead, then a signature
 section, then padding up to an 8-byte boundary, then a header section,
 each read at the offset where the previous one ends.
 */
module HeaderProperties {
  import opened Cursor
  import opened Parser
  import opened Errors
  import opened LeadProperties
  import opened SectionProperties

  /** The number of bytes the section at the start of `j` occupies, by its prologue. */
  function SpanAt(j: Bytes): nat
    requires |j| >= SectionHeaderSize
  {
    SectionLength(SectionHeaderAt(j).count, SectionHeaderAt(j).size)
  }

  /** Where the section after the one at the start of `j` begins: past that
      section and its padding. */
  function NextSectionAt(j: Bytes): nat
    requires |j| >= SectionHeaderSize
  {
    SpanAt(j) + Padding(SectionHeaderAt(j).size)
  }

  /** `i` starts with a header: a Lead, a well-formed signature section at
      offset 96, and a well-formed header section after the padding. */
  predicate IsHeader(i: Bytes) {
    && IsLead(i)
    && IsSection(i[LeadSize..])
    && |i| >= LeadSize + NextSectionAt(i[LeadSize..])
    && IsSection(i[LeadSize + NextSectionAt(i[LeadSize..])..])
  }

  lemma SectionSpan(j: Bytes, s: HeaderSection)
    requires IsSectionOf(j, s)
    ensures Span(s) == SpanAt(j) && s.hdr.size == SectionHeaderAt(j).size
  {
  }

  /** The signature section and its padding. */
  lemma ParseSignatureAccepts(j: Bytes)
    ensures ParseSignature(j).Done? <==> IsSection(j) && |j| >= NextSectionAt(j)
    ensures ParseSignature(j).Done? ==>
      IsSectionOf(j, ParseSignature(j).value) && ParseSignature(j).rest == j[NextSectionAt(j)..]
  {
    ParseSectionAccepts(j);
    var p := ParseSection(j);
    if p.Done? {
      SectionSpan(j, p.value);
      assert Take(p.rest, Padding(p.value.hdr.size)).Done? <==> |j| >= NextSectionAt(j);
    }
  }

  /** The signature section, its padding and the header section. */
  lemma ParseSectionsAccepts(j: Bytes)
    ensures ParseSections(j).Done? <==>
      IsSection(j) && |j| >= NextSectionAt(j) && IsSection(j[NextSectionAt(j)..])
    ensures ParseSections(j).Done? ==>
      && IsSectionOf(j, ParseSections(j).value.0)
      && IsSectionOf(j[NextSectionAt(j)..], ParseSections(j).value.1)
  {
    ParseSignatureAccepts(j);
    var g := ParseSignature(j);
    if g.Done? {
      ParseSectionAccepts(g.rest);
    }
  }

  /** A header is accepted exactly when its bytes are well formed; it is
      then the Lead and the two sections laid out at their offsets, and
      what remains is everything after the header section. */
  lemma ParseHeaderAccepts(i: Bytes)
    ensures ParseHeader(i).Done? <==> IsHeader(i)
    ensures ParseHeader(i).Done? ==>
      var h := ParseHeader(i).value;
      var k := LeadSize + NextSectionAt(i[LeadSize..]);
      && h.lead == LeadAt(i)
      && IsSectionOf(i[LeadSize..], h.signature)
      && IsSectionOf(i[k..], h.header)
  {
    ParseLeadAccepts(i);
    ParseHeaderAfterLead(i);
    ParseHeaderNoLead(i);
    if IsLead(i) {
      SectionsAfterLead(i);
    }
  }

  /** The two sections read after the Lead, stated at their offsets in `i`. */
  lemma SectionsAfterLead(i: Bytes)
    requires |i| >= LeadSize
    ensures var j := i[LeadSize..];
      && (ParseSections(j).Done? <==>
            IsSection(j) && |i| >= LeadSize + NextSectionAt(j) && IsSection(i[LeadSize + NextSectionAt(j)..]))
      && (ParseSections(j).Done? ==>
            && IsSectionOf(j, ParseSections(j).value.0)
            && IsSectionOf(i[LeadSize + NextSectionAt(j)..], ParseSections(j).value.1))
  {
    var j := i[LeadSize..];
    ParseSectionsAccepts(j);
    if IsSection(j) && |j| >= NextSectionAt(j) {
      SuffixOfSuffix(i, LeadSize, NextSectionAt(j));
    }
  }

  /** Once the Lead is read, the header stands or falls with its two sections. */
  lemma ParseHeaderAfterLead(i: Bytes)
    ensures ParseLead(i).Done? ==>
      var s := ParseSections(ParseLead(i).rest);
      && (ParseHeader(i).Done? <==> s.Done?)
      && (s.Done? ==> ParseHeader(i).value == Header(ParseLead(i).value, s.value.0, s.value.1))
  {
  }

  lemma ParseHeaderNoLead(i: Bytes)
    ensures !ParseLead(i).Done? ==> !ParseHeader(i).Done?
  {
  }

  /** A Lead that is cut short or refused makes the header report the same
      need or the same error. */
  lemma ParseHeaderLeadFails(i: Bytes)
    ensures ParseLead(i).Incomplete? ==> ParseHeader(i) == Incomplete(ParseLead(i).needed)
    ensures ParseLead(i).Error? ==> ParseHeader(i) == Error(ParseLead(i).kind, ParseLead(i).at)
  {
  }

  /** A header consumes exactly its length: the Lead, the signature
      section, the padding and the header section. */
  lemma ParseHeaderConsumes(i: Bytes)
    ensures ParseHeader(i).Done? ==>
      && |i| >= HeaderLength(ParseHeader(i).value)
      && ParseHeader(i).rest == i[HeaderLength(ParseHeader(i).value)..]
  {
    ParseHeaderAfterLead(i);
    ParseHeaderNoLead(i);
    if ParseLead(i).Done? {
      var j := ParseLead(i).rest;
      SectionsConsume(j);
      if ParseSections(j).Done? {
        var v := ParseSections(j).value;
        SuffixOfSuffix(i, LeadSize, Span(v.0) + Padding(v.0.hdr.size) + Span(v.1));
      }
    }
  }

  /** The two sections consume the signature section, its padding and the
      header section. */
  lemma SectionsConsume(j: Bytes)
    ensures ParseSections(j).Done? ==>
      var v := ParseSections(j).value;
      var n := Span(v.0) + Padding(v.0.hdr.size) + Span(v.1);
      |j| >= n && ParseSections(j).rest == j[n..]
  {
    var g := ParseSignature(j);
    if g.Done? {
      var n := Span(g.value) + Padding(g.value.hdr.size);
      if ParseSection(g.rest).Done? {
        SuffixOfSuffix(j, n, Span(ParseSection(g.rest).value));
      }
    }
  }

  /** A header that fails reports a position inside its input. */
  lemma ParseHeaderErrorWithin(i: Bytes)
    ensures ParseHeader(i).Error? ==> IsSuffix(ParseHeader(i).at, i)
  {
    ParseHeaderAfterLead(i);
    ParseHeaderNoLead(i);
    if ParseLead(i).Done? {
      var j := ParseLead(i).rest;
      SectionsErrorWithin(j);
      if ParseSections(j).Error? {
        SuffixTransitive(ParseSections(j).at, j, i);
      }
    }
  }

  lemma SectionsErrorWithin(j: Bytes)
    ensures ParseSections(j).Error? ==> IsSuffix(ParseSections(j).at, j)
  {
    var g := ParseSignature(j);
    if g.Done? && ParseSection(g.rest).Error? {
      SuffixTransitive(ParseSection(g.rest).at, g.rest, j);
    }
  }

  /** Once the Lead is read, a shortfall of the two sections is counted from
      the start of the package: the Lead's 96 bytes are added to it. */
  lemma HeaderCutAfterLead(i: Bytes, j: Bytes, lead: Lead, k: nat)
    ensures ParseLead(i) == Done(j, lead) && ParseSections(j) == Incomplete(Size(k)) ==>
      ParseHeader(i) == Incomplete(Size(LeadSize + k))
  {
    HeaderShortAfterLead(i, j, lead, k);
    AfterSize(ParseHeader(i), k, LeadSize);
  }

  lemma HeaderShortAfterLead(i: Bytes, j: Bytes, lead: Lead, k: nat)
    ensures ParseLead(i) == Done(j, lead) && ParseSections(j) == Incomplete(Size(k)) ==>
      ParseHeader(i) == Incomplete(Size(k)).After(LeadSize)
  {
  }

  /** A signature section that runs short needs, counted from the start of
      the package, the Lead and what the section itself needs. */
  lemma ParseHeaderCutInSignature(i: Bytes, j: Bytes, lead: Lead, k: nat)
    ensures ParseLead(i) == Done(j, lead) && ParseSection(j) == Incomplete(Size(k)) ==>
      ParseHeader(i) == Incomplete(Size(LeadSize + k))
  {
    SectionsCutInSignature(j, k);
    HeaderCutAfterLead(i, j, lead, k);
  }

  /** A signature section that runs short leaves the two sections short by
      as much. */
  lemma SectionsCutInSignature(j: Bytes, k: nat)
    ensures ParseSection(j) == Incomplete(Size(k)) ==> ParseSections(j) == Incomplete(Size(k))
  {
  }

  /** Padding that runs short needs the signature section and the whole
      padding. */
  lemma SectionsCutInPadding(j: Bytes, m: Bytes, sig: HeaderSection)
    ensures ParseSection(j) == Done(m, sig) && |m| < Padding(sig.hdr.size) ==>
      ParseSections(j) == Incomplete(Size(Span(sig) + Padding(sig.hdr.size)))
  {
  }

  /** Re-basing a known need adds the bytes read before it. */
  lemma AfterSize<T>(r: IResult<T>, k: nat, d: nat)
    ensures r == Incomplete(Size(k)).After(d) ==> r == Incomplete(Size(d + k))
  {
  }

  /** The header section starts on an 8-byte boundary of the input,
      whatever the signature section holds. */
  lemma HeaderSectionAligned(i: Bytes)
    requires |i| >= LeadSize + SectionHeaderSize
    ensures (LeadSize + NextSectionAt(i[LeadSize..])) % 8 == 0
  {
    var h := SectionHeaderAt(i[LeadSize..]);
    AlignedAfter(h.count, h.size);
  }

  lemma AlignedAfter(count: nat, size: u32)
    ensures (LeadSize + SectionLength(count, size) + Padding(size)) % 8 == 0
  {
    var q := (size + Padding(size)) / 8;
    assert size + Padding(size) == 8 * q;
    var x := 14 + 2 * count + q;
    assert LeadSize + SectionLength(count, size) + Padding(size) == 8 * x;
    MultipleOf8(x);
  }

  lemma MultipleOf8(x: nat)
    ensures (8 * x) % 8 == 0
  {
    assert (8 * x) / 8 == x;
  }

  /** A header whose first bytes disagree with the Lead magic is refused
      as BadMagic, at its first byte, however short the input. */
  lemma ParseHeaderBadMagic(i: Bytes)
    requires ClashesWith(i, LeadMagic)
    ensures ParseHeader(i) == Error(Tag, i)
    ensures FromErrorKind(ParseHeader(i).kind) == File(BadMagic)
  {
  }
}
