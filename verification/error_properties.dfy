/**
 Properties of the error values, and how the errors the decoder raises are
 classified: a wrong magic number is BadMagic, anything else BadHeader.
 */
module ErrorProperties {
  import opened Cursor
  import opened Parser
  import opened Errors
  import opened SectionProperties

  /** Taking the cause of an error and wrapping it again gives the error
      back, and wrapping a cause and taking the cause of the result gives
      the cause back. */
  lemma CauseRoundTrip(e: RPMError, c: Cause)
    ensures !e.Internal? ==> CauseOf(e).Some? && Wrap(CauseOf(e).value) == e
    ensures CauseOf(Wrap(c)) == Some(c)
  {
  }

  /** No two file errors share a description. */
  lemma FileDescriptionsDistinct(a: RPMFileError, b: RPMFileError)
    requires a != b
    ensures FileErrorDescription(a) != FileErrorDescription(b)
  {
  }

  /** No two file errors share a displayed message, so the message of a
      file error identifies it. */
  lemma FileMessagesDistinct(a: RPMFileError, b: RPMFileError)
    requires Message(File(a)) == Message(File(b))
    ensures a == b
  {
    var m := Message(File(a));
    assert m[|FilePrefix|..] == FileErrorMessage(a);
    assert Message(File(b))[|FilePrefix|..] == FileErrorMessage(b);
  }

  /** A failed Lead is BadMagic exactly when the bytes present disagree
      with the Lead magic, even when fewer than four are present; with four
      bytes or more, exactly when they are not the magic. */
  lemma ClassifyLeadError(i: Bytes)
    requires ParseLead(i).Error?
    ensures FromErrorKind(ParseLead(i).kind) == File(BadMagic) <==> ClashesWith(i, LeadMagic)
    ensures |i| >= 4 ==> (FromErrorKind(ParseLead(i).kind) == File(BadMagic) <==> i[..4] != LeadMagic)
  {
    if |i| >= 4 {
      ClashesWhenLong(i, LeadMagic);
    }
  }

  /** A failed section is BadMagic exactly when the bytes present disagree
      with the section magic, even when fewer than three are present, and
      BadHeader otherwise, which covers every unknown type code. */
  lemma ClassifySectionError(i: Bytes)
    requires ParseSection(i).Error?
    ensures FromErrorKind(ParseSection(i).kind) == File(BadMagic) <==> ClashesWith(i, SectionMagic)
    ensures FromErrorKind(ParseSection(i).kind) == File(BadHeader) <==> !ClashesWith(i, SectionMagic)
    ensures |i| >= 3 ==> (FromErrorKind(ParseSection(i).kind) == File(BadMagic) <==> i[..3] != SectionMagic)
  {
    ParseSectionBadMagic(i);
    if |i| >= 3 {
      ClashesWhenLong(i, SectionMagic);
    }
  }

  /** An unknown type code in a descriptor is a BadHeader error. */
  lemma ClassifyUnknownType(i: Bytes)
    requires |i| >= 8 && BigEndian(i[4..8]) > 11
    ensures ParseTagEntry(i).Error? && FromErrorKind(ParseTagEntry(i).kind) == File(BadHeader)
  {
  }
}
