/**
 Concrete inputs and what the decoder makes of them: an empty and a short
 Lead, a Lead of zeros, a well-formed Lead, a section prologue, descriptor
 records with a known and an unknown type code, and a String value.
 */
module Examples {
  import opened Cursor
  import opened Utf8
  import opened Parser
  import opened LeadProperties
  import opened TagValProperties
  import opened Errors

  /** The big-endian value of four bytes. */
  lemma BigEndian4(s: Bytes)
    requires |s| == 4
    ensures BigEndian(s) == s[0] as nat * 0x100_0000 + s[1] as nat * 0x1_0000 + s[2] as nat * 0x100 + s[3] as nat
  {
    assert s[..1][..0] == [];
    assert s[..2][..1] == s[..1] && s[..3][..2] == s[..2] && s[..4][..3] == s[..3];
    assert BigEndian(s[..1]) == s[0] as nat;
    assert BigEndian(s[..2]) == BigEndian(s[..1]) * 0x100 + s[1] as nat;
    assert BigEndian(s[..3]) == BigEndian(s[..2]) * 0x100 + s[2] as nat;
    assert s[..4] == s;
  }

  /** The big-endian value of two bytes. */
  lemma BigEndian2(s: Bytes)
    requires |s| == 2
    ensures BigEndian(s) == s[0] as nat * 0x100 + s[1] as nat
  {
    assert s[..1][..0] == [];
  }

  /** An empty input needs the 4 magic bytes. */
  lemma LeadOfNothing()
    ensures ParseLead([]) == Incomplete(Size(4))
  {
  }

  /** The magic and the two version bytes are there, the type field is not:
      the count is the end of the type field, 8 bytes from the start. */
  lemma LeadCutAfterVersion()
    ensures ParseLead([0xED, 0xAB, 0xEE, 0xDB, 0x03, 0x00]) == Incomplete(Size(8))
  {
  }

  /** 96 zero bytes do not start with the magic. */
  lemma LeadOfZeros()
    ensures ParseLead(seq(LeadSize, _ => 0)) == Error(Tag, seq(LeadSize, _ => 0))
  {
    var z: Bytes := seq(LeadSize, _ => 0);
    assert z[..4] != LeadMagic by {
      assert z[..4][0] == 0;
    }
  }

  /** Three bytes that already disagree with the Lead magic, such as the
      start of a zip archive, are refused as BadMagic without waiting for
      the fourth. */
  lemma ShortInputNotAPackage()
    ensures ParseHeader([0x50, 0x4B, 0x03]) == Error(Tag, [0x50, 0x4B, 0x03])
    ensures FromErrorKind(ParseHeader([0x50, 0x4B, 0x03]).kind) == File(BadMagic)
  {
    assert [0x50, 0x4B, 0x03] != LeadMagic[..3] by {
      assert LeadMagic[..3][0] == 0xED;
    }
  }

  /** Two bytes that agree with the Lead magic so far still need all four. */
  lemma ShortInputAgreeing()
    ensures ParseLead([0xED, 0xAB]) == Incomplete(Size(4))
  {
    assert LeadMagic[..2] == [0xED, 0xAB];
  }

  /** Two zero bytes already disagree with the section magic. */
  lemma ShortSectionMismatch()
    ensures ParseSection([0, 0]) == Error(Tag, [0, 0])
  {
    assert [0, 0] != SectionMagic[..2] by {
      assert SectionMagic[..2][0] == 0x8E;
    }
  }

  const PackageName: Bytes :=
    [0x68, 0x61, 0x72, 0x64, 0x6C, 0x69, 0x6E, 0x6B,  // hardlink
     0x2D, 0x31, 0x3A, 0x31, 0x2E, 0x30, 0x2D, 0x32,  // -1:1.0-2
     0x33, 0x2E, 0x66, 0x63, 0x32, 0x34]              // 3.fc24

  /** A binary package Lead: version 3.0, type 0, arch 1, the 22-byte name
      and its NUL, os 1, signature type 5. Whatever follows the NUL in the
      name field, and whatever the 16 reserved bytes hold, the Lead is the same. */
  lemma SampleLeadParses(i: Bytes)
    requires |i| == LeadSize && i[..4] == LeadMagic
    requires i[4..10] == [0x03, 0x00, 0x00, 0x00, 0x00, 0x01]
    requires i[10..32] == PackageName && i[32] == 0
    requires i[76..80] == [0x00, 0x01, 0x00, 0x05]
    ensures ParseLead(i) == Done([], Lead(3, 0, 0, 1, PackageName, 1, 5))
  {
    SampleNameField(i);
    SampleFields(i);
    ParseLeadConsumesLead(i);
  }

  lemma SampleFields(i: Bytes)
    requires |i| == LeadSize
    requires i[4..10] == [0x03, 0x00, 0x00, 0x00, 0x00, 0x01]
    requires i[10..32] == PackageName
    requires i[76..80] == [0x00, 0x01, 0x00, 0x05]
    requires NulIndex(i[10..]) == |PackageName|
    ensures LeadAt(i) == Lead(3, 0, 0, 1, PackageName, 1, 5)
  {
    assert i[4] == i[4..10][0] == 3 && i[5] == i[4..10][1] == 0;
    assert i[6..8] == i[4..10][2..4] == [0x00, 0x00];
    assert i[8..10] == i[4..10][4..6] == [0x00, 0x01];
    assert i[76..78] == i[76..80][..2] == [0x00, 0x01];
    assert i[78..80] == i[76..80][2..] == [0x00, 0x05];
    BigEndian2(i[6..8]);
    BigEndian2(i[8..10]);
    BigEndian2(i[76..78]);
    BigEndian2(i[78..80]);
  }

  lemma SampleNameField(i: Bytes)
    requires |i| == LeadSize && i[..4] == LeadMagic
    requires i[10..32] == PackageName && i[32] == 0
    ensures NulIndex(i[10..]) == |PackageName| && IsLead(i)
  {
    var field := i[10..];
    forall j | 0 <= j < |PackageName|
      ensures field[j] != 0
    {
      assert field[j] == i[10..32][j];
    }
    NulIndexAt(field, |PackageName|);
    assert IsAscii(PackageName);
    AsciiIsValid(PackageName);
  }

  /** A signature prologue announcing 8 descriptors and a 0x1484-byte store. */
  lemma SectionHeaderOk(i: Bytes)
    requires i == [0x8E, 0xAD, 0xE8, 0x01, 0x00, 0x00, 0x00, 0x00,
                   0x00, 0x00, 0x00, 0x08, 0x00, 0x00, 0x14, 0x84]
    ensures ParseSectionHeader(i) == Done([], HeaderSectionHeader(1, 8, 0x1484))
  {
    assert i[..3] == SectionMagic && i[SectionHeaderSize..] == [];
    SampleSectionFields(i);
  }

  lemma SampleSectionFields(i: Bytes)
    requires |i| == SectionHeaderSize && i[3] == 0x01
    requires i[8..12] == [0x00, 0x00, 0x00, 0x08] && i[12..16] == [0x00, 0x00, 0x14, 0x84]
    ensures SectionHeaderAt(i) == HeaderSectionHeader(1, 8, 0x1484)
  {
    BigEndian4(i[8..12]);
    BigEndian4(i[12..16]);
  }

  /** A Binary descriptor (type code 7) for tag 0x3E. */
  lemma TagEntryOk(i: Bytes)
    requires i == [0x00, 0x00, 0x00, 0x3E, 0x00, 0x00, 0x00, 0x07,
                   0x00, 0x00, 0x14, 0x74, 0x00, 0x00, 0x00, 0x10]
    ensures ParseTagEntry(i) == Done([], TagEntry(0x3E, TagType.Binary, 0x1474, 0x10))
  {
    assert i[..TagEntrySize] == i && i[TagEntrySize..] == [];
    SampleEntryFields(i);
  }

  lemma SampleEntryFields(i: Bytes)
    requires |i| == TagEntrySize
    requires i[..4] == [0x00, 0x00, 0x00, 0x3E] && i[4..8] == [0x00, 0x00, 0x00, 0x07]
    requires i[8..12] == [0x00, 0x00, 0x14, 0x74] && i[12..16] == [0x00, 0x00, 0x00, 0x10]
    ensures IsTagEntry(i) && TagEntryAt(i) == TagEntry(0x3E, TagType.Binary, 0x1474, 0x10)
  {
    BigEndian4(i[..4]);
    BigEndian4(i[4..8]);
    BigEndian4(i[8..12]);
    BigEndian4(i[12..16]);
  }

  /** Type code 0xBB is unknown: a MapRes error at the type code field. */
  lemma TagEntryUnknownType(i: Bytes)
    requires i == [0x00, 0x00, 0x00, 0xAA, 0x00, 0x00, 0x00, 0xBB,
                   0x00, 0x00, 0x00, 0xCC, 0x00, 0x00, 0x00, 0xDD]
    ensures ParseTagEntry(i) == Error(MapRes, i[4..])
  {
    BigEndian4(i[4..8]);
  }

  const HardlinkText: Bytes := [0x68, 0x61, 0x72, 0x64, 0x6C, 0x69, 0x6E, 0x6B]  // hardlink

  /** The one-text String value at offset 2 of a store that holds
      "hardlink" and a NUL there. */
  lemma StringValue(store: Bytes, t: TagEntry)
    requires |store| > 10 && store[2..10] == HardlinkText && store[10] == 0
    requires t == TagEntry(0x3E8, TagType.String, 2, 1)
    ensures ParseTagVal(store, t) == Done(store, TagValue.String([HardlinkText]))
  {
    var i := store[t.offset..];
    assert i == store[2..];
    HardlinkField(i);
    ParseTagValString(store, t);
    assert ValidUtf8(i[..NulIndex(i)]);
    var r := ParseTagVal(store, t);
    assert r.Done?;
    assert Matches(TagType.String, r.value);
    assert r.value.strings == [HardlinkText];
  }

  /** "hardlink" and its NUL read as one text. */
  lemma HardlinkField(i: Bytes)
    requires |i| > 8 && i[..8] == HardlinkText && i[8] == 0
    ensures NulIndex(i) == 8 && i[..NulIndex(i)] == HardlinkText && ValidUtf8(HardlinkText)
  {
    forall j | 0 <= j < 8
      ensures i[j] != 0
    {
      assert i[j] == HardlinkText[j];
    }
    NulIndexAt(i, 8);
    assert IsAscii(HardlinkText);
    AsciiIsValid(HardlinkText);
  }
}
