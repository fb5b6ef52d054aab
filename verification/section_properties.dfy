/**
 What parsing a section accepts and yields, how it fails on a bad prologue
 or an unknown type code, and what it reports when the input is cut short.
 */
module SectionProperties {
  import opened Cursor
  import opened Parser

  /** The bytes of a well-formed section at the start of `i`: the magic, all
      descriptor records, with known type codes, and the whole store. */
  predicate IsSection(i: Bytes) {
    && |i| >= SectionHeaderSize
    && i[..3] == SectionMagic
    && |i| >= SectionLength(SectionHeaderAt(i).count, SectionHeaderAt(i).size)
    && RecordsValid(i[SectionHeaderSize..], SectionHeaderAt(i).count)
  }

  /** The first `n` descriptor records of `t` are present and have known type codes. */
  predicate RecordsValid(t: Bytes, n: nat) {
    |t| >= TagEntrySize * n && forall k :: 0 <= k < n ==> IsTagEntry(Record(t, k))
  }

  /** The offset of the store of the section at the start of `i`. */
  function StoreStart(i: Bytes): nat
    requires |i| >= SectionHeaderSize
  {
    SectionHeaderSize + TagEntrySize * SectionHeaderAt(i).count
  }

  /** `s` is the section laid out at the start of `i`: its prologue, its
      descriptors record by record, and its store, read at fixed offsets. */
  predicate IsSectionOf(i: Bytes, s: HeaderSection) {
    && IsSection(i)
    && s.hdr == SectionHeaderAt(i)
    && |s.tags| == s.hdr.count
    && RecordsHold(i[SectionHeaderSize..], s.tags)
    && s.store == i[StoreStart(i)..StoreStart(i) + s.hdr.size]
  }

  // ---------------------------------------------------------------------
  // The descriptor table

  lemma RecordsValidTail(t: Bytes, n: nat)
    requires n > 0 && RecordsValid(t, n)
    ensures IsTagEntry(t[..TagEntrySize]) && RecordsValid(t[TagEntrySize..], n - 1)
  {
    assert Record(t, 0) == t[..TagEntrySize];
    forall k | 0 <= k < n - 1
      ensures IsTagEntry(Record(t[TagEntrySize..], k))
    {
      assert Record(t[TagEntrySize..], k) == Record(t, k + 1);
    }
  }

  /** Once the first record is read, the table fails exactly when the rest of it does. */
  lemma TagEntriesFromConsError(t: Bytes, n: nat)
    requires n > 0 && |t| >= TagEntrySize && IsTagEntry(t[..TagEntrySize])
    ensures TagEntriesFrom(t, n).Error? == TagEntriesFrom(t[TagEntrySize..], n - 1).Error?
  {
    assert ParseTagEntry(t) == Done(t[TagEntrySize..], TagEntryAt(t[..TagEntrySize]));
  }

  /** A table whose first record has an unknown type code fails. */
  lemma RejectFirst(t: Bytes, n: nat)
    requires n > 0 && |t| >= 8 && BigEndian(t[4..8]) > 11
    ensures TagEntriesFrom(t, n).Error?
  {
    assert ParseTagEntry(t).Error?;
  }

  lemma TagEntriesFromFirstIncomplete(t: Bytes, n: nat)
    requires n > 0 && ParseTagEntry(t).Incomplete?
    ensures TagEntriesFrom(t, n).Incomplete?
  {
  }

  /** A table of `n` present records with known type codes is read in full. */
  lemma {:induction false} TagEntriesFromAccepts(t: Bytes, n: nat)
    requires RecordsValid(t, n)
    ensures TagEntriesFrom(t, n).Done?
    decreases n
  {
    if n > 0 {
      RecordsValidTail(t, n);
      TagEntriesFromAccepts(t[TagEntrySize..], n - 1);
    }
  }

  /** A record with an unknown type code, after valid ones, fails the table. */
  lemma {:induction false} TagEntriesFromRejects(t: Bytes, n: nat, k: nat)
    requires k < n && |t| >= TagEntrySize * k + 8
    requires RecordsValid(t, k)
    requires BigEndian(t[TagEntrySize * k + 4..TagEntrySize * k + 8]) > 11
    ensures TagEntriesFrom(t, n).Error?
    decreases k
  {
    if k == 0 {
      RejectFirst(t, n);
    } else {
      RecordsValidTail(t, k);
      var j := TagEntrySize * (k - 1);
      SliceOfSuffix(t, TagEntrySize, j + 4, j + 8);
      TagEntriesFromRejects(t[TagEntrySize..], n - 1, k - 1);
      RejectLater(t, n);
    }
  }

  /** A table whose first record is read and whose rest fails, fails. */
  lemma RejectLater(t: Bytes, n: nat)
    requires n > 0 && |t| >= TagEntrySize && IsTagEntry(t[..TagEntrySize])
    requires TagEntriesFrom(t[TagEntrySize..], n - 1).Error?
    ensures TagEntriesFrom(t, n).Error?
  {
    TagEntriesFromConsError(t, n);
  }

  /** A table cut short inside its valid records is Incomplete, never an error. */
  lemma TagEntriesFromOnPrefix(t: Bytes, n: nat, m: nat)
    requires RecordsValid(t, n) && m < TagEntrySize * n
    ensures TagEntriesFrom(t[..m], n).Incomplete?
  {
    var p := t[..m];
    forall k | 0 <= k < n && TagEntrySize * k + 8 <= m
      ensures BigEndian(TypeField(p, k)) <= 11
    {
      var b := TagEntrySize * k;
      assert b + TagEntrySize <= TagEntrySize * n <= |t|;
      assert IsTagEntry(Record(t, k));
      TypeFieldOfRecord(t, k);
      assert TypeField(p, k) == t[b + 4..b + 8];
    }
    TagEntriesFromCut(p, n);
  }

  lemma TypeFieldOfRecord(t: Bytes, k: nat)
    requires TagEntrySize * (k + 1) <= |t|
    ensures Record(t, k)[4..8] == t[TagEntrySize * k + 4..TagEntrySize * k + 8]
  {
    var b := TagEntrySize * k;
    forall j | 0 <= j < 4
      ensures Record(t, k)[4..8][j] == t[b + 4..b + 8][j]
    {
      assert Record(t, k)[4..8][j] == Record(t, k)[4 + j] == t[b + 4 + j];
    }
  }

  /** The type code field of the `k`-th record of a table starting at `p`. */
  function TypeField(p: Bytes, k: nat): Bytes
    requires TagEntrySize * k + 8 <= |p|
  {
    p[TagEntrySize * k + 4..TagEntrySize * k + 8]
  }

  /** `p` holds fewer than `n` records' worth of bytes, and every type code
      field it holds in full is known. */
  predicate CutValid(p: Bytes, n: nat) {
    && |p| < TagEntrySize * n
    && forall k :: 0 <= k < n && TagEntrySize * k + 8 <= |p| ==> BigEndian(TypeField(p, k)) <= 11
  }

  lemma {:induction false} TagEntriesFromCut(p: Bytes, n: nat)
    requires CutValid(p, n)
    ensures TagEntriesFrom(p, n).Incomplete?
    decreases n, 1
  {
    if |p| < TagEntrySize {
      CutInFirstRecord(p, n);
    } else {
      CutAfterFirstRecord(p, n);
    }
  }

  /** A table cut after its first record runs short, as its rest does. */
  lemma {:induction false} CutAfterFirstRecord(p: Bytes, n: nat)
    requires CutValid(p, n) && |p| >= TagEntrySize
    ensures TagEntriesFrom(p, n).Incomplete?
    decreases n, 0
  {
    CutValidTail(p, n);
    TagEntriesFromCut(p[TagEntrySize..], n - 1);
    TagEntriesFromNextIncomplete(p, n);
  }

  /** A table whose first record is read and whose rest runs short runs short. */
  lemma TagEntriesFromNextIncomplete(t: Bytes, n: nat)
    requires n > 0 && |t| >= TagEntrySize && IsTagEntry(t[..TagEntrySize])
    requires TagEntriesFrom(t[TagEntrySize..], n - 1).Incomplete?
    ensures TagEntriesFrom(t, n).Incomplete?
  {
    assert ParseTagEntry(t) == Done(t[TagEntrySize..], TagEntryAt(t[..TagEntrySize]));
  }

  /** A table cut inside its first record runs short. */
  lemma CutInFirstRecord(p: Bytes, n: nat)
    requires CutValid(p, n) && |p| < TagEntrySize
    ensures TagEntriesFrom(p, n).Incomplete?
  {
    if |p| >= 8 {
      assert TypeField(p, 0) == p[4..8];
    }
    assert ParseTagEntry(p).Incomplete?;
    TagEntriesFromFirstIncomplete(p, n);
  }

  lemma CutValidTail(p: Bytes, n: nat)
    requires CutValid(p, n) && |p| >= TagEntrySize
    ensures n > 0 && IsTagEntry(p[..TagEntrySize]) && CutValid(p[TagEntrySize..], n - 1)
  {
    assert p[..TagEntrySize][4..8] == TypeField(p, 0);
    var q := p[TagEntrySize..];
    forall k | 0 <= k < n - 1 && TagEntrySize * k + 8 <= |q|
      ensures BigEndian(TypeField(q, k)) <= 11
    {
      assert TypeField(q, k) == TypeField(p, k + 1);
    }
  }

  /** The descriptors recorded at the start of a table are determined by its bytes. */
  lemma RecordsHoldUnique(t: Bytes, a: seq<TagEntry>, b: seq<TagEntry>)
    requires RecordsHold(t, a) && RecordsHold(t, b) && |a| == |b|
    ensures a == b
  {
    forall k | 0 <= k < |a|
      ensures a[k] == b[k]
    {
    }
  }

  // ---------------------------------------------------------------------
  // Whole sections

  /** The section laid out at the start of an input is determined by its bytes. */
  lemma SectionOfUnique(i: Bytes, s: HeaderSection, u: HeaderSection)
    requires IsSectionOf(i, s) && IsSectionOf(i, u)
    ensures s == u
  {
    RecordsHoldUnique(i[SectionHeaderSize..], s.tags, u.tags);
  }

  /** A section is accepted exactly when its bytes are well formed, and then
      it is the section laid out at fixed offsets, and the parse consumes it. */
  lemma ParseSectionAccepts(i: Bytes)
    ensures ParseSection(i).Done? <==> IsSection(i)
    ensures ParseSection(i).Done? ==>
      var s := ParseSection(i).value;
      IsSectionOf(i, s) && ParseSection(i).rest == i[Span(s)..]
  {
    if ParseSection(i).Done? {
      ParseSectionReads(i);
    } else if IsSection(i) {
      TagEntriesFromAccepts(i[SectionHeaderSize..], SectionHeaderAt(i).count);
    }
  }

  lemma ParseSectionReads(i: Bytes)
    requires ParseSection(i).Done?
    ensures IsSectionOf(i, ParseSection(i).value)
  {
    var h := SectionHeaderAt(i);
    var t := i[SectionHeaderSize..];
    assert ParseSectionHeader(i) == Done(t, h);
    var e := ParseTagEntries(t, h.count);
    assert e.Done?;
    var storeStart := StoreStart(i);
    var u := i[storeStart..];
    SuffixOfSuffix(i, SectionHeaderSize, TagEntrySize * h.count);
    assert e.rest == u;
    SliceOfSuffix(i, storeStart, 0, h.size);
    assert ParseSection(i) == Done(u[h.size..], HeaderSection(h, e.value, u[..h.size]));
    RecordsHoldValid(t, e.value);
  }

  lemma RecordsHoldValid(t: Bytes, entries: seq<TagEntry>)
    requires RecordsHold(t, entries)
    ensures RecordsValid(t, |entries|)
  {
  }

  /** A section fails with a Tag error, at its start, exactly when the
      bytes present disagree with the section magic, even when fewer than
      three are present. */
  lemma ParseSectionBadMagic(i: Bytes)
    ensures ParseSection(i).Error? && ParseSection(i).kind == Tag <==> ClashesWith(i, SectionMagic)
    ensures ClashesWith(i, SectionMagic) ==> ParseSection(i) == Error(Tag, i)
  {
    if ParseSectionHeader(i).Done? {
      var t := i[SectionHeaderSize..];
      var e := ParseTagEntries(t, SectionHeaderAt(i).count);
      assert !e.Error? || e.kind == Count;
    }
  }

  /** A descriptor record with an unknown type code, after valid ones, makes
      the section a Count error at the start of its descriptor table. */
  lemma ParseSectionUnknownType(i: Bytes, k: nat)
    requires |i| >= SectionHeaderSize && i[..3] == SectionMagic
    requires k < SectionHeaderAt(i).count
    requires |i| >= SectionHeaderSize + TagEntrySize * k + 8
    requires RecordsValid(i[SectionHeaderSize..], k)
    requires BigEndian(i[SectionHeaderSize + TagEntrySize * k + 4..SectionHeaderSize + TagEntrySize * k + 8]) > 11
    ensures ParseSection(i) == Error(Count, i[SectionHeaderSize..])
  {
    var t := i[SectionHeaderSize..];
    SliceOfSuffix(i, SectionHeaderSize, TagEntrySize * k + 4, TagEntrySize * k + 8);
    TagEntriesFromRejects(t, SectionHeaderAt(i).count, k);
  }

  /** A well-formed section cut short anywhere is Incomplete, never an error.
      Cut in the prologue, it needs the end of the first missing prologue
      field; cut in the descriptor table, the counted repetition cannot say
      how much it needs; cut in the store, it needs the whole section. */
  lemma ParseSectionTruncated(j: Bytes, n: nat)
    requires IsSection(j) && n < SectionLength(SectionHeaderAt(j).count, SectionHeaderAt(j).size)
    ensures ParseSection(j[..n]).Incomplete?
    ensures n < SectionHeaderSize ==>
      ParseSection(j[..n]) == Incomplete(Size(SectionHeaderBoundary(n)))
    ensures SectionHeaderSize <= n < StoreStart(j) ==>
      ParseSection(j[..n]) == Incomplete(Unknown)
    ensures StoreStart(j) <= n ==>
      ParseSection(j[..n]) == Incomplete(Size(SectionLength(SectionHeaderAt(j).count, SectionHeaderAt(j).size)))
  {
    if n < SectionHeaderSize {
      TruncatedInPrologue(j, n);
    } else if n < StoreStart(j) {
      TruncatedInTable(j, n);
    } else {
      TruncatedInStore(j, n);
    }
  }

  lemma TruncatedInPrologue(j: Bytes, n: nat)
    requires |j| >= SectionHeaderSize && j[..3] == SectionMagic && n < SectionHeaderSize
    ensures ParseSection(j[..n]) == Incomplete(Size(SectionHeaderBoundary(n)))
  {
    var i := j[..n];
    if n >= 3 {
      assert i[..3] == j[..3];
    }
    assert ParseSectionHeader(i).Incomplete?;
  }

  /** Cutting a section after its prologue leaves the prologue readable. */
  lemma PrologueOfPrefix(j: Bytes, n: nat)
    requires |j| >= SectionHeaderSize && j[..3] == SectionMagic
    requires SectionHeaderSize <= n <= |j|
    ensures ParseSectionHeader(j[..n]) == Done(j[SectionHeaderSize..n], SectionHeaderAt(j))
  {
    var i := j[..n];
    assert i[..3] == j[..3];
    assert i[3] == j[3] && i[8..12] == j[8..12] && i[12..16] == j[12..16];
    assert i[SectionHeaderSize..] == j[SectionHeaderSize..n];
  }

  lemma TruncatedInTable(j: Bytes, n: nat)
    requires IsSection(j) && SectionHeaderSize <= n < StoreStart(j)
    ensures ParseSection(j[..n]) == Incomplete(Unknown)
  {
    var h := SectionHeaderAt(j);
    var t := j[SectionHeaderSize..];
    PrologueOfPrefix(j, n);
    assert j[SectionHeaderSize..n] == t[..n - SectionHeaderSize];
    TagEntriesFromOnPrefix(t, h.count, n - SectionHeaderSize);
    assert ParseTagEntries(j[SectionHeaderSize..n], h.count).Incomplete?;
  }

  lemma TruncatedInStore(j: Bytes, n: nat)
    requires IsSection(j) && StoreStart(j) <= n < SectionLength(SectionHeaderAt(j).count, SectionHeaderAt(j).size)
    ensures ParseSection(j[..n]) == Incomplete(Size(SectionLength(SectionHeaderAt(j).count, SectionHeaderAt(j).size)))
  {
    var h := SectionHeaderAt(j);
    PrologueOfPrefix(j, n);
    TableOfPrefix(j, n);
    var e := ParseTagEntries(j[SectionHeaderSize..n], h.count);
    StoreShort(j[..n], j[SectionHeaderSize..n], h, e.rest, e.value, SectionLength(h.count, h.size));
  }

  /** Cutting a section inside its store leaves its table readable, with
      what remains of the store after it. */
  lemma TableOfPrefix(j: Bytes, n: nat)
    requires IsSection(j) && StoreStart(j) <= n <= |j|
    ensures ParseTagEntries(j[SectionHeaderSize..n], SectionHeaderAt(j).count).Done?
    ensures |ParseTagEntries(j[SectionHeaderSize..n], SectionHeaderAt(j).count).rest| == n - StoreStart(j)
  {
    var h := SectionHeaderAt(j);
    var t := j[SectionHeaderSize..];
    var m := n - SectionHeaderSize;
    assert j[SectionHeaderSize..n] == t[..m];
    RecordsValidPrefix(t, h.count, m);
    TagEntriesFromAccepts(t[..m], h.count);
  }

  /** A section whose prologue and table are read, but whose store is short,
      needs the end of the store, counted from the start of the section. */
  lemma StoreShort(i: Bytes, r0: Bytes, h: HeaderSectionHeader, r1: Bytes, tags: seq<TagEntry>, total: nat)
    ensures
      && ParseSectionHeader(i) == Done(r0, h)
      && ParseTagEntries(r0, h.count) == Done(r1, tags)
      && |r1| < h.size
      && total == |i| - |r1| + h.size
      ==> ParseSection(i) == Incomplete(Size(total))
  {
  }

  lemma RecordsValidPrefix(t: Bytes, n: nat, m: nat)
    requires RecordsValid(t, n) && TagEntrySize * n <= m <= |t|
    ensures RecordsValid(t[..m], n)
  {
    forall k | 0 <= k < n
      ensures IsTagEntry(Record(t[..m], k))
    {
      assert Record(t[..m], k) == Record(t, k);
    }
  }
}
