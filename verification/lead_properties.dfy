/**
 What parsing a Lead accepts, what it yields, and what it reports when the
 input is cut short.
 */
module LeadProperties {
  import opened Cursor
  import opened Utf8
  import opened Parser

  /** A Lead is accepted exactly when the input holds 96 bytes, starts with
      the magic, and has valid UTF-8 text of at most 66 bytes, terminated by
      a NUL, at offset 10; the decoded fields are those at their fixed offsets. */
  lemma ParseLeadAccepts(i: Bytes)
    ensures ParseLead(i).Done? <==> IsLead(i)
    ensures IsLead(i) ==> ParseLead(i) == Done(i[LeadSize..], LeadAt(i))
  {
    if IsLead(i) {
      ParseLeadReadsFields(i);
    } else {
      ParseLeadOnlyLeads(i);
    }
  }

  lemma ParseLeadOnlyLeads(i: Bytes)
    ensures ParseLead(i).Done? ==> IsLead(i)
  {
    var p := ParseLeadPrefix(i);
    if p.Done? {
      SliceOfSuffix(i, 10, 0, NulIndex(i[10..]));
    }
  }

  lemma ParseLeadReadsFields(i: Bytes)
    requires IsLead(i)
    ensures ParseLead(i) == Done(i[LeadSize..], LeadAt(i))
  {
    var k := NulIndex(i[10..]);
    SliceOfSuffix(i, 10, 0, k);
    SuffixOfSuffix(i, 10, NameWidth);
    SliceOfSuffix(i, 76, 0, 2);
    SliceOfSuffix(i, 76, 2, 4);
    assert ParseLeadPrefix(i) == Done(i[10..], (i[4] as nat, i[5] as nat, I16Of(i[6..8]), I16Of(i[8..10])));
    assert TakeCstr(i[10..], NameWidth) == Done(i[76..], i[10..10 + k]);
    assert ParseLeadTrailer(i[76..]) == Done(i[96..], (I16Of(i[76..78]), I16Of(i[78..80])));
  }

  /** Every successful parse consumes exactly 0x60 bytes: a 0x60-byte Lead
      leaves nothing behind. */
  lemma ParseLeadConsumesLead(i: Bytes)
    requires |i| == LeadSize && IsLead(i)
    ensures ParseLead(i) == Done([], LeadAt(i))
  {
    ParseLeadAccepts(i);
  }

  /** On truncated input the count reported is the end offset, from the start
      of the Lead, of the first field that did not fit. */
  lemma ParseLeadTruncated(i: Bytes)
    ensures ParseLead(i).Incomplete? ==>
      |i| < LeadSize && ParseLead(i).needed == Size(LeadBoundary(|i|))
  {
    var p := ParseLeadPrefix(i);
    if p.Done? {
      var n := TakeCstr(i[10..], NameWidth);
      if n.Done? {
        SuffixOfSuffix(i, 10, NameWidth);
      }
    }
  }

  /** A Lead cut short before its name, or after the NUL that ends its name,
      is Incomplete and needs the end of the first field that did not fit.
      A cut inside the name text is the TakeUntil error of
      `ParseLeadCutInsideName`. */
  lemma ParseLeadCut(j: Bytes, n: nat)
    requires IsLead(j) && n < LeadSize && (n <= 10 || 10 + NulIndex(j[10..]) < n)
    ensures ParseLead(j[..n]) == Incomplete(Size(LeadBoundary(n)))
  {
    var i := j[..n];
    if n < 10 {
      assert n >= 4 ==> i[..4] == j[..4];
    } else if n == 10 {
      assert i[..4] == j[..4];
      assert i[10..] == [];
    } else if n < 76 {
      CutAfterNameInField(j, n);
    } else {
      CutInTrailer(j, n);
    }
  }

  /** Cut after the name's NUL, the name is read from what is left. */
  lemma NameOfPrefix(j: Bytes, n: nat)
    requires IsLead(j) && 10 + NulIndex(j[10..]) < n <= |j|
    ensures NulIndex(j[..n][10..]) == NulIndex(j[10..])
    ensures Cstr(j[..n][10..]) == Done(j[10 + NulIndex(j[10..])..n], j[10..10 + NulIndex(j[10..])])
  {
    var i, k := j[..n], NulIndex(j[10..]);
    assert i[10..] == j[10..n];
    forall x | 0 <= x < k
      ensures i[10..][x] != 0
    {
      assert i[10..][x] == j[10..][x];
    }
    assert i[10..][k] == j[10..][k];
    NulIndexAt(i[10..], k);
    assert i[10..][..k] == j[10..10 + k];
    assert i[10..][k..] == j[10 + k..n];
  }

  /** Cut inside the name field's padding, the field needs its 66 bytes. */
  lemma CutAfterNameInField(j: Bytes, n: nat)
    requires IsLead(j) && 10 + NulIndex(j[10..]) < n < 76
    ensures ParseLead(j[..n]) == Incomplete(Size(76))
  {
    var i, k := j[..n], NulIndex(j[10..]);
    assert i[..4] == j[..4];
    NameOfPrefix(j, n);
    var c := Cstr(i[10..]);
    assert |c.rest| == n - 10 - k && |c.value| == k;
    assert Take(c.rest, NameWidth - k) == Incomplete(Size(NameWidth - k));
    assert TakeCstr(i[10..], NameWidth) == Incomplete(Size(NameWidth));
  }

  /** Cut inside the trailer, the name field is read in full and the trailer
      needs the end of its first missing field. */
  lemma CutInTrailer(j: Bytes, n: nat)
    requires IsLead(j) && 76 <= n < LeadSize && 10 + NulIndex(j[10..]) < n
    ensures ParseLead(j[..n]) == Incomplete(Size(LeadBoundary(n)))
  {
    var i, k := j[..n], NulIndex(j[10..]);
    assert i[..4] == j[..4];
    NameOfPrefix(j, n);
    SuffixOfSuffix(i, 10, NameWidth);
    assert TakeCstr(i[10..], NameWidth) == Done(i[76..], j[10..10 + k]);
    var t := ParseLeadTrailer(i[76..]);
    assert t == Incomplete(Size(LeadBoundary(n) - 76));
    assert t.After(76) == Incomplete(Size(LeadBoundary(n)));
  }

  /** LeadBoundary(n) is the least field end offset of a Lead past n. */
  lemma LeadBoundaryIsNext(n: nat)
    requires n < LeadSize
    ensures IsNextBoundary(LeadBoundaries, n, LeadBoundary(n))
  {
  }

  /** A Lead whose name field has no NUL within 66 bytes, but one later, is
      refused: the text before that NUL is longer than the field. */
  lemma ParseLeadNameTooLong(i: Bytes)
    requires |i| >= 10 && i[..4] == LeadMagic
    requires NameWidth < NulIndex(i[10..]) < |i| - 10
    requires ValidUtf8(i[10..][..NulIndex(i[10..])])
    ensures ParseLead(i) == Error(ExprOpt, i[10 + NulIndex(i[10..])..])
  {
    SuffixOfSuffix(i, 10, NulIndex(i[10..]));
  }

  /** Cutting a Lead short inside its name text is reported as a TakeUntil
      error, not as Incomplete: the search for the terminating NUL runs to
      the end of the input and fails there. */
  lemma ParseLeadCutInsideName(j: Bytes, n: nat)
    requires IsLead(j)
    requires 10 < n <= 10 + NulIndex(j[10..])
    ensures ParseLead(j[..n]) == Error(TakeUntil, j[10..n])
  {
    var i := j[..n];
    assert i[..4] == j[..4];
    assert i[10..] == j[10..n];
    forall k | 0 <= k < |i[10..]|
      ensures i[10..][k] != 0
    {
      assert i[10..][k] == j[10..][k];
    }
    NoNulMeansEnd(i[10..]);
  }

  lemma NoNulMeansEnd(s: Bytes)
    requires forall k :: 0 <= k < |s| ==> s[k] != 0
    ensures NulIndex(s) == |s|
  {
  }
}
