/**
 What the tag value decoder yields for each type: where in the store the
 value is read, how many items it holds, what a short store reports, and
 the behaviour of String values, where every string after the first is
 empty because a text read leaves its NUL in the input.
 */
module TagValProperties {
  import opened Cursor
  import opened Utf8
  import opened Parser

  // ---------------------------------------------------------------------
  // Counted integers

  /** Element `k` of a run of `width`-byte integers is the big-endian value
      of bytes `width * k` up to `width * (k + 1)`. */
  lemma {:induction false} ElementsAt(i: Bytes, values: seq<nat>, width: nat, k: nat)
    requires ElementsHold(i, values, width) && k < |values|
    ensures width * (k + 1) <= |i|
    ensures values[k] == BigEndian(i[width * k..width * (k + 1)])
    decreases k
  {
    if k == 0 {
      assert width * (k + 1) == width && width * k == 0;
    } else {
      ElementsAt(i[width..], values[1..], width, k - 1);
      assert width * k == width + width * (k - 1);
      assert width * (k + 1) == width + width * k;
      SliceOfSuffix(i, width, width * (k - 1), width * k);
    }
  }

  /** The integers of a numeric or character value, in store order. */
  function Numbers(v: TagValue): seq<nat> {
    match v
    case Char(cs) => seq(|cs|, k requires 0 <= k < |cs| => cs[k] as nat)
    case Int8(xs) => xs
    case Int16(xs) => xs
    case Int32(xs) => xs
    case Int64(xs) => xs
    case _ => []
  }

  // ---------------------------------------------------------------------
  // The decoder, type by type

  /** The value is read from the offset on, and nothing is consumed: the
      outcome is that of reading at the offset, with a known byte count
      re-based onto the start of the store. */
  lemma ParseTagValSkips(store: Bytes, t: TagEntry)
    requires t.offset <= |store|
    ensures
      var f := TagValueFrom(store[t.offset..], t);
      && (ParseTagVal(store, t).Done? <==> f.Done?)
      && (f.Done? ==> ParseTagVal(store, t) == Done(store, f.value))
      && (!f.Done? ==> ParseTagVal(store, t) == f.After(t.offset))
  {
    assert Take(store, t.offset) == Done(store[t.offset..], store[..t.offset]);
  }

  /** A descriptor whose offset lies past the end of the store needs the
      offset, whatever its type. */
  lemma ParseTagValPastEnd(store: Bytes, t: TagEntry)
    requires t.offset > |store|
    ensures ParseTagVal(store, t) == Incomplete(Size(t.offset))
  {
  }

  /** A Null value reads nothing. */
  lemma ParseTagValNull(store: Bytes, t: TagEntry)
    requires t.tagtype.Null? && t.offset <= |store|
    ensures ParseTagVal(store, t) == Done(store, TagValue.Null)
  {
    ParseTagValSkips(store, t);
  }

  /** A Binary value is the `count` bytes at the offset; a store too short
      for them needs the end offset of the value. */
  lemma ParseTagValBinary(store: Bytes, t: TagEntry)
    requires t.tagtype.Binary? && t.offset <= |store|
    ensures t.offset + t.count <= |store| ==>
      ParseTagVal(store, t) == Done(store, TagValue.Binary(store[t.offset..t.offset + t.count]))
    ensures t.offset + t.count > |store| ==>
      ParseTagVal(store, t) == Incomplete(Size(t.offset + t.count))
  {
    ParseTagValSkips(store, t);
    if t.offset + t.count <= |store| {
      SliceOfSuffix(store, t.offset, 0, t.count);
    }
  }

  /** Reading a numeric or character value is reading its integers. */
  lemma TagValueFromNumeric(i: Bytes, t: TagEntry)
    requires IsNumeric(t.tagtype)
    ensures
      var u := ReadUints(i, t.count, Width(t.tagtype));
      var f := TagValueFrom(i, t);
      && (f.Done? <==> u.Done?)
      && (f.Done? ==> Numbers(f.value) == u.value)
      && (!f.Done? ==> f == Incomplete(Unknown))
  {
    var u := ReadUints(i, t.count, Width(t.tagtype));
    if u.Done? && t.tagtype.Char? {
      Pow256Values();
      assert Numbers(TagValueFrom(i, t).value) == u.value;
    }
  }

  /** A numeric or character value is `count` big-endian integers of the
      type's width, read from the offset on; a store too short for all of
      them is Incomplete with no count. */
  lemma ParseTagValNumeric(store: Bytes, t: TagEntry)
    requires IsNumeric(t.tagtype) && t.offset <= |store|
    ensures ParseTagVal(store, t).Done? <==> t.offset + Width(t.tagtype) * t.count <= |store|
    ensures ParseTagVal(store, t).Done? ==>
      var v := ParseTagVal(store, t).value;
      |Numbers(v)| == t.count && ElementsHold(store[t.offset..], Numbers(v), Width(t.tagtype))
    ensures !ParseTagVal(store, t).Done? ==> ParseTagVal(store, t) == Incomplete(Unknown)
  {
    ParseTagValSkips(store, t);
    TagValueFromNumeric(store[t.offset..], t);
  }

  // ---------------------------------------------------------------------
  // Strings

  /** `n` empty texts. */
  function EmptyTexts(n: nat): seq<Bytes> {
    seq(n, _ => [])
  }

  /** A text read at a NUL is empty and consumes nothing. */
  lemma CstrAtNul(i: Bytes)
    requires |i| > 0 && i[0] == 0
    ensures Cstr(i) == Done(i, [])
  {
    assert NulIndex(i) == 0;
    assert ValidUtf8(i[..0]);
  }

  lemma EmptyTextsCons(n: nat)
    requires n > 0
    ensures EmptyTexts(n) == [[]] + EmptyTexts(n - 1)
  {
  }

  /** Texts read at a NUL are all empty and consume nothing. */
  lemma {:induction false} CstrsAtNul(i: Bytes, n: nat)
    requires |i| > 0 && i[0] == 0
    ensures CstrsFrom(i, n) == Done(i, EmptyTexts(n))
    decreases n
  {
    if n == 0 {
      assert EmptyTexts(0) == [];
    } else {
      CstrsAtNul(i, n - 1);
      CstrsAtNulStep(i, n);
    }
  }

  lemma CstrsAtNulStep(i: Bytes, n: nat)
    requires |i| > 0 && i[0] == 0 && n > 0
    requires CstrsFrom(i, n - 1) == Done(i, EmptyTexts(n - 1))
    ensures CstrsFrom(i, n) == Done(i, EmptyTexts(n))
  {
    CstrAtNul(i);
    var c := Cstr(i);
    var tail := CstrsFrom(c.rest, n - 1);
    assert CstrsFrom(i, n) == Done(tail.rest, [c.value] + tail.value);
    EmptyTextsCons(n);
  }

  /** `n >= 1` texts read back to back: the first is the text up to the
      first NUL, which must be valid UTF-8; the NUL is never consumed, so
      all the others are empty. */
  lemma CstrsFromFirstOnly(i: Bytes, n: nat)
    requires n >= 1
    ensures CstrsFrom(i, n).Done? <==> NulIndex(i) < |i| && ValidUtf8(i[..NulIndex(i)])
    ensures CstrsFrom(i, n).Incomplete? <==> |i| == 0
    ensures CstrsFrom(i, n).Done? ==>
      var r := CstrsFrom(i, n);
      && r.rest == i[NulIndex(i)..]
      && r.value[0] == i[..NulIndex(i)]
      && forall k :: 1 <= k < n ==> r.value[k] == []
  {
    if !Cstr(i).Done? {
      CstrsFromFirstFails(i, n);
    } else {
      CstrsFromFirstReads(i, n);
      var r := CstrsFrom(i, n);
      forall k | 1 <= k < n
        ensures r.value[k] == []
      {
        assert r.value[k] == EmptyTexts(n - 1)[k - 1];
      }
    }
  }

  lemma CstrsFromFirstFails(i: Bytes, n: nat)
    requires n >= 1 && !Cstr(i).Done?
    ensures !CstrsFrom(i, n).Done?
    ensures CstrsFrom(i, n).Incomplete? <==> Cstr(i).Incomplete?
  {
  }

  lemma CstrsFromFirstReads(i: Bytes, n: nat)
    requires n >= 1 && Cstr(i).Done?
    ensures CstrsFrom(i, n) == Done(Cstr(i).rest, [Cstr(i).value] + EmptyTexts(n - 1))
  {
    var c := Cstr(i);
    CstrsAtNul(c.rest, n - 1);
  }

  /** A String value of `count >= 1` texts holds the text at the offset,
      up to its NUL, followed by `count - 1` empty texts; without a NUL after
      the offset, or with text that is not UTF-8, it is a Count error at
      the offset. With nothing after the offset it is Incomplete, of unknown
      need. */
  lemma ParseTagValString(store: Bytes, t: TagEntry)
    requires t.tagtype.String? && t.offset <= |store| && t.count >= 1
    ensures
      var i := store[t.offset..];
      ParseTagVal(store, t).Done? <==> NulIndex(i) < |i| && ValidUtf8(i[..NulIndex(i)])
    ensures ParseTagVal(store, t).Done? ==>
      var i := store[t.offset..];
      var v := ParseTagVal(store, t).value;
      && |v.strings| == t.count
      && v.strings[0] == i[..NulIndex(i)]
      && forall k :: 1 <= k < t.count ==> v.strings[k] == []
    ensures ParseTagVal(store, t).Error? ==> ParseTagVal(store, t) == Error(Count, store[t.offset..])
    ensures
      var i := store[t.offset..];
      |i| > 0 && !(NulIndex(i) < |i| && ValidUtf8(i[..NulIndex(i)])) ==> ParseTagVal(store, t) == Error(Count, i)
    ensures |store[t.offset..]| == 0 ==> ParseTagVal(store, t) == Incomplete(Unknown)
  {
    var i := store[t.offset..];
    ParseTagValSkips(store, t);
    StringValueFrom(i, t);
    CstrsFromFirstOnly(i, t.count);
  }

  /** A String value read at the start of `i` is the texts read there; when
      they cannot be read, it is a Count error at `i`. */
  lemma StringValueFrom(i: Bytes, t: TagEntry)
    requires t.tagtype.String? && t.count >= 1
    ensures TagValueFrom(i, t).Done? <==> CstrsFrom(i, t.count).Done?
    ensures TagValueFrom(i, t).Done? ==> TagValueFrom(i, t).value == TagValue.String(CstrsFrom(i, t.count).value)
    ensures !TagValueFrom(i, t).Done? ==> TagValueFrom(i, t) == Error(Count, i) || TagValueFrom(i, t) == Incomplete(Unknown)
    ensures TagValueFrom(i, t).Incomplete? <==> CstrsFrom(i, t.count).Incomplete?
  {
  }

  /** A String value of no texts reads nothing. */
  lemma ParseTagValNoStrings(store: Bytes, t: TagEntry)
    requires t.tagtype.String? && t.offset <= |store| && t.count == 0
    ensures ParseTagVal(store, t) == Done(store, TagValue.String([]))
  {
    ParseTagValSkips(store, t);
  }
}
