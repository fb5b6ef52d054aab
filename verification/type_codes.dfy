/**
 How wire type codes resolve: twelve known codes collapse onto eight
 types, every other code is refused, and each type has one canonical code
 that resolves back to it.
 */
module TypeCodes {
  import opened Cursor
  import opened Parser

  /** The smallest wire code of each type: the code an encoder writes. */
  function CanonicalCode(t: TagType): (code: nat)
    ensures code in WireCodes(t)
    ensures forall c :: c in WireCodes(t) ==> code <= c
  {
    match t
    case Null => 0
    case Char => 1
    case Int8 => 2
    case Int16 => 3
    case Int32 => 4
    case Int64 => 5
    case String => 6
    case Binary => 7
  }

  /** No code belongs to two types. */
  lemma WireCodesDisjoint(s: TagType, t: TagType, code: nat)
    requires code in WireCodes(s) && code in WireCodes(t)
    ensures s == t
  {
  }

  /** A code resolves to a type exactly when it is one of that type's wire
      codes: 6, 8 and 9 all mean String, 7, 10 and 11 all mean Binary. */
  lemma ResolvesExactly(code: u32, t: TagType)
    ensures U32ToTagType(code) == Resolved(t) <==> code in WireCodes(t)
  {
    if code in WireCodes(t) {
      var r := U32ToTagType(code);
      assert r.Resolved?;
      WireCodesDisjoint(r.tagtype, t, code);
    }
  }

  /** Every type's canonical code resolves back to the type. */
  lemma CanonicalCodeResolves(t: TagType)
    ensures CanonicalCode(t) < 0x1_0000_0000
    ensures U32ToTagType(CanonicalCode(t)) == Resolved(t)
  {
    ResolvesExactly(CanonicalCode(t), t);
  }

  /** Resolving and re-encoding a code gives the canonical code of its
      type, which resolves to the same type: the collapse loses only which
      of a type's codes was used. */
  lemma CollapseIsStable(code: u32)
    requires code <= 11
    ensures var t := U32ToTagType(code).tagtype;
      CanonicalCode(t) <= code && U32ToTagType(CanonicalCode(t)) == U32ToTagType(code)
  {
    CanonicalCodeResolves(U32ToTagType(code).tagtype);
  }
}
