/**
 The marshaling functions of whole resources, and the two passes of Esys_TR_Serialize:
 a size query without a buffer, then the real run into a buffer of that size.
 */
module EsysSerial {
  import opened TpmBase
  import opened MuFormat
  import opened MuLaws
  import opened MuBounds
  import opened MuMarshal
  import opened MuUnmarshal
  import opened TpmFormats
  import opened TpmUnchecked
  import opened EsysMu
  import opened EsysResource

  const SIZE_MAX: nat := 0xFFFF_FFFF_FFFF_FFFF

  // ---------------------------------------------------------------- writing

  /** Only the byte array of a session makes a size query look at the size. */
  predicate MiscBlind(m: Misc) { !m.SessionRsrc? }

  /** iesys_MU_IESYS_RSRC_UNION_Marshal */
  method MarshalMisc(m: Misc, buffer: array?<byte>, size: nat, offset: nat) returns (rc: Rc, offset': nat)
    requires MiscStorable(m)
    requires buffer != null ==> size <= buffer.Length
    modifies buffer
    ensures Printed(MiscBytes(m, buffer != null), MiscPrintable(m, buffer != null), MiscBlind(m), buffer != null,
                    size, offset, old(Content(buffer)), Content(buffer), rc, offset')
  {
    match m {
      case KeyRsrc(n, pub) =>
        rc, offset' := MarshalSub(TPMT_PUBLIC, n, pub, buffer, size, offset);
        hide Printed, SubBytes;
      case NvRsrc(n, nv) =>
        rc, offset' := MarshalSub(TPMS_NV_PUBLIC, n, nv, buffer, size, offset);
        hide Printed, SubBytes;
      case SessionRsrc(s) =>
        SessionHolds(s);
        GradesNested(IESYS_SESSION, Rec(SessionFields(s)));
        hide Encode, Holds, SizeBlind, SessionFields;
        rc, offset' := Marshal(IESYS_SESSION, Rec(SessionFields(s)), buffer, size, offset);
        PrintedWeaker(MiscBytes(m, buffer != null), true, SizeBlind(IESYS_SESSION), false, buffer != null,
                      size, offset, old(Content(buffer)), Content(buffer), rc, offset');
        hide Printed;
      case NoMisc =>
        return Success, offset;
      case OtherMisc(_) =>
        return SysBadValue, offset;
    }
  }

  /** iesys_MU_IESYS_RESOURCE_Marshal: four fields through one local offset. */
  method MarshalResource(r: Resource, buffer: array?<byte>, size: nat, offset: nat) returns (rc: Rc, offset': nat)
    requires ResourceStorable(r)
    requires buffer != null ==> size <= buffer.Length
    modifies buffer
    ensures Printed(ResourceBytes(r, buffer != null), MiscPrintable(r.misc, buffer != null), MiscBlind(r.misc),
                    buffer != null, size, offset, old(Content(buffer)), Content(buffer), rc, offset')
  {
    hide Printed, MiscBytes, MiscPrintable, MiscBlind, ToBE;
    ghost var there, before := buffer != null, Content(buffer);
    ghost var h, n, t, m := ToBE(r.handle, 4), NameBytes(r.name), ToBE(RsrcType(r.misc), 4), MiscBytes(r.misc, there);
    ghost var ok, blind := MiscPrintable(r.misc, there), MiscBlind(r.misc);
    var local;
    rc, local := MarshalBlock(ToBE(r.handle, 4), buffer, size, offset);
    if rc != Success {
      PrintedStop(h, true, true, n + (t + m), ok, blind, there, size, offset, before, Content(buffer), rc, local);
      return rc, offset;
    }
    ghost var s1, at1 := Content(buffer), local;
    NameFits(r);
    rc, local := MarshalSized(r.name, buffer, size, local);
    PrintedThen(h, true, true, n, true, true, there, size, offset, before, s1, Content(buffer), at1, rc, local);
    Assoc(h, n, t + m);
    if rc != Success {
      PrintedStop(h + n, true, true, t + m, ok, blind, there, size, offset, before, Content(buffer), rc, offset);
      return rc, offset;
    }
    ghost var s2, at2 := Content(buffer), local;
    rc, local := MarshalBlock(ToBE(RsrcType(r.misc), 4), buffer, size, local);
    PrintedThen(h + n, true, true, t, true, true, there, size, offset, before, s2, Content(buffer), at2, rc, local);
    Assoc(h + n, t, m);
    if rc != Success {
      PrintedStop(h + n + t, true, true, m, ok, blind, there, size, offset, before, Content(buffer), rc, offset);
      return rc, offset;
    }
    ghost var s3, at3 := Content(buffer), local;
    rc, local := MarshalMisc(r.misc, buffer, size, local);
    PrintedThen(h + n + t, true, true, m, ok, blind, there, size, offset, before, s3, Content(buffer), at3, rc, local);
    offset' := if rc == Success then local else offset;
  }

  lemma NameFits(r: Resource)
    requires ResourceStorable(r)
    ensures |r.name| < Pow256(2) && MiscStorable(r.misc)
  {
    Pow256Facts();
  }

  // ---------------------------------------------------------------- reading

  /** iesys_MU_IESYSC_RESOURCE_TYPE_Unmarshal, the one reader that moves the caller's offset
      and then fails: a type it does not know has been read past. */
  method UnmarshalResourceType(buffer: array<byte>, size: nat, offset: nat) returns (rc: Rc, offset': nat, n: nat)
    requires size <= buffer.Length
    ensures var rest := Rest(buffer, size, offset);
            && (rc == Success <==> Decode(Enum32(RSRC_TYPES), rest, true).Ok?)
            && (rc == Success ==> Decode(Enum32(RSRC_TYPES), rest, true) == Ok(Num(n), 4))
            && (rc != Success ==> Decode(Enum32(RSRC_TYPES), rest, true) == Err(rc))
            && (rc == MuInsufficientBuffer ==> offset' == offset)
            && (rc != MuInsufficientBuffer ==> offset' == offset + 4)
    ensures rc == SysBadValue <==> offset + 4 <= size && FromBE(buffer[offset..offset + 4]) !in RSRC_TYPES
  {
    rc, offset', n := UnmarshalBase(4, buffer, size, offset);
    if rc != Success {
      return;
    }
    RestSlice(buffer, size, offset, 0, 4);
    if n !in RSRC_TYPES {
      return SysBadValue, offset', n;
    }
  }

  /** iesys_MU_IESYS_RSRC_UNION_Unmarshal into a cleared destination. Only a session with too
      large a count makes it write past an array. */
  method UnmarshalMisc(tag: nat, buffer: array<byte>, size: nat, offset: nat) returns (rc: Rc, offset': nat, m: Misc)
    requires size <= buffer.Length
    ensures Parsed(DecodeMisc(tag, Rest(buffer, size, offset)), rc, offset, offset', m)
    ensures rc == OutOfBounds <==> tag == SESSION_RSRC && !SessionFits(Rest(buffer, size, offset))
  {
    MiscFitsIff(tag, Rest(buffer, size, offset));
    hide DecodeSub, DecodeFields, Rest, SessionOf, SessionFits;
    if tag == KEY_RSRC {
      var sub;
      rc, offset', sub := UnmarshalSub(TPMT_PUBLIC, 0, buffer, size, offset, true);
      m := KeyRsrc(sub.size, sub.member);
    } else if tag == NV_RSRC {
      var sub;
      rc, offset', sub := UnmarshalSub(TPMS_NV_PUBLIC, 0, buffer, size, offset, true);
      m := NvRsrc(sub.size, sub.member);
    } else if tag == SESSION_RSRC {
      var vs;
      rc, offset', vs := UnmarshalFields(FromHeads(SESSION_HEADS), [], buffer, size, offset, true);
      m := NoMisc;
      if rc == Success {
        SessionValues(Rest(buffer, size, offset));
        m := SessionRsrc(SessionOf(vs));
      }
    } else if tag == WITHOUT_MISC_RSRC {
      return Success, offset, NoMisc;
    } else {
      return SysBadValue, offset, NoMisc;
    }
  }

  lemma SessionValues(input: seq<byte>)
    requires DecodeFields(FromHeads(SESSION_HEADS), input, [], true).Ok?
    ensures var vs := DecodeFields(FromHeads(SESSION_HEADS), input, [], true).value;
            |vs| == 15 && |BytesOf(vs[13])| <= SESSION_VALUE_MAX
  {
    var vs := DecodeFields(FromHeads(SESSION_HEADS), input, [], true).value;
    CanonicalFields(FromHeads(SESSION_HEADS), input, []);
    HoldsHeads(WellFormed, SESSION_HEADS, [], vs);
    hide HoldsFields, DecodeFields;
    assert Holds(WellFormed, SESSION_HEADS[13], vs[13]);
  }

  /** iesys_MU_IESYS_RESOURCE_Unmarshal. Its own offset absorbs the early move of the type's. */
  method UnmarshalResource(buffer: array<byte>, size: nat, offset: nat) returns (rc: Rc, offset': nat, r: Resource)
    requires size <= buffer.Length
    ensures Parsed(DecodeResource(Rest(buffer, size, offset)), rc, offset, offset', r)
    ensures rc == OutOfBounds <==> !LoadFits(Rest(buffer, size, offset))
  {
    hide Decode, DecodeMisc, Rest, Drop, FromBE, LoadFits, SessionFits;
    LoadFitsIff(Rest(buffer, size, offset));
    var none := Resource(0, [], NoMisc);
    var local, handle, name, tag, misc;
    rc, local, handle := UnmarshalBase(4, buffer, size, offset);
    if rc != Success { return rc, offset, none; }
    RestDrop(buffer, size, offset, local - offset);
    rc, local, name := UnmarshalSized(NAME_MAX, buffer, size, local, true);
    if rc != Success { return rc, offset, none; }
    RestDrop(buffer, size, offset, local - offset);
    rc, local, tag := UnmarshalResourceType(buffer, size, local);
    if rc != Success { return rc, offset, none; }
    RestDrop(buffer, size, offset, local - offset);
    rc, local, misc := UnmarshalMisc(tag, buffer, size, local);
    if rc != Success { return rc, offset, none; }
    return Success, local, Resource(handle, BytesOf(name), misc);
  }

  // ---------------------------------------------------------------- both passes

  /** The size pass predicts the write pass exactly when the stored sizes are true. */
  lemma SizePassExactIff(r: Resource)
    ensures |ResourceBytes(r, false)| == |ResourceBytes(r, true)| <==> Truthful(r.misc)
    ensures |ResourceBytes(r, true)| <= |ResourceBytes(r, false)| <==>
              match r.misc
              case KeyRsrc(n, pub) => |Encode(TPMT_PUBLIC, pub)| <= n
              case NvRsrc(n, nv) => |Encode(TPMS_NV_PUBLIC, nv)| <= n
              case _ => true
  {
    hide Encode;
  }

  lemma NoFields(env: seq<Value>, vs: seq<Value>)
    ensures EncodeFields(End, env, vs) == []
  {
  }

  lemma {:induction false} HeadsBounded(hs: seq<Format>, env: seq<Value>, vs: seq<Value>, cap: nat)
    requires |vs| == |hs| && forall i :: 0 <= i < |hs| ==> |Encode(hs[i], vs[i])| <= cap
    ensures |EncodeFields(FromHeads(hs), env, vs)| <= |hs| * cap
  {
    hide Encode, EncodeFields;
    if hs == [] {
      NoFields(env, vs);
    } else {
      HeadsBounded(hs[1..], env + [vs[0]], vs[1..], cap);
      Uncons(vs);
      PeelField(hs[0], FromHeads(hs[1..]), env, vs[0], vs[1..]);
      assert |hs| * cap == cap + (|hs| - 1) * cap;
    }
  }

  lemma SessionFieldBounded(s: Session, i: nat)
    requires SessionStorable(s) && i < |SESSION_HEADS|
    ensures |Encode(SESSION_HEADS[i], SessionFields(s)[i])| <= 60_000
  {
    hide EncodeFields, HoldsFields, Pow256;
    if i == 3 {
      SymBounded(s.symmetric);
    } else if i < 8 {
    } else {
    }
  }

  lemma SymBounded(s: SymDef)
    requires s.algorithm < Pow256(2) && s.keyBits < Pow256(2) && s.mode < Pow256(2)
    ensures |Encode(TPMT_SYM_DEF, SymValue(s))| <= 6
  {
    SymHolds(Printable, s);
    hide Holds, Encode, SymValue;
    GradesNested(TPMT_SYM_DEF, SymValue(s));
    EncodeBounded(TPMT_SYM_DEF, SymValue(s));
  }

  lemma SessionBounded(s: Session)
    requires SessionStorable(s)
    ensures |Encode(IESYS_SESSION, Rec(SessionFields(s)))| <= 1_000_000
  {
    hide EncodeFields, SessionFields, SessionStorable;
    SessionHas15(s);
    var vs := SessionFields(s);
    forall i | 0 <= i < |SESSION_HEADS| ensures |Encode(SESSION_HEADS[i], vs[i])| <= 60_000 {
      SessionFieldBounded(s, i);
    }
    HeadsBounded(SESSION_HEADS, [], vs, 60_000);
  }

  lemma ResourceBounded(r: Resource)
    requires ResourceStorable(r)
    ensures |ResourceBytes(r, false)| <= 2_000_000
  {
    Pow256Facts();
    match r.misc {
      case SessionRsrc(s) => SessionBounded(s); hide Encode;
      case _ => hide Encode;
    }
  }

  /** Of resources that fit their structure only those of an unknown type cannot be written. */
  lemma MiscPrints(m: Misc, present: bool)
    requires MiscStorable(m)
    ensures MiscPrintable(m, present) <==> !m.OtherMisc?
  {
    PublicUnchecked();
    hide Unchecked, Holds;
    match m {
      case KeyRsrc(_, pub) => UncheckedPrints(TPMT_PUBLIC, pub);
      case NvRsrc(_, nv) => UncheckedPrints(TPMS_NV_PUBLIC, nv);
      case _ =>
    }
  }

  /** Esys_TR_Serialize on the resource it found. The buffer is as long as the size pass says;
      the write pass succeeds exactly when the bytes fit into it. */
  method SerializeResource(r: Resource) returns (rc: Rc, buffer: array<byte>)
    requires ResourceStorable(r)
    ensures fresh(buffer)
    ensures rc == Success <==> !r.misc.OtherMisc? && |ResourceBytes(r, true)| <= |ResourceBytes(r, false)|
    ensures rc == Success ==>
              && buffer.Length == |ResourceBytes(r, false)|
              && ResourceBytes(r, true) <= buffer[..]
    ensures rc == Success && Truthful(r.misc) ==> buffer[..] == ResourceBytes(r, true)
  {
    hide ResourceBytes, MiscPrintable, Truthful;
    MiscPrints(r.misc, false);
    MiscPrints(r.misc, true);
    var size, end;
    rc, size := MarshalResource(r, null, SIZE_MAX, 0);
    ResourceBounded(r);
    if rc != Success {
      buffer := new byte[0];
      return;
    }
    buffer := new byte[size];
    rc, end := MarshalResource(r, buffer, size, 0);
    SizePassExactIff(r);
    if rc == Success {
      assert buffer[..end] == ResourceBytes(r, true);
    }
  }
}
