/**
 The bytes of serialized resources, written out: every field of a session in its place and at
 its width, and the type numbers of the union. Reading such bytes gives the resource back.
 */
module EsysWire {
  import opened TpmBase
  import opened MuFormat
  import opened MuLaws
  import opened MuBounds
  import opened MuWire
  import opened TpmFormats
  import opened TpmWire
  import opened EsysMu
  import opened EsysResource
  import opened EsysTable

  /** A record without unions is the bytes of its fields. */
  lemma {:induction false} HeadsWire(hs: seq<Format>, env: seq<Value>, vs: seq<Value>, parts: seq<seq<byte>>)
    requires |hs| == |vs| == |parts| && forall i :: 0 <= i < |hs| ==> parts[i] == Encode(hs[i], vs[i])
    ensures EncodeFields(FromHeads(hs), env, vs) == Cat(parts)
  {
    hide Encode;
    if hs != [] { HeadsWire(hs[1..], env + [vs[0]], vs[1..], parts[1..]); }
  }

  function SymBytes(s: SymDef): seq<byte> {
    if s.algorithm in {0x0006, 0x0013, 0x0026} then ToBE(s.algorithm, 2) + ToBE(s.keyBits, 2) + ToBE(s.mode, 2)
    else if s.algorithm == 0x000A then ToBE(s.algorithm, 2) + ToBE(s.keyBits, 2)
    else ToBE(s.algorithm, 2)
  }

  function SessionParts(s: Session): seq<seq<byte>>
    requires s.sizeSessionValue <= |s.sessionValue|
  {
    [ToBE(|s.boundEntity|, 2) + s.boundEntity, ToBE(|s.encryptedSalt|, 2) + s.encryptedSalt,
     ToBE(|s.salt|, 2) + s.salt, SymBytes(s.symmetric), ToBE(s.authHash, 2),
     ToBE(|s.sessionKey|, 2) + s.sessionKey, ToBE(s.sessionType, 1), ToBE(s.attributes, 1),
     ToBE(|s.nonceCaller|, 2) + s.nonceCaller, ToBE(|s.nonceTPM|, 2) + s.nonceTPM, ToBE(s.encrypt, 4),
     ToBE(s.decrypt, 4), ToBE(s.typePolicy, 4),
     ToBE(s.sizeSessionValue, 2) + s.sessionValue[..s.sizeSessionValue], ToBE(s.sizeHmacValue, 2)]
  }

  lemma SymPart(s: SymDef)
    ensures Encode(TPMT_SYM_DEF, SymValue(s)) == SymBytes(s)
  {
    SymDefWire(s.algorithm, s.keyBits, s.mode, if HasKeyBits(s.algorithm) then Num(s.keyBits) else Absent,
               if HasMode(s.algorithm) then Num(s.mode) else Absent);
    hide Encode, ToBE;
  }

  lemma SessionPart(s: Session, i: nat)
    requires s.sizeSessionValue <= |s.sessionValue| && i < 15
    ensures |SESSION_HEADS| == |SessionFields(s)| == 15
    ensures Encode(SESSION_HEADS[i], SessionFields(s)[i]) == SessionParts(s)[i]
  {
    hide EncodeFields, ToBE, SymValue, SymBytes;
    SymPart(s.symmetric);
    if i == 3 { hide Encode; } else if i < 7 { } else if i < 11 { } else { }
  }

  /** A session on the wire: bound entity, encrypted salt, salt, symmetric definition (of which
      key bits and mode only under the algorithms that have them), hash algorithm, session key,
      type, attributes, the caller's nonce, the TPM's nonce, whether it encrypts and decrypts,
      kind of policy, the counted bytes of the session value, the size of the HMAC key. */
  lemma SessionWire(s: Session)
    requires s.sizeSessionValue <= |s.sessionValue|
    ensures MiscBytes(SessionRsrc(s), true) == MiscBytes(SessionRsrc(s), false) == Cat([
              ToBE(|s.boundEntity|, 2) + s.boundEntity, ToBE(|s.encryptedSalt|, 2) + s.encryptedSalt,
              ToBE(|s.salt|, 2) + s.salt,
              ToBE(s.symmetric.algorithm, 2)
              + (if s.symmetric.algorithm in {0x0006, 0x0013, 0x0026, 0x000A} then ToBE(s.symmetric.keyBits, 2) else [])
              + (if s.symmetric.algorithm in {0x0006, 0x0013, 0x0026} then ToBE(s.symmetric.mode, 2) else []),
              ToBE(s.authHash, 2), ToBE(|s.sessionKey|, 2) + s.sessionKey, ToBE(s.sessionType, 1),
              ToBE(s.attributes, 1), ToBE(|s.nonceCaller|, 2) + s.nonceCaller, ToBE(|s.nonceTPM|, 2) + s.nonceTPM,
              ToBE(s.encrypt, 4), ToBE(s.decrypt, 4), ToBE(s.typePolicy, 4),
              ToBE(s.sizeSessionValue, 2) + s.sessionValue[..s.sizeSessionValue], ToBE(s.sizeHmacValue, 2)])
  {
    hide Encode, EncodeFields, ToBE, FromHeads, SessionFields, Cat;
    SessionPart(s, 0);
    forall i | 0 <= i < 15 ensures SessionParts(s)[i] == Encode(SESSION_HEADS[i], SessionFields(s)[i]) {
      SessionPart(s, i);
    }
    HeadsWire(SESSION_HEADS, [], SessionFields(s), SessionParts(s));
    RecordFields(FromHeads(SESSION_HEADS), SessionFields(s));
    NothingBehind(ToBE(s.symmetric.algorithm, 2));
    NothingBehind(ToBE(s.symmetric.algorithm, 2) + ToBE(s.symmetric.keyBits, 2));
  }

  /** How long the parts of a session may be, and which constants can be read back. */
  lemma SessionLimits(s: Session)
    ensures SessionStorable(s) <==>
            && |s.boundEntity| <= 68 && |s.encryptedSalt| <= 512 && |s.salt| <= 64 && |s.sessionKey| <= 64
            && |s.nonceCaller| <= 64 && |s.nonceTPM| <= 64
            && s.symmetric.algorithm < 0x1_0000 && s.symmetric.keyBits < 0x1_0000 && s.symmetric.mode < 0x1_0000
            && s.authHash < 0x1_0000 && s.sessionType < 256 && s.attributes < 256
            && s.encrypt < 0x1_0000_0000 && s.decrypt < 0x1_0000_0000 && s.typePolicy < 0x1_0000_0000
            && s.sizeSessionValue <= 128 && |s.sessionValue| == 128 && s.sizeHmacValue < 0x1_0000
    ensures SessionWellFormed(s) <==>
            SessionStorable(s) && s.encrypt in {0, 1} && s.decrypt in {0, 1} && s.typePolicy in {0, 1, 2}
  {
    Pow256Facts();
    hide Pow256;
  }

  /** The parts of the union: nothing, a sized public area, or a session. Without a buffer a
      sized area counts as long as the size stored next to it. */
  lemma MiscWire(n: nat, area: Value, tag: nat)
    ensures MiscBytes(NoMisc, true) == MiscBytes(OtherMisc(tag), true) == []
    ensures MiscBytes(KeyRsrc(n, area), true) ==
            ToBE(|Encode(TPMT_PUBLIC, area)|, 2) + Encode(TPMT_PUBLIC, area)
    ensures MiscBytes(NvRsrc(n, area), true) ==
            ToBE(|Encode(TPMS_NV_PUBLIC, area)|, 2) + Encode(TPMS_NV_PUBLIC, area)
    ensures |MiscBytes(KeyRsrc(n, area), false)| == |MiscBytes(NvRsrc(n, area), false)| == 2 + n
  {
    hide Encode, ToBE;
  }

  /** Reading a sized area: what its size field is held against, and what is left of a member
      that cannot be read. */
  lemma SubRead(f: Format, stored: nat, input: seq<byte>)
    ensures DecodeSub(f, stored, input, true) ==
            if |input| < 2 then Err(MuInsufficientBuffer)
            else if stored != 0 then Err(SysBadValue)
            else
              var n := 256 * (input[0] as int) + input[1];
              if n > |input| - 2 || SizeOf(f) < n then Err(MuInsufficientBuffer)
              else match Decode(f, input[2..], true)
                   case Ok(v, m) => Ok(Sub(n, v), 2 + m)
                   case Err(rc) => if rc == OutOfBounds then Err(rc) else Ok(Sub(n, Absent), 2)
  {
    if |input| >= 2 { FrontPair(input); }
    hide Decode, FromBE, SizeOf;
  }

  /** There are four types of resources, each with its own reader. */
  lemma TypeRead(tag: nat, input: seq<byte>)
    ensures tag in RSRC_TYPES <==> tag < 4
    ensures tag == 0 ==> DecodeMisc(tag, input) == Ok(NoMisc, 0)
    ensures tag == 1 ==> (DecodeMisc(tag, input).Ok? <==> DecodeSub(TPMT_PUBLIC, 0, input, true).Ok?)
    ensures tag == 2 ==> (DecodeMisc(tag, input).Ok? <==> DecodeSub(TPMS_NV_PUBLIC, 0, input, true).Ok?)
    ensures tag >= 4 ==> DecodeMisc(tag, input) == Err(SysBadValue)
  {
    hide DecodeSub, DecodeFields, FromHeads, SessionOf;
  }

  /** A resource on the wire: the TPM's handle, the sized name, the type, the part under it. */
  lemma ResourceWire(r: Resource)
    ensures ResourceBytes(r, true) ==
            ToBE(r.handle, 4) + (ToBE(|r.name|, 2) + r.name)
            + ToBE(match r.misc
                   case NoMisc => 0
                   case KeyRsrc(_, _) => 1
                   case NvRsrc(_, _) => 2
                   case SessionRsrc(_) => 3
                   case OtherMisc(t) => t, 4)
            + MiscBytes(r.misc, true)
    ensures |ResourceBytes(r, false)| == 10 + |r.name| + |MiscBytes(r.misc, false)|
  {
    hide MiscBytes, ToBE;
    Flat(ToBE(r.handle, 4), NameBytes(r.name), ToBE(RsrcType(r.misc), 4), MiscBytes(r.misc, true));
  }

  /** A serialized session, whole: what is in the buffer that Esys_TR_Serialize fills. */
  lemma SerializedSession(r: Resource)
    requires r.misc.SessionRsrc? && ResourceStorable(r)
    ensures var s := r.misc.session;
            && s.sizeSessionValue <= |s.sessionValue|
            && ResourceBytes(r, true) ==
               ToBE(r.handle, 4) + (ToBE(|r.name|, 2) + r.name) + ToBE(3, 4) + Cat([
                 ToBE(|s.boundEntity|, 2) + s.boundEntity, ToBE(|s.encryptedSalt|, 2) + s.encryptedSalt,
                 ToBE(|s.salt|, 2) + s.salt,
                 ToBE(s.symmetric.algorithm, 2)
                 + (if s.symmetric.algorithm in {0x0006, 0x0013, 0x0026, 0x000A} then ToBE(s.symmetric.keyBits, 2)
                    else [])
                 + (if s.symmetric.algorithm in {0x0006, 0x0013, 0x0026} then ToBE(s.symmetric.mode, 2) else []),
                 ToBE(s.authHash, 2), ToBE(|s.sessionKey|, 2) + s.sessionKey, ToBE(s.sessionType, 1),
                 ToBE(s.attributes, 1), ToBE(|s.nonceCaller|, 2) + s.nonceCaller,
                 ToBE(|s.nonceTPM|, 2) + s.nonceTPM, ToBE(s.encrypt, 4), ToBE(s.decrypt, 4), ToBE(s.typePolicy, 4),
                 ToBE(s.sizeSessionValue, 2) + s.sessionValue[..s.sizeSessionValue], ToBE(s.sizeHmacValue, 2)])
  {
    SessionLimits(r.misc.session);
    hide *;
    ResourceWire(r);
    SessionWire(r.misc.session);
  }

  lemma LoadedIs(t: Table, r: Resource, bytes: seq<byte>, tail: seq<byte>, left: Resource)
    requires ResourceWellFormed(r) && Settled(r) == r && bytes == ResourceBytes(r, true) + tail
    ensures LoadFits(bytes) && DecodeResource(bytes) == Ok(r, |bytes| - |tail|)
    ensures AfterLoad(t, bytes, left) == Table([Entry(t.cnt, [], r)] + t.entries, (t.cnt + 1) % 0x1_0000_0000)
  {
    hide ResourceWellFormed, ResourceBytes, DecodeResource, LoadFits, Settled;
    ResourceRoundTrip(r, tail);
    WellFormedFits(r, tail);
  }

  /** Loading the bytes of a session gives that session, field by field, under the next handle
      and without an authorization value, whatever follows the bytes. */
  lemma LoadSession(t: Table, handle: nat, name: seq<byte>, s: Session, tail: seq<byte>, left: Resource)
    requires handle < 0x1_0000_0000 && |name| <= 68 && SessionWellFormed(s)
    requires forall i :: s.sizeSessionValue <= i < |s.sessionValue| ==> s.sessionValue[i] == 0
    requires s.symmetric.algorithm in {0x0006, 0x0013, 0x0026, 0x000A} || s.symmetric.keyBits == 0
    requires s.symmetric.algorithm in {0x0006, 0x0013, 0x0026} || s.symmetric.mode == 0
    ensures s.sizeSessionValue <= |s.sessionValue|
    ensures var bytes := ToBE(handle, 4) + (ToBE(|name|, 2) + name) + ToBE(3, 4) + Cat([
              ToBE(|s.boundEntity|, 2) + s.boundEntity, ToBE(|s.encryptedSalt|, 2) + s.encryptedSalt,
              ToBE(|s.salt|, 2) + s.salt,
              ToBE(s.symmetric.algorithm, 2)
              + (if s.symmetric.algorithm in {0x0006, 0x0013, 0x0026, 0x000A} then ToBE(s.symmetric.keyBits, 2) else [])
              + (if s.symmetric.algorithm in {0x0006, 0x0013, 0x0026} then ToBE(s.symmetric.mode, 2) else []),
              ToBE(s.authHash, 2), ToBE(|s.sessionKey|, 2) + s.sessionKey, ToBE(s.sessionType, 1),
              ToBE(s.attributes, 1), ToBE(|s.nonceCaller|, 2) + s.nonceCaller, ToBE(|s.nonceTPM|, 2) + s.nonceTPM,
              ToBE(s.encrypt, 4), ToBE(s.decrypt, 4), ToBE(s.typePolicy, 4),
              ToBE(s.sizeSessionValue, 2) + s.sessionValue[..s.sizeSessionValue], ToBE(s.sizeHmacValue, 2)]) + tail;
            && LoadFits(bytes) && DecodeResource(bytes) == Ok(Resource(handle, name, SessionRsrc(s)), |bytes| - |tail|)
            && AfterLoad(t, bytes, left) ==
               Table([Entry(t.cnt, [], Resource(handle, name, SessionRsrc(s)))] + t.entries,
                     (t.cnt + 1) % 0x1_0000_0000)
  {
    hide *;
    var r := Resource(handle, name, SessionRsrc(s));
    SessionReadable(r);
    SessionWire(s);
    ResourceWire(r);
    LoadedIs(t, r, ResourceBytes(r, true) + tail, tail, left);
  }

  lemma SessionReadable(r: Resource)
    requires r.handle < 0x1_0000_0000 && |r.name| <= 68 && r.misc.SessionRsrc? && SessionWellFormed(r.misc.session)
    ensures r.misc.session.sizeSessionValue <= |r.misc.session.sessionValue| && ResourceWellFormed(r)
    ensures Settled(r) == r <==>
            var s := r.misc.session;
            && (forall i :: s.sizeSessionValue <= i < |s.sessionValue| ==> s.sessionValue[i] == 0)
            && (s.symmetric.algorithm in {0x0006, 0x0013, 0x0026, 0x000A} || s.symmetric.keyBits == 0)
            && (s.symmetric.algorithm in {0x0006, 0x0013, 0x0026} || s.symmetric.mode == 0)
  {
    Pow256Facts();
    hide Pow256, Settled;
    SettledResourceIff(r);
  }

  /** The same for an object under a sized public area, of a key or of an NV index, and for a
      resource that has neither. */
  lemma LoadPublic(t: Table, handle: nat, name: seq<byte>, nv: bool, area: Value, tail: seq<byte>, left: Resource)
    requires handle < 0x1_0000_0000 && |name| <= 68
    requires Holds(WellFormed, if nv then TPMS_NV_PUBLIC else TPMT_PUBLIC, area)
    ensures var body := if nv then Encode(TPMS_NV_PUBLIC, area) else Encode(TPMT_PUBLIC, area);
            var misc := if nv then NvRsrc(|body|, area) else KeyRsrc(|body|, area);
            var bytes := ToBE(handle, 4) + (ToBE(|name|, 2) + name) + ToBE(if nv then 2 else 1, 4)
                         + (ToBE(|body|, 2) + body) + tail;
            && LoadFits(bytes) && DecodeResource(bytes) == Ok(Resource(handle, name, misc), |bytes| - |tail|)
            && AfterLoad(t, bytes, left) ==
               Table([Entry(t.cnt, [], Resource(handle, name, misc))] + t.entries, (t.cnt + 1) % 0x1_0000_0000)
  {
    hide *;
    var body := if nv then Encode(TPMS_NV_PUBLIC, area) else Encode(TPMT_PUBLIC, area);
    var r := Resource(handle, name, if nv then NvRsrc(|body|, area) else KeyRsrc(|body|, area));
    PublicReadable(r);
    MiscWire(|body|, area, 0);
    ResourceWire(r);
    LoadedIs(t, r, ResourceBytes(r, true) + tail, tail, left);
  }

  lemma PublicReadable(r: Resource)
    requires r.handle < 0x1_0000_0000 && |r.name| <= 68
    requires r.misc.KeyRsrc? || r.misc.NvRsrc?
    requires r.misc.KeyRsrc? ==>
               Holds(WellFormed, TPMT_PUBLIC, r.misc.pub) && r.misc.keySize == |Encode(TPMT_PUBLIC, r.misc.pub)|
    requires r.misc.NvRsrc? ==>
               Holds(WellFormed, TPMS_NV_PUBLIC, r.misc.nv) && r.misc.nvSize == |Encode(TPMS_NV_PUBLIC, r.misc.nv)|
    ensures ResourceWellFormed(r) && Settled(r) == r
  {
    Pow256Facts();
    PublicLengths();
    if r.misc.KeyRsrc? {
      GradesNested(TPMT_PUBLIC, r.misc.pub);
      EncodeBounded(TPMT_PUBLIC, r.misc.pub);
    } else {
      GradesNested(TPMS_NV_PUBLIC, r.misc.nv);
      EncodeBounded(TPMS_NV_PUBLIC, r.misc.nv);
    }
    hide Pow256, Encode, Holds, MaxLen;
  }
}
