/** Marshaling of sessions, of the resource union and of whole resources (esys_mu.c). */
module EsysResource {
  import opened TpmBase
  import opened MuFormat
  import opened MuLaws
  import opened MuBounds
  import opened MuUnmarshal
  import opened TpmFormats
  import opened TpmUnchecked
  import opened EsysMu

  // ---------------------------------------------------------------- sessions as records

  predicate HasKeyBits(alg: nat) { alg == ALG_AES || alg == ALG_SM4 || alg == ALG_CAMELLIA || alg == ALG_XOR }

  predicate HasMode(alg: nat) { alg == ALG_AES || alg == ALG_SM4 || alg == ALG_CAMELLIA }

  function SymValue(s: SymDef): Value {
    Rec([Num(s.algorithm), if HasKeyBits(s.algorithm) then Num(s.keyBits) else Absent,
         if HasMode(s.algorithm) then Num(s.mode) else Absent])
  }

  function NumOf(v: Value): nat { if v.Num? then v.n else 0 }

  function BytesOf(v: Value): seq<byte> { if v.Bytes? then v.bs else [] }

  function SymOf(v: Value): SymDef {
    if v.Rec? && |v.vals| == 3 then SymDef(NumOf(v.vals[0]), NumOf(v.vals[1]), NumOf(v.vals[2])) else SymDef(0, 0, 0)
  }

  function SessionFields(s: Session): seq<Value>
    requires s.sizeSessionValue <= |s.sessionValue|
  {
    [Bytes(s.boundEntity), Bytes(s.encryptedSalt), Bytes(s.salt), SymValue(s.symmetric), Num(s.authHash),
     Bytes(s.sessionKey), Num(s.sessionType), Num(s.attributes), Bytes(s.nonceCaller), Bytes(s.nonceTPM),
     Num(s.encrypt), Num(s.decrypt), Num(s.typePolicy), Bytes(s.sessionValue[..s.sizeSessionValue]),
     Num(s.sizeHmacValue)]
  }

  /** The array behind the bytes read, the rest of it cleared as memset left it. */
  function Padded(bs: seq<byte>): (r: seq<byte>)
    requires |bs| <= SESSION_VALUE_MAX
    ensures |r| == SESSION_VALUE_MAX && bs <= r
  {
    bs + Zeros(SESSION_VALUE_MAX - |bs|)
  }

  function SessionOf(vs: seq<Value>): (s: Session)
    requires |vs| == 15 && |BytesOf(vs[13])| <= SESSION_VALUE_MAX
    ensures s.sizeSessionValue <= |s.sessionValue| == SESSION_VALUE_MAX
  {
    Session(BytesOf(vs[0]), BytesOf(vs[1]), BytesOf(vs[2]), SymOf(vs[3]), NumOf(vs[4]), BytesOf(vs[5]), NumOf(vs[6]),
            NumOf(vs[7]), BytesOf(vs[8]), BytesOf(vs[9]), NumOf(vs[10]), NumOf(vs[11]), NumOf(vs[12]),
            |BytesOf(vs[13])|, Padded(BytesOf(vs[13])), NumOf(vs[14]))
  }

  /** The session fits its C structure. */
  ghost predicate SessionStorable(s: Session) {
    && |s.boundEntity| <= NAME_MAX && |s.encryptedSalt| <= SECRET_MAX && |s.salt| <= DIGEST_MAX
    && s.symmetric.algorithm < Pow256(2) && s.symmetric.keyBits < Pow256(2) && s.symmetric.mode < Pow256(2)
    && s.authHash < Pow256(2) && |s.sessionKey| <= DIGEST_MAX && s.sessionType < 256 && s.attributes < 256
    && |s.nonceCaller| <= DIGEST_MAX && |s.nonceTPM| <= DIGEST_MAX
    && s.encrypt < Pow256(4) && s.decrypt < Pow256(4) && s.typePolicy < Pow256(4)
    && s.sizeSessionValue <= |s.sessionValue| == SESSION_VALUE_MAX && s.sizeHmacValue < Pow256(2)
  }

  /** The session's constants are ones the unmarshaler knows. */
  ghost predicate SessionWellFormed(s: Session) {
    SessionStorable(s) && s.encrypt <= 1 && s.decrypt <= 1 && s.typePolicy <= 2
  }

  /** What a session looks like after a trip over the wire: bytes past the counted ones and
      union members of the symmetric definition that are not selected come back as zero. */
  function SettledSym(s: SymDef): SymDef {
    SymDef(s.algorithm, if HasKeyBits(s.algorithm) then s.keyBits else 0, if HasMode(s.algorithm) then s.mode else 0)
  }

  function SettledSession(s: Session): Session
    requires s.sizeSessionValue <= |s.sessionValue| && s.sizeSessionValue <= SESSION_VALUE_MAX
  {
    s.(symmetric := SettledSym(s.symmetric), sessionValue := Padded(s.sessionValue[..s.sizeSessionValue]))
  }

  lemma SessionThere(s: Session)
    requires s.sizeSessionValue <= |s.sessionValue| == SESSION_VALUE_MAX
    ensures SessionOf(SessionFields(s)) == SettledSession(s)
  {
  }

  lemma SymHolds(g: Grade, s: SymDef)
    requires s.algorithm < Pow256(2) && s.keyBits < Pow256(2) && s.mode < Pow256(2)
    ensures Holds(g, TPMT_SYM_DEF, SymValue(s))
  {
    var a := s.algorithm;
    var k, m := if HasKeyBits(a) then Num(s.keyBits) else Absent, if HasMode(a) then Num(s.mode) else Absent;
    var vs := [Num(a), k, m];
    assert vs[1..] == [k, m] && [k, m][1..] == [m] && [m][1..] == [];
    var e1 := [] + [Num(a)];
    var e2 := e1 + [k];
    assert SelectorOf(e1, 0) == a && SelectorOf(e2, 0) == a;
    assert HoldsCase(g, TPMU_SYM_KEY_BITS, a, k);
    assert HoldsCase(g, TPMU_SYM_MODE, a, m);
    assert HoldsFields(g, End, e2 + [m], []);
    assert HoldsFields(g, TPMT_SYM_DEF.fields.tail.tail, e2, [m]);
    assert HoldsFields(g, TPMT_SYM_DEF.fields.tail, e1, [k, m]);
  }

  lemma Pow256Facts()
    ensures Pow256(1) == 256 && Pow256(2) == 65536 && Pow256(4) == 0x1_0000_0000
  {
    assert Pow256(3) == 256 * Pow256(2);
  }

  lemma SessionHolds(s: Session)
    requires SessionStorable(s)
    ensures Holds(Printable, IESYS_SESSION, Rec(SessionFields(s)))
    ensures SessionWellFormed(s) ==> Holds(WellFormed, IESYS_SESSION, Rec(SessionFields(s)))
  {
    SessionFieldsHold(Printable, s);
    if SessionWellFormed(s) { SessionFieldsHold(WellFormed, s); }
  }

  lemma SessionFieldsHold(g: Grade, s: Session)
    requires SessionStorable(s) && (g == WellFormed ==> SessionWellFormed(s))
    ensures Holds(g, IESYS_SESSION, Rec(SessionFields(s)))
  {
    hide HoldsFields, Pow256, SessionFields, SessionStorable, SessionWellFormed;
    SessionHas15(s);
    var vs := SessionFields(s);
    HoldsHeads(g, SESSION_HEADS, [], vs);
    forall i | 0 <= i < |SESSION_HEADS| ensures Holds(g, SESSION_HEADS[i], vs[i]) {
      SessionFieldHolds(g, s, i);
    }
  }

  lemma SessionHas15(s: Session)
    requires SessionStorable(s)
    ensures s.sizeSessionValue <= |s.sessionValue| && |SessionFields(s)| == |SESSION_HEADS| == 15
  {
  }

  lemma SessionFieldHolds(g: Grade, s: Session, i: nat)
    requires SessionStorable(s) && (g == WellFormed ==> SessionWellFormed(s))
    requires i < |SESSION_HEADS|
    ensures Holds(g, SESSION_HEADS[i], SessionFields(s)[i])
  {
    Pow256Facts();
    hide HoldsFields, Pow256;
    var v := SessionFields(s)[i];
    if i == 3 {
      SymHolds(g, s.symmetric);
    } else if i < 4 {
    } else if i < 8 {
    } else if i < 11 {
    } else {
    }
  }

  // ---------------------------------------------------------------- the resource union

  function RsrcType(m: Misc): nat {
    match m
    case NoMisc => WITHOUT_MISC_RSRC
    case KeyRsrc(_, _) => KEY_RSRC
    case NvRsrc(_, _) => NV_RSRC
    case SessionRsrc(_) => SESSION_RSRC
    case OtherMisc(t) => t
  }

  ghost predicate MiscStorable(m: Misc) {
    match m
    case NoMisc => true
    case KeyRsrc(n, pub) => n < Pow256(2) && Holds(Storable, TPMT_PUBLIC, pub)
    case NvRsrc(n, nv) => n < Pow256(2) && Holds(Storable, TPMS_NV_PUBLIC, nv)
    case SessionRsrc(s) => SessionStorable(s)
    case OtherMisc(t) => SESSION_RSRC < t < Pow256(4)
  }

  ghost predicate MiscWellFormed(m: Misc) {
    match m
    case NoMisc => true
    case KeyRsrc(n, pub) => n < Pow256(2) && Holds(WellFormed, TPMT_PUBLIC, pub)
    case NvRsrc(n, nv) => n < Pow256(2) && Holds(WellFormed, TPMS_NV_PUBLIC, nv)
    case SessionRsrc(s) => SessionWellFormed(s)
    case OtherMisc(t) => false
  }

  /** The bytes of the selected member; without a buffer the sized ones count as stored. */
  function MiscBytes(m: Misc, present: bool): seq<byte> {
    match m
    case NoMisc => []
    case KeyRsrc(n, pub) => SubBytes(TPMT_PUBLIC, n, pub, present)
    case NvRsrc(n, nv) => SubBytes(TPMS_NV_PUBLIC, n, nv, present)
    case SessionRsrc(s) =>
      if s.sizeSessionValue <= |s.sessionValue| then Encode(IESYS_SESSION, Rec(SessionFields(s))) else []
    case OtherMisc(_) => []
  }

  ghost predicate MiscPrintable(m: Misc, present: bool) {
    match m
    case KeyRsrc(_, pub) => !present || Holds(Printable, TPMT_PUBLIC, pub)
    case NvRsrc(_, nv) => !present || Holds(Printable, TPMS_NV_PUBLIC, nv)
    case OtherMisc(_) => false
    case _ => true
  }

  function DecodeMisc(tag: nat, input: seq<byte>): Parse<Misc> {
    if tag == KEY_RSRC then
      match DecodeSub(TPMT_PUBLIC, 0, input, true)
      case Err(rc) => Err(rc)
      case Ok(sub, n) => Ok(KeyRsrc(sub.size, sub.member), n)
    else if tag == NV_RSRC then
      match DecodeSub(TPMS_NV_PUBLIC, 0, input, true)
      case Err(rc) => Err(rc)
      case Ok(sub, n) => Ok(NvRsrc(sub.size, sub.member), n)
    else if tag == SESSION_RSRC then
      match DecodeFields(FromHeads(SESSION_HEADS), input, [], true)
      case Err(rc) => Err(rc)
      case Ok(vs, n) =>
        if |vs| == 15 && |BytesOf(vs[13])| <= SESSION_VALUE_MAX then Ok(SessionRsrc(SessionOf(vs)), n)
        else Err(SysBadValue)
    else if tag == WITHOUT_MISC_RSRC then Ok(NoMisc, 0)
    else Err(SysBadValue)
  }

  /** What a resource's misc part comes back as: the true length next to a public area. */
  function SettledMisc(m: Misc): Misc {
    match m
    case KeyRsrc(_, pub) => KeyRsrc(|Encode(TPMT_PUBLIC, pub)|, pub)
    case NvRsrc(_, nv) => NvRsrc(|Encode(TPMS_NV_PUBLIC, nv)|, nv)
    case SessionRsrc(s) =>
      if s.sizeSessionValue <= |s.sessionValue| == SESSION_VALUE_MAX then SessionRsrc(SettledSession(s)) else m
    case _ => m
  }

  /** The size fields stored next to public areas are their true lengths. */
  predicate Truthful(m: Misc) {
    match m
    case KeyRsrc(n, pub) => n == |Encode(TPMT_PUBLIC, pub)|
    case NvRsrc(n, nv) => n == |Encode(TPMS_NV_PUBLIC, nv)|
    case _ => true
  }

  lemma MiscRoundTrip(m: Misc, tail: seq<byte>)
    requires MiscWellFormed(m)
    ensures DecodeMisc(RsrcType(m), MiscBytes(m, true) + tail) == Ok(SettledMisc(m), |MiscBytes(m, true)|)
  {
    PublicSizes();
    Pow256Facts();
    match m {
      case KeyRsrc(_, pub) =>
        SubRoundTrip(TPMT_PUBLIC, pub, tail);
        hide Decode, Encode, Holds, SizeOf, DecodeSub, EncodeSub;
      case NvRsrc(_, nv) =>
        SubRoundTrip(TPMS_NV_PUBLIC, nv, tail);
        hide Decode, Encode, Holds, SizeOf, DecodeSub, EncodeSub;
      case SessionRsrc(s) => SessionRoundTrip(s, tail);
      case NoMisc => hide Decode, Encode, DecodeSub;
    }
  }

  lemma SessionRoundTrip(s: Session, tail: seq<byte>)
    requires SessionWellFormed(s)
    ensures s.sizeSessionValue <= |s.sessionValue| == SESSION_VALUE_MAX
    ensures var bytes := Encode(IESYS_SESSION, Rec(SessionFields(s)));
            DecodeMisc(SESSION_RSRC, bytes + tail) == Ok(SessionRsrc(SettledSession(s)), |bytes|)
  {
    hide DecodeFields, EncodeFields, HoldsFields, FromHeads, SessionFields, SettledSession, SessionOf;
    SessionHolds(s);
    SessionHas15(s);
    SessionThere(s);
    RoundTripFields(FromHeads(SESSION_HEADS), [], SessionFields(s), tail);
    SessionValueCounted(s);
    hide SessionWellFormed, DecodeSub;
  }

  lemma SessionValueCounted(s: Session)
    requires SessionWellFormed(s)
    ensures |SessionFields(s)| == 15 && |BytesOf(SessionFields(s)[13])| <= SESSION_VALUE_MAX
    ensures s.sizeSessionValue <= |s.sessionValue| == SESSION_VALUE_MAX
  {
    hide Pow256;
  }

  // ---------------------------------------------------------------- resources

  ghost predicate ResourceStorable(r: Resource) {
    r.handle < Pow256(4) && |r.name| <= NAME_MAX && MiscStorable(r.misc)
  }

  ghost predicate ResourceWellFormed(r: Resource) {
    r.handle < Pow256(4) && |r.name| <= NAME_MAX && MiscWellFormed(r.misc)
  }

  function NameBytes(name: seq<byte>): seq<byte> { ToBE(|name|, 2) + name }

  function ResourceBytes(r: Resource, present: bool): seq<byte> {
    ToBE(r.handle, 4) + (NameBytes(r.name) + (ToBE(RsrcType(r.misc), 4) + MiscBytes(r.misc, present)))
  }

  function Settled(r: Resource): Resource {
    r.(misc := SettledMisc(r.misc))
  }

  const RSRC_TYPES: seq<nat> := [KEY_RSRC, NV_RSRC, SESSION_RSRC, WITHOUT_MISC_RSRC]

  function DecodeResource(input: seq<byte>): Parse<Resource> {
    match Decode(UINT32, input, true)
    case Err(rc) => Err(rc)
    case Ok(handle, a) =>
      match Decode(TPM2B_NAME, Drop(input, a), true)
      case Err(rc) => Err(rc)
      case Ok(name, b) =>
        match Decode(Enum32(RSRC_TYPES), Drop(input, a + b), true)
        case Err(rc) => Err(rc)
        case Ok(tag, c) =>
          match DecodeMisc(NumOf(tag), Drop(input, a + b + c))
          case Err(rc) => Err(rc)
          case Ok(misc, d) => Ok(Resource(NumOf(handle), BytesOf(name), misc), a + b + c + d)
  }

  /** Four parts in a row, and what is left behind each of the first three. */
  lemma FourParts(h: seq<byte>, n: seq<byte>, t: seq<byte>, m: seq<byte>, tail: seq<byte>)
    ensures h + (n + (t + m)) + tail == h + (n + (t + (m + tail)))
    ensures Drop(h + (n + (t + (m + tail))), |h|) == n + (t + (m + tail))
    ensures Drop(h + (n + (t + (m + tail))), |h| + |n|) == t + (m + tail)
    ensures Drop(h + (n + (t + (m + tail))), |h| + |n| + |t|) == m + tail
  {
  }

  /** The three fields in front of the union, each read from its bytes and whatever follows. */
  lemma HeadFieldsRoundTrip(r: Resource, i1: seq<byte>, i2: seq<byte>, i3: seq<byte>)
    requires ResourceWellFormed(r)
    ensures Decode(UINT32, ToBE(r.handle, 4) + i1, true) == Ok(Num(r.handle), 4)
    ensures Decode(TPM2B_NAME, NameBytes(r.name) + i2, true) == Ok(Bytes(r.name), |NameBytes(r.name)|)
    ensures Decode(Enum32(RSRC_TYPES), ToBE(RsrcType(r.misc), 4) + i3, true) == Ok(Num(RsrcType(r.misc)), 4)
  {
    Pow256Facts();
    hide Pow256;
    RoundTrip(UINT32, Num(r.handle), i1);
    RoundTrip(TPM2B_NAME, Bytes(r.name), i2);
    RoundTrip(Enum32(RSRC_TYPES), Num(RsrcType(r.misc)), i3);
    hide Decode, ToBE;
  }

  /** Reading a marshaled resource returns it settled, and stops where its bytes end. */
  lemma ResourceRoundTrip(r: Resource, tail: seq<byte>)
    requires ResourceWellFormed(r)
    ensures DecodeResource(ResourceBytes(r, true) + tail) == Ok(Settled(r), |ResourceBytes(r, true)|)
  {
    hide Decode, DecodeMisc, MiscBytes, MiscWellFormed, NameBytes, ToBE, Pow256, Drop, SettledMisc;
    var h, n, t, m := ToBE(r.handle, 4), NameBytes(r.name), ToBE(RsrcType(r.misc), 4), MiscBytes(r.misc, true);
    FourParts(h, n, t, m, tail);
    HeadFieldsRoundTrip(r, n + (t + (m + tail)), t + (m + tail), m + tail);
    MiscRoundTrip(r.misc, tail);
  }

  // ---------------------------------------------------------------- loads that stay in bounds

  /** The counted bytes at the front of `rest` are copied into an array of 128 as soon as the
      input has them all. */
  predicate CountFits(rest: seq<byte>) {
    |rest| >= 2 ==> var n := FromBE(rest[..2]); n <= SESSION_VALUE_MAX || n > |rest| - 2
  }

  /** The fields of a session in front of the counted bytes, and the rest from those on. */
  const SESSION_FRONT: seq<Format> := SESSION_HEADS[..13]
  const SESSION_BACK: seq<Format> := SESSION_HEADS[13..]

  /** Reading a session stays within its array: the fields in front of the count cannot be
      read, or the count is small enough, or it is too large for the input. */
  predicate SessionFits(input: seq<byte>) {
    var front := DecodeFields(FromHeads(SESSION_FRONT), input, [], true);
    front.Ok? ==> CountFits(Drop(input, front.used))
  }

  /** The bytes can be loaded without a write out of bounds: they do not start with a handle,
      a name and the type of a session, or the session fits. */
  predicate LoadFits(input: seq<byte>) {
    var name := Decode(TPM2B_NAME, Drop(input, 4), true);
    var rest := if name.Ok? then Drop(input, 4 + name.used) else [];
    |input| >= 4 && |rest| >= 4 && FromBE(rest[..4]) == SESSION_RSRC ==> SessionFits(rest[4..])
  }

  lemma DropDrop(s: seq<byte>, n: nat, m: nat)
    ensures Drop(Drop(s, n), m) == Drop(s, n + m)
  {
  }

  /** Reading a record without unions: first some of its fields, then the others. */
  lemma {:induction false} HeadsSplit(a: seq<Format>, b: seq<Format>, input: seq<byte>, env: seq<Value>)
    ensures var p := DecodeFields(FromHeads(a), input, env, true);
            DecodeFields(FromHeads(a + b), input, env, true)
            == if p.Err? then p
               else Joined(p.value, p.used, DecodeFields(FromHeads(b), Drop(input, p.used), env + p.value, true))
  {
    hide *;
    DecodeHeads(a, input, env);
    DecodeHeads(a + b, input, env);
    if a == [] {
      assert a + b == b && env + [] == env;
      JoinedStart(DecodeFields(FromHeads(b), input, env, true));
      DropNone(input);
    } else {
      assert (a + b)[1..] == a[1..] + b && (a + b)[0] == a[0];
      var h := Decode(a[0], input, true);
      if h.Ok? {
        var rest, env1 := Drop(input, h.used), env + [h.value];
        HeadsSplit(a[1..], b, rest, env1);
        var q := DecodeFields(FromHeads(a[1..]), rest, env1, true);
        PrependIs(h.value, h.used, q);
        if q.Ok? {
          Assoc(env, [h.value], q.value);
          DropDrop(input, h.used, q.used);
          PrependJoined(h.value, h.used, q.value, q.used,
                        DecodeFields(FromHeads(b), Drop(rest, q.used), env1 + q.value, true));
        } else {
          PrependIs(h.value, h.used, DecodeFields(FromHeads(a[1..] + b), rest, env1, true));
        }
      }
    }
  }

  lemma DropNone(s: seq<byte>)
    ensures Drop(s, 0) == s
  {
  }

  lemma PrependIs(v: Value, n: nat, p: Parse<seq<Value>>)
    ensures Prepend(v, n, p) == if p.Err? then Err(p.rc) else Ok([v] + p.value, n + p.used)
  {
  }

  lemma DecodeHeads(hs: seq<Format>, input: seq<byte>, env: seq<Value>)
    ensures hs == [] ==> DecodeFields(FromHeads(hs), input, env, true) == Ok([], 0)
    ensures hs != [] ==>
              var h := Decode(hs[0], input, true);
              DecodeFields(FromHeads(hs), input, env, true) ==
              if h.Err? then Err(h.rc)
              else Prepend(h.value, h.used,
                           DecodeFields(FromHeads(hs[1..]), Drop(input, h.used), env + [h.value], true))
  {
    hide Decode, Drop, Prepend;
  }

  lemma PrependJoined(v: Value, n: nat, vs: seq<Value>, m: nat, p: Parse<seq<Value>>)
    ensures Prepend(v, n, Joined(vs, m, p)) == Joined([v] + vs, n + m, p)
  {
    if p.Ok? { Assoc([v], vs, p.value); }
  }

  lemma {:induction false} HeadsStay(hs: seq<Format>, input: seq<byte>, env: seq<Value>)
    requires forall i :: 0 <= i < |hs| ==> Unchecked(hs[i])
    ensures DecodeFields(FromHeads(hs), input, env, true) != Err(OutOfBounds)
  {
    if hs != [] {
      UncheckedStays(hs[0], input);
      var p := Decode(hs[0], input, true);
      if p.Ok? { HeadsStay(hs[1..], Drop(input, p.used), env + [p.value]); }
    }
  }

  lemma FrontUnchecked()
    ensures forall i :: 0 <= i < |SESSION_FRONT| ==> Unchecked(SESSION_FRONT[i])
  {
    SchemesUnchecked();
    hide Unchecked, UncheckedFields, UncheckedCases;
    forall i | 0 <= i < 13 ensures Unchecked(SESSION_HEADS[i]) {
      if i != 3 { assert !SESSION_HEADS[i].Record?; ScalarUnchecked(SESSION_HEADS[i]); }
    }
  }

  lemma ScalarUnchecked(f: Format)
    requires f.UInt? || f.Enum32? || f.Sized?
    ensures Unchecked(f)
  {
  }

  /** The two fields from the count on. */
  lemma BackFitsIff(rest: seq<byte>, env: seq<Value>)
    ensures DecodeFields(FromHeads(SESSION_BACK), rest, env, true) != Err(OutOfBounds) <==> CountFits(rest)
  {
    assert SESSION_BACK == [Counted(128), UINT16] && SESSION_BACK[1..] == [UINT16] && [UINT16][1..] == [];
    assert FromHeads([UINT16]) == Plain(UINT16, End);
    assert FromHeads(SESSION_BACK) == Plain(Counted(128), Plain(UINT16, End));
    var p := Decode(Counted(128), rest, true);
    if p.Ok? {
      assert DecodeFields(Plain(UINT16, End), Drop(rest, p.used), env + [p.value], true) != Err(OutOfBounds);
    }
  }

  lemma SessionFitsIff(input: seq<byte>)
    ensures SessionFits(input) <==> DecodeFields(FromHeads(SESSION_HEADS), input, [], true) != Err(OutOfBounds)
  {
    hide *;
    HeadsSplit(SESSION_FRONT, SESSION_BACK, input, []);
    FrontUnchecked();
    HeadsStay(SESSION_FRONT, input, []);
    HeadsWhole();
    SessionFitsIs(input);
    var front := DecodeFields(FromHeads(SESSION_FRONT), input, [], true);
    if front.Ok? {
      BackFitsIff(Drop(input, front.used), [] + front.value);
      JoinedErr(front.value, front.used,
                DecodeFields(FromHeads(SESSION_BACK), Drop(input, front.used), [] + front.value, true));
    }
  }

  lemma HeadsWhole()
    ensures SESSION_FRONT + SESSION_BACK == SESSION_HEADS
  {
  }

  lemma SessionFitsIs(input: seq<byte>)
    ensures var front := DecodeFields(FromHeads(SESSION_FRONT), input, [], true);
            SessionFits(input) <==> (front.Ok? ==> CountFits(Drop(input, front.used)))
  {
    hide DecodeFields, FromHeads, CountFits;
  }

  lemma JoinedErr(vs: seq<Value>, n: nat, p: Parse<seq<Value>>)
    ensures Joined(vs, n, p) == Err(OutOfBounds) <==> p == Err(OutOfBounds)
  {
  }

  lemma SubStays(f: Format, input: seq<byte>)
    requires Unchecked(f)
    ensures DecodeSub(f, 0, input, true) != Err(OutOfBounds)
  {
    if |input| >= 2 { UncheckedStays(f, input[2..]); }
    hide Decode, Unchecked, SizeOf;
  }

  lemma MiscFitsIff(tag: nat, input: seq<byte>)
    ensures DecodeMisc(tag, input) == Err(OutOfBounds) <==> tag == SESSION_RSRC && !SessionFits(input)
  {
    hide Decode, DecodeSub, DecodeFields, SessionFits, Unchecked, FromHeads, SessionOf;
    SessionFitsIff(input);
    PublicUnchecked();
    SubStays(TPMT_PUBLIC, input);
    SubStays(TPMS_NV_PUBLIC, input);
  }

  /** Reading a resource writes past an array exactly for the inputs that do not fit. */
  lemma LoadFitsIff(input: seq<byte>)
    ensures LoadFits(input) <==> DecodeResource(input) != Err(OutOfBounds)
  {
    hide Decode, DecodeMisc, SessionFits, FromBE, Drop;
    var name := Decode(TPM2B_NAME, Drop(input, 4), true);
    HeadScalars(input);
    if name.Ok? {
      var rest := Drop(input, 4 + name.used);
      HeadScalars(rest);
      if |rest| >= 4 {
        DropDrop(input, 4 + name.used, 4);
        DropFour(rest);
        MiscFitsIff(FromBE(rest[..4]), rest[4..]);
      }
    }
    NameStays(Drop(input, 4));
  }

  lemma DropFour(s: seq<byte>)
    requires |s| >= 4
    ensures Drop(s, 4) == s[4..]
  {
  }

  lemma NameStays(input: seq<byte>)
    ensures Decode(TPM2B_NAME, input, true) != Err(OutOfBounds)
  {
  }

  /** The two scalars a resource starts with. */
  lemma HeadScalars(input: seq<byte>)
    ensures Decode(UINT32, input, true) ==
            if |input| < 4 then Err(MuInsufficientBuffer) else Ok(Num(FromBE(input[..4])), 4)
    ensures Decode(Enum32(RSRC_TYPES), input, true) ==
            if |input| < 4 then Err(MuInsufficientBuffer)
            else if FromBE(input[..4]) !in RSRC_TYPES then Err(SysBadValue) else Ok(Num(FromBE(input[..4])), 4)
  {
    hide FromBE;
  }

  /** The member of a sized structure that was announced but could not be parsed. */
  predicate Missing(m: Misc) {
    (m.KeyRsrc? && m.pub == Absent) || (m.NvRsrc? && m.nv == Absent)
  }

  lemma SymWellFormed(v: Value)
    requires Holds(WellFormed, TPMT_SYM_DEF, v)
    ensures var s := SymOf(v); s.algorithm < Pow256(2) && s.keyBits < Pow256(2) && s.mode < Pow256(2)
  {
    var fs := TPMT_SYM_DEF.fields;
    var e1 := [] + [v.vals[0]];
    var w1 := v.vals[1..];
    assert HoldsFields(WellFormed, fs.tail, e1, w1);
    var a, e2, w2 := SelectorOf(e1, 0), e1 + [w1[0]], w1[1..];
    assert HoldsFields(WellFormed, fs.tail.tail, e2, w2);
    assert HoldsFields(WellFormed, End, e2 + [w2[0]], w2[1..]);
    hide HoldsFields;
    assert v.vals == [v.vals[0], w1[0], w2[0]];
    SymCaseSmall(TPMU_SYM_KEY_BITS, a, w1[0]);
    SymCaseSmall(TPMU_SYM_MODE, SelectorOf(e2, 0), w2[0]);
  }

  lemma SymCaseSmall(cs: Cases, tag: nat, v: Value)
    requires cs == TPMU_SYM_KEY_BITS || cs == TPMU_SYM_MODE
    requires HoldsCase(WellFormed, cs, tag, v)
    ensures NumOf(v) < Pow256(2)
  {
    if cs == TPMU_SYM_KEY_BITS {
      assert HoldsCase(WellFormed, TPMU_SYM_KEY_BITS.others.others, tag, v)
             || tag == TPMU_SYM_KEY_BITS.tag || tag == TPMU_SYM_KEY_BITS.others.tag;
    }
  }

  lemma SessionBackWellFormed(vs: seq<Value>)
    requires |vs| == 15 && forall i :: 0 <= i < 15 ==> Holds(WellFormed, SESSION_HEADS[i], vs[i])
    ensures |BytesOf(vs[13])| <= SESSION_VALUE_MAX && SessionWellFormed(SessionOf(vs))
  {
    hide HoldsFields, Pow256, Holds, SymOf, FieldSmall;
    Pow256Facts();
    SymWellFormed(vs[3]);
    forall i | 0 <= i < 15 ensures FieldSmall(SESSION_HEADS[i], vs[i]) { FieldIsSmall(SESSION_HEADS[i], vs[i]); }
    SessionSmall(vs);
  }

  lemma SessionSmall(vs: seq<Value>)
    requires |vs| == 15 && forall i :: 0 <= i < 15 ==> FieldSmall(SESSION_HEADS[i], vs[i])
    requires var s := SymOf(vs[3]); s.algorithm < Pow256(2) && s.keyBits < Pow256(2) && s.mode < Pow256(2)
    ensures |BytesOf(vs[13])| <= SESSION_VALUE_MAX && SessionWellFormed(SessionOf(vs))
  {
    Pow256Facts();
    hide Pow256, SymOf, Padded;
  }

  /** A value of a plain field is within what the field can hold. */
  predicate FieldSmall(f: Format, v: Value) {
    match f
    case UInt(w) => NumOf(v) < Pow256(w)
    case Enum32(allowed) => NumOf(v) in allowed
    case Sized(cap) => |BytesOf(v)| <= cap
    case Counted(cap) => |BytesOf(v)| <= cap
    case _ => true
  }

  lemma FieldIsSmall(f: Format, v: Value)
    requires Holds(WellFormed, f, v)
    ensures FieldSmall(f, v)
  {
  }

  lemma LoadedMisc(tag: nat, input: seq<byte>)
    requires DecodeMisc(tag, input).Ok?
    ensures var m := DecodeMisc(tag, input).value; if Missing(m) then !MiscStorable(m) else MiscWellFormed(m)
  {
    hide Decode, DecodeSub, DecodeFields, Holds, HoldsFields, FromHeads, SessionOf, SessionWellFormed, Pow256, FromBE;
    if tag == KEY_RSRC {
      LoadedSub(TPMT_PUBLIC, input);
    } else if tag == NV_RSRC {
      LoadedSub(TPMS_NV_PUBLIC, input);
    } else if tag == SESSION_RSRC {
      var p := DecodeFields(FromHeads(SESSION_HEADS), input, [], true);
      CanonicalFields(FromHeads(SESSION_HEADS), input, []);
      HoldsHeads(WellFormed, SESSION_HEADS, [], p.value);
      SessionBackWellFormed(p.value);
    }
  }

  lemma LoadedSub(f: Format, input: seq<byte>)
    requires f.Record? && DecodeSub(f, 0, input, true).Ok?
    ensures var sub := DecodeSub(f, 0, input, true).value;
            && sub.size < Pow256(2)
            && if sub.member == Absent then !Holds(Storable, f, sub.member) else Holds(WellFormed, f, sub.member)
  {
    ToFromBE(input[..2]);
    if Decode(f, input[2..], true).Ok? { Canonical(f, input[2..]); }
    RecordsPresent(f);
    hide Holds, Decode, Pow256, FromBE, SizeOf;
  }

  lemma RecordsPresent(f: Format)
    requires f.Record?
    ensures !Holds(Storable, f, Absent) && !Holds(WellFormed, f, Absent)
  {
  }

  /** What is loaded can be serialized and loaded again, unless it is a sized structure whose
      member could not be parsed. */
  lemma LoadedWellFormed(input: seq<byte>)
    requires DecodeResource(input).Ok?
    ensures var r := DecodeResource(input).value;
            if Missing(r.misc) then !ResourceStorable(r) else ResourceWellFormed(r)
  {
    Pow256Facts();
    hide MiscStorable, MiscWellFormed, DecodeMisc, Missing, Pow256;
    var name := Decode(TPM2B_NAME, Drop(input, 4), true);
    ToFromBE(input[..4]);
    var at := 4 + name.used;
    DropDrop(input, at, 4);
    LoadedMisc(FromBE(Drop(input, at)[..4]), Drop(input, at + 4));
    hide FromBE;
  }

  /** A session with the counted bytes `body`, however many, up to the end of those. */
  function LongSession(s: Session, body: seq<byte>): seq<byte>
    requires s.sizeSessionValue <= |s.sessionValue|
  {
    EncodeFields(FromHeads(SESSION_FRONT), [], SessionFields(s)[..13]) + (ToBE(|body|, 2) + body)
  }

  lemma LongSessionMisfits(s: Session, body: seq<byte>)
    requires SessionWellFormed(s) && SESSION_VALUE_MAX < |body| < Pow256(2)
    ensures !SessionFits(LongSession(s, body))
  {
    hide SessionFields, FromHeads, Holds, HoldsFields, DecodeFields, EncodeFields, SessionFits, Pow256;
    SessionHas15(s);
    var front, rest := SessionFields(s)[..13], ToBE(|body|, 2) + body;
    forall i | 0 <= i < 13 ensures Holds(WellFormed, SESSION_FRONT[i], front[i]) {
      SessionFieldHolds(WellFormed, s, i);
    }
    HoldsHeads(WellFormed, SESSION_FRONT, [], front);
    RoundTripFields(FromHeads(SESSION_FRONT), [], front, rest);
    SplitFront(EncodeFields(FromHeads(SESSION_FRONT), [], front), rest);
    SplitFront(ToBE(|body|, 2), body);
    FromToBE(|body|, 2);
    SessionFitsIs(LongSession(s, body));
    hide FromBE, ToBE;
    assert rest[..2] == ToBE(|body|, 2);
  }

  /** With more than 128 session value bytes behind a well-formed start, a load misfits: the
      failing inputs are those of any handle, any name and any session. */
  lemma LongLoadMisfits(handle: nat, name: seq<byte>, s: Session, body: seq<byte>)
    requires handle < Pow256(4) && |name| <= NAME_MAX
    requires SessionWellFormed(s) && SESSION_VALUE_MAX < |body| < Pow256(2)
    ensures !LoadFits(ToBE(handle, 4) + (NameBytes(name) + (ToBE(SESSION_RSRC, 4) + LongSession(s, body))))
  {
    var r := Resource(handle, name, SessionRsrc(s));
    var h, n, t, m := ToBE(handle, 4), NameBytes(name), ToBE(SESSION_RSRC, 4), LongSession(s, body);
    LongSessionMisfits(s, body);
    SessionTypeIs(r);
    hide *;
    FourPartsFront(h, n, t, m);
    HeadFieldsRoundTrip(r, n + (t + m), t + m, m);
    LoadFitsBehind(h + (n + (t + m)), Bytes(name), |n|, t, m);
  }

  lemma SessionTypeIs(r: Resource)
    ensures FromBE(ToBE(SESSION_RSRC, 4)) == SESSION_RSRC
    ensures r.handle < Pow256(4) && |r.name| <= NAME_MAX && r.misc.SessionRsrc? && SessionWellFormed(r.misc.session)
            ==> ResourceWellFormed(r)
  {
    Pow256Facts();
    FromToBE(SESSION_RSRC, 4);
    hide SessionWellFormed;
  }

  lemma LoadFitsBehind(input: seq<byte>, name: Value, used: nat, t: seq<byte>, m: seq<byte>)
    requires |input| >= 4 && Decode(TPM2B_NAME, Drop(input, 4), true) == Ok(name, used)
    requires Drop(input, 4 + used) == t + m && |t| == 4 && FromBE(t) == SESSION_RSRC
    ensures LoadFits(input) <==> SessionFits(m)
  {
    hide Decode, FromBE, SessionFits;
    SplitFront(t, m);
  }

  lemma FourPartsFront(h: seq<byte>, n: seq<byte>, t: seq<byte>, m: seq<byte>)
    ensures Drop(h + (n + (t + m)), |h|) == n + (t + m)
    ensures Drop(h + (n + (t + m)), |h| + |n|) == t + m
  {
  }

  /** A resource that can be read back never leads to a write out of bounds. */
  lemma WellFormedFits(r: Resource, tail: seq<byte>)
    requires ResourceWellFormed(r)
    ensures LoadFits(ResourceBytes(r, true) + tail)
  {
    hide LoadFits, DecodeResource, ResourceBytes, ResourceWellFormed, Settled;
    ResourceRoundTrip(r, tail);
    LoadFitsIff(ResourceBytes(r, true) + tail);
  }

  /** Nothing stands in a session where the wire has no place for it: zeros behind the counted
      bytes, no key bits and no mode unless the algorithm selects them. */
  ghost predicate NothingHidden(s: Session) {
    && (forall i :: s.sizeSessionValue <= i < |s.sessionValue| ==> s.sessionValue[i] == 0)
    && (HasKeyBits(s.symmetric.algorithm) || s.symmetric.keyBits == 0)
    && (HasMode(s.symmetric.algorithm) || s.symmetric.mode == 0)
  }

  lemma SettledIff(s: Session)
    requires s.sizeSessionValue <= |s.sessionValue| == SESSION_VALUE_MAX
    ensures SettledSession(s) == s <==> NothingHidden(s)
  {
    var bs, n := s.sessionValue, s.sizeSessionValue;
    hide HasKeyBits, HasMode;
    assert forall i :: n <= i < |bs| ==> Padded(bs[..n])[i] == 0;
    if NothingHidden(s) { assert Padded(bs[..n]) == bs; }
  }

  /** So the trip is the identity exactly for resources with truthful sizes next to public
      areas and nothing hidden in a session. */
  lemma RoundTripIdentityIff(r: Resource)
    requires ResourceWellFormed(r)
    ensures DecodeResource(ResourceBytes(r, true)) == Ok(r, |ResourceBytes(r, true)|)
            <==> Truthful(r.misc) && (r.misc.SessionRsrc? ==> NothingHidden(r.misc.session))
  {
    hide *;
    ResourceRoundTrip(r, []);
    assert ResourceBytes(r, true) + [] == ResourceBytes(r, true);
    SettledResourceIff(r);
  }

  lemma SettledResourceIff(r: Resource)
    requires ResourceWellFormed(r)
    ensures Settled(r) == r <==> Truthful(r.misc) && (r.misc.SessionRsrc? ==> NothingHidden(r.misc.session))
  {
    if r.misc.SessionRsrc? { SettledIff(r.misc.session); }
    hide NothingHidden, SettledSession, Encode, Holds, Pow256;
  }
}
