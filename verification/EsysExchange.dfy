/** A whole exchange: what an honest TPM answers is accepted, and its parameter comes out in
    the clear. */
module EsysExchange {
  import opened TpmBase
  import opened EsysMu
  import opened EsysTable
  import opened EsysTr
  import opened EsysCrypto
  import opened EsysSession
  import opened EsysParam
  import opened EsysAuth
  import opened EsysResponse

  /** The session can encrypt the first parameter of an answer. */
  predicate CanEncrypt(c: Crypto, s: Session, plain: seq<byte>) {
    && KeyReady(s) && DigestSize(s.authHash).Some? && 2 <= |plain| && 2 + FromBE(plain[..2]) <= |plain|
    && CipherRc(c, s, FromBE(plain[..2])) == Success
  }

  /** What the TPM sends for `plain`: the first parameter encrypted under its new nonce, which
      is the newer one, and the nonce of the caller. */
  function TpmParameters(c: Crypto, s: Session, nonce: seq<byte>, plain: seq<byte>): (rp: seq<byte>)
    requires CanEncrypt(c, s, plain)
    ensures |rp| == |plain|
  {
    var n := FromBE(plain[..2]);
    plain[..2] + Ciphered(c, s, nonce, s.nonceCaller, plain[2..2 + n], true) + plain[2 + n..]
  }

  /** Its authorization for one session: none under a password policy, else an HMAC over the
      hash of return code, command code and parameters, its new nonce, the nonce of the caller
      and the attributes (section 19.6 of Part 1 of the TPM 2.0 Library Specification). */
  function TpmAuth(c: Crypto, slot: Slot, nonce: seq<byte>, attributes: byte, cc: seq<byte>, rp: seq<byte>)
    : AuthResponse
  {
    if slot == Empty then AuthResponse([], attributes, [])
    else
      var s := slot.session;
      if s.typePolicy == 2 || s.sizeHmacValue > |s.sessionValue| then AuthResponse(nonce, attributes, [])
      else AuthResponse(nonce, attributes,
                        c.hmac(s.authHash, s.sessionValue[..s.sizeHmacValue],
                               c.hash(s.authHash, [0, 0, 0, 0] + cc + rp) + nonce + s.nonceCaller + [attributes]))
  }

  function TpmAuths(c: Crypto, slots: seq<Slot>, nonces: seq<seq<byte>>, attributes: seq<byte>, cc: seq<byte>,
                    rp: seq<byte>, n: nat) : (rsps: seq<AuthResponse>)
    requires n <= |slots| && n <= |nonces| && n <= |attributes|
    ensures |rsps| == n
    ensures forall i :: 0 <= i < n ==> rsps[i] == TpmAuth(c, slots[i], nonces[i], attributes[i], cc, rp)
  {
    if n == 0 then []
    else TpmAuths(c, slots, nonces, attributes, cc, rp, n - 1)
         + [TpmAuth(c, slots[n - 1], nonces[n - 1], attributes[n - 1], cc, rp)]
  }

  /** The check of such an authorization fails on no place but that of a key that is too long. */
  lemma TpmAuthRight(c: Crypto, slot: Slot, nonce: seq<byte>, attributes: byte, cc: seq<byte>, rp: seq<byte>)
    ensures RspRc(c, slot, TpmAuth(c, slot, nonce, attributes, cc, rp), RpInput(cc, rp))
            == if Keyed(slot) then Success else OutOfBounds
    ensures slot.Live? ==>
              var rsp := TpmAuth(c, slot, nonce, attributes, cc, rp); rsp.nonce == nonce && rsp.attributes == attributes
  {
    hide RspRc, RpInput, Lawful;
    RpInputIs(cc, rp);
    RspRcIs(c, slot, TpmAuth(c, slot, nonce, attributes, cc, rp), RpInput(cc, rp));
  }

  /** So the check of a whole answer ends with success or with the first such key. */
  lemma TpmAuthsRight(c: Crypto, slots: seq<Slot>, nonces: seq<seq<byte>>, attributes: seq<byte>, cc: seq<byte>,
                      rp: seq<byte>, n: nat)
    requires n <= |slots| && n <= |nonces| && n <= |attributes|
    ensures RspsRc(c, slots, TpmAuths(c, slots, nonces, attributes, cc, rp, n), RpInput(cc, rp))
            == if AllKeyed(slots, n) then Success else OutOfBounds
  {
    hide RspRc, RpInput, Lawful, TpmAuth, Keyed;
    var rsps := TpmAuths(c, slots, nonces, attributes, cc, rp, n);
    forall i | 0 <= i < n
      ensures RspRc(c, slots[i], rsps[i], RpInput(cc, rp)) == if Keyed(slots[i]) then Success else OutOfBounds
    {
      TpmAuthRight(c, slots[i], nonces[i], attributes[i], cc, rp);
    }
  }

  /** The fields that change in an answer play no part in the keys. */
  lemma CipherUnmoved(c: Crypto, s: Session, t: Session, u: seq<byte>, v: seq<byte>, data: seq<byte>, encrypt: bool)
    requires KeyReady(s) && DigestSize(s.authHash).Some? && CipherRc(c, s, |data|) == Success
    requires t == s.(nonceTPM := t.nonceTPM, attributes := t.attributes) && t.attributes < 256
    ensures KeyReady(t) && CipherRc(c, t, |data|) == Success
    ensures Ciphered(c, t, u, v, data, encrypt) == Ciphered(c, s, u, v, data, encrypt)
  {
    hide Lawful, KdfStream, XorWith, DigestSize, StartRc;
  }

  /** The three parts of a parameter area. */
  lemma Parts(head: seq<byte>, first: seq<byte>, rest: seq<byte>, behind: seq<byte>)
    requires |head| == 2
    ensures var b := head + first + rest + behind;
            b[..2] == head && b[2..2 + |first|] == first && b[2 + |first|..] == rest + behind
  {
  }

  /** Decrypting what the TPM encrypted gives back its parameters. */
  lemma ParameterRoundTrip(c: Crypto, s: Session, t: Session, plain: seq<byte>, behind: seq<byte>)
    requires CanEncrypt(c, s, plain) && t.attributes < 256
    requires t == s.(nonceTPM := t.nonceTPM, attributes := t.attributes)
    ensures var rp := TpmParameters(c, s, t.nonceTPM, plain);
            && rp[..2] == plain[..2]
            && Decrypted(c, t, rp + behind, plain + behind)
  {
    hide CipherRc, Ciphered, KeyReady, DigestSize, FromBE;
    var n := FromBE(plain[..2]);
    var head, first, rest := plain[..2], plain[2..2 + n], plain[2 + n..];
    var secret := Ciphered(c, s, t.nonceTPM, s.nonceCaller, first, true);
    var rp := TpmParameters(c, s, t.nonceTPM, plain);
    Parts(head, secret, rest, behind);
    CipherUnmoved(c, s, t, t.nonceTPM, s.nonceCaller, secret, false);
    CipherInverse(c, s, t.nonceTPM, s.nonceCaller, first);
    assert plain == head + first + rest;
    assert (rp + behind)[..2] == head;
    assert DecryptedRp(c, t, rp + behind) == head + first + (rest + behind);
    assert head + first + (rest + behind) == plain + behind;
  }

  /** The encrypt session is among those that are answered, and can encrypt the parameter. */
  predicate CanAnswer(c: Crypto, slots: seq<Slot>, e: Option<nat>, count: nat, plain: seq<byte>)
    requires count <= |slots|
  {
    e.Some? ==>
      && e.value < count && slots[e.value].Live? && slots[e.value].session.typePolicy != POLICY_PASSWORD
      && CanEncrypt(c, slots[e.value].session, plain)
  }

  /** The parameters a TPM answers with. */
  function AnswerRp(c: Crypto, slots: seq<Slot>, e: Option<nat>, nonces: seq<seq<byte>>, plain: seq<byte>)
    : (r: seq<byte>)
    requires |nonces| <= |slots| && CanAnswer(c, slots, e, |nonces|, plain)
    ensures |r| == |plain|
  {
    if e.Some? then TpmParameters(c, slots[e.value].session, nonces[e.value], plain) else plain
  }

  /** The reference exchange. With every algorithm available and keys that fit, the answer is
      accepted, each HMAC session is left with the new nonce and attributes, and the first
      parameter is decrypted to what the TPM meant. */
  lemma ExchangeSucceeds(c: Crypto, kinds: seq<nat>, tab: seq<RsrcNode?>, slots: seq<Slot>, count: nat,
                         e: Option<nat>, nonces: seq<seq<byte>>, attributes: seq<byte>, cc: seq<byte>,
                         plain: seq<byte>, behind: seq<byte>)
    requires |kinds| == |slots| == 3 && count == |nonces| == |attributes| <= 3
    requires AllReady(slots) && AllStartable(c, slots, count) && CanAnswer(c, slots, e, count, plain)
    requires |tab| == 3 && Apart(tab) && forall i :: 0 <= i < 3 ==> (tab[i] == null <==> slots[i] == Empty)
    ensures var rp := AnswerRp(c, slots, e, nonces, plain);
            var rsps := TpmAuths(c, slots, nonces, attributes, cc, rp, count);
            var after := AllAfter(tab, slots, rsps);
            && CheckRc(c, kinds, count, slots, after, e, Success, rsps, cc, rp)
               == (if AllKeyed(slots, count) || !AnyObject(kinds) then Success else OutOfBounds)
            && (forall i :: 0 <= i < 3 ==>
                  after[i] == if i < count then Updated(slots[i], nonces[i], attributes[i]) else slots[i])
            && (e.Some? ==> Decrypted(c, after[e.value].session, rp + behind, plain + behind))
  {
    hide CipherRc, Ciphered, KeyReady, DigestSize, FromBE, TpmAuth, TpmParameters, CanEncrypt, RpInput,
         Decrypted, DecryptRc, AllStartable, AllKeyed, StartRc, Lawful, AnyObject, AllAfter, SlotsAfter, RspsRc;
    var rp := AnswerRp(c, slots, e, nonces, plain);
    var rsps := TpmAuths(c, slots, nonces, attributes, cc, rp, count);
    var after := AllAfter(tab, slots, rsps);
    AllAfterIs(tab, slots, rsps);
    ApartKeepsOwn(tab, slots, rsps, count);
    forall i | 0 <= i < count
      ensures Updated(slots[i], rsps[i].nonce, rsps[i].attributes) == Updated(slots[i], nonces[i], attributes[i])
    {
      TpmAuthRight(c, slots[i], nonces[i], attributes[i], cc, rp);
    }
    TpmAuthsRight(c, slots, nonces, attributes, cc, rp, count);
    if count == 0 { KeyedNone(slots); }
    if e.Some? {
      var s, t := slots[e.value].session, after[e.value].session;
      ParameterRoundTrip(c, s, t, plain, behind);
      DecryptAccepts(c, s, t, plain);
    }
  }

  // ---------------------------------------------------------------- over a context

  /** The context as init_session_tab leaves it. */
  ghost predicate TableFilled(ctx: EsysContext)
    reads ctx, ctx.nodes, ctx.sessionTab
  {
    && ctx.Valid() && Inv(ctx.Contents())
    && forall i :: 0 <= i < 3 ==> SlotFilled(ctx.sessionTab[i], ctx.sessionType[i], ctx.nodes)
  }

  /** The entry of a node in the list. */
  lemma NodeEntry(ctx: EsysContext, node: RsrcNode) returns (k: nat)
    requires ctx.Valid() && node in ctx.nodes
    ensures k < |ctx.nodes| && ctx.nodes[k] == node
    ensures k < |ctx.Contents().entries| && ctx.Contents().entries[k] == node.View()
  {
    hide Linked;
    k :| 0 <= k < |ctx.nodes| && ctx.nodes[k] == node;
  }

  /** A session in the table whose algorithm starts has the handle of an object: global nodes
      are no sessions. */
  lemma LiveIsObject(c: Crypto, ctx: EsysContext, i: nat)
    requires TableFilled(ctx) && i < 3 && Slots(ctx.sessionTab)[i].Live? && Startable(c, Slots(ctx.sessionTab)[i])
    ensures ctx.sessionTab[i] != null && ctx.sessionType[i] >= TR_MIN_OBJECT && AnyObject(ctx.sessionType)
  {
    hide Linked, Views, DigestSize, Lawful;
    StartedIsSession(c, ctx.sessionTab[i]);
    assert SlotFilled(ctx.sessionTab[i], ctx.sessionType[i], ctx.nodes);
    var node := ctx.sessionTab[i];
    var k := NodeEntry(ctx, node);
    EntryAt(ctx.Contents(), k);
  }

  lemma EntryAt(t: Table, k: nat)
    requires Inv(t) && k < |t.entries|
    ensures t.entries[k].handle < TR_MIN_OBJECT ==> t.entries[k].rsrc.misc.NoMisc?
    ensures forall j :: 0 <= j < |t.entries| && j != k ==> t.entries[j].handle != t.entries[k].handle
  {
    hide TpmHandle;
    assert EntryInv(t.entries[k], t.cnt);
  }

  /** No handle of a session is given twice. */
  predicate DistinctSessions(kinds: seq<nat>) {
    forall i, j :: 0 <= i < j < |kinds| && IsSession(kinds[i]) ==> kinds[i] != kinds[j]
  }

  lemma SameNode(ctx: EsysContext, a: RsrcNode, b: RsrcNode)
    requires ctx.Valid() && Inv(ctx.Contents()) && a in ctx.nodes && b in ctx.nodes
    ensures a == b <==> a.esysHandle == b.esysHandle
  {
    hide Linked, Views, Inv;
    var k := NodeEntry(ctx, a);
    var l := NodeEntry(ctx, b);
    EntryAt(ctx.Contents(), k);
  }

  /** No session stands in two places exactly if no handle of one is given twice. */
  lemma ApartIff(ctx: EsysContext)
    requires TableFilled(ctx)
    ensures Apart(ctx.sessionTab) <==> DistinctSessions(ctx.sessionType)
  {
    hide Linked, Views, Inv;
    var tab, kinds := ctx.sessionTab, ctx.sessionType;
    forall i, j | 0 <= i < j < 3
      ensures (tab[i] != null && tab[i] == tab[j]) <==> (IsSession(kinds[i]) && kinds[i] == kinds[j])
    {
      assert SlotFilled(tab[i], kinds[i], ctx.nodes) && SlotFilled(tab[j], kinds[j], ctx.nodes);
      if tab[i] != null && tab[j] != null { SameNode(ctx, tab[i], tab[j]); }
    }
  }

  /** iesys_check_response on the answer of the reference TPM: it is accepted if all HMAC keys
      that are needed fit; every HMAC session in the table is left with its new nonce and
      attributes, and the parameter area of the response holds the plain parameters. */
  method CheckAnswer(c: Crypto, sys: SysContext, ctx: EsysContext, ghost nonces: seq<seq<byte>>,
                     ghost attributes: seq<byte>, ghost plain: seq<byte>)
    returns (rc: Rc)
    requires TableFilled(ctx) && DistinctSessions(ctx.sessionType)
    requires ctx.authsCount == |nonces| == |attributes| <= 3
    requires Sessions(ctx.sessionTab) && AllReady(Slots(ctx.sessionTab))
    requires AllStartable(c, Slots(ctx.sessionTab), ctx.authsCount)
    requires ctx.encryptNonce != null ==>
               ctx.encryptNonceIdx < 3 && ctx.sessionTab[ctx.encryptNonceIdx] == ctx.encryptNonce
    requires CanAnswer(c, Slots(ctx.sessionTab), EncryptPlace(ctx), ctx.authsCount, plain)
    requires sys.ResponseReady() && sys.rspRc == Success
    requires sys.rp[..sys.rpLen] == AnswerRp(c, Slots(ctx.sessionTab), EncryptPlace(ctx), nonces, plain)
    requires sys.rspAuths == TpmAuths(c, Slots(ctx.sessionTab), nonces, attributes, sys.cc, sys.rp[..sys.rpLen],
                                      ctx.authsCount)
    modifies LiveNodes(ctx.sessionTab)`rsrc, sys.rp
    ensures rc == if AllKeyed(old(Slots(ctx.sessionTab)), ctx.authsCount) then Success else OutOfBounds
    ensures rc == Success ==>
              forall i :: 0 <= i < 3 ==>
                Slots(ctx.sessionTab)[i] ==
                if i < ctx.authsCount then Updated(old(Slots(ctx.sessionTab))[i], nonces[i], attributes[i])
                else old(Slots(ctx.sessionTab))[i]
    ensures rc == Success ==>
              forall i :: 0 <= i < ctx.authsCount && old(Slots(ctx.sessionTab))[i].Live? ==>
                var was, now := old(Slots(ctx.sessionTab))[i], Slots(ctx.sessionTab)[i];
                && now.Live? && now.handle == was.handle
                && now.session == if was.session.typePolicy == 2 then was.session
                                  else was.session.(nonceTPM := nonces[i], attributes := attributes[i])
    ensures rc == Success ==> sys.rp[..] == plain + old(sys.rp[sys.rpLen..])
  {
    hide *;
    ResponseShape(sys);
    FilledShape(ctx);
    ghost var tab, kinds, count, e := ctx.sessionTab, ctx.sessionType, ctx.authsCount, EncryptPlace(ctx);
    ghost var slots, rp, behind := Slots(tab), sys.rp[..sys.rpLen], sys.rp[sys.rpLen..];
    ApartIff(ctx);
    NullIsEmpty(tab);
    AllLive(c, ctx, count);
    CanAnswerIs(c, slots, e, count, plain);
    ExchangeSucceeds(c, kinds, tab, slots, count, e, nonces, attributes, sys.cc, plain, behind);
    EncryptPlaceIs(ctx);
    ghost var whole := sys.rp[..];
    assert whole == rp + behind;
    KeyedEmpty(slots, count);
    UpdatedIs(slots, nonces, attributes);
    rc := CheckResponse(c, sys, ctx);
    if rc != Success {
      return;
    }
    if count == 0 || !AnyObject(kinds) {
      UpdatedEmpty(slots, nonces, attributes);
      assert e == None;
    }
    if e == None {
      AnswerPlain(c, slots, e, nonces, plain);
      assert sys.rp[..] == whole;
    } else {
      DecryptedOnce(c, AllAfter(tab, slots, sys.rspAuths)[e.value].session, whole, sys.rp[..], plain + behind);
    }
  }

  lemma FilledShape(ctx: EsysContext)
    requires TableFilled(ctx)
    ensures |ctx.sessionTab| == |ctx.sessionType| == 3
  {
  }

  lemma NullIsEmpty(tab: seq<RsrcNode?>)
    requires |tab| == 3 && Sessions(tab)
    ensures forall i :: 0 <= i < 3 ==> (tab[i] == null <==> Slots(tab)[i] == Empty)
  {
  }

  lemma AllLive(c: Crypto, ctx: EsysContext, count: nat)
    requires TableFilled(ctx) && count <= 3 && AllStartable(c, Slots(ctx.sessionTab), count)
    ensures forall i :: 0 <= i < count && Slots(ctx.sessionTab)[i].Live? ==> AnyObject(ctx.sessionType)
  {
    FilledShape(ctx);
    hide TableFilled, AnyObject, Startable;
    forall i | 0 <= i < count && Slots(ctx.sessionTab)[i].Live? ensures AnyObject(ctx.sessionType) {
      LiveIsObject(c, ctx, i);
    }
  }

  lemma KeyedEmpty(slots: seq<Slot>, n: nat)
    requires n <= |slots|
    ensures (forall i :: 0 <= i < n ==> !slots[i].Live?) ==> AllKeyed(slots, n)
  {
  }

  lemma CanAnswerIs(c: Crypto, slots: seq<Slot>, e: Option<nat>, count: nat, plain: seq<byte>)
    requires count <= |slots| && CanAnswer(c, slots, e, count, plain)
    ensures e.Some? ==> e.value < count && slots[e.value].Live?
  {
  }

  lemma AnswerPlain(c: Crypto, slots: seq<Slot>, e: Option<nat>, nonces: seq<seq<byte>>, plain: seq<byte>)
    requires |nonces| <= |slots| && CanAnswer(c, slots, e, |nonces|, plain) && e == None
    ensures AnswerRp(c, slots, e, nonces, plain) == plain
  {
  }

  lemma UpdatedEmpty(slots: seq<Slot>, nonces: seq<seq<byte>>, attributes: seq<byte>)
    requires |nonces| == |attributes| <= |slots|
    ensures forall i :: 0 <= i < |nonces| && !slots[i].Live? ==>
              Updated(slots[i], nonces[i], attributes[i]) == slots[i]
  {
  }

  lemma UpdatedIs(slots: seq<Slot>, nonces: seq<seq<byte>>, attributes: seq<byte>)
    requires |nonces| == |attributes| <= |slots|
    ensures forall i :: 0 <= i < |nonces| && slots[i].Live? ==>
              var was, now := slots[i], Updated(slots[i], nonces[i], attributes[i]);
              && now.Live? && now.handle == was.handle
              && now.session == if was.session.typePolicy == 2 then was.session
                                else was.session.(nonceTPM := nonces[i], attributes := attributes[i])
  {
  }

  lemma DecryptedOnce(c: Crypto, s: Session, was: seq<byte>, now: seq<byte>, other: seq<byte>)
    requires Decrypted(c, s, was, now) && Decrypted(c, s, was, other)
    ensures now == other
  {
  }

  lemma DecryptAccepts(c: Crypto, s: Session, t: Session, plain: seq<byte>)
    requires CanEncrypt(c, s, plain) && t.attributes < 256
    requires t == s.(nonceTPM := t.nonceTPM, attributes := t.attributes)
    ensures DecryptRc(c, t, TpmParameters(c, s, t.nonceTPM, plain)) == Success
  {
    ParameterRoundTrip(c, s, t, plain, []);
    hide Ciphered, KeyReady, DigestSize, FromBE;
    var n := FromBE(plain[..2]);
    CipherUnmoved(c, s, t, [], [], plain[2..2 + n], true);
  }

  /** The way there: a TPM that derives the same keys reads the command parameter as the
      caller wrote it. */
  lemma CommandRoundTrip(c: Crypto, s: Session, cp: seq<byte>)
    requires KeyReady(s) && 2 <= |cp| && 2 + FromBE(cp[..2]) <= |cp|
    requires DecryptSlotRc(c, s, true, FromBE(cp[..2])) == Success && FromBE(cp[..2]) > 0
    ensures var n, sent := FromBE(cp[..2]), EncryptedCp(c, s, cp);
            && sent[..2] == cp[..2] && sent[2 + n..] == cp[2 + n..]
            && CipherRc(c, s, n) == Success
            && Ciphered(c, s, s.nonceCaller, s.nonceTPM, sent[2..2 + n], false) == cp[2..2 + n]
  {
    hide CipherRc, Ciphered, KeyReady, DigestSize, FromBE;
    var n := FromBE(cp[..2]);
    var secret := Ciphered(c, s, s.nonceCaller, s.nonceTPM, cp[2..2 + n], true);
    CipherInverse(c, s, s.nonceCaller, s.nonceTPM, cp[2..2 + n]);
    Parts(cp[..2], secret, cp[2 + n..], []);
    assert cp[..2] + secret + cp[2 + n..] + [] == EncryptedCp(c, s, cp);
  }
}
