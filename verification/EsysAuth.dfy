/**
 Authorizing a command: nonces, encryption of the first parameter, one parameter hash per
 hash algorithm, and the list of authorizations.
 */
module EsysAuth {
  import opened TpmBase
  import opened MuMarshal
  import opened TpmFormats
  import opened EsysMu
  import opened EsysResource
  import opened EsysTable
  import opened EsysTr
  import opened EsysCrypto
  import opened EsysSession
  import opened EsysParam

  /** TPMS_AUTH_COMMAND and TPMS_AUTH_RESPONSE */
  datatype AuthCommand = AuthCommand(handle: nat, nonce: seq<byte>, attributes: nat, hmac: seq<byte>)
  datatype AuthResponse = AuthResponse(nonce: seq<byte>, attributes: byte, hmac: seq<byte>)

  const NO_AUTH: AuthCommand := AuthCommand(0, [], 0, [])

  /** What the SYS layer shows of the command being built and of its response: the command
      code, the parameter areas inside larger buffers, and the response authorizations. */
  class SysContext {
    const cc: seq<byte>
    const cp: array<byte>
    const cpLen: nat
    const decryptAllowed: bool
    const rp: array<byte>
    const rpLen: nat
    const rspRc: Rc
    const rspAuths: seq<AuthResponse>

    constructor (cc: seq<byte>, cp: array<byte>, cpLen: nat, decryptAllowed: bool, rp: array<byte>, rpLen: nat,
                 rspRc: Rc, rspAuths: seq<AuthResponse>)
      ensures this.cc == cc && this.cp == cp && this.cpLen == cpLen && this.decryptAllowed == decryptAllowed
      ensures this.rp == rp && this.rpLen == rpLen && this.rspRc == rspRc && this.rspAuths == rspAuths
    {
      this.cc, this.cp, this.cpLen, this.decryptAllowed := cc, cp, cpLen, decryptAllowed;
      this.rp, this.rpLen, this.rspRc, this.rspAuths := rp, rpLen, rspRc, rspAuths;
    }

    /** The command starts with a sized parameter when it lets that be encrypted. */
    ghost predicate CommandReady()
      reads cp
    {
      && cpLen <= cp.Length
      && (decryptAllowed ==> 2 <= cpLen && 2 + FromBE(cp[..][..2]) <= cpLen)
    }

    /** The parameter area of the response lies in its buffer; getting the authorizations
        succeeds only with two bytes of them at least behind it. */
    predicate ResponseReady() {
      rpLen <= rp.Length && (rspRc == Success ==> rpLen + 2 <= rp.Length)
    }

    /** Tss2_Sys_GetDecryptParam: size and place of the first parameter. */
    method GetDecryptParam() returns (rc: Rc, size: nat)
      requires CommandReady()
      ensures rc == if decryptAllowed then Success else SysNoDecryptParam
      ensures rc == Success ==> size == FromBE(cp[..][..2])
    {
      if !decryptAllowed {
        return SysNoDecryptParam, 0;
      }
      assert cp[..2] == cp[..][..2];
      return Success, FromBE(cp[..2]);
    }
  }

  // ---------------------------------------------------------------- slots and their algorithms

  predicate Startable(c: Crypto, slot: Slot) {
    slot.Live? ==> StartRc(c, slot.session.authHash) == Success
  }

  predicate SlotReady(slot: Slot) { slot.Live? ==> KeyReady(slot.session) }

  predicate AllReady(slots: seq<Slot>) { forall i :: 0 <= i < |slots| ==> SlotReady(slots[i]) }

  predicate AllStartable(c: Crypto, slots: seq<Slot>, n: nat)
    requires n <= |slots|
  {
    forall i :: 0 <= i < n ==> Startable(c, slots[i])
  }

  // ---------------------------------------------------------------- caller nonces

  /** The same place with another caller nonce of the right length. */
  predicate Renonced(a: Slot, b: Slot) {
    if a == Empty then b == Empty
    else b.Live? && b.handle == a.handle && b.session == a.session.(nonceCaller := b.session.nonceCaller)
  }

  predicate NonceFits(slot: Slot) {
    slot.Live? ==> DigestSize(slot.session.authHash) == Some(|slot.session.nonceCaller|)
  }

  /** The random bytes have the length of the digest they are drawn for. */
  predicate RandomFits(slots: seq<Slot>, random: seq<seq<byte>>)
    requires |slots| == |random|
  {
    forall i :: 0 <= i < |slots| && slots[i].Live? ==>
      DigestSize(slots[i].session.authHash) in {None, Some(|random[i]|)}
  }

  predicate Sized(slot: Slot) { slot.Live? ==> DigestSize(slot.session.authHash).Some? }

  predicate AllSized(slots: seq<Slot>) { forall i :: 0 <= i < |slots| ==> Sized(slots[i]) }

  method SetNonceCaller(node: RsrcNode, nonce: seq<byte>)
    requires node.rsrc.misc.SessionRsrc?
    modifies node`rsrc
    ensures node.rsrc.misc.SessionRsrc?
    ensures node.rsrc.handle == old(node.rsrc.handle) && node.rsrc.name == old(node.rsrc.name)
    ensures SlotOf(node) == WithNonce(old(SlotOf(node)), nonce)
  {
    node.rsrc := node.rsrc.(misc := SessionRsrc(node.rsrc.misc.session.(nonceCaller := nonce)));
  }

  /** iesys_gen_caller_nonces; `random` is what the random number generator would give. */
  method GenCallerNonces(tab: seq<RsrcNode?>, random: seq<seq<byte>>) returns (rc: Rc)
    requires |tab| == |random| == 3 && Sessions(tab)
    requires RandomFits(Slots(tab), random)
    modifies LiveNodes(tab)`rsrc
    ensures Sessions(tab) && forall i :: 0 <= i < 3 ==> Renonced(old(Slots(tab))[i], Slots(tab)[i])
    ensures rc == Success ==> forall i :: 0 <= i < 3 ==> NonceFits(Slots(tab)[i])
    ensures rc == if AllSized(old(Slots(tab))) then Success else EsysBadValue
    ensures forall n: RsrcNode {:trigger n.rsrc.name} :: n in tab ==> n.rsrc.name == old(n.rsrc.name)
  {
    hide *;
    ghost var was := Slots(tab);
    RenoncedSelf(was);
    for i := 0 to 3
      invariant Sessions(tab) && forall j :: 0 <= j < 3 ==> Renonced(was[j], Slots(tab)[j])
      invariant forall j :: 0 <= j < i ==> NonceFits(Slots(tab)[j]) && Sized(was[j])
      invariant forall n: RsrcNode {:trigger n.rsrc.name} :: n in tab ==> n.rsrc.name == old(n.rsrc.name)
    {
      ghost var cur := Slots(tab);
      var session := tab[i];
      SlotLive(tab, i);
      Places(tab);
      if session == null {
        EmptySized(was[i], cur[i]);
        continue;
      }
      InLiveNodes(tab, i);
      var size := DigestSize(SessionIn(session.rsrc.misc).authHash);
      SizedIs(was, cur[i], i);
      if size == None {
        return EsysBadValue;
      }
      SizedIsSession(session.rsrc.misc);
      RandomAt(was, cur[i], random, i);
      NewNonce(was, cur, random[i]);
      SetNonceCaller(session, random[i]);
      Places(tab);
      NodeIsSession(session);
      SlotLive(tab, i);
      assert forall j :: 0 <= j < 3 ==>
               Slots(tab)[j] == if tab[j] == session then WithNonce(cur[j], random[i]) else cur[j];
    }
    SizedAll(was);
    return Success;
  }

  function WithNonce(slot: Slot, nonce: seq<byte>): Slot {
    if slot.Live? then slot.(session := slot.session.(nonceCaller := nonce)) else slot
  }

  lemma RenoncedSelf(slots: seq<Slot>)
    ensures forall i :: 0 <= i < |slots| ==> Renonced(slots[i], slots[i])
  {
  }

  lemma EmptySized(a: Slot, b: Slot)
    requires Renonced(a, b) && b == Empty
    ensures Sized(a) && NonceFits(b)
  {
  }

  lemma SizedIs(slots: seq<Slot>, cur: Slot, i: nat)
    requires i < |slots| && Renonced(slots[i], cur) && cur.Live?
    ensures Sized(slots[i]) <==> DigestSize(cur.session.authHash).Some?
    ensures !Sized(slots[i]) ==> !AllSized(slots)
  {
    hide DigestSize;
  }

  lemma SizedAll(slots: seq<Slot>)
    ensures AllSized(slots) <==> forall i :: 0 <= i < |slots| ==> Sized(slots[i])
  {
  }

  lemma RandomAt(slots: seq<Slot>, cur: Slot, random: seq<seq<byte>>, i: nat)
    requires |slots| == |random| && i < |slots| && RandomFits(slots, random) && Renonced(slots[i], cur) && cur.Live?
    requires DigestSize(cur.session.authHash).Some?
    ensures NonceFits(WithNonce(cur, random[i]))
  {
    hide DigestSize;
  }

  lemma NewNonce(was: seq<Slot>, cur: seq<Slot>, nonce: seq<byte>)
    requires |was| == |cur| && forall j :: 0 <= j < |was| ==> Renonced(was[j], cur[j])
    ensures forall j :: 0 <= j < |was| ==> Renonced(was[j], WithNonce(cur[j], nonce))
  {
  }

  // ---------------------------------------------------------------- encryption of the parameter

  /** How the one decrypt session fares: what it needs before the cipher, then the cipher. */
  function DecryptSlotRc(c: Crypto, s: Session, allowed: bool, size: nat): Rc {
    if DigestSize(s.authHash) == None then EsysBadValue
    else if !allowed then SysNoDecryptParam
    else if size == 0 then Success
    else CipherRc(c, s, size)
  }

  lemma DecryptSlotRcIs(c: Crypto, s: Session, allowed: bool, size: nat)
    ensures DecryptSlotRc(c, s, allowed, size) ==
            if s.authHash !in {0x0004, 0x000B, 0x000C, 0x000D, 0x0012} then EsysBadValue
            else if !allowed then SysNoDecryptParam else if size == 0 then Success else CipherRc(c, s, size)
  {
    hide CipherRc, Lawful;
  }

  function ParamSize(allowed: bool, cp: seq<byte>): nat
    requires allowed ==> 2 <= |cp|
  {
    if allowed then FromBE(cp[..2]) else 0
  }

  /** The parameter area with its first parameter encrypted for the TPM. */
  function EncryptedCp(c: Crypto, s: Session, cp: seq<byte>): (r: seq<byte>)
    requires KeyReady(s) && 2 <= |cp| && 2 + FromBE(cp[..2]) <= |cp|
    requires DecryptSlotRc(c, s, true, FromBE(cp[..2])) == Success
    ensures |r| == |cp| && (FromBE(cp[..2]) == 0 ==> r == cp)
  {
    var size := FromBE(cp[..2]);
    if size == 0 then cp
    else cp[..2] + Ciphered(c, s, s.nonceCaller, s.nonceTPM, cp[2..2 + size], true) + cp[2 + size..]
  }

  /** The work on the decrypt session: the parameter is copied out, encrypted, and set again. */
  method EncryptFirst(c: Crypto, sys: SysContext, s: Session) returns (rc: Rc)
    requires KeyReady(s) && sys.CommandReady()
    modifies sys.cp
    ensures rc == DecryptSlotRc(c, s, sys.decryptAllowed, ParamSize(sys.decryptAllowed, old(sys.cp[..])))
    ensures rc != OutOfBounds ==> sys.CommandReady()
    ensures rc != Success && rc != OutOfBounds ==> sys.cp[..] == old(sys.cp[..])
    ensures rc == Success ==> sys.decryptAllowed && sys.cp[..] == EncryptedCp(c, s, old(sys.cp[..]))
  {
    hide CipherRc, Ciphered, KeyReady, DigestSize, Splice, FromBE;
    if DigestSize(s.authHash) == None {
      return EsysBadValue;
    }
    var size;
    rc, size := sys.GetDecryptParam();
    if rc != Success {
      return rc;
    }
    ghost var was := sys.cp[..];
    if size == 0 {
      return Success;
    }
    var buffer := new byte[size](i requires 0 <= i < size reads sys, sys.cp => sys.cp[2 + i]);
    ghost var data := was[2..2 + size];
    assert buffer[..] == buffer[0..size] == data && buffer[..0] == [] && buffer[size..] == [];
    rc := CipherRegion(c, s, s.nonceCaller, s.nonceTPM, buffer, 0, size, true);
    if rc != Success {
      return rc;
    }
    ghost var out := Ciphered(c, s, s.nonceCaller, s.nonceTPM, data, true);
    assert buffer[..] == [] + out + [] == out;
    CopyIn(sys.cp, 2, buffer[..]);
    SpliceRegion(was, 2, out);
    assert sys.cp[..][..2] == was[..2];
  }

  /** When the encryption pass succeeds: neither role is claimed twice, and the decrypt
      session, if there is one, can do its work. */
  predicate EncryptOk(c: Crypto, slots: seq<Slot>, allowed: bool, size: nat) {
    && AtMostOne(slots, ATTR_ENCRYPT) && AtMostOne(slots, ATTR_DECRYPT)
    && var k := FirstFlagged(slots, ATTR_DECRYPT);
       k < |slots| ==> DecryptSlotRc(c, slots[k].session, allowed, size) == Success
  }

  /** The parameter area after the pass. */
  ghost predicate CpAfter(c: Crypto, slots: seq<Slot>, k: nat, found: bool, allowed: bool, was: seq<byte>,
                          now: seq<byte>)
    requires |slots| == 3 && AllReady(slots) && (allowed ==> 2 <= |was| && 2 + FromBE(was[..2]) <= |was|)
  {
    if !found then now == was
    else
      && k < 3 && slots[k].Live?
      && DecryptSlotRc(c, slots[k].session, allowed, ParamSize(allowed, was)) == Success
      && allowed && KeyReady(slots[k].session)
      && now == EncryptedCp(c, slots[k].session, was)
  }

  lemma CpFound(c: Crypto, slots: seq<Slot>, k: nat, was: seq<byte>, now: seq<byte>)
    requires |slots| == 3 && AllReady(slots) && k < 3 && slots[k].Live?
    requires 2 <= |was| && 2 + FromBE(was[..2]) <= |was|
    requires DecryptSlotRc(c, slots[k].session, true, ParamSize(true, was)) == Success
    requires KeyReady(slots[k].session) && now == EncryptedCp(c, slots[k].session, was)
    ensures CpAfter(c, slots, k, true, true, was, now)
  {
  }

  lemma CpNotFound(c: Crypto, slots: seq<Slot>, k: nat, allowed: bool, was: seq<byte>, now: seq<byte>)
    requires |slots| == 3 && AllReady(slots) && (allowed ==> 2 <= |was| && 2 + FromBE(was[..2]) <= |was|)
    ensures CpAfter(c, slots, k, false, allowed, was, now) <==> now == was
  {
  }

  lemma ReadyAt(slots: seq<Slot>, i: nat)
    requires |slots| == 3 && AllReady(slots) && i < 3 && slots[i].Live?
    ensures KeyReady(slots[i].session)
  {
  }

  /** What the pass finds wrong in place `i`: a role that an earlier place has claimed, or
      something the first decrypt session cannot do. */
  function PlaceRc(c: Crypto, slots: seq<Slot>, i: nat, allowed: bool, size: nat): Rc
    requires i < |slots|
  {
    if Flagged(slots[i], ATTR_ENCRYPT) && FirstFlagged(slots, ATTR_ENCRYPT) < i then EsysMultipleEncryptSessions
    else if Flagged(slots[i], ATTR_DECRYPT) then
      if FirstFlagged(slots, ATTR_DECRYPT) < i then EsysMultipleDecryptSessions
      else DecryptSlotRc(c, slots[i].session, allowed, size)
    else Success
  }

  lemma PlaceRcIs(c: Crypto, slots: seq<Slot>, i: nat, allowed: bool, size: nat)
    requires i < |slots|
    ensures PlaceRc(c, slots, i, allowed, size) ==
            if Flagged(slots[i], 0x40) && (exists j :: 0 <= j < i && Flagged(slots[j], 0x40))
            then EsysMultipleEncryptSessions
            else if !Flagged(slots[i], 0x20) then Success
            else if exists j :: 0 <= j < i && Flagged(slots[j], 0x20) then EsysMultipleDecryptSessions
            else DecryptSlotRc(c, slots[i].session, allowed, size)
  {
    hide Flagged, DecryptSlotRc, Lawful, FirstFlagged;
    RoleFlags();
    var e, d := FirstFlagged(slots, 0x40), FirstFlagged(slots, 0x20);
    assert e < i ==> Flagged(slots[e], 0x40);
    assert d < i ==> Flagged(slots[d], 0x20);
  }

  /** The first thing wrong in the first `n` places. */
  function FirstRc(c: Crypto, slots: seq<Slot>, n: nat, allowed: bool, size: nat): Rc
    requires n <= |slots|
  {
    if n == 0 then Success
    else
      var rc := FirstRc(c, slots, n - 1, allowed, size);
      if rc != Success then rc else PlaceRc(c, slots, n - 1, allowed, size)
  }

  /** How the encryption pass ends. */
  function PassRc(c: Crypto, slots: seq<Slot>, allowed: bool, size: nat): Rc {
    FirstRc(c, slots, |slots|, allowed, size)
  }

  /** Of three places, the first that finds something wrong decides. */
  lemma PassRcIs(c: Crypto, slots: seq<Slot>, allowed: bool, size: nat)
    requires |slots| == 3
    ensures var first, second := PlaceRc(c, slots, 0, allowed, size), PlaceRc(c, slots, 1, allowed, size);
            PassRc(c, slots, allowed, size) ==
            if first != Success then first else if second != Success then second
            else PlaceRc(c, slots, 2, allowed, size)
  {
    hide PlaceRc, Lawful;
    assert FirstRc(c, slots, 1, allowed, size) == PlaceRc(c, slots, 0, allowed, size);
    assert FirstRc(c, slots, 2, allowed, size) ==
           if PlaceRc(c, slots, 0, allowed, size) != Success then PlaceRc(c, slots, 0, allowed, size)
           else PlaceRc(c, slots, 1, allowed, size);
  }

  /** Nothing is wrong exactly if neither role is claimed twice and the decrypt session can do
      its work. */
  lemma PassOkIff(c: Crypto, slots: seq<Slot>, allowed: bool, size: nat)
    ensures PassRc(c, slots, allowed, size) == Success <==> EncryptOk(c, slots, allowed, size)
  {
    FirstOkIff(c, slots, |slots|, allowed, size);
    FlagValues();
    hide FirstRc, DecryptSlotRc, Flagged;
    var e, d := FirstFlagged(slots, ATTR_ENCRYPT), FirstFlagged(slots, ATTR_DECRYPT);
    if EncryptOk(c, slots, allowed, size) {
      forall i | 0 <= i < |slots| ensures PlaceRc(c, slots, i, allowed, size) == Success { }
    } else {
      if !AtMostOne(slots, ATTR_ENCRYPT) { TwiceWrong(c, slots, ATTR_ENCRYPT, allowed, size); }
      if !AtMostOne(slots, ATTR_DECRYPT) { TwiceWrong(c, slots, ATTR_DECRYPT, allowed, size); }
      if d < |slots| && DecryptSlotRc(c, slots[d].session, allowed, size) != Success {
        assert PlaceRc(c, slots, d, allowed, size) != Success;
      }
    }
  }

  lemma TwiceWrong(c: Crypto, slots: seq<Slot>, flag: nat, allowed: bool, size: nat)
    requires (flag == ATTR_ENCRYPT || flag == ATTR_DECRYPT) && !AtMostOne(slots, flag)
    ensures exists i :: 0 <= i < |slots| && PlaceRc(c, slots, i, allowed, size) != Success
  {
    hide DecryptSlotRc, Flagged;
    var i, j :| 0 <= i < j < |slots| && Flagged(slots[i], flag) && Flagged(slots[j], flag);
    assert FirstFlagged(slots, flag) <= i;
    assert PlaceRc(c, slots, j, allowed, size) != Success;
  }

  lemma {:induction false} FirstOkIff(c: Crypto, slots: seq<Slot>, n: nat, allowed: bool, size: nat)
    requires n <= |slots|
    ensures FirstRc(c, slots, n, allowed, size) == Success
            <==> forall i :: 0 <= i < n ==> PlaceRc(c, slots, i, allowed, size) == Success
  {
    hide PlaceRc;
    if n > 0 { FirstOkIff(c, slots, n - 1, allowed, size); }
  }

  /** What is found wrong first stays so. */
  lemma {:induction false} FirstStays(c: Crypto, slots: seq<Slot>, n: nat, m: nat, allowed: bool, size: nat)
    requires n <= m <= |slots| && FirstRc(c, slots, n, allowed, size) != Success
    ensures FirstRc(c, slots, m, allowed, size) == FirstRc(c, slots, n, allowed, size)
  {
    hide PlaceRc;
    if n < m { FirstStays(c, slots, n, m - 1, allowed, size); }
  }

  /** The pass at place `i`, from what the two searches know. */
  lemma PlaceAt(c: Crypto, tab: seq<RsrcNode?>, slots: seq<Slot>, i: nat, encIdx: nat, enc: RsrcNode?, decIdx: nat,
                dec: RsrcNode?, allowed: bool, size: nat)
    requires |tab| == |slots| == 3 && i < 3 && FirstRc(c, slots, i, allowed, size) == Success
    requires ATTR_ENCRYPT > 0 && ATTR_DECRYPT > 0
    requires Found(tab, slots, ATTR_ENCRYPT, i, encIdx, enc) && Found(tab, slots, ATTR_DECRYPT, i, decIdx, dec)
    ensures var rc := FirstRc(c, slots, i + 1, allowed, size);
            && (rc != Success ==> PassRc(c, slots, allowed, size) == rc)
            && rc == if Flagged(slots[i], ATTR_ENCRYPT) && enc != null then EsysMultipleEncryptSessions
                     else if !Flagged(slots[i], ATTR_DECRYPT) then Success
                     else if dec != null then EsysMultipleDecryptSessions
                     else DecryptSlotRc(c, slots[i].session, allowed, size)
  {
    hide Flagged, DecryptSlotRc;
    var rc := FirstRc(c, slots, i + 1, allowed, size);
    if rc != Success { FirstStays(c, slots, i + 1, 3, allowed, size); }
    FoundFirst(tab, slots, ATTR_ENCRYPT, i, encIdx, enc);
    FoundFirst(tab, slots, ATTR_DECRYPT, i, decIdx, dec);
    hide Found, FirstFlagged;
    assert FirstRc(c, slots, i + 1, allowed, size) == PlaceRc(c, slots, i, allowed, size);
  }

  lemma FoundFirst(tab: seq<RsrcNode?>, slots: seq<Slot>, flag: nat, n: nat, idx: nat, node: RsrcNode?)
    requires |tab| == |slots| == 3 && n <= 3 && flag > 0 && Found(tab, slots, flag, n, idx, node)
    ensures FirstFlagged(slots, flag) < n <==> node != null
  {
    hide Flagged;
  }

  /** The roles of a place are those of the node in it. */
  lemma RolesAt(tab: seq<RsrcNode?>, slots: seq<Slot>, i: nat)
    requires |tab| == 3 && i < 3 && Sessions(tab) && slots == Slots(tab) && ATTR_ENCRYPT > 0 && ATTR_DECRYPT > 0
    ensures tab[i] == null ==> !Flagged(slots[i], ATTR_ENCRYPT) && !Flagged(slots[i], ATTR_DECRYPT)
    ensures tab[i] != null ==>
              && ReadsAsSession(tab[i].rsrc.misc)
              && var s := SessionIn(tab[i].rsrc.misc);
              && slots[i].Live? && slots[i].session == s
              && (Flagged(slots[i], ATTR_ENCRYPT) <==> HasFlag(s.attributes, ATTR_ENCRYPT))
              && (Flagged(slots[i], ATTR_DECRYPT) <==> HasFlag(s.attributes, ATTR_DECRYPT))
  {
    SlotLive(tab, i);
    hide HasFlag, Flagged, Slots, Sessions;
  }

  /** iesys_encrypt_param: notes the encrypt session in the context, encrypts with the decrypt
      session and reports it. */
  method EncryptParam(c: Crypto, sys: SysContext, ctx: EsysContext) returns (rc: Rc, idx: nat, nonce: RsrcNode?)
    requires |ctx.sessionTab| == 3 && Sessions(ctx.sessionTab) && AllReady(Slots(ctx.sessionTab)) && sys.CommandReady()
    modifies sys.cp, ctx`encryptNonceIdx, ctx`encryptNonce
    ensures var slots, allowed := Slots(ctx.sessionTab), sys.decryptAllowed;
            && rc == PassRc(c, slots, allowed, ParamSize(allowed, old(sys.cp[..])))
            && (rc != OutOfBounds ==> sys.CommandReady())
            && (rc == Success ==>
                  var k, e := FirstFlagged(slots, ATTR_DECRYPT), FirstFlagged(slots, ATTR_ENCRYPT);
                  && idx == (if k < 3 then k else 0) && nonce == (if k < 3 then ctx.sessionTab[k] else null)
                  && CpAfter(c, slots, k, k < 3, allowed, old(sys.cp[..]), sys.cp[..])
                  && ctx.encryptNonceIdx == (if e < 3 then e else old(ctx.encryptNonceIdx))
                  && ctx.encryptNonce == (if e < 3 then ctx.sessionTab[e] else old(ctx.encryptNonce)))
  {
    hide *;
    idx, nonce := 0, null;
    var tab := ctx.sessionTab;
    CommandArea(sys);
    ghost var slots, was, allowed := Slots(tab), sys.cp[..], sys.decryptAllowed;
    ghost var size := ParamSize(allowed, was);
    var encryptNonce: RsrcNode?, encryptIdx := null, 0;
    FlagValues();
    FoundNothing(tab, slots, ATTR_DECRYPT);
    FoundNothing(tab, slots, ATTR_ENCRYPT);
    CpNotFound(c, slots, idx, allowed, was, was);
    PassStart(c, slots, allowed, size);
    for i := 0 to 3
      invariant ctx.sessionTab == tab && Slots(tab) == slots && Sessions(tab) && sys.CommandReady()
      invariant FirstRc(c, slots, i, allowed, size) == Success
      invariant Found(tab, slots, ATTR_DECRYPT, i, idx, nonce)
      invariant Found(tab, slots, ATTR_ENCRYPT, i, encryptIdx, encryptNonce)
      invariant ctx.encryptNonceIdx == if encryptNonce == null then old(ctx.encryptNonceIdx) else encryptIdx
      invariant ctx.encryptNonce == if encryptNonce == null then old(ctx.encryptNonce) else encryptNonce
      invariant CpAfter(c, slots, idx, nonce != null, allowed, was, sys.cp[..])
    {
      var session := tab[i];
      RolesAt(tab, slots, i);
      FoundStep(tab, slots, ATTR_DECRYPT, i, idx, nonce);
      FoundStep(tab, slots, ATTR_ENCRYPT, i, encryptIdx, encryptNonce);
      PlaceAt(c, tab, slots, i, encryptIdx, encryptNonce, idx, nonce, allowed, size);
      if session == null {
        continue;
      }
      var s := SessionIn(session.rsrc.misc);
      if HasFlag(s.attributes, ATTR_ENCRYPT) {
        if encryptNonce != null {
          return EsysMultipleEncryptSessions, idx, nonce;
        }
        ctx.encryptNonceIdx, encryptIdx := i, i;
        encryptNonce := session;
        ctx.encryptNonce := encryptNonce;
      }
      if HasFlag(s.attributes, ATTR_DECRYPT) {
        if nonce != null {
          return EsysMultipleDecryptSessions, idx, nonce;
        }
        CpNotFound(c, slots, idx, allowed, was, sys.cp[..]);
        ReadyAt(slots, i);
        idx, nonce := i, session;
        rc := EncryptFirst(c, sys, s);
        if rc != Success {
          return rc, idx, nonce;
        }
        CpFound(c, slots, i, was, sys.cp[..]);
      }
    }
    FoundAll(tab, slots, ATTR_ENCRYPT, encryptIdx, encryptNonce);
    FoundAll(tab, slots, ATTR_DECRYPT, idx, nonce);
    CpNotFound(c, slots, 0, allowed, was, sys.cp[..]);
    CpNotFound(c, slots, 3, allowed, was, sys.cp[..]);
    return Success, idx, nonce;
  }

  lemma PassStart(c: Crypto, slots: seq<Slot>, allowed: bool, size: nat)
    ensures FirstRc(c, slots, 0, allowed, size) == Success
    ensures |slots| == 3 ==> PassRc(c, slots, allowed, size) == FirstRc(c, slots, 3, allowed, size)
  {
  }

  lemma CommandArea(sys: SysContext)
    requires sys.CommandReady()
    ensures sys.cpLen <= sys.cp.Length
    ensures sys.decryptAllowed ==> 2 <= |sys.cp[..]| && 2 + FromBE(sys.cp[..][..2]) <= |sys.cp[..]|
  {
  }

  // ---------------------------------------------------------------- hash tables

  datatype HashItem = HashItem(alg: nat, digest: seq<byte>)

  predicate HasAlg(items: seq<HashItem>, alg: nat) { exists k :: 0 <= k < |items| && items[k].alg == alg }

  /** Exactly one entry for every hash algorithm among the first `n` places, with the digest
      of the input under it. */
  ghost predicate ExactTable(c: Crypto, items: seq<HashItem>, slots: seq<Slot>, n: nat, input: seq<byte>)
    requires n <= |slots|
  {
    && |items| <= n
    && (forall k, l :: 0 <= k < l < |items| ==> items[k].alg != items[l].alg)
    && (forall k :: 0 <= k < |items| ==>
          items[k].digest == c.hash(items[k].alg, input) && UsedBy(slots, n, items[k].alg))
    && (forall i :: 0 <= i < n && slots[i].Live? ==> HasAlg(items, slots[i].session.authHash))
  }

  predicate UsedBy(slots: seq<Slot>, n: nat, alg: nat)
    requires n <= |slots|
  {
    exists i :: 0 <= i < n && slots[i].Live? && slots[i].session.authHash == alg
  }

  /** The search for an algorithm, as both tables and both users of them do it. */
  method FindAlg(items: seq<HashItem>, alg: nat) returns (k: nat)
    ensures k <= |items| && (k < |items| <==> HasAlg(items, alg))
    ensures k < |items| ==> items[k].alg == alg
    ensures forall j :: 0 <= j < k ==> items[j].alg != alg
  {
    k := 0;
    while k < |items|
      invariant k <= |items| && forall j :: 0 <= j < k ==> items[j].alg != alg
    {
      if items[k].alg == alg {
        return;
      }
      k := k + 1;
    }
  }

  lemma TableStart(c: Crypto, slots: seq<Slot>, input: seq<byte>)
    ensures ExactTable(c, [], slots, 0, input)
  {
  }

  lemma TableDigests(c: Crypto, items: seq<HashItem>, slots: seq<Slot>, n: nat, input: seq<byte>)
    requires n <= |slots| && ExactTable(c, items, slots, n, input)
    ensures forall k :: 0 <= k < |items| ==> items[k].digest == c.hash(items[k].alg, input)
  {
  }

  lemma TableSkip(c: Crypto, items: seq<HashItem>, slots: seq<Slot>, n: nat, input: seq<byte>)
    requires n < |slots| && ExactTable(c, items, slots, n, input)
    requires slots[n].Live? ==> HasAlg(items, slots[n].session.authHash)
    ensures ExactTable(c, items, slots, n + 1, input)
  {
    forall k | 0 <= k < |items| ensures UsedBy(slots, n + 1, items[k].alg) { assert UsedBy(slots, n, items[k].alg); }
  }

  lemma TableAppend(c: Crypto, items: seq<HashItem>, slots: seq<Slot>, n: nat, input: seq<byte>)
    requires n < |slots| && ExactTable(c, items, slots, n, input)
    requires slots[n].Live? && !HasAlg(items, slots[n].session.authHash)
    ensures var alg := slots[n].session.authHash;
            ExactTable(c, items + [HashItem(alg, c.hash(alg, input))], slots, n + 1, input)
  {
    var alg := slots[n].session.authHash;
    var more := items + [HashItem(alg, c.hash(alg, input))];
    forall k | 0 <= k < |more| ensures UsedBy(slots, n + 1, more[k].alg) {
      if k < |items| { assert UsedBy(slots, n, items[k].alg); }
    }
    forall i | 0 <= i < n + 1 && slots[i].Live? ensures HasAlg(more, slots[i].session.authHash) {
      if i < n {
        var k :| 0 <= k < |items| && items[k].alg == slots[i].session.authHash;
        assert more[k].alg == slots[i].session.authHash;
      } else {
        assert more[|items|].alg == alg;
      }
    }
  }

  /** iesys_compute_cp_hashtab over all three places and, with the response code in front and
      no names, iesys_compute_rp_hashtab over as many places as there are authorizations. */
  method ComputeHashtab(c: Crypto, tab: seq<RsrcNode?>, n: nat, rcBuffer: Option<seq<byte>>, cc: seq<byte>,
                        names: seq<Option<seq<byte>>>, params: seq<byte>)
    returns (rc: Rc, items: seq<HashItem>)
    requires |tab| == 3 && n <= 3 && |names| == 3 && Sessions(tab)
    ensures rc == if AllStartable(c, Slots(tab), n) then Success else EsysNotImplemented
    ensures rc == Success ==> ExactTable(c, items, Slots(tab), n, PHashInput(rcBuffer, cc, names, params))
    ensures rc == Success ==>
              forall k :: 0 <= k < |items| ==>
                items[k].digest ==
                c.hash(items[k].alg, (if rcBuffer.Some? then rcBuffer.value else []) + cc
                                     + (if names[0].Some? then names[0].value else [])
                                     + (if names[1].Some? then names[1].value else [])
                                     + (if names[2].Some? then names[2].value else []) + params)
  {
    hide Slots, Sessions, ExactTable, HasAlg, DigestSize, Lawful, PHashInput;
    ghost var slots, input := Slots(tab), PHashInput(rcBuffer, cc, names, params);
    PHashInputIs(rcBuffer, cc, names, params);
    items := [];
    TableStart(c, slots, input);
    for i := 0 to n
      invariant ExactTable(c, items, slots, i, input) && AllStartable(c, slots, i)
    {
      var session := tab[i];
      SlotLive(tab, i);
      if session == null {
        TableSkip(c, items, slots, i, input);
        continue;
      }
      var alg := SessionIn(session.rsrc.misc).authHash;
      var k := FindAlg(items, alg);
      if k < |items| {
        KnownAlgStarts(c, items, slots, i, input, k);
        TableSkip(c, items, slots, i, input);
      } else {
        var digest;
        rc, digest := PHash(c, alg, rcBuffer, cc, names, params);
        if rc != Success {
          assert !Startable(c, slots[i]);
          return rc, items;
        }
        TableAppend(c, items, slots, i, input);
        items := items + [HashItem(alg, digest)];
      }
    }
    TableDigests(c, items, slots, n, input);
    return Success, items;
  }

  lemma KnownAlgStarts(c: Crypto, items: seq<HashItem>, slots: seq<Slot>, n: nat, input: seq<byte>, k: nat)
    requires n <= |slots| && k < |items| && ExactTable(c, items, slots, n, input) && AllStartable(c, slots, n)
    ensures StartRc(c, items[k].alg) == Success
  {
    assert UsedBy(slots, n, items[k].alg);
    var i :| 0 <= i < n && slots[i].Live? && slots[i].session.authHash == items[k].alg;
    assert Startable(c, slots[i]);
  }

  /** A lookup in an exact table never misses and always gives the session's own digest. */
  lemma TableLookup(c: Crypto, items: seq<HashItem>, slots: seq<Slot>, n: nat, input: seq<byte>, i: nat, k: nat)
    requires n <= |slots| && i < n && slots[i].Live? && ExactTable(c, items, slots, n, input)
    ensures HasAlg(items, slots[i].session.authHash)
    ensures k < |items| && items[k].alg == slots[i].session.authHash ==>
              items[k].digest == c.hash(slots[i].session.authHash, input)
  {
  }

  // ---------------------------------------------------------------- command authorizations

  /** The key of a session's HMAC. One that does not fit its array is read past it; then the
      outcome is OutOfBounds, and what is given here plays no part. */
  function HmacKey(s: Session): seq<byte> {
    if HmacFits(s) then s.sessionValue[..s.sizeHmacValue] else []
  }

  /** The place calls for no HMAC, or its key fits. */
  predicate Keyed(slot: Slot) {
    slot.Live? && slot.session.typePolicy != POLICY_PASSWORD ==> HmacFits(slot.session)
  }

  predicate AllKeyed(slots: seq<Slot>, n: nat)
    requires n <= |slots|
  {
    forall i :: 0 <= i < n ==> Keyed(slots[i])
  }

  /** Sessions that fit their structure are ready for use, before and after their session value
      is computed; what may be missing is an HMAC key that fits. */
  lemma StorableReady(s: Session, name: Option<seq<byte>>, auth: Option<seq<byte>>)
    requires SessionStorable(s)
    requires (name.Some? ==> |name.value| <= NAME_MAX) && (auth.Some? ==> AuthUsable(s, auth.value))
    ensures KeyReady(s) && KeyReady(WithSessionValue(s, name, auth))
  {
    hide IsObjectBound, Pow256;
  }

  /** A serialized session with the largest HMAC key size, and nothing else but its algorithm. */
  const LOOSE: Session := EMPTY_SESSION.(authHash := ALG_SHA256, sizeHmacValue := 65535)

  lemma LooseLoads(t: Table, r: Resource, left: Resource)
    requires r == Resource(0x02000000, [], SessionRsrc(LOOSE))
    ensures LoadFits(ResourceBytes(r, true)) && AfterLoad(t, ResourceBytes(r, true), left).entries[0].rsrc == r
  {
    Pow256Facts();
    assert ResourceWellFormed(r) by { hide Pow256; }
    hide LoadFits, DecodeResource, ResourceBytes, ResourceWellFormed, Pow256;
    RoundTripIdentityIff(r);
    WellFormedFits(r, []);
    assert ResourceBytes(r, true) + [] == ResourceBytes(r, true);
  }

  /** It can be loaded; a command that authorizes no object leaves the size as it is, and
      authorizing the command reads past the array. */
  lemma LooseKey(t: Table, left: Resource, c: Crypto, size: nat)
    requires Inv(t) && ALG_SHA256 in c.algs
    ensures var r := Resource(0x02000000, [], SessionRsrc(LOOSE));
            && LoadFits(ResourceBytes(r, true))
            && AfterLoad(t, ResourceBytes(r, true), left).entries[0].rsrc == r
            && var s := WithSessionValue(LOOSE, None, None);
               && KeyReady(s) && !HmacFits(s)
               && GenRc(c, [Live(r.handle, s), Empty, Empty], false, size) == OutOfBounds
  {
    hide LoadFits, AfterLoad, ResourceBytes, GenRc, KeyReady, Pow256, ToBE;
    var r := Resource(0x02000000, [], SessionRsrc(LOOSE));
    LooseLoads(t, r, left);
    Pow256Facts();
    StorableReady(LOOSE, None, None);
    LooseSlots(c, [Live(r.handle, WithSessionValue(LOOSE, None, None)), Empty, Empty], size);
  }

  lemma LooseSlots(c: Crypto, slots: seq<Slot>, size: nat)
    requires |slots| == 3 && slots[0].Live? && slots[1] == slots[2] == Empty && ALG_SHA256 in c.algs
    requires var s := slots[0].session;
             s.authHash == ALG_SHA256 && s.attributes == 0 && s.typePolicy == 0 && !HmacFits(s)
    ensures GenRc(c, slots, false, size) == OutOfBounds
  {
    hide Lawful, DecryptSlotRc;
    FlagValues();
    PassOkIff(c, slots, false, size);
    assert !Flagged(slots[0], ATTR_ENCRYPT) && !Flagged(slots[0], ATTR_DECRYPT);
    assert AtMostOne(slots, ATTR_ENCRYPT) && AtMostOne(slots, ATTR_DECRYPT);
    assert !Keyed(slots[0]);
    hide PassRc;
  }

  function CommandHmac(c: Crypto, s: Session, cpHash: seq<byte>, decrypt: Option<seq<byte>>,
                       encrypt: Option<seq<byte>>): seq<byte>
    requires KeyReady(s)
  {
    c.hmac(s.authHash, HmacKey(s), AuthInput(cpHash, s.nonceCaller, s.nonceTPM, decrypt, encrypt, s.attributes))
  }

  /** iesys_compute_hmac; a session whose algorithm is missing would get the first digest. */
  method ComputeHmac(c: Crypto, node: RsrcNode?, items: seq<HashItem>, ghost cpHash: seq<byte>,
                     decrypt: Option<seq<byte>>, encrypt: Option<seq<byte>>, auth: AuthCommand)
    returns (rc: Rc, auth': AuthCommand)
    requires node != null ==>
               && ReadsAsSession(node.rsrc.misc) && KeyReady(SessionIn(node.rsrc.misc))
               && var alg := SessionIn(node.rsrc.misc).authHash;
                  && HasAlg(items, alg)
                  && forall k :: 0 <= k < |items| && items[k].alg == alg ==> items[k].digest == cpHash
    ensures node == null ==> rc == Success && auth' == auth
    ensures node != null ==>
              var s := SessionIn(node.rsrc.misc);
              rc == if DigestSize(s.authHash) == None then EsysBadValue
                    else if StartRc(c, s.authHash) != Success then StartRc(c, s.authHash)
                    else if !HmacFits(s) then OutOfBounds
                    else Success
    ensures rc != Success && rc != OutOfBounds ==> auth' == auth
    ensures node != null && rc == Success ==>
              var s := SessionIn(node.rsrc.misc);
              auth' == AuthCommand(node.rsrc.handle, s.nonceCaller, s.attributes,
                                      CommandHmac(c, s, cpHash, decrypt, encrypt))
  {
    if node == null {
      return Success, auth;
    }
    var s := SessionIn(node.rsrc.misc);
    if DigestSize(s.authHash) == None {
      return EsysBadValue, auth;
    }
    var hi := FindAlg(items, s.authHash);
    if hi == |items| {
      hi := 0;
    }
    if StartRc(c, s.authHash) == Success && !HmacFits(s) {
      return OutOfBounds, auth; // the key is read past sessionValue
    }
    var hmac;
    rc, hmac := AuthHmac(c, s.authHash, HmacKey(s), items[hi].digest, s.nonceCaller, s.nonceTPM,
                         decrypt, encrypt, s.attributes);
    if rc != Success {
      return rc, auth;
    }
    return Success, AuthCommand(node.rsrc.handle, s.nonceCaller, s.attributes, hmac);
  }

  /** The authorization a place calls for. */
  function AuthFor(c: Crypto, kind: nat, slot: Slot, target: Option<seq<byte>>, cpInput: seq<byte>,
                   decrypt: Option<seq<byte>>, encrypt: Option<seq<byte>>): AuthCommand
    requires SlotReady(slot)
  {
    if kind == TR_PASSWORD then
      if target == None then NO_AUTH else AuthCommand(RS_PW, [], 0, target.value)
    else if slot.Live? then
      var s := slot.session;
      if s.typePolicy == POLICY_PASSWORD then AuthCommand(slot.handle, [], 0, OptBytes(target))
      else AuthCommand(slot.handle, s.nonceCaller, s.attributes,
                       CommandHmac(c, s, c.hash(s.authHash, cpInput), decrypt, encrypt))
    else NO_AUTH
  }

  /** One authorization for every place that is used, in the order of the places; nonces of
      other sessions enter the HMAC of the first place only. */
  function AuthList(c: Crypto, kinds: seq<nat>, slots: seq<Slot>, targets: seq<Option<seq<byte>>>, cpInput: seq<byte>,
                    decrypt: Option<seq<byte>>, encrypt: Option<seq<byte>>, n: nat): (auths: seq<AuthCommand>)
    requires |kinds| == |slots| == |targets| && n <= |slots| && forall i :: 0 <= i < n ==> SlotReady(slots[i])
    ensures |auths| == Used(kinds[..n])
  {
    if n == 0 then []
    else
      UsedSnoc(kinds, n - 1);
      AuthList(c, kinds, slots, targets, cpInput, decrypt, encrypt, n - 1)
      + if kinds[n - 1] == TR_NONE then []
        else [AuthFor(c, kinds[n - 1], slots[n - 1], targets[n - 1], cpInput,
                      if n == 1 then decrypt else None, if n == 1 then encrypt else None)]
  }

  lemma {:induction false} UsedSnoc(hs: seq<nat>, n: nat)
    requires n < |hs|
    ensures Used(hs[..n + 1]) == Used(hs[..n]) + if hs[n] != TR_NONE then 1 else 0
  {
    var a, b := hs[..n + 1], hs[..n];
    if n > 0 {
      UsedSnoc(hs[1..], n - 1);
      assert a[1..] == hs[1..][..n] && b[1..] == hs[1..][..n - 1];
    }
  }

  /** Every place that is used has its entry at the position its rank says, and a session of a
      dense table at its own index. */
  lemma {:induction false} AuthListAt(c: Crypto, kinds: seq<nat>, slots: seq<Slot>, targets: seq<Option<seq<byte>>>,
                                      cpInput: seq<byte>, decrypt: Option<seq<byte>>, encrypt: Option<seq<byte>>,
                                      n: nat, i: nat)
    requires |kinds| == |slots| == |targets| && i < n <= |slots| && forall j :: 0 <= j < n ==> SlotReady(slots[j])
    requires kinds[i] != TR_NONE
    ensures var list, at := AuthList(c, kinds, slots, targets, cpInput, decrypt, encrypt, n), Used(kinds[..i]);
            && at < |list|
            && list[at] == AuthFor(c, kinds[i], slots[i], targets[i], cpInput, if i == 0 then decrypt else None,
                                   if i == 0 then encrypt else None)
            && (Dense(kinds) && IsSession(kinds[i]) ==> at == i)
  {
    hide *;
    AuthListLast(c, kinds, slots, targets, cpInput, decrypt, encrypt, n);
    if i < n - 1 {
      AuthListAt(c, kinds, slots, targets, cpInput, decrypt, encrypt, n - 1, i);
    } else if Dense(kinds) && IsSession(kinds[i]) {
      DenseFront(kinds, i);
    }
  }

  lemma AuthListLast(c: Crypto, kinds: seq<nat>, slots: seq<Slot>, targets: seq<Option<seq<byte>>>,
                     cpInput: seq<byte>, decrypt: Option<seq<byte>>, encrypt: Option<seq<byte>>, n: nat)
    requires |kinds| == |slots| == |targets| && 0 < n <= |slots| && forall j :: 0 <= j < n ==> SlotReady(slots[j])
    ensures AuthList(c, kinds, slots, targets, cpInput, decrypt, encrypt, n)
            == AuthList(c, kinds, slots, targets, cpInput, decrypt, encrypt, n - 1)
               + if kinds[n - 1] == TR_NONE then []
                 else [AuthFor(c, kinds[n - 1], slots[n - 1], targets[n - 1], cpInput,
                               if n == 1 then decrypt else None, if n == 1 then encrypt else None)]
    ensures |AuthList(c, kinds, slots, targets, cpInput, decrypt, encrypt, n - 1)| == Used(kinds[..n - 1])
  {
    hide AuthFor, SlotReady, Used;
  }

  /** In a dense table a session comes behind used places only, so the running count has
      reached its place. */
  lemma {:induction false} DenseCount(hs: seq<nat>, n: nat)
    requires n <= |hs| && forall j :: 0 <= j < n ==> hs[j] != TR_NONE
    ensures Used(hs[..n]) == n
  {
    if n > 0 {
      UsedSnoc(hs, n - 1);
      DenseCount(hs, n - 1);
    }
  }

  ghost function NameOf(n: RsrcNode?): Option<seq<byte>>
    reads n
  {
    if n == null then None else Some(n.rsrc.name)
  }

  ghost function AuthOf(n: RsrcNode?): Option<seq<byte>>
    reads n
  {
    if n == null then None else Some(n.auth)
  }

  /** One round of the list: the entry is filled in where the count stands, but the HMAC of a
      session goes where its place is. */
  method AuthStep(c: Crypto, i: nat, kind: nat, node: RsrcNode?, target: RsrcNode?, items: seq<HashItem>,
                  ghost cpInput: seq<byte>, decrypt: Option<seq<byte>>, encrypt: Option<seq<byte>>,
                  auths: array<AuthCommand>, count: nat)
    returns (rc: Rc, count': nat)
    requires count <= i < 3 == auths.Length && (node != null <==> IsSession(kind)) && (node != null ==> count == i)
    requires SessionNode(node) && SlotReady(SlotOf(node)) && Startable(c, SlotOf(node))
    requires node != null ==>
               var alg := SessionIn(node.rsrc.misc).authHash;
               && HasAlg(items, alg)
               && forall k :: 0 <= k < |items| && items[k].alg == alg ==> items[k].digest == c.hash(alg, cpInput)
    requires forall k :: count <= k < 3 ==> auths[k] == NO_AUTH
    modifies auths
    ensures rc == if Keyed(SlotOf(node)) then Success else OutOfBounds
    ensures rc == Success ==> count' == count + if kind == TR_NONE then 0 else 1
    ensures rc == Success ==>
              forall k :: 0 <= k < 3 && (k != count || kind == TR_NONE) ==> auths[k] == old(auths[k])
    ensures rc == Success && kind != TR_NONE ==>
              auths[count] == AuthFor(c, kind, SlotOf(node), AuthOf(target), cpInput, decrypt, encrypt)
  {
    hide HasAlg, Lawful, CommandHmac, KeyReady;
    auths[count] := auths[count].(nonce := [], attributes := 0);
    if kind == TR_PASSWORD {
      if target == null {
        auths[count] := auths[count].(hmac := []);
      } else {
        auths[count] := auths[count].(handle := RS_PW, hmac := target.auth);
      }
      return Success, count + 1;
    }
    if node != null && SessionIn(node.rsrc.misc).typePolicy == POLICY_PASSWORD {
      auths[count] := auths[count].(handle := node.rsrc.handle);
      if target == null {
        auths[count] := auths[count].(hmac := []);
      } else {
        auths[count] := auths[count].(hmac := target.auth);
      }
      return Success, count + 1;
    }
    ghost var cpHash := if node == null then [] else c.hash(SessionIn(node.rsrc.misc).authHash, cpInput);
    var entry;
    rc, entry := ComputeHmac(c, node, items, cpHash, decrypt, encrypt, auths[i]);
    if rc != Success {
      return rc, count;
    }
    if node != null {
      auths[i] := entry;
      auths[count] := auths[count].(handle := node.rsrc.handle);
      return Success, count + 1;
    }
    return Success, count;
  }

  lemma AuthListNext(c: Crypto, kinds: seq<nat>, slots: seq<Slot>, targets: seq<Option<seq<byte>>>,
                     cpInput: seq<byte>, decrypt: Option<seq<byte>>, encrypt: Option<seq<byte>>, n: nat)
    requires |kinds| == |slots| == |targets| && n < |slots| && forall i :: 0 <= i < |slots| ==> SlotReady(slots[i])
    ensures AuthList(c, kinds, slots, targets, cpInput, decrypt, encrypt, 0) == []
    ensures AuthList(c, kinds, slots, targets, cpInput, decrypt, encrypt, n + 1)
            == AuthList(c, kinds, slots, targets, cpInput, decrypt, encrypt, n)
               + if kinds[n] == TR_NONE then []
                 else [AuthFor(c, kinds[n], slots[n], targets[n], cpInput,
                               if n == 0 then decrypt else None, if n == 0 then encrypt else None)]
    ensures Used(kinds[..n + 1]) == Used(kinds[..n]) + (if kinds[n] == TR_NONE then 0 else 1)
    ensures Used(kinds[..n]) <= n
  {
    hide SlotReady, Used, AuthFor;
    AuthListLast(c, kinds, slots, targets, cpInput, decrypt, encrypt, n + 1);
    UsedSnoc(kinds, n);
    UsedAtMost(kinds[..n]);
  }

  lemma {:induction false} UsedAtMost(hs: seq<nat>)
    ensures Used(hs) <= |hs|
  {
    if hs != [] { UsedAtMost(hs[1..]); }
  }

  /** In a dense table the places in front of a session are all used. */
  lemma DenseFront(kinds: seq<nat>, n: nat)
    requires n < |kinds| && Dense(kinds) && IsSession(kinds[n])
    ensures Used(kinds[..n]) == n
  {
    forall j | 0 <= j < n ensures kinds[j] != TR_NONE { }
    DenseCount(kinds, n);
  }

  /** Nodes stand exactly where the handle stands for a session. */
  predicate Matches(kinds: seq<nat>, tab: seq<RsrcNode?>)
    requires |kinds| == |tab|
  {
    forall i :: 0 <= i < |tab| ==> (tab[i] != null <==> IsSession(kinds[i]))
  }

  /** The table, the handles it was made from and the hash table belong together. */
  ghost predicate ReadyForAuths(c: Crypto, kinds: seq<nat>, tab: seq<RsrcNode?>, items: seq<HashItem>,
                                cpInput: seq<byte>)
    requires |kinds| == |tab| == 3
    reads tab[0], tab[1], tab[2]
  {
    && Sessions(tab) && AllReady(Slots(tab)) && AllStartable(c, Slots(tab), 3) && Dense(kinds)
    && Matches(kinds, tab)
    && ExactTable(c, items, Slots(tab), 3, cpInput)
  }

  lemma ReadyAtPlace(c: Crypto, kinds: seq<nat>, tab: seq<RsrcNode?>, items: seq<HashItem>, cpInput: seq<byte>, i: nat)
    requires |kinds| == |tab| == 3 && i < 3 && ReadyForAuths(c, kinds, tab, items, cpInput)
    ensures (tab[i] != null <==> IsSession(kinds[i])) && (tab[i] != null ==> Used(kinds[..i]) == i)
    ensures Slots(tab)[i] == SlotOf(tab[i])
    ensures SessionNode(tab[i]) && SlotReady(SlotOf(tab[i])) && Startable(c, SlotOf(tab[i]))
    ensures tab[i] != null ==>
              var alg := SessionIn(tab[i].rsrc.misc).authHash;
              && HasAlg(items, alg)
              && forall k :: 0 <= k < |items| && items[k].alg == alg ==> items[k].digest == c.hash(alg, cpInput)
  {
    hide HasAlg, StartRc, Lawful, KeyReady;
    assert Startable(c, Slots(tab)[i]);
    if tab[i] != null {
      DenseFront(kinds, i);
      TableLookup(c, items, Slots(tab), 3, cpInput, i, 0);
    }
  }

  lemma ReadyAll(slots: seq<Slot>)
    requires |slots| == 3 && AllReady(slots)
    ensures forall i :: 0 <= i < |slots| ==> SlotReady(slots[i])
  {
  }

  /** What each entry of the objects array stands for in the list. */
  ghost function AuthsOf(targets: seq<RsrcNode?>): (r: seq<Option<seq<byte>>>)
    requires |targets| == 3
    reads targets[0], targets[1], targets[2]
    ensures |r| == 3 && forall i :: 0 <= i < 3 ==> r[i] == AuthOf(targets[i])
  {
    [AuthOf(targets[0]), AuthOf(targets[1]), AuthOf(targets[2])]
  }

  /** The loop of iesys_gen_auths over the three places. */
  method AuthLoop(c: Crypto, kinds: seq<nat>, tab: seq<RsrcNode?>, targets: seq<RsrcNode?>, items: seq<HashItem>,
                  ghost cpInput: seq<byte>, decrypt: Option<seq<byte>>, encrypt: Option<seq<byte>>,
                  auths: array<AuthCommand>)
    returns (rc: Rc, count: nat)
    requires |kinds| == |tab| == |targets| == auths.Length == 3 && ReadyForAuths(c, kinds, tab, items, cpInput)
    requires forall i :: 0 <= i < 3 ==> SlotReady(Slots(tab)[i])
    requires forall k :: 0 <= k < 3 ==> auths[k] == NO_AUTH
    modifies auths
    ensures rc == if AllKeyed(Slots(tab), 3) then Success else OutOfBounds
    ensures rc == Success ==>
              && count <= 3
              && auths[..count] == AuthList(c, kinds, Slots(tab), AuthsOf(targets), cpInput, decrypt, encrypt, 3)
  {
    hide *;
    count := 0;
    ghost var slots, objs := Slots(tab), AuthsOf(targets);
    AuthListNext(c, kinds, slots, objs, cpInput, decrypt, encrypt, 0);
    KeyedNone(slots);
    assert auths[..0] == [];
    for i := 0 to 3
      invariant count == Used(kinds[..i]) <= i
      invariant Slots(tab) == slots && AuthsOf(targets) == objs && ReadyForAuths(c, kinds, tab, items, cpInput)
      invariant AllKeyed(slots, i)
      invariant auths[..count] == AuthList(c, kinds, slots, objs, cpInput, decrypt, encrypt, i)
      invariant forall k :: count <= k < 3 ==> auths[k] == NO_AUTH
    {
      AuthListNext(c, kinds, slots, objs, cpInput, decrypt, encrypt, i);
      ReadyAtPlace(c, kinds, tab, items, cpInput, i);
      ghost var front, at := auths[..count], count;
      rc, count := AuthStep(c, i, kinds[i], tab[i], targets[i], items, cpInput, if i == 0 then decrypt else None,
                            if i == 0 then encrypt else None, auths, count);
      KeyedMore(slots, i);
      if rc != Success {
        return rc, count;
      }
      assert auths[..at] == front;
      if kinds[i] != TR_NONE {
        assert auths[..count] == front + [auths[at]];
      }
    }
    assert kinds[..3] == kinds;
    return Success, count;
  }

  lemma KeyedNone(slots: seq<Slot>)
    ensures AllKeyed(slots, 0)
  {
  }

  lemma KeyedMore(slots: seq<Slot>, n: nat)
    requires n < |slots|
    ensures AllKeyed(slots, n + 1) <==> AllKeyed(slots, n) && Keyed(slots[n])
    ensures !Keyed(slots[n]) ==> !AllKeyed(slots, |slots|)
  {
  }

  ghost function NamesOf(targets: seq<RsrcNode?>): (r: seq<Option<seq<byte>>>)
    requires |targets| == 3
    reads targets[0], targets[1], targets[2]
    ensures |r| == 3
  {
    [NameOf(targets[0]), NameOf(targets[1]), NameOf(targets[2])]
  }

  /** What the command parameter hashes cover: the command code, the names of the objects, and
      the parameters with the first one encrypted already. */
  ghost function CpInput(sys: SysContext, targets: seq<RsrcNode?>): seq<byte>
    requires |targets| == 3 && sys.cpLen <= sys.cp.Length
    reads sys, sys.cp, targets[0], targets[1], targets[2]
  {
    PHashInput(None, sys.cc, NamesOf(targets), sys.cp[..sys.cpLen])
  }

  /** The nonce of a session other than the first. */
  function OtherNonce(slots: seq<Slot>, k: nat): Option<seq<byte>> {
    if 0 < k < |slots| && slots[k].Live? then Some(slots[k].session.nonceTPM) else None
  }

  lemma RenoncedReady(a: seq<Slot>, b: seq<Slot>)
    requires |a| == |b| == 3 && AllReady(a) && forall i :: 0 <= i < 3 ==> Renonced(a[i], b[i])
    ensures AllReady(b) && (AllSized(b) <==> AllSized(a))
  {
    forall i | 0 <= i < 3 ensures Sized(a[i]) <==> Sized(b[i]) { assert Renonced(a[i], b[i]); }
    assert Renonced(a[0], b[0]) && Renonced(a[1], b[1]) && Renonced(a[2], b[2]);
    hide DigestSize;
  }

  /** How iesys_gen_auths ends. Neither the nonces it draws nor the ones it finds matter. */
  function GenRc(c: Crypto, slots: seq<Slot>, allowed: bool, size: nat): Rc {
    if !AllSized(slots) then EsysBadValue
    else if PassRc(c, slots, allowed, size) != Success then PassRc(c, slots, allowed, size)
    else if !AllStartable(c, slots, |slots|) then EsysNotImplemented
    else if !AllKeyed(slots, |slots|) then OutOfBounds
    else Success
  }

  /** What it needs beyond the shape of its arguments. */
  lemma GenOkIff(c: Crypto, slots: seq<Slot>, allowed: bool, size: nat)
    ensures GenRc(c, slots, allowed, size) == Success <==>
              && AllSized(slots) && EncryptOk(c, slots, allowed, size)
              && AllStartable(c, slots, |slots|) && AllKeyed(slots, |slots|)
  {
    PassOkIff(c, slots, allowed, size);
    hide AllSized, EncryptOk, AllStartable, AllKeyed, PassRc;
  }

  lemma GenRcIs(c: Crypto, slots: seq<Slot>, allowed: bool, size: nat)
    requires |slots| == 3
    ensures var pass := PassRc(c, slots, allowed, size);
            GenRc(c, slots, allowed, size) ==
            if !AllSized(slots) then EsysBadValue else if pass != Success then pass
            else if !AllStartable(c, slots, 3) then EsysNotImplemented
            else if !AllKeyed(slots, 3) then OutOfBounds else Success
  {
    hide AllSized, AllStartable, AllKeyed, PassRc;
  }

  /** The caller nonces play no part in the return codes. */
  lemma RenoncedPass(c: Crypto, a: seq<Slot>, b: seq<Slot>, allowed: bool, size: nat)
    requires |a| == |b| == 3 && forall i :: 0 <= i < 3 ==> Renonced(a[i], b[i])
    ensures PassRc(c, a, allowed, size) == PassRc(c, b, allowed, size)
    ensures AllStartable(c, a, 3) <==> AllStartable(c, b, 3)
    ensures AllKeyed(a, 3) <==> AllKeyed(b, 3)
  {
    FlagValues();
    RenoncedFirst(a, b, ATTR_ENCRYPT);
    RenoncedFirst(a, b, ATTR_DECRYPT);
    RenoncedFront(c, a, b, 3, allowed, size);
    forall i | 0 <= i < 3 ensures (Startable(c, a[i]) <==> Startable(c, b[i])) && (Keyed(a[i]) <==> Keyed(b[i])) {
      assert Renonced(a[i], b[i]);
    }
    hide FirstRc, Startable, Keyed, Renonced;
  }

  lemma {:induction false} RenoncedFirst(a: seq<Slot>, b: seq<Slot>, flag: nat)
    requires |a| == |b| && flag > 0 && forall i :: 0 <= i < |a| ==> Renonced(a[i], b[i])
    ensures FirstFlagged(a, flag) == FirstFlagged(b, flag)
  {
    hide HasFlag;
    if a != [] {
      assert Renonced(a[0], b[0]);
      RenoncedFirst(a[1..], b[1..], flag);
    }
  }

  lemma {:induction false} RenoncedFront(c: Crypto, a: seq<Slot>, b: seq<Slot>, n: nat, allowed: bool, size: nat)
    requires |a| == |b| && n <= |a| && forall i :: 0 <= i < |a| ==> Renonced(a[i], b[i])
    requires ATTR_ENCRYPT > 0 && ATTR_DECRYPT > 0
    requires FirstFlagged(a, ATTR_ENCRYPT) == FirstFlagged(b, ATTR_ENCRYPT)
    requires FirstFlagged(a, ATTR_DECRYPT) == FirstFlagged(b, ATTR_DECRYPT)
    ensures FirstRc(c, a, n, allowed, size) == FirstRc(c, b, n, allowed, size)
  {
    hide HasFlag, FirstFlagged, StartRc, KeyFits, DigestSize;
    if n > 0 {
      assert Renonced(a[n - 1], b[n - 1]);
      RenoncedFront(c, a, b, n - 1, allowed, size);
      RenoncedSession(c, a[n - 1], b[n - 1], allowed, size);
      hide DecryptSlotRc;
    }
  }

  lemma RenoncedSession(c: Crypto, a: Slot, b: Slot, allowed: bool, size: nat)
    requires Renonced(a, b)
    ensures a.Live? ==> DecryptSlotRc(c, a.session, allowed, size) == DecryptSlotRc(c, b.session, allowed, size)
  {
    hide StartRc, DigestSize, SymKeyLen, AesOff;
  }

  /** A global handle is no session: the command is refused. */
  lemma GlobalRefused(c: Crypto, tab: seq<RsrcNode?>, i: nat, allowed: bool, size: nat)
    requires |tab| == 3 && i < 3 && tab[i] != null && tab[i].rsrc.misc.NoMisc?
    ensures GenRc(c, Slots(tab), allowed, size) == EsysBadValue
  {
    assert !Sized(Slots(tab)[i]);
    hide PassRc, AllStartable, AllKeyed;
  }

  lemma ReadyMake(c: Crypto, kinds: seq<nat>, tab: seq<RsrcNode?>, items: seq<HashItem>, cpInput: seq<byte>)
    requires |kinds| == |tab| == 3 && Sessions(tab) && AllReady(Slots(tab))
    requires AllStartable(c, Slots(tab), 3) && Dense(kinds)
    requires Matches(kinds, tab)
    requires ExactTable(c, items, Slots(tab), 3, cpInput)
    ensures ReadyForAuths(c, kinds, tab, items, cpInput)
  {
  }

  lemma CommandShape(sys: SysContext, targets: seq<RsrcNode?>)
    requires sys.CommandReady() && |targets| == 3
    ensures sys.cpLen <= sys.cp.Length && (sys.decryptAllowed ==> 2 <= |sys.cp[..]|)
    ensures CpInput(sys, targets) == PHashInput(None, sys.cc, NamesOf(targets), sys.cp[..sys.cpLen])
  {
  }

  lemma NamesAre(targets: seq<RsrcNode?>)
    requires |targets| == 3
    ensures NamesOf(targets) == [if targets[0] == null then None else Some(targets[0].rsrc.name),
                                 if targets[1] == null then None else Some(targets[1].rsrc.name),
                                 if targets[2] == null then None else Some(targets[2].rsrc.name)]
  {
  }

  /** The nonce handed on is that of the place found, and none for the first place. */
  lemma NonceOf(tab: seq<RsrcNode?>, slots: seq<Slot>, flag: nat, idx: nat, node: RsrcNode?)
    requires |tab| == 3 && Sessions(tab) && slots == Slots(tab) && flag > 0
    requires var k := FirstFlagged(slots, flag);
             if k < 3 then idx == k && node == tab[k] else idx == 0 && node == null
    ensures idx > 0 ==> node != null
    ensures OtherNonce(slots, FirstFlagged(slots, flag)) ==
            if idx > 0 && node != null then Some(SessionIn(node.rsrc.misc).nonceTPM) else None
  {
    hide HasFlag;
  }

  lemma FlagValues()
    ensures ATTR_DECRYPT > 0 && ATTR_ENCRYPT > 0
  {
  }

  /** The names of the objects a command works on. */
  method TargetNames(targets: seq<RsrcNode?>) returns (names: seq<Option<seq<byte>>>)
    requires |targets| == 3
    ensures names == NamesOf(targets)
  {
    hide NamesOf, NameOf;
    NamesAre(targets);
    names := [if targets[0] == null then None else Some(targets[0].rsrc.name),
              if targets[1] == null then None else Some(targets[1].rsrc.name),
              if targets[2] == null then None else Some(targets[2].rsrc.name)];
  }

  /** The nonce a search hands on, unless it is that of the first place. */
  method HandedOn(tab: seq<RsrcNode?>, ghost flag: nat, idx: nat, node: RsrcNode?) returns (nonce: Option<seq<byte>>)
    requires |tab| == 3 && Sessions(tab) && flag > 0
    requires var k := FirstFlagged(Slots(tab), flag);
             if k < 3 then idx == k && node == tab[k] else idx == 0 && node == null
    ensures nonce == OtherNonce(Slots(tab), FirstFlagged(Slots(tab), flag))
  {
    hide *;
    NonceOf(tab, Slots(tab), flag, idx, node);
    nonce := if idx > 0 then Some(SessionIn(node.rsrc.misc).nonceTPM) else None;
  }

  /** The hash table and the loop of iesys_gen_auths, once the parameter is encrypted. */
  method HashAndList(c: Crypto, sys: SysContext, kinds: seq<nat>, tab: seq<RsrcNode?>, targets: seq<RsrcNode?>,
                     decryptIdx: nat, decryptNonce: RsrcNode?, encryptIdx: nat, encryptNonce: RsrcNode?,
                     auths: array<AuthCommand>)
    returns (rc: Rc, count: nat)
    requires |kinds| == |tab| == |targets| == auths.Length == 3
    requires Sessions(tab) && AllReady(Slots(tab)) && sys.CommandReady() && Dense(kinds)
    requires Matches(kinds, tab)
    requires var k := FirstFlagged(Slots(tab), ATTR_DECRYPT);
             decryptIdx == (if k < 3 then k else 0) && decryptNonce == (if k < 3 then tab[k] else null)
    requires var k := FirstFlagged(Slots(tab), ATTR_ENCRYPT);
             encryptIdx == (if k < 3 then k else 0) && encryptNonce == (if k < 3 then tab[k] else null)
    requires auths[..] == [NO_AUTH, NO_AUTH, NO_AUTH]
    modifies auths
    ensures rc == if !AllStartable(c, Slots(tab), 3) then EsysNotImplemented
                  else if !AllKeyed(Slots(tab), 3) then OutOfBounds else Success
    ensures rc == Success ==>
              && count <= 3 && sys.CommandReady() && (forall i :: 0 <= i < 3 ==> SlotReady(Slots(tab)[i]))
              && auths[..count] == AuthList(c, kinds, Slots(tab), AuthsOf(targets), CpInput(sys, targets),
                                            OtherNonce(Slots(tab), FirstFlagged(Slots(tab), ATTR_DECRYPT)),
                                            OtherNonce(Slots(tab), FirstFlagged(Slots(tab), ATTR_ENCRYPT)), 3)
  {
    hide *;
    ReadyAll(Slots(tab));
    CommandShape(sys, targets);
    ghost var slots, cpInput := Slots(tab), CpInput(sys, targets);
    FlagValues();
    var names := TargetNames(targets);
    var items;
    rc, items := ComputeHashtab(c, tab, 3, None, sys.cc, names, sys.cp[..sys.cpLen]);
    if rc != Success {
      return rc, 0;
    }
    ReadyMake(c, kinds, tab, items, cpInput);
    NoAuthsYet(auths);
    var other := HandedOn(tab, ATTR_DECRYPT, decryptIdx, decryptNonce);
    var other' := HandedOn(tab, ATTR_ENCRYPT, encryptIdx, encryptNonce);
    rc, count := AuthLoop(c, kinds, tab, targets, items, cpInput, other, other', auths);
    assert Slots(tab) == slots && CpInput(sys, targets) == cpInput;
  }

  lemma NoAuthsYet(auths: array<AuthCommand>)
    requires auths.Length == 3 && auths[..] == [NO_AUTH, NO_AUTH, NO_AUTH]
    ensures forall k :: 0 <= k < 3 ==> auths[k] == NO_AUTH
  {
    forall k | 0 <= k < 3 ensures auths[k] == NO_AUTH { assert auths[..][k] == NO_AUTH; }
  }

  /** Both passes over the session attributes. */
  method EncryptAndNote(c: Crypto, sys: SysContext, ctx: EsysContext)
    returns (rc: Rc, decryptIdx: nat, decryptNonce: RsrcNode?, encryptIdx: nat, encryptNonce: RsrcNode?)
    requires |ctx.sessionTab| == 3 && Sessions(ctx.sessionTab) && AllReady(Slots(ctx.sessionTab)) && sys.CommandReady()
    modifies sys.cp, ctx`encryptNonceIdx, ctx`encryptNonce
    ensures var slots, allowed := Slots(ctx.sessionTab), sys.decryptAllowed;
            && rc == PassRc(c, slots, allowed, ParamSize(allowed, old(sys.cp[..])))
            && (rc != OutOfBounds ==> sys.CommandReady())
            && (rc == Success ==>
                  var k, e := FirstFlagged(slots, ATTR_DECRYPT), FirstFlagged(slots, ATTR_ENCRYPT);
                  && decryptIdx == (if k < 3 then k else 0)
                  && decryptNonce == (if k < 3 then ctx.sessionTab[k] else null)
                  && encryptIdx == (if e < 3 then e else 0)
                  && encryptNonce == (if e < 3 then ctx.sessionTab[e] else null)
                  && CpAfter(c, slots, k, k < 3, allowed, old(sys.cp[..]), sys.cp[..]))
  {
    hide *;
    CommandArea(sys);
    encryptIdx, encryptNonce := 0, null;
    ghost var slots := Slots(ctx.sessionTab);
    PassOnce(c, slots, sys.decryptAllowed, ParamSize(sys.decryptAllowed, sys.cp[..]));
    rc, decryptIdx, decryptNonce := EncryptParam(c, sys, ctx);
    if rc != Success {
      return;
    }
    rc, encryptIdx, encryptNonce := ComputeEncryptNonce(ctx.sessionTab);
  }

  lemma PassOnce(c: Crypto, slots: seq<Slot>, allowed: bool, size: nat)
    ensures ATTR_ENCRYPT > 0 && (PassRc(c, slots, allowed, size) == Success ==> AtMostOne(slots, ATTR_ENCRYPT))
  {
    PassOkIff(c, slots, allowed, size);
    FlagValues();
    hide PassRc, AtMostOne, FirstFlagged, DecryptSlotRc;
  }

  /** memset over the list. */
  method ClearAuths(auths: array<AuthCommand>)
    requires auths.Length == 3
    modifies auths
    ensures auths[..] == [NO_AUTH, NO_AUTH, NO_AUTH]
  {
    forall i | 0 <= i < auths.Length {
      auths[i] := NO_AUTH;
    }
  }

  /** What iesys_gen_auths does once the nonces are drawn. */
  method EncryptAndList(c: Crypto, sys: SysContext, ctx: EsysContext, targets: seq<RsrcNode?>,
                        auths: array<AuthCommand>)
    returns (rc: Rc, count: nat)
    requires |ctx.sessionType| == |ctx.sessionTab| == |targets| == auths.Length == 3
    requires Sessions(ctx.sessionTab) && AllReady(Slots(ctx.sessionTab)) && sys.CommandReady() && Dense(ctx.sessionType)
    requires Matches(ctx.sessionType, ctx.sessionTab)
    requires auths[..] == [NO_AUTH, NO_AUTH, NO_AUTH]
    modifies sys.cp, ctx`encryptNonceIdx, ctx`encryptNonce, auths
    ensures var slots, allowed := Slots(ctx.sessionTab), sys.decryptAllowed;
            var pass := PassRc(c, slots, allowed, ParamSize(allowed, old(sys.cp[..])));
            rc == if pass != Success then pass else if !AllStartable(c, slots, 3) then EsysNotImplemented
                  else if !AllKeyed(slots, 3) then OutOfBounds else Success
    ensures rc != OutOfBounds ==> sys.CommandReady()
    ensures rc == Success ==>
              var slots := Slots(ctx.sessionTab);
              var k, e := FirstFlagged(slots, ATTR_DECRYPT), FirstFlagged(slots, ATTR_ENCRYPT);
              && CpAfter(c, slots, k, k < 3, sys.decryptAllowed, old(sys.cp[..]), sys.cp[..])
              && count <= 3
              && (forall i :: 0 <= i < 3 ==> SlotReady(slots[i]))
              && auths[..count] == AuthList(c, ctx.sessionType, slots, AuthsOf(targets), CpInput(sys, targets),
                                            OtherNonce(slots, k), OtherNonce(slots, e), 3)
              && ctx.encryptNonceIdx == (if e < 3 then e else 0)
              && ctx.encryptNonce == (if e < 3 then ctx.sessionTab[e] else null)
  {
    hide *;
    CommandArea(sys);
    count := 0;
    var tab := ctx.sessionTab;
    ghost var slots := Slots(tab);
    var decryptIdx, decryptNonce, encryptIdx, encryptNonce;
    rc, decryptIdx, decryptNonce, encryptIdx, encryptNonce := EncryptAndNote(c, sys, ctx);
    if rc != Success {
      return;
    }
    assert Slots(tab) == slots;
    rc, count := HashAndList(c, sys, ctx.sessionType, tab, targets, decryptIdx, decryptNonce,
                             encryptIdx, encryptNonce, auths);
    if rc != Success {
      return;
    }
    ctx.encryptNonceIdx := encryptIdx;
    ctx.encryptNonce := encryptNonce;
  }

  // ---------------------------------------------------------------- the list, written out

  /** How many places in front of the i-th are used: the position of its entry. */
  lemma RankIs(kinds: seq<nat>, i: nat)
    requires |kinds| == 3 && i <= 3
    ensures Used(kinds[..i]) == (if 0 < i && kinds[0] != 0xfff then 1 else 0)
                                + (if 1 < i && kinds[1] != 0xfff then 1 else 0)
                                + (if 2 < i && kinds[2] != 0xfff then 1 else 0)
  {
    if i > 0 { UsedSnoc(kinds, 0); }
    if i > 1 { UsedSnoc(kinds, 1); }
    if i > 2 { UsedSnoc(kinds, 2); }
    assert kinds[..0] == [];
  }

  /** The nonce that enters the first HMAC for a role: that of the first session with the role,
      unless this is in the first place. */
  lemma OtherNonceIs(slots: seq<Slot>, flag: nat)
    requires |slots| == 3 && flag > 0
    ensures OptBytes(OtherNonce(slots, FirstFlagged(slots, flag))) ==
            if Flagged(slots[0], flag) then [] else if Flagged(slots[1], flag) then slots[1].session.nonceTPM
            else if Flagged(slots[2], flag) then slots[2].session.nonceTPM else []
  {
    hide HasFlag;
  }

  lemma FlagIs(slots: seq<Slot>, flag: nat)
    requires flag > 0
    ensures forall k :: 0 <= k < |slots| ==>
              (Flagged(slots[k], flag) <==> slots[k].Live? && slots[k].session.attributes / flag % 2 == 1)
  {
  }

  /** What one place calls for, written out: a password goes to TPM_RS_PW with the authorization
      value of the object; a password policy shows the value under its own handle; any other
      session shows its nonce and attributes and an HMAC under its key over the hash of the
      message, its two nonces, the nonces of other sessions and the attributes. */
  lemma AuthForIs(c: Crypto, kind: nat, slot: Slot, target: Option<seq<byte>>, message: seq<byte>,
                  decrypt: Option<seq<byte>>, encrypt: Option<seq<byte>>)
    requires SlotReady(slot) && Keyed(slot)
    ensures kind == 0xff ==>
              AuthFor(c, kind, slot, target, message, decrypt, encrypt)
              == if target.Some? then AuthCommand(0x40000009, [], 0, target.value) else AuthCommand(0, [], 0, [])
    ensures kind != 0xff && slot.Live? ==>
              var s := slot.session;
              && s.attributes < 256 && (s.typePolicy == 2 || s.sizeHmacValue <= |s.sessionValue|)
              && AuthFor(c, kind, slot, target, message, decrypt, encrypt) ==
                 if s.typePolicy == 2 then AuthCommand(slot.handle, [], 0, if target.Some? then target.value else [])
                 else AuthCommand(slot.handle, s.nonceCaller, s.attributes,
                                  c.hmac(s.authHash, s.sessionValue[..s.sizeHmacValue],
                                         c.hash(s.authHash, message) + s.nonceCaller + s.nonceTPM
                                         + (OptBytes(decrypt) + OptBytes(encrypt)) + [s.attributes]))
  {
    hide Lawful, Pow256;
    if slot.Live? {
      var front := c.hash(slot.session.authHash, message) + slot.session.nonceCaller + slot.session.nonceTPM;
      Assoc(front, OptBytes(decrypt), OptBytes(encrypt));
    }
  }

  lemma NoOtherNonces(front: seq<byte>, b: seq<byte>)
    ensures front + (OptBytes(None) + OptBytes(None)) + b == front + [] + b
  {
  }

  /** What the i-th place, that of a session, shows in the list. */
  ghost predicate Shows(c: Crypto, slots: seq<Slot>, i: nat, target: Option<seq<byte>>, message: seq<byte>,
                        auth: AuthCommand)
    requires |slots| == 3 && i < 3 && slots[i].Live?
  {
    var s := slots[i].session;
    var d := if Flagged(slots[0], 0x20) then [] else if Flagged(slots[1], 0x20) then slots[1].session.nonceTPM
             else if Flagged(slots[2], 0x20) then slots[2].session.nonceTPM else [];
    var e := if Flagged(slots[0], 0x40) then [] else if Flagged(slots[1], 0x40) then slots[1].session.nonceTPM
             else if Flagged(slots[2], 0x40) then slots[2].session.nonceTPM else [];
    && s.attributes < 256 && (s.typePolicy == 2 || s.sizeHmacValue <= |s.sessionValue|)
    && auth == if s.typePolicy == 2
               then AuthCommand(slots[i].handle, [], 0, if target.Some? then target.value else [])
               else AuthCommand(slots[i].handle, s.nonceCaller, s.attributes,
                                c.hmac(s.authHash, s.sessionValue[..s.sizeHmacValue],
                                       c.hash(s.authHash, message) + s.nonceCaller + s.nonceTPM
                                       + (if i == 0 then d + e else []) + [s.attributes]))
  }

  /** The entry of a session, which in a dense table is that of its own index. */
  lemma SessionEntry(c: Crypto, kinds: seq<nat>, slots: seq<Slot>, targets: seq<Option<seq<byte>>>,
                     message: seq<byte>, d: Option<seq<byte>>, e: Option<seq<byte>>, i: nat)
    requires |kinds| == |slots| == |targets| == 3 && i < 3 && forall j :: 0 <= j < 3 ==> SlotReady(slots[j])
    requires Dense(kinds) && AllKeyed(slots, 3) && kinds[i] !in {0xff, 0xfff} && slots[i].Live?
    requires ATTR_DECRYPT > 0 && ATTR_ENCRYPT > 0
    requires d == OtherNonce(slots, FirstFlagged(slots, ATTR_DECRYPT))
    requires e == OtherNonce(slots, FirstFlagged(slots, ATTR_ENCRYPT))
    ensures var auths := AuthList(c, kinds, slots, targets, message, d, e, 3);
            i < |auths| && Shows(c, slots, i, targets[i], message, auths[i])
  {
    hide *;
    SpecialHandles(kinds[i]);
    AuthListAt(c, kinds, slots, targets, message, d, e, 3, i);
    KeyedAt(slots, 3, i);
    AuthForShows(c, kinds[i], slots, i, targets[i], message, d, e);
  }

  lemma AuthForShows(c: Crypto, kind: nat, slots: seq<Slot>, i: nat, target: Option<seq<byte>>, message: seq<byte>,
                     d: Option<seq<byte>>, e: Option<seq<byte>>)
    requires |slots| == 3 && i < 3 && slots[i].Live? && SlotReady(slots[i]) && Keyed(slots[i]) && kind != 0xff
    requires ATTR_DECRYPT > 0 && ATTR_ENCRYPT > 0
    requires d == OtherNonce(slots, FirstFlagged(slots, ATTR_DECRYPT))
    requires e == OtherNonce(slots, FirstFlagged(slots, ATTR_ENCRYPT))
    ensures Shows(c, slots, i, target, message, AuthFor(c, kind, slots[i], target, message,
                                                        if i == 0 then d else None, if i == 0 then e else None))
  {
    hide AuthFor, SlotReady, Keyed, Flagged, FirstFlagged, OtherNonce, OptBytes, Lawful;
    RoleFlags();
    FlagIs(slots, 0x20);
    FlagIs(slots, 0x40);
    OtherNonceIs(slots, 0x20);
    OtherNonceIs(slots, 0x40);
    AuthForIs(c, kind, slots[i], target, message, if i == 0 then d else None, if i == 0 then e else None);
    var s := slots[i].session;
    NoOtherNonces(c.hash(s.authHash, message) + s.nonceCaller + s.nonceTPM, [s.attributes]);
  }

  lemma RoleFlags()
    ensures ATTR_DECRYPT == 0x20 && ATTR_ENCRYPT == 0x40
  {
  }

  lemma SpecialHandles(h: nat)
    ensures IsSession(h) <==> h !in {0xff, 0xfff}
    ensures TR_NONE == 0xfff && TR_PASSWORD == 0xff
  {
  }

  lemma KeyedAt(slots: seq<Slot>, n: nat, i: nat)
    requires i < n <= |slots| && AllKeyed(slots, n)
    ensures Keyed(slots[i])
  {
  }

  /** The entry of a password, at the position its rank says. */
  lemma PasswordEntry(c: Crypto, kinds: seq<nat>, slots: seq<Slot>, targets: seq<Option<seq<byte>>>,
                      message: seq<byte>, d: Option<seq<byte>>, e: Option<seq<byte>>, i: nat)
    requires |kinds| == |slots| == |targets| == 3 && i < 3 && forall j :: 0 <= j < 3 ==> SlotReady(slots[j])
    requires AllKeyed(slots, 3) && kinds[i] == 0xff
    ensures var auths := AuthList(c, kinds, slots, targets, message, d, e, 3);
            var at := (if 0 < i && kinds[0] != 0xfff then 1 else 0) + (if 1 < i && kinds[1] != 0xfff then 1 else 0);
            && at < |auths|
            && auths[at] == if targets[i].Some? then AuthCommand(0x40000009, [], 0, targets[i].value)
                            else AuthCommand(0, [], 0, [])
  {
    hide *;
    SpecialHandles(kinds[i]);
    RankIs(kinds, i);
    AuthListAt(c, kinds, slots, targets, message, d, e, 3, i);
    KeyedAt(slots, 3, i);
    AuthForIs(c, kinds[i], slots[i], targets[i], message, if i == 0 then d else None, if i == 0 then e else None);
  }

  /** Handle, nonce and attributes over the node of the place; under a password policy the
      authorization value of the object; an HMAC key that fits. */
  lemma ShownByNode(c: Crypto, tab: seq<RsrcNode?>, i: nat, target: RsrcNode?, message: seq<byte>, auth: AuthCommand)
    requires |tab| == 3 && i < 3 && Slots(tab)[i].Live? && tab[i] != null && tab[i].rsrc.misc.SessionRsrc?
    requires Shows(c, Slots(tab), i, AuthOf(target), message, auth)
    ensures var node, s := tab[i], tab[i].rsrc.misc.session;
            && s.attributes < 256 && auth.handle == node.rsrc.handle
            && (s.typePolicy == 2 ==>
                  auth.nonce == [] && auth.attributes == 0 && auth.hmac == if target == null then [] else target.auth)
            && (s.typePolicy != 2 ==>
                  auth.nonce == s.nonceCaller && auth.attributes == s.attributes && s.sizeHmacValue <= |s.sessionValue|)
    ensures Slots(tab)[i] == Live(tab[i].rsrc.handle, tab[i].rsrc.misc.session)
  {
    hide Slots, Flagged, Lawful, Sessions;
    Places(tab);
    NodeIsSession(tab[i]);
  }

  /** ... and its HMAC. */
  lemma ShownHmac(c: Crypto, slots: seq<Slot>, i: nat, target: Option<seq<byte>>, message: seq<byte>,
                  auth: AuthCommand)
    requires |slots| == 3 && i < 3 && slots[i].Live? && Shows(c, slots, i, target, message, auth)
    ensures var s := slots[i].session;
            var d := if Flagged(slots[0], 0x20) then [] else if Flagged(slots[1], 0x20) then slots[1].session.nonceTPM
                     else if Flagged(slots[2], 0x20) then slots[2].session.nonceTPM else [];
            var e := if Flagged(slots[0], 0x40) then [] else if Flagged(slots[1], 0x40) then slots[1].session.nonceTPM
                     else if Flagged(slots[2], 0x40) then slots[2].session.nonceTPM else [];
            s.typePolicy != 2 ==>
              auth.hmac == c.hmac(s.authHash, s.sessionValue[..s.sizeHmacValue],
                                  c.hash(s.authHash, message) + s.nonceCaller + s.nonceTPM
                                  + (if i == 0 then d + e else []) + [s.attributes])
  {
    hide Flagged, Lawful;
  }

  /** Every entry of the list, at its position. */
  lemma ListShown(c: Crypto, kinds: seq<nat>, tab: seq<RsrcNode?>, targets: seq<RsrcNode?>, message: seq<byte>,
                  d: Option<seq<byte>>, e: Option<seq<byte>>)
    requires |kinds| == |tab| == |targets| == 3 && Sessions(tab) && Dense(kinds) && Matches(kinds, tab)
    requires (forall j :: 0 <= j < 3 ==> SlotReady(Slots(tab)[j]))
    requires AllKeyed(Slots(tab), 3) && AllStartable(c, Slots(tab), 3) && ATTR_DECRYPT > 0 && ATTR_ENCRYPT > 0
    requires d == OtherNonce(Slots(tab), FirstFlagged(Slots(tab), ATTR_DECRYPT))
    requires e == OtherNonce(Slots(tab), FirstFlagged(Slots(tab), ATTR_ENCRYPT))
    ensures var list := AuthList(c, kinds, Slots(tab), AuthsOf(targets), message, d, e, 3);
            && |list| == (if kinds[0] != 0xfff then 1 else 0) + (if kinds[1] != 0xfff then 1 else 0)
                         + (if kinds[2] != 0xfff then 1 else 0)
            && (forall i :: 0 <= i < 3 && kinds[i] == 0xff ==>
                  var at := (if 0 < i && kinds[0] != 0xfff then 1 else 0)
                            + (if 1 < i && kinds[1] != 0xfff then 1 else 0);
                  && at < |list|
                  && list[at] == if targets[i] == null then AuthCommand(0, [], 0, [])
                                 else AuthCommand(0x40000009, [], 0, targets[i].auth))
            && (forall i :: 0 <= i < 3 && kinds[i] !in {0xff, 0xfff} ==>
                  && i < |list| && tab[i] != null && tab[i].rsrc.misc.SessionRsrc? && Slots(tab)[i].Live?
                  && Shows(c, Slots(tab), i, AuthOf(targets[i]), message, list[i]))
  {
    hide *;
    RankIs(kinds, 3);
    assert kinds[..3] == kinds;
    forall i | 0 <= i < 3 && kinds[i] == 0xff
      ensures var list := AuthList(c, kinds, Slots(tab), AuthsOf(targets), message, d, e, 3);
              var at := (if 0 < i && kinds[0] != 0xfff then 1 else 0) + (if 1 < i && kinds[1] != 0xfff then 1 else 0);
              && at < |list|
              && list[at] == if targets[i] == null then AuthCommand(0, [], 0, [])
                             else AuthCommand(0x40000009, [], 0, targets[i].auth)
    {
      TargetsAre(targets, i);
      PasswordEntry(c, kinds, Slots(tab), AuthsOf(targets), message, d, e, i);
    }
    forall i | 0 <= i < 3 && kinds[i] !in {0xff, 0xfff}
      ensures var list := AuthList(c, kinds, Slots(tab), AuthsOf(targets), message, d, e, 3);
              && i < |list| && tab[i] != null && tab[i].rsrc.misc.SessionRsrc? && Slots(tab)[i].Live?
              && Shows(c, Slots(tab), i, AuthOf(targets[i]), message, list[i])
    {
      MatchAt(kinds, tab, i);
      StartableAt(c, tab, i);
      TargetsAre(targets, i);
      SessionEntry(c, kinds, Slots(tab), AuthsOf(targets), message, d, e, i);
    }
  }

  lemma MatchAt(kinds: seq<nat>, tab: seq<RsrcNode?>, i: nat)
    requires |kinds| == |tab| && i < |tab| && Matches(kinds, tab)
    ensures tab[i] != null <==> kinds[i] !in {0xff, 0xfff}
  {
  }

  lemma StartableAt(c: Crypto, tab: seq<RsrcNode?>, i: nat)
    requires |tab| == 3 && i < 3 && Sessions(tab) && AllStartable(c, Slots(tab), 3) && tab[i] != null
    ensures tab[i].rsrc.misc.SessionRsrc? && Slots(tab)[i] == Live(tab[i].rsrc.handle, tab[i].rsrc.misc.session)
  {
    hide Lawful, DigestSize;
    SlotLive(tab, i);
    assert Startable(c, Slots(tab)[i]);
    SizedIsSession(tab[i].rsrc.misc);
  }

  lemma TargetsAre(targets: seq<RsrcNode?>, i: nat)
    requires |targets| == 3 && i < 3
    ensures AuthsOf(targets)[i] == AuthOf(targets[i]) == if targets[i] == null then None else Some(targets[i].auth)
  {
  }

  lemma CpInputIs(sys: SysContext, targets: seq<RsrcNode?>)
    requires |targets| == 3 && sys.cpLen <= sys.cp.Length
    ensures CpInput(sys, targets) == sys.cc + (if targets[0] == null then [] else targets[0].rsrc.name)
                                     + (if targets[1] == null then [] else targets[1].rsrc.name)
                                     + (if targets[2] == null then [] else targets[2].rsrc.name)
                                     + sys.cp[..sys.cpLen]
  {
    PHashInputIs(None, sys.cc, NamesOf(targets), sys.cp[..sys.cpLen]);
    assert [] + sys.cc == sys.cc;
    hide PHashInput;
  }

  /** iesys_gen_auths. The list has one entry for every place that is used, in order, and each
      entry is made of one session's handle, nonce, attributes and HMAC. */
  method GenAuths(c: Crypto, sys: SysContext, ctx: EsysContext, targets: seq<RsrcNode?>, random: seq<seq<byte>>,
                  auths: array<AuthCommand>)
    returns (rc: Rc, count: nat)
    requires |ctx.sessionType| == |ctx.sessionTab| == |targets| == |random| == auths.Length == 3
    requires Sessions(ctx.sessionTab) && AllReady(Slots(ctx.sessionTab)) && sys.CommandReady() && Dense(ctx.sessionType)
    requires Matches(ctx.sessionType, ctx.sessionTab)
    requires RandomFits(Slots(ctx.sessionTab), random)
    modifies LiveNodes(ctx.sessionTab)`rsrc, sys.cp, ctx`encryptNonceIdx, ctx`encryptNonce, auths
    ensures rc == Success ==>
              count == (if ctx.sessionType[0] != 0xfff then 1 else 0) + (if ctx.sessionType[1] != 0xfff then 1 else 0)
                       + (if ctx.sessionType[2] != 0xfff then 1 else 0)
    ensures rc == Success ==>
              forall i :: 0 <= i < 3 && ctx.sessionType[i] == 0xff ==>
                var at := (if 0 < i && ctx.sessionType[0] != 0xfff then 1 else 0)
                          + (if 1 < i && ctx.sessionType[1] != 0xfff then 1 else 0);
                auths[..count][at] == if targets[i] == null then AuthCommand(0, [], 0, [])
                                      else AuthCommand(0x40000009, [], 0, targets[i].auth)
    ensures rc == Success ==>
              var message := sys.cc + (if targets[0] == null then [] else targets[0].rsrc.name)
                             + (if targets[1] == null then [] else targets[1].rsrc.name)
                             + (if targets[2] == null then [] else targets[2].rsrc.name) + sys.cp[..sys.cpLen];
              forall i :: 0 <= i < 3 && ctx.sessionType[i] !in {0xff, 0xfff} ==>
                && i < count && Slots(ctx.sessionTab)[i].Live?
                && Shows(c, Slots(ctx.sessionTab), i, AuthOf(targets[i]), message, auths[..count][i])
    ensures rc == GenRc(c, old(Slots(ctx.sessionTab)), sys.decryptAllowed,
                        ParamSize(sys.decryptAllowed, old(sys.cp[..])))
    ensures rc != OutOfBounds ==>
              && Sessions(ctx.sessionTab) && AllReady(Slots(ctx.sessionTab)) && sys.CommandReady()
              && forall i :: 0 <= i < 3 ==> Renonced(old(Slots(ctx.sessionTab))[i], Slots(ctx.sessionTab)[i])
    ensures rc == Success ==>
              var slots := Slots(ctx.sessionTab);
              var k, e := FirstFlagged(slots, ATTR_DECRYPT), FirstFlagged(slots, ATTR_ENCRYPT);
              && CpAfter(c, slots, k, k < 3, sys.decryptAllowed, old(sys.cp[..]), sys.cp[..])
              && count <= 3
              && (forall i :: 0 <= i < 3 ==> SlotReady(slots[i]))
              && auths[..count] == AuthList(c, ctx.sessionType, slots, AuthsOf(targets), CpInput(sys, targets),
                                            OtherNonce(slots, k), OtherNonce(slots, e), 3)
              && ctx.encryptNonceIdx == (if e < 3 then e else 0)
              && ctx.encryptNonce == (if e < 3 then ctx.sessionTab[e] else null)
  {
    hide *;
    var tab := ctx.sessionTab;
    ghost var was, cp0, allowed := Slots(tab), sys.cp[..], sys.decryptAllowed;
    CommandArea(sys);
    ghost var size := ParamSize(allowed, cp0);
    GenRcIs(c, was, allowed, size);
    count := 0;
    ClearAuths(auths);
    rc := GenCallerNonces(tab, random);
    ghost var slots := Slots(tab);
    RenoncedReady(was, slots);
    RenoncedPass(c, was, slots, allowed, size);
    if rc != Success {
      return;
    }
    assert sys.cp[..] == cp0;
    rc, count := EncryptAndList(c, sys, ctx, targets, auths);
    if rc == Success {
      ghost var after, list := Slots(tab), auths[..count];
      FlagValues();
      CpInputIs(sys, targets);
      ListShown(c, ctx.sessionType, tab, targets, CpInput(sys, targets),
                OtherNonce(after, FirstFlagged(after, ATTR_DECRYPT)),
                OtherNonce(after, FirstFlagged(after, ATTR_ENCRYPT)));
    }
  }
}
