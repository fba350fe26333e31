/** Checking a response: its HMACs, the new nonces of the sessions, and decryption. */
module EsysResponse {
  import opened TpmBase
  import opened TpmFormats
  import opened MuWire
  import opened EsysMu
  import opened EsysTable
  import opened EsysTr
  import opened EsysCrypto
  import opened EsysSession
  import opened EsysParam
  import opened EsysAuth

  /** What the response parameter hashes cover: a zero response code, the command code, and
      the parameters as they came, still encrypted. */
  function RpInput(cc: seq<byte>, rp: seq<byte>): seq<byte> {
    PHashInput(Some([0, 0, 0, 0]), cc, [None, None, None], rp)
  }

  /** The HMAC a session expects: newer is what the TPM sent, older what the caller chose. */
  function ResponseHmac(c: Crypto, s: Session, nonce: seq<byte>, attributes: byte, input: seq<byte>): seq<byte> {
    c.hmac(s.authHash, HmacKey(s), AuthInput(c.hash(s.authHash, input), nonce, s.nonceCaller, None, None, attributes))
  }

  /** A response authorization that is right for the session in its place. */
  predicate RspOk(c: Crypto, slot: Slot, rsp: AuthResponse, input: seq<byte>) {
    slot.Live? ==>
      if slot.session.typePolicy == POLICY_PASSWORD then rsp.hmac == []
      else rsp.hmac == ResponseHmac(c, slot.session, rsp.nonce, rsp.attributes, input)
  }

  /** How checking one place ends: a password policy is compared without a key. */
  function RspRc(c: Crypto, slot: Slot, rsp: AuthResponse, input: seq<byte>): Rc {
    if !Keyed(slot) then OutOfBounds
    else if RspOk(c, slot, rsp, input) then Success
    else EsysRspAuthFailed
  }

  /** The message is that of four zero bytes, the command code and the parameters, whatever
      algorithm hashes it. */
  lemma RpInputIs(cc: seq<byte>, rp: seq<byte>)
    ensures RpInput(cc, rp) == [0, 0, 0, 0] + cc + rp
    ensures PHashInput(Some([0, 0, 0, 0]), cc, [None, None, None], rp) == RpInput(cc, rp)
  {
    assert [0, 0, 0, 0] + cc + [] + [] + [] == [0, 0, 0, 0] + cc;
  }

  /** The check of one place, written out: hash of the message, the TPM's nonce, the caller's
      nonce, the attributes of the response. */
  lemma RspRcIs(c: Crypto, slot: Slot, rsp: AuthResponse, input: seq<byte>)
    ensures RspRc(c, slot, rsp, input) ==
            if slot == Empty then Success
            else
              var s := slot.session;
              if s.typePolicy == 2 then (if rsp.hmac == [] then Success else EsysRspAuthFailed)
              else if s.sizeHmacValue > |s.sessionValue| then OutOfBounds
              else if rsp.hmac == c.hmac(s.authHash, s.sessionValue[..s.sizeHmacValue],
                                         c.hash(s.authHash, input) + rsp.nonce + s.nonceCaller + [rsp.attributes])
              then Success
              else EsysRspAuthFailed
  {
    hide Lawful;
    if slot.Live? {
      var s := slot.session;
      AuthInputIs(c.hash(s.authHash, input), rsp.nonce, s.nonceCaller, None, None, rsp.attributes);
      NoOthers(c.hash(s.authHash, input) + rsp.nonce + s.nonceCaller, [rsp.attributes]);
    }
    hide AuthInput;
  }

  lemma NoOthers(a: seq<byte>, b: seq<byte>)
    ensures a + [] + [] + b == a + b
  {
  }

  /** A place that takes over what its response says. */
  function Updated(slot: Slot, nonce: seq<byte>, attributes: byte): Slot {
    if slot.Live? && slot.session.typePolicy != POLICY_PASSWORD
    then slot.(session := slot.session.(nonceTPM := nonce, attributes := attributes))
    else slot
  }

  /** Nothing but the TPM nonce and the attributes may have changed. */
  predicate Retouched(a: Slot, b: Slot) {
    if a == Empty then b == Empty
    else b.Live? && b.handle == a.handle
         && b.session == a.session.(nonceTPM := b.session.nonceTPM, attributes := b.session.attributes)
         && (KeyReady(a.session) ==> KeyReady(b.session))
  }

  /** What is checked does not depend on what was touched. */
  lemma RspRcStable(c: Crypto, a: Slot, b: Slot, rsp: AuthResponse, input: seq<byte>)
    requires SlotReady(a) && Retouched(a, b)
    ensures SlotReady(b) && RspRc(c, a, rsp, input) == RspRc(c, b, rsp, input)
    ensures Retouched(a, Updated(b, rsp.nonce, rsp.attributes))
  {
    hide Lawful;
  }

  predicate RspsOk(c: Crypto, slots: seq<Slot>, rsps: seq<AuthResponse>, n: nat, input: seq<byte>)
    requires n <= |rsps| <= |slots|
  {
    forall i :: 0 <= i < n ==> RspOk(c, slots[i], rsps[i], input)
  }

  /** The first place from `i` on whose check fails, or the number of responses. */
  function FirstBad(c: Crypto, slots: seq<Slot>, rsps: seq<AuthResponse>, i: nat, input: seq<byte>): (k: nat)
    requires i <= |rsps| <= |slots|
    ensures i <= k <= |rsps|
    ensures forall j :: i <= j < k ==> RspRc(c, slots[j], rsps[j], input) == Success
    ensures k < |rsps| ==> RspRc(c, slots[k], rsps[k], input) != Success
    decreases |rsps| - i
  {
    if i == |rsps| || RspRc(c, slots[i], rsps[i], input) != Success then i else FirstBad(c, slots, rsps, i + 1, input)
  }

  /** How the check of all responses ends: as that of the first place that fails. */
  function RspsRc(c: Crypto, slots: seq<Slot>, rsps: seq<AuthResponse>, input: seq<byte>): Rc
    requires |rsps| <= |slots|
  {
    var k := FirstBad(c, slots, rsps, 0, input);
    if k < |rsps| then RspRc(c, slots[k], rsps[k], input) else Success
  }

  /** The responses that are taken over: all, or those up to the first that fails and that one
      too, since nonce and attributes are replaced before the HMAC is compared. */
  function Taken(c: Crypto, slots: seq<Slot>, rsps: seq<AuthResponse>, input: seq<byte>): (n: nat)
    requires |rsps| <= |slots|
    ensures n <= |rsps|
  {
    var k := FirstBad(c, slots, rsps, 0, input);
    if k < |rsps| then k + 1 else k
  }

  /** The check succeeds exactly if every response authorization is right and every key that
      is needed fits. */
  lemma RspsOkIff(c: Crypto, slots: seq<Slot>, rsps: seq<AuthResponse>, input: seq<byte>)
    requires |rsps| <= |slots|
    ensures RspsRc(c, slots, rsps, input) == Success <==>
              RspsOk(c, slots, rsps, |rsps|, input) && AllKeyed(slots, |rsps|)
    ensures RspsRc(c, slots, rsps, input) == Success ==> Taken(c, slots, rsps, input) == |rsps|
    ensures RspsOk(c, slots, rsps, |rsps|, input) ==> RspsRc(c, slots, rsps, input) in {Success, OutOfBounds}
    ensures RspsRc(c, slots, rsps, input) in {Success, OutOfBounds, EsysRspAuthFailed}
  {
    hide RspOk, Keyed;
    var k := FirstBad(c, slots, rsps, 0, input);
    if k == |rsps| {
      forall j | 0 <= j < k ensures RspOk(c, slots[j], rsps[j], input) && Keyed(slots[j]) {
        assert RspRc(c, slots[j], rsps[j], input) == Success;
      }
    }
  }

  /** All responses, written out in the same way. */
  lemma RspsRcIs(c: Crypto, slots: seq<Slot>, rsps: seq<AuthResponse>, input: seq<byte>)
    requires |rsps| <= |slots|
    ensures RspsRc(c, slots, rsps, input) == Success <==>
              forall i :: 0 <= i < |rsps| && slots[i].Live? ==>
                var s := slots[i].session;
                if s.typePolicy == 2 then rsps[i].hmac == []
                else s.sizeHmacValue <= |s.sessionValue|
                     && rsps[i].hmac == c.hmac(s.authHash, s.sessionValue[..s.sizeHmacValue],
                                               c.hash(s.authHash, input) + rsps[i].nonce + s.nonceCaller
                                               + [rsps[i].attributes])
  {
    hide *;
    EachRsp(c, slots, rsps, input);
    forall i | 0 <= i < |rsps|
      ensures RspRc(c, slots[i], rsps[i], input) == Success <==>
                (slots[i].Live? ==>
                   var s := slots[i].session;
                   if s.typePolicy == 2 then rsps[i].hmac == []
                   else s.sizeHmacValue <= |s.sessionValue|
                        && rsps[i].hmac == c.hmac(s.authHash, s.sessionValue[..s.sizeHmacValue],
                                                  c.hash(s.authHash, input) + rsps[i].nonce + s.nonceCaller
                                                  + [rsps[i].attributes]))
    {
      RspRcIs(c, slots[i], rsps[i], input);
    }
  }

  lemma EachRsp(c: Crypto, slots: seq<Slot>, rsps: seq<AuthResponse>, input: seq<byte>)
    requires |rsps| <= |slots|
    ensures RspsRc(c, slots, rsps, input) == Success <==>
              forall i :: 0 <= i < |rsps| ==> RspRc(c, slots[i], rsps[i], input) == Success
  {
    hide RspRc, Lawful;
  }

  /** The check of one session; its nonce and attributes are replaced before the comparison. */
  method CheckOne(c: Crypto, node: RsrcNode, rsp: AuthResponse, items: seq<HashItem>, ghost input: seq<byte>)
    returns (rc: Rc)
    requires ReadsAsSession(node.rsrc.misc) && SlotReady(SlotOf(node)) && Startable(c, SlotOf(node))
    requires var alg := SessionIn(node.rsrc.misc).authHash;
             && HasAlg(items, alg)
             && forall k :: 0 <= k < |items| && items[k].alg == alg ==> items[k].digest == c.hash(alg, input)
    modifies node`rsrc
    ensures rc == RspRc(c, old(SlotOf(node)), rsp, input)
    ensures rc != OutOfBounds ==>
              ReadsAsSession(node.rsrc.misc) && SlotOf(node) == Updated(old(SlotOf(node)), rsp.nonce, rsp.attributes)
    ensures var s := old(SessionIn(node.rsrc.misc));
            rc == if s.typePolicy == 2 then (if rsp.hmac == [] then Success else EsysRspAuthFailed)
                  else if s.sizeHmacValue > |s.sessionValue| then OutOfBounds
                  else if rsp.hmac == c.hmac(s.authHash, s.sessionValue[..s.sizeHmacValue],
                                             c.hash(s.authHash, input) + rsp.nonce + s.nonceCaller + [rsp.attributes])
                  then Success
                  else EsysRspAuthFailed
    ensures rc != OutOfBounds ==>
              var s := old(SessionIn(node.rsrc.misc));
              && node.rsrc.misc.SessionRsrc?
              && node.rsrc.misc.session == if s.typePolicy == 2 then s
                                           else s.(nonceTPM := rsp.nonce, attributes := rsp.attributes)
  {
    RspRcIs(c, SlotOf(node), rsp, input);
    hide HasAlg, Lawful, DigestSize, KeyReady, AuthInput;
    StartedIsSession(c, node);
    var s := node.rsrc.misc.session;
    if s.typePolicy == POLICY_PASSWORD {
      return if rsp.hmac != [] then EsysRspAuthFailed else Success;
    }
    var hi := FindAlg(items, s.authHash);
    if hi == |items| {
      return EsysGeneralFailure;
    }
    node.rsrc := node.rsrc.(misc := SessionRsrc(s.(nonceTPM := rsp.nonce, attributes := rsp.attributes)));
    if !HmacFits(s) {
      return OutOfBounds; // the key is read past sessionValue
    }
    var hmac;
    rc, hmac := AuthHmac(c, s.authHash, HmacKey(s), items[hi].digest, rsp.nonce, s.nonceCaller,
                         None, None, rsp.attributes);
    if rc != Success {
      return rc;
    }
    if rsp.hmac != hmac {
      return EsysRspAuthFailed;
    }
    return Success;
  }

  lemma StartedIsSession(c: Crypto, node: RsrcNode)
    requires ReadsAsSession(node.rsrc.misc) && Startable(c, SlotOf(node))
    ensures node.rsrc.misc.SessionRsrc?
  {
    SizedIsSession(node.rsrc.misc);
    hide Lawful;
  }

  /** No session stands in two places. */
  predicate Apart(tab: seq<RsrcNode?>) {
    forall i, j :: 0 <= i < j < |tab| && tab[i] != null ==> tab[i] != tab[j]
  }

  lemma RetouchedSelf(slots: seq<Slot>)
    ensures forall i :: 0 <= i < |slots| ==> Retouched(slots[i], slots[i])
  {
    hide KeyReady;
  }

  /** The i-th response updates the node in the i-th place, and with it every place that holds
      the same node. */
  ghost function Touch(tab: seq<RsrcNode?>, cur: seq<Slot>, i: nat, rsp: AuthResponse): (r: seq<Slot>)
    requires |tab| == |cur| == 3 && i < 3
    ensures |r| == 3
  {
    var touched := (j: nat) requires j < 3 =>
      if tab[i] != null && tab[j] == tab[i] then Updated(cur[j], rsp.nonce, rsp.attributes) else cur[j];
    [touched(0), touched(1), touched(2)]
  }

  /** The places after the first `n` responses. */
  ghost function SlotsAfter(tab: seq<RsrcNode?>, slots: seq<Slot>, rsps: seq<AuthResponse>, n: nat): (r: seq<Slot>)
    requires |tab| == |slots| == 3 && n <= |rsps| && n <= 3
    ensures |r| == 3
  {
    if n == 0 then slots else Touch(tab, SlotsAfter(tab, slots, rsps, n - 1), n - 1, rsps[n - 1])
  }

  lemma SlotsAfterStart(tab: seq<RsrcNode?>, slots: seq<Slot>, rsps: seq<AuthResponse>)
    requires |tab| == |slots| == 3
    ensures SlotsAfter(tab, slots, rsps, 0) == slots
  {
  }

  lemma SlotsAfterNext(tab: seq<RsrcNode?>, slots: seq<Slot>, rsps: seq<AuthResponse>, n: nat)
    requires |tab| == |slots| == 3 && n < |rsps| && n < 3
    ensures SlotsAfter(tab, slots, rsps, n + 1) == Touch(tab, SlotsAfter(tab, slots, rsps, n), n, rsps[n])
  {
  }

  lemma TouchIs(tab: seq<RsrcNode?>, cur: seq<Slot>, i: nat, rsp: AuthResponse)
    requires |tab| == |cur| == 3 && i < 3
    ensures forall j :: 0 <= j < 3 ==>
              Touch(tab, cur, i, rsp)[j] ==
              if tab[i] != null && tab[j] == tab[i] then Updated(cur[j], rsp.nonce, rsp.attributes) else cur[j]
  {
  }

  lemma {:induction false} AfterLive(tab: seq<RsrcNode?>, slots: seq<Slot>, rsps: seq<AuthResponse>, n: nat)
    requires |tab| == |slots| == 3 && n <= |rsps| && n <= 3
    ensures forall i :: 0 <= i < 3 ==> (SlotsAfter(tab, slots, rsps, n)[i].Live? <==> slots[i].Live?)
  {
    if n > 0 {
      AfterLive(tab, slots, rsps, n - 1);
      TouchIs(tab, SlotsAfter(tab, slots, rsps, n - 1), n - 1, rsps[n - 1]);
      hide Touch;
    }
  }

  /** When no session stands in two places, every session is left with what its own response
      said. */
  lemma {:induction false} ApartKeepsOwn(tab: seq<RsrcNode?>, slots: seq<Slot>, rsps: seq<AuthResponse>, n: nat)
    requires |tab| == |slots| == 3 && n <= |rsps| && n <= 3 && Apart(tab)
    requires forall i :: 0 <= i < 3 ==> (tab[i] == null <==> slots[i] == Empty)
    ensures forall i :: 0 <= i < 3 ==>
              SlotsAfter(tab, slots, rsps, n)[i] ==
              if i < n then Updated(slots[i], rsps[i].nonce, rsps[i].attributes) else slots[i]
  {
    if n > 0 {
      ApartKeepsOwn(tab, slots, rsps, n - 1);
      TouchIs(tab, SlotsAfter(tab, slots, rsps, n - 1), n - 1, rsps[n - 1]);
      hide Touch;
    }
  }

  /** The check of the session in the i-th place, over the whole table. */
  method CheckPlace(c: Crypto, tab: seq<RsrcNode?>, i: nat, rsp: AuthResponse, items: seq<HashItem>,
                    ghost input: seq<byte>)
    returns (rc: Rc)
    requires |tab| == 3 && i < 3 && Sessions(tab) && tab[i] != null && Slots(tab)[i].Live?
    requires SlotReady(Slots(tab)[i]) && Startable(c, Slots(tab)[i])
    requires var alg := Slots(tab)[i].session.authHash;
             && HasAlg(items, alg)
             && forall k :: 0 <= k < |items| && items[k].alg == alg ==> items[k].digest == c.hash(alg, input)
    modifies LiveNodes(tab)`rsrc
    ensures rc == RspRc(c, old(Slots(tab))[i], rsp, input)
    ensures rc != OutOfBounds ==>
              && Sessions(tab)
              && forall j :: 0 <= j < 3 ==>
                   Slots(tab)[j] ==
                   if tab[j] == tab[i] then Updated(old(Slots(tab))[j], rsp.nonce, rsp.attributes)
                   else old(Slots(tab))[j]
  {
    hide *;
    var session := tab[i];
    InLiveNodes(tab, i);
    SlotLive(tab, i);
    Places(tab);
    rc := CheckOne(c, session, rsp, items, input);
    if rc != OutOfBounds {
      Places(tab);
      NodeIsSession(session);
    }
  }

  /** iesys_check_rp_hmacs: the places are checked in order up to the first that fails, and the
      responses checked are taken over, the failing one included. */
  method CheckRpHmacs(c: Crypto, tab: seq<RsrcNode?>, rsps: seq<AuthResponse>, items: seq<HashItem>,
                      ghost input: seq<byte>)
    returns (rc: Rc)
    requires |tab| == 3 && |rsps| <= 3 && Sessions(tab) && AllStartable(c, Slots(tab), |rsps|)
    requires forall i :: 0 <= i < 3 ==> SlotReady(Slots(tab)[i])
    requires ExactTable(c, items, Slots(tab), |rsps|, input)
    modifies LiveNodes(tab)`rsrc
    ensures rc == RspsRc(c, old(Slots(tab)), rsps, input)
    ensures rc != OutOfBounds ==>
              && Sessions(tab) && (forall i :: 0 <= i < 3 ==> Retouched(old(Slots(tab))[i], Slots(tab)[i]))
              && Slots(tab) == SlotsAfter(tab, old(Slots(tab)), rsps, Taken(c, old(Slots(tab)), rsps, input))
  {
    hide *;
    ghost var was := Slots(tab);
    ghost var bad := FirstBad(c, was, rsps, 0, input);
    TakenAt(c, was, rsps, input, |rsps|);
    RetouchedSelf(was);
    SlotsAfterStart(tab, was, rsps);
    for i := 0 to |rsps|
      invariant Sessions(tab) && forall j :: 0 <= j < 3 ==> Retouched(was[j], Slots(tab)[j])
      invariant i <= bad
      invariant Slots(tab) == SlotsAfter(tab, was, rsps, i)
    {
      ghost var cur := Slots(tab);
      var session := tab[i];
      SlotLive(tab, i);
      SlotsAfterNext(tab, was, rsps, i);
      TouchIs(tab, cur, i, rsps[i]);
      StableAll(c, was, cur, rsps[i], input);
      TakenAt(c, was, rsps, input, i);
      if session == null {
        EmptyUpdated(c, cur[i], rsps[i], input);
        continue;
      }
      SameAlg(c, was, cur, items, |rsps|, input, i);
      rc := CheckPlace(c, tab, i, rsps[i], items, input);
      if rc != Success {
        return rc;
      }
    }
    return Success;
  }

  lemma EmptyUpdated(c: Crypto, slot: Slot, rsp: AuthResponse, input: seq<byte>)
    requires slot == Empty
    ensures Updated(slot, rsp.nonce, rsp.attributes) == slot && RspRc(c, slot, rsp, input) == Success
  {
  }

  /** The first failing place, from the check of place `i`, or from none failing. */
  lemma TakenAt(c: Crypto, slots: seq<Slot>, rsps: seq<AuthResponse>, input: seq<byte>, i: nat)
    requires i <= |rsps| <= |slots|
    ensures var k := FirstBad(c, slots, rsps, 0, input);
            && 0 <= k <= |rsps|
            && (i < k ==> RspRc(c, slots[i], rsps[i], input) == Success)
            && (i == k < |rsps| ==>
                  && RspRc(c, slots[i], rsps[i], input) != Success
                  && RspsRc(c, slots, rsps, input) == RspRc(c, slots[i], rsps[i], input)
                  && Taken(c, slots, rsps, input) == i + 1)
            && (k == |rsps| ==> RspsRc(c, slots, rsps, input) == Success && Taken(c, slots, rsps, input) == k)
  {
    hide RspRc;
  }

  lemma StableAll(c: Crypto, was: seq<Slot>, cur: seq<Slot>, rsp: AuthResponse, input: seq<byte>)
    requires |was| == |cur| == 3 && forall j :: 0 <= j < 3 ==> SlotReady(was[j]) && Retouched(was[j], cur[j])
    ensures forall j :: 0 <= j < 3 ==>
              && SlotReady(cur[j]) && RspRc(c, was[j], rsp, input) == RspRc(c, cur[j], rsp, input)
              && Retouched(was[j], Updated(cur[j], rsp.nonce, rsp.attributes))
  {
    hide *;
    RspRcStable(c, was[0], cur[0], rsp, input);
    RspRcStable(c, was[1], cur[1], rsp, input);
    RspRcStable(c, was[2], cur[2], rsp, input);
  }

  lemma SameAlg(c: Crypto, was: seq<Slot>, cur: seq<Slot>, items: seq<HashItem>, n: nat, input: seq<byte>, i: nat)
    requires |was| == |cur| == 3 && i < n <= 3 && Retouched(was[i], cur[i]) && cur[i].Live?
    requires ExactTable(c, items, was, n, input) && AllStartable(c, was, n)
    ensures Startable(c, cur[i])
    ensures var alg := cur[i].session.authHash;
            && HasAlg(items, alg)
            && forall k :: 0 <= k < |items| && items[k].alg == alg ==> items[k].digest == c.hash(alg, input)
  {
    hide HasAlg, KeyReady, Lawful;
    TableLookup(c, items, was, n, input, i, 0);
    assert Startable(c, was[i]);
  }

  // ---------------------------------------------------------------- decryption

  /** How decrypting the first response parameter ends. The length is only held against the
      whole area, so it may reach up to two bytes past it. */
  function DecryptRc(c: Crypto, s: Session, rp: seq<byte>): Rc {
    if DigestSize(s.authHash) == None then EsysBadValue
    else if |rp| < 2 then MuInsufficientBuffer
    else if FromBE(rp[..2]) > |rp| then EsysBadValue
    else CipherRc(c, s, FromBE(rp[..2]))
  }

  /** The buffer behind the response with its first parameter in the clear. */
  function DecryptedRp(c: Crypto, s: Session, buffer: seq<byte>): (r: seq<byte>)
    requires KeyReady(s) && DigestSize(s.authHash).Some? && 2 <= |buffer| && 2 + FromBE(buffer[..2]) <= |buffer|
    requires CipherRc(c, s, FromBE(buffer[..2])) == Success
    ensures |r| == |buffer|
  {
    var n := FromBE(buffer[..2]);
    buffer[..2] + Ciphered(c, s, s.nonceTPM, s.nonceCaller, buffer[2..2 + n], false) + buffer[2 + n..]
  }

  /** `now` is the response buffer `was` with its first parameter decrypted for `s`. */
  ghost predicate Decrypted(c: Crypto, s: Session, was: seq<byte>, now: seq<byte>) {
    && KeyReady(s) && DigestSize(s.authHash).Some? && 2 <= |was| && 2 + FromBE(was[..2]) <= |was|
    && CipherRc(c, s, FromBE(was[..2])) == Success
    && now == DecryptedRp(c, s, was)
  }

  /** Both written out: the size in the first two bytes is held against the whole area; what is
      decrypted stands behind it, and the nonce of the TPM is the newer one. */
  lemma DecryptIs(c: Crypto, s: Session, rp: seq<byte>, now: seq<byte>)
    ensures DecryptRc(c, s, rp) ==
            if s.authHash !in {0x0004, 0x000B, 0x000C, 0x000D, 0x0012} then EsysBadValue
            else if |rp| < 2 then MuInsufficientBuffer
            else if 256 * (rp[0] as int) + rp[1] > |rp| then EsysBadValue
            else CipherRc(c, s, 256 * (rp[0] as int) + rp[1])
    ensures Decrypted(c, s, rp, now) ==>
              && 2 <= |rp| && 2 + (256 * (rp[0] as int) + rp[1]) <= |rp|
              && now == rp[..2] + Ciphered(c, s, s.nonceTPM, s.nonceCaller,
                                           rp[2..2 + (256 * (rp[0] as int) + rp[1])], false)
                        + rp[2 + (256 * (rp[0] as int) + rp[1])..]
  {
    if |rp| >= 2 { FrontPair(rp); }
    hide FromBE, CipherRc, Ciphered, KeyReady, Lawful;
  }

  /** The bytes of the buffer that are decrypted. */
  predicate InRegion(buffer: seq<byte>, i: int) { 2 <= i && 2 <= |buffer| && i < 2 + FromBE(buffer[..2]) }

  /** Every byte that is decrypted lies in the response area exactly when size field and
      parameter fit it together, which is not what is checked: the region may reach two bytes
      further, and no more. No other byte changes. */
  lemma RegionInsideIff(c: Crypto, s: Session, buffer: seq<byte>, len: nat)
    requires KeyReady(s) && 2 <= len && len + 2 <= |buffer| && DecryptRc(c, s, buffer[..len]) == Success
    ensures forall i :: InRegion(buffer, i) ==> i < len + 2
    ensures (forall i :: InRegion(buffer, i) ==> i < len) <==> 2 + FromBE(buffer[..2]) <= len
    ensures forall now :: Decrypted(c, s, buffer, now) ==>
              |now| == |buffer| && forall i :: 0 <= i < |buffer| && !InRegion(buffer, i) ==> now[i] == buffer[i]
  {
    hide FromBE, CipherRc, Ciphered, DigestSize;
    assert buffer[..len][..2] == buffer[..2];
    var n := FromBE(buffer[..2]);
    if 2 + n > len { assert InRegion(buffer, 1 + n); }
    forall now | Decrypted(c, s, buffer, now)
      ensures |now| == |buffer| && forall i :: 0 <= i < |buffer| && !InRegion(buffer, i) ==> now[i] == buffer[i]
    {
      assert now == DecryptedRp(c, s, buffer);
      forall i | 2 + n <= i < |buffer| ensures now[i] == buffer[i] { assert now[i] == buffer[2 + n..][i - 2 - n]; }
    }
  }

  /** The smallest such response: three bytes, of which the last one is to be the first of three. */
  lemma DecryptReachesPast(c: Crypto, s: Session, x: byte)
    requires s.symmetric.algorithm == ALG_XOR && StartRc(c, s.authHash) == Success
    ensures FromBE([0, 3, x][..2]) == 3 && 2 + 3 > |[0, 3, x]|
    ensures DecryptRc(c, s, [0, 3, x]) == Success
  {
    hide Lawful;
    assert [0, 3, x][..2] == [0, 3] && [0, 3][..1] == [0] && [0][..0] == [];
    assert FromBE([0, 3]) == 3;
  }

  /** iesys_decrypt_param, in place in the response buffer. */
  method DecryptParam(c: Crypto, node: RsrcNode, rp: array<byte>, rpLen: nat) returns (rc: Rc)
    requires ReadsAsSession(node.rsrc.misc) && KeyReady(SessionIn(node.rsrc.misc)) && rpLen + 2 <= rp.Length
    modifies rp
    ensures rc == DecryptRc(c, SessionIn(node.rsrc.misc), old(rp[..rpLen]))
    ensures rc != Success && rc != OutOfBounds ==> rp[..] == old(rp[..])
    ensures rc == Success ==> Decrypted(c, SessionIn(node.rsrc.misc), old(rp[..]), rp[..])
    ensures rc == Success && 2 + FromBE(old(rp[..2])) <= rpLen ==> rp[rpLen..] == old(rp[rpLen..])
  {
    hide CipherRc, Ciphered, DigestSize, KeyReady, FromBE;
    var s := SessionIn(node.rsrc.misc);
    ghost var was := rp[..];
    assert was[..rpLen] == rp[..rpLen];
    if DigestSize(s.authHash) == None {
      return EsysBadValue;
    }
    if rpLen < 2 {
      return MuInsufficientBuffer;
    }
    assert rp[..rpLen][..2] == rp[..2] == was[..2];
    var p2BSize := FromBE(rp[..2]);
    if p2BSize > rpLen {
      return EsysBadValue;
    }
    ghost var data := was[2..2 + p2BSize];
    assert rp[..2] == was[..2] && rp[2..2 + p2BSize] == data && rp[2 + p2BSize..] == was[2 + p2BSize..];
    rc := CipherRegion(c, s, s.nonceTPM, s.nonceCaller, rp, 2, p2BSize, false);
    if rc == Success {
      BehindRegion(rp[..], was, Ciphered(c, s, s.nonceTPM, s.nonceCaller, data, false), p2BSize, rpLen);
    }
  }

  lemma BehindRegion(now: seq<byte>, was: seq<byte>, out: seq<byte>, n: nat, len: nat)
    requires |out| == n && 2 + n <= |was| && len <= |was| && now == was[..2] + out + was[2 + n..]
    ensures 2 + n <= len ==> now[len..] == was[len..]
  {
    forall i | len <= i < |was| && 2 + n <= len ensures now[i] == was[i] { assert now[i] == was[2 + n..][i - 2 - n]; }
  }

  // ---------------------------------------------------------------- the whole check

  /** Whether any handle of the command names an object of the context. */
  predicate AnyObject(kinds: seq<nat>)
    requires |kinds| == 3
  {
    kinds[0] >= TR_MIN_OBJECT || kinds[1] >= TR_MIN_OBJECT || kinds[2] >= TR_MIN_OBJECT
  }

  /** The places after all responses; there are never more than three. */
  ghost function AllAfter(tab: seq<RsrcNode?>, slots: seq<Slot>, rsps: seq<AuthResponse>): (r: seq<Slot>)
    requires |tab| == |slots| == 3
    ensures |r| == 3 && forall i :: 0 <= i < 3 ==> (r[i].Live? <==> slots[i].Live?)
  {
    if |rsps| <= 3 then
      AfterLive(tab, slots, rsps, |rsps|);
      SlotsAfter(tab, slots, rsps, |rsps|)
    else slots
  }

  /** How iesys_check_response ends, for `count` authorizations sent and the encrypt session,
      if any, in place `e`; `after` are the sessions as the HMAC check leaves them. */
  function CheckRc(c: Crypto, kinds: seq<nat>, count: nat, slots: seq<Slot>, after: seq<Slot>, e: Option<nat>,
                   rspRc: Rc, rsps: seq<AuthResponse>, cc: seq<byte>, rp: seq<byte>): Rc
    requires |kinds| == |slots| == |after| == 3 && count <= 3 && AllReady(slots)
    requires e.Some? ==> e.value < 3 && after[e.value].Live?
  {
    if count == 0 then Success
    else if rspRc != Success then rspRc
    else if |rsps| != count then EsysGeneralFailure
    else if !AnyObject(kinds) then Success
    else if !AllStartable(c, slots, count) then EsysNotImplemented
    else if RspsRc(c, slots, rsps, RpInput(cc, rp)) != Success then RspsRc(c, slots, rsps, RpInput(cc, rp))
    else if e == None then Success
    else DecryptRc(c, after[e.value].session, rp)
  }

  /** The place of the encrypt session the context remembers. */
  ghost function EncryptPlace(ctx: EsysContext): Option<nat>
    reads ctx
  {
    if ctx.encryptNonce == null then None else Some(ctx.encryptNonceIdx)
  }

  /** The check gets as far as the HMACs. */
  predicate HmacsChecked(c: Crypto, kinds: seq<nat>, count: nat, slots: seq<Slot>, rspRc: Rc, rsps: seq<AuthResponse>)
    requires |kinds| == |slots| == 3 && count <= 3
  {
    count > 0 && rspRc == Success && |rsps| == count && AnyObject(kinds) && AllStartable(c, slots, count)
  }

  lemma CheckRcCases(c: Crypto, kinds: seq<nat>, count: nat, slots: seq<Slot>, after: seq<Slot>, e: Option<nat>,
                     rspRc: Rc, rsps: seq<AuthResponse>, cc: seq<byte>, rp: seq<byte>)
    requires |kinds| == |slots| == |after| == 3 && count <= 3 && AllReady(slots)
    requires e.Some? ==> e.value < 3 && after[e.value].Live?
    ensures var rc := CheckRc(c, kinds, count, slots, after, e, rspRc, rsps, cc, rp);
            && (count == 0 ==> rc == Success)
            && (count > 0 && rspRc != Success ==> rc == rspRc)
            && (count > 0 && rspRc == Success && |rsps| != count ==> rc == EsysGeneralFailure)
            && (count > 0 && rspRc == Success && |rsps| == count ==>
                  && (!AnyObject(kinds) ==> rc == Success)
                  && (AnyObject(kinds) && !AllStartable(c, slots, count) ==> rc == EsysNotImplemented))
            && (HmacsChecked(c, kinds, count, slots, rspRc, rsps) ==>
                  var hmacs := RspsRc(c, slots, rsps, RpInput(cc, rp));
                  rc == if hmacs != Success then hmacs else if e == None then Success
                        else DecryptRc(c, after[e.value].session, rp))
    ensures HmacsChecked(c, kinds, count, slots, rspRc, rsps) <==>
              count > 0 && rspRc == Success && |rsps| == count && AnyObject(kinds) && AllStartable(c, slots, count)
  {
    hide DecryptRc, RspsRc, AllStartable, Lawful, AnyObject, RpInput;
  }

  lemma ResponsesRight(c: Crypto, slots: seq<Slot>, rsps: seq<AuthResponse>, cc: seq<byte>, rp: seq<byte>)
    requires |rsps| <= |slots|
    ensures RspsRc(c, slots, rsps, RpInput(cc, rp)) == Success <==>
              forall i :: 0 <= i < |rsps| && slots[i].Live? ==>
                var s := slots[i].session;
                if s.typePolicy == 2 then rsps[i].hmac == []
                else s.sizeHmacValue <= |s.sessionValue|
                     && rsps[i].hmac == c.hmac(s.authHash, s.sessionValue[..s.sizeHmacValue],
                                               c.hash(s.authHash, [0, 0, 0, 0] + cc + rp)
                                               + rsps[i].nonce + s.nonceCaller + [rsps[i].attributes])
  {
    hide *;
    RpInputIs(cc, rp);
    RspsRcIs(c, slots, rsps, RpInput(cc, rp));
  }

  lemma AllAfterIs(tab: seq<RsrcNode?>, slots: seq<Slot>, rsps: seq<AuthResponse>)
    requires |tab| == |slots| == 3 && |rsps| <= 3
    ensures AllAfter(tab, slots, rsps) == SlotsAfter(tab, slots, rsps, |rsps|)
  {
  }

  lemma AnyObjectIs(kinds: seq<nat>)
    requires |kinds| == 3
    ensures AnyObject(kinds) <==> kinds[0] >= TR_MIN_OBJECT || kinds[1] >= TR_MIN_OBJECT || kinds[2] >= TR_MIN_OBJECT
    ensures TR_MIN_OBJECT == 0x1000
  {
  }

  lemma StillReady(a: seq<Slot>, b: seq<Slot>)
    requires |a| == |b| && AllReady(a) && forall i :: 0 <= i < |a| ==> Retouched(a[i], b[i])
    ensures forall i :: 0 <= i < |b| && b[i].Live? ==> KeyReady(b[i].session)
  {
    hide KeyReady;
    forall i | 0 <= i < |b| && b[i].Live? ensures KeyReady(b[i].session) {
      assert SlotReady(a[i]) && Retouched(a[i], b[i]);
    }
  }

  lemma ReadySlots(slots: seq<Slot>)
    ensures AllReady(slots) <==> forall i :: 0 <= i < |slots| ==> SlotReady(slots[i])
  {
  }

  /** The hash table of the response and the check of its HMACs. */
  method HashAndCheck(c: Crypto, sys: SysContext, tab: seq<RsrcNode?>, count: nat) returns (rc: Rc)
    requires |tab| == 3 && |sys.rspAuths| == count <= 3 && sys.rpLen <= sys.rp.Length
    requires Sessions(tab) && AllReady(Slots(tab))
    modifies LiveNodes(tab)`rsrc
    ensures var input := RpInput(sys.cc, sys.rp[..sys.rpLen]);
            && (!AllStartable(c, old(Slots(tab)), count) ==>
                  rc == EsysNotImplemented && Sessions(tab) && Slots(tab) == old(Slots(tab)))
            && (AllStartable(c, old(Slots(tab)), count) ==>
                  && rc == RspsRc(c, old(Slots(tab)), sys.rspAuths, input)
                  && (rc != OutOfBounds ==>
                        && Sessions(tab) && (forall i :: 0 <= i < 3 ==> Retouched(old(Slots(tab))[i], Slots(tab)[i]))
                        && Slots(tab) == SlotsAfter(tab, old(Slots(tab)), sys.rspAuths,
                                                    Taken(c, old(Slots(tab)), sys.rspAuths, input))))
  {
    hide *;
    ReadySlots(Slots(tab));
    RpInputIs(sys.cc, sys.rp[..sys.rpLen]);
    var items;
    rc, items := ComputeHashtab(c, tab, count, Some([0, 0, 0, 0]), sys.cc, [None, None, None], sys.rp[..sys.rpLen]);
    if rc != Success {
      return rc;
    }
    rc := CheckRpHmacs(c, tab, sys.rspAuths, items, RpInput(sys.cc, sys.rp[..sys.rpLen]));
  }

  /** iesys_check_response: its return code, the sessions it leaves behind, and the parameter
      it leaves in the buffer. */
  method CheckResponse(c: Crypto, sys: SysContext, ctx: EsysContext) returns (rc: Rc)
    requires |ctx.sessionType| == |ctx.sessionTab| == 3 && ctx.authsCount <= 3
    requires sys.ResponseReady()
    requires Sessions(ctx.sessionTab) && AllReady(Slots(ctx.sessionTab))
    requires ctx.encryptNonce != null ==>
               ctx.encryptNonceIdx < 3 && ctx.sessionTab[ctx.encryptNonceIdx] == ctx.encryptNonce
    modifies LiveNodes(ctx.sessionTab)`rsrc, sys.rp
    ensures rc != OutOfBounds ==> Sessions(ctx.sessionTab)
    ensures rc != OutOfBounds && HmacsChecked(c, ctx.sessionType, ctx.authsCount, old(Slots(ctx.sessionTab)), sys.rspRc,
                                              sys.rspAuths) ==>
              Slots(ctx.sessionTab) ==
              SlotsAfter(ctx.sessionTab, old(Slots(ctx.sessionTab)), sys.rspAuths,
                         Taken(c, old(Slots(ctx.sessionTab)), sys.rspAuths, RpInput(sys.cc, old(sys.rp[..sys.rpLen]))))
    ensures ctx.authsCount == 0 || !AnyObject(ctx.sessionType) ==>
              Slots(ctx.sessionTab) == old(Slots(ctx.sessionTab))
    ensures EncryptPlace(ctx).Some? ==>
              EncryptPlace(ctx).value < 3 && old(Slots(ctx.sessionTab))[EncryptPlace(ctx).value].Live?
    ensures rc == CheckRc(c, ctx.sessionType, ctx.authsCount, old(Slots(ctx.sessionTab)),
                          AllAfter(ctx.sessionTab, old(Slots(ctx.sessionTab)), sys.rspAuths), EncryptPlace(ctx),
                          sys.rspRc, sys.rspAuths, sys.cc, old(sys.rp[..sys.rpLen]))
    ensures rc == Success && ctx.authsCount > 0 && AnyObject(ctx.sessionType) ==>
              Slots(ctx.sessionTab) == AllAfter(ctx.sessionTab, old(Slots(ctx.sessionTab)), sys.rspAuths)
    ensures rc == Success && ctx.authsCount > 0 && AnyObject(ctx.sessionType) && EncryptPlace(ctx).Some? ==>
              var slot := AllAfter(ctx.sessionTab, old(Slots(ctx.sessionTab)), sys.rspAuths)[EncryptPlace(ctx).value];
              && slot.Live? && Decrypted(c, slot.session, old(sys.rp[..]), sys.rp[..])
              && (2 + FromBE(old(sys.rp[..2])) <= sys.rpLen ==> sys.rp[sys.rpLen..] == old(sys.rp[sys.rpLen..]))
    ensures ctx.authsCount == 0 || !AnyObject(ctx.sessionType) || EncryptPlace(ctx) == None ==>
              sys.rp[..] == old(sys.rp[..])
    ensures var kinds, rsps := ctx.sessionType, sys.rspAuths;
            var right := forall i :: 0 <= i < ctx.authsCount && i < |rsps| && old(Slots(ctx.sessionTab))[i].Live? ==>
                           var s := old(Slots(ctx.sessionTab))[i].session;
                           if s.typePolicy == 2 then rsps[i].hmac == []
                           else s.sizeHmacValue <= |s.sessionValue|
                                && rsps[i].hmac == c.hmac(s.authHash, s.sessionValue[..s.sizeHmacValue],
                                                          c.hash(s.authHash, [0, 0, 0, 0] + sys.cc
                                                                             + old(sys.rp[..sys.rpLen]))
                                                          + rsps[i].nonce + s.nonceCaller + [rsps[i].attributes]);
            ctx.authsCount > 0 && (kinds[0] >= 0x1000 || kinds[1] >= 0x1000 || kinds[2] >= 0x1000) ==>
              && (rc == Success ==> sys.rspRc == Success && |rsps| == ctx.authsCount && right)
              && (sys.rspRc == Success && |rsps| == ctx.authsCount && ctx.encryptNonce == null && right ==>
                    AllStartable(c, old(Slots(ctx.sessionTab)), ctx.authsCount) ==> rc == Success)
  {
    hide *;
    ResponseShape(sys);
    var tab, count, rsps := ctx.sessionTab, ctx.authsCount, sys.rspAuths;
    ghost var slots, rp, whole := Slots(tab), sys.rp[..sys.rpLen], sys.rp[..];
    EncryptPlaceIs(ctx);
    ghost var e := EncryptPlace(ctx);
    ghost var after := AllAfter(tab, slots, rsps);
    CheckRcCases(c, ctx.sessionType, count, slots, after, e, sys.rspRc, rsps, sys.cc, rp);
    if |rsps| <= 3 { ResponsesRight(c, slots, rsps, sys.cc, rp); }
    ReadySlots(slots);
    AnyObjectIs(ctx.sessionType);
    if count == 0 {
      return Success;
    }
    if sys.rspRc != Success {
      return sys.rspRc;
    }
    if |rsps| != count {
      return EsysGeneralFailure;
    }
    var kinds := ctx.sessionType;
    if kinds[0] >= TR_MIN_OBJECT || kinds[1] >= TR_MIN_OBJECT || kinds[2] >= TR_MIN_OBJECT {
      rc := HashAndCheck(c, sys, tab, count);
      if rc != Success {
        return rc;
      }
      AllAfterIs(tab, slots, rsps);
      RspsOkIff(c, slots, rsps, RpInput(sys.cc, rp));
      StillReady(slots, Slots(tab));
      if ctx.encryptNonce != null {
        var node := tab[ctx.encryptNonceIdx];
        SlotLive(tab, ctx.encryptNonceIdx);
        assert sys.rp[..] == whole && sys.rp[..sys.rpLen] == rp;
        rc := DecryptParam(c, node, sys.rp, sys.rpLen);
        if rc != Success {
          return rc;
        }
      }
    }
    return Success;
  }

  lemma ResponseShape(sys: SysContext)
    requires sys.ResponseReady()
    ensures sys.rpLen <= sys.rp.Length && (sys.rspRc == Success ==> sys.rpLen + 2 <= sys.rp.Length)
  {
  }

  lemma EncryptPlaceIs(ctx: EsysContext)
    requires |ctx.sessionTab| == 3 && Sessions(ctx.sessionTab)
    requires ctx.encryptNonce != null ==>
               ctx.encryptNonceIdx < 3 && ctx.sessionTab[ctx.encryptNonceIdx] == ctx.encryptNonce
    ensures EncryptPlace(ctx) == if ctx.encryptNonce == null then None else Some(ctx.encryptNonceIdx)
    ensures EncryptPlace(ctx).Some? ==> Slots(ctx.sessionTab)[EncryptPlace(ctx).value].Live?
  {
  }
}
