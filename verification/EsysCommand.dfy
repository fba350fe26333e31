/**
 The command side of an exchange: which lists of authorizations a TPM accepts, and one whole
 command from its three session handles to that list.
 */
module EsysCommand {
  import opened TpmBase
  import opened EsysMu
  import opened EsysResource
  import opened EsysTable
  import opened EsysTr
  import opened EsysCrypto
  import opened EsysSession
  import opened EsysParam
  import opened EsysAuth
  import opened EsysExchange

  // ---------------------------------------------------------------- what the TPM expects

  /** The entry a place calls for, given the nonces of other sessions: a password for
      TPM_RS_PW, a plain value under a password policy, else an HMAC over the hash of the
      message, both nonces, the others and the attributes (section 19.6 of Part 1 of the TPM 2.0
      Library Specification). */
  function TpmEntry(c: Crypto, kind: nat, slot: Slot, target: Option<seq<byte>>, message: seq<byte>,
                    others: seq<byte>): AuthCommand
    requires SlotReady(slot)
  {
    if kind == 0xff then
      if target.Some? then AuthCommand(0x40000009, [], 0, target.value) else AuthCommand(0, [], 0, [])
    else if slot == Empty then AuthCommand(0, [], 0, [])
    else
      var s := slot.session;
      if s.typePolicy == 2 then AuthCommand(slot.handle, [], 0, if target.Some? then target.value else [])
      else
        var key := if s.sizeHmacValue <= |s.sessionValue| then s.sessionValue[..s.sizeHmacValue] else [];
        AuthCommand(slot.handle, s.nonceCaller, s.attributes,
                    c.hmac(s.authHash, key, c.hash(s.authHash, message) + s.nonceCaller + s.nonceTPM + others
                                            + [s.attributes]))
  }

  /** What the TPM puts into the first HMAC: the nonce of the decrypt session and that of the
      encrypt session, where they are others; one session with both roles counts once. */
  function TpmNonces(slots: seq<Slot>): seq<byte>
    requires |slots| == 3
  {
    var d, e := FirstFlagged(slots, 0x20), FirstFlagged(slots, 0x40);
    (if 0 < d < 3 then slots[d].session.nonceTPM else [])
    + (if 0 < e < 3 && e != d then slots[e].session.nonceTPM else [])
  }

  /** What iesys_gen_auths puts there: a session with both roles counts twice. */
  function EsysNonces(slots: seq<Slot>): seq<byte>
    requires |slots| == 3
  {
    var d, e := FirstFlagged(slots, 0x20), FirstFlagged(slots, 0x40);
    (if 0 < d < 3 then slots[d].session.nonceTPM else []) + (if 0 < e < 3 then slots[e].session.nonceTPM else [])
  }

  /** One entry for every place that is used, the first one with the nonces `others`. */
  function Entries(c: Crypto, kinds: seq<nat>, slots: seq<Slot>, targets: seq<Option<seq<byte>>>, message: seq<byte>,
                   others: seq<byte>): seq<AuthCommand>
    requires |kinds| == |slots| == |targets| == 3 && forall i :: 0 <= i < 3 ==> SlotReady(slots[i])
  {
    (if kinds[0] == 0xfff then [] else [TpmEntry(c, kinds[0], slots[0], targets[0], message, others)])
    + ((if kinds[1] == 0xfff then [] else [TpmEntry(c, kinds[1], slots[1], targets[1], message, [])])
       + (if kinds[2] == 0xfff then [] else [TpmEntry(c, kinds[2], slots[2], targets[2], message, [])]))
  }

  /** The list a TPM accepts: every entry is the one it computes itself. */
  function TpmList(c: Crypto, kinds: seq<nat>, slots: seq<Slot>, targets: seq<Option<seq<byte>>>, message: seq<byte>)
    : seq<AuthCommand>
    requires |kinds| == |slots| == |targets| == 3 && forall i :: 0 <= i < 3 ==> SlotReady(slots[i])
  {
    Entries(c, kinds, slots, targets, message, TpmNonces(slots))
  }

  /** The list iesys_gen_auths makes (see EsysAuth.GenAuths). */
  function EsysList(c: Crypto, kinds: seq<nat>, slots: seq<Slot>, targets: seq<Option<seq<byte>>>, message: seq<byte>)
    : seq<AuthCommand>
    requires |kinds| == |slots| == |targets| == 3 && forall i :: 0 <= i < 3 ==> SlotReady(slots[i])
  {
    AuthList(c, kinds, slots, targets, message, OtherNonce(slots, FirstFlagged(slots, ATTR_DECRYPT)),
             OtherNonce(slots, FirstFlagged(slots, ATTR_ENCRYPT)), 3)
  }

  /** One session, and not the first, both encrypts and decrypts. */
  predicate TwoRoles(slots: seq<Slot>) {
    0 < FirstFlagged(slots, ATTR_DECRYPT) == FirstFlagged(slots, ATTR_ENCRYPT) < |slots|
  }

  /** The first place is that of a session that computes an HMAC. */
  predicate FirstHmac(kinds: seq<nat>, slots: seq<Slot>)
    requires |kinds| == |slots| == 3
  {
    IsSession(kinds[0]) && slots[0].Live? && slots[0].session.typePolicy != POLICY_PASSWORD
  }

  /** Without two roles the two sides put the same nonces there. */
  lemma NoncesAgree(slots: seq<Slot>)
    requires |slots| == 3
    ensures !TwoRoles(slots) ==> TpmNonces(slots) == EsysNonces(slots)
    ensures TwoRoles(slots) ==>
              var e := FirstFlagged(slots, 0x40);
              && slots[e].Live?
              && EsysNonces(slots) == TpmNonces(slots) + slots[e].session.nonceTPM
  {
    hide HasFlag;
  }

  /** An entry of the list, whose nonces of other sessions are handed on apart. */
  lemma EntryWritten(c: Crypto, kind: nat, slot: Slot, target: Option<seq<byte>>, message: seq<byte>,
                     d: Option<seq<byte>>, e: Option<seq<byte>>)
    requires SlotReady(slot)
    ensures AuthFor(c, kind, slot, target, message, d, e)
            == TpmEntry(c, kind, slot, target, message, OptBytes(d) + OptBytes(e))
  {
    hide Lawful, Pow256;
    if slot.Live? {
      var s := slot.session;
      Assoc(c.hash(s.authHash, message) + s.nonceCaller + s.nonceTPM, OptBytes(d), OptBytes(e));
    }
  }

  lemma HandedNonces(slots: seq<Slot>)
    requires |slots| == 3
    ensures ATTR_DECRYPT == 0x20 && ATTR_ENCRYPT == 0x40
    ensures OptBytes(OtherNonce(slots, FirstFlagged(slots, 0x20)))
            + OptBytes(OtherNonce(slots, FirstFlagged(slots, 0x40))) == EsysNonces(slots)
    ensures OptBytes(None) + OptBytes(None) == []
  {
    hide HasFlag;
  }

  /** The list iesys_gen_auths makes, entry by entry. */
  lemma EsysListWritten(c: Crypto, kinds: seq<nat>, slots: seq<Slot>, targets: seq<Option<seq<byte>>>,
                        message: seq<byte>)
    requires |kinds| == |slots| == |targets| == 3 && forall i :: 0 <= i < 3 ==> SlotReady(slots[i])
    ensures EsysList(c, kinds, slots, targets, message)
            == Entries(c, kinds, slots, targets, message, EsysNonces(slots))
  {
    hide AuthFor, AuthList, SlotReady, Used, TpmEntry, OptBytes, OtherNonce, FirstFlagged, EsysNonces;
    HandedNonces(slots);
    var d, e := OtherNonce(slots, FirstFlagged(slots, 0x20)), OtherNonce(slots, FirstFlagged(slots, 0x40));
    AuthListNext(c, kinds, slots, targets, message, d, e, 0);
    AuthListNext(c, kinds, slots, targets, message, d, e, 1);
    AuthListNext(c, kinds, slots, targets, message, d, e, 2);
    EntryWritten(c, kinds[0], slots[0], targets[0], message, d, e);
    EntryWritten(c, kinds[1], slots[1], targets[1], message, None, None);
    EntryWritten(c, kinds[2], slots[2], targets[2], message, None, None);
  }

  /** Two such lists differ in their first entry only. */
  lemma FirstEntryDecides(c: Crypto, kinds: seq<nat>, slots: seq<Slot>, targets: seq<Option<seq<byte>>>,
                          message: seq<byte>, mine: seq<byte>, its: seq<byte>)
    requires |kinds| == |slots| == |targets| == 3 && forall i :: 0 <= i < 3 ==> SlotReady(slots[i])
    ensures Entries(c, kinds, slots, targets, message, mine) == Entries(c, kinds, slots, targets, message, its)
            <==> kinds[0] == 0xfff || TpmEntry(c, kinds[0], slots[0], targets[0], message, mine)
                                      == TpmEntry(c, kinds[0], slots[0], targets[0], message, its)
  {
    hide TpmEntry, SlotReady;
    if kinds[0] != 0xfff {
      assert Entries(c, kinds, slots, targets, message, mine)[0]
             == TpmEntry(c, kinds[0], slots[0], targets[0], message, mine);
      assert Entries(c, kinds, slots, targets, message, its)[0]
             == TpmEntry(c, kinds[0], slots[0], targets[0], message, its);
    }
  }

  /** The message of the first HMAC, on either side, is the same exactly without two roles or
      with an empty nonce. */
  lemma MessageIff(slots: seq<Slot>, cpHash: seq<byte>, attributes: byte)
    requires |slots| == 3 && slots[0].Live?
    ensures var s, e := slots[0].session, FirstFlagged(slots, ATTR_ENCRYPT);
            cpHash + s.nonceCaller + s.nonceTPM + EsysNonces(slots) + [attributes]
            == cpHash + s.nonceCaller + s.nonceTPM + TpmNonces(slots) + [attributes]
            <==> !TwoRoles(slots) || slots[e].session.nonceTPM == []
  {
    hide HasFlag, FirstFlagged, EsysNonces, TpmNonces;
    NoncesAgree(slots);
    RoleFlags();
    var front := cpHash + slots[0].session.nonceCaller + slots[0].session.nonceTPM;
    if TwoRoles(slots) {
      var nonce := slots[FirstFlagged(slots, 0x40)].session.nonceTPM;
      NothingMore(TpmNonces(slots), nonce);
      assert |front + EsysNonces(slots) + [attributes]| == |front + TpmNonces(slots) + [attributes]| + |nonce|;
    }
  }

  lemma NothingMore(a: seq<byte>, b: seq<byte>)
    ensures b == [] ==> a + b == a
  {
  }

  /** What the TPM makes of the whole list: it is the list it computes itself exactly if the
      first place computes no HMAC or gets the same HMAC over both messages. */
  lemma CommandAcceptedIff(c: Crypto, kinds: seq<nat>, slots: seq<Slot>, targets: seq<Option<seq<byte>>>,
                           message: seq<byte>)
    requires |kinds| == |slots| == |targets| == 3 && forall i :: 0 <= i < 3 ==> SlotReady(slots[i])
    ensures EsysList(c, kinds, slots, targets, message) == TpmList(c, kinds, slots, targets, message)
            <==> FirstHmac(kinds, slots) ==>
                   var s := slots[0].session;
                   var key := if s.sizeHmacValue <= |s.sessionValue| then s.sessionValue[..s.sizeHmacValue] else [];
                   var front := c.hash(s.authHash, message) + s.nonceCaller + s.nonceTPM;
                   s.attributes < 256 &&
                   c.hmac(s.authHash, key, front + EsysNonces(slots) + [s.attributes])
                   == c.hmac(s.authHash, key, front + TpmNonces(slots) + [s.attributes])
  {
    EsysListWritten(c, kinds, slots, targets, message);
    FirstEntryDecides(c, kinds, slots, targets, message, EsysNonces(slots), TpmNonces(slots));
    hide EsysList, Entries, EsysNonces, TpmNonces, Lawful, Pow256;
  }

  /** So a TPM accepts all that iesys_gen_auths makes without two roles. With them, the first
      HMAC covers the nonce twice where the TPM expects it once. */
  lemma CommandAccepted(c: Crypto, kinds: seq<nat>, slots: seq<Slot>, targets: seq<Option<seq<byte>>>,
                        message: seq<byte>)
    requires |kinds| == |slots| == |targets| == 3 && forall i :: 0 <= i < 3 ==> SlotReady(slots[i])
    requires !TwoRoles(slots) || !FirstHmac(kinds, slots)
    ensures EsysList(c, kinds, slots, targets, message) == TpmList(c, kinds, slots, targets, message)
  {
    NoncesAgree(slots);
    CommandAcceptedIff(c, kinds, slots, targets, message);
    if FirstHmac(kinds, slots) { ReadyAttributes(slots[0]); }
    hide EsysList, TpmList, EsysNonces, TpmNonces, Lawful, TwoRoles, FirstHmac, SlotReady;
  }

  lemma ReadyAttributes(slot: Slot)
    requires SlotReady(slot)
    ensures slot.Live? ==> slot.session.attributes < 256
  {
  }

  // ---------------------------------------------------------------- from three handles to the list

  /** The place a handle gets in the table of sessions. */
  function PlaceOf(t: Table, h: nat): Slot {
    var i := IndexOf(t.entries, h);
    if IsSession(h) && i < |t.entries| && ReadsAsSession(t.entries[i].rsrc.misc)
    then Live(t.entries[i].rsrc.handle, SessionIn(t.entries[i].rsrc.misc))
    else Empty
  }

  /** The session value of a command that authorizes no object: the session key alone. */
  function KeyOnly(slot: Slot): Slot
    requires slot.Live? ==> SessionStorable(slot.session)
  {
    if slot.Live? then slot.(session := WithSessionValue(slot.session, None, None)) else slot
  }

  ghost predicate PlaceStorable(slot: Slot) { slot.Live? ==> SessionStorable(slot.session) }

  /** The places of three handles once their nodes are looked up. */
  function PlacesOf(t: Table, hs: seq<nat>): (slots: seq<Slot>)
    requires |hs| == 3
    ensures |slots| == 3
  {
    var t' := InitTable(t, hs);
    [PlaceOf(t', hs[0]), PlaceOf(t', hs[1]), PlaceOf(t', hs[2])]
  }

  /** The node of the handle, where there is one, is that of a session or of a global handle. */
  predicate Usable(t: Table, h: nat) {
    var i := IndexOf(t.entries, h);
    IsSession(h) && i < |t.entries| ==> ReadsAsSession(t.entries[i].rsrc.misc)
  }

  ghost predicate AllStorable(slots: seq<Slot>) { forall i :: 0 <= i < |slots| ==> PlaceStorable(slots[i]) }

  /** So are all nodes of the three handles, and the sessions fit their structure. */
  ghost predicate AllUsable(t: Table, hs: seq<nat>)
    requires |hs| == 3
  {
    (forall i :: 0 <= i < 3 ==> Usable(InitTable(t, hs), hs[i])) && AllStorable(PlacesOf(t, hs))
  }

  /** A place that is filled holds the place of its handle. */
  lemma PlaceIs(ctx: EsysContext, n: RsrcNode?, h: nat)
    requires ctx.Valid() && Inv(ctx.Contents()) && SlotFilled(n, h, ctx.nodes) && Usable(ctx.Contents(), h)
    ensures SessionNode(n) && SlotOf(n) == PlaceOf(ctx.Contents(), h)
  {
    hide Linked, Views, Inv;
    if n != null {
      var k := NodeEntry(ctx, n);
      EntryAt(ctx.Contents(), k);
      IndexOfIsFirst(ctx.Contents().entries, h, k);
    }
  }

  lemma KeyOnlyLaws(slot: Slot)
    requires PlaceStorable(slot)
    ensures PlaceStorable(KeyOnly(slot)) && SlotReady(KeyOnly(slot)) && KeyOnly(KeyOnly(slot)) == KeyOnly(slot)
    ensures slot.Live? && slot.session == EMPTY_SESSION ==> KeyOnly(slot) == slot
    ensures slot.Live? <==> KeyOnly(slot).Live?
    ensures slot.Live? ==> KeyOnly(slot).session.authHash == slot.session.authHash
  {
    if slot.Live? {
      StorableReady(slot.session, None, None);
      KeyTwice(slot.session.sessionKey, slot.session.sessionValue);
    }
    hide KeyReady, Pow256;
  }

  lemma KeyTwice(key: seq<byte>, was: seq<byte>)
    requires |key| <= |was|
    ensures var v := key + was[|key|..]; |v| == |was| && key + v[|key|..] == v
    ensures key == [] ==> key + was[|key|..] == was
  {
  }

  /** iesys_compute_session_value without a name. The union of a global handle holds nothing
      that this would change. */
  method KeyNode(node: RsrcNode)
    requires SessionNode(node) && SlotOf(node).Live? && PlaceStorable(SlotOf(node))
    modifies node`rsrc
    ensures SessionNode(node) && SlotOf(node) == KeyOnly(old(SlotOf(node)))
    ensures node.rsrc.misc.NoMisc? <==> old(node.rsrc.misc.NoMisc?)
  {
    hide *;
    ghost var was := SlotOf(node);
    KeyOnlyLaws(was);
    NodeReads(node);
    NodeIsSession(node);
    if node.rsrc.misc.SessionRsrc? {
      StorableKey(was);
      ComputeSessionValue(node, None, None);
      KeyOnlyIs(was);
      NodeIsSession(node);
    } else {
      GlobalIsEmpty(node.rsrc.misc);
    }
  }

  lemma NodeReads(node: RsrcNode)
    requires SessionNode(node)
    ensures ReadsAsSession(node.rsrc.misc) && SlotOf(node) == Live(node.rsrc.handle, SessionIn(node.rsrc.misc))
    ensures PlaceStorable(SlotOf(node)) ==> SessionStorable(SessionIn(node.rsrc.misc))
  {
    hide SessionStorable;
  }

  /** The same on the node of one place. */
  method ValuePlace(tab: seq<RsrcNode?>, i: nat)
    requires |tab| == 3 && i < 3 && Sessions(tab) && AllStorable(Slots(tab))
    modifies LiveNodes(tab)`rsrc
    ensures Sessions(tab) && AllStorable(Slots(tab))
    ensures forall j :: 0 <= j < 3 ==>
              Slots(tab)[j] ==
              if tab[i] != null && tab[j] == tab[i] then KeyOnly(old(Slots(tab))[j]) else old(Slots(tab))[j]
    ensures forall j :: 0 <= j < 3 && tab[j] != null ==>
              (tab[j].rsrc.misc.NoMisc? <==> old(tab[j].rsrc.misc.NoMisc?))
  {
    hide *;
    ghost var was := Slots(tab);
    Places(tab);
    StorableAll(was);
    KeyOnlyLaws(was[0]);
    KeyOnlyLaws(was[1]);
    KeyOnlyLaws(was[2]);
    SlotLive(tab, i);
    var node := tab[i];
    if node == null {
      return;
    }
    InLiveNodes(tab, i);
    KeyNode(node);
    Places(tab);
    assert forall j :: 0 <= j < 3 ==> Slots(tab)[j] == if tab[j] == node then KeyOnly(was[j]) else was[j];
    StorableAll(Slots(tab));
  }

  lemma StorableAll(slots: seq<Slot>)
    ensures AllStorable(slots) <==> forall i :: 0 <= i < |slots| ==> PlaceStorable(slots[i])
    ensures forall i :: 0 <= i < |slots| && PlaceStorable(slots[i]) && slots[i].Live? ==>
              SessionStorable(slots[i].session)
  {
    hide SessionStorable;
  }

  lemma StorableKey(slot: Slot)
    requires PlaceStorable(slot) && slot.Live?
    ensures |slot.session.sessionKey| <= DIGEST_MAX && |slot.session.sessionValue| == SESSION_VALUE_MAX
  {
    hide Pow256;
  }

  lemma KeyOnlyIs(slot: Slot)
    requires PlaceStorable(slot) && slot.Live? && SessionStorable(slot.session)
    requires |slot.session.sessionKey| <= DIGEST_MAX && |slot.session.sessionValue| == SESSION_VALUE_MAX
    ensures KeyOnly(slot) == Live(slot.handle, WithSessionValue(slot.session, None, None))
  {
    hide SessionStorable, WithSessionValue;
  }

  lemma GlobalIsEmpty(m: Misc)
    requires ReadsAsSession(m) && !m.SessionRsrc?
    ensures m.NoMisc? && SessionIn(m) == EMPTY_SESSION
  {
  }

  /** All three places. */
  method ValuePlaces(tab: seq<RsrcNode?>)
    requires |tab| == 3 && Sessions(tab) && AllStorable(Slots(tab))
    modifies LiveNodes(tab)`rsrc
    ensures Sessions(tab) && forall j :: 0 <= j < 3 ==> Slots(tab)[j] == KeyOnly(old(Slots(tab))[j])
    ensures forall j :: 0 <= j < 3 && tab[j] != null ==>
              (tab[j].rsrc.misc.NoMisc? <==> old(tab[j].rsrc.misc.NoMisc?))
  {
    hide *;
    ghost var was := Slots(tab);
    StorableAll(was);
    KeyOnlyLaws(was[0]);
    KeyOnlyLaws(was[1]);
    KeyOnlyLaws(was[2]);
    NullKeyOnly(tab);
    ValuePlace(tab, 0);
    ValuePlace(tab, 1);
    ValuePlace(tab, 2);
  }

  lemma NullKeyOnly(tab: seq<RsrcNode?>)
    requires |tab| == 3 && AllStorable(Slots(tab))
    ensures forall j :: 0 <= j < 3 && tab[j] == null ==>
              PlaceStorable(Slots(tab)[j]) && KeyOnly(Slots(tab)[j]) == Slots(tab)[j]
  {
    hide SessionStorable;
  }

  /** The places as the authorizations are made from them. */
  function KeysOf(slots: seq<Slot>): (keys: seq<Slot>)
    requires |slots| == 3 && AllStorable(slots)
    ensures |keys| == 3
  {
    assert PlaceStorable(slots[0]) && PlaceStorable(slots[1]) && PlaceStorable(slots[2]);
    [KeyOnly(slots[0]), KeyOnly(slots[1]), KeyOnly(slots[2])]
  }

  /** How the command ends on its way to the list. */
  function CommandRc(c: Crypto, t: Table, hs: seq<nat>, allowed: bool, size: nat): Rc
    requires |hs| == 3 && AllUsable(t, hs)
  {
    if !Dense(hs) then EsysBadValue
    else if InitRc(t, hs) != Success then InitRc(t, hs)
    else GenRc(c, KeysOf(PlacesOf(t, hs)), allowed, size)
  }

  /** What the table and the context are like between init_session_tab and iesys_gen_auths. */
  lemma TableReady(ctx: EsysContext, t: Table, hs: seq<nat>)
    requires |hs| == 3 && Inv(t) && AllUsable(t, hs) && ctx.Valid() && ctx.Contents() == InitTable(t, hs)
    requires |ctx.sessionTab| == 3 && ctx.sessionType == hs
    requires forall i :: 0 <= i < 3 ==> SlotFilled(ctx.sessionTab[i], hs[i], ctx.nodes)
    ensures TableFilled(ctx) && Sessions(ctx.sessionTab) && Slots(ctx.sessionTab) == PlacesOf(t, hs)
    ensures Matches(hs, ctx.sessionTab)
  {
    hide Linked, Views, Inv, InitTable, SlotOf, PlaceOf, SessionNode, AllStorable;
    InitTableInv(t, hs);
    assert Usable(ctx.Contents(), hs[0]) && Usable(ctx.Contents(), hs[1]) && Usable(ctx.Contents(), hs[2]);
    PlaceIs(ctx, ctx.sessionTab[0], hs[0]);
    PlaceIs(ctx, ctx.sessionTab[1], hs[1]);
    PlaceIs(ctx, ctx.sessionTab[2], hs[2]);
  }

  lemma KeysReady(slots: seq<Slot>, keys: seq<Slot>)
    requires |slots| == |keys| == 3 && AllStorable(slots)
    requires forall j :: 0 <= j < 3 ==> PlaceStorable(slots[j]) && keys[j] == KeyOnly(slots[j])
    ensures keys == KeysOf(slots) && AllReady(keys)
  {
    hide KeyOnly, PlaceStorable, SlotReady;
    KeyOnlyLaws(slots[0]);
    KeyOnlyLaws(slots[1]);
    KeyOnlyLaws(slots[2]);
  }

  lemma RandomStill(slots: seq<Slot>, keys: seq<Slot>, random: seq<seq<byte>>)
    requires |slots| == |keys| == |random| == 3 && RandomFits(slots, random)
    requires forall j :: 0 <= j < 3 ==> PlaceStorable(slots[j]) && keys[j] == KeyOnly(slots[j])
    ensures RandomFits(keys, random)
  {
    hide KeyOnly, PlaceStorable, DigestSize;
    KeyOnlyLaws(slots[0]);
    KeyOnlyLaws(slots[1]);
    KeyOnlyLaws(slots[2]);
  }

  /** The nodes of the table are in the list. */
  lemma NodesListed(ctx: EsysContext)
    requires TableFilled(ctx)
    ensures |ctx.sessionTab| == 3 && forall n :: n in LiveNodes(ctx.sessionTab) ==> n in ctx.nodes
    ensures ObjectsOrBare(ctx.sessionTab)
  {
    hide Linked, Inv, Views;
    var tab := ctx.sessionTab;
    assert SlotFilled(tab[0], ctx.sessionType[0], ctx.nodes) && SlotFilled(tab[1], ctx.sessionType[1], ctx.nodes)
           && SlotFilled(tab[2], ctx.sessionType[2], ctx.nodes);
    forall n: RsrcNode | n in tab ensures n.esysHandle >= TR_MIN_OBJECT || n.rsrc.misc.NoMisc? {
      var k := NodeEntry(ctx, n);
      EntryAt(ctx.Contents(), k);
    }
  }

  /** Those of global handles have no metadata. */
  ghost predicate ObjectsOrBare(tab: seq<RsrcNode?>)
    reads tab
  {
    forall n: RsrcNode :: n in tab ==> n.esysHandle >= TR_MIN_OBJECT || n.rsrc.misc.NoMisc?
  }

  lemma BareIs(tab: seq<RsrcNode?>)
    ensures ObjectsOrBare(tab) <==>
              forall n: RsrcNode :: n in tab ==> n.esysHandle >= TR_MIN_OBJECT || n.rsrc.misc.NoMisc?
    ensures forall n: RsrcNode :: n in LiveNodes(tab) <==> n in tab
  {
  }

  /** What a filled table says of the nodes, but for their metadata. */
  ghost predicate Shaped(ctx: EsysContext)
    reads ctx`nodes, ctx`rsrcList, ctx`handleCnt, ctx`sessionType, ctx`sessionTab
    reads ctx.nodes`next, ctx.sessionTab`esysHandle
  {
    var ns, tab, kinds := ctx.nodes, ctx.sessionTab, ctx.sessionType;
    && |tab| == |kinds| == 3 && ctx.handleCnt < U32
    && ctx.rsrcList == At(ns, 0) && (forall j :: 0 <= j < |ns| ==> ns[j].next == At(ns, j + 1))
    && (forall i, j :: 0 <= i < j < |ns| ==> ns[i] != ns[j])
    && (forall i :: 0 <= i < 3 ==>
          if IsSession(kinds[i]) then tab[i] != null && tab[i] in ns && tab[i].esysHandle == kinds[i]
          else tab[i] == null)
  }

  /** The list still has the handles and authorization values of `t`. */
  ghost predicate Listed(ctx: EsysContext, t: Table)
    reads ctx`nodes, ctx`handleCnt, ctx.nodes`esysHandle, ctx.nodes`auth
  {
    && ctx.handleCnt == t.cnt && |t.entries| == |ctx.nodes|
    && forall j :: 0 <= j < |ctx.nodes| ==>
         ctx.nodes[j].esysHandle == t.entries[j].handle && ctx.nodes[j].auth == t.entries[j].auth
  }

  /** The metadata is that of `t` but in the sessions of the command. */
  ghost predicate OthersKept(ctx: EsysContext, t: Table)
    reads ctx`nodes, ctx`sessionTab, ctx.nodes`rsrc
  {
    && |t.entries| == |ctx.nodes|
    && forall j :: 0 <= j < |ctx.nodes| && ctx.nodes[j] !in ctx.sessionTab ==> ctx.nodes[j].rsrc == t.entries[j].rsrc
  }

  lemma OthersKeptIs(ctx: EsysContext, t: Table)
    ensures OthersKept(ctx, t) <==>
              && |t.entries| == |ctx.nodes|
              && forall j :: 0 <= j < |ctx.nodes| && ctx.nodes[j] !in ctx.sessionTab ==>
                   ctx.nodes[j].rsrc == t.entries[j].rsrc
    ensures forall n: RsrcNode :: n in LiveNodes(ctx.sessionTab) <==> n in ctx.sessionTab
  {
  }

  lemma FilledParts(ctx: EsysContext)
    requires TableFilled(ctx)
    ensures Shaped(ctx) && Inv(ctx.Contents()) && Listed(ctx, ctx.Contents()) && OthersKept(ctx, ctx.Contents())
  {
    hide Inv;
    forall i | 0 <= i < 3 ensures SlotFilled(ctx.sessionTab[i], ctx.sessionType[i], ctx.nodes) { }
    forall j | 0 <= j < |ctx.nodes| ensures ctx.nodes[j].next == At(ctx.nodes, j + 1) {
      LinkNext(ctx.rsrcList, ctx.nodes, j);
    }
  }

  /** Other metadata in the nodes of objects leaves a table filled. */
  lemma FilledAgain(ctx: EsysContext, t: Table)
    requires Shaped(ctx) && Inv(t) && Listed(ctx, t) && OthersKept(ctx, t)
    requires forall n: RsrcNode :: n in ctx.sessionTab ==> n.esysHandle >= TR_MIN_OBJECT
    ensures TableFilled(ctx)
  {
    hide TpmHandle;
    var ns := ctx.nodes;
    forall j | 0 <= j < |ns| ensures LinksOn(ns, j) { }
    LinkedFrom(ctx.rsrcList, ns);
    var es := ctx.Contents().entries;
    forall j | 0 <= j < |es| ensures EntryInv(es[j], t.cnt) { assert EntryInv(t.entries[j], t.cnt); }
    hide Linked, LinksOn;
    forall i | 0 <= i < 3 ensures SlotFilled(ctx.sessionTab[i], ctx.sessionType[i], ctx.nodes) { }
  }

  lemma GlobalsRefused(c: Crypto, tab: seq<RsrcNode?>, allowed: bool, size: nat)
    requires |tab| == 3
    ensures GenRc(c, Slots(tab), allowed, size) == Success ==>
              forall n: RsrcNode :: n in tab ==> !n.rsrc.misc.NoMisc?
  {
    hide GenRc;
    forall i | 0 <= i < 3 && tab[i] != null && tab[i].rsrc.misc.NoMisc?
      ensures GenRc(c, Slots(tab), allowed, size) == EsysBadValue
    {
      GlobalRefused(c, tab, i, allowed, size);
    }
  }

  lemma GenParts(c: Crypto, slots: seq<Slot>, after: seq<Slot>, allowed: bool, size: nat)
    requires |slots| == |after| == 3 && GenRc(c, slots, allowed, size) == Success
    requires forall i :: 0 <= i < 3 ==> Renonced(slots[i], after[i])
    ensures AllStartable(c, after, 3) && AllKeyed(after, 3)
  {
    GenRcIs(c, slots, allowed, size);
    RenoncedPass(c, slots, after, allowed, size);
    hide GenRc, AllStartable, AllKeyed, PassRc, AllSized;
  }

  /** The session values and the authorizations of a command whose table is filled. */
  method KeysAndAuths(c: Crypto, sys: SysContext, ctx: EsysContext, random: seq<seq<byte>>, auths: array<AuthCommand>)
    returns (rc: Rc)
    requires TableFilled(ctx) && |ctx.sessionTab| == |ctx.sessionType| == 3
    requires Sessions(ctx.sessionTab) && AllStorable(Slots(ctx.sessionTab))
    requires Dense(ctx.sessionType) && Matches(ctx.sessionType, ctx.sessionTab)
    requires sys.CommandReady() && |random| == auths.Length == 3 && RandomFits(Slots(ctx.sessionTab), random)
    modifies LiveNodes(ctx.sessionTab)`rsrc, ctx`encryptNonceIdx, ctx`encryptNonce, ctx`authsCount, sys.cp, auths
    ensures rc == GenRc(c, KeysOf(old(Slots(ctx.sessionTab))), sys.decryptAllowed,
                        ParamSize(sys.decryptAllowed, old(sys.cp[..])))
    ensures rc == Success ==> AuthsMade(c, sys, ctx, KeysOf(old(Slots(ctx.sessionTab))), auths)
  {
    hide *;
    ghost var slots, t := Slots(ctx.sessionTab), ctx.Contents();
    NodesListed(ctx);
    FilledParts(ctx);
    StorableAll(slots);
    ValueTable(ctx, t);
    KeysReady(slots, Slots(ctx.sessionTab));
    RandomStill(slots, Slots(ctx.sessionTab), random);
    CommandArea(sys);
    rc := AuthsOn(c, sys, ctx, t, random, auths);
  }

  /** The session values, in a table that keeps its shape. */
  method ValueTable(ctx: EsysContext, ghost t: Table)
    requires Shaped(ctx) && Listed(ctx, t) && OthersKept(ctx, t) && |ctx.sessionTab| == 3
    requires ObjectsOrBare(ctx.sessionTab)
    requires Sessions(ctx.sessionTab) && AllStorable(Slots(ctx.sessionTab))
    modifies LiveNodes(ctx.sessionTab)`rsrc
    ensures Shaped(ctx) && Listed(ctx, t) && OthersKept(ctx, t)
    ensures ObjectsOrBare(ctx.sessionTab) && Sessions(ctx.sessionTab)
    ensures forall j :: 0 <= j < 3 ==> Slots(ctx.sessionTab)[j] == KeyOnly(old(Slots(ctx.sessionTab))[j])
  {
    hide *;
    OthersKeptIs(ctx, t);
    BareIs(ctx.sessionTab);
    ValuePlaces(ctx.sessionTab);
    OthersKeptIs(ctx, t);
    BareIs(ctx.sessionTab);
  }

  /** The authorizations, in such a table; when they succeed it is filled as before. */
  method AuthsOn(c: Crypto, sys: SysContext, ctx: EsysContext, ghost t: Table, random: seq<seq<byte>>,
                 auths: array<AuthCommand>)
    returns (rc: Rc)
    requires Shaped(ctx) && Inv(t) && Listed(ctx, t) && OthersKept(ctx, t)
    requires |ctx.sessionTab| == |ctx.sessionType| == 3
    requires ObjectsOrBare(ctx.sessionTab) && Sessions(ctx.sessionTab) && AllReady(Slots(ctx.sessionTab))
    requires Dense(ctx.sessionType) && Matches(ctx.sessionType, ctx.sessionTab)
    requires sys.CommandReady() && |random| == auths.Length == 3 && RandomFits(Slots(ctx.sessionTab), random)
    modifies LiveNodes(ctx.sessionTab)`rsrc, ctx`encryptNonceIdx, ctx`encryptNonce, ctx`authsCount, sys.cp, auths
    ensures rc == GenRc(c, old(Slots(ctx.sessionTab)), sys.decryptAllowed,
                        ParamSize(sys.decryptAllowed, old(sys.cp[..])))
    ensures rc == Success ==> AuthsMade(c, sys, ctx, old(Slots(ctx.sessionTab)), auths)
  {
    hide *;
    var tab := ctx.sessionTab;
    CommandArea(sys);
    ghost var keys, allowed, size := Slots(tab), sys.decryptAllowed, ParamSize(sys.decryptAllowed, sys.cp[..]);
    OthersKeptIs(ctx, t);
    BareIs(tab);
    GlobalsRefused(c, tab, allowed, size);
    var count;
    rc, count := GenAuths(c, sys, ctx, [null, null, null], random, auths);
    if rc != Success {
      return;
    }
    ctx.authsCount := count;
    OthersKeptIs(ctx, t);
    FilledAgain(ctx, t);
    FlagValues();
    GenParts(c, keys, Slots(tab), allowed, size);
    MadeFrom(c, sys, ctx, keys, auths);
  }

  /** What iesys_gen_auths promises, in the terms of a command without objects. */
  lemma MadeFrom(c: Crypto, sys: SysContext, ctx: EsysContext, keys: seq<Slot>, auths: array<AuthCommand>)
    requires |keys| == auths.Length == 3 && TableFilled(ctx) && ctx.authsCount <= 3 && sys.CommandReady()
    requires |ctx.sessionTab| == |ctx.sessionType| == 3 && Sessions(ctx.sessionTab)
    requires ATTR_DECRYPT > 0 && ATTR_ENCRYPT > 0
    requires var slots := Slots(ctx.sessionTab);
             && AllReady(slots) && AllStartable(c, slots, 3) && AllKeyed(slots, 3)
             && (forall i :: 0 <= i < 3 ==> SlotReady(slots[i]) && Renonced(keys[i], slots[i]))
             && var k, e := FirstFlagged(slots, ATTR_DECRYPT), FirstFlagged(slots, ATTR_ENCRYPT);
             && sys.cpLen <= sys.cp.Length
             && auths[..ctx.authsCount] ==
                AuthList(c, ctx.sessionType, slots, AuthsOf([null, null, null]), CpInput(sys, [null, null, null]),
                         OtherNonce(slots, k), OtherNonce(slots, e), 3)
             && ctx.encryptNonceIdx == (if e < 3 then e else 0)
             && ctx.encryptNonce == (if e < 3 then ctx.sessionTab[e] else null)
    ensures AuthsMade(c, sys, ctx, keys, auths)
  {
    hide *;
    NoTargets(sys);
    EsysListIs(c, ctx.sessionType, Slots(ctx.sessionTab), sys.cc + sys.cp[..sys.cpLen]);
    AuthsMadeIs(c, sys, ctx, keys, auths);
  }

  /** What a successful command leaves: the authorizations, and a context as the check of its
      answer asks for it (see EsysExchange.CheckAnswer). */
  ghost predicate AuthsMade(c: Crypto, sys: SysContext, ctx: EsysContext, keys: seq<Slot>, auths: array<AuthCommand>)
    requires |keys| == auths.Length == 3
    reads ctx, ctx.nodes, ctx.sessionTab, sys, sys.cp, auths
  {
    && TableFilled(ctx) && |ctx.sessionTab| == 3 && Sessions(ctx.sessionTab)
    && sys.cpLen <= sys.cp.Length && ctx.authsCount <= 3
    && var slots := Slots(ctx.sessionTab);
    && AllReady(slots) && AllStartable(c, slots, 3) && AllKeyed(slots, 3)
    && (ctx.encryptNonce != null ==>
          ctx.encryptNonceIdx < 3 && ctx.sessionTab[ctx.encryptNonceIdx] == ctx.encryptNonce)
    && (forall i :: 0 <= i < 3 ==> Renonced(keys[i], slots[i]))
    && auths[..ctx.authsCount] == EsysList(c, ctx.sessionType, slots, [None, None, None],
                                           sys.cc + sys.cp[..sys.cpLen])
    && (!TwoRoles(slots) ==>
          auths[..ctx.authsCount] == TpmList(c, ctx.sessionType, slots, [None, None, None],
                                             sys.cc + sys.cp[..sys.cpLen]))
  }

  lemma AuthsMadeIs(c: Crypto, sys: SysContext, ctx: EsysContext, keys: seq<Slot>, auths: array<AuthCommand>)
    requires |keys| == auths.Length == 3
    requires TableFilled(ctx) && |ctx.sessionTab| == |ctx.sessionType| == 3 && Sessions(ctx.sessionTab)
    requires sys.cpLen <= sys.cp.Length && ctx.authsCount <= 3
    requires var slots := Slots(ctx.sessionTab);
             && AllReady(slots) && AllStartable(c, slots, 3) && AllKeyed(slots, 3)
             && (forall i :: 0 <= i < 3 ==> SlotReady(slots[i]) && Renonced(keys[i], slots[i]))
             && auths[..ctx.authsCount] == EsysList(c, ctx.sessionType, slots, [None, None, None],
                                                    sys.cc + sys.cp[..sys.cpLen])
    requires ctx.encryptNonce != null ==>
               ctx.encryptNonceIdx < 3 && ctx.sessionTab[ctx.encryptNonceIdx] == ctx.encryptNonce
    ensures AuthsMade(c, sys, ctx, keys, auths)
  {
    if !TwoRoles(Slots(ctx.sessionTab)) {
      CommandAccepted(c, ctx.sessionType, Slots(ctx.sessionTab), [None, None, None], sys.cc + sys.cp[..sys.cpLen]);
    }
    hide TableFilled, Slots, Sessions, AllReady, AllStartable, AllKeyed, SlotReady, Renonced, EsysList, TpmList,
         TwoRoles;
  }

  /** A command that authorizes no object (Esys_GetRandom_Async), from its three handles to the
      list of its authorizations. */
  method GetRandomAuths(c: Crypto, sys: SysContext, ctx: EsysContext, h1: nat, h2: nat, h3: nat,
                        random: seq<seq<byte>>, auths: array<AuthCommand>)
    returns (rc: Rc)
    requires ctx.Valid() && Inv(ctx.Contents()) && AllUsable(ctx.Contents(), [h1, h2, h3])
    requires sys.CommandReady() && |random| == auths.Length == 3
    requires RandomFits(PlacesOf(ctx.Contents(), [h1, h2, h3]), random)
    modifies ctx, ctx.nodes`rsrc, sys.cp, auths
    ensures rc == CommandRc(c, old(ctx.Contents()), [h1, h2, h3], sys.decryptAllowed,
                            ParamSize(sys.decryptAllowed, old(sys.cp[..])))
    ensures rc == Success ==>
              && ctx.sessionType == [h1, h2, h3]
              && AuthsMade(c, sys, ctx, KeysOf(PlacesOf(old(ctx.Contents()), [h1, h2, h3])), auths)
  {
    hide *;
    ghost var t, hs := ctx.Contents(), [h1, h2, h3];
    CommandArea(sys);
    CommandRcIs(c, t, hs, sys.decryptAllowed, ParamSize(sys.decryptAllowed, sys.cp[..]));
    FewUsed(hs);
    rc := CheckSessionFeasibility(h1, h2, h3, 0);
    if rc != Success {
      return;
    }
    rc := InitSessionTab(ctx, h1, h2, h3);
    if rc != Success {
      return;
    }
    TableReady(ctx, t, hs);
    NodesListed(ctx);
    rc := KeysAndAuths(c, sys, ctx, random, auths);
  }

  lemma CommandRcIs(c: Crypto, t: Table, hs: seq<nat>, allowed: bool, size: nat)
    requires |hs| == 3 && AllUsable(t, hs)
    ensures CommandRc(c, t, hs, allowed, size) ==
            if !Dense(hs) then EsysBadValue else if InitRc(t, hs) != Success then InitRc(t, hs)
            else GenRc(c, KeysOf(PlacesOf(t, hs)), allowed, size)
    ensures AllStorable(PlacesOf(t, hs))
  {
    hide Dense, InitRc, KeysOf, GenRc, PlacesOf, AllStorable;
  }

  lemma FewUsed(hs: seq<nat>)
    requires |hs| == 3
    ensures 0 <= Used(hs) <= 3 && INT_MIN < -3 && INT_MAX > 0
  {
    UsedAtMost(hs);
    hide Used;
  }

  lemma NoTargets(sys: SysContext)
    requires sys.CommandReady()
    ensures AuthsOf([null, null, null]) == [None, None, None]
    ensures sys.cpLen <= sys.cp.Length
    ensures CpInput(sys, [null, null, null]) == sys.cc + sys.cp[..sys.cpLen]
  {
    CpInputIs(sys, [null, null, null]);
    assert sys.cc + [] + [] + [] == sys.cc;
    hide CpInput;
  }

  lemma EsysListIs(c: Crypto, kinds: seq<nat>, slots: seq<Slot>, cpInput: seq<byte>)
    requires |kinds| == |slots| == 3 && forall i :: 0 <= i < 3 ==> SlotReady(slots[i])
    ensures ATTR_DECRYPT > 0 && ATTR_ENCRYPT > 0
    ensures EsysList(c, kinds, slots, [None, None, None], cpInput) ==
            AuthList(c, kinds, slots, [None, None, None], cpInput,
                     OtherNonce(slots, FirstFlagged(slots, ATTR_DECRYPT)),
                     OtherNonce(slots, FirstFlagged(slots, ATTR_ENCRYPT)), 3)
  {
    hide AuthList, OtherNonce, FirstFlagged, SlotReady;
  }
}
