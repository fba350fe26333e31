/**
 Which sessions a command may use, the table of its three sessions, and the key material of
 one session: bound entity and session value.
 */
module EsysSession {
  import opened TpmBase
  import opened EsysMu
  import opened EsysTable
  import opened EsysTr
  import opened EsysCrypto

  const INT_MIN: int := -0x8000_0000
  const INT_MAX: int := 0x7FFF_FFFF
  const SE_HMAC: nat := 0
  const SE_POLICY: nat := 1
  const POLICY_AUTH: nat := 1
  const POLICY_PASSWORD: nat := 2
  const ATTR_DECRYPT: nat := 0x20
  const ATTR_ENCRYPT: nat := 0x40

  // ---------------------------------------------------------------- which handles

  /** A handle that stands for a session object. */
  predicate IsSession(h: nat) { h != TR_NONE && h != TR_PASSWORD }

  function Used(hs: seq<nat>): nat {
    if hs == [] then 0 else (if hs[0] != TR_NONE then 1 else 0) + Used(hs[1..])
  }

  /** No gap in front of a session; a gap in front of a password is let through. */
  predicate Dense(hs: seq<nat>) {
    forall i, j :: 0 <= i < j < |hs| && hs[i] == TR_NONE ==> !IsSession(hs[j])
  }

  /** check_session_feasibility: accepted are exactly the dense triples with as many handles
      as the command demands, as long as counting them off stays above INT_MIN. */
  method CheckSessionFeasibility(h1: nat, h2: nat, h3: nat, mandatory: int) returns (rc: Rc)
    requires INT_MIN <= mandatory <= INT_MAX
    ensures var hs := [h1, h2, h3];
            rc == if Dense(hs) && mandatory <= Used(hs) && INT_MIN <= mandatory - Used(hs) then Success
                  else EsysBadValue
  {
    var tab := [h1, h2, h3];
    var checkNone, left, i := false, mandatory, 3;
    assert tab[3..] == [] && tab[0..] == tab;
    while i > 0
      invariant 0 <= i <= 3 && left == mandatory - Used(tab[i..]) >= INT_MIN
      invariant checkNone <==> exists j :: i <= j < 3 && IsSession(tab[j])
      invariant forall j, k :: i <= j < k < 3 && tab[j] == TR_NONE ==> !IsSession(tab[k])
    {
      i := i - 1;
      assert tab[i..][0] == tab[i] && tab[i..][1..] == tab[i + 1..];
      if tab[i] != TR_NONE {
        if left == INT_MIN {
          UsedMore(tab, i);
          return EsysBadValue;
        }
        left := left - 1;
      }
      if tab[i] != TR_NONE && tab[i] != TR_PASSWORD {
        checkNone := true;
      } else if checkNone {
        if tab[i] == TR_NONE {
          return EsysBadValue;
        }
      }
    }
    if left > 0 {
      return EsysBadValue;
    }
    return Success;
  }

  /** Three handles, written out: no session behind a gap, and how many are used. */
  lemma FeasibleIs(h1: nat, h2: nat, h3: nat)
    ensures Dense([h1, h2, h3]) <==> (h1 == 0xfff ==> h2 in {0xff, 0xfff} && h3 in {0xff, 0xfff})
                                     && (h2 == 0xfff ==> h3 in {0xff, 0xfff})
    ensures Used([h1, h2, h3]) ==
            (if h1 != 0xfff then 1 else 0) + (if h2 != 0xfff then 1 else 0) + (if h3 != 0xfff then 1 else 0)
  {
    var hs := [h1, h2, h3];
    assert hs[1..] == [h2, h3] && [h2, h3][1..] == [h3] && [h3][1..] == [];
    assert hs[0] == h1 && hs[1] == h2 && hs[2] == h3;
    assert Used([h3]) == if h3 != 0xfff then 1 else 0;
  }

  lemma {:induction false} UsedMore(hs: seq<nat>, i: nat)
    requires i <= |hs|
    ensures Used(hs[i..]) <= Used(hs)
    decreases i
  {
    if i == 0 {
      assert hs[0..] == hs;
    } else {
      assert hs[1..][i - 1..] == hs[i..];
      UsedMore(hs[1..], i - 1);
    }
  }

  // ---------------------------------------------------------------- the session table

  /** One place of the session table, by value. */
  datatype Slot = Empty | Live(handle: nat, session: Session)

  /** What the resource union reads as when it is taken for that of a session: in the node of
      a global handle nothing was ever written to it. */
  function SessionIn(m: Misc): Session { if m.SessionRsrc? then m.session else EMPTY_SESSION }

  predicate ReadsAsSession(m: Misc) { m.SessionRsrc? || m.NoMisc? }

  /** Such a node has no hash algorithm that is known. */
  lemma SizedIsSession(m: Misc)
    requires ReadsAsSession(m) && DigestSize(SessionIn(m).authHash).Some?
    ensures m.SessionRsrc?
  {
  }

  ghost predicate SessionNode(n: RsrcNode?)
    reads n
  {
    n == null || ReadsAsSession(n.rsrc.misc)
  }

  /** The nodes in the table are sessions, or those of global handles. */
  ghost predicate Sessions(tab: seq<RsrcNode?>)
    requires |tab| == 3
    reads tab[0], tab[1], tab[2]
  {
    SessionNode(tab[0]) && SessionNode(tab[1]) && SessionNode(tab[2])
  }

  ghost function LiveNodes(tab: seq<RsrcNode?>): set<RsrcNode> {
    set n: RsrcNode | n in tab
  }

  ghost function SlotOf(n: RsrcNode?): Slot
    reads n
  {
    if n != null && ReadsAsSession(n.rsrc.misc) then Live(n.rsrc.handle, SessionIn(n.rsrc.misc)) else Empty
  }

  ghost function Slots(tab: seq<RsrcNode?>): (slots: seq<Slot>)
    requires |tab| == 3
    reads tab[0], tab[1], tab[2]
    ensures |slots| == 3
  {
    [SlotOf(tab[0]), SlotOf(tab[1]), SlotOf(tab[2])]
  }

  /** The places of a table, read off its nodes one by one. */
  lemma Places(tab: seq<RsrcNode?>)
    requires |tab| == 3
    ensures Slots(tab)[0] == SlotOf(tab[0]) && Slots(tab)[1] == SlotOf(tab[1]) && Slots(tab)[2] == SlotOf(tab[2])
    ensures Sessions(tab) <==> SessionNode(tab[0]) && SessionNode(tab[1]) && SessionNode(tab[2])
  {
  }

  lemma NodeIsSession(node: RsrcNode)
    ensures SessionNode(node) <==> ReadsAsSession(node.rsrc.misc)
    ensures node.rsrc.misc.SessionRsrc? ==>
              && SessionNode(node) && SessionIn(node.rsrc.misc) == node.rsrc.misc.session
              && SlotOf(node) == Live(node.rsrc.handle, node.rsrc.misc.session)
  {
  }

  lemma InLiveNodes(tab: seq<RsrcNode?>, i: nat)
    requires i < |tab| && tab[i] != null
    ensures tab[i] in LiveNodes(tab)
  {
  }

  /** The lookups of the first `n` handles, in order, as far as they succeed. */
  function InitRc(t: Table, hs: seq<nat>): Rc
    decreases |hs|
  {
    if hs == [] then Success
    else if !IsSession(hs[0]) then InitRc(t, hs[1..])
    else if LookupRc(t, hs[0]) != Success then LookupRc(t, hs[0])
    else InitRc(AfterLookup(t, hs[0]), hs[1..])
  }

  function InitTable(t: Table, hs: seq<nat>): Table
    decreases |hs|
  {
    if hs == [] then t
    else if !IsSession(hs[0]) then InitTable(t, hs[1..])
    else if LookupRc(t, hs[0]) != Success then t
    else InitTable(AfterLookup(t, hs[0]), hs[1..])
  }

  /** One place of the table. */
  method InitSlot(ctx: EsysContext, i: nat, h: nat) returns (rc: Rc)
    requires ctx.Valid() && i < 3
    modifies ctx`rsrcList, ctx`nodes, ctx`sessionType, ctx`sessionTab
    ensures ctx.Valid() && ctx.sessionType == old(ctx.sessionType)[i := h]
    ensures forall n :: n in old(ctx.nodes) ==> n in ctx.nodes
    ensures forall n :: n in ctx.nodes ==> n in old(ctx.nodes) || fresh(n)
    ensures |ctx.sessionTab| == 3 && forall k :: 0 <= k < 3 && k != i ==> ctx.sessionTab[k] == old(ctx.sessionTab)[k]
    ensures !IsSession(h) ==> rc == Success && ctx.Contents() == old(ctx.Contents()) && ctx.sessionTab[i] == null
    ensures IsSession(h) ==>
              rc == LookupRc(old(ctx.Contents()), h) && ctx.Contents() == AfterLookup(old(ctx.Contents()), h)
    ensures IsSession(h) && rc == Success ==>
              var n := ctx.sessionTab[i]; n != null && n in ctx.nodes && n.esysHandle == h
  {
    hide Linked, Views, LookupRc, AfterLookup, IndexOf;
    ctx.sessionType := ctx.sessionType[i := h];
    if h == TR_NONE || h == TR_PASSWORD {
      ctx.sessionTab := ctx.sessionTab[i := null];
      return Success;
    }
    var node;
    rc, node := ctx.GetResourceObject(h);
    FrontOrOld(ctx.nodes, old(ctx.nodes));
    if rc == Success {
      assert Views(ctx.nodes)[IndexOf(ctx.Contents().entries, h)].handle == h;
      ctx.sessionTab := ctx.sessionTab[i := node];
    }
  }

  lemma FrontOrOld(ns: seq<RsrcNode>, was: seq<RsrcNode>)
    requires ns == was || (ns != [] && ns[1..] == was)
    ensures forall n :: n in was ==> n in ns
    ensures forall n :: n in ns ==> n in was || n == ns[0]
  {
    if ns != was {
      forall n | n in ns ensures n == ns[0] || n in was { }
    }
  }

  lemma InitStep(t: Table, hs: seq<nat>, i: nat)
    requires i < |hs|
    ensures var h := hs[i];
            if !IsSession(h) then
              InitRc(t, hs[i..]) == InitRc(t, hs[i + 1..]) && InitTable(t, hs[i..]) == InitTable(t, hs[i + 1..])
            else if LookupRc(t, h) != Success then InitRc(t, hs[i..]) == LookupRc(t, h) && InitTable(t, hs[i..]) == t
            else InitRc(t, hs[i..]) == InitRc(AfterLookup(t, h), hs[i + 1..])
                 && InitTable(t, hs[i..]) == InitTable(AfterLookup(t, h), hs[i + 1..])
  {
    hide LookupRc, AfterLookup;
    assert hs[i..][0] == hs[i] && hs[i..][1..] == hs[i + 1..];
  }

  lemma InitEnds(t: Table, hs: seq<nat>)
    ensures hs[0..] == hs && hs[|hs|..] == [] && InitRc(t, []) == Success && InitTable(t, []) == t
  {
  }

  /** Filling the table keeps the invariant of the list. */
  lemma {:induction false} InitTableInv(t: Table, hs: seq<nat>)
    requires Inv(t)
    ensures Inv(InitTable(t, hs)) && InitTable(t, hs).cnt == t.cnt
    decreases |hs|
  {
    hide Inv, LookupRc, AfterLookup;
    if hs != [] {
      LookupInv(t, hs[0]);
      InitTableInv(t, hs[1..]);
      InitTableInv(AfterLookup(t, hs[0]), hs[1..]);
    }
  }

  lemma LookupFailureKeeps(t: Table, h: nat)
    ensures LookupRc(t, h) != Success ==> AfterLookup(t, h) == t
  {
  }

  /** The place holds the node of its handle, or none where the handle stands for no session. */
  ghost predicate SlotFilled(n: RsrcNode?, h: nat, nodes: seq<RsrcNode>)
    reads n
  {
    if IsSession(h) then n != null && n in nodes && n.esysHandle == h else n == null
  }

  /** init_session_tab: real handles get their node, the others none; it stops at the first
      handle nobody knows. */
  method InitSessionTab(ctx: EsysContext, h1: nat, h2: nat, h3: nat) returns (rc: Rc)
    requires ctx.Valid()
    modifies ctx`rsrcList, ctx`nodes, ctx`sessionType, ctx`sessionTab
    ensures ctx.Valid()
    ensures rc == InitRc(old(ctx.Contents()), [h1, h2, h3])
    ensures ctx.Contents() == InitTable(old(ctx.Contents()), [h1, h2, h3])
    ensures forall n :: n in ctx.nodes ==> n in old(ctx.nodes) || fresh(n)
    ensures rc == Success ==>
              && ctx.sessionType == [h1, h2, h3] && |ctx.sessionTab| == 3
              && forall i :: 0 <= i < 3 ==> SlotFilled(ctx.sessionTab[i], [h1, h2, h3][i], ctx.nodes)
  {
    hide InitRc, InitTable, LookupRc, AfterLookup, IsSession, Linked, Views;
    var tab, i := [h1, h2, h3], 0;
    ghost var start := ctx.Contents();
    InitEnds(start, tab);
    while i < 3
      invariant 0 <= i <= 3 && ctx.Valid() && ctx.sessionType[..i] == tab[..i]
      invariant InitRc(start, tab) == InitRc(ctx.Contents(), tab[i..])
      invariant InitTable(start, tab) == InitTable(ctx.Contents(), tab[i..])
      invariant forall n :: n in ctx.nodes ==> n in old(ctx.nodes) || fresh(n)
      invariant forall k :: 0 <= k < i ==> SlotFilled(ctx.sessionTab[k], tab[k], ctx.nodes)
      decreases 3 - i
    {
      InitStep(ctx.Contents(), tab, i);
      LookupFailureKeeps(ctx.Contents(), tab[i]);
      rc := InitSlot(ctx, i, tab[i]);
      if rc != Success {
        return rc;
      }
      i := i + 1;
    }
    InitEnds(ctx.Contents(), tab);
    return Success;
  }

  // ---------------------------------------------------------------- attributes

  predicate HasFlag(attributes: nat, flag: nat)
    requires flag > 0
  {
    attributes / flag % 2 == 1
  }

  predicate Flagged(slot: Slot, flag: nat)
    requires flag > 0
  {
    slot.Live? && HasFlag(slot.session.attributes, flag)
  }

  /** A node in the table and its place say the same. */
  lemma SlotLive(tab: seq<RsrcNode?>, i: nat)
    requires |tab| == 3 && i < 3 && Sessions(tab)
    ensures var n, slot := tab[i], Slots(tab)[i];
            if n == null then slot == Empty
            else ReadsAsSession(n.rsrc.misc) && slot == Live(n.rsrc.handle, SessionIn(n.rsrc.misc))
    ensures forall flag | flag > 0 :: Flagged(Slots(tab)[i], flag) <==>
              tab[i] != null && HasFlag(SessionIn(tab[i].rsrc.misc).attributes, flag)
  {
    hide HasFlag;
  }

  predicate AtMostOne(slots: seq<Slot>, flag: nat)
    requires flag > 0
  {
    forall i, j :: 0 <= i < j < |slots| ==> !(Flagged(slots[i], flag) && Flagged(slots[j], flag))
  }

  /** The first slot with the flag, or the number of slots. */
  function FirstFlagged(slots: seq<Slot>, flag: nat): (i: nat)
    requires flag > 0
    ensures i <= |slots| && (i < |slots| ==> Flagged(slots[i], flag))
    ensures forall j :: 0 <= j < i ==> !Flagged(slots[j], flag)
  {
    if slots == [] then 0 else if Flagged(slots[0], flag) then 0 else 1 + FirstFlagged(slots[1..], flag)
  }

  /** What the searches know after the first `n` places: the node seen with the flag, or none. */
  ghost predicate Found(tab: seq<RsrcNode?>, slots: seq<Slot>, flag: nat, n: nat, idx: nat, node: RsrcNode?)
    requires |tab| == |slots| == 3 && n <= 3 && flag > 0
  {
    if node == null then idx == 0 && forall j :: 0 <= j < n ==> !Flagged(slots[j], flag)
    else idx < n && node == tab[idx] && Flagged(slots[idx], flag)
         && forall j :: 0 <= j < n && j != idx ==> !Flagged(slots[j], flag)
  }

  lemma FoundNothing(tab: seq<RsrcNode?>, slots: seq<Slot>, flag: nat)
    requires |tab| == |slots| == 3 && flag > 0
    ensures Found(tab, slots, flag, 0, 0, null)
  {
  }

  lemma FoundStep(tab: seq<RsrcNode?>, slots: seq<Slot>, flag: nat, n: nat, idx: nat, node: RsrcNode?)
    requires |tab| == |slots| == 3 && n < 3 && flag > 0 && (Flagged(slots[n], flag) ==> tab[n] != null)
    requires Found(tab, slots, flag, n, idx, node)
    ensures !Flagged(slots[n], flag) ==> Found(tab, slots, flag, n + 1, idx, node)
    ensures Flagged(slots[n], flag) && node == null ==>
              Found(tab, slots, flag, n + 1, n, tab[n]) && FirstFlagged(slots, flag) == n
    ensures Flagged(slots[n], flag) && node != null ==> !AtMostOne(slots, flag)
  {
    hide Flagged;
    if node != null && Flagged(slots[n], flag) {
      assert Flagged(slots[idx], flag) && idx < n;
    }
  }

  lemma FoundAll(tab: seq<RsrcNode?>, slots: seq<Slot>, flag: nat, idx: nat, node: RsrcNode?)
    requires |tab| == |slots| == 3 && flag > 0 && Found(tab, slots, flag, 3, idx, node)
    ensures AtMostOne(slots, flag)
    ensures var k := FirstFlagged(slots, flag);
            if k < 3 then idx == k && node == tab[k] != null else idx == 0 && node == null
  {
    hide Flagged;
  }

  /** iesys_compute_encrypt_nonce: the session whose nonce the TPM encrypts with. */
  method ComputeEncryptNonce(tab: seq<RsrcNode?>) returns (rc: Rc, idx: nat, nonce: RsrcNode?)
    requires |tab| == 3 && Sessions(tab)
    ensures rc == if AtMostOne(Slots(tab), ATTR_ENCRYPT) then Success else EsysMultipleEncryptSessions
    ensures rc == Success ==>
              var k := FirstFlagged(Slots(tab), ATTR_ENCRYPT);
              if k < 3 then idx == k && nonce == tab[k] else idx == 0 && nonce == null
  {
    hide HasFlag, AtMostOne, FirstFlagged, Found, Flagged, Slots, Sessions;
    idx, nonce := 0, null;
    ghost var slots := Slots(tab);
    FoundNothing(tab, slots, ATTR_ENCRYPT);
    for i := 0 to 3
      invariant Found(tab, slots, ATTR_ENCRYPT, i, idx, nonce)
    {
      var session := tab[i];
      SlotLive(tab, i);
      FoundStep(tab, slots, ATTR_ENCRYPT, i, idx, nonce);
      if session != null {
        if HasFlag(SessionIn(session.rsrc.misc).attributes, ATTR_ENCRYPT) {
          if nonce != null {
            return EsysMultipleEncryptSessions, idx, nonce;
          }
          idx, nonce := i, session;
        }
      }
    }
    FoundAll(tab, slots, ATTR_ENCRYPT, idx, nonce);
    return Success, idx, nonce;
  }

  /** `(a & ~m) | (b & m)` on the w low bits. */
  function MaskBits(a: nat, b: nat, m: nat, w: nat): (r: nat)
    ensures r < Pow2(w)
  {
    if w == 0 then 0 else (if m % 2 == 1 then b % 2 else a % 2) + 2 * MaskBits(a / 2, b / 2, m / 2, w - 1)
  }

  function Masked(attributes: byte, flags: byte, mask: byte): byte {
    Pow2Byte();
    MaskBits(attributes, flags, mask, 8)
  }

  function Bit(n: nat, k: nat): nat {
    if k == 0 then n % 2 else Bit(n / 2, k - 1)
  }

  /** Every attribute under the mask comes from the new flags, every other one stays. */
  lemma {:induction false} MaskedBit(a: nat, b: nat, m: nat, w: nat, k: nat)
    requires k < w
    ensures Bit(MaskBits(a, b, m, w), k) == if Bit(m, k) == 1 then Bit(b, k) else Bit(a, k)
  {
    var low, high := if m % 2 == 1 then b % 2 else a % 2, MaskBits(a / 2, b / 2, m / 2, w - 1);
    assert (low + 2 * high) / 2 == high && (low + 2 * high) % 2 == low;
    if k > 0 { MaskedBit(a / 2, b / 2, m / 2, w - 1, k - 1); }
  }

  lemma {:induction false} BitIs(n: nat, k: nat)
    ensures Bit(n, k) == n / Pow2(k) % 2
  {
    hide Pow2;
    Pow2Step(k);
    if k > 0 {
      BitIs(n / 2, k - 1);
      HalveThen(n, Pow2(k - 1));
    }
  }

  /** The attributes, bit by bit. */
  lemma MaskedIs(attributes: byte, flags: byte, mask: byte, k: nat)
    requires k < 8
    ensures (Masked(attributes, flags, mask) as int) / Pow2(k) % 2 ==
            if (mask as int) / Pow2(k) % 2 == 1 then (flags as int) / Pow2(k) % 2
            else (attributes as int) / Pow2(k) % 2
  {
    MaskedBit(attributes, flags, mask, 8, k);
    BitIs(Masked(attributes, flags, mask), k);
    BitIs(attributes, k);
    BitIs(flags, k);
    BitIs(mask, k);
    hide MaskBits, Pow2, Bit;
  }

  /** How Esys_TRSess_SetAttributes ends. */
  function SetAttributesRc(t: Table, h: nat): Rc {
    var t' := AfterLookup(t, h);
    var i := IndexOf(t'.entries, h);
    if LookupRc(t, h) != Success then LookupRc(t, h)
    else if h == TR_NONE || i == |t'.entries| then EsysBadReference
    else if !t'.entries[i].rsrc.misc.SessionRsrc? then EsysBadTr
    else Success
  }

  lemma SetAttributesRcIs(t: Table, h: nat)
    ensures var es, i := AfterLookup(t, h).entries, IndexOf(AfterLookup(t, h).entries, h);
            SetAttributesRc(t, h) ==
            if LookupRc(t, h) != Success then LookupRc(t, h)
            else if h == 0xfff then EsysBadReference
            else if i < |es| && es[i].rsrc.misc.SessionRsrc? then Success
            else EsysBadTr
  {
    LookupKeeps(t, h);
    IndexFound(AfterLookup(t, h).entries, h);
    hide AfterLookup, LookupRc, IndexOf, Has;
  }

  /** Esys_TRSess_SetAttributes */
  method SetAttributes(ctx: EsysContext, h: nat, flags: byte, mask: byte) returns (rc: Rc)
    requires ctx.Valid()
    requires forall e :: e in ctx.Contents().entries && e.rsrc.misc.SessionRsrc? ==>
               e.rsrc.misc.session.attributes < 256
    modifies ctx`rsrcList, ctx`nodes, ctx.nodes`rsrc
    ensures ctx.Valid() && rc == SetAttributesRc(old(ctx.Contents()), h)
    ensures var t := AfterLookup(old(ctx.Contents()), h);
            var i := IndexOf(t.entries, h);
            if rc != Success then ctx.Contents() == t
            else
              && i < |t.entries| && t.entries[i].rsrc.misc.SessionRsrc?
              && t.entries[i].rsrc.misc.session.attributes < 256
              && var s := t.entries[i].rsrc.misc.session;
                 ctx.Contents() == t.(entries := t.entries[i := t.entries[i].(rsrc := t.entries[i].rsrc.(
                                     misc := SessionRsrc(s.(attributes := Masked(s.attributes, flags, mask)))))])
  {
    hide LookupRc, Linked, Views, IndexOf, Masked, AfterLookup;
    ghost var t0 := ctx.Contents();
    var node;
    rc, node := ctx.GetResourceObject(h);
    if rc != Success {
      return rc;
    }
    if node == null {
      return EsysBadReference;
    }
    ghost var t, i := ctx.Contents(), IndexOf(ctx.Contents().entries, h);
    assert t.entries[i] == node.View();
    if !node.rsrc.misc.SessionRsrc? {
      return EsysBadTr;
    }
    OldEntry(t0, h);
    var s := node.rsrc.misc.session;
    ctx.SetRsrc(node, i, node.rsrc.(misc := SessionRsrc(s.(attributes := Masked(s.attributes, flags, mask)))));
  }

  /** A session found by a lookup was there before. */
  lemma OldEntry(t: Table, h: nat)
    ensures var t' := AfterLookup(t, h);
            var i := IndexOf(t'.entries, h);
            i < |t'.entries| && t'.entries[i].rsrc.misc.SessionRsrc? ==> t'.entries[i] in t.entries
  {
    var t' := AfterLookup(t, h);
    if t' != t {
      assert t'.entries[0].handle == h;
      IndexOfIsFirst(t'.entries, h, 0);
    }
  }

  // ---------------------------------------------------------------- bound entities

  function LeftPad(a: seq<byte>, n: nat): (r: seq<byte>)
    requires |a| <= n
    ensures |r| == n
  {
    Zeros(n - |a|) + a
  }

  /** The name, filled up with zeros, and the authorization value over its right end; a name
      that fills the buffer is taken as it is. */
  function BoundEntity(name: seq<byte>, auth: seq<byte>): (r: seq<byte>)
    requires |name| <= NAME_MAX && |auth| <= DIGEST_MAX
    ensures |r| == NAME_MAX
  {
    if |name| == NAME_MAX then name else XorWith(name + Zeros(NAME_MAX - |name|), LeftPad(auth, NAME_MAX))
  }

  lemma {:induction false} XorZero(a: byte)
    ensures Xor(a, 0) == a
  {
    Pow2Byte();
    XorBitsZero(a, 8);
  }

  lemma {:induction false} XorBitsZero(a: nat, w: nat)
    requires a < Pow2(w)
    ensures XorBits(a, 0, w) == a
  {
    if w > 0 { XorBitsZero(a / 2, w - 1); }
  }

  /** iesys_compute_bound_entity: the loop runs over the last bytes only. */
  method ComputeBoundEntity(name: seq<byte>, auth: seq<byte>) returns (bound: seq<byte>)
    requires |name| <= NAME_MAX && |auth| <= DIGEST_MAX
    ensures bound == BoundEntity(name, auth)
  {
    hide Xor, Zeros;
    if |name| >= NAME_MAX {
      return name;
    }
    var entity := new byte[NAME_MAX](i => 0);
    forall i | 0 <= i < |name| {
      entity[i] := name[i];
    }
    ghost var padded, right := name + Zeros(NAME_MAX - |name|), LeftPad(auth, NAME_MAX);
    assert entity[..] == padded;
    var first := NAME_MAX - |auth|;
    forall i | 0 <= i < first ensures Xor(padded[i], right[i]) == padded[i] { XorZero(padded[i]); }
    for i := first to NAME_MAX
      invariant forall k :: 0 <= k < i ==> entity[k] == Xor(padded[k], right[k])
      invariant forall k :: i <= k < NAME_MAX ==> entity[k] == padded[k]
    {
      entity[i] := Xor(entity[i], auth[i - first]);
    }
    return entity[..];
  }

  lemma {:induction false} XorBitsAssoc(a: nat, b: nat, c: nat, w: nat)
    ensures XorBits(XorBits(a, b, w), c, w) == XorBits(a, XorBits(b, c, w), w)
  {
    if w > 0 {
      hide *;
      XorBitsAssoc(a / 2, b / 2, c / 2, w - 1);
      UpperBits(a, b, c, w);
      LowestBit(a, b, c, w);
      SameHalves(XorBits(XorBits(a, b, w), c, w), XorBits(a, XorBits(b, c, w), w));
    } else {
      XorBitsNone(XorBits(a, b, 0), c);
      XorBitsNone(a, XorBits(b, c, 0));
    }
  }

  lemma XorBitsNone(a: nat, b: nat)
    ensures XorBits(a, b, 0) == 0
  {
  }

  lemma Halved(a: nat, b: nat, w: nat)
    requires w > 0
    ensures XorBits(a, b, w) / 2 == XorBits(a / 2, b / 2, w - 1)
  {
    XorBitsStep(a, b, w);
  }

  lemma UpperBits(a: nat, b: nat, c: nat, w: nat)
    requires w > 0
    requires XorBits(XorBits(a / 2, b / 2, w - 1), c / 2, w - 1) == XorBits(a / 2, XorBits(b / 2, c / 2, w - 1), w - 1)
    ensures XorBits(XorBits(a, b, w), c, w) / 2 == XorBits(a, XorBits(b, c, w), w) / 2
  {
    hide *;
    Halved(a, b, w);
    Halved(b, c, w);
    Halved(XorBits(a, b, w), c, w);
    Halved(a, XorBits(b, c, w), w);
  }

  lemma LowestBit(a: nat, b: nat, c: nat, w: nat)
    requires w > 0
    ensures XorBits(XorBits(a, b, w), c, w) % 2 == XorBits(a, XorBits(b, c, w), w) % 2
  {
    hide *;
    var x, y := XorBits(a, b, w), XorBits(b, c, w);
    LowestOf(a, b, w);
    LowestOf(b, c, w);
    LowestOf(x, c, w);
    LowestOf(a, y, w);
    ThreeBits(a, b, c, x, y, XorBits(x, c, w), XorBits(a, y, w));
  }

  lemma LowestOf(a: nat, b: nat, w: nat)
    requires w > 0
    ensures XorBits(a, b, w) % 2 == (a + b) % 2
  {
    XorBitsStep(a, b, w);
  }

  lemma ThreeBits(a: nat, b: nat, c: nat, x: nat, y: nat, l: nat, r: nat)
    requires x % 2 == (a + b) % 2 && y % 2 == (b + c) % 2 && l % 2 == (x + c) % 2 && r % 2 == (a + y) % 2
    ensures l % 2 == r % 2
  {
  }

  lemma SameHalves(n: nat, m: nat)
    requires n / 2 == m / 2 && n % 2 == m % 2
    ensures n == m
  {
  }

  lemma XorAssoc(a: byte, b: byte, c: byte)
    ensures Xor(Xor(a, b), c) == Xor(a, Xor(b, c))
  {
    XorBitsAssoc(a, b, c, 8);
    hide XorBits, Pow2;
  }

  /** Terms can change sides. */
  lemma XorSides(a: byte, b: byte, c: byte, d: byte)
    ensures Xor(a, b) == Xor(c, d) <==> Xor(a, c) == Xor(b, d)
  {
    hide Xor;
    XorSidesOnce(a, b, c, d);
    XorSidesOnce(a, c, b, d);
  }

  lemma XorSidesOnce(a: byte, b: byte, c: byte, d: byte)
    ensures Xor(a, b) == Xor(c, d) ==> Xor(a, c) == Xor(b, d)
  {
    hide Xor;
    XorTwice(a, b);             // a == (a ^ b) ^ b
    XorAssoc(Xor(c, d), b, c);  // ((c ^ d) ^ b) ^ c == (c ^ d) ^ (b ^ c)
    XorSwap(b, c);
    XorAssoc(Xor(c, d), c, b);
    XorSwap(c, d);
    XorTwice(d, c);
    XorSwap(d, b);
  }

  /** Byte i of a bound entity: the name, then zeros, combined with the value at the right end,
      unless the name fills the buffer. */
  lemma BoundAt(name: seq<byte>, auth: seq<byte>, i: nat)
    requires |name| <= 68 && |auth| <= 64 && i < 68
    ensures |BoundEntity(name, auth)| == 68
    ensures BoundEntity(name, auth)[i] ==
            Xor(if i < |name| then name[i] else 0,
                if |name| < 68 && 68 - |auth| <= i then auth[i - (68 - |auth|)] else 0)
  {
    hide Xor, XorWith;
    if |name| == 68 { XorZero(name[i]); }
  }

  /** Two names and values make the same bound entity exactly if the names differ, byte by byte,
      by what the values differ by. */
  lemma BoundAgreeIff(name: seq<byte>, auth: seq<byte>, name': seq<byte>, auth': seq<byte>)
    requires |name| <= 68 && |auth| <= 64 && |name'| <= 68 && |auth'| <= 64
    ensures BoundEntity(name, auth) == BoundEntity(name', auth') <==>
              forall i :: 0 <= i < 68 ==>
                Xor(if i < |name| then name[i] else 0, if i < |name'| then name'[i] else 0) ==
                Xor(if |name| < 68 && 68 - |auth| <= i then auth[i - (68 - |auth|)] else 0,
                    if |name'| < 68 && 68 - |auth'| <= i then auth'[i - (68 - |auth'|)] else 0)
  {
    hide Xor, BoundEntity;
    BoundAt(name, auth, 0);
    BoundAt(name', auth', 0);
    var b, b' := BoundEntity(name, auth), BoundEntity(name', auth');
    forall i | 0 <= i < 68
      ensures b[i] == b'[i] <==>
                Xor(if i < |name| then name[i] else 0, if i < |name'| then name'[i] else 0) ==
                Xor(if |name| < 68 && 68 - |auth| <= i then auth[i - (68 - |auth|)] else 0,
                    if |name'| < 68 && 68 - |auth'| <= i then auth'[i - (68 - |auth'|)] else 0)
    {
      BoundAt(name, auth, i);
      BoundAt(name', auth', i);
      XorSides(if i < |name| then name[i] else 0,
               if |name| < 68 && 68 - |auth| <= i then auth[i - (68 - |auth|)] else 0,
               if i < |name'| then name'[i] else 0,
               if |name'| < 68 && 68 - |auth'| <= i then auth'[i - (68 - |auth'|)] else 0);
    }
    assert b == b' <==> forall i :: 0 <= i < 68 ==> b[i] == b'[i];
  }

  function IsObjectBound(name: seq<byte>, auth: seq<byte>, s: Session): bool
    requires |name| <= NAME_MAX && |auth| <= DIGEST_MAX
  {
    s.boundEntity != [] && BoundEntity(name, auth) == s.boundEntity
  }

  /** A session bound to an object accepts another authorization value of the same object
      exactly when the two are equal up to leading zeros. */
  lemma BoundIff(name: seq<byte>, bindAuth: seq<byte>, auth: seq<byte>, s: Session)
    requires |name| < NAME_MAX && |bindAuth| <= DIGEST_MAX && |auth| <= DIGEST_MAX
    requires s.boundEntity == BoundEntity(name, bindAuth)
    ensures IsObjectBound(name, auth, s) <==> LeftPad(auth, NAME_MAX) == LeftPad(bindAuth, NAME_MAX)
  {
    XorWithLaws(name + Zeros(NAME_MAX - |name|), LeftPad(auth, NAME_MAX), LeftPad(bindAuth, NAME_MAX));
    hide LeftPad, XorWith, Zeros;
  }

  /** A name that leaves no room is compared without the authorization value. */
  lemma FullNameIgnoresAuth(name: seq<byte>, auth: seq<byte>, s: Session)
    requires |name| == NAME_MAX && |auth| <= DIGEST_MAX
    ensures IsObjectBound(name, auth, s) <==> s.boundEntity == name
  {
  }

  // ---------------------------------------------------------------- session values

  /** The value fits its structure, or is longer than what the session value still takes. */
  predicate AuthUsable(s: Session, auth: seq<byte>) {
    |auth| <= DIGEST_MAX || |auth| > SESSION_VALUE_MAX - |s.sessionKey|
  }

  /** The session as iesys_compute_session_value leaves it. */
  function WithSessionValue(s: Session, name: Option<seq<byte>>, auth: Option<seq<byte>>): Session
    requires |s.sessionKey| <= DIGEST_MAX && |s.sessionValue| == SESSION_VALUE_MAX
    requires (name.Some? ==> |name.value| <= NAME_MAX) && (auth.Some? ==> AuthUsable(s, auth.value))
  {
    var k := |s.sessionKey|;
    var keyed := s.(sizeSessionValue := k, sessionValue := s.sessionKey + s.sessionValue[k..]);
    if name == None || (s.sessionType != SE_HMAC && s.sessionType != SE_POLICY) then keyed
    else if auth == None || |auth.value| > SESSION_VALUE_MAX - k then keyed.(sizeHmacValue := k)
    else
      var a := auth.value;
      var both := s.sessionKey + a + s.sessionValue[k + |a|..];
      keyed.(sessionValue := both, sizeSessionValue := k + |a|,
             sizeHmacValue := if IsObjectBound(name.value, a, s) && s.typePolicy != POLICY_AUTH then k else k + |a|)
  }

  /** The session value, written out: the session key in front of what was there; behind it the
      authorization value, for an HMAC or policy session that authorizes an object. The HMAC key
      is as long as both, or as the session key for the bound object without PolicyAuthValue;
      without a name its size stays. Nothing else changes. */
  lemma WithSessionValueIs(s: Session, name: Option<seq<byte>>, auth: Option<seq<byte>>)
    requires |s.sessionKey| <= 64 && |s.sessionValue| == 128
    requires (name.Some? ==> |name.value| <= 68) && (auth.Some? ==> AuthUsable(s, auth.value))
    ensures var t, k := WithSessionValue(s, name, auth), |s.sessionKey|;
            var named := name.Some? && s.sessionType in {0, 1};
            && t == s.(sizeSessionValue := t.sizeSessionValue, sessionValue := t.sessionValue,
                       sizeHmacValue := t.sizeHmacValue)
            && if named && auth.Some? && |auth.value| <= 128 - k then
                 && t.sizeSessionValue == k + |auth.value|
                 && t.sessionValue == s.sessionKey + auth.value + s.sessionValue[k + |auth.value|..]
                 && t.sizeHmacValue ==
                    if s.boundEntity != [] && BoundEntity(name.value, auth.value) == s.boundEntity && s.typePolicy != 1
                    then k else k + |auth.value|
               else
                 && t.sizeSessionValue == k && t.sessionValue == s.sessionKey + s.sessionValue[k..]
                 && t.sizeHmacValue == if named then k else s.sizeHmacValue
  {
    hide BoundEntity;
  }

  lemma KeyThenAuth(key: seq<byte>, a: seq<byte>, was: seq<byte>)
    requires |key| + |a| <= |was|
    ensures var keyed := key + was[|key|..];
            keyed[..|key|] + a + keyed[|key| + |a|..] == key + a + was[|key| + |a|..]
  {
    var keyed := key + was[|key|..];
    assert keyed[|key| + |a|..] == was[|key| + |a|..];
  }

  /** iesys_compute_session_value */
  method ComputeSessionValue(node: RsrcNode, name: Option<seq<byte>>, auth: Option<seq<byte>>)
    requires node.rsrc.misc.SessionRsrc?
    requires var s := node.rsrc.misc.session; |s.sessionKey| <= DIGEST_MAX && |s.sessionValue| == SESSION_VALUE_MAX
    requires name.Some? ==> |name.value| <= NAME_MAX
    requires auth.Some? ==> AuthUsable(node.rsrc.misc.session, auth.value)
    modifies node`rsrc
    ensures node.rsrc == old(node.rsrc).(misc := SessionRsrc(WithSessionValue(old(node.rsrc.misc.session), name, auth)))
  {
    hide BoundEntity;
    var s := node.rsrc.misc.session;
    var k := |s.sessionKey|;
    s := s.(sizeSessionValue := k, sessionValue := s.sessionKey + s.sessionValue[k..]);
    node.rsrc := node.rsrc.(misc := SessionRsrc(s));
    if name == None {
      return;
    }
    if s.sessionType != SE_HMAC && s.sessionType != SE_POLICY {
      return;
    }
    s := s.(sizeHmacValue := s.sizeSessionValue);
    node.rsrc := node.rsrc.(misc := SessionRsrc(s));
    if auth == None {
      return;
    }
    var a := auth.value;
    if |a| > SESSION_VALUE_MAX - k {
      return;
    }
    KeyThenAuth(s.sessionKey, a, old(node.rsrc.misc.session.sessionValue));
    s := s.(sessionValue := s.sessionValue[..k] + a + s.sessionValue[k + |a|..],
            sizeSessionValue := s.sizeSessionValue + |a|);
    node.rsrc := node.rsrc.(misc := SessionRsrc(s));
    var bound := ComputeBoundEntity(name.value, a);
    if s.boundEntity != [] && bound == s.boundEntity && s.typePolicy != POLICY_AUTH {
      return;
    }
    node.rsrc := node.rsrc.(misc := SessionRsrc(s.(sizeHmacValue := s.sizeHmacValue + |a|)));
  }

  /** The key for parameter encryption is session key and authorization value; the HMAC key
      is the session key alone exactly for the bound object, unless a policy asks for the
      value. */
  lemma SessionValueIs(s: Session, name: seq<byte>, auth: seq<byte>)
    requires |s.sessionKey| <= DIGEST_MAX && |s.sessionValue| == SESSION_VALUE_MAX
    requires |name| <= NAME_MAX && |auth| <= DIGEST_MAX
    requires s.sessionType == SE_HMAC || s.sessionType == SE_POLICY
    ensures var t := WithSessionValue(s, Some(name), Some(auth));
            && t.sizeHmacValue <= t.sizeSessionValue <= |t.sessionValue| == SESSION_VALUE_MAX
            && t.sessionValue[..t.sizeSessionValue] == s.sessionKey + auth
            && t.sessionValue[..t.sizeHmacValue] ==
               (if IsObjectBound(name, auth, s) && s.typePolicy != POLICY_AUTH then s.sessionKey
                else s.sessionKey + auth)
  {
    hide IsObjectBound;
    var t := WithSessionValue(s, Some(name), Some(auth));
    var k := |s.sessionKey|;
    assert t.sessionValue == s.sessionKey + (auth + s.sessionValue[k + |auth|..]);
  }

  /** An authorization value is passed over, as if there were none, exactly when it is empty or
      longer than what the session value still takes. None that fits its structure is. */
  lemma AuthPassedOverIff(s: Session, name: seq<byte>, auth: seq<byte>)
    requires |s.sessionKey| <= DIGEST_MAX && |s.sessionValue| == SESSION_VALUE_MAX
    requires |name| <= NAME_MAX && AuthUsable(s, auth)
    requires s.sessionType == SE_HMAC || s.sessionType == SE_POLICY
    ensures WithSessionValue(s, Some(name), Some(auth)) == WithSessionValue(s, Some(name), None)
            <==> auth == [] || |auth| > SESSION_VALUE_MAX - |s.sessionKey|
    ensures |auth| > SESSION_VALUE_MAX - |s.sessionKey| ==> |auth| > DIGEST_MAX
    ensures auth != [] && |auth| <= DIGEST_MAX ==>
              WithSessionValue(s, Some(name), Some(auth)).sizeSessionValue == |s.sessionKey| + |auth|
  {
    hide IsObjectBound;
    var t, u := WithSessionValue(s, Some(name), Some(auth)), WithSessionValue(s, Some(name), None);
    var k := |s.sessionKey|;
    if |auth| <= SESSION_VALUE_MAX - k && auth != [] {
      assert t.sizeSessionValue == k + |auth| != u.sizeSessionValue;
    }
    if auth == [] {
      assert s.sessionKey + auth == s.sessionKey;
    }
  }

  /** The HMAC key lies within the array it is read from. */
  predicate HmacFits(s: Session) { s.sizeHmacValue <= |s.sessionValue| }

  /** Computing the session value makes the HMAC key fit when it sets its size, and leaves an
      old size alone without a name: then it fits exactly if it did before. */
  lemma HmacFitsAfterIff(s: Session, name: Option<seq<byte>>, auth: Option<seq<byte>>)
    requires |s.sessionKey| <= DIGEST_MAX && |s.sessionValue| == SESSION_VALUE_MAX
    requires (name.Some? ==> |name.value| <= NAME_MAX) && (auth.Some? ==> AuthUsable(s, auth.value))
    ensures HmacFits(WithSessionValue(s, name, auth))
            <==> (name.Some? && (s.sessionType == SE_HMAC || s.sessionType == SE_POLICY)) || HmacFits(s)
  {
    hide IsObjectBound;
  }
}
