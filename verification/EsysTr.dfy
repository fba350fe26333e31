/**
 The ESYS context and its linked list of resource nodes: creation, lookup, closing,
 authorization values, and moving a resource out of and into a context as bytes.
 */
module EsysTr {
  import opened TpmBase
  import opened MuUnmarshal
  import opened EsysMu
  import opened EsysResource
  import opened EsysSerial
  import opened EsysTable
  import opened EsysWire

  /** RSRC_NODE_T */
  class RsrcNode {
    var esysHandle: nat
    var auth: seq<byte>
    var rsrc: Resource
    var next: RsrcNode?

    /** A node as calloc leaves it, but for its handle and its successor. */
    constructor (handle: nat, successor: RsrcNode?)
      ensures esysHandle == handle && auth == [] && rsrc == CLEARED && next == successor
    {
      esysHandle, auth, rsrc, next := handle, [], CLEARED, successor;
    }

    ghost function View(): Entry
      reads this
    {
      Entry(esysHandle, auth, rsrc)
    }
  }

  /** The entries of nodes, in order. */
  ghost function Views(ns: seq<RsrcNode>): (es: seq<Entry>)
    reads ns
    ensures |es| == |ns| && forall i :: 0 <= i < |ns| ==> es[i] == ns[i].View()
  {
    if ns == [] then [] else [ns[0].View()] + Views(ns[1..])
  }

  /** The i-th node, or nothing behind the last. */
  ghost function At(ns: seq<RsrcNode>, i: nat): RsrcNode? {
    if i < |ns| then ns[i] else null
  }

  ghost predicate LinksOn(ns: seq<RsrcNode>, i: nat)
    requires i < |ns|
    reads ns
  {
    ns[i].next == At(ns, i + 1)
  }

  /** The nodes hang together: each points to the one behind it, the last to nothing. */
  ghost predicate Linked(head: RsrcNode?, ns: seq<RsrcNode>)
    reads ns
  {
    && head == At(ns, 0)
    && (forall i :: 0 <= i < |ns| ==> LinksOn(ns, i))
    && (forall i, j :: 0 <= i < j < |ns| ==> ns[i] != ns[j])
  }

  lemma LinkFront(node: RsrcNode, head: RsrcNode?, ns: seq<RsrcNode>)
    requires Linked(head, ns) && node !in ns && node.next == head
    ensures Linked(node, [node] + ns)
    ensures Views([node] + ns) == [node.View()] + Views(ns)
  {
    var ms := [node] + ns;
    Cons(node, ns);
    assert forall i :: 0 < i < |ms| ==> ms[i] == ns[i - 1];
    forall i | 0 <= i < |ms| ensures LinksOn(ms, i) {
      if i > 0 { assert LinksOn(ns, i - 1); }
    }
  }

  lemma ViewsAfter(ns: seq<RsrcNode>, es: seq<Entry>, i: nat)
    requires |es| == |ns| && i < |ns| && forall j :: 0 <= j < |ns| && j != i ==> ns[j].View() == es[j]
    ensures Views(ns) == es[i := ns[i].View()]
  {
  }

  lemma ViewsSame(ns: seq<RsrcNode>, es: seq<Entry>)
    requires |es| == |ns| && forall j :: 0 <= j < |ns| ==> ns[j].View() == es[j]
    ensures Views(ns) == es
  {
  }

  lemma ViewsCut(ns: seq<RsrcNode>, i: nat)
    requires i < |ns|
    ensures Views(ns[..i] + ns[i + 1..]) == Views(ns)[..i] + Views(ns)[i + 1..]
  {
    hide Views;
  }

  lemma Distinct(head: RsrcNode?, ns: seq<RsrcNode>)
    requires Linked(head, ns)
    ensures forall i, j :: 0 <= i < j < |ns| ==> ns[i] != ns[j]
  {
  }

  lemma LinkedLocally(head: RsrcNode?, ns: seq<RsrcNode>)
    requires Linked(head, ns)
    ensures forall i :: 0 <= i < |ns| ==> LinksOn(ns, i)
    ensures head == At(ns, 0)
  {
  }

  lemma LinkedFrom(head: RsrcNode?, ns: seq<RsrcNode>)
    requires head == At(ns, 0) && forall i, j :: 0 <= i < j < |ns| ==> ns[i] != ns[j]
    requires forall i :: 0 <= i < |ns| ==> LinksOn(ns, i)
    ensures Linked(head, ns)
  {
  }

  lemma LinkStart(head: RsrcNode?, ns: seq<RsrcNode>)
    requires Linked(head, ns)
    ensures head == At(ns, 0)
  {
  }

  lemma LinkNext(head: RsrcNode?, ns: seq<RsrcNode>, i: nat)
    requires Linked(head, ns) && i < |ns|
    ensures ns[i].next == At(ns, i + 1)
  {
    assert LinksOn(ns, i);
  }

  /** With the i-th node passed over by what pointed to it, the others hang together. */
  lemma LinkCut(head: RsrcNode?, ns: seq<RsrcNode>, i: nat)
    requires i < |ns| && forall j, k :: 0 <= j < k < |ns| ==> ns[j] != ns[k]
    requires forall j :: 0 <= j < |ns| && j + 1 != i ==> LinksOn(ns, j)
    requires i > 0 ==> head == ns[0] && ns[i - 1].next == At(ns, i + 1)
    requires i == 0 ==> head == At(ns, 1)
    ensures Linked(head, ns[..i] + ns[i + 1..])
  {
    var ms := ns[..i] + ns[i + 1..];
    assert forall j :: 0 <= j < |ms| ==> ms[j] == if j < i then ns[j] else ns[j + 1];
    forall j | 0 <= j < |ms| ensures LinksOn(ms, j) {
      assert j + 1 != i ==> LinksOn(ns, if j < i then j else j + 1);
    }
  }

  /** ESYS_CONTEXT, as far as resources and sessions go. `nodes` lists what hangs on the
      pointer `rsrcList`. */
  class EsysContext {
    var handleCnt: nat
    var rsrcList: RsrcNode?
    var sessionType: seq<nat>
    var sessionTab: seq<RsrcNode?>
    var encryptNonceIdx: nat
    var encryptNonce: RsrcNode?      // the session node whose nonceTPM is meant
    var authsCount: nat
    ghost var nodes: seq<RsrcNode>

    ghost predicate Valid()
      reads this, nodes
    {
      && Linked(rsrcList, nodes)
      && handleCnt < U32
      && |sessionType| == |sessionTab| == 3
    }

    ghost function Contents(): Table
      reads this, nodes
    {
      Table(Views(nodes), handleCnt)
    }

    /** Esys_Initialize, from the random number it draws. */
    constructor (random: nat)
      ensures Valid() && nodes == [] && Contents() == Table([], TR_MIN_OBJECT + random % 6_000_000)
    {
      handleCnt := TR_MIN_OBJECT + random % 6_000_000;
      rsrcList, nodes := null, [];
      sessionType, sessionTab := [TR_NONE, TR_NONE, TR_NONE], [null, null, null];
      encryptNonceIdx, encryptNonce, authsCount := 0, null, 0;
    }

    /** The next handle; the counter has 32 bits. */
    method TakeHandle() returns (h: nat)
      requires Valid()
      modifies `handleCnt
      ensures Valid() && nodes == old(nodes) && h == old(handleCnt) == old(Contents()).cnt
      ensures Contents() == Table(old(Contents()).entries, (h + 1) % U32)
    {
      hide Linked, Views;
      h := handleCnt;
      handleCnt := (handleCnt + 1) % U32;
    }

    /** esys_CreateResourceObject: the new node becomes the head of the list. */
    method CreateResourceObject(h: nat) returns (node: RsrcNode)
      requires Valid()
      modifies `rsrcList, `nodes
      ensures Valid() && fresh(node) && nodes == [node] + old(nodes)
      ensures node.View() == Entry(h, [], CLEARED)
      ensures Contents() == Table([Entry(h, [], CLEARED)] + old(Contents()).entries, old(Contents()).cnt)
    {
      hide Linked, Views;
      node := new RsrcNode(h, rsrcList);
      LinkFront(node, rsrcList, nodes);
      rsrcList, nodes := node, [node] + nodes;
    }

    /** The metadata of one node; the list stays as it is. */
    method SetRsrc(node: RsrcNode, ghost i: nat, r: Resource)
      requires Valid() && i < |nodes| && node == nodes[i]
      modifies node`rsrc
      ensures node.rsrc == r
      ensures Valid() && Contents().cnt == old(Contents()).cnt && i < |old(Contents()).entries|
      ensures Contents().entries == old(Contents()).entries[i := old(Contents()).entries[i].(rsrc := r)]
    {
      hide Linked, Views;
      ghost var ns, es := nodes, Views(nodes);
      Distinct(rsrcList, ns);
      LinkedLocally(rsrcList, ns);
      node.rsrc := r;
      forall j | 0 <= j < |ns| ensures LinksOn(ns, j) { assert old(LinksOn(nodes, j)); }
      LinkedFrom(rsrcList, ns);
      ViewsAfter(ns, es, i);
    }

    /** The node of a global handle: its name is the TPM handle in four bytes. */
    method CreateGlobal(h: nat, tpm: nat) returns (node: RsrcNode)
      requires Valid()
      modifies `rsrcList, `nodes
      ensures Valid() && fresh(node) && nodes == [node] + old(nodes)
      ensures Contents() == Table([Global(h, tpm)] + old(Contents()).entries, handleCnt)
    {
      hide Linked, Views;
      node := CreateResourceObject(h);
      SetRsrc(node, 0, Resource(tpm, ToBE(tpm, 4), NoMisc));
    }

    /** The loop of the lookup over the list. */
    method FindNode(h: nat) returns (node: RsrcNode?)
      requires Valid()
      ensures IndexOf(Contents().entries, h) <= |nodes| && node == At(nodes, IndexOf(Contents().entries, h))
    {
      hide Linked, Views, IndexOf;
      node := rsrcList;
      ghost var i := 0;
      LinkStart(rsrcList, nodes);
      while node != null
        invariant i <= |nodes| && node == At(nodes, i)
        invariant forall j :: 0 <= j < i ==> nodes[j].esysHandle != h
        decreases |nodes| - i
      {
        LinkNext(rsrcList, nodes, i);
        if node.esysHandle == h {
          IndexOfIsFirst(Contents().entries, h, i);
          return;
        }
        node, i := node.next, i + 1;
      }
      IndexOfIsFirst(Contents().entries, h, |nodes|);
    }

    /** esys_GetResourceObject. A handle that is known gives its node, always the same one; a
        global one gets its node on first use. */
    method GetResourceObject(h: nat) returns (rc: Rc, node: RsrcNode?)
      requires Valid()
      modifies `rsrcList, `nodes
      ensures Valid() && rc == LookupRc(old(Contents()), h) && Contents() == AfterLookup(old(Contents()), h)
      ensures nodes == old(nodes) || (nodes != [] && fresh(nodes[0]) && nodes[1..] == old(nodes))
      ensures nodes == old(nodes) <==> Contents() == old(Contents())
      ensures node != null <==> rc == Success && h != TR_NONE
      ensures node != null ==>
                && IndexOf(Contents().entries, h) < |nodes|
                && node == nodes[IndexOf(Contents().entries, h)]
    {
      if h == TR_NONE {
        return Success, null;
      }
      hide Linked, Views, TpmHandle;
      node := FindNode(h);
      if node != null {
        return Success, node;
      }
      if h >= TR_MIN_OBJECT {
        return EsysBadTr, null;
      }
      var tpm := TpmHandle(h);
      if tpm == None {
        return EsysBadValue, null;
      }
      node := CreateGlobal(h, tpm.value);
      return Success, node;
    }

    /** What points to the i-th node, the head or the node before it, points past it. */
    method Unlink(prev: RsrcNode?, node: RsrcNode, ghost i: nat)
      requires Valid() && i < |nodes| && node == nodes[i] && prev == if i == 0 then null else nodes[i - 1]
      modifies `rsrcList, `nodes, nodes`next
      ensures Valid() && nodes == old(nodes)[..i] + old(nodes)[i + 1..]
      ensures var es := old(Contents()).entries; Contents() == Table(es[..i] + es[i + 1..], handleCnt)
    {
      hide Linked, Views;
      ghost var ns, es := nodes, Views(nodes);
      LinkedLocally(rsrcList, ns);
      Distinct(rsrcList, ns);
      assert LinksOn(ns, i);
      if prev == null {
        rsrcList := node.next;
      } else {
        prev.next := node.next;
      }
      ViewsSame(ns, es);
      forall j | 0 <= j < |ns| && j + 1 != i ensures LinksOn(ns, j) { assert old(LinksOn(nodes, j)); }
      LinkCut(rsrcList, ns, i);
      ViewsCut(ns, i);
      nodes := ns[..i] + ns[i + 1..];
    }

    /** Esys_TR_Close: the first node of the handle is unlinked, and the caller's handle is
        overwritten. */
    method Close(h: nat) returns (rc: Rc, h': nat)
      requires Valid()
      modifies `rsrcList, `nodes, nodes`next
      ensures Valid() && Contents() == AfterClose(old(Contents()), h)
      ensures rc == if IndexOf(old(Contents()).entries, h) < |old(nodes)| then Success else EsysBadTr
      ensures h' == if rc == Success then TR_NONE else h
      ensures var i := IndexOf(old(Contents()).entries, h);
              nodes == if i < |old(nodes)| then old(nodes)[..i] + old(nodes)[i + 1..] else old(nodes)
    {
      hide *;
      ghost var start := Contents();
      var node, prev: RsrcNode? := rsrcList, null;
      ghost var i := 0;
      ContentsAt(this, h);
      LinkStart(rsrcList, nodes);
      while node != null && node.esysHandle != h
        invariant i <= |nodes| && node == At(nodes, i)
        invariant prev == if i == 0 then null else nodes[i - 1]
        invariant forall j :: 0 <= j < i ==> nodes[j].esysHandle != h
        decreases |nodes| - i
        modifies {}
      {
        AtEnd(nodes, i);
        LinkNext(rsrcList, nodes, i);
        prev, node, i := node, node.next, i + 1;
      }
      AtEnd(nodes, i);
      ContentsAt(this, h);
      AfterCloseIs(start, h);
      IndexOfIsFirst(start.entries, h, i);
      if node == null {
        return EsysBadTr, h;
      }
      Unlink(prev, node, i);
      return Success, TR_NONE;
    }

    /** Esys_TR_SetAuth */
    method SetAuth(h: nat, auth: Option<seq<byte>>) returns (rc: Rc)
      requires Valid()
      modifies `rsrcList, `nodes, nodes`auth
      ensures Valid() && rc == SetAuthRc(old(Contents()), h, auth)
      ensures Contents() == AfterSetAuth(old(Contents()), h, auth)
    {
      hide AfterLookup, LookupRc, TpmHandle, IndexOf, Linked, Views;
      var node;
      rc, node := GetResourceObject(h);
      if rc != Success {
        return rc;
      }
      if node == null {
        return EsysBadReference;
      }
      ghost var i, ns, es := IndexOf(Contents().entries, h), nodes, Views(nodes);
      Distinct(rsrcList, ns);
      LinkedLocally(rsrcList, ns);
      label found:
      match auth {
        case None => node.auth := [];
        case Some(a) =>
          if |a| > DIGEST_MAX {
            return EsysBadSize;
          }
          node.auth := a;
      }
      forall j | 0 <= j < |ns| ensures LinksOn(ns, j) { assert old@found(LinksOn(ns, j)); }
      LinkedFrom(rsrcList, ns);
      ViewsAfter(ns, es, i);
    }

    /** Esys_TR_Serialize */
    method Serialize(h: nat) returns (rc: Rc, buffer: array<byte>)
      requires Valid()
      requires forall e :: e in Contents().entries && e.handle == h ==> ResourceStorable(e.rsrc)
      modifies `rsrcList, `nodes
      ensures Valid() && Contents() == AfterLookup(old(Contents()), h)
      ensures LookupRc(old(Contents()), h) != Success ==> rc == LookupRc(old(Contents()), h)
      ensures h == TR_NONE ==> rc == EsysBadReference
      ensures rc == Success ==>
                var i := IndexOf(Contents().entries, h);
                && i < |Contents().entries|
                && var r := Contents().entries[i].rsrc;
                && buffer.Length == |ResourceBytes(r, false)|
                && ResourceBytes(r, true) <= buffer[..]
                && (Truthful(r.misc) ==> buffer[..] == ResourceBytes(r, true))
      ensures h != TR_NONE && LookupRc(old(Contents()), h) == Success ==>
                var i := IndexOf(Contents().entries, h);
                && i < |Contents().entries|
                && var r := Contents().entries[i].rsrc;
                && (rc == Success <==> !r.misc.OtherMisc? && |ResourceBytes(r, true)| <= |ResourceBytes(r, false)|)
      ensures rc == Success ==>
                var r := Contents().entries[IndexOf(Contents().entries, h)].rsrc;
                r.misc.SessionRsrc? ==>
                  var s := r.misc.session;
                  && s.sizeSessionValue <= |s.sessionValue|
                  && buffer[..] ==
                     ToBE(r.handle, 4) + (ToBE(|r.name|, 2) + r.name) + ToBE(3, 4) + Cat([
                       ToBE(|s.boundEntity|, 2) + s.boundEntity, ToBE(|s.encryptedSalt|, 2) + s.encryptedSalt,
                       ToBE(|s.salt|, 2) + s.salt,
                       ToBE(s.symmetric.algorithm, 2)
                       + (if s.symmetric.algorithm in {0x0006, 0x0013, 0x0026, 0x000A}
                          then ToBE(s.symmetric.keyBits, 2) else [])
                       + (if s.symmetric.algorithm in {0x0006, 0x0013, 0x0026}
                          then ToBE(s.symmetric.mode, 2) else []),
                       ToBE(s.authHash, 2), ToBE(|s.sessionKey|, 2) + s.sessionKey, ToBE(s.sessionType, 1),
                       ToBE(s.attributes, 1), ToBE(|s.nonceCaller|, 2) + s.nonceCaller,
                       ToBE(|s.nonceTPM|, 2) + s.nonceTPM, ToBE(s.encrypt, 4), ToBE(s.decrypt, 4),
                       ToBE(s.typePolicy, 4), ToBE(s.sizeSessionValue, 2) + s.sessionValue[..s.sizeSessionValue],
                       ToBE(s.sizeHmacValue, 2)])
    {
      hide ResourceBytes, MiscPrintable, Truthful, ResourceStorable, AfterLookup, IndexOf, Linked, Views, Cat, ToBE,
           TpmHandle, Inv;
      buffer := new byte[0];
      var node;
      rc, node := GetResourceObject(h);
      if rc != Success {
        return;
      }
      if node == null {
        rc := EsysBadReference;
        return;
      }
      ghost var t := Contents();
      assert t.entries[IndexOf(t.entries, h)].rsrc == node.rsrc;
      EntryStorable(old(Contents()), h);
      rc, buffer := SerializeResource(node.rsrc);
      if rc == Success && node.rsrc.misc.SessionRsrc? {
        SerializedSession(node.rsrc);
        SessionTruthful(node.rsrc.misc);
      }
    }

    /** Esys_TR_Deserialize. The handle is taken and the node linked in before the bytes are
        read; a failed read leaves both behind, the node with metadata of which nothing is
        said. Of a context after a session too long for its array nothing is said at all. */
    method Deserialize(buffer: array<byte>, size: nat) returns (rc: Rc, h: nat)
      requires Valid() && size <= buffer.Length
      modifies `handleCnt, `rsrcList, `nodes
      ensures rc == OutOfBounds <==> !LoadFits(old(buffer[..size]))
      ensures rc != OutOfBounds ==>
                && Valid() && h == old(handleCnt)
                && nodes != [] && Contents() == AfterLoad(old(Contents()), old(buffer[..size]), nodes[0].rsrc)
                && (var p := DecodeResource(old(buffer[..size])); rc == if p.Ok? then Success else p.rc)
                && |nodes| == |old(nodes)| + 1 && fresh(nodes[0]) && nodes[1..] == old(nodes)
    {
      hide *;
      ghost var start, bytes := Contents(), buffer[..size];
      h := TakeHandle();
      var node := CreateResourceObject(h);
      var end, r;
      rc, end, r := UnmarshalResource(buffer, size, 0);
      RestWhole(buffer, size);
      ParsedIs(DecodeResource(bytes), rc, 0, end, r);
      if rc == OutOfBounds {
        return;
      }
      AfterLoadIs(start, bytes, r);
      SetRsrc(node, 0, r);
    }
  }

  lemma ParsedIs(p: Parse<Resource>, rc: Rc, from: nat, end: nat, r: Resource)
    ensures Parsed(p, rc, from, end, r) ==> if p.Ok? then rc == Success && r == p.value else rc == p.rc && rc != Success
  {
  }

  lemma AfterLoadIs(t: Table, bytes: seq<byte>, left: Resource)
    requires LoadFits(bytes)
    ensures var p := DecodeResource(bytes);
            AfterLoad(t, bytes, left) ==
            Table([Entry(t.cnt, [], if p.Ok? then p.value else left)] + t.entries, (t.cnt + 1) % U32)
  {
    hide DecodeResource, LoadFits;
  }

  lemma SessionTruthful(m: Misc)
    requires m.SessionRsrc?
    ensures Truthful(m)
  {
  }

  lemma RestWhole(buffer: array<byte>, size: nat)
    requires size <= buffer.Length
    ensures Rest(buffer, size, 0) == buffer[..size]
  {
  }

  lemma AtEnd(ns: seq<RsrcNode>, i: nat)
    ensures At(ns, i) == if i < |ns| then ns[i] else null
  {
  }

  /** The handles of a context's entries are those of its nodes. */
  lemma ContentsAt(ctx: EsysContext, h: nat)
    requires ctx.Valid()
    ensures var es := ctx.Contents().entries;
            |es| == |ctx.nodes| && forall j :: 0 <= j < |es| ==> es[j].handle == ctx.nodes[j].esysHandle
    ensures ctx.Contents().cnt == ctx.handleCnt && Linked(ctx.rsrcList, ctx.nodes)
  {
    hide Linked;
  }

  lemma AfterCloseIs(t: Table, h: nat)
    ensures var i := IndexOf(t.entries, h);
            AfterClose(t, h) == if i < |t.entries| then Table(t.entries[..i] + t.entries[i + 1..], t.cnt) else t
  {
  }

  lemma EntryStorable(t: Table, h: nat)
    requires h != TR_NONE && LookupRc(t, h) == Success
    requires forall e :: e in t.entries && e.handle == h ==> ResourceStorable(e.rsrc)
    ensures var t' := AfterLookup(t, h);
            var i := IndexOf(t'.entries, h);
            i < |t'.entries| && ResourceStorable(t'.entries[i].rsrc)
  {
    var i := IndexOf(t.entries, h);
    if i < |t.entries| {
      assert t.entries[i] in t.entries;
    } else {
      Pow256Facts();
      var t' := AfterLookup(t, h);
      assert t'.entries[0] == Global(h, TpmHandle(h).value);
      IndexOfIsFirst(t'.entries, h, 0);
    }
  }
}
