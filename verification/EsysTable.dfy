/**
 The resource table of an ESYS context as a value: which handles are known, and what each
 operation does to them. Module EsysTr proves the linked list against it.
 */
module EsysTable {
  import opened TpmBase
  import opened EsysMu
  import opened EsysResource

  const TR_NONE: nat := 0xfff
  const TR_PASSWORD: nat := 0x0ff
  const TR_MIN_OBJECT: nat := 0x1000
  const TR_PCR31: nat := 31
  const U32: nat := 0x1_0000_0000
  const RS_PW: nat := 0x40000009

  datatype Option<+T> = None | Some(value: T)

  /** One node: the handle of the application, the authorization value, the metadata. */
  datatype Entry = Entry(handle: nat, auth: seq<byte>, rsrc: Resource)

  /** The nodes from the head of the list on, and the next handle to give out. */
  datatype Table = Table(entries: seq<Entry>, cnt: nat)

  const CLEARED: Resource := Resource(0, [], NoMisc)

  /** iesys_handle_to_tpm_handle: the handles that need no initialization. */
  function TpmHandle(h: nat): Option<nat> {
    if h <= TR_PCR31 then Some(h)
    else if h == 0x101 then Some(0x40000001)
    else if h == 0x107 then Some(0x40000007)
    else if h == 0x10A then Some(0x4000000A)
    else if h == 0x10B then Some(0x4000000B)
    else if h == 0x10C then Some(0x4000000C)
    else if h == 0x10D then Some(0x4000000D)
    else None
  }

  /** The first node with the handle, or the length of the list. */
  function IndexOf(es: seq<Entry>, h: nat): (i: nat)
    ensures i <= |es|
    ensures i < |es| ==> es[i].handle == h
    ensures forall j :: 0 <= j < i ==> es[j].handle != h
  {
    if es == [] then 0 else if es[0].handle == h then 0 else 1 + IndexOf(es[1..], h)
  }

  predicate Has(es: seq<Entry>, h: nat) { exists i :: 0 <= i < |es| && es[i].handle == h }

  function Global(h: nat, tpm: nat): Entry {
    Entry(h, [], Resource(tpm, ToBE(tpm, 4), NoMisc))
  }

  /** A load, and what a failed read leaves in the node; the other operations. */
  datatype Op =
    | Load(bytes: seq<byte>, left: Resource)
    | Lookup(h: nat)
    | Close(h: nat)
    | SetAuth(h: nat, auth: Option<seq<byte>>)

  function LookupRc(t: Table, h: nat): Rc {
    if h == TR_NONE || IndexOf(t.entries, h) < |t.entries| then Success
    else if h >= TR_MIN_OBJECT then EsysBadTr
    else if TpmHandle(h).Some? then Success
    else EsysBadValue
  }

  /** A lookup only changes the table when it meets a global handle for the first time. */
  function AfterLookup(t: Table, h: nat): Table {
    if h != TR_NONE && IndexOf(t.entries, h) == |t.entries| && LookupRc(t, h) == Success
    then t.(entries := [Global(h, TpmHandle(h).value)] + t.entries)
    else t
  }

  function AfterClose(t: Table, h: nat): Table {
    var i := IndexOf(t.entries, h);
    if i < |t.entries| then t.(entries := t.entries[..i] + t.entries[i + 1..]) else t
  }

  /** The handle is given out before the bytes are looked at, so a load that fails leaves a
      node behind, with whatever was read so far. */
  function AfterLoad(t: Table, bytes: seq<byte>, left: Resource): Table
    requires LoadFits(bytes)
  {
    var p := DecodeResource(bytes);
    Table([Entry(t.cnt, [], if p.Ok? then p.value else left)] + t.entries, (t.cnt + 1) % U32)
  }

  function SetAuthRc(t: Table, h: nat, auth: Option<seq<byte>>): Rc {
    if LookupRc(t, h) != Success then LookupRc(t, h)
    else if h == TR_NONE then EsysBadReference
    else if auth.Some? && |auth.value| > DIGEST_MAX then EsysBadSize
    else Success
  }

  function AfterSetAuth(t: Table, h: nat, auth: Option<seq<byte>>): Table {
    var t' := AfterLookup(t, h);
    var i := IndexOf(t'.entries, h);
    if SetAuthRc(t, h, auth) == Success && i < |t'.entries|
    then t'.(entries := t'.entries[i := t'.entries[i].(auth := if auth.Some? then auth.value else [])])
    else t'
  }

  /** A context, or Broken: a load has written past the end of the array of a session. What
      that reaches depends on how far it goes (the field behind the array, padding, the
      pointer to the next node, the heap); nothing is said of it in any case. */
  datatype World = Sound(table: Table) | Broken

  predicate Fits(op: Op) { op.Load? ==> LoadFits(op.bytes) }

  predicate AllFit(ops: seq<Op>) { forall i :: 0 <= i < |ops| ==> Fits(ops[i]) }

  function Step(w: World, op: Op): World {
    if w.Broken? || !Fits(op) then Broken
    else
      match op
      case Load(bytes, left) => Sound(AfterLoad(w.table, bytes, left))
      case Lookup(h) => Sound(AfterLookup(w.table, h))
      case Close(h) => Sound(AfterClose(w.table, h))
      case SetAuth(h, auth) => Sound(AfterSetAuth(w.table, h, auth))
  }

  function Run(w: World, ops: seq<Op>): World
    decreases |ops|
  {
    if ops == [] then w else Run(Step(w, ops[0]), ops[1..])
  }

  function Loads(ops: seq<Op>): nat {
    if ops == [] then 0 else (if ops[0].Load? then 1 else 0) + Loads(ops[1..])
  }

  // ---------------------------------------------------------------- the invariant

  /** No two nodes share a handle; object handles were given out by the counter, all others
      are handles of global objects, which have no metadata; authorization values fit. */
  predicate Inv(t: Table) {
    && TR_MIN_OBJECT <= t.cnt < U32
    && (forall i, j :: 0 <= i < j < |t.entries| ==> t.entries[i].handle != t.entries[j].handle)
    && (forall i :: 0 <= i < |t.entries| ==> EntryInv(t.entries[i], t.cnt))
  }

  predicate EntryInv(e: Entry, cnt: nat) {
    && |e.auth| <= DIGEST_MAX
    && if e.handle >= TR_MIN_OBJECT then e.handle < cnt else TpmHandle(e.handle).Some? && e.rsrc.misc.NoMisc?
  }

  predicate Sane(w: World) { w.Sound? && Inv(w.table) }

  /** Esys_Initialize starts with an empty list and a random counter. */
  lemma InitInv(random: nat)
    ensures Inv(Table([], TR_MIN_OBJECT + random % 6_000_000))
  {
  }

  lemma LoadInv(t: Table, bytes: seq<byte>, left: Resource)
    requires Inv(t) && LoadFits(bytes)
    ensures var t' := AfterLoad(t, bytes, left);
            if t.cnt == U32 - 1 then t'.cnt == 0 else Inv(t') && t'.cnt == t.cnt + 1
  {
    hide DecodeResource, TpmHandle;
  }

  lemma LookupInv(t: Table, h: nat)
    requires Inv(t)
    ensures Inv(AfterLookup(t, h)) && AfterLookup(t, h).cnt == t.cnt
  {
    hide TpmHandle;
  }

  lemma CloseInv(t: Table, h: nat)
    requires Inv(t)
    ensures Inv(AfterClose(t, h)) && AfterClose(t, h).cnt == t.cnt
  {
    hide TpmHandle, IndexOf;
  }

  lemma SetAuthInv(t: Table, h: nat, auth: Option<seq<byte>>)
    requires Inv(t)
    ensures Inv(AfterSetAuth(t, h, auth)) && AfterSetAuth(t, h, auth).cnt == t.cnt
  {
    LookupInv(t, h);
    hide TpmHandle, IndexOf, AfterLookup, SetAuthRc;
  }

  /** Every step keeps the invariant, except a load that makes the counter wrap or that brings
      a session too long for its array. */
  lemma StepInv(t: Table, op: Op)
    requires Inv(t)
    ensures var w := Step(Sound(t), op);
            && (Sane(w) <==> Fits(op) && !(op.Load? && t.cnt == U32 - 1))
            && (Sane(w) ==> w.table.cnt == t.cnt + if op.Load? then 1 else 0)
  {
    hide AfterLoad, AfterLookup, AfterClose, AfterSetAuth, LoadFits, Inv;
    match op {
      case Load(bytes, left) =>
        if LoadFits(bytes) {
          LoadInv(t, bytes, left);
          ZeroCounter(AfterLoad(t, bytes, left));
        }
      case Lookup(h) => LookupInv(t, h);
      case Close(h) => CloseInv(t, h);
      case SetAuth(h, auth) => SetAuthInv(t, h, auth);
    }
  }

  lemma ZeroCounter(t: Table)
    ensures t.cnt == 0 ==> !Inv(t)
  {
  }

  /** Every table on the way, the last one included. */
  predicate InvAlways(w: World, ops: seq<Op>)
    decreases |ops|
  {
    Sane(w) && (ops == [] || InvAlways(Step(w, ops[0]), ops[1..]))
  }

  /** The invariant holds throughout a run exactly as long as the 32-bit counter does not wrap
      and every session that is loaded fits its array. */
  lemma {:induction false} InvariantAlwaysIff(t: Table, ops: seq<Op>)
    requires Inv(t)
    ensures InvAlways(Sound(t), ops) <==> t.cnt + Loads(ops) < U32 && AllFit(ops)
    ensures InvAlways(Sound(t), ops) ==>
              Sane(Run(Sound(t), ops)) && Run(Sound(t), ops).table.cnt == t.cnt + Loads(ops)
    decreases |ops|
  {
    hide Step, Fits, Inv;
    CounterSmall(t);
    if ops != [] {
      StepInv(t, ops[0]);
      FitSplit(ops);
      if Sane(Step(Sound(t), ops[0])) {
        InvariantAlwaysIff(Step(Sound(t), ops[0]).table, ops[1..]);
      }
    }
  }

  lemma CounterSmall(t: Table)
    requires Inv(t)
    ensures t.cnt < U32
  {
  }

  lemma FitSplit(ops: seq<Op>)
    requires ops != []
    ensures AllFit(ops) <==> Fits(ops[0]) && AllFit(ops[1..])
  {
    hide Fits;
    assert forall i :: 1 <= i < |ops| ==> ops[i] == ops[1..][i - 1];
  }

  /** A run ends with a broken context exactly if some load on the way does not fit. */
  lemma {:induction false} RunSoundIff(w: World, ops: seq<Op>)
    ensures Run(w, ops).Sound? <==> w.Sound? && AllFit(ops)
    decreases |ops|
  {
    hide Fits, AfterLoad, AfterLookup, AfterClose, AfterSetAuth;
    if ops != [] {
      FitSplit(ops);
      RunSoundIff(Step(w, ops[0]), ops[1..]);
    }
  }

  const EMPTY_SESSION: Session :=
    Session([], [], [], SymDef(0, 0, 0), 0, [], 0, 0, [], [], 0, 0, 0, 0, Zeros(SESSION_VALUE_MAX), 0)

  /** A serialized session with 200 session value bytes, complete but for its last field. */
  const OVERLONG: seq<byte> :=
    ToBE(0x02000000, 4) + (NameBytes([]) + (ToBE(SESSION_RSRC, 4) + LongSession(EMPTY_SESSION, Zeros(200))))

  /** Loading it breaks every context, for the rest of every run. */
  lemma OverlongBreaks(w: World, left: Resource, ops: seq<Op>)
    ensures Run(w, [Load(OVERLONG, left)] + ops) == Broken
  {
    Pow256Facts();
    LongLoadMisfits(0x02000000, [], EMPTY_SESSION, Zeros(200));
    hide *;
    OverlongIs();
    RunSoundIff(w, [Load(OVERLONG, left)] + ops);
    FitSplit([Load(OVERLONG, left)] + ops);
    FitsIs(([Load(OVERLONG, left)] + ops)[0]);
  }

  lemma OverlongIs()
    ensures OVERLONG == ToBE(0x02000000, 4)
                        + (NameBytes([]) + (ToBE(SESSION_RSRC, 4) + LongSession(EMPTY_SESSION, Zeros(200))))
  {
    hide LongSession, NameBytes, ToBE;
  }

  lemma FitsIs(op: Op)
    ensures Fits(op) <==> op.Load? ==> LoadFits(op.bytes)
  {
    hide LoadFits;
  }

  /** With a counter that wraps the same handle is given out twice. */
  lemma WrapCollides(first: seq<byte>, second: seq<byte>, left: Resource)
    requires LoadFits(first) && LoadFits(second)
    ensures var w := Run(Sound(Table([], U32 - 1)), [Load(first, left), Lookup(0), Load(second, left)]);
            && Inv(Table([], U32 - 1))
            && w.Sound? && |w.table.entries| == 3
            && w.table.entries[0].handle == w.table.entries[1].handle == 0
  {
    hide LoadFits, DecodeResource;
    var t0, a, b := Table([], U32 - 1), Load(first, left), Load(second, left);
    var ops := [a, Lookup(0), b];
    assert ops[1..] == [Lookup(0), b] && ops[1..][1..] == [b] && ops[1..][1..][1..] == [];
    var t1 := AfterLoad(t0, first, left);
    assert t1.cnt == 0 && t1.entries[0].handle == U32 - 1;
    var t2 := AfterLookup(t1, 0);
    assert t2.entries[0].handle == 0;
    assert Run(Sound(t2), [b]) == Sound(AfterLoad(t2, second, left)) by { assert [b][1..] == []; }
  }

  // ---------------------------------------------------------------- lookups

  lemma IndexOfIsFirst(es: seq<Entry>, h: nat, i: nat)
    requires i <= |es| && (i < |es| ==> es[i].handle == h) && forall j :: 0 <= j < i ==> es[j].handle != h
    ensures IndexOf(es, h) == i
  {
  }

  /** A lookup that succeeds can be repeated without changing anything, and no lookup hides or
      reorders what is there. */
  lemma LookupKeeps(t: Table, h: nat)
    ensures LookupRc(t, h) == Success ==> LookupRc(AfterLookup(t, h), h) == Success
    ensures AfterLookup(AfterLookup(t, h), h) == AfterLookup(t, h)
    ensures exists k :: 0 <= k <= 1 && k <= |AfterLookup(t, h).entries| && AfterLookup(t, h).entries[k..] == t.entries
    ensures h != TR_NONE && LookupRc(t, h) == Success ==> Has(AfterLookup(t, h).entries, h)
  {
    var t' := AfterLookup(t, h);
    if t' == t {
      assert t'.entries[0..] == t.entries;
      if h != TR_NONE && LookupRc(t, h) == Success { assert t.entries[IndexOf(t.entries, h)].handle == h; }
    } else {
      assert t'.entries[0].handle == h;
      assert t'.entries[1..] == t.entries;
      IndexOfIsFirst(t'.entries, h, 0);
    }
  }

  // ---------------------------------------------------------------- handles and values

  /** The handles that need no initialization and what they are in the TPM: the 32 PCRs, owner,
      null, lockout, endorsement, platform and platform NV. */
  lemma GlobalHandles(h: nat)
    ensures TpmHandle(h) ==
            if h < 32 then Some(h)
            else match h
                 case 0x101 => Some(0x40000001)
                 case 0x107 => Some(0x40000007)
                 case 0x10A => Some(0x4000000A)
                 case 0x10B => Some(0x4000000B)
                 case 0x10C => Some(0x4000000C)
                 case 0x10D => Some(0x4000000D)
                 case _ => None
  {
  }

  /** How a lookup ends: a handle of the list or none is fine, another one of an object is
      unknown, a global one is made up on first use. */
  lemma LookupRcIs(t: Table, h: nat)
    ensures LookupRc(t, h) ==
            if h == 0xfff || exists i :: 0 <= i < |t.entries| && t.entries[i].handle == h then Success
            else if h >= 0x1000 then EsysBadTr
            else if h < 32 || h in {0x101, 0x107, 0x10A, 0x10B, 0x10C, 0x10D} then Success
            else EsysBadValue
  {
    var i := IndexOf(t.entries, h);
    if i < |t.entries| { assert t.entries[i].handle == h; }
  }

  /** A global handle that is met for the first time gets a node in front: without metadata and
      authorization value, its name the four bytes of the handle in the TPM. */
  lemma GlobalMade(t: Table, h: nat)
    requires h != 0xfff && TpmHandle(h).Some? && forall i :: 0 <= i < |t.entries| ==> t.entries[i].handle != h
    requires h < 0x1000
    ensures AfterLookup(t, h) ==
            Table([Entry(h, [], Resource(TpmHandle(h).value, ToBE(TpmHandle(h).value, 4), NoMisc))] + t.entries, t.cnt)
  {
    hide ToBE, TpmHandle;
  }

  /** After a successful call the node of the handle has the value given, or the empty one, and
      all else of it and all other nodes stay; a value of more than 64 bytes is refused. */
  lemma SetAuthExact(t: Table, h: nat, auth: Option<seq<byte>>)
    ensures SetAuthRc(t, h, auth) ==
            if LookupRc(t, h) != Success then LookupRc(t, h) else if h == 0xfff then EsysBadReference
            else if auth.Some? && |auth.value| > 64 then EsysBadSize else Success
    ensures SetAuthRc(t, h, auth) != Success ==> AfterSetAuth(t, h, auth) == AfterLookup(t, h)
    ensures SetAuthRc(t, h, auth) == Success ==>
              var was, now, i := AfterLookup(t, h), AfterSetAuth(t, h, auth), IndexOf(AfterLookup(t, h).entries, h);
              && i < |was.entries| == |now.entries| && now.cnt == was.cnt
              && now.entries[i] == was.entries[i].(auth := if auth.Some? then auth.value else [])
              && forall j :: 0 <= j < |was.entries| && j != i ==> now.entries[j] == was.entries[j]
  {
    hide TpmHandle;
    LookupKeeps(t, h);
    IndexFound(AfterLookup(t, h).entries, h);
    hide IndexOf, LookupRc, AfterLookup, Has;
  }

  lemma IndexFound(es: seq<Entry>, h: nat)
    ensures Has(es, h) <==> IndexOf(es, h) < |es|
  {
    if IndexOf(es, h) < |es| { assert es[IndexOf(es, h)].handle == h; }
  }

  // ---------------------------------------------------------------- closing

  /** The entries that have another handle, in their order. */
  function Without(es: seq<Entry>, h: nat): seq<Entry> {
    if es == [] then [] else if es[0].handle == h then Without(es[1..], h) else [es[0]] + Without(es[1..], h)
  }

  lemma {:induction false} WithoutNone(es: seq<Entry>, h: nat)
    requires !Has(es, h)
    ensures Without(es, h) == es
  {
    if es != [] {
      assert es[0].handle != h;
      forall i | 0 <= i < |es[1..]| ensures es[1..][i].handle != h { assert es[1..][i] == es[i + 1]; }
      WithoutNone(es[1..], h);
      Uncons(es);
    }
  }

  lemma {:induction false} WithoutSplit(a: seq<Entry>, b: seq<Entry>, h: nat)
    ensures Without(a + b, h) == Without(a, h) + Without(b, h)
  {
    if a == [] {
      assert a + b == b;
    } else {
      assert (a + b)[1..] == a[1..] + b && (a + b)[0] == a[0];
      WithoutSplit(a[1..], b, h);
    }
  }

  lemma WithoutCut(es: seq<Entry>, i: nat, h: nat)
    requires i < |es| && es[i].handle == h && !Has(es[..i], h) && !Has(es[i + 1..], h)
    ensures Without(es, h) == es[..i] + es[i + 1..]
  {
    hide Has, Without;
    var a, m, b := es[..i], [es[i]], es[i + 1..];
    WithoutNone(a, h);
    WithoutNone(b, h);
    assert es == a + (m + b);
    WithoutSplit(a, m + b, h);
    WithoutSplit(m, b, h);
    WithoutItself(es[i]);
    assert a + ([] + b) == a + b;
  }

  lemma WithoutItself(e: Entry)
    ensures Without([e], e.handle) == []
  {
    assert [e][1..] == [];
  }

  /** Closing removes the node of the handle and nothing else, and keeps the order. */
  lemma CloseExact(t: Table, h: nat)
    requires Inv(t)
    ensures AfterClose(t, h).entries == Without(t.entries, h)
    ensures !Has(AfterClose(t, h).entries, h)
    ensures |AfterClose(t, h).entries| == |t.entries| - (if Has(t.entries, h) then 1 else 0)
  {
    var es, i := t.entries, IndexOf(t.entries, h);
    hide IndexOf, Without;
    if i < |es| {
      assert es[i].handle == h;
      var b := es[i + 1..];
      forall k | 0 <= k < |b| ensures b[k].handle != h { assert b[k] == es[i + 1 + k]; }
      WithoutCut(es, i, h);
    } else {
      WithoutNone(es, h);
    }
  }

  lemma AbsentLookup(t: Table, k: nat, h: nat)
    requires h >= TR_MIN_OBJECT && !Has(t.entries, h)
    ensures !Has(AfterLookup(t, k).entries, h)
  {
    hide IndexOf;
    assert forall i :: 0 <= i < |t.entries| ==> t.entries[i].handle != h;
  }

  lemma AbsentStep(t: Table, op: Op, h: nat)
    requires Inv(t) && TR_MIN_OBJECT <= h < t.cnt && !Has(t.entries, h) && Fits(op)
    ensures !Has(Step(Sound(t), op).table.entries, h)
  {
    hide DecodeResource, LoadFits;
    assert forall i :: 0 <= i < |t.entries| ==> t.entries[i].handle != h;
    match op {
      case Load(_, _) =>
      case Lookup(k) => AbsentLookup(t, k, h);
      case Close(k) =>
      case SetAuth(k, auth) => AbsentLookup(t, k, h); hide AfterLookup, TpmHandle, IndexOf;
    }
  }

  /** An object handle that is not there any more never comes back: whatever is loaded, looked
      up, closed or given an authorization afterwards, it is BAD_TR for ever. */
  lemma {:induction false} ClosedForever(t: Table, ops: seq<Op>, h: nat)
    requires Inv(t) && t.cnt + Loads(ops) < U32 && AllFit(ops)
    requires TR_MIN_OBJECT <= h < t.cnt && !Has(t.entries, h)
    ensures Run(Sound(t), ops).Sound? && LookupRc(Run(Sound(t), ops).table, h) == EsysBadTr
    decreases |ops|
  {
    hide Step, Fits, Inv;
    if ops == [] {
      AbsentBadTr(t, h);
    } else {
      FitSplit(ops);
      StepInv(t, ops[0]);
      AbsentStep(t, ops[0], h);
      ClosedForever(Step(Sound(t), ops[0]).table, ops[1..], h);
    }
  }

  lemma AbsentBadTr(t: Table, h: nat)
    requires h >= TR_MIN_OBJECT && !Has(t.entries, h)
    ensures LookupRc(t, h) == EsysBadTr
  {
  }

  /** ... so closing a present object makes its handle unusable for the rest of the run. */
  lemma CloseThenBadTr(t: Table, ops: seq<Op>, h: nat)
    requires Inv(t) && t.cnt + Loads(ops) < U32 && AllFit(ops) && h >= TR_MIN_OBJECT && Has(t.entries, h)
    ensures LookupRc(t, h) == Success
    ensures var w := Run(Sound(AfterClose(t, h)), ops); w.Sound? && LookupRc(w.table, h) == EsysBadTr
  {
    CloseExact(t, h);
    PresentFound(t, h);
    CloseInv(t, h);
    hide *;
    ClosedForever(AfterClose(t, h), ops, h);
  }

  lemma PresentFound(t: Table, h: nat)
    requires Inv(t) && h >= TR_MIN_OBJECT && Has(t.entries, h)
    ensures LookupRc(t, h) == Success && h < t.cnt
  {
  }

  // ---------------------------------------------------------------- across contexts

  /** Loading what another context wrote gives a handle nobody has, at which the resource is
      found again as it was, settled. Bytes behind those of the resource do not matter. */
  lemma LoadRestores(t: Table, r: Resource, behind: seq<byte>, left: Resource)
    requires Inv(t) && ResourceWellFormed(r)
    ensures LoadFits(ResourceBytes(r, true) + behind)
    ensures var t' := AfterLoad(t, ResourceBytes(r, true) + behind, left);
            && !Has(t.entries, t.cnt) && LookupRc(t', t.cnt) == Success
            && t'.entries[IndexOf(t'.entries, t.cnt)] == Entry(t.cnt, [], Settled(r))
            && t'.entries[1..] == t.entries
  {
    ResourceRoundTrip(r, behind);
    WellFormedFits(r, behind);
    hide LoadFits, DecodeResource, ResourceBytes, Settled, ResourceWellFormed;
    var t' := AfterLoad(t, ResourceBytes(r, true) + behind, left);
    assert t'.entries[0].handle == t.cnt;
    IndexOfIsFirst(t'.entries, t.cnt, 0);
    assert t'.entries[1..] == t.entries;
  }
}
