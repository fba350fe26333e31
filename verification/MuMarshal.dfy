/**
 The marshaling functions of src/tss2-mu: each macro family writes through a local offset
 into the caller's buffer, or with no buffer only moves the offset.
 */
module MuMarshal {
  import opened TpmBase
  import opened MuFormat

  function Room(size: nat, offset: nat): nat {
    if offset <= size then size - offset else 0
  }

  ghost function Content(buffer: array?<byte>): seq<byte>
    reads buffer
  {
    if buffer == null then [] else buffer[..]
  }

  /** No function of the format looks at the buffer size unless it has a buffer. */
  predicate SizeBlind(f: Format)
    decreases f
  {
    match f
    case Counted(_) => false
    case List(_, _) => false
    case Record(fs) => SizeBlindFields(fs)
    case _ => true
  }

  predicate SizeBlindFields(fs: Fields)
    decreases fs
  {
    match fs
    case End => true
    case Plain(h, t) => SizeBlind(h) && SizeBlindFields(t)
    case Choice(_, _, cs, t) => SizeBlindCases(cs) && SizeBlindFields(t)
  }

  predicate SizeBlindCases(cs: Cases)
    decreases cs
  {
    match cs
    case NoCase => true
    case Case(_, b, others) => SizeBlind(b) && SizeBlindCases(others)
  }

  /** What a marshal call at `offset` did, for a value that prints as `enc`:
      - it succeeds exactly when the value is printable and its bytes fit; without a buffer
        the size only matters to the formats that look at it anyway;
      - on success the offset moves by `|enc|` and the buffer holds `enc` there, nothing else
        having changed;
      - on failure the offset stays and no byte before it or past the size is touched. */
  ghost predicate Printed(enc: seq<byte>, printable: bool, blind: bool, present: bool, size: nat, offset: nat,
                          before: seq<byte>, after: seq<byte>, rc: Rc, offset': nat)
  {
    && |after| == |before|
    && (rc == Success ==> printable && offset' == offset + |enc| && after == Splice(before, offset, enc))
    && (rc == Success && present ==> |enc| <= Room(size, offset))
    && (printable && |enc| <= Room(size, offset) ==> rc == Success)
    && (printable && !present && blind ==> rc == Success)
    && (rc != Success ==> offset' == offset && OnlyWithin(before, after, offset, size))
    && (rc != Success && printable ==> rc == MuInsufficientBuffer || rc == EsysInsufficientBuffer)
    && (!printable && |enc| <= Room(size, offset) ==> rc == SysBadValue)
    && (rc != Success ==> rc in {MuInsufficientBuffer, EsysInsufficientBuffer, SysBadValue})
  }

  ghost predicate OnlyWithin(before: seq<byte>, after: seq<byte>, lo: nat, hi: nat) {
    |after| == |before| && forall i :: 0 <= i < |before| && !(lo <= i < hi) ==> after[i] == before[i]
  }

  /** What was printed stands in the buffer, and nothing else of it has changed. */
  lemma PrintedBytes(enc: seq<byte>, printable: bool, blind: bool, size: nat, offset: nat, before: seq<byte>,
                     after: seq<byte>, rc: Rc, offset': nat)
    requires size <= |before| && Printed(enc, printable, blind, true, size, offset, before, after, rc, offset')
    ensures rc == Success ==> offset' == offset + |enc|
    ensures rc == Success && enc != [] ==>
              && offset + |enc| <= size && |after| == |before|
              && after[offset..offset + |enc|] == enc
              && after[..offset] == before[..offset] && after[offset + |enc|..] == before[offset + |enc|..]
  {
  }

  lemma SpliceWithin(s: seq<byte>, off: nat, bs: seq<byte>, size: nat)
    requires |bs| <= Room(size, off)
    ensures OnlyWithin(s, Splice(s, off, bs), off, size)
  {
  }

  lemma PrintedNothing(blind: bool, present: bool, size: nat, offset: nat, before: seq<byte>)
    ensures Printed([], true, blind, present, size, offset, before, before, Success, offset)
  {
  }

  /** Two successful writes in a row are one write of both. */
  lemma PrintedThen(a: seq<byte>, pa: bool, ba: bool, b: seq<byte>, pb: bool, bb: bool, present: bool, size: nat,
                    offset: nat, before: seq<byte>, mid: seq<byte>, after: seq<byte>, local: nat, rc: Rc, offset': nat)
    requires present ==> size <= |before|
    requires !present ==> before == []
    requires Printed(a, pa, ba, present, size, offset, before, mid, Success, local)
    requires Printed(b, pb, bb, present, size, local, mid, after, rc, offset')
    ensures Printed(a + b, pa && pb, ba && bb, present, size, offset, before, after, rc,
                    if rc == Success then offset' else offset)
  {
    if rc == Success {
      if present {
        if a == [] {
          assert a + b == b;
        } else if b == [] {
          assert a + b == a;
        } else {
          SpliceSplice(before, offset, a, b);
        }
      }
    } else if present {
      SpliceWithin(before, offset, a, size);
    }
  }

  /** A failure of the first of two writes is the failure of both. */
  lemma PrintedStop(a: seq<byte>, pa: bool, ba: bool, b: seq<byte>, pb: bool, bb: bool, present: bool, size: nat,
                    offset: nat, before: seq<byte>, after: seq<byte>, rc: Rc, local: nat)
    requires Printed(a, pa, ba, present, size, offset, before, after, rc, local) && rc != Success
    ensures Printed(a + b, pa && pb, ba && bb, present, size, offset, before, after, rc, offset)
  {
  }

  /** memcpy into the buffer. */
  method CopyIn(buffer: array<byte>, offset: nat, bs: seq<byte>)
    requires offset + |bs| <= buffer.Length
    modifies buffer
    ensures buffer[..] == Splice(old(buffer[..]), offset, bs)
  {
    forall i | 0 <= i < |bs| {
      buffer[offset + i] := bs[i];
    }
    assert buffer[..] == old(buffer[..])[..offset] + bs + old(buffer[..])[offset + |bs|..];
  }

  /** BASE_MARSHAL and marshal_tab: a block of known length, checked and copied at once. */
  method MarshalBlock(bs: seq<byte>, buffer: array?<byte>, size: nat, offset: nat) returns (rc: Rc, offset': nat)
    requires bs != []
    requires buffer != null ==> size <= buffer.Length
    modifies buffer
    ensures Printed(bs, true, true, buffer != null, size, offset, old(Content(buffer)), Content(buffer), rc, offset')
    ensures rc != EsysInsufficientBuffer
    ensures rc == if buffer == null || offset + |bs| <= size then Success else MuInsufficientBuffer
    ensures offset' == if rc == Success then offset + |bs| else offset
    ensures rc == Success && buffer != null ==>
              buffer[..] == old(buffer[..offset]) + bs + old(buffer[offset + |bs|..])
  {
    if buffer == null {
      return Success, offset + |bs|;
    }
    if size < offset || size - offset < |bs| {
      return MuInsufficientBuffer, offset;
    }
    CopyIn(buffer, offset, bs);
    assert buffer[..] == old(buffer[..])[..offset] + bs + old(buffer[..])[offset + |bs|..];
    return Success, offset + |bs|;
  }

  /** TPM2B_MARSHAL: size and content are checked together, then written. */
  method MarshalSized(bs: seq<byte>, buffer: array?<byte>, size: nat, offset: nat) returns (rc: Rc, offset': nat)
    requires |bs| < Pow256(2)
    requires buffer != null ==> size <= buffer.Length
    modifies buffer
    ensures Printed(ToBE(|bs|, 2) + bs, true, true, buffer != null, size, offset,
                    old(Content(buffer)), Content(buffer), rc, offset')
  {
    ghost var before, len := Content(buffer), ToBE(|bs|, 2);
    if buffer == null {
      return Success, offset + 2 + |bs|;
    }
    if size < offset || size - offset < 2 + |bs| {
      return MuInsufficientBuffer, offset;
    }
    var local;
    rc, local := MarshalBlock(ToBE(|bs|, 2), buffer, size, offset);
    ghost var mid := Content(buffer);
    if bs != [] {
      CopyIn(buffer, local, bs);
    }
    PrintedThen(len, true, true, bs, true, true, true, size, offset, before, mid,
                Content(buffer), local, Success, local + |bs|);
    return Success, local + |bs|;
  }

  /** iesys_MU_BYTE_array_Marshal, which looks at the size in any mode, even for no bytes. */
  method MarshalArray(bs: seq<byte>, buffer: array?<byte>, size: nat, offset: nat) returns (rc: Rc, offset': nat)
    requires buffer != null ==> size <= buffer.Length
    modifies buffer
    ensures rc == Success <==> |bs| <= size && offset <= size - |bs|
    ensures rc == Success ==>
              && Printed(bs, true, false, buffer != null, size, offset,
                         old(Content(buffer)), Content(buffer), rc, offset')
    ensures rc != Success ==>
              rc == EsysInsufficientBuffer && offset' == offset && Content(buffer) == old(Content(buffer))
  {
    if |bs| > size || size - |bs| < offset {
      return EsysInsufficientBuffer, offset;
    }
    if buffer != null {
      CopyIn(buffer, offset, bs);
    }
    return Success, offset + |bs|;
  }

  /** sizeSessionValue and sessionValue: a UINT16 count and the array it counts. */
  method MarshalCounted(bs: seq<byte>, buffer: array?<byte>, size: nat, offset: nat) returns (rc: Rc, offset': nat)
    requires |bs| < Pow256(2)
    requires buffer != null ==> size <= buffer.Length
    modifies buffer
    ensures Printed(ToBE(|bs|, 2) + bs, true, false, buffer != null, size, offset,
                    old(Content(buffer)), Content(buffer), rc, offset')
  {
    ghost var before, len := Content(buffer), ToBE(|bs|, 2);
    var local;
    rc, local := MarshalBlock(ToBE(|bs|, 2), buffer, size, offset);
    ghost var mid := Content(buffer);
    if rc != Success {
      PrintedStop(len, true, true, bs, true, false, buffer != null, size, offset, before, mid, rc, local);
      return rc, offset;
    }
    ghost var at := local;
    rc, local := MarshalArray(bs, buffer, size, local);
    if rc != Success {
      if buffer != null { SpliceWithin(before, offset, len, size); }
      return rc, offset;
    }
    PrintedThen(len, true, true, bs, true, false, buffer != null, size, offset, before, mid,
                Content(buffer), at, rc, local);
    return Success, local;
  }

  /** The byte-by-byte loop of a PCR selection. */
  method MarshalBits(bits: seq<byte>, buffer: array?<byte>, size: nat, offset: nat) returns (rc: Rc, offset': nat)
    requires buffer != null ==> size <= buffer.Length
    modifies buffer
    ensures Printed(bits, true, true, buffer != null, size, offset, old(Content(buffer)), Content(buffer), rc, offset')
  {
    hide Printed;
    ghost var before := Content(buffer);
    var local := offset;
    PrintedNothing(true, buffer != null, size, offset, before);
    for i := 0 to |bits|
      invariant Printed(bits[..i], true, true, buffer != null, size, offset, before, Content(buffer), Success, local)
    {
      ghost var mid, at := Content(buffer), local;
      rc, local := MarshalBlock([bits[i]], buffer, size, local);
      BitStep(bits, i, buffer != null, size, offset, before, mid, Content(buffer), at, rc, local);
      if rc != Success {
        return rc, offset;
      }
    }
    assert bits[..|bits|] == bits;
    return Success, local;
  }

  lemma BitStep(bits: seq<byte>, i: nat, present: bool, size: nat, offset: nat, before: seq<byte>, mid: seq<byte>,
                after: seq<byte>, at: nat, rc: Rc, local: nat)
    requires i < |bits|
    requires present ==> size <= |before|
    requires !present ==> before == []
    requires Printed(bits[..i], true, true, present, size, offset, before, mid, Success, at)
    requires Printed([bits[i]], true, true, present, size, at, mid, after, rc, local)
    ensures rc == Success ==> Printed(bits[..i + 1], true, true, present, size, offset, before, after, Success, local)
    ensures rc != Success ==> Printed(bits, true, true, present, size, offset, before, after, rc, offset)
  {
    hide Printed;
    var done, b, rest := bits[..i], [bits[i]], bits[i + 1..];
    assert done + b == bits[..i + 1] && bits[..i + 1] + rest == bits;
    PrintedThen(done, true, true, b, true, true, present, size, offset, before, mid, after, at, rc, local);
    if rc != Success {
      PrintedStop(done + b, true, true, rest, true, true, present, size, offset, before, after, rc, offset);
    }
  }

  /** sizeofSelect and pcrSelect. */
  method MarshalSelect(bits: seq<byte>, buffer: array?<byte>, size: nat, offset: nat) returns (rc: Rc, offset': nat)
    requires |bits| < 256
    requires buffer != null ==> size <= buffer.Length
    modifies buffer
    ensures Printed(ToBE(|bits|, 1) + bits, true, true, buffer != null, size, offset,
                    old(Content(buffer)), Content(buffer), rc, offset')
  {
    hide Printed;
    ghost var before, len := Content(buffer), ToBE(|bits|, 1);
    var local;
    rc, local := MarshalBlock(ToBE(|bits|, 1), buffer, size, offset);
    ghost var mid, at := Content(buffer), local;
    if rc != Success {
      PrintedStop(len, true, true, bits, true, true, buffer != null, size, offset, before, mid, rc, local);
      return rc, offset;
    }
    rc, local := MarshalBits(bits, buffer, size, local);
    PrintedThen(len, true, true, bits, true, true, buffer != null, size, offset, before, mid,
                Content(buffer), at, rc, local);
    offset' := if rc == Success then local else offset;
  }

  /** TPMS_PCR_MARSHAL: the size of the selection is checked before anything is written. */
  method MarshalPcr(w: nat, v: Value, buffer: array?<byte>, size: nat, offset: nat) returns (rc: Rc, offset': nat)
    requires Holds(Storable, PcrSelect(w), v)
    requires buffer != null ==> size <= buffer.Length
    modifies buffer
    ensures Printed(Encode(PcrSelect(w), v), Holds(Printable, PcrSelect(w), v), true, buffer != null, size, offset,
                    old(Content(buffer)), Content(buffer), rc, offset')
  {
    ghost var before, tag, sel := Content(buffer), ToBE(v.tag, w), ToBE(|v.bits|, 1) + v.bits;
    Assoc(tag, ToBE(|v.bits|, 1), v.bits);
    if |v.bits| > PCR_SELECT_MAX {
      return SysBadValue, offset;
    }
    hide Printed;
    var local := offset;
    PrintedNothing(true, buffer != null, size, offset, before);
    if w > 0 {
      rc, local := MarshalBlock(ToBE(v.tag, w), buffer, size, offset);
      if rc != Success {
        PrintedStop(tag, true, true, sel, true, true, buffer != null, size, offset, before, Content(buffer), rc, local);
        return rc, offset;
      }
    }
    ghost var mid, at := Content(buffer), local;
    rc, local := MarshalSelect(v.bits, buffer, size, local);
    PrintedThen(tag, true, true, sel, true, true, buffer != null, size, offset, before, mid,
                Content(buffer), at, rc, local);
    offset' := if rc == Success then local else offset;
  }

  /** Any format: the dispatch the generated functions make by name. */
  method Marshal(f: Format, v: Value, buffer: array?<byte>, size: nat, offset: nat) returns (rc: Rc, offset': nat)
    requires Holds(Storable, f, v)
    requires buffer != null ==> size <= buffer.Length
    modifies buffer
    ensures Printed(Encode(f, v), Holds(Printable, f, v), SizeBlind(f), buffer != null, size, offset,
                    old(Content(buffer)), Content(buffer), rc, offset')
    decreases f, 0
  {
    hide Printed;
    match f {
      case UInt(w) => rc, offset' := MarshalBlock(ToBE(v.n, w), buffer, size, offset);
      case Enum32(_) => rc, offset' := MarshalBlock(ToBE(v.n, 4), buffer, size, offset);
      case Sized(_) => rc, offset' := MarshalSized(v.bs, buffer, size, offset);
      case Counted(_) => rc, offset' := MarshalCounted(v.bs, buffer, size, offset);
      case Raw(_) => rc, offset' := MarshalBlock(v.bs, buffer, size, offset);
      case PcrSelect(w) => rc, offset' := MarshalPcr(w, v, buffer, size, offset);
      case List(cap, e) => rc, offset' := MarshalList(cap, e, v.items, buffer, size, offset);
      case Record(fs) => rc, offset' := MarshalFields(fs, [], v.vals, buffer, size, offset);
    }
  }

  /** TPML_MARSHAL. Without a buffer the elements are written to a local one of the given
      size, so this one macro needs the room even to measure. */
  method MarshalList(cap: nat, e: Format, vs: seq<Value>, buffer: array?<byte>, size: nat, offset: nat)
    returns (rc: Rc, offset': nat)
    requires Holds(Storable, List(cap, e), Items(vs))
    requires buffer != null ==> size <= buffer.Length
    modifies buffer
    ensures Printed(Encode(List(cap, e), Items(vs)), Holds(Printable, List(cap, e), Items(vs)), false,
                    buffer != null, size, offset, old(Content(buffer)), Content(buffer), rc, offset')
    decreases e, 2
  {
    if size < offset || size - offset < 4 {
      return MuInsufficientBuffer, offset;
    }
    if |vs| > cap {
      return SysBadValue, offset;
    }
    var target: array<byte>;
    if buffer == null {
      target := new byte[size];
    } else {
      target := buffer;
    }
    ghost var start, count, rest := target[..], ToBE(|vs|, 4), EncodeAll(e, vs);
    ghost var okAll := HoldsAll(Printable, e, vs);
    var local;
    rc, local := MarshalBlock(ToBE(|vs|, 4), target, size, offset);
    ghost var mid, at := target[..], local;
    rc, local := MarshalItems(e, vs, target, size, local);
    PrintedThen(count, true, true, rest, okAll, false, true, size, offset, start, mid, target[..], at, rc, local);
    offset' := if rc == Success then local else offset;
  }

  /** The bytes of the elements from the i-th on, and whether they hold. */
  ghost function BytesFrom(e: Format, vs: seq<Value>, i: nat): seq<byte>
    requires i <= |vs|
  {
    EncodeAll(e, vs[i..])
  }

  ghost predicate HoldFrom(g: Grade, e: Format, vs: seq<Value>, i: nat)
    requires i <= |vs|
  {
    HoldsAll(g, e, vs[i..])
  }

  /** The loop of TPML_MARSHAL over the elements. */
  method MarshalItems(e: Format, vs: seq<Value>, buffer: array<byte>, size: nat, offset: nat)
    returns (rc: Rc, offset': nat)
    requires HoldsAll(Storable, e, vs)
    requires size <= buffer.Length
    modifies buffer
    ensures Printed(EncodeAll(e, vs), HoldsAll(Printable, e, vs), false, true, size, offset,
                    old(buffer[..]), buffer[..], rc, offset')
    decreases e, 1
  {
    hide Printed;
    ghost var start, done := buffer[..], [];
    var local := offset;
    PrintedNothing(false, true, size, offset, start);
    ItemsBounds(e, vs);
    for i := 0 to |vs|
      invariant EncodeAll(e, vs) == done + BytesFrom(e, vs, i)
      invariant HoldFrom(Storable, e, vs, i)
      invariant HoldsAll(Printable, e, vs) == HoldFrom(Printable, e, vs, i)
      invariant Printed(done, true, false, true, size, offset, start, buffer[..], Success, local)
    {
      hide BytesFrom, HoldFrom;
      ghost var mid, one, at := buffer[..], Encode(e, vs[i]), local;
      ItemsSplit(e, vs, i, done);
      rc, local := Marshal(e, vs[i], buffer, size, local);
      PrintedMore(done, one, Holds(Printable, e, vs[i]), SizeBlind(e), BytesFrom(e, vs, i + 1),
                  HoldFrom(Printable, e, vs, i + 1), size, offset, start, mid, buffer[..], at, rc, local);
      if rc != Success {
        return rc, offset;
      }
      done := done + one;
    }
    assert done + [] == done;
    return Success, local;
  }

  lemma ItemsBounds(e: Format, vs: seq<Value>)
    ensures BytesFrom(e, vs, 0) == EncodeAll(e, vs) && BytesFrom(e, vs, |vs|) == []
    ensures forall g :: HoldFrom(g, e, vs, 0) == HoldsAll(g, e, vs) && HoldFrom(g, e, vs, |vs|)
  {
    assert vs[0..] == vs && vs[|vs|..] == [];
  }

  lemma ItemsSplit(e: Format, vs: seq<Value>, i: nat, done: seq<byte>)
    requires i < |vs|
    ensures done + BytesFrom(e, vs, i) == done + Encode(e, vs[i]) + BytesFrom(e, vs, i + 1)
    ensures HoldFrom(Storable, e, vs, i) == (Holds(Storable, e, vs[i]) && HoldFrom(Storable, e, vs, i + 1))
    ensures HoldFrom(Printable, e, vs, i) == (Holds(Printable, e, vs[i]) && HoldFrom(Printable, e, vs, i + 1))
  {
    assert vs[i..][0] == vs[i] && vs[i..][1..] == vs[i + 1..];
  }

  /** One element more: the printed prefix grows by it, or the whole list fails with it. */
  lemma PrintedMore(done: seq<byte>, one: seq<byte>, ok: bool, blind: bool, rest: seq<byte>, okRest: bool, size: nat,
                    offset: nat, start: seq<byte>, mid: seq<byte>, after: seq<byte>, at: nat, rc: Rc, local: nat)
    requires size <= |start|
    requires Printed(done, true, false, true, size, offset, start, mid, Success, at)
    requires Printed(one, ok, blind, true, size, at, mid, after, rc, local)
    ensures rc == Success ==> ok && Printed(done + one, true, false, true, size, offset, start, after, Success, local)
    ensures rc != Success ==>
              Printed(done + one + rest, ok && okRest, false, true, size, offset, start, after, rc, offset)
  {
    PrintedThen(done, true, false, one, ok, blind, true, size, offset, start, mid, after, at, rc, local);
    if rc != Success {
      PrintedStop(done + one, ok, false, rest, okRest, false, true, size, offset, start, after, rc, offset);
    }
  }

  /** The field calls of a TPMS or TPMT record, first to last. */
  method MarshalFields(fs: Fields, env: seq<Value>, vs: seq<Value>, buffer: array?<byte>, size: nat, offset: nat)
    returns (rc: Rc, offset': nat)
    requires HoldsFields(Storable, fs, env, vs)
    requires buffer != null ==> size <= buffer.Length
    modifies buffer
    ensures Printed(EncodeFields(fs, env, vs), HoldsFields(Printable, fs, env, vs), SizeBlindFields(fs), buffer != null,
                    size, offset, old(Content(buffer)), Content(buffer), rc, offset')
    decreases fs
  {
    hide Printed;
    if fs == End {
      PrintedNothing(true, buffer != null, size, offset, Content(buffer));
      return Success, offset;
    }
    var local;
    ghost var before := Content(buffer);
    ghost var one, okOne, blindOne;
    match fs {
      case Plain(h, _) =>
        one, okOne, blindOne := Encode(h, vs[0]), Holds(Printable, h, vs[0]), SizeBlind(h);
        rc, local := Marshal(h, vs[0], buffer, size, offset);
      case Choice(sel, _, cs, _) =>
        var tag := SelectorOf(env, sel);
        one, okOne, blindOne := EncodeCase(cs, tag, vs[0]), HoldsCase(Printable, cs, tag, vs[0]), SizeBlindCases(cs);
        rc, local := MarshalCase(cs, tag, vs[0], buffer, size, offset);
    }
    ghost var mid, at := Content(buffer), local;
    ghost var rest := EncodeFields(fs.tail, env + [vs[0]], vs[1..]);
    ghost var okRest := HoldsFields(Printable, fs.tail, env + [vs[0]], vs[1..]);
    ghost var blindRest := SizeBlindFields(fs.tail);
    if rc != Success {
      PrintedStop(one, okOne, blindOne, rest, okRest, blindRest, buffer != null, size, offset, before, mid, rc, local);
      return rc, offset;
    }
    rc, local := MarshalFields(fs.tail, env + [vs[0]], vs[1..], buffer, size, local);
    PrintedThen(one, okOne, blindOne, rest, okRest, blindRest, buffer != null, size, offset, before, mid,
                Content(buffer), at, rc, local);
    offset' := if rc == Success then local else offset;
  }

  /** TPMU_MARSHAL: the switch over the selector; an unknown selector writes nothing. */
  method MarshalCase(cs: Cases, tag: nat, v: Value, buffer: array?<byte>, size: nat, offset: nat)
    returns (rc: Rc, offset': nat)
    requires HoldsCase(Storable, cs, tag, v)
    requires buffer != null ==> size <= buffer.Length
    modifies buffer
    ensures Printed(EncodeCase(cs, tag, v), HoldsCase(Printable, cs, tag, v), SizeBlindCases(cs), buffer != null,
                    size, offset, old(Content(buffer)), Content(buffer), rc, offset')
    decreases cs
  {
    hide Printed;
    match cs {
      case NoCase =>
        PrintedNothing(true, buffer != null, size, offset, Content(buffer));
        return Success, offset;
      case Case(t, b, others) =>
        if t == tag {
          rc, offset' := Marshal(b, v, buffer, size, offset);
          PrintedWeaker(EncodeCase(cs, tag, v), HoldsCase(Printable, cs, tag, v), SizeBlind(b), SizeBlindCases(cs),
                        buffer != null, size, offset, old(Content(buffer)), Content(buffer), rc, offset');
        } else {
          rc, offset' := MarshalCase(others, tag, v, buffer, size, offset);
          PrintedWeaker(EncodeCase(cs, tag, v), HoldsCase(Printable, cs, tag, v), SizeBlindCases(others),
                        SizeBlindCases(cs), buffer != null, size, offset,
                        old(Content(buffer)), Content(buffer), rc, offset');
        }
    }
  }

  /** Knowing less about the size query. */
  lemma PrintedWeaker(enc: seq<byte>, printable: bool, blind: bool, blind': bool, present: bool, size: nat,
                      offset: nat, before: seq<byte>, after: seq<byte>, rc: Rc, offset': nat)
    requires Printed(enc, printable, blind, present, size, offset, before, after, rc, offset')
    requires blind' ==> blind
    ensures Printed(enc, printable, blind', present, size, offset, before, after, rc, offset')
  {
  }
}
