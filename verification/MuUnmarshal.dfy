/**
 The unmarshaling functions of src/tss2-mu. `dest` says whether the caller passed a place
 for the value; without one the functions only move the offset.
 */
module MuUnmarshal {
  import opened TpmBase
  import opened MuFormat

  /** What can still be read at `offset`; an offset past the size leaves nothing. */
  ghost function Rest(buffer: array<byte>, size: nat, offset: nat): (r: seq<byte>)
    requires size <= buffer.Length
    reads buffer
  {
    if offset <= size then buffer[offset..size] else []
  }

  lemma RestDrop(buffer: array<byte>, size: nat, offset: nat, n: nat)
    requires size <= buffer.Length
    ensures Rest(buffer, size, offset + n) == Drop(Rest(buffer, size, offset), n)
  {
  }

  lemma RestSlice(buffer: array<byte>, size: nat, offset: nat, a: nat, n: nat)
    requires size <= buffer.Length && offset + a + n <= size
    ensures |Rest(buffer, size, offset)| == size - offset
    ensures Rest(buffer, size, offset)[a..a + n] == buffer[offset + a..offset + a + n]
  {
  }

  /** The call returned what `p` says; on failure, short of a write out of bounds, the offset
      stays where it was. */
  ghost predicate Parsed<T>(p: Parse<T>, rc: Rc, offset: nat, offset': nat, v: T) {
    match p
    case Ok(w, n) => rc == Success && offset' == offset + n && v == w
    case Err(e) => rc == e && rc != Success && (rc != OutOfBounds ==> offset' == offset)
  }

  lemma ParsedErr<T>(rc: Rc, offset: nat, v: T)
    requires rc != Success
    ensures Parsed(Err(rc), rc, offset, offset, v)
  {
  }

  /** BASE_UNMARSHAL */
  method UnmarshalBase(w: pos, buffer: array<byte>, size: nat, offset: nat) returns (rc: Rc, offset': nat, n: nat)
    requires size <= buffer.Length
    ensures Parsed(Decode(UInt(w), Rest(buffer, size, offset), true), rc, offset, offset', Num(n))
    ensures rc == if offset + w <= size then Success else MuInsufficientBuffer
    ensures offset' == if rc == Success then offset + w else offset
    ensures rc == Success ==> n == FromBE(buffer[offset..offset + w])
  {
    if size < offset || w > size - offset {
      return MuInsufficientBuffer, offset, 0;
    }
    RestSlice(buffer, size, offset, 0, w);
    return Success, offset + w, FromBE(buffer[offset..offset + w]);
  }

  /** TPM2B_UNMARSHAL */
  method UnmarshalSized(cap: nat, buffer: array<byte>, size: nat, offset: nat, dest: bool)
    returns (rc: Rc, offset': nat, v: Value)
    requires size <= buffer.Length
    ensures Parsed(Decode(Sized(cap), Rest(buffer, size, offset), dest), rc, offset, offset', v)
  {
    hide FromBE;
    var local, n;
    rc, local, n := UnmarshalBase(2, buffer, size, offset);
    if rc != Success {
      return rc, offset, Absent;
    }
    if n > size - local || cap < n {
      return MuInsufficientBuffer, offset, Absent;
    }
    RestSlice(buffer, size, offset, 2, n);
    return Success, local + n, if dest then Bytes(buffer[local..local + n]) else Absent;
  }

  /** A UINT16 count, then iesys_MU_BYTE_array_Unmarshal. */
  method UnmarshalCounted(cap: nat, buffer: array<byte>, size: nat, offset: nat, dest: bool)
    returns (rc: Rc, offset': nat, v: Value)
    requires size <= buffer.Length
    ensures Parsed(Decode(Counted(cap), Rest(buffer, size, offset), dest), rc, offset, offset', v)
  {
    hide FromBE;
    var local, n;
    rc, local, n := UnmarshalBase(2, buffer, size, offset);
    if rc != Success {
      return rc, offset, Absent;
    }
    if n > size || size - n < local {
      return EsysInsufficientBuffer, offset, Absent;
    }
    if dest && cap < n {
      return OutOfBounds, offset, Absent; // memcpy leaves the array
    }
    RestSlice(buffer, size, offset, 2, n);
    return Success, local + n, if dest then Bytes(buffer[local..local + n]) else Absent;
  }

  /** The constants of the ESYS layer: a UINT32 from a fixed list. */
  method UnmarshalEnum(allowed: seq<nat>, buffer: array<byte>, size: nat, offset: nat)
    returns (rc: Rc, offset': nat, n: nat)
    requires size <= buffer.Length
    ensures Parsed(Decode(Enum32(allowed), Rest(buffer, size, offset), true), rc, offset, offset', Num(n))
  {
    var local;
    rc, local, n := UnmarshalBase(4, buffer, size, offset);
    if rc != Success {
      return rc, offset, n;
    }
    if n !in allowed {
      return SysBadValue, offset, n;
    }
    return Success, local, n;
  }

  /** unmarshal_tab: skipping does not look at the buffer size. */
  method UnmarshalTab(len: pos, buffer: array<byte>, size: nat, offset: nat, dest: bool)
    returns (rc: Rc, offset': nat, v: Value)
    requires size <= buffer.Length
    ensures Parsed(Decode(Raw(len), Rest(buffer, size, offset), dest), rc, offset, offset', v)
  {
    if !dest {
      return Success, offset + len, Absent;
    }
    if size < offset || len > size - offset {
      return MuInsufficientBuffer, offset, Absent;
    }
    RestSlice(buffer, size, offset, 0, len);
    return Success, offset + len, Bytes(buffer[offset..offset + len]);
  }

  /** BYTE_Unmarshal and UINT8_Unmarshal */
  method UnmarshalByte(buffer: array<byte>, size: nat, offset: nat) returns (rc: Rc, offset': nat, b: byte)
    requires size <= buffer.Length
    ensures offset < size ==> rc == Success && offset' == offset + 1 && b == buffer[offset]
    ensures size <= offset ==> rc == MuInsufficientBuffer && offset' == offset
  {
    if size < offset || 1 > size - offset {
      return MuInsufficientBuffer, offset, 0;
    }
    return Success, offset + 1, buffer[offset];
  }

  /** The byte-by-byte loop of a PCR selection. */
  method UnmarshalBits(n: nat, buffer: array<byte>, size: nat, offset: nat)
    returns (rc: Rc, offset': nat, bits: seq<byte>)
    requires size <= buffer.Length && offset <= size
    ensures n <= size - offset ==> rc == Success && offset' == offset + n && bits == buffer[offset..offset + n]
    ensures size - offset < n ==> rc == MuInsufficientBuffer
  {
    var local := offset;
    bits := [];
    for i := 0 to n
      invariant local == offset + i <= size
      invariant bits == buffer[offset..local]
    {
      var b;
      rc, local, b := UnmarshalByte(buffer, size, local);
      if rc != Success {
        return rc, offset, [];
      }
      bits := bits + [b];
    }
    return Success, local, bits;
  }

  /** The tag in front of a PCR selection, if the structure has one. */
  method UnmarshalPcrTag(w: nat, buffer: array<byte>, size: nat, offset: nat) returns (rc: Rc, offset': nat, tag: nat)
    requires size <= buffer.Length
    ensures rc == Success <==> w == 0 || offset + w <= size
    ensures rc == Success ==>
              offset' == offset + w && tag == if w == 0 then 0 else FromBE(buffer[offset..offset + w])
    ensures rc != Success ==> rc == MuInsufficientBuffer
  {
    if w == 0 {
      return Success, offset, 0;
    }
    rc, offset', tag := UnmarshalBase(w, buffer, size, offset);
    if rc == Success { RestSlice(buffer, size, offset, 0, w); }
  }

  /** TPMS_PCR_UNMARSHAL */
  method UnmarshalPcr(w: nat, buffer: array<byte>, size: nat, offset: nat, dest: bool)
    returns (rc: Rc, offset': nat, v: Value)
    requires size <= buffer.Length
    ensures Parsed(Decode(PcrSelect(w), Rest(buffer, size, offset), dest), rc, offset, offset', v)
  {
    hide Decode, Rest, FromBE;
    ghost var rest := Rest(buffer, size, offset);
    DecodePcr(w, rest, dest);
    RestShort(buffer, size, offset);
    var local, tag, n, bits;
    rc, local, tag := UnmarshalPcrTag(w, buffer, size, offset);
    if rc != Success {
      return rc, offset, Absent;
    }
    rc, local, n := UnmarshalByte(buffer, size, local);
    if rc != Success {
      return rc, offset, Absent;
    }
    RestSlice(buffer, size, offset, 0, w);
    RestSlice(buffer, size, offset, w, 1);
    assert rest[w] == n by { assert rest[w..w + 1][0] == buffer[offset + w..offset + w + 1][0]; }
    if n > PCR_SELECT_MAX {
      return SysMalformedResponse, offset, Absent;
    }
    rc, local, bits := UnmarshalBits(n, buffer, size, local);
    if rc != Success {
      return rc, offset, Absent;
    }
    RestSlice(buffer, size, offset, w + 1, n);
    NoBytes(rest[..w]);
    return Success, local, if dest then Pcr(tag, bits) else Absent;
  }

  lemma NoBytes(bs: seq<byte>)
    ensures bs == [] ==> FromBE(bs) == 0
  {
  }

  lemma RestShort(buffer: array<byte>, size: nat, offset: nat)
    requires size <= buffer.Length
    ensures |Rest(buffer, size, offset)| == if offset <= size then size - offset else 0
  {
  }

  /** Reading a PCR selection: tag, size byte, and as many bytes as that says. */
  lemma DecodePcr(w: nat, input: seq<byte>, dest: bool)
    ensures var p := Decode(PcrSelect(w), input, dest);
            if |input| < w + 1 then p == Err(MuInsufficientBuffer)
            else if input[w] > PCR_SELECT_MAX then p == Err(SysMalformedResponse)
            else if |input| < w + 1 + input[w] then p == Err(MuInsufficientBuffer)
            else p == Ok(if dest then Pcr(FromBE(input[..w]), input[w + 1..w + 1 + input[w]]) else Absent,
                         w + 1 + input[w])
  {
    hide FromBE;
  }

  /** Any format: the dispatch the generated functions make by name. */
  method Unmarshal(f: Format, buffer: array<byte>, size: nat, offset: nat, dest: bool)
    returns (rc: Rc, offset': nat, v: Value)
    requires size <= buffer.Length
    ensures Parsed(Decode(f, Rest(buffer, size, offset), dest), rc, offset, offset', v)
    decreases f, 0
  {
    match f {
      case UInt(w) =>
        var n;
        rc, offset', n := UnmarshalBase(w, buffer, size, offset);
        v := Num(n);
      case Enum32(allowed) =>
        var n;
        rc, offset', n := UnmarshalEnum(allowed, buffer, size, offset);
        v := Num(n);
      case Sized(cap) => rc, offset', v := UnmarshalSized(cap, buffer, size, offset, dest);
      case Counted(cap) => rc, offset', v := UnmarshalCounted(cap, buffer, size, offset, dest);
      case Raw(len) => rc, offset', v := UnmarshalTab(len, buffer, size, offset, dest);
      case PcrSelect(w) => rc, offset', v := UnmarshalPcr(w, buffer, size, offset, dest);
      case List(cap, e) => rc, offset', v := UnmarshalList(cap, e, buffer, size, offset, dest);
      case Record(fs) =>
        var vs;
        rc, offset', vs := UnmarshalFields(fs, [], buffer, size, offset, dest);
        v := if dest then Rec(vs) else Absent;
    }
  }

  /** TPML_UNMARSHAL */
  method UnmarshalList(cap: nat, e: Format, buffer: array<byte>, size: nat, offset: nat, dest: bool)
    returns (rc: Rc, offset': nat, v: Value)
    requires size <= buffer.Length
    ensures Parsed(Decode(List(cap, e), Rest(buffer, size, offset), dest), rc, offset, offset', v)
    decreases e, 2
  {
    var local, n, vs;
    rc, local, n := UnmarshalBase(4, buffer, size, offset);
    if rc != Success {
      return rc, offset, Absent;
    }
    if n > cap {
      return SysMalformedResponse, offset, Absent;
    }
    RestDrop(buffer, size, offset, 4);
    rc, local, vs := UnmarshalItems(e, n, buffer, size, local, dest);
    return rc, if rc == Success then local else offset, if dest then Items(vs) else Absent;
  }

  /** What was read so far, followed by what `p` still reads. */
  ghost function Joined(vs: seq<Value>, n: nat, p: Parse<seq<Value>>): Parse<seq<Value>> {
    match p
    case Err(rc) => Err(rc)
    case Ok(ws, m) => Ok(vs + ws, n + m)
  }

  /** One element more: it joins what was read, or its failure is the list's. */
  lemma ItemsStep(e: Format, rest: seq<byte>, count: nat, dest: bool, whole: Parse<seq<Value>>, vs: seq<Value>,
                  used: nat, rc: Rc, at: nat, local: nat, v: Value)
    requires count > 0
    requires whole == Joined(vs, used, DecodeAll(e, rest, count, dest))
    requires Parsed(Decode(e, rest, dest), rc, at, local, v)
    ensures rc == Success ==>
              at <= local
              && whole == Joined(vs + [v], used + local - at, DecodeAll(e, Drop(rest, local - at), count - 1, dest))
    ensures rc != Success ==> whole == Err(rc)
  {
    if rc == Success {
      JoinedStep(vs, used, v, local - at, DecodeAll(e, Drop(rest, local - at), count - 1, dest));
    }
  }

  lemma JoinedStart(p: Parse<seq<Value>>)
    ensures Joined([], 0, p) == p
  {
    if p.Ok? { assert [] + p.value == p.value; }
  }

  lemma JoinedEnd(vs: seq<Value>, n: nat)
    ensures Joined(vs, n, Ok([], 0)) == Ok(vs, n)
  {
    assert vs + [] == vs;
  }

  lemma JoinedStep(vs: seq<Value>, n: nat, v: Value, m: nat, p: Parse<seq<Value>>)
    ensures Joined(vs, n, Prepend(v, m, p)) == Joined(vs + [v], n + m, p)
  {
    if p.Ok? { Assoc(vs, [v], p.value); }
  }

  /** The loop of TPML_UNMARSHAL over the elements. */
  method UnmarshalItems(e: Format, count: nat, buffer: array<byte>, size: nat, offset: nat, dest: bool)
    returns (rc: Rc, offset': nat, vs: seq<Value>)
    requires size <= buffer.Length
    ensures Parsed(DecodeAll(e, Rest(buffer, size, offset), count, dest), rc, offset, offset', vs)
    decreases e, 1
  {
    hide Joined, Decode;
    ghost var whole := DecodeAll(e, Rest(buffer, size, offset), count, dest);
    var local := offset;
    vs := [];
    JoinedStart(whole);
    for i := 0 to count
      invariant offset <= local
      invariant whole == Joined(vs, local - offset, DecodeAll(e, Rest(buffer, size, local), count - i, dest))
    {
      hide Parsed, Rest, DecodeAll;
      ghost var at, rest := local, Rest(buffer, size, local);
      var v;
      rc, local, v := Unmarshal(e, buffer, size, local, dest);
      ItemsStep(e, rest, count - i, dest, whole, vs, at - offset, rc, at, local, v);
      if rc != Success {
        ParsedErr<seq<Value>>(rc, offset, []);
        return rc, offset, [];
      }
      RestDrop(buffer, size, at, local - at);
      vs := vs + [v];
    }
    JoinedEnd(vs, local - offset);
    return Success, local, vs;
  }

  /** The outcome of the first field, whose selector is among the fields before it. */
  ghost function HeadField(fs: Fields, input: seq<byte>, env: seq<Value>, dest: bool): Parse<Value>
    requires fs != End
  {
    match fs
    case Plain(h, _) => Decode(h, input, dest)
    case Choice(sel, zeroSkip, cs, _) =>
      DecodeCase(cs, if zeroSkip && !dest then 0 else SelectorOf(env, sel), input, dest)
  }

  lemma FieldsUnfold(fs: Fields, input: seq<byte>, env: seq<Value>, dest: bool)
    ensures fs == End ==> DecodeFields(fs, input, env, dest) == Ok([], 0)
    ensures fs != End ==>
              var p := HeadField(fs, input, env, dest);
              DecodeFields(fs, input, env, dest) ==
              if p.Err? then Err(p.rc)
              else Prepend(p.value, p.used, DecodeFields(fs.tail, Drop(input, p.used), env + [p.value], dest))
  {
    hide Decode, DecodeCase, Drop, Prepend;
  }

  lemma PlainHead(h: Format, t: Fields, input: seq<byte>, env: seq<Value>, dest: bool)
    ensures HeadField(Plain(h, t), input, env, dest) == Decode(h, input, dest)
  {
    hide Decode;
  }

  lemma ChoiceHead(sel: nat, zeroSkip: bool, cs: Cases, t: Fields, input: seq<byte>, env: seq<Value>, dest: bool)
    ensures HeadField(Choice(sel, zeroSkip, cs, t), input, env, dest)
            == DecodeCase(cs, if zeroSkip && !dest then 0 else SelectorOf(env, sel), input, dest)
  {
    hide DecodeCase;
  }

  /** The field calls of a TPMS or TPMT record, first to last. */
  method UnmarshalFields(fs: Fields, env: seq<Value>, buffer: array<byte>, size: nat, offset: nat, dest: bool)
    returns (rc: Rc, offset': nat, vs: seq<Value>)
    requires size <= buffer.Length
    ensures Parsed(DecodeFields(fs, Rest(buffer, size, offset), env, dest), rc, offset, offset', vs)
    decreases fs
  {
    hide DecodeFields, Decode, DecodeCase, HeadField, Rest, Drop, SelectorOf;
    ghost var rest := Rest(buffer, size, offset);
    FieldsUnfold(fs, rest, env, dest);
    if fs == End {
      return Success, offset, [];
    }
    var local, v;
    match fs {
      case Plain(h, t) =>
        PlainHead(h, t, rest, env, dest);
        rc, local, v := Unmarshal(h, buffer, size, offset, dest);
      case Choice(sel, zeroSkip, cs, t) =>
        ChoiceHead(sel, zeroSkip, cs, t, rest, env, dest);
        var tag := if zeroSkip && !dest then 0 else SelectorOf(env, sel);
        rc, local, v := UnmarshalCase(cs, tag, buffer, size, offset, dest);
    }
    if rc != Success {
      return rc, offset, [];
    }
    RestDrop(buffer, size, offset, local - offset);
    rc, local, vs := UnmarshalFields(fs.tail, env + [v], buffer, size, local, dest);
    return rc, if rc == Success then local else offset, [v] + vs;
  }

  /** TPMU_UNMARSHAL */
  method UnmarshalCase(cs: Cases, tag: nat, buffer: array<byte>, size: nat, offset: nat, dest: bool)
    returns (rc: Rc, offset': nat, v: Value)
    requires size <= buffer.Length
    ensures Parsed(DecodeCase(cs, tag, Rest(buffer, size, offset), dest), rc, offset, offset', v)
    decreases cs
  {
    match cs {
      case NoCase => return Success, offset, Absent;
      case Case(t, b, others) =>
        if t == tag {
          rc, offset', v := Unmarshal(b, buffer, size, offset, dest);
        } else {
          rc, offset', v := UnmarshalCase(others, tag, buffer, size, offset, dest);
        }
    }
  }
}
