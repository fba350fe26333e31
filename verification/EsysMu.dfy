/**
 Resource metadata of the ESYS layer and its wire form: sized structures whose length is
 patched in afterwards, the session record, the resource union, and the resource itself.
 */
module EsysMu {
  import opened TpmBase
  import opened MuFormat
  import opened MuLaws
  import opened MuBounds
  import opened MuMarshal
  import opened MuUnmarshal
  import opened TpmFormats

  const NAME_MAX: nat := 68
  const DIGEST_MAX: nat := 64
  const SECRET_MAX: nat := 512
  const SESSION_VALUE_MAX: nat := 128

  const WITHOUT_MISC_RSRC: nat := 0
  const KEY_RSRC: nat := 1
  const NV_RSRC: nat := 2
  const SESSION_RSRC: nat := 3

  datatype SymDef = SymDef(algorithm: nat, keyBits: nat, mode: nat)

  /** IESYS_SESSION; `sessionValue` is the whole array, of which `sizeSessionValue` bytes count. */
  datatype Session = Session(
    boundEntity: seq<byte>, encryptedSalt: seq<byte>, salt: seq<byte>, symmetric: SymDef, authHash: nat,
    sessionKey: seq<byte>, sessionType: nat, attributes: nat, nonceCaller: seq<byte>, nonceTPM: seq<byte>,
    encrypt: nat, decrypt: nat, typePolicy: nat,
    sizeSessionValue: nat, sessionValue: seq<byte>, sizeHmacValue: nat)

  /** The resource union under its selector. The sized public areas keep the size field that
      is stored next to them. */
  datatype Misc =
    | NoMisc
    | KeyRsrc(keySize: nat, pub: Value)
    | NvRsrc(nvSize: nat, nv: Value)
    | SessionRsrc(session: Session)
    | OtherMisc(tag: nat)

  datatype Resource = Resource(handle: nat, name: seq<byte>, misc: Misc)

  function Zeros(n: nat): (z: seq<byte>)
    ensures |z| == n && forall i :: 0 <= i < n ==> z[i] == 0
  {
    seq(n, i => 0)
  }

  // ---------------------------------------------------------------- sized structures

  /** A TPM2B around a structure: the true length, then the structure. */
  function EncodeSub(f: Format, v: Value): seq<byte> {
    ToBE(|Encode(f, v)|, 2) + Encode(f, v)
  }

  datatype Sub = Sub(size: nat, member: Value)

  /** Reading one. The structure is parsed from all that follows, not from the `n` bytes the
      size announces, and its return code is dropped: a member that cannot be parsed is left
      alone (here: Absent) and the position stays behind the size field. */
  function DecodeSub(f: Format, oldSize: nat, input: seq<byte>, dest: bool): Parse<Sub> {
    if |input| < 2 then Err(MuInsufficientBuffer)
    else if dest && oldSize != 0 then Err(SysBadValue)
    else
      var n := FromBE(input[..2]);
      if n > |input| - 2 || SizeOf(f) < n then Err(MuInsufficientBuffer)
      else if !dest then Ok(Sub(n, Absent), 2 + n)
      else
        match Decode(f, input[2..], true)
        case Ok(v, m) => Ok(Sub(n, v), 2 + m)
        case Err(rc) => if rc == OutOfBounds then Err(rc) else Ok(Sub(n, Absent), 2)
  }

  lemma SubRoundTrip(f: Format, v: Value, tail: seq<byte>)
    requires Holds(WellFormed, f, v) && SizeOf(f) < Pow256(2)
    ensures DecodeSub(f, 0, EncodeSub(f, v) + tail, true) == Ok(Sub(|Encode(f, v)|, v), |EncodeSub(f, v)|)
  {
    var len, body := ToBE(|Encode(f, v)|, 2), Encode(f, v);
    GradesNested(f, v);
    EncodeBounded(f, v);
    EncodingFitsStruct(f);
    FromToBE(|body|, 2);
    Assoc(len, body, tail);
    SplitFront(len, body + tail);
    RoundTrip(f, v, tail);
  }

  /** When a sized structure is read, printing it again gives the bytes that were consumed
      exactly when the member was parsed and is as long as the size announced. */
  lemma SubCanonicalIff(f: Format, input: seq<byte>)
    requires f.Record? && SizeOf(f) < Pow256(2) && DecodeSub(f, 0, input, true).Ok?
    ensures var p, inner := DecodeSub(f, 0, input, true), Decode(f, input[2..], true);
            && p.used <= |input|
            && (Holds(WellFormed, f, p.value.member) && EncodeSub(f, p.value.member) == input[..p.used]
                <==> inner.Ok? && inner.used == FromBE(input[..2]))
  {
    var p, inner := DecodeSub(f, 0, input, true), Decode(f, input[2..], true);
    var head, body := input[..2], input[2..];
    ToFromBE(head);
    if inner.Ok? {
      Canonical(f, body);
      TakeDrop(input, 2, inner.used);
      GradesNested(f, inner.value);
      EncodeBounded(f, inner.value);
      EncodingFitsStruct(f);
      FromToBE(inner.used, 2);
      hide Encode, Decode, Holds;
      var len, enc := ToBE(inner.used, 2), Encode(f, inner.value);
      assert input[..p.used] == head + enc;
      if len + enc == head + enc {
        assert (len + enc)[..2] == len && (head + enc)[..2] == head;
      }
    }
  }

  /** The dropped return code at work: an empty public area is accepted. */
  lemma SubAcceptsNothing()
    ensures Decode(TPMT_PUBLIC, [], true).Err?
    ensures DecodeSub(TPMT_PUBLIC, 0, [0, 0], true) == Ok(Sub(0, Absent), 2)
  {
    assert [0, 0][..2] == [0, 0] && [0, 0][2..] == [];
    assert FromBE([0, 0]) == 0 by { assert [0, 0][..1] == [0] && [0][..0] == []; }
  }

  /** The bytes a marshal call accounts for: the true ones, or without a buffer as many as
      the stored size field says. */
  function SubBytes(f: Format, size: nat, v: Value, present: bool): seq<byte> {
    if present then EncodeSub(f, v) else Zeros(2 + size)
  }

  /** TPM2B_MARSHAL_SUBTYPE */
  method MarshalSub(f: Format, stored: nat, v: Value, buffer: array?<byte>, size: nat, offset: nat)
    returns (rc: Rc, offset': nat)
    requires Holds(Storable, f, v) && stored < Pow256(2)
    requires buffer != null ==> size <= buffer.Length
    modifies buffer
    ensures Printed(SubBytes(f, stored, v, buffer != null), buffer == null || Holds(Printable, f, v), true,
                    buffer != null,
                    size, offset, old(Content(buffer)), Content(buffer), rc, offset')
  {
    hide *;
    if buffer == null {
      ContentIs(buffer);
      SubMeasured(f, stored, v, size, offset, Content(buffer));
      return Success, offset + 2 + stored;
    }
    if size < offset || size - offset < 2 {
      SubShort(f, stored, v, size, offset, Content(buffer));
      return MuInsufficientBuffer, offset;
    }
    ContentIs(buffer);
    ghost var before, len, enc, ok := buffer[..], ToBE(stored, 2), Encode(f, v), Holds(Printable, f, v);
    SubBytesIs(f, stored, v);
    var ptr, local := offset, offset;
    rc, local := MarshalBlock(ToBE(stored, 2), buffer, size, local);
    ContentIs(buffer);
    ghost var mid, at := buffer[..], local;
    rc, local := Marshal(f, v, buffer, size, local);
    ContentIs(buffer);
    PrintedThen(len, true, true, enc, ok, SizeBlind(f), true, size, offset, before, mid, buffer[..], at, rc, local);
    if rc != Success {
      PatchNothing(len, ToBE(|enc|, 2), enc, ok, SizeBlind(f), size, offset, before, buffer[..], rc);
      return rc, offset;
    }
    // Update the size to the real value, cut to 16 bits.
    ghost var written := buffer[..];
    PrintedEnd(len + enc, true && ok, true && SizeBlind(f), size, offset, before, written, local);
    CopyIn(buffer, ptr, ToBE(local - ptr - 2, 2));
    ContentIs(buffer);
    PatchPrinted(len, ToBE(|enc|, 2), enc, ok, SizeBlind(f), size, offset, before, written, buffer[..], local);
    return Success, local;
  }

  lemma SubMeasured(f: Format, stored: nat, v: Value, size: nat, offset: nat, content: seq<byte>)
    requires content == []
    ensures Printed(SubBytes(f, stored, v, false), true, true, false, size, offset, content, content, Success,
                    offset + 2 + stored)
  {
    hide Encode;
  }

  lemma SubShort(f: Format, stored: nat, v: Value, size: nat, offset: nat, content: seq<byte>)
    requires size < offset + 2
    ensures Printed(SubBytes(f, stored, v, true), Holds(Printable, f, v), true, true, size, offset, content, content,
                    MuInsufficientBuffer, offset)
  {
    hide Encode, Holds, ToBE;
  }

  lemma PrintedEnd(enc: seq<byte>, ok: bool, blind: bool, size: nat, offset: nat, before: seq<byte>,
                   after: seq<byte>, end: nat)
    requires Printed(enc, ok, blind, true, size, offset, before, after, Success, end)
    ensures end == offset + |enc| && |after| == |before|
  {
    hide Splice;
  }

  lemma ContentIs(buffer: array?<byte>)
    ensures Content(buffer) == if buffer == null then [] else buffer[..]
  {
  }

  lemma SubBytesIs(f: Format, stored: nat, v: Value)
    ensures SubBytes(f, stored, v, true) == ToBE(|Encode(f, v)|, 2) + Encode(f, v)
  {
    hide Encode, ToBE;
  }

  /** Another size field of the same width in front of what was printed. */
  lemma PatchPrinted(a: seq<byte>, b: seq<byte>, enc: seq<byte>, ok: bool, blind: bool, size: nat, offset: nat,
                     before: seq<byte>, written: seq<byte>, now: seq<byte>, local: nat)
    requires |a| == |b| == 2 && size <= |before| && now == Splice(written, offset, b)
    requires Printed(a + enc, true && ok, true && blind, true, size, offset, before, written, Success, local)
    ensures local == offset + 2 + |enc|
    ensures Printed(b + enc, ok, true, true, size, offset, before, now, Success, local)
  {
    Patch(before, offset, a, b, enc);
    hide Splice;
  }

  lemma PatchNothing(a: seq<byte>, b: seq<byte>, enc: seq<byte>, ok: bool, blind: bool, size: nat, offset: nat,
                     before: seq<byte>, now: seq<byte>, rc: Rc)
    requires |a| == |b| && rc != Success
    requires Printed(a + enc, true && ok, true && blind, true, size, offset, before, now, rc, offset)
    ensures Printed(b + enc, ok, true, true, size, offset, before, now, rc, offset)
  {
  }

  lemma Patch(s: seq<byte>, off: nat, a: seq<byte>, b: seq<byte>, rest: seq<byte>)
    requires |a| == |b| == 2 && off + 2 + |rest| <= |s|
    ensures Splice(Splice(s, off, a + rest), off, b) == Splice(s, off, b + rest)
  {
    var t, u := Splice(s, off, a + rest), Splice(s, off, b + rest);
    var r := Splice(t, off, b);
    forall i | 0 <= i < |s| ensures r[i] == u[i] {
      if i < off { } else if i < off + 2 { assert r[i] == b[i - off]; } else { assert r[i] == t[i]; }
    }
  }

  /** TPM2B_UNMARSHAL_SUBTYPE; `oldSize` is the size field of the destination. */
  method UnmarshalSub(f: Format, oldSize: nat, buffer: array<byte>, size: nat, offset: nat, dest: bool)
    returns (rc: Rc, offset': nat, sub: Sub)
    requires size <= buffer.Length
    ensures Parsed(DecodeSub(f, oldSize, Rest(buffer, size, offset), dest), rc, offset, offset', sub)
  {
    var none := Sub(0, Absent);
    if size < offset || 2 > size - offset {
      return MuInsufficientBuffer, offset, none;
    }
    if dest && oldSize != 0 {
      return SysBadValue, offset, none;
    }
    var local, n, v, inner;
    rc, local, n := UnmarshalBase(2, buffer, size, offset);
    if n > size - local || SizeOf(f) < n {
      return MuInsufficientBuffer, offset, none;
    }
    if !dest {
      return Success, local + n, Sub(n, Absent);
    }
    RestDrop(buffer, size, offset, 2);
    inner, local, v := Unmarshal(f, buffer, size, local, true);
    if inner == OutOfBounds {
      return inner, offset, none;
    }
    return Success, local, Sub(n, if inner == Success then v else Absent);
  }
}
