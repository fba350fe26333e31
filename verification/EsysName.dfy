/** Names of objects and NV indices, computed from their public areas. */
module EsysName {
  import opened TpmBase
  import opened MuFormat
  import opened MuBounds
  import opened MuMarshal
  import opened TpmFormats
  import opened TpmUnchecked
  import opened TpmWire
  import opened EsysCrypto

  /** The array a public area is marshaled into always has room: 606 bytes at most go into
      612, and 78 into 80. */
  lemma AreaFits(f: Format, area: Value)
    requires f == TPMT_PUBLIC || f == TPMS_NV_PUBLIC
    requires Holds(Storable, f, area)
    ensures Holds(Printable, f, area)
    ensures |Encode(f, area)| <= MaxLen(f) < SizeOf(f)
  {
    PublicUnchecked();
    PublicLengths();
    PublicSizes();
    hide Unchecked, MaxLen, SizeOf, Encode;
    UncheckedPrints(f, area);
    EncodeBounded(f, area);
  }

  /** A digest with its length. */
  function HashOf(c: Crypto, alg: nat, message: seq<byte>): (d: seq<byte>)
    ensures DigestSize(alg).Some? ==> |d| == Hlen(alg)
  {
    c.hash(alg, message)
  }

  /** nameAlg, the second field of both structures. */
  function NameAlg(area: Value): nat {
    if area.Rec? && |area.vals| > 1 && area.vals[1].Num? then area.vals[1].n else ALG_NULL
  }

  lemma NameAlgThere(f: Format, area: Value)
    requires f == TPMT_PUBLIC || f == TPMS_NV_PUBLIC
    requires Holds(Storable, f, area)
    ensures area.Rec? && |area.vals| > 1 && area.vals[1] == Num(NameAlg(area)) && NameAlg(area) < Pow256(2)
  {
    hide Pow256, HoldsCase;
    var fs, vs := f.fields, area.vals;
    assert HoldsFields(Storable, fs.tail, [vs[0]], vs[1..]) by { assert [] + [vs[0]] == [vs[0]]; }
    assert vs[1..][0] == vs[1];
  }

  /** The name of a public area under its name algorithm. */
  function NameFor(c: Crypto, f: Format, area: Value): seq<byte> {
    if NameAlg(area) == ALG_NULL then [] else ToBE(NameAlg(area), 2) + HashOf(c, NameAlg(area), Encode(f, area))
  }

  lemma NameForIs(c: Crypto, f: Format, area: Value)
    requires area.Rec? && |area.vals| > 1 && area.vals[1].Num?
    ensures var alg := area.vals[1].n;
            NameFor(c, f, area) == if alg == 0x0010 then [] else ToBE(alg, 2) + c.hash(alg, Encode(f, area))
  {
    hide Encode, ToBE, Lawful;
  }

  /** The name of an NV index, over the bytes of its public area. */
  lemma NvName(c: Crypto, index: nat, nameAlg: nat, attributes: nat, policy: seq<byte>, size: nat)
    requires nameAlg != 0x0010
    ensures NameFor(c, TPMS_NV_PUBLIC, Rec([Num(index), Num(nameAlg), Num(attributes), Bytes(policy), Num(size)])) ==
            ToBE(nameAlg, 2)
            + c.hash(nameAlg, Cat([ToBE(index, 4), ToBE(nameAlg, 2), ToBE(attributes, 4), ToBE(|policy|, 2), policy,
                                   ToBE(size, 2)]))
  {
    hide *;
    var area := Rec([Num(index), Num(nameAlg), Num(attributes), Bytes(policy), Num(size)]);
    NameForIs(c, TPMS_NV_PUBLIC, area);
    NvPublicWire(index, nameAlg, attributes, policy, size);
  }

  /** The name of a key or sealed object, over the bytes of its public area (see
      TpmWire.PublicUnionsBytes for the last of them). */
  lemma PublicName(c: Crypto, kind: nat, nameAlg: nat, attributes: nat, policy: seq<byte>, parms: Value, id: Value)
    requires nameAlg != 0x0010
    ensures NameFor(c, TPMT_PUBLIC, Rec([Num(kind), Num(nameAlg), Num(attributes), Bytes(policy), parms, id])) ==
            ToBE(nameAlg, 2)
            + c.hash(nameAlg, ToBE(kind, 2) + (ToBE(nameAlg, 2) + (ToBE(attributes, 4)
                              + (ToBE(|policy|, 2) + policy + UnionBytes(kind, parms, id)))))
  {
    hide *;
    NameForIs(c, TPMT_PUBLIC, Rec([Num(kind), Num(nameAlg), Num(attributes), Bytes(policy), parms, id]));
    PublicWire(kind, nameAlg, attributes, policy, parms, id);
  }

  lemma MarshaledWhole(enc: seq<byte>, blind: bool, size: nat, before: seq<byte>, after: seq<byte>, rc: Rc,
                       offset': nat)
    requires Printed(enc, true, blind, true, size, 0, before, after, rc, offset') && |enc| <= size == |before|
    ensures rc == Success && offset' == |enc| <= |after| && after[..offset'] == enc
  {
  }

  /** iesys_get_name for TPMT_PUBLIC and iesys_nv_get_name for TPMS_NV_PUBLIC: the only thing
      that can go wrong is the hash algorithm. */
  method GetName(c: Crypto, f: Format, area: Value) returns (rc: Rc, name: seq<byte>)
    requires f == TPMT_PUBLIC || f == TPMS_NV_PUBLIC
    requires Holds(Storable, f, area)
    ensures rc == if NameAlg(area) == ALG_NULL then Success else StartRc(c, NameAlg(area))
    ensures rc == Success ==> name == NameFor(c, f, area)
    ensures rc == Success && NameAlg(area) != ALG_NULL ==> |name| == 2 + Hlen(NameAlg(area))
    ensures area.Rec? && |area.vals| > 1 && area.vals[1].Num?
    ensures var alg := area.vals[1].n;
            if alg == 0x0010 then rc == Success && name == []
            else if alg !in c.algs || alg !in {0x0004, 0x000B, 0x000C, 0x000D, 0x0012} then rc == EsysNotImplemented
            else rc == Success && name == ToBE(alg, 2) + c.hash(alg, Encode(f, area))
  {
    StartRcIs(c, NameAlg(area));
    hide Encode, Holds, SizeOf, MaxLen, SizeBlind, Printed, Pow256, ToBE, Lawful;
    NameAlgThere(f, area);
    var nameAlg := area.vals[1].n;
    if nameAlg == ALG_NULL {
      return Success, [];
    }
    if StartRc(c, nameAlg) != Success {
      return StartRc(c, nameAlg), [];
    }
    AreaFits(f, area);
    var buffer := new byte[SizeOf(f)];
    ghost var before := Content(buffer);
    var offset;
    rc, offset := Marshal(f, area, buffer, SizeOf(f), 0);
    MarshaledWhole(Encode(f, area), SizeBlind(f), SizeOf(f), before, Content(buffer), rc, offset);
    if rc != Success {
      return rc, [];
    }
    var digest := HashOf(c, nameAlg, buffer[..offset]);
    var alg := new byte[2];
    before := Content(alg);
    rc, offset := MarshalBlock(ToBE(nameAlg, 2), alg, 2, 0);
    MarshaledWhole(ToBE(nameAlg, 2), true, 2, before, Content(alg), rc, offset);
    assert alg[..] == alg[..offset];
    return Success, alg[..] + digest;
  }
}
