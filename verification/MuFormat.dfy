/**
 The wire formats of the marshaling layer. Every macro family of src/tss2-mu is one
 constructor of `Format`; a TPM structure is a `Format` constant (module TpmFormats).
 `Encode` and `Decode` say what the bytes are; they know nothing of buffers and offsets.
 */
module MuFormat {
  import opened TpmBase

  type pos = n: int | 0 < n witness 1

  datatype Format =
    | UInt(width: pos)                      // base integers, attribute words
    | Enum32(allowed: seq<nat>)             // UINT32 checked against a list on the way in
    | Sized(cap: nat)                       // TPM2B: UINT16 size and that many bytes
    | Counted(cap: nat)                     // UINT16 count and an array of `cap` bytes it counts
    | Raw(len: pos)                         // fixed byte table of a union member
    | PcrSelect(tagWidth: nat)              // the TPMS_PCR family
    | List(cap: nat, elem: Format)          // TPML
    | Record(fields: Fields)                // TPMS and TPMT

  /** The fields of a record. A `Choice` is a union whose selector is an earlier field. */
  datatype Fields =
    | End
    | Plain(head: Format, tail: Fields)
    | Choice(selector: nat, zeroSkip: bool, cases: Cases, tail: Fields)

  /** The cases of a union's switch; a selector without a case stands for no bytes. */
  datatype Cases = NoCase | Case(tag: nat, body: Format, others: Cases)

  datatype Value =
    | Num(n: nat)
    | Bytes(bs: seq<byte>)
    | Pcr(tag: nat, bits: seq<byte>)
    | Items(items: seq<Value>)
    | Rec(vals: seq<Value>)
    | Absent

  /** What a value is good for: it fits the C structure, the marshaler accepts it, the
      unmarshaler would also produce it. */
  datatype Grade = Storable | Printable | WellFormed

  const PCR_SELECT_MAX: nat := 4

  function SelectorOf(env: seq<Value>, selector: nat): nat {
    if selector < |env| && env[selector].Num? then env[selector].n else 0
  }

  ghost predicate Holds(g: Grade, f: Format, v: Value)
    decreases f, 0
  {
    match f
    case UInt(w) => v.Num? && v.n < Pow256(w)
    case Enum32(allowed) => v.Num? && v.n < Pow256(4) && (g == WellFormed ==> v.n in allowed)
    case Sized(cap) => v.Bytes? && |v.bs| <= cap && |v.bs| < Pow256(2)
    case Counted(cap) => v.Bytes? && |v.bs| <= cap && |v.bs| < Pow256(2)
    case Raw(len) => v.Bytes? && |v.bs| == len
    case PcrSelect(w) =>
      v.Pcr? && v.tag < Pow256(w) && |v.bits| < Pow256(1) && (g != Storable ==> |v.bits| <= PCR_SELECT_MAX)
    case List(cap, e) =>
      && v.Items? && |v.items| < Pow256(4) && (g != Storable ==> |v.items| <= cap)
      && HoldsAll(g, e, v.items)
    case Record(fs) => v.Rec? && HoldsFields(g, fs, [], v.vals)
  }

  ghost predicate HoldsAll(g: Grade, e: Format, vs: seq<Value>)
    decreases e, 1, |vs|
  {
    vs == [] || (Holds(g, e, vs[0]) && HoldsAll(g, e, vs[1..]))
  }

  /** `vs` are the values of `fs`, after the values `env` of the fields before them. */
  ghost predicate HoldsFields(g: Grade, fs: Fields, env: seq<Value>, vs: seq<Value>)
    decreases fs
  {
    match fs
    case End => vs == []
    case Plain(h, t) =>
      vs != [] && Holds(g, h, vs[0]) && HoldsFields(g, t, env + [vs[0]], vs[1..])
    case Choice(sel, _, cs, t) =>
      vs != [] && HoldsCase(g, cs, SelectorOf(env, sel), vs[0]) && HoldsFields(g, t, env + [vs[0]], vs[1..])
  }

  ghost predicate HoldsCase(g: Grade, cs: Cases, tag: nat, v: Value)
    decreases cs
  {
    match cs
    case NoCase => v == Absent
    case Case(t, b, others) => if tag == t then Holds(g, b, v) else HoldsCase(g, others, tag, v)
  }

  /** The bytes of a value; those of a value of another shape are immaterial. */
  function Encode(f: Format, v: Value): seq<byte>
    decreases f, 0
  {
    match f
    case UInt(w) => if v.Num? then ToBE(v.n, w) else []
    case Enum32(_) => if v.Num? then ToBE(v.n, 4) else []
    case Sized(_) => if v.Bytes? then ToBE(|v.bs|, 2) + v.bs else []
    case Counted(_) => if v.Bytes? then ToBE(|v.bs|, 2) + v.bs else []
    case Raw(_) => if v.Bytes? then v.bs else []
    case PcrSelect(w) => if v.Pcr? then ToBE(v.tag, w) + ToBE(|v.bits|, 1) + v.bits else []
    case List(_, e) => if v.Items? then ToBE(|v.items|, 4) + EncodeAll(e, v.items) else []
    case Record(fs) => if v.Rec? then EncodeFields(fs, [], v.vals) else []
  }

  function EncodeAll(e: Format, vs: seq<Value>): seq<byte>
    decreases e, 1, |vs|
  {
    if vs == [] then [] else Encode(e, vs[0]) + EncodeAll(e, vs[1..])
  }

  function EncodeFields(fs: Fields, env: seq<Value>, vs: seq<Value>): seq<byte>
    decreases fs
  {
    match fs
    case End => []
    case Plain(h, t) =>
      if vs == [] then [] else Encode(h, vs[0]) + EncodeFields(t, env + [vs[0]], vs[1..])
    case Choice(sel, _, cs, t) =>
      if vs == [] then []
      else EncodeCase(cs, SelectorOf(env, sel), vs[0]) + EncodeFields(t, env + [vs[0]], vs[1..])
  }

  function EncodeCase(cs: Cases, tag: nat, v: Value): seq<byte>
    decreases cs
  {
    match cs
    case NoCase => []
    case Case(t, b, others) => if tag == t then Encode(b, v) else EncodeCase(others, tag, v)
  }

  /** Reading from the front of `input`. Without `dest` the caller only wants the position
      moved: base integers are still read (they may select a union), the rest is skipped. */
  function Decode(f: Format, input: seq<byte>, dest: bool): Parse<Value>
    decreases f, 0
  {
    match f
    case UInt(w) =>
      if |input| < w then Err(MuInsufficientBuffer) else Ok(Num(FromBE(input[..w])), w)
    case Enum32(allowed) =>
      if |input| < 4 then Err(MuInsufficientBuffer)
      else if FromBE(input[..4]) !in allowed then Err(SysBadValue)
      else Ok(Num(FromBE(input[..4])), 4)
    case Sized(cap) =>
      if |input| < 2 then Err(MuInsufficientBuffer)
      else
        var n := FromBE(input[..2]);
        if n > |input| - 2 || cap < n then Err(MuInsufficientBuffer)
        else Ok(if dest then Bytes(input[2..2 + n]) else Absent, 2 + n)
    case Counted(cap) =>
      // The count is held against the input, but not against the array it is copied into.
      if |input| < 2 then Err(MuInsufficientBuffer)
      else
        var n := FromBE(input[..2]);
        if n > |input| - 2 then Err(EsysInsufficientBuffer)
        else if dest && cap < n then Err(OutOfBounds)
        else Ok(if dest then Bytes(input[2..2 + n]) else Absent, 2 + n)
    case Raw(len) =>
      if !dest then Ok(Absent, len)
      else if |input| < len then Err(MuInsufficientBuffer)
      else Ok(Bytes(input[..len]), len)
    case PcrSelect(w) =>
      if |input| < w + 1 then Err(MuInsufficientBuffer)
      else
        var n := input[w];
        if n > PCR_SELECT_MAX then Err(SysMalformedResponse)
        else if |input| < w + 1 + n then Err(MuInsufficientBuffer)
        else Ok(if dest then Pcr(FromBE(input[..w]), input[w + 1..w + 1 + n]) else Absent, w + 1 + n)
    case List(cap, e) =>
      if |input| < 4 then Err(MuInsufficientBuffer)
      else
        var n := FromBE(input[..4]);
        if n > cap then Err(SysMalformedResponse)
        else
          (match DecodeAll(e, input[4..], n, dest)
           case Err(rc) => Err(rc)
           case Ok(vs, m) => Ok(if dest then Items(vs) else Absent, 4 + m))
    case Record(fs) =>
      match DecodeFields(fs, input, [], dest)
      case Err(rc) => Err(rc)
      case Ok(vs, m) => Ok(if dest then Rec(vs) else Absent, m)
  }

  function DecodeAll(e: Format, input: seq<byte>, count: nat, dest: bool): Parse<seq<Value>>
    decreases e, 1, count
  {
    if count == 0 then Ok([], 0)
    else
      match Decode(e, input, dest)
      case Err(rc) => Err(rc)
      case Ok(v, n) => Prepend(v, n, DecodeAll(e, Drop(input, n), count - 1, dest))
  }

  function DecodeFields(fs: Fields, input: seq<byte>, env: seq<Value>, dest: bool): Parse<seq<Value>>
    decreases fs
  {
    match fs
    case End => Ok([], 0)
    case Plain(h, t) =>
      (match Decode(h, input, dest)
       case Err(rc) => Err(rc)
       case Ok(v, n) => Prepend(v, n, DecodeFields(t, Drop(input, n), env + [v], dest)))
    case Choice(sel, zeroSkip, cs, t) =>
      // One macro passes selector 0 instead of the value it skipped over.
      var tag := if zeroSkip && !dest then 0 else SelectorOf(env, sel);
      match DecodeCase(cs, tag, input, dest)
      case Err(rc) => Err(rc)
      case Ok(v, n) => Prepend(v, n, DecodeFields(t, Drop(input, n), env + [v], dest))
  }

  function DecodeCase(cs: Cases, tag: nat, input: seq<byte>, dest: bool): Parse<Value>
    decreases cs
  {
    match cs
    case NoCase => Ok(Absent, 0)
    case Case(t, b, others) =>
      if tag == t then Decode(b, input, dest) else DecodeCase(others, tag, input, dest)
  }

  function Prepend(v: Value, n: nat, rest: Parse<seq<Value>>): Parse<seq<Value>> {
    match rest
    case Err(rc) => Err(rc)
    case Ok(vs, m) => Ok([v] + vs, n + m)
  }
}
