/** How long an encoding can get, and why it always fits the C structure it came from. */
module MuBounds {
  import opened MuFormat

  function Max(a: nat, b: nat): nat { if a < b then b else a }

  /** `n` times `k`, as repeated addition. */
  function Times(n: nat, k: nat): nat {
    if n == 0 then 0 else k + Times(n - 1, k)
  }

  lemma {:induction false} TimesMono(n: nat, m: nat, k: nat, l: nat)
    requires n <= m && k <= l
    ensures Times(n, k) <= Times(m, l)
  {
    if n > 0 { TimesMono(n - 1, m - 1, k, l); }
  }

  /** The longest encoding of a printable value. */
  function MaxLen(f: Format): nat
    decreases f
  {
    match f
    case UInt(w) => w
    case Enum32(_) => 4
    case Sized(cap) => 2 + cap
    case Counted(cap) => 2 + cap
    case Raw(len) => len
    case PcrSelect(w) => w + 1 + PCR_SELECT_MAX
    case List(cap, e) => 4 + Times(cap, MaxLen(e))
    case Record(fs) => MaxLenFields(fs)
  }

  function MaxLenFields(fs: Fields): nat
    decreases fs
  {
    match fs
    case End => 0
    case Plain(h, t) => MaxLen(h) + MaxLenFields(t)
    case Choice(_, _, cs, t) => MaxLenCases(cs) + MaxLenFields(t)
  }

  function MaxLenCases(cs: Cases): nat
    decreases cs
  {
    match cs
    case NoCase => 0
    case Case(_, b, others) => Max(MaxLen(b), MaxLenCases(others))
  }

  lemma {:induction false} EncodeBounded(f: Format, v: Value)
    requires Holds(Printable, f, v)
    ensures |Encode(f, v)| <= MaxLen(f)
    decreases f, 0
  {
    match f {
      case List(cap, e) =>
        EncodeAllBounded(e, v.items);
        TimesMono(|v.items|, cap, MaxLen(e), MaxLen(e));
      case Record(fs) => EncodeFieldsBounded(fs, [], v.vals);
      case _ =>
    }
  }

  lemma {:induction false} EncodeAllBounded(e: Format, vs: seq<Value>)
    requires HoldsAll(Printable, e, vs)
    ensures |EncodeAll(e, vs)| <= Times(|vs|, MaxLen(e))
    decreases e, 1, |vs|
  {
    if vs != [] {
      EncodeBounded(e, vs[0]);
      EncodeAllBounded(e, vs[1..]);
    }
  }

  lemma {:induction false} EncodeFieldsBounded(fs: Fields, env: seq<Value>, vs: seq<Value>)
    requires HoldsFields(Printable, fs, env, vs)
    ensures |EncodeFields(fs, env, vs)| <= MaxLenFields(fs)
    decreases fs
  {
    match fs {
      case End =>
      case Plain(h, t) =>
        EncodeBounded(h, vs[0]);
        EncodeFieldsBounded(t, env + [vs[0]], vs[1..]);
      case Choice(sel, _, cs, t) =>
        EncodeCaseBounded(cs, SelectorOf(env, sel), vs[0]);
        EncodeFieldsBounded(t, env + [vs[0]], vs[1..]);
    }
  }

  lemma {:induction false} EncodeCaseBounded(cs: Cases, tag: nat, v: Value)
    requires HoldsCase(Printable, cs, tag, v)
    ensures |EncodeCase(cs, tag, v)| <= MaxLenCases(cs)
    decreases cs
  {
    match cs {
      case NoCase =>
      case Case(t, b, others) =>
        if t == tag { EncodeBounded(b, v); } else { EncodeCaseBounded(others, tag, v); }
    }
  }

  // ---------------------------------------------------------------- C structure layout

  function RoundUp(n: nat, a: pos): (r: nat)
    ensures n <= r
  {
    if n % a == 0 then n else n + (a - n % a)
  }

  function Align(f: Format): pos
    decreases f
  {
    match f
    case UInt(w) => w
    case Enum32(_) => 4
    case Sized(_) => 2
    case Counted(_) => 2
    case Raw(_) => 1
    case PcrSelect(w) => if w == 0 then 1 else w
    case List(_, e) => Max(4, Align(e))
    case Record(fs) => AlignFields(fs)
  }

  function AlignFields(fs: Fields): pos
    decreases fs
  {
    match fs
    case End => 1
    case Plain(h, t) => Max(Align(h), AlignFields(t))
    case Choice(_, _, cs, t) => Max(AlignCases(cs), AlignFields(t))
  }

  function AlignCases(cs: Cases): pos
    decreases cs
  {
    match cs
    case NoCase => 1
    case Case(_, b, others) => Max(Align(b), AlignCases(others))
  }

  /** sizeof the structure, with natural alignment and tail padding. */
  function SizeOf(f: Format): nat
    decreases f
  {
    match f
    case UInt(w) => w
    case Enum32(_) => 4
    case Sized(cap) => RoundUp(2 + cap, 2)
    case Counted(cap) => RoundUp(2 + cap, 2)
    case Raw(len) => len
    case PcrSelect(w) => RoundUp(w + 1 + PCR_SELECT_MAX, Align(f))
    case List(cap, e) => RoundUp(RoundUp(4, Align(e)) + Times(cap, SizeOf(e)), Align(f))
    case Record(fs) => RoundUp(EndOf(fs, 0), AlignFields(fs))
  }

  /** Where the fields end when the first may start at `at`. */
  function EndOf(fs: Fields, at: nat): nat
    decreases fs
  {
    match fs
    case End => at
    case Plain(h, t) => EndOf(t, RoundUp(at, Align(h)) + SizeOf(h))
    case Choice(_, _, cs, t) =>
      EndOf(t, RoundUp(at, AlignCases(cs)) + RoundUp(SizeOfCases(cs), AlignCases(cs)))
  }

  function SizeOfCases(cs: Cases): nat
    decreases cs
  {
    match cs
    case NoCase => 0
    case Case(_, b, others) => Max(SizeOf(b), SizeOfCases(others))
  }

  /** No encoding is longer than the structure it encodes: a buffer of sizeof(type) bytes is
      always enough, and a subtype's wire size always passes the size check. */
  lemma {:induction false} EncodingFitsStruct(f: Format)
    ensures MaxLen(f) <= SizeOf(f)
    decreases f
  {
    match f {
      case List(cap, e) =>
        EncodingFitsStruct(e);
        TimesMono(cap, cap, MaxLen(e), SizeOf(e));
      case Record(fs) => FieldsFitStruct(fs, 0);
      case _ =>
    }
  }

  lemma {:induction false} FieldsFitStruct(fs: Fields, at: nat)
    ensures at + MaxLenFields(fs) <= EndOf(fs, at)
    decreases fs
  {
    match fs {
      case End =>
      case Plain(h, t) =>
        EncodingFitsStruct(h);
        FieldsFitStruct(t, RoundUp(at, Align(h)) + SizeOf(h));
      case Choice(_, _, cs, t) =>
        CasesFitStruct(cs);
        FieldsFitStruct(t, RoundUp(at, AlignCases(cs)) + RoundUp(SizeOfCases(cs), AlignCases(cs)));
    }
  }

  lemma {:induction false} CasesFitStruct(cs: Cases)
    ensures MaxLenCases(cs) <= SizeOfCases(cs)
    decreases cs
  {
    match cs {
      case NoCase =>
      case Case(_, b, others) => EncodingFitsStruct(b); CasesFitStruct(others);
    }
  }
}
