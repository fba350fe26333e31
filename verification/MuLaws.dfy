/** What the wire formats promise: printing and parsing are inverse, and sizes are bounded. */
module MuLaws {
  import opened TpmBase
  import opened MuFormat

  // ---------------------------------------------------------------- grades

  /** Whatever the unmarshaler can produce the marshaler accepts and the structure holds. */
  lemma {:induction false} GradesNested(f: Format, v: Value)
    ensures Holds(WellFormed, f, v) ==> Holds(Printable, f, v)
    ensures Holds(Printable, f, v) ==> Holds(Storable, f, v)
    decreases f, 0
  {
    match f {
      case List(_, e) => if v.Items? { AllGradesNested(e, v.items); }
      case Record(fs) => if v.Rec? { FieldGradesNested(fs, [], v.vals); }
      case _ =>
    }
  }

  lemma {:induction false} AllGradesNested(e: Format, vs: seq<Value>)
    ensures HoldsAll(WellFormed, e, vs) ==> HoldsAll(Printable, e, vs)
    ensures HoldsAll(Printable, e, vs) ==> HoldsAll(Storable, e, vs)
    decreases e, 1, |vs|
  {
    if vs != [] {
      GradesNested(e, vs[0]);
      AllGradesNested(e, vs[1..]);
    }
  }

  lemma {:induction false} FieldGradesNested(fs: Fields, env: seq<Value>, vs: seq<Value>)
    ensures HoldsFields(WellFormed, fs, env, vs) ==> HoldsFields(Printable, fs, env, vs)
    ensures HoldsFields(Printable, fs, env, vs) ==> HoldsFields(Storable, fs, env, vs)
    decreases fs
  {
    if vs != [] {
      match fs {
        case End =>
        case Plain(h, t) =>
          GradesNested(h, vs[0]);
          FieldGradesNested(t, env + [vs[0]], vs[1..]);
        case Choice(sel, _, cs, t) =>
          CaseGradesNested(cs, SelectorOf(env, sel), vs[0]);
          FieldGradesNested(t, env + [vs[0]], vs[1..]);
      }
    }
  }

  lemma {:induction false} CaseGradesNested(cs: Cases, tag: nat, v: Value)
    ensures HoldsCase(WellFormed, cs, tag, v) ==> HoldsCase(Printable, cs, tag, v)
    ensures HoldsCase(Printable, cs, tag, v) ==> HoldsCase(Storable, cs, tag, v)
    decreases cs
  {
    match cs {
      case NoCase =>
      case Case(t, b, others) =>
        if t == tag { GradesNested(b, v); } else { CaseGradesNested(others, tag, v); }
    }
  }

  // ---------------------------------------------------------------- print then parse

  /** Parsing a printed value returns it and stops where the printed bytes end. */
  lemma {:induction false} RoundTrip(f: Format, v: Value, tail: seq<byte>)
    requires Holds(WellFormed, f, v)
    ensures Decode(f, Encode(f, v) + tail, true) == Ok(v, |Encode(f, v)|)
    decreases f, 0
  {
    var bs := Encode(f, v) + tail;
    match f {
      case UInt(w) => FromToBE(v.n, w); SplitFront(ToBE(v.n, w), tail);
      case Enum32(_) => FromToBE(v.n, 4); SplitFront(ToBE(v.n, 4), tail);
      case Sized(_) => RoundTripBytes(v.bs, tail);
      case Counted(_) => RoundTripBytes(v.bs, tail);
      case Raw(len) => SplitFront(v.bs, tail);
      case PcrSelect(w) => RoundTripPcr(w, v, tail);
      case List(cap, e) =>
        var n := ToBE(|v.items|, 4);
        var rest := EncodeAll(e, v.items) + tail;
        Assoc(n, EncodeAll(e, v.items), tail);
        SplitFront(n, rest);
        FromToBE(|v.items|, 4);
        RoundTripAll(e, v.items, tail);
      case Record(fs) =>
        RoundTripFields(fs, [], v.vals, tail);
    }
  }

  lemma Middle(a: seq<byte>, b: seq<byte>, c: seq<byte>)
    ensures (a + b + c)[..|a|] == a && (a + b + c)[|a|..|a| + |b|] == b
  {
  }

  lemma RoundTripBytes(content: seq<byte>, tail: seq<byte>)
    requires |content| < Pow256(2)
    ensures var bs := ToBE(|content|, 2) + content + tail;
            FromBE(bs[..2]) == |content| && bs[2..2 + |content|] == content
  {
    var len, n := ToBE(|content|, 2), |content|;
    FromToBE(n, 2);
    hide ToBE, FromBE;
    Middle(len, content, tail);
  }

  lemma RoundTripPcr(w: nat, v: Value, tail: seq<byte>)
    requires Holds(WellFormed, PcrSelect(w), v)
    ensures Decode(PcrSelect(w), Encode(PcrSelect(w), v) + tail, true)
            == Ok(v, |Encode(PcrSelect(w), v)|)
  {
    var bs := Encode(PcrSelect(w), v) + tail;
    FromToBE(v.tag, w);
    assert bs[..w] == ToBE(v.tag, w);
    assert ToBE(|v.bits|, 1) == [|v.bits|];
    assert bs[w] == |v.bits|;
    assert bs[w + 1..w + 1 + |v.bits|] == v.bits;
  }

  /** The front of `bs`, `n` bytes of it, parses as the values `vs`. */
  ghost predicate ParsesAs(e: Format, bs: seq<byte>, vs: seq<Value>, n: nat) {
    DecodeAll(e, bs, |vs|, true) == Ok(vs, n)
  }

  lemma ParsesAsCons(e: Format, bs: seq<byte>, v: Value, n: nat, vs: seq<Value>, m: nat)
    requires Decode(e, bs, true) == Ok(v, n)
    requires ParsesAs(e, Drop(bs, n), vs, m)
    ensures ParsesAs(e, bs, [v] + vs, n + m)
  {
  }

  lemma {:induction false} RoundTripAll(e: Format, vs: seq<Value>, tail: seq<byte>)
    requires HoldsAll(WellFormed, e, vs)
    ensures ParsesAs(e, EncodeAll(e, vs) + tail, vs, |EncodeAll(e, vs)|)
    decreases e, 1, |vs|
  {
    if vs != [] {
      var a, b := Encode(e, vs[0]), EncodeAll(e, vs[1..]) + tail;
      Assoc(a, EncodeAll(e, vs[1..]), tail);
      RoundTrip(e, vs[0], b);
      SplitFront(a, b);
      RoundTripAll(e, vs[1..], tail);
      ParsesAsCons(e, a + b, vs[0], |a|, vs[1..], |EncodeAll(e, vs[1..])|);
      Uncons(vs);
    }
  }

  lemma {:induction false} RoundTripFields(fs: Fields, env: seq<Value>, vs: seq<Value>, tail: seq<byte>)
    requires HoldsFields(WellFormed, fs, env, vs)
    ensures DecodeFields(fs, EncodeFields(fs, env, vs) + tail, env, true)
            == Ok(vs, |EncodeFields(fs, env, vs)|)
    decreases fs
  {
    match fs {
      case End =>
      case Plain(h, t) =>
        var a, b := Encode(h, vs[0]), EncodeFields(t, env + [vs[0]], vs[1..]) + tail;
        Assoc(a, EncodeFields(t, env + [vs[0]], vs[1..]), tail);
        RoundTrip(h, vs[0], b);
        SplitFront(a, b);
        RoundTripFields(t, env + [vs[0]], vs[1..], tail);
        Uncons(vs);
      case Choice(sel, _, cs, t) =>
        var tag := SelectorOf(env, sel);
        var a, b := EncodeCase(cs, tag, vs[0]), EncodeFields(t, env + [vs[0]], vs[1..]) + tail;
        Assoc(a, EncodeFields(t, env + [vs[0]], vs[1..]), tail);
        RoundTripCase(cs, tag, vs[0], b);
        SplitFront(a, b);
        RoundTripFields(t, env + [vs[0]], vs[1..], tail);
        Uncons(vs);
    }
  }

  lemma {:induction false} RoundTripCase(cs: Cases, tag: nat, v: Value, tail: seq<byte>)
    requires HoldsCase(WellFormed, cs, tag, v)
    ensures DecodeCase(cs, tag, EncodeCase(cs, tag, v) + tail, true) == Ok(v, |EncodeCase(cs, tag, v)|)
    decreases cs
  {
    match cs {
      case NoCase =>
      case Case(t, b, others) =>
        if t == tag { RoundTrip(b, v, tail); } else { RoundTripCase(others, tag, v, tail); }
    }
  }

  /** No encoding is a proper prefix of another, and distinct values print differently. */
  lemma PrefixFree(f: Format, v: Value, w: Value)
    requires Holds(WellFormed, f, v) && Holds(WellFormed, f, w)
    ensures Encode(f, v) <= Encode(f, w) ==> v == w
  {
    if Encode(f, v) <= Encode(f, w) {
      var tail := Encode(f, w)[|Encode(f, v)|..];
      assert Encode(f, v) + tail == Encode(f, w) + [];
      RoundTrip(f, v, tail);
      RoundTrip(f, w, []);
    }
  }

  // ---------------------------------------------------------------- parse then print

  /** Accepted bytes are canonical: the value read is well formed and prints as exactly the
      bytes it was read from. */
  lemma {:induction false} Canonical(f: Format, input: seq<byte>)
    requires Decode(f, input, true).Ok?
    ensures var p := Decode(f, input, true);
            && p.used <= |input|
            && Holds(WellFormed, f, p.value)
            && Encode(f, p.value) == input[..p.used]
    decreases f, 0
  {
    var p := Decode(f, input, true);
    match f {
      case UInt(w) => ToFromBE(input[..w]);
      case Enum32(_) => ToFromBE(input[..4]);
      case Sized(_) => CanonicalBytes(input, |p.value.bs|);
      case Counted(_) => CanonicalBytes(input, |p.value.bs|);
      case Raw(_) =>
      case PcrSelect(w) => CanonicalPcr(w, input);
      case List(cap, e) =>
        ToFromBE(input[..4]);
        var n := FromBE(input[..4]);
        CanonicalAll(e, input[4..], n);
        TakeDrop(input, 4, DecodeAll(e, input[4..], n, true).used);
      case Record(fs) =>
        CanonicalFields(fs, input, []);
    }
  }

  lemma CanonicalBytes(input: seq<byte>, n: nat)
    requires 2 <= |input| && FromBE(input[..2]) == n && n <= |input| - 2
    ensures n < Pow256(2)
    ensures ToBE(n, 2) + input[2..2 + n] == input[..2 + n]
  {
    ToFromBE(input[..2]);
    assert input[..2] + input[2..2 + n] == input[..2 + n];
  }

  lemma CanonicalPcr(w: nat, input: seq<byte>)
    requires Decode(PcrSelect(w), input, true).Ok?
    ensures var p := Decode(PcrSelect(w), input, true);
            Holds(WellFormed, PcrSelect(w), p.value) && Encode(PcrSelect(w), p.value) == input[..p.used]
  {
    var p := Decode(PcrSelect(w), input, true);
    ToFromBE(input[..w]);
    var n := input[w];
    assert ToBE(n, 1) == [n];
    assert input[..w] + [n] + input[w + 1..w + 1 + n] == input[..p.used];
  }

  /** `vs` are well formed and print as `bs`. */
  ghost predicate PrintsAs(e: Format, vs: seq<Value>, bs: seq<byte>) {
    HoldsAll(WellFormed, e, vs) && EncodeAll(e, vs) == bs
  }

  lemma {:induction false} PrintsAsCons(e: Format, v: Value, bs: seq<byte>, vs: seq<Value>, more: seq<byte>)
    requires Holds(WellFormed, e, v) && Encode(e, v) == bs
    requires PrintsAs(e, vs, more)
    ensures PrintsAs(e, [v] + vs, bs + more)
  {
    Cons(v, vs);
  }

  lemma {:induction false} CanonicalAll(e: Format, input: seq<byte>, count: nat)
    requires DecodeAll(e, input, count, true).Ok?
    ensures var p := DecodeAll(e, input, count, true);
            && p.used <= |input|
            && |p.value| == count
            && PrintsAs(e, p.value, input[..p.used])
    decreases e, 1, count
  {
    if count > 0 {
      var first := Decode(e, input, true);
      Canonical(e, input);
      CanonicalAll(e, Drop(input, first.used), count - 1);
      var rest := DecodeAll(e, Drop(input, first.used), count - 1, true);
      TakeDrop(input, first.used, rest.used);
      PrintsAsCons(e, first.value, input[..first.used], rest.value, Drop(input, first.used)[..rest.used]);
    }
  }

  lemma {:induction false} CanonicalFields(fs: Fields, input: seq<byte>, env: seq<Value>)
    requires DecodeFields(fs, input, env, true).Ok?
    ensures var p := DecodeFields(fs, input, env, true);
            && p.used <= |input|
            && HoldsFields(WellFormed, fs, env, p.value)
            && EncodeFields(fs, env, p.value) == input[..p.used]
    decreases fs, 0
  {
    match fs {
      case End =>
      case Plain(h, t) =>
        Canonical(h, input);
        CanonicalTail(Decode(h, input, true), fs, t, input, env);
      case Choice(sel, _, cs, t) =>
        CanonicalCase(cs, SelectorOf(env, sel), input);
        CanonicalTail(DecodeCase(cs, SelectorOf(env, sel), input, true), fs, t, input, env);
    }
  }

  lemma {:induction false} CanonicalTail(first: Parse<Value>, fs: Fields, t: Fields, input: seq<byte>, env: seq<Value>)
    requires fs != End && t == fs.tail
    requires first.Ok? && first.used <= |input|
    requires DecodeFields(t, Drop(input, first.used), env + [first.value], true).Ok?
    ensures var rest := DecodeFields(t, Drop(input, first.used), env + [first.value], true);
            var vs := [first.value] + rest.value;
            && first.used + rest.used <= |input|
            && vs[0] == first.value && vs[1..] == rest.value
            && HoldsFields(WellFormed, t, env + [first.value], rest.value)
            && input[..first.used] + EncodeFields(t, env + [first.value], rest.value)
               == input[..first.used + rest.used]
    decreases t, 1
  {
    var rest := DecodeFields(t, Drop(input, first.used), env + [first.value], true);
    CanonicalFields(t, Drop(input, first.used), env + [first.value]);
    Cons(first.value, rest.value);
    TakeDrop(input, first.used, rest.used);
  }

  lemma {:induction false} CanonicalCase(cs: Cases, tag: nat, input: seq<byte>)
    requires DecodeCase(cs, tag, input, true).Ok?
    ensures var p := DecodeCase(cs, tag, input, true);
            && p.used <= |input|
            && HoldsCase(WellFormed, cs, tag, p.value)
            && EncodeCase(cs, tag, p.value) == input[..p.used]
    decreases cs, 0
  {
    match cs {
      case NoCase =>
      case Case(t, b, others) =>
        if t == tag { Canonical(b, input); } else { CanonicalCase(others, tag, input); }
    }
  }
}
