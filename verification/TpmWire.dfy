/**
 The bytes of the TPM structures, written out down to their scalars: every selector and every
 width is a number, every field stands in its place.
 */
module TpmWire {
  import opened TpmBase
  import opened MuFormat
  import opened MuWire
  import opened TpmFormats

  // ---------------------------------------------------------------- records of few fields

  lemma OneField(a: Format, u: Value)
    ensures Encode(Record(Plain(a, End)), Rec([u])) == Encode(a, u)
  {
    hide *;
    RecordFields(Plain(a, End), [u]);
    PeelField(a, End, [], u, []);
    assert [u] + [] == [u];
    EndOfFields([] + [u]);
  }

  lemma TwoFields(a: Format, b: Format, u: Value, v: Value)
    ensures Encode(Record(Plain(a, Plain(b, End))), Rec([u, v])) == Encode(a, u) + Encode(b, v)
  {
    hide *;
    RecordFields(Plain(a, Plain(b, End)), [u, v]);
    assert [u] + [v] == [u, v] && [v] + [] == [v];
    PeelField(a, Plain(b, End), [], u, [v]);
    PeelField(b, End, [] + [u], v, []);
    EndOfFields([] + [u] + [v]);
  }

  lemma ThreeFields(a: Format, b: Format, c: Format, u: Value, v: Value, w: Value)
    ensures Encode(Record(Plain(a, Plain(b, Plain(c, End)))), Rec([u, v, w]))
            == Encode(a, u) + (Encode(b, v) + Encode(c, w))
  {
    hide *;
    RecordFields(Plain(a, Plain(b, Plain(c, End))), [u, v, w]);
    assert [u] + [v, w] == [u, v, w] && [v] + [w] == [v, w] && [w] + [] == [w];
    PeelField(a, Plain(b, Plain(c, End)), [], u, [v, w]);
    PeelField(b, Plain(c, End), [] + [u], v, [w]);
    PeelField(c, End, [] + [u] + [v], w, []);
    EndOfFields([] + [u] + [v] + [w]);
  }

  lemma FourFields(a: Format, b: Format, c: Format, d: Format, u: Value, v: Value, w: Value, x: Value)
    ensures Encode(Record(Plain(a, Plain(b, Plain(c, Plain(d, End))))), Rec([u, v, w, x]))
            == Encode(a, u) + (Encode(b, v) + (Encode(c, w) + Encode(d, x)))
  {
    hide *;
    RecordFields(Plain(a, Plain(b, Plain(c, Plain(d, End)))), [u, v, w, x]);
    assert [u] + [v, w, x] == [u, v, w, x] && [v] + [w, x] == [v, w, x] && [w] + [x] == [w, x] && [x] + [] == [x];
    PeelField(a, Plain(b, Plain(c, Plain(d, End))), [], u, [v, w, x]);
    PeelField(b, Plain(c, Plain(d, End)), [] + [u], v, [w, x]);
    PeelField(c, Plain(d, End), [] + [u] + [v], w, [x]);
    PeelField(d, End, [] + [u] + [v] + [w], x, []);
    EndOfFields([] + [u] + [v] + [w] + [x]);
  }

  lemma RecordFields(fs: Fields, vs: seq<Value>)
    ensures Encode(Record(fs), Rec(vs)) == EncodeFields(fs, [], vs)
  {
  }

  lemma EndOfFields(env: seq<Value>)
    ensures EncodeFields(End, env, []) == []
  {
  }

  lemma PeelUnion(cs: Cases, t: Fields, env: seq<Value>, sel: nat, zeroSkip: bool, v: Value, rest: seq<Value>)
    ensures EncodeFields(Choice(sel, zeroSkip, cs, t), env, [v] + rest)
            == EncodeCase(cs, SelectorOf(env, sel), v) + EncodeFields(t, env + [v], rest)
  {
    Cons(v, rest);
  }

  /** A UINT16 and the union it selects. */
  lemma Tagged(cs: Cases, tag: nat, v: Value)
    ensures Encode(Record(Plain(UInt(2), Choice(0, false, cs, End))), Rec([Num(tag), v]))
            == ToBE(tag, 2) + EncodeCase(cs, tag, v)
  {
    hide *;
    var fs := Plain(UInt(2), Choice(0, false, cs, End));
    RecordFields(fs, [Num(tag), v]);
    assert [Num(tag)] + [v] == [Num(tag), v] && [v] + [] == [v] && [] + [Num(tag)] == [Num(tag)];
    PeelField(UInt(2), Choice(0, false, cs, End), [], Num(tag), [v]);
    PeelUnion(cs, End, [Num(tag)], 0, false, v, []);
    SelectorFront(Num(tag), []);
    EndOfFields([Num(tag)] + [v]);
    Scalar(2, tag);
  }

  lemma SelectorFront(v: Value, env: seq<Value>)
    requires v.Num?
    ensures SelectorOf([v] + env, 0) == v.n && SelectorOf([v], 0) == v.n
  {
  }

  lemma Scalar(w: pos, n: nat)
    ensures Encode(UInt(w), Num(n)) == ToBE(n, w)
  {
    hide ToBE;
  }

  lemma SizedBytes(cap: nat, bs: seq<byte>)
    ensures Encode(Sized(cap), Bytes(bs)) == ToBE(|bs|, 2) + bs
  {
    hide ToBE;
  }

  /** Brackets to the right or to the left. */
  lemma Flat(a: seq<byte>, b: seq<byte>, c: seq<byte>, d: seq<byte>)
    ensures a + (b + (c + d)) == a + b + c + d
  {
  }

  lemma Flat5(a: seq<byte>, b: seq<byte>, c: seq<byte>, d: seq<byte>, e: seq<byte>)
    ensures a + (b + (c + (d + e))) == a + b + c + d + e
  {
  }

  // ---------------------------------------------------------------- schemes

  /** Algorithm, key bits and mode; the latter two only for the ciphers, key bits for XOR. */
  lemma SymDefWire(a: nat, k: nat, m: nat, bits: Value, mode: Value)
    requires a in {0x0006, 0x0013, 0x0026, 0x000A} ==> bits == Num(k)
    requires a in {0x0006, 0x0013, 0x0026} ==> mode == Num(m)
    ensures Encode(TPMT_SYM_DEF, Rec([Num(a), bits, mode])) ==
            if a in {0x0006, 0x0013, 0x0026} then ToBE(a, 2) + ToBE(k, 2) + ToBE(m, 2)
            else if a == 0x000A then ToBE(a, 2) + ToBE(k, 2)
            else ToBE(a, 2)
  {
    var rest := Choice(0, false, TPMU_SYM_KEY_BITS, Choice(0, false, TPMU_SYM_MODE, End));
    SymBits(a, k, bits);
    SymMode(a, m, mode);
    hide *;
    SymDefIs();
    RecordFields(Plain(UInt(2), rest), [Num(a), bits, mode]);
    OneThen(UInt(2), rest, Num(a), [bits, mode]);
    assert [Num(a)] + [bits, mode] == [Num(a), bits, mode];
    TwoUnions(TPMU_SYM_KEY_BITS, TPMU_SYM_MODE, a, bits, mode);
    Scalar(2, a);
    NothingBehind(ToBE(a, 2));
    NothingBehind(ToBE(k, 2));
    Assoc(ToBE(a, 2), ToBE(k, 2), ToBE(m, 2));
  }

  lemma OneThen(a: Format, t: Fields, u: Value, rest: seq<Value>)
    ensures EncodeFields(Plain(a, t), [], [u] + rest) == Encode(a, u) + EncodeFields(t, [u], rest)
  {
    hide *;
    PeelField(a, t, [], u, rest);
    assert [] + [u] == [u];
  }

  /** Two unions under the selector in front of them. */
  lemma TwoUnions(cs: Cases, ds: Cases, tag: nat, u: Value, v: Value)
    ensures EncodeFields(Choice(0, false, cs, Choice(0, false, ds, End)), [Num(tag)], [u, v])
            == EncodeCase(cs, tag, u) + EncodeCase(ds, tag, v)
  {
    hide *;
    assert [u] + [v] == [u, v];
    PeelUnion(cs, Choice(0, false, ds, End), [Num(tag)], 0, false, u, [v]);
    SelectorFront(Num(tag), [u]);
    LastUnion(ds, [Num(tag)] + [u], 0, false, v);
  }

  lemma LastUnion(cs: Cases, env: seq<Value>, sel: nat, zeroSkip: bool, v: Value)
    ensures EncodeFields(Choice(sel, zeroSkip, cs, End), env, [v]) == EncodeCase(cs, SelectorOf(env, sel), v)
  {
    hide *;
    assert [v] + [] == [v];
    PeelUnion(cs, End, env, sel, zeroSkip, v, []);
    EndOfFields(env + [v]);
    NothingBehind(EncodeCase(cs, SelectorOf(env, sel), v));
  }

  lemma NothingBehind(bs: seq<byte>)
    ensures bs + [] == bs
  {
  }

  lemma SymDefIs()
    ensures TPMT_SYM_DEF == Record(Plain(UInt(2), Choice(0, false, TPMU_SYM_KEY_BITS,
                                                         Choice(0, false, TPMU_SYM_MODE, End))))
  {
  }

  lemma SymBits(a: nat, k: nat, bits: Value)
    requires a in {0x0006, 0x0013, 0x0026, 0x000A} ==> bits == Num(k)
    ensures EncodeCase(TPMU_SYM_KEY_BITS, a, bits) == if a in {0x0006, 0x0013, 0x0026, 0x000A} then ToBE(k, 2) else []
  {
    hide ToBE;
    assert EncodeCase(TPMU_SYM_KEY_BITS, a, bits) ==
           if a == 6 then Encode(UInt(2), bits) else EncodeCase(TPMU_SYM_KEY_BITS.others, a, bits);
    assert EncodeCase(TPMU_SYM_KEY_BITS.others.others, a, bits) ==
           if a == 0x26 then Encode(UInt(2), bits) else if a == 10 then Encode(UInt(2), bits) else [];
  }

  lemma SymMode(a: nat, m: nat, mode: Value)
    requires a in {0x0006, 0x0013, 0x0026} ==> mode == Num(m)
    ensures EncodeCase(TPMU_SYM_MODE, a, mode) == if a in {0x0006, 0x0013, 0x0026} then ToBE(m, 2) else []
  {
    hide ToBE;
    assert EncodeCase(TPMU_SYM_MODE, a, mode) ==
           if a == 6 then Encode(UInt(2), mode) else EncodeCase(TPMU_SYM_MODE.others, a, mode);
    assert EncodeCase(TPMU_SYM_MODE.others.others, a, mode) == if a == 0x26 then Encode(UInt(2), mode) else [];
  }

  lemma HashDetails(h: nat, n: nat)
    ensures Encode(TPMS_SCHEME_HASH, Rec([Num(h)])) == ToBE(h, 2)
    ensures Encode(TPMS_SCHEME_ECDAA, Rec([Num(h), Num(n)])) == ToBE(h, 2) + ToBE(n, 2)
    ensures Encode(TPMS_SCHEME_XOR, Rec([Num(h), Num(n)])) == ToBE(h, 2) + ToBE(n, 2)
  {
    OneField(UINT16, Num(h));
    TwoFields(UINT16, UINT16, Num(h), Num(n));
    hide ToBE, EncodeFields;
  }

  /** A keyed hash scheme: HMAC has a hash algorithm, XOR a hash algorithm and a KDF. */
  lemma KeyedHashSchemeWire(s: nat, h: nat, kdf: nat, details: Value)
    requires s == 0x0005 ==> details == Rec([Num(h)])
    requires s == 0x000A ==> details == Rec([Num(h), Num(kdf)])
    ensures Encode(TPMT_KEYEDHASH_SCHEME, Rec([Num(s), details])) ==
            if s == 0x0005 then ToBE(s, 2) + ToBE(h, 2)
            else if s == 0x000A then ToBE(s, 2) + (ToBE(h, 2) + ToBE(kdf, 2))
            else ToBE(s, 2)
  {
    Tagged(TPMU_SCHEME_KEYEDHASH, s, details);
    HashDetails(h, kdf);
    hide ToBE, EncodeFields;
    assert EncodeCase(TPMU_SCHEME_KEYEDHASH.others, s, details) ==
           if s == 10 then Encode(TPMS_SCHEME_XOR, details) else [];
  }

  /** A KDF scheme: the known ones have a hash algorithm. */
  lemma KdfSchemeWire(s: nat, h: nat, details: Value)
    requires s in {0x0007, 0x0020, 0x0022} ==> details == Rec([Num(h)])
    ensures Encode(TPMT_KDF_SCHEME, Rec([Num(s), details])) ==
            if s in {0x0007, 0x0020, 0x0022} then ToBE(s, 2) + ToBE(h, 2) else ToBE(s, 2)
  {
    Tagged(TPMU_KDF_SCHEME, s, details);
    HashDetails(h, 0);
    hide ToBE, EncodeFields;
    assert EncodeCase(TPMU_KDF_SCHEME.others, s, details) ==
           if s == 0x20 || s == 0x22 then Encode(TPMS_SCHEME_HASH, details) else [];
  }

  /** An asymmetric scheme: ECDAA has a hash algorithm and a count, the other known ones a hash
      algorithm. */
  lemma AsymSchemeWire(s: nat, h: nat, count: nat, details: Value)
    requires s in {0x0014, 0x0016, 0x0017, 0x0018, 0x0019, 0x001B, 0x001C, 0x001D} ==> details == Rec([Num(h)])
    requires s == 0x001A ==> details == Rec([Num(h), Num(count)])
    ensures Encode(TPMT_ASYM_SCHEME, Rec([Num(s), details])) ==
            if s == 0x001A then ToBE(s, 2) + (ToBE(h, 2) + ToBE(count, 2))
            else if s in {0x0014, 0x0016, 0x0017, 0x0018, 0x0019, 0x001B, 0x001C, 0x001D} then ToBE(s, 2) + ToBE(h, 2)
            else ToBE(s, 2)
  {
    Tagged(TPMU_ASYM_SCHEME, s, details);
    HashDetails(h, count);
    AsymCase(s, details);
    hide ToBE, EncodeFields, EncodeCase;
  }

  lemma AsymCase(s: nat, v: Value)
    ensures EncodeCase(TPMU_ASYM_SCHEME, s, v) ==
            if s == 0x001A then Encode(TPMS_SCHEME_ECDAA, v)
            else if s in {0x0014, 0x0016, 0x0017, 0x0018, 0x0019, 0x001B, 0x001C, 0x001D}
            then Encode(TPMS_SCHEME_HASH, v)
            else []
  {
    hide Encode;
    var c2 := TPMU_ASYM_SCHEME.others.others;
    var c4 := c2.others.others;
    var c6 := c4.others.others;
    assert EncodeCase(c6, s, v) ==
           if s == 0x1B || s == 0x1C || s == 0x17 then Encode(TPMS_SCHEME_HASH, v) else [];
    assert EncodeCase(c4, s, v) ==
           if s == 0x18 then Encode(TPMS_SCHEME_HASH, v) else if s == 0x1A then Encode(TPMS_SCHEME_ECDAA, v)
           else EncodeCase(c6, s, v);
    assert EncodeCase(c2, s, v) ==
           if s == 0x14 || s == 0x16 then Encode(TPMS_SCHEME_HASH, v) else EncodeCase(c4, s, v);
    assert EncodeCase(TPMU_ASYM_SCHEME, s, v) ==
           if s == 0x19 || s == 0x1D then Encode(TPMS_SCHEME_HASH, v) else EncodeCase(c2, s, v);
  }

  // ---------------------------------------------------------------- public areas

  /** RSA parameters: cipher, scheme, key bits, exponent. */
  lemma RsaParmsWire(sym: Value, scheme: Value, keyBits: nat, exponent: nat)
    ensures Encode(TPMS_RSA_PARMS, Rec([sym, scheme, Num(keyBits), Num(exponent)]))
            == Encode(TPMT_SYM_DEF, sym) + Encode(TPMT_ASYM_SCHEME, scheme) + ToBE(keyBits, 2) + ToBE(exponent, 4)
  {
    hide Encode, ToBE;
    FourFields(TPMT_SYM_DEF, TPMT_ASYM_SCHEME, UInt(2), UInt(4), sym, scheme, Num(keyBits), Num(exponent));
    Scalar(2, keyBits);
    Scalar(4, exponent);
    Flat(Encode(TPMT_SYM_DEF, sym), Encode(TPMT_ASYM_SCHEME, scheme), ToBE(keyBits, 2), ToBE(exponent, 4));
  }

  /** ECC parameters: cipher, scheme, curve, KDF scheme. */
  lemma EccParmsWire(sym: Value, scheme: Value, curve: nat, kdf: Value)
    ensures Encode(TPMS_ECC_PARMS, Rec([sym, scheme, Num(curve), kdf]))
            == Encode(TPMT_SYM_DEF, sym) + Encode(TPMT_ASYM_SCHEME, scheme) + ToBE(curve, 2)
               + Encode(TPMT_KDF_SCHEME, kdf)
  {
    hide Encode, ToBE;
    FourFields(TPMT_SYM_DEF, TPMT_ASYM_SCHEME, UInt(2), TPMT_KDF_SCHEME, sym, scheme, Num(curve), kdf);
    Scalar(2, curve);
    Flat(Encode(TPMT_SYM_DEF, sym), Encode(TPMT_ASYM_SCHEME, scheme), ToBE(curve, 2), Encode(TPMT_KDF_SCHEME, kdf));
  }

  /** A keyed hash has its scheme, a symmetric cipher its definition, a point its coordinates. */
  lemma OtherParmsWire(scheme: Value, sym: Value, x: seq<byte>, y: seq<byte>)
    ensures Encode(TPMS_KEYEDHASH_PARMS, Rec([scheme])) == Encode(TPMT_KEYEDHASH_SCHEME, scheme)
    ensures Encode(TPMS_SYMCIPHER_PARMS, Rec([sym])) == Encode(TPMT_SYM_DEF, sym)
    ensures Encode(TPMS_ECC_POINT, Rec([Bytes(x), Bytes(y)])) == ToBE(|x|, 2) + x + ToBE(|y|, 2) + y
  {
    hide Encode, ToBE;
    OneField(TPMT_KEYEDHASH_SCHEME, scheme);
    OneField(TPMT_SYM_DEF, sym);
    TwoFields(Sized(128), Sized(128), Bytes(x), Bytes(y));
    SizedBytes(128, x);
    SizedBytes(128, y);
    Assoc(ToBE(|x|, 2) + x, ToBE(|y|, 2), y);
  }

  /** Both unions under the type of the area. */
  lemma PublicUnionsBytes(kind: nat, parms: Value, id: Value, bs: seq<byte>)
    requires kind in {0x0001, 0x0008, 0x0025} ==> id == Bytes(bs)
    ensures UnionBytes(kind, parms, id) ==
            if kind == 0x0001 then Encode(TPMS_RSA_PARMS, parms) + (ToBE(|bs|, 2) + bs)
            else if kind == 0x0008 then Encode(TPMS_KEYEDHASH_PARMS, parms) + (ToBE(|bs|, 2) + bs)
            else if kind == 0x0025 then Encode(TPMS_SYMCIPHER_PARMS, parms) + (ToBE(|bs|, 2) + bs)
            else if kind == 0x0023 then Encode(TPMS_ECC_PARMS, parms) + Encode(TPMS_ECC_POINT, id)
            else []
  {
    SizedBytes(64, bs);
    SizedBytes(512, bs);
    hide Encode, ToBE;
  }

  /** The parameters of an RSA key with 2048 bits and the default exponent, without a cipher and
      a scheme of its own. */
  lemma RsaDefaultBytes()
    ensures var sym, scheme := Rec([Num(0x0010), Absent, Absent]), Rec([Num(0x0010), Absent]);
            Encode(TPMS_RSA_PARMS, Rec([sym, scheme, Num(2048), Num(0)])) == [0, 16, 0, 16, 8, 0, 0, 0, 0, 0]
  {
    hide *;
    var sym, scheme := Rec([Num(0x0010), Absent, Absent]), Rec([Num(0x0010), Absent]);
    SymDefWire(0x0010, 0, 0, Absent, Absent);
    AsymSchemeWire(0x0010, 0, 0, Absent);
    RsaParmsWire(sym, scheme, 2048, 0);
    BigEndian(0x0010);
    BigEndian(2048);
    BigEndian(0);
  }

  lemma FiveParts(a: seq<byte>, b: seq<byte>, c: seq<byte>, d: seq<byte>, e: seq<byte>, u: seq<byte>)
    ensures a + (b + (c + (d + e + u))) == Cat([a, b, c, d, e]) + u
  {
    CatFew(b, c, d, e);
    assert [a, b, c, d, e][1..] == [b, c, d, e];
    assert a + (b + (c + (d + e + u))) == a + (b + c + d + e) + u;
  }

  /** An NV public area: index, name algorithm, attributes, policy, size of the data. */
  lemma NvPublicWire(index: nat, nameAlg: nat, attributes: nat, policy: seq<byte>, size: nat)
    ensures Encode(TPMS_NV_PUBLIC, Rec([Num(index), Num(nameAlg), Num(attributes), Bytes(policy), Num(size)]))
            == Cat([ToBE(index, 4), ToBE(nameAlg, 2), ToBE(attributes, 4), ToBE(|policy|, 2), policy, ToBE(size, 2)])
  {
    hide *;
    var vs := [Num(index), Num(nameAlg), Num(attributes), Bytes(policy), Num(size)];
    NvPublicIs();
    var f4 := Plain(Sized(64), Plain(UInt(2), End));
    RecordFields(Plain(UInt(4), Plain(UInt(2), Plain(UInt(4), f4))), vs);
    var e1 := [] + [Num(index)];
    var e2 := e1 + [Num(nameAlg)];
    var e3 := e2 + [Num(attributes)];
    assert vs == [vs[0]] + vs[1..] && vs[1..] == [vs[1]] + vs[2..] && vs[2..] == [vs[2]] + vs[3..];
    assert vs[3..] == [vs[3]] + vs[4..] && vs[4..] == [vs[4]] + [];
    PeelField(UInt(4), Plain(UInt(2), Plain(UInt(4), f4)), [], vs[0], vs[1..]);
    PeelField(UInt(2), Plain(UInt(4), f4), e1, vs[1], vs[2..]);
    PeelField(UInt(4), f4, e2, vs[2], vs[3..]);
    PeelField(Sized(64), Plain(UInt(2), End), e3, vs[3], vs[4..]);
    PeelField(UInt(2), End, e3 + [vs[3]], vs[4], []);
    EndOfFields(e3 + [vs[3]] + [vs[4]]);
    Scalar(4, index);
    Scalar(2, nameAlg);
    Scalar(4, attributes);
    SizedBytes(64, policy);
    Scalar(2, size);
    assert ToBE(size, 2) + [] == ToBE(size, 2);
    FiveParts(ToBE(index, 4), ToBE(nameAlg, 2), ToBE(attributes, 4), ToBE(|policy|, 2), policy, ToBE(size, 2));
    CatAppend([ToBE(index, 4), ToBE(nameAlg, 2), ToBE(attributes, 4), ToBE(|policy|, 2), policy], [ToBE(size, 2)]);
    CatFew(ToBE(size, 2), [], [], []);
    assert [ToBE(index, 4), ToBE(nameAlg, 2), ToBE(attributes, 4), ToBE(|policy|, 2), policy] + [ToBE(size, 2)]
           == [ToBE(index, 4), ToBE(nameAlg, 2), ToBE(attributes, 4), ToBE(|policy|, 2), policy, ToBE(size, 2)];
  }

  lemma NvPublicIs()
    ensures TPMS_NV_PUBLIC == Record(Plain(UInt(4), Plain(UInt(2), Plain(UInt(4), Plain(Sized(64),
                                     Plain(UInt(2), End))))))
  {
  }

  /** A sensitive area: type, authorization value, seed, and the sized secret of a known type. */
  lemma SensitiveWire(kind: nat, auth: seq<byte>, seed: seq<byte>, secret: seq<byte>, member: Value)
    requires kind in {0x0001, 0x0008, 0x0023, 0x0025} ==> member == Bytes(secret)
    ensures Encode(TPMT_SENSITIVE, Rec([Num(kind), Bytes(auth), Bytes(seed), member]))
            == ToBE(kind, 2) + ToBE(|auth|, 2) + auth + ToBE(|seed|, 2) + seed
               + if kind in {0x0001, 0x0008, 0x0023, 0x0025} then ToBE(|secret|, 2) + secret else []
  {
    hide *;
    SensitiveCase(kind, secret, member);
    SensitiveFront(kind, auth, seed, member);
  }

  lemma SensitiveFront(kind: nat, auth: seq<byte>, seed: seq<byte>, member: Value)
    ensures Encode(TPMT_SENSITIVE, Rec([Num(kind), Bytes(auth), Bytes(seed), member]))
            == ToBE(kind, 2) + ToBE(|auth|, 2) + auth + ToBE(|seed|, 2) + seed
               + EncodeCase(TPMU_SENSITIVE_COMPOSITE, kind, member)
  {
    hide *;
    SensitiveFields(Num(kind), Bytes(auth), Bytes(seed), member);
    Scalar(2, kind);
    SizedBytes(64, auth);
    SizedBytes(64, seed);
    FiveAndUnion(ToBE(kind, 2), ToBE(|auth|, 2), auth, ToBE(|seed|, 2), seed,
                 EncodeCase(TPMU_SENSITIVE_COMPOSITE, kind, member));
  }

  lemma SensitiveFields(u: Value, v: Value, w: Value, x: Value)
    requires u.Num?
    ensures Encode(TPMT_SENSITIVE, Rec([u, v, w, x]))
            == Encode(UInt(2), u) + (Encode(Sized(64), v) + (Encode(Sized(64), w)
               + EncodeCase(TPMU_SENSITIVE_COMPOSITE, u.n, x)))
  {
    hide *;
    var last := Choice(0, false, TPMU_SENSITIVE_COMPOSITE, End);
    SensitiveIs();
    RecordFields(Plain(UInt(2), Plain(Sized(64), Plain(Sized(64), last))), [u, v, w, x]);
    ThreeThen(UInt(2), Sized(64), Sized(64), last, u, v, w, [x]);
    assert [u, v, w] + [x] == [u, v, w, x];
    LastUnion(TPMU_SENSITIVE_COMPOSITE, [u, v, w], 0, false, x);
    SelectorFront(u, [v, w]);
    assert [u] + [v, w] == [u, v, w];
  }

  lemma ThreeThen(a: Format, b: Format, c: Format, t: Fields, u: Value, v: Value, w: Value, rest: seq<Value>)
    ensures EncodeFields(Plain(a, Plain(b, Plain(c, t))), [], [u, v, w] + rest)
            == Encode(a, u) + (Encode(b, v) + (Encode(c, w) + EncodeFields(t, [u, v, w], rest)))
  {
    hide *;
    OneThen(a, Plain(b, Plain(c, t)), u, [v, w] + rest);
    assert [u] + ([v, w] + rest) == [u, v, w] + rest && [v] + ([w] + rest) == [v, w] + rest;
    PeelField(b, Plain(c, t), [u], v, [w] + rest);
    PeelField(c, t, [u] + [v], w, rest);
    assert [u] + [v] + [w] == [u, v, w];
  }

  lemma FiveAndUnion(a: seq<byte>, b: seq<byte>, c: seq<byte>, d: seq<byte>, e: seq<byte>, u: seq<byte>)
    ensures a + (b + c + (d + e + u)) == a + b + c + d + e + u
  {
    Assoc(d, e, u);
    Assoc(a + b + c, d + e, u);
    Assoc(a + b + c, d, e);
    Assoc(a, b + c, d + e + u);
    Assoc(a, b, c);
  }

  lemma SensitiveIs()
    ensures TPMT_SENSITIVE == Record(Plain(UInt(2), Plain(Sized(64), Plain(Sized(64),
                                     Choice(0, false, TPMU_SENSITIVE_COMPOSITE, End)))))
  {
  }

  lemma SensitiveCase(kind: nat, secret: seq<byte>, v: Value)
    requires kind in {0x0001, 0x0008, 0x0023, 0x0025} ==> v == Bytes(secret)
    ensures EncodeCase(TPMU_SENSITIVE_COMPOSITE, kind, v)
            == if kind in {0x0001, 0x0008, 0x0023, 0x0025} then ToBE(|secret|, 2) + secret else []
  {
    SizedBytes(256, secret);
    SizedBytes(128, secret);
    SizedBytes(32, secret);
    hide Encode, ToBE;
    var c2 := TPMU_SENSITIVE_COMPOSITE.others.others;
    assert EncodeCase(c2, kind, v) ==
           if kind == 8 then Encode(Sized(256), v) else if kind == 0x25 then Encode(Sized(32), v) else [];
    assert EncodeCase(TPMU_SENSITIVE_COMPOSITE, kind, v) ==
           if kind == 1 then Encode(Sized(256), v) else if kind == 0x23 then Encode(Sized(128), v)
           else EncodeCase(c2, kind, v);
  }

  // ---------------------------------------------------------------- attestation

  /** Clock, reset count, restart count, and whether the clock is safe. */
  lemma ClockWire(clock: nat, resets: nat, restarts: nat, safe: nat)
    ensures Encode(TPMS_CLOCK_INFO, Rec([Num(clock), Num(resets), Num(restarts), Num(safe)]))
            == ToBE(clock, 8) + ToBE(resets, 4) + ToBE(restarts, 4) + ToBE(safe, 1)
  {
    hide *;
    ClockIs();
    FourFields(UInt(8), UInt(4), UInt(4), UInt(1), Num(clock), Num(resets), Num(restarts), Num(safe));
    Scalar(8, clock);
    Scalar(4, resets);
    Scalar(4, restarts);
    Scalar(1, safe);
    Flat(ToBE(clock, 8), ToBE(resets, 4), ToBE(restarts, 4), ToBE(safe, 1));
  }

  lemma ClockIs()
    ensures TPMS_CLOCK_INFO == Record(Plain(UInt(8), Plain(UInt(4), Plain(UInt(4), Plain(UInt(1), End)))))
  {
  }

  /** What is attested of an object: its name and qualified name, or its name and the hash of
      its creation data. */
  lemma ObjectInfoWire(name: seq<byte>, other: seq<byte>)
    ensures Encode(TPMS_CERTIFY_INFO, Rec([Bytes(name), Bytes(other)])) ==
            ToBE(|name|, 2) + name + ToBE(|other|, 2) + other
    ensures Encode(TPMS_CREATION_INFO, Rec([Bytes(name), Bytes(other)])) ==
            ToBE(|name|, 2) + name + ToBE(|other|, 2) + other
  {
    hide Encode, ToBE;
    TwoFields(Sized(68), Sized(68), Bytes(name), Bytes(other));
    TwoFields(Sized(68), Sized(64), Bytes(name), Bytes(other));
    SizedBytes(68, name);
    SizedBytes(68, other);
    SizedBytes(64, other);
    Assoc(ToBE(|name|, 2) + name, ToBE(|other|, 2), other);
  }

  /** Of PCRs: the selections and the digest. */
  lemma QuoteInfoWire(selections: seq<Value>, digest: seq<byte>)
    ensures Encode(TPMS_QUOTE_INFO, Rec([Items(selections), Bytes(digest)])) ==
            ToBE(|selections|, 4) + EncodeAll(PcrSelect(2), selections) + (ToBE(|digest|, 2) + digest)
  {
    TwoFields(List(16, PcrSelect(2)), Sized(64), Items(selections), Bytes(digest));
    SizedBytes(64, digest);
    ListBytes(16, PcrSelect(2), selections);
    hide Encode, ToBE, EncodeAll;
  }

  /** Of command audit: counter, digest algorithm, audit digest, command digest. */
  lemma CommandAuditWire(counter: nat, alg: nat, audit: seq<byte>, command: seq<byte>)
    ensures Encode(TPMS_COMMAND_AUDIT_INFO, Rec([Num(counter), Num(alg), Bytes(audit), Bytes(command)])) ==
            ToBE(counter, 8) + ToBE(alg, 2) + (ToBE(|audit|, 2) + audit) + (ToBE(|command|, 2) + command)
  {
    hide *;
    CommandAuditIs();
    FourFields(UInt(8), UInt(2), Sized(64), Sized(64), Num(counter), Num(alg), Bytes(audit), Bytes(command));
    Scalar(8, counter);
    Scalar(2, alg);
    SizedBytes(64, audit);
    SizedBytes(64, command);
    Flat(ToBE(counter, 8), ToBE(alg, 2), ToBE(|audit|, 2) + audit, ToBE(|command|, 2) + command);
  }

  lemma CommandAuditIs()
    ensures TPMS_COMMAND_AUDIT_INFO == Record(Plain(UInt(8), Plain(UInt(2), Plain(Sized(64), Plain(Sized(64), End)))))
  {
  }

  /** Of session audit: exclusiveness and digest. */
  lemma SessionAuditWire(exclusive: nat, digest: seq<byte>)
    ensures Encode(TPMS_SESSION_AUDIT_INFO, Rec([Num(exclusive), Bytes(digest)])) ==
            ToBE(exclusive, 1) + (ToBE(|digest|, 2) + digest)
  {
    TwoFields(UInt(1), Sized(64), Num(exclusive), Bytes(digest));
    Scalar(1, exclusive);
    SizedBytes(64, digest);
    hide Encode, ToBE;
  }

  /** Of time: the time, the clock, the firmware version. */
  lemma TimeInfoWire(time: nat, clock: Value, firmware: nat)
    ensures Encode(TPMS_TIME_ATTEST_INFO, Rec([Rec([Num(time), clock]), Num(firmware)])) ==
            ToBE(time, 8) + Encode(TPMS_CLOCK_INFO, clock) + ToBE(firmware, 8)
  {
    TwoFields(TPMS_TIME_INFO, UInt(8), Rec([Num(time), clock]), Num(firmware));
    TwoFields(UInt(8), TPMS_CLOCK_INFO, Num(time), clock);
    Scalar(8, time);
    Scalar(8, firmware);
    hide Encode, ToBE;
  }

  /** Of NV data: the name of the index, the offset, the data. */
  lemma NvCertifyWire(name: seq<byte>, offset: nat, data: seq<byte>)
    ensures Encode(TPMS_NV_CERTIFY_INFO, Rec([Bytes(name), Num(offset), Bytes(data)])) ==
            (ToBE(|name|, 2) + name) + (ToBE(offset, 2) + (ToBE(|data|, 2) + data))
  {
    ThreeFields(Sized(68), UInt(2), Sized(2048), Bytes(name), Num(offset), Bytes(data));
    SizedBytes(68, name);
    Scalar(2, offset);
    SizedBytes(2048, data);
    hide Encode, ToBE;
  }

  /** The attested part under each of the seven types; any other type has none. */
  lemma AttestedWire(kind: nat, v: Value)
    ensures EncodeCase(TPMU_ATTEST, kind, v) ==
            match kind
            case 0x8014 => Encode(TPMS_NV_CERTIFY_INFO, v)
            case 0x8015 => Encode(TPMS_COMMAND_AUDIT_INFO, v)
            case 0x8016 => Encode(TPMS_SESSION_AUDIT_INFO, v)
            case 0x8017 => Encode(TPMS_CERTIFY_INFO, v)
            case 0x8018 => Encode(TPMS_QUOTE_INFO, v)
            case 0x8019 => Encode(TPMS_TIME_ATTEST_INFO, v)
            case 0x801A => Encode(TPMS_CREATION_INFO, v)
            case _ => []
  {
    hide Encode;
    var c2 := TPMU_ATTEST.others.others;
    var c4 := c2.others.others;
    assert EncodeCase(c4, kind, v) ==
           if kind == 0x8016 then Encode(TPMS_SESSION_AUDIT_INFO, v)
           else if kind == 0x8019 then Encode(TPMS_TIME_ATTEST_INFO, v)
           else EncodeCase(c4.others.others, kind, v);
    assert EncodeCase(c4.others.others, kind, v) == if kind == 0x8014 then Encode(TPMS_NV_CERTIFY_INFO, v) else [];
    assert EncodeCase(c2, kind, v) ==
           if kind == 0x8018 then Encode(TPMS_QUOTE_INFO, v)
           else if kind == 0x8015 then Encode(TPMS_COMMAND_AUDIT_INFO, v)
           else EncodeCase(c4, kind, v);
  }

  /** An attestation: magic, type, signer, extra data, clock, firmware version, and the part
      under its type. */
  lemma AttestWire(magic: nat, kind: nat, signer: seq<byte>, extra: seq<byte>, clock: Value, firmware: nat, v: Value)
    ensures Encode(TPMS_ATTEST, Rec([Num(magic), Num(kind), Bytes(signer), Bytes(extra), clock, Num(firmware), v]))
            == ToBE(magic, 4) + (ToBE(kind, 2) + (ToBE(|signer|, 2) + signer + (ToBE(|extra|, 2) + extra
               + (Encode(TPMS_CLOCK_INFO, clock) + (ToBE(firmware, 8) + EncodeCase(TPMU_ATTEST, kind, v))))))
  {
    hide *;
    var front, back := [Num(magic), Num(kind), Bytes(signer)], [Bytes(extra), clock, Num(firmware)];
    AttestIs();
    var last := Choice(1, true, TPMU_ATTEST, End);
    var tail := Plain(Sized(64), Plain(TPMS_CLOCK_INFO, Plain(UInt(8), last)));
    RecordFields(Plain(UInt(4), Plain(UInt(2), Plain(Sized(68), tail))), front + back + [v]);
    ThreeThen(UInt(4), UInt(2), Sized(68), tail, Num(magic), Num(kind), Bytes(signer), back + [v]);
    ThreeBehind(Sized(64), TPMS_CLOCK_INFO, UInt(8), last, front, Bytes(extra), clock, Num(firmware), [v]);
    assert front + (back + [v]) == front + back + [v];
    assert front + back + [v] == [Num(magic), Num(kind), Bytes(signer), Bytes(extra), clock, Num(firmware), v];
    LastUnion(TPMU_ATTEST, front + back, 1, true, v);
    SecondSelector(front + back);
    Scalar(4, magic);
    Scalar(2, kind);
    SizedBytes(68, signer);
    SizedBytes(64, extra);
    Scalar(8, firmware);
  }

  lemma AttestIs()
    ensures TPMS_ATTEST == Record(Plain(UInt(4), Plain(UInt(2), Plain(Sized(68), Plain(Sized(64),
                                  Plain(TPMS_CLOCK_INFO, Plain(UInt(8), Choice(1, true, TPMU_ATTEST, End))))))))
  {
  }

  lemma SecondSelector(env: seq<Value>)
    requires |env| > 1 && env[1].Num?
    ensures SelectorOf(env, 1) == env[1].n
  {
  }

  lemma ThreeBehind(a: Format, b: Format, c: Format, t: Fields, env: seq<Value>, u: Value, v: Value, w: Value,
                    rest: seq<Value>)
    ensures EncodeFields(Plain(a, Plain(b, Plain(c, t))), env, [u, v, w] + rest)
            == Encode(a, u) + (Encode(b, v) + (Encode(c, w) + EncodeFields(t, env + [u, v, w], rest)))
  {
    hide *;
    assert [u] + ([v, w] + rest) == [u, v, w] + rest && [v] + ([w] + rest) == [v, w] + rest;
    PeelField(a, Plain(b, Plain(c, t)), env, u, [v, w] + rest);
    PeelField(b, Plain(c, t), env + [u], v, [w] + rest);
    PeelField(c, t, env + [u] + [v], w, rest);
    assert env + [u] + [v] + [w] == env + [u, v, w];
  }

  // ---------------------------------------------------------------- the rest

  /** A digest under its algorithm, and an authorization in a response. */
  lemma DigestWire(alg: nat, digest: seq<byte>, v: Value)
    requires alg in {0x0004, 0x000B, 0x000C, 0x000D, 0x0012} ==> v == Bytes(digest)
    ensures Encode(TPMT_HA, Rec([Num(alg), v])) ==
            if alg in {0x0004, 0x000B, 0x000C, 0x000D, 0x0012} then ToBE(alg, 2) + digest else ToBE(alg, 2)
  {
    Tagged(TPMU_HA, alg, v);
    NothingBehind(ToBE(alg, 2));
    HashCase(alg, v);
    hide *;
  }

  lemma HashCase(alg: nat, v: Value)
    ensures EncodeCase(TPMU_HA, alg, v) ==
            if alg in {0x0004, 0x000B, 0x000C, 0x000D, 0x0012} && v.Bytes? then v.bs else []
  {
    var c2 := TPMU_HA.others.others;
    assert EncodeCase(c2.others.others, alg, v) == if alg == 0x12 && v.Bytes? then v.bs else [];
    assert EncodeCase(c2, alg, v) ==
           if alg == 0x0C || alg == 0x0D then (if v.Bytes? then v.bs else []) else EncodeCase(c2.others.others, alg, v);
  }

  /** How many bytes the digests have, and how many elements the lists: what is read is held
      against these numbers (see MuWire.LeafRead, MuWire.ListRead). */
  lemma Limits()
    ensures TPM2B_DIGEST == Sized(64) && TPM2B_DATA == Sized(64) && TPM2B_NAME == Sized(68)
    ensures TPM2B_ECC_PARAMETER == Sized(128) && TPM2B_PUBLIC_KEY_RSA == Sized(512)
    ensures TPM2B_PRIVATE_KEY_RSA == Sized(256) && TPM2B_SYM_KEY == Sized(32) && TPM2B_SENSITIVE_DATA == Sized(256)
    ensures TPM2B_MAX_NV_BUFFER == Sized(2048) && TPM2B_ENCRYPTED_SECRET == Sized(512)
    ensures TPMU_HA == Case(0x0004, Raw(20), Case(0x000B, Raw(32), Case(0x000C, Raw(48), Case(0x000D, Raw(64),
                       Case(0x0012, Raw(32), NoCase)))))
    ensures TPML_PCR_SELECTION == List(16, PcrSelect(2)) && TPML_DIGEST == List(8, Sized(64))
    ensures TPML_HANDLE == List(254, UInt(4)) && TPML_DIGEST_VALUES == List(16, TPMT_HA)
  {
  }
}
