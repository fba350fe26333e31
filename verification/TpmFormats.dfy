/**
 The TPM structures, as instances of the macro families. Capacities are the sizes of the
 arrays in tss2_tpm2_types.h.
 */
module TpmFormats {
  import opened TpmBase
  import opened MuFormat
  import opened MuLaws
  import opened MuBounds
  import opened MuSkip

  const ALG_RSA := 0x0001
  const ALG_SHA1 := 0x0004
  const ALG_HMAC := 0x0005
  const ALG_AES := 0x0006
  const ALG_MGF1 := 0x0007
  const ALG_KEYEDHASH := 0x0008
  const ALG_XOR := 0x000A
  const ALG_SHA256 := 0x000B
  const ALG_SHA384 := 0x000C
  const ALG_SHA512 := 0x000D
  const ALG_NULL := 0x0010
  const ALG_SM3_256 := 0x0012
  const ALG_SM4 := 0x0013
  const ALG_RSASSA := 0x0014
  const ALG_RSAPSS := 0x0016
  const ALG_OAEP := 0x0017
  const ALG_ECDSA := 0x0018
  const ALG_ECDH := 0x0019
  const ALG_ECDAA := 0x001A
  const ALG_SM2 := 0x001B
  const ALG_ECSCHNORR := 0x001C
  const ALG_ECMQV := 0x001D
  const ALG_KDF1_SP800_56A := 0x0020
  const ALG_KDF2 := 0x0021
  const ALG_KDF1_SP800_108 := 0x0022
  const ALG_ECC := 0x0023
  const ALG_SYMCIPHER := 0x0025
  const ALG_CAMELLIA := 0x0026
  const ALG_CFB := 0x0043

  const UINT8: Format := UInt(1)
  const UINT16: Format := UInt(2)
  const UINT32: Format := UInt(4)
  const UINT64: Format := UInt(8)

  // ---------------------------------------------------------------- sized buffers

  const TPM2B_DIGEST: Format := Sized(64)
  const TPM2B_DATA: Format := Sized(64)
  const TPM2B_NAME: Format := Sized(68)
  const TPM2B_ECC_PARAMETER: Format := Sized(128)
  const TPM2B_PUBLIC_KEY_RSA: Format := Sized(512)
  const TPM2B_PRIVATE_KEY_RSA: Format := Sized(256)
  const TPM2B_SYM_KEY: Format := Sized(32)
  const TPM2B_SENSITIVE_DATA: Format := Sized(256)
  const TPM2B_MAX_NV_BUFFER: Format := Sized(2048)
  const TPM2B_ENCRYPTED_SECRET: Format := Sized(512)

  // ---------------------------------------------------------------- schemes and keys

  const TPMS_SCHEME_HASH: Format := Record(Plain(UINT16, End))
  const TPMS_SCHEME_ECDAA: Format := Record(Plain(UINT16, Plain(UINT16, End)))
  const TPMS_SCHEME_XOR: Format := Record(Plain(UINT16, Plain(UINT16, End)))

  const TPMU_HA: Cases :=
    Case(ALG_SHA1, Raw(20), Case(ALG_SHA256, Raw(32), Case(ALG_SHA384, Raw(48),
    Case(ALG_SHA512, Raw(64), Case(ALG_SM3_256, Raw(32), NoCase)))))

  const TPMU_SYM_KEY_BITS: Cases :=
    Case(ALG_AES, UINT16, Case(ALG_SM4, UINT16, Case(ALG_CAMELLIA, UINT16, Case(ALG_XOR, UINT16, NoCase))))

  const TPMU_SYM_MODE: Cases :=
    Case(ALG_AES, UINT16, Case(ALG_SM4, UINT16, Case(ALG_CAMELLIA, UINT16, NoCase)))

  const TPMU_SCHEME_KEYEDHASH: Cases :=
    Case(ALG_HMAC, TPMS_SCHEME_HASH, Case(ALG_XOR, TPMS_SCHEME_XOR, NoCase))

  const TPMU_KDF_SCHEME: Cases :=
    Case(ALG_MGF1, TPMS_SCHEME_HASH, Case(ALG_KDF1_SP800_56A, TPMS_SCHEME_HASH,
    Case(ALG_KDF1_SP800_108, TPMS_SCHEME_HASH, NoCase)))

  const TPMU_ASYM_SCHEME: Cases :=
    Case(ALG_ECDH, TPMS_SCHEME_HASH, Case(ALG_ECMQV, TPMS_SCHEME_HASH, Case(ALG_RSASSA, TPMS_SCHEME_HASH,
    Case(ALG_RSAPSS, TPMS_SCHEME_HASH, Case(ALG_ECDSA, TPMS_SCHEME_HASH, Case(ALG_ECDAA, TPMS_SCHEME_ECDAA,
    Case(ALG_SM2, TPMS_SCHEME_HASH, Case(ALG_ECSCHNORR, TPMS_SCHEME_HASH,
    Case(ALG_OAEP, TPMS_SCHEME_HASH, NoCase)))))))))

  const TPMT_HA: Format := Record(Plain(UINT16, Choice(0, false, TPMU_HA, End)))
  const TPMT_SYM_DEF: Format :=
    Record(Plain(UINT16, Choice(0, false, TPMU_SYM_KEY_BITS, Choice(0, false, TPMU_SYM_MODE, End))))
  const TPMT_KEYEDHASH_SCHEME: Format := Record(Plain(UINT16, Choice(0, false, TPMU_SCHEME_KEYEDHASH, End)))
  const TPMT_KDF_SCHEME: Format := Record(Plain(UINT16, Choice(0, false, TPMU_KDF_SCHEME, End)))
  /** TPMT_ASYM_SCHEME, TPMT_RSA_SCHEME, TPMT_RSA_DECRYPT and TPMT_ECC_SCHEME */
  const TPMT_ASYM_SCHEME: Format := Record(Plain(UINT16, Choice(0, false, TPMU_ASYM_SCHEME, End)))

  const TPMS_ECC_POINT: Format := Record(Plain(TPM2B_ECC_PARAMETER, Plain(TPM2B_ECC_PARAMETER, End)))
  const TPMS_KEYEDHASH_PARMS: Format := Record(Plain(TPMT_KEYEDHASH_SCHEME, End))
  const TPMS_SYMCIPHER_PARMS: Format := Record(Plain(TPMT_SYM_DEF, End))
  const TPMS_RSA_PARMS: Format :=
    Record(Plain(TPMT_SYM_DEF, Plain(TPMT_ASYM_SCHEME, Plain(UINT16, Plain(UINT32, End)))))
  const TPMS_ECC_PARMS: Format :=
    Record(Plain(TPMT_SYM_DEF, Plain(TPMT_ASYM_SCHEME, Plain(UINT16, Plain(TPMT_KDF_SCHEME, End)))))

  const TPMU_PUBLIC_PARMS: Cases :=
    Case(ALG_KEYEDHASH, TPMS_KEYEDHASH_PARMS, Case(ALG_SYMCIPHER, TPMS_SYMCIPHER_PARMS,
    Case(ALG_RSA, TPMS_RSA_PARMS, Case(ALG_ECC, TPMS_ECC_PARMS, NoCase))))
  const TPMU_PUBLIC_ID: Cases :=
    Case(ALG_KEYEDHASH, TPM2B_DIGEST, Case(ALG_SYMCIPHER, TPM2B_DIGEST,
    Case(ALG_RSA, TPM2B_PUBLIC_KEY_RSA, Case(ALG_ECC, TPMS_ECC_POINT, NoCase))))
  const TPMU_SENSITIVE_COMPOSITE: Cases :=
    Case(ALG_RSA, TPM2B_PRIVATE_KEY_RSA, Case(ALG_ECC, TPM2B_ECC_PARAMETER,
    Case(ALG_KEYEDHASH, TPM2B_SENSITIVE_DATA, Case(ALG_SYMCIPHER, TPM2B_SYM_KEY, NoCase))))

  const PUBLIC_UNIONS: Fields := Choice(0, false, TPMU_PUBLIC_PARMS, Choice(0, false, TPMU_PUBLIC_ID, End))
  const TPMT_PUBLIC: Format :=
    Record(Plain(UINT16, Plain(UINT16, Plain(UINT32, Plain(TPM2B_DIGEST, PUBLIC_UNIONS)))))
  const TPMT_SENSITIVE: Format :=
    Record(Plain(UINT16, Plain(TPM2B_DIGEST, Plain(TPM2B_DIGEST, Choice(0, false, TPMU_SENSITIVE_COMPOSITE, End)))))
  const TPMS_NV_PUBLIC: Format :=
    Record(Plain(UINT32, Plain(UINT16, Plain(UINT32, Plain(TPM2B_DIGEST, Plain(UINT16, End))))))

  // ---------------------------------------------------------------- lists and attestation

  const TPMS_PCR_SELECTION: Format := PcrSelect(2)
  const TPML_PCR_SELECTION: Format := List(16, TPMS_PCR_SELECTION)
  const TPML_DIGEST: Format := List(8, TPM2B_DIGEST)
  const TPML_HANDLE: Format := List(254, UINT32)
  const TPML_DIGEST_VALUES: Format := List(16, TPMT_HA)

  const TPMS_CLOCK_INFO: Format := Record(Plain(UINT64, Plain(UINT32, Plain(UINT32, Plain(UINT8, End)))))
  const TPMS_TIME_INFO: Format := Record(Plain(UINT64, Plain(TPMS_CLOCK_INFO, End)))
  const TPMS_TIME_ATTEST_INFO: Format := Record(Plain(TPMS_TIME_INFO, Plain(UINT64, End)))
  const TPMS_CERTIFY_INFO: Format := Record(Plain(TPM2B_NAME, Plain(TPM2B_NAME, End)))
  const TPMS_CREATION_INFO: Format := Record(Plain(TPM2B_NAME, Plain(TPM2B_DIGEST, End)))
  const TPMS_QUOTE_INFO: Format := Record(Plain(TPML_PCR_SELECTION, Plain(TPM2B_DIGEST, End)))
  const TPMS_COMMAND_AUDIT_INFO: Format :=
    Record(Plain(UINT64, Plain(UINT16, Plain(TPM2B_DIGEST, Plain(TPM2B_DIGEST, End)))))
  const TPMS_SESSION_AUDIT_INFO: Format := Record(Plain(UINT8, Plain(TPM2B_DIGEST, End)))
  const TPMS_NV_CERTIFY_INFO: Format := Record(Plain(TPM2B_NAME, Plain(UINT16, Plain(TPM2B_MAX_NV_BUFFER, End))))

  const ST_ATTEST_NV := 0x8014
  const ST_ATTEST_COMMAND_AUDIT := 0x8015
  const ST_ATTEST_SESSION_AUDIT := 0x8016
  const ST_ATTEST_CERTIFY := 0x8017
  const ST_ATTEST_QUOTE := 0x8018
  const ST_ATTEST_TIME := 0x8019
  const ST_ATTEST_CREATION := 0x801A

  const TPMU_ATTEST: Cases :=
    Case(ST_ATTEST_CERTIFY, TPMS_CERTIFY_INFO, Case(ST_ATTEST_CREATION, TPMS_CREATION_INFO,
    Case(ST_ATTEST_QUOTE, TPMS_QUOTE_INFO, Case(ST_ATTEST_COMMAND_AUDIT, TPMS_COMMAND_AUDIT_INFO,
    Case(ST_ATTEST_SESSION_AUDIT, TPMS_SESSION_AUDIT_INFO, Case(ST_ATTEST_TIME, TPMS_TIME_ATTEST_INFO,
    Case(ST_ATTEST_NV, TPMS_NV_CERTIFY_INFO, NoCase)))))))

  const ATTEST_TAIL: Fields := Plain(TPMS_CLOCK_INFO, Plain(UINT64, Choice(1, true, TPMU_ATTEST, End)))
  const ATTEST_FIELDS: Fields := Plain(UINT32, Plain(UINT16, Plain(TPM2B_NAME, Plain(TPM2B_DATA, ATTEST_TAIL))))
  const TPMS_ATTEST: Format := Record(ATTEST_FIELDS)

  /** A record of plain fields only. */
  function FromHeads(hs: seq<Format>): Fields {
    if hs == [] then End else Plain(hs[0], FromHeads(hs[1..]))
  }

  lemma {:induction false} HoldsHeads(g: Grade, hs: seq<Format>, env: seq<Value>, vs: seq<Value>)
    ensures HoldsFields(g, FromHeads(hs), env, vs)
            <==> |vs| == |hs| && forall i :: 0 <= i < |hs| ==> Holds(g, hs[i], vs[i])
  {
    if hs != [] && vs != [] {
      HoldsHeads(g, hs[1..], env + [vs[0]], vs[1..]);
      assert hs == [hs[0]] + hs[1..] && vs == [vs[0]] + vs[1..];
    }
  }

  /** The session metadata of the ESYS layer; the array before the last field is counted by
      the UINT16 in front of it. */
  const SESSION_HEADS: seq<Format> := [
    TPM2B_NAME, TPM2B_ENCRYPTED_SECRET, TPM2B_DATA, TPMT_SYM_DEF, UINT16, TPM2B_DIGEST, UINT8, UINT8,
    TPM2B_DIGEST, TPM2B_DIGEST, Enum32([1, 0]), Enum32([1, 0]), Enum32([2, 1, 0]), Counted(128), UINT16]
  const IESYS_SESSION: Format := Record(FromHeads(SESSION_HEADS))

  // ---------------------------------------------------------------- TPMT_PUBLIC

  /** The two unions of a public area, both under its type; a type without a case puts
      nothing in their place. */
  function UnionBytes(kind: nat, parms: Value, id: Value): seq<byte> {
    if kind == ALG_KEYEDHASH then Encode(TPMS_KEYEDHASH_PARMS, parms) + Encode(TPM2B_DIGEST, id)
    else if kind == ALG_SYMCIPHER then Encode(TPMS_SYMCIPHER_PARMS, parms) + Encode(TPM2B_DIGEST, id)
    else if kind == ALG_RSA then Encode(TPMS_RSA_PARMS, parms) + Encode(TPM2B_PUBLIC_KEY_RSA, id)
    else if kind == ALG_ECC then Encode(TPMS_ECC_PARMS, parms) + Encode(TPMS_ECC_POINT, id)
    else []
  }

  /** The bytes of a public area, field by field. */
  lemma {:induction false} PublicWire(kind: nat, nameAlg: nat, attributes: nat, policy: seq<byte>, parms: Value,
                                      id: Value)
    ensures Encode(TPMT_PUBLIC, Rec([Num(kind), Num(nameAlg), Num(attributes), Bytes(policy), parms, id]))
            == ToBE(kind, 2) + (ToBE(nameAlg, 2) + (ToBE(attributes, 4)
               + (ToBE(|policy|, 2) + policy + UnionBytes(kind, parms, id))))
  {
    hide EncodeFields, EncodeCase, ToBE, UnionBytes;
    var e1 := [Num(kind)];
    var e2 := e1 + [Num(nameAlg)];
    var e3 := e2 + [Num(attributes)];
    var e4 := e3 + [Bytes(policy)];
    var vs := [Num(kind), Num(nameAlg), Num(attributes), Bytes(policy), parms, id];
    assert [] + [Num(kind)] == e1 && [vs[0]] + vs[1..] == vs;
    assert vs[1..] == [Num(nameAlg)] + [Num(attributes), Bytes(policy), parms, id];
    assert [Num(attributes)] + [Bytes(policy), parms, id] == [Num(attributes), Bytes(policy), parms, id];
    assert [Bytes(policy)] + [parms, id] == [Bytes(policy), parms, id];
    PublicUnionsWire(e4, kind, parms, id);
    PeelField(TPM2B_DIGEST, PUBLIC_UNIONS, e3, Bytes(policy), [parms, id]);
    PeelField(UINT32, Plain(TPM2B_DIGEST, PUBLIC_UNIONS), e2, Num(attributes), [Bytes(policy), parms, id]);
    PeelField(UINT16, Plain(UINT32, Plain(TPM2B_DIGEST, PUBLIC_UNIONS)), e1, Num(nameAlg),
              [Num(attributes), Bytes(policy), parms, id]);
    PeelField(UINT16, TPMT_PUBLIC.fields.tail, [], Num(kind),
              [Num(nameAlg), Num(attributes), Bytes(policy), parms, id]);
  }

  lemma PeelField(h: Format, t: Fields, env: seq<Value>, v: Value, rest: seq<Value>)
    ensures EncodeFields(Plain(h, t), env, [v] + rest) == Encode(h, v) + EncodeFields(t, env + [v], rest)
  {
    Cons(v, rest);
  }

  lemma {:induction false} PublicUnionsWire(env: seq<Value>, kind: nat, parms: Value, id: Value)
    requires SelectorOf(env, 0) == kind && env != []
    ensures EncodeFields(PUBLIC_UNIONS, env, [parms, id]) == UnionBytes(kind, parms, id)
  {
    assert [parms, id][1..] == [id];
    assert SelectorOf(env + [parms], 0) == kind;
    assert EncodeFields(End, env + [parms] + [id], [id][1..]) == [];
    assert EncodeFields(PUBLIC_UNIONS.tail, env + [parms], [id]) == EncodeCase(TPMU_PUBLIC_ID, kind, id);
  }

  /** Selectors without a case: KDF2 is a member of the KDF union but has no case in its
      switch, so the scheme travels without its hash algorithm. */
  lemma Kdf2HasNoDetails(details: Value)
    ensures Encode(TPMT_KDF_SCHEME, Rec([Num(ALG_KDF2), details])) == ToBE(ALG_KDF2, 2)
    ensures Holds(WellFormed, TPMT_KDF_SCHEME, Rec([Num(ALG_KDF2), details])) <==> details == Absent
  {
    var vs := [Num(ALG_KDF2), details];
    assert vs[1..] == [details];
    assert [] + [vs[0]] == [vs[0]];
    assert [details][1..] == [];
    assert 0x21 < Pow256(2) by { assert Pow256(2) == 256 * Pow256(1) && Pow256(1) == 256 * Pow256(0); }
  }

  // ---------------------------------------------------------------- lengths

  lemma SchemeLengths()
    ensures MaxLen(TPMS_SCHEME_HASH) == 2
    ensures MaxLen(TPMS_SCHEME_ECDAA) == 4
    ensures MaxLen(TPMS_SCHEME_XOR) == 4
  {
  }

  lemma AsymFields()
    ensures MaxLen(TPMT_ASYM_SCHEME) == 2 + MaxLenCases(TPMU_ASYM_SCHEME)
  {
    hide MaxLenCases;
  }

  lemma AsymLength()
    ensures MaxLen(TPMT_ASYM_SCHEME) == 6
  {
    SchemeLengths();
    hide MaxLenFields;
    var last4 := TPMU_ASYM_SCHEME.others.others.others.others.others;
    assert MaxLenCases(last4.others.others) == 2;
    assert MaxLenCases(last4) == 4;
    assert MaxLenCases(TPMU_ASYM_SCHEME.others.others) == 4;
    assert MaxLenCases(TPMU_ASYM_SCHEME) == 4;
    AsymFields();
  }

  lemma SchemeUnionLengths()
    ensures MaxLenCases(TPMU_SYM_KEY_BITS) == 2 && MaxLenCases(TPMU_SYM_MODE) == 2
    ensures MaxLenCases(TPMU_SCHEME_KEYEDHASH) == 4 && MaxLenCases(TPMU_KDF_SCHEME) == 2
  {
    SchemeLengths();
    hide MaxLenFields;
  }

  lemma SchemeRecordLengths()
    ensures MaxLen(TPMT_SYM_DEF) == 6 && MaxLen(TPMT_KEYEDHASH_SCHEME) == 6 && MaxLen(TPMT_KDF_SCHEME) == 4
  {
    hide MaxLenCases;
    SchemeUnionLengths();
  }

  lemma ParmsRecordLengths()
    ensures MaxLen(TPMS_RSA_PARMS) == 18 && MaxLen(TPMS_ECC_PARMS) == 18 && MaxLen(TPMS_ECC_POINT) == 260
    ensures MaxLen(TPMS_KEYEDHASH_PARMS) == 6 && MaxLen(TPMS_SYMCIPHER_PARMS) == 6
  {
    hide MaxLenCases;
    SchemeRecordLengths();
    AsymLength();
  }

  lemma ParmsLengths()
    ensures MaxLenCases(TPMU_PUBLIC_PARMS) == 18
    ensures MaxLenCases(TPMU_PUBLIC_ID) == 514
  {
    hide MaxLenFields;
    ParmsRecordLengths();
  }

  /** The longest public area is 606 bytes, and the longest NV public area 78. */
  lemma PublicLengths()
    ensures MaxLen(TPMT_PUBLIC) == 606
    ensures MaxLen(TPMS_NV_PUBLIC) == 78
  {
    ParmsLengths();
    hide MaxLenCases;
    assert MaxLenFields(PUBLIC_UNIONS) == 532;
    assert MaxLenFields(TPMT_PUBLIC.fields.tail.tail) == 602;
  }

  lemma Rounds()
    ensures RoundUp(0, 2) == 0 && RoundUp(2, 2) == 2 && RoundUp(4, 2) == 4 && RoundUp(6, 2) == 6
    ensures RoundUp(12, 2) == 12 && RoundUp(14, 2) == 14 && RoundUp(18, 2) == 18 && RoundUp(66, 2) == 66
    ensures RoundUp(130, 2) == 130 && RoundUp(260, 2) == 260 && RoundUp(514, 2) == 514 && RoundUp(76, 2) == 76
    ensures RoundUp(8, 2) == 8 && RoundUp(10, 2) == 10 && RoundUp(96, 2) == 96 && RoundUp(78, 2) == 78
    ensures RoundUp(0, 4) == 0 && RoundUp(4, 4) == 4 && RoundUp(6, 4) == 8 && RoundUp(14, 4) == 16
    ensures RoundUp(20, 4) == 20 && RoundUp(74, 4) == 76 && RoundUp(80, 4) == 80 && RoundUp(610, 4) == 612
  {
  }

  lemma SchemeSizes()
    ensures SizeOf(TPMS_SCHEME_HASH) == 2 && Align(TPMS_SCHEME_HASH) == 2
    ensures SizeOf(TPMS_SCHEME_ECDAA) == 4 && Align(TPMS_SCHEME_ECDAA) == 2
    ensures SizeOf(TPMS_SCHEME_XOR) == 4 && Align(TPMS_SCHEME_XOR) == 2
  {
    Rounds();
    hide RoundUp;
  }

  lemma SchemeUnionSizes()
    ensures SizeOfCases(TPMU_ASYM_SCHEME) == 4 && AlignCases(TPMU_ASYM_SCHEME) == 2
    ensures SizeOfCases(TPMU_KDF_SCHEME) == 2 && AlignCases(TPMU_KDF_SCHEME) == 2
    ensures SizeOfCases(TPMU_SCHEME_KEYEDHASH) == 4 && AlignCases(TPMU_SCHEME_KEYEDHASH) == 2
    ensures SizeOfCases(TPMU_SYM_KEY_BITS) == 2 && AlignCases(TPMU_SYM_KEY_BITS) == 2
    ensures SizeOfCases(TPMU_SYM_MODE) == 2 && AlignCases(TPMU_SYM_MODE) == 2
  {
    SchemeSizes();
    hide EndOf, AlignFields;
    var last4 := TPMU_ASYM_SCHEME.others.others.others.others.others;
    assert SizeOfCases(last4.others.others) == 2 && AlignCases(last4.others.others) == 2;
    assert SizeOfCases(last4) == 4 && AlignCases(last4) == 2;
    assert SizeOfCases(TPMU_ASYM_SCHEME.others.others) == 4 && AlignCases(TPMU_ASYM_SCHEME.others.others) == 2;
  }

  lemma SchemeRecordSizes()
    ensures SizeOf(TPMT_ASYM_SCHEME) == 6 && Align(TPMT_ASYM_SCHEME) == 2
    ensures SizeOf(TPMT_SYM_DEF) == 6 && Align(TPMT_SYM_DEF) == 2
    ensures SizeOf(TPMT_KDF_SCHEME) == 4 && Align(TPMT_KDF_SCHEME) == 2
    ensures SizeOf(TPMT_KEYEDHASH_SCHEME) == 6 && Align(TPMT_KEYEDHASH_SCHEME) == 2
  {
    SchemeUnionSizes();
    Rounds();
    hide SizeOfCases, AlignCases, RoundUp;
  }

  lemma AsymParmsSizes()
    ensures SizeOf(TPMS_RSA_PARMS) == 20 && Align(TPMS_RSA_PARMS) == 4
    ensures SizeOf(TPMS_ECC_PARMS) == 18 && Align(TPMS_ECC_PARMS) == 2
  {
    SchemeRecordSizes();
    Rounds();
    hide SizeOfCases, AlignCases, RoundUp;
    assert EndOf(TPMS_RSA_PARMS.fields.tail.tail, 12) == 20;
    assert EndOf(TPMS_ECC_PARMS.fields.tail.tail, 12) == 18;
  }

  lemma HashParmsSize()
    ensures SizeOf(TPMS_KEYEDHASH_PARMS) == 6 && Align(TPMS_KEYEDHASH_PARMS) == 2
  {
    hide SizeOfCases, AlignCases, RoundUp;
    SchemeRecordSizes();
    Rounds();
  }

  lemma CipherParmsSize()
    ensures SizeOf(TPMS_SYMCIPHER_PARMS) == 6 && Align(TPMS_SYMCIPHER_PARMS) == 2
  {
    hide SizeOfCases, AlignCases, RoundUp;
    SchemeRecordSizes();
    Rounds();
  }

  lemma PointSize()
    ensures SizeOf(TPMS_ECC_POINT) == 260 && Align(TPMS_ECC_POINT) == 2
  {
    hide SizeOfCases, AlignCases, RoundUp;
    Rounds();
  }

  lemma UnionSizes()
    ensures SizeOfCases(TPMU_PUBLIC_PARMS) == 20 && AlignCases(TPMU_PUBLIC_PARMS) == 4
    ensures SizeOfCases(TPMU_PUBLIC_ID) == 514 && AlignCases(TPMU_PUBLIC_ID) == 2
  {
    HashParmsSize();
    CipherParmsSize();
    PointSize();
    AsymParmsSizes();
    Rounds();
    hide EndOf, AlignFields, RoundUp;
  }

  /** The structures are 612 and 80 bytes long. */
  lemma PublicSizes()
    ensures SizeOf(TPMT_PUBLIC) == 612
    ensures SizeOf(TPMS_NV_PUBLIC) == 80
  {
    PublicAreaSize();
    NvAreaSize();
  }

  lemma PublicAreaSize()
    ensures SizeOf(TPMT_PUBLIC) == 612
  {
    hide EndOf, AlignFields, RoundUp;
    PublicEnd();
    PublicAlign();
    Rounds();
  }

  lemma PublicEnd()
    ensures EndOf(TPMT_PUBLIC.fields, 0) == 610
  {
    hide SizeOfCases, AlignCases, AlignFields, RoundUp;
    UnionSizes();
    Rounds();
    assert EndOf(PUBLIC_UNIONS, 74) == 610;
    assert EndOf(TPMT_PUBLIC.fields.tail.tail, 4) == 610;
  }

  lemma PublicAlign()
    ensures AlignFields(TPMT_PUBLIC.fields) == 4
  {
    hide SizeOfCases, AlignCases, EndOf;
    UnionSizes();
    assert AlignFields(PUBLIC_UNIONS) == 4;
    assert AlignFields(TPMT_PUBLIC.fields.tail.tail) == 4;
  }

  lemma NvAreaSize()
    ensures SizeOf(TPMS_NV_PUBLIC) == 80
  {
    hide SizeOfCases, AlignCases, RoundUp;
    Rounds();
    assert EndOf(TPMS_NV_PUBLIC.fields.tail.tail, 6) == 80;
    assert AlignFields(TPMS_NV_PUBLIC.fields.tail.tail) == 4;
  }

  // ---------------------------------------------------------------- TPMS_ATTEST

  lemma AttestShape()
    ensures EndsInZeroSkip(ATTEST_FIELDS) && LastCases(ATTEST_FIELDS) == TPMU_ATTEST && LastSelector(ATTEST_FIELDS) == 1
  {
    assert KeepsSelectors(TPMS_CLOCK_INFO) by { assert KeepsSelectorsFields(TPMS_CLOCK_INFO.fields.tail.tail); }
    assert !HasTag(TPMU_ATTEST, 0) by { assert !HasTag(TPMU_ATTEST.others.others.others, 0); }
    hide HasTag, KeepsSelectorsFields;
    assert EndsInZeroSkip(ATTEST_TAIL) && LastCases(ATTEST_TAIL) == TPMU_ATTEST && LastSelector(ATTEST_TAIL) == 1;
    var t := ATTEST_FIELDS.tail.tail;
    assert EndsInZeroSkip(t) && LastCases(t) == TPMU_ATTEST && LastSelector(t) == 1;
  }

  lemma AttestMembersSolid()
    ensures SolidCases(TPMU_ATTEST)
  {
    assert SolidCases(TPMU_ATTEST.others.others.others.others.others);
    assert SolidCases(TPMU_ATTEST.others.others.others);
    assert SolidCases(TPMU_ATTEST.others);
  }

  /** A SHA-1 digest of which nothing is there: it cannot be read, and is skipped over all the
      same, 20 bytes past the end of the input. */
  lemma HashSkipRunsOver()
    ensures Decode(TPMT_HA, [0, 4], true) == Err(MuInsufficientBuffer)
    ensures Decode(TPMT_HA, [0, 4], false) == Ok(Absent, 22)
  {
    var input: seq<byte> := [0, 4];
    assert FromBE(input[..2]) == ALG_SHA1 by { assert input[..2] == input && input[..1] == [0] && [0][..0] == []; }
    assert Drop(input, 2) == [];
    var digest, env := TPMU_HA, [] + [Num(ALG_SHA1)];
    assert SelectorOf(env, 0) == ALG_SHA1;
    assert DecodeCase(digest, ALG_SHA1, [], true) == Err(MuInsufficientBuffer);
    assert DecodeCase(digest, ALG_SHA1, [], false) == Ok(Absent, 20);
    assert DecodeFields(TPMT_HA.fields.tail, [], env, true) == Err(MuInsufficientBuffer);
    assert DecodeFields(TPMT_HA.fields.tail, [], env, false).Ok?;
  }

  /** An attestation is skipped over exactly when its type is none of the seven: otherwise
      the skip, which passes selector 0, stops in front of the attested part. */
  lemma AttestSkip(input: seq<byte>)
    requires DecodeFields(ATTEST_FIELDS, input, [], true).Ok?
    ensures var r, s := DecodeFields(ATTEST_FIELDS, input, [], true), DecodeFields(ATTEST_FIELDS, input, [], false);
            && s.Ok? && s.used <= r.used
            && |r.value| > 2 && r.value[1].Num?
            && (s.used == r.used <==> !HasTag(TPMU_ATTEST, r.value[1].n))
  {
    AttestShape();
    AttestMembersSolid();
    ZeroSkipExact(ATTEST_FIELDS, input);
    CanonicalFields(ATTEST_FIELDS, input, []);
    AttestType(DecodeFields(ATTEST_FIELDS, input, [], true).value);
  }

  lemma AttestType(vs: seq<Value>)
    requires HoldsFields(WellFormed, ATTEST_FIELDS, [], vs)
    ensures |vs| > 2 && vs[1].Num?
  {
    hide Pow256;
    assert vs[1..][0] == vs[1];
  }
}
