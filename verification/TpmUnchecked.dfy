/** Structures the marshaler has nothing to object to, and whose readers stay within their
    arrays, public areas among them. */
module TpmUnchecked {
  import opened TpmBase
  import opened MuFormat
  import opened TpmFormats

  /** Formats that have nothing the marshaler could object to, and no array under a count of
      its own. */
  predicate Unchecked(f: Format)
    decreases f
  {
    match f
    case Counted(_) => false
    case PcrSelect(_) => false
    case List(_, _) => false
    case Record(fs) => UncheckedFields(fs)
    case _ => true
  }

  predicate UncheckedFields(fs: Fields)
    decreases fs
  {
    match fs
    case End => true
    case Plain(h, t) => Unchecked(h) && UncheckedFields(t)
    case Choice(_, _, cs, t) => UncheckedCases(cs) && UncheckedFields(t)
  }

  predicate UncheckedCases(cs: Cases)
    decreases cs
  {
    match cs
    case NoCase => true
    case Case(_, b, others) => Unchecked(b) && UncheckedCases(others)
  }

  lemma {:induction false} UncheckedPrints(f: Format, v: Value)
    requires Unchecked(f) && Holds(Storable, f, v)
    ensures Holds(Printable, f, v)
    decreases f
  {
    match f {
      case Record(fs) => UncheckedFieldsPrint(fs, [], v.vals);
      case _ =>
    }
  }

  lemma {:induction false} UncheckedFieldsPrint(fs: Fields, env: seq<Value>, vs: seq<Value>)
    requires UncheckedFields(fs) && HoldsFields(Storable, fs, env, vs)
    ensures HoldsFields(Printable, fs, env, vs)
    decreases fs
  {
    match fs {
      case End =>
      case Plain(h, t) =>
        UncheckedPrints(h, vs[0]);
        UncheckedFieldsPrint(t, env + [vs[0]], vs[1..]);
      case Choice(sel, _, cs, t) =>
        UncheckedCasePrints(cs, SelectorOf(env, sel), vs[0]);
        UncheckedFieldsPrint(t, env + [vs[0]], vs[1..]);
    }
  }

  lemma {:induction false} UncheckedCasePrints(cs: Cases, tag: nat, v: Value)
    requires UncheckedCases(cs) && HoldsCase(Storable, cs, tag, v)
    ensures HoldsCase(Printable, cs, tag, v)
    decreases cs
  {
    match cs {
      case NoCase =>
      case Case(t, b, others) =>
        if tag == t { UncheckedPrints(b, v); } else { UncheckedCasePrints(others, tag, v); }
    }
  }

  lemma AsymUnchecked()
    ensures UncheckedCases(TPMU_ASYM_SCHEME)
  {
    var last := TPMU_ASYM_SCHEME.others.others.others.others.others;
    assert UncheckedCases(last);
    assert UncheckedCases(TPMU_ASYM_SCHEME.others.others);
  }

  lemma SchemesUnchecked()
    ensures Unchecked(TPMT_ASYM_SCHEME) && Unchecked(TPMT_SYM_DEF) && Unchecked(TPMT_KDF_SCHEME)
            && Unchecked(TPMT_KEYEDHASH_SCHEME)
  {
    AsymUnchecked();
    assert UncheckedCases(TPMU_KDF_SCHEME) && UncheckedCases(TPMU_SCHEME_KEYEDHASH);
    assert UncheckedCases(TPMU_SYM_KEY_BITS) && UncheckedCases(TPMU_SYM_MODE);
  }

  lemma UnionsUnchecked()
    ensures UncheckedCases(TPMU_PUBLIC_PARMS) && UncheckedCases(TPMU_PUBLIC_ID)
  {
    SchemesUnchecked();
    hide UncheckedFields;
    assert Unchecked(TPMS_RSA_PARMS) && Unchecked(TPMS_ECC_PARMS) by { ParmsUnchecked(); }
    assert Unchecked(TPMS_KEYEDHASH_PARMS) && Unchecked(TPMS_SYMCIPHER_PARMS) && Unchecked(TPMS_ECC_POINT) by {
      ParmsUnchecked();
    }
  }

  lemma ParmsUnchecked()
    ensures Unchecked(TPMS_RSA_PARMS) && Unchecked(TPMS_ECC_PARMS) && Unchecked(TPMS_KEYEDHASH_PARMS)
            && Unchecked(TPMS_SYMCIPHER_PARMS) && Unchecked(TPMS_ECC_POINT)
  {
    SchemesUnchecked();
    hide UncheckedCases;
  }

  lemma PublicUnchecked()
    ensures Unchecked(TPMT_PUBLIC) && Unchecked(TPMS_NV_PUBLIC)
  {
    UnionsUnchecked();
    hide UncheckedCases;
    assert UncheckedFields(PUBLIC_UNIONS);
    assert UncheckedFields(TPMT_PUBLIC.fields.tail.tail);
    assert UncheckedFields(TPMS_NV_PUBLIC.fields.tail.tail);
  }

  /** Reading one never writes past an array. */
  lemma {:induction false} UncheckedStays(f: Format, input: seq<byte>)
    requires Unchecked(f)
    ensures Decode(f, input, true) != Err(OutOfBounds)
    decreases f
  {
    match f {
      case Record(fs) => UncheckedFieldsStay(fs, input, []);
      case _ =>
    }
  }

  lemma {:induction false} UncheckedFieldsStay(fs: Fields, input: seq<byte>, env: seq<Value>)
    requires UncheckedFields(fs)
    ensures DecodeFields(fs, input, env, true) != Err(OutOfBounds)
    decreases fs
  {
    match fs {
      case End =>
      case Plain(h, t) =>
        UncheckedStays(h, input);
        var p := Decode(h, input, true);
        if p.Ok? { UncheckedFieldsStay(t, Drop(input, p.used), env + [p.value]); }
      case Choice(sel, _, cs, t) =>
        UncheckedCaseStays(cs, SelectorOf(env, sel), input);
        var p := DecodeCase(cs, SelectorOf(env, sel), input, true);
        if p.Ok? { UncheckedFieldsStay(t, Drop(input, p.used), env + [p.value]); }
    }
  }

  lemma {:induction false} UncheckedCaseStays(cs: Cases, tag: nat, input: seq<byte>)
    requires UncheckedCases(cs)
    ensures DecodeCase(cs, tag, input, true) != Err(OutOfBounds)
    decreases cs
  {
    match cs {
      case NoCase =>
      case Case(t, b, others) =>
        if t == tag { UncheckedStays(b, input); } else { UncheckedCaseStays(others, tag, input); }
    }
  }
}
