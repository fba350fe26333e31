/** Skipping a value (no destination) against reading it. */
module MuSkip {
  import opened TpmBase
  import opened MuFormat
  import MuLaws

  /** No union of the format is skipped with selector 0. */
  predicate KeepsSelectors(f: Format)
    decreases f
  {
    match f
    case List(_, e) => KeepsSelectors(e)
    case Record(fs) => KeepsSelectorsFields(fs)
    case _ => true
  }

  predicate KeepsSelectorsFields(fs: Fields)
    decreases fs
  {
    match fs
    case End => true
    case Plain(h, t) => KeepsSelectors(h) && KeepsSelectorsFields(t)
    case Choice(_, zeroSkip, cs, t) => !zeroSkip && KeepsSelectorsCases(cs) && KeepsSelectorsFields(t)
  }

  predicate KeepsSelectorsCases(cs: Cases)
    decreases cs
  {
    match cs
    case NoCase => true
    case Case(_, b, others) => KeepsSelectors(b) && KeepsSelectorsCases(others)
  }

  /** No part of the format is a byte table, the one kind that is skipped unchecked. */
  predicate NoTables(f: Format)
    decreases f
  {
    match f
    case Raw(_) => false
    case List(_, e) => NoTables(e)
    case Record(fs) => NoTablesFields(fs)
    case _ => true
  }

  predicate NoTablesFields(fs: Fields)
    decreases fs
  {
    match fs
    case End => true
    case Plain(h, t) => NoTables(h) && NoTablesFields(t)
    case Choice(_, _, cs, t) => NoTablesCases(cs) && NoTablesFields(t)
  }

  predicate NoTablesCases(cs: Cases)
    decreases cs
  {
    match cs
    case NoCase => true
    case Case(_, b, others) => NoTables(b) && NoTablesCases(others)
  }

  /** The skip `s` of `size` bytes of input moves as the read `r` does. What can be skipped can
      be read exactly if the skip ends within the input and the read leaves no array; if
      `exact`, the skip also fails as the read does. */
  ghost predicate Follows<T>(r: Parse<T>, s: Parse<T>, size: nat, exact: bool) {
    && (r.Ok? ==> s.Ok? && s.used == r.used)
    && (s.Ok? ==> (r.Ok? <==> s.used <= size && r != Err(OutOfBounds)))
    && (r.Err? && exact && r.rc != OutOfBounds ==> s == r)
  }

  /** Skipping keeps exactly the scalars, which is what selectors are made of. */
  ghost predicate SameScalar(a: Value, b: Value) {
    a.Num? || b.Num? ==> a == b
  }

  ghost predicate SameScalars(a: seq<Value>, b: seq<Value>) {
    |a| == |b| && forall i :: 0 <= i < |a| ==> SameScalar(a[i], b[i])
  }

  /** Whatever can be read can be skipped, over the same number of bytes. A skip succeeds where
      the read fails exactly when it runs past the end of the input, or past an array the
      read would have run over; without byte tables it never runs past the input. */
  lemma {:induction false} SkipFollowsRead(f: Format, input: seq<byte>)
    requires KeepsSelectors(f)
    ensures Follows(Decode(f, input, true), Decode(f, input, false), |input|, NoTables(f))
    ensures Decode(f, input, true).Ok? ==>
              Decode(f, input, false).Ok?
              && SameScalar(Decode(f, input, true).value, Decode(f, input, false).value)
    decreases f, 0
  {
    match f {
      case List(_, e) =>
        if |input| >= 4 { SkipFollowsReadAll(e, input[4..], FromBE(input[..4])); }
      case Record(fs) => SkipFollowsReadFields(fs, input, [], []);
      case _ =>
    }
  }

  lemma {:induction false} SkipFollowsReadAll(e: Format, input: seq<byte>, count: nat)
    requires KeepsSelectors(e)
    ensures Follows(DecodeAll(e, input, count, true), DecodeAll(e, input, count, false), |input|, NoTables(e))
    decreases e, 1, count
  {
    if count > 0 {
      SkipFollowsRead(e, input);
      var r := Decode(e, input, true);
      if r.Ok? {
        SkipFollowsReadAll(e, Drop(input, r.used), count - 1);
      }
    }
  }

  lemma {:induction false} SkipFollowsReadFields(fs: Fields, input: seq<byte>, env: seq<Value>, env': seq<Value>)
    requires KeepsSelectorsFields(fs) && SameScalars(env, env')
    ensures Follows(DecodeFields(fs, input, env, true), DecodeFields(fs, input, env', false), |input|,
                    NoTablesFields(fs))
    decreases fs
  {
    match fs {
      case End =>
      case Plain(h, t) =>
        SkipFollowsRead(h, input);
        var r, s := Decode(h, input, true), Decode(h, input, false);
        if r.Ok? { SkipFollowsReadFields(t, Drop(input, r.used), env + [r.value], env' + [s.value]); }
      case Choice(sel, _, cs, t) =>
        var tag := SelectorOf(env, sel);
        assert tag == SelectorOf(env', sel);
        SkipFollowsReadCase(cs, tag, input);
        var r, s := DecodeCase(cs, tag, input, true), DecodeCase(cs, tag, input, false);
        if r.Ok? { SkipFollowsReadFields(t, Drop(input, r.used), env + [r.value], env' + [s.value]); }
    }
  }

  lemma {:induction false} SkipFollowsReadCase(cs: Cases, tag: nat, input: seq<byte>)
    requires KeepsSelectorsCases(cs)
    ensures Follows(DecodeCase(cs, tag, input, true), DecodeCase(cs, tag, input, false), |input|,
                    NoTablesCases(cs))
    ensures DecodeCase(cs, tag, input, true).Ok? ==>
              DecodeCase(cs, tag, input, false).Ok?
              && SameScalar(DecodeCase(cs, tag, input, true).value, DecodeCase(cs, tag, input, false).value)
    decreases cs
  {
    match cs {
      case NoCase =>
      case Case(t, b, others) =>
        if t == tag { SkipFollowsRead(b, input); } else { SkipFollowsReadCase(others, tag, input); }
    }
  }

  // ---------------------------------------------------------------- the selector-0 union

  predicate HasTag(cs: Cases, tag: nat) {
    cs.Case? && (cs.tag == tag || HasTag(cs.others, tag))
  }

  lemma {:induction false} NoTagNoBytes(cs: Cases, tag: nat, input: seq<byte>, dest: bool)
    requires !HasTag(cs, tag)
    ensures DecodeCase(cs, tag, input, dest) == Ok(Absent, 0)
  {
    if cs.Case? { NoTagNoBytes(cs.others, tag, input, dest); }
  }

  /** Plain fields, then one union that is skipped with selector 0, which no case has. */
  predicate EndsInZeroSkip(fs: Fields)
    decreases fs
  {
    match fs
    case End => false
    case Plain(h, t) => KeepsSelectors(h) && EndsInZeroSkip(t)
    case Choice(_, zeroSkip, cs, t) => zeroSkip && t == End && !HasTag(cs, 0)
  }

  /** The union such a record ends in, and the selector it was read with. */
  function LastCases(fs: Fields): Cases
    requires EndsInZeroSkip(fs)
    decreases fs
  {
    if fs.Plain? then LastCases(fs.tail) else fs.cases
  }

  function LastSelector(fs: Fields): nat
    requires EndsInZeroSkip(fs)
    decreases fs
  {
    if fs.Plain? then LastSelector(fs.tail) else fs.selector
  }

  /** The selector a whole record of values was read with. */
  function SelectorIn(fs: Fields, all: seq<Value>): nat
    requires EndsInZeroSkip(fs)
  {
    SelectorOf(all[..if all == [] then 0 else |all| - 1], LastSelector(fs))
  }

  /** Skipping such a record leaves the union's bytes behind. */
  lemma {:induction false} ZeroSkipStopsShort(fs: Fields, input: seq<byte>, env: seq<Value>, env': seq<Value>)
    requires EndsInZeroSkip(fs) && SameScalars(env, env')
    requires DecodeFields(fs, input, env, true).Ok?
    ensures var r, s := DecodeFields(fs, input, env, true), DecodeFields(fs, input, env', false);
            && s.Ok? && r.value != []
            && s.used + |EncodeCase(LastCases(fs), SelectorIn(fs, env + r.value), r.value[|r.value| - 1])| == r.used
    decreases fs
  {
    match fs {
      case Plain(h, t) =>
        hide Decode, EncodeCase, SelectorOf, KeepsSelectors, NoTables, Drop;
        SkipFollowsRead(h, input);
        var r, s := Decode(h, input, true), Decode(h, input, false);
        ZeroSkipStopsShort(t, Drop(input, r.used), env + [r.value], env' + [s.value]);
        Assoc(env, [r.value], DecodeFields(t, Drop(input, r.used), env + [r.value], true).value);
      case Choice(sel, zeroSkip, cs, t) => ZeroSkipUnion(sel, cs, input, env, env');
    }
  }

  lemma ZeroSkipUnion(sel: nat, cs: Cases, input: seq<byte>, env: seq<Value>, env': seq<Value>)
    requires var fs := Choice(sel, true, cs, End);
             EndsInZeroSkip(fs) && DecodeFields(fs, input, env, true).Ok?
    ensures var fs := Choice(sel, true, cs, End);
            var r, s := DecodeFields(fs, input, env, true), DecodeFields(fs, input, env', false);
            && s.Ok? && |r.value| == 1
            && s.used + |EncodeCase(cs, SelectorIn(fs, env + r.value), r.value[0])| == r.used
  {
    hide DecodeCase, EncodeCase, SelectorOf, HasTag;
    NoTagNoBytes(cs, 0, input, false);
    var p := DecodeCase(cs, SelectorOf(env, sel), input, true);
    UnionAlone(sel, cs, input, env, env');
    MuLaws.CanonicalCase(cs, SelectorOf(env, sel), input);
    assert (env + [p.value])[..|env|] == env;
  }

  /** A record that is only a union. */
  lemma UnionAlone(sel: nat, cs: Cases, input: seq<byte>, env: seq<Value>, env': seq<Value>)
    ensures var fs, p := Choice(sel, true, cs, End), DecodeCase(cs, SelectorOf(env, sel), input, true);
            DecodeFields(fs, input, env, true) == if p.Err? then Err(p.rc) else Ok([p.value], p.used)
    ensures var fs, p := Choice(sel, true, cs, End), DecodeCase(cs, 0, input, false);
            DecodeFields(fs, input, env', false) == if p.Err? then Err(p.rc) else Ok([p.value], p.used)
  {
    hide DecodeCase, SelectorOf, Drop;
    forall v: Value ensures [v] + [] == [v] { }
  }

  /** A value of such a format takes at least one byte. */
  predicate Solid(f: Format)
    decreases f
  {
    match f
    case Record(fs) => fs.Plain? && Solid(fs.head)
    case _ => true
  }

  predicate SolidCases(cs: Cases) {
    cs.Case? ==> Solid(cs.body) && SolidCases(cs.others)
  }

  lemma {:induction false} SolidTakesBytes(f: Format, v: Value)
    requires Solid(f) && Holds(Storable, f, v)
    ensures |Encode(f, v)| > 0
    decreases f
  {
    if f.Record? { SolidTakesBytes(f.fields.head, v.vals[0]); }
  }

  /** With solid members, the union takes bytes exactly when the selector has a case. */
  lemma {:induction false} SolidCaseTakesBytes(cs: Cases, tag: nat, v: Value)
    requires SolidCases(cs) && HoldsCase(Storable, cs, tag, v)
    ensures |EncodeCase(cs, tag, v)| > 0 <==> HasTag(cs, tag)
  {
    if cs.Case? {
      if cs.tag == tag { SolidTakesBytes(cs.body, v); } else { SolidCaseTakesBytes(cs.others, tag, v); }
    }
  }

  lemma {:induction false} LastHolds(fs: Fields, env: seq<Value>, vs: seq<Value>)
    requires EndsInZeroSkip(fs) && HoldsFields(Storable, fs, env, vs)
    ensures vs != [] && HoldsCase(Storable, LastCases(fs), SelectorIn(fs, env + vs), vs[|vs| - 1])
    decreases fs
  {
    Assoc(env, [vs[0]], vs[1..]);
    Uncons(vs);
    if fs.Plain? {
      LastHolds(fs.tail, env + [vs[0]], vs[1..]);
    } else {
      assert (env + vs)[..|env|] == env;
    }
  }

  /** Such a record is skipped over exactly when its selector has no case. */
  lemma ZeroSkipExact(fs: Fields, input: seq<byte>)
    requires EndsInZeroSkip(fs) && SolidCases(LastCases(fs))
    requires DecodeFields(fs, input, [], true).Ok?
    ensures var r, s := DecodeFields(fs, input, [], true), DecodeFields(fs, input, [], false);
            && s.Ok? && s.used <= r.used
            && (s.used == r.used <==> !HasTag(LastCases(fs), SelectorIn(fs, r.value)))
  {
    var vs := DecodeFields(fs, input, [], true).value;
    ZeroSkipStopsShort(fs, input, [], []);
    MuLaws.CanonicalFields(fs, input, []);
    MuLaws.FieldGradesNested(fs, [], vs);
    LastHolds(fs, [], vs);
    assert [] + vs == vs;
    SolidCaseTakesBytes(LastCases(fs), SelectorIn(fs, vs), vs[|vs| - 1]);
  }
}
