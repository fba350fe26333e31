/** The bytes of the leaves of every structure and the outcomes of reading them, written out. */
module MuWire {
  import opened TpmBase
  import opened MuFormat

  // ---------------------------------------------------------------- integers

  /** Integers of one, two, four and eight bytes, most significant byte first. */
  lemma BigEndian(n: nat)
    ensures ToBE(n, 1) == [n % 256]
    ensures ToBE(n, 2) == [n / 256 % 256, n % 256]
    ensures ToBE(n, 4) == [n / 256 / 256 / 256 % 256, n / 256 / 256 % 256, n / 256 % 256, n % 256]
    ensures ToBE(n, 8) == ToBE(n / 256 / 256 / 256 / 256, 4) + ToBE(n, 4)
  {
    hide ToBE;
    var a, b, c := n / 256, n / 256 / 256, n / 256 / 256 / 256;
    ShortBytes(n);
    ShortBytes(a);
    ShortBytes(b);
    ShortBytes(c);
    ToBEStep(n, 3);
    ToBEStep(a, 2);
    LongBytes(n);
  }

  lemma ToBEStep(n: nat, w: nat)
    ensures ToBE(n, w + 1) == ToBE(n / 256, w) + [n % 256]
  {
  }

  lemma ShortBytes(n: nat)
    ensures ToBE(n, 0) == [] && ToBE(n, 1) == [n % 256] && ToBE(n, 2) == ToBE(n / 256, 1) + [n % 256]
  {
  }

  lemma LongBytes(n: nat)
    ensures ToBE(n, 8) == ToBE(n / 256 / 256 / 256 / 256, 4) + ToBE(n, 4)
  {
    hide ToBE;
    var a, b, c, d := n / 256, n / 256 / 256, n / 256 / 256 / 256, n / 256 / 256 / 256 / 256;
    ToBEStep(n, 7);
    ToBEStep(a, 6);
    ToBEStep(b, 5);
    ToBEStep(c, 4);
    ToBEStep(n, 3);
    ToBEStep(a, 2);
    ToBEStep(b, 1);
    ToBEStep(c, 0);
    ShortBytes(d);
    assert ToBE(d, 4) + ([c % 256] + [b % 256] + [a % 256] + [n % 256])
           == ToBE(d, 4) + [c % 256] + [b % 256] + [a % 256] + [n % 256];
  }

  lemma FromBigEndian(a: byte, b: byte, c: byte, d: byte)
    ensures FromBE([a]) == a
    ensures FromBE([a, b]) == 256 * a + b
    ensures FromBE([a, b, c, d]) == 0x100_0000 * a + 0x1_0000 * b + 256 * c + d
  {
    assert [a, b, c, d][..3] == [a, b, c] && [a, b, c][..2] == [a, b] && [a, b][..1] == [a] && [a][..0] == [];
  }

  // ---------------------------------------------------------------- what is printed

  /** The bytes of each leaf: integers, sized and counted bytes, byte tables, PCR selections. */
  lemma LeafBytes(w: pos, n: nat, cap: nat, bs: seq<byte>, len: pos, tagWidth: nat, allowed: seq<nat>)
    ensures Encode(UInt(w), Num(n)) == ToBE(n, w)
    ensures Encode(Enum32(allowed), Num(n)) == ToBE(n, 4)
    ensures Encode(Sized(cap), Bytes(bs)) == ToBE(|bs|, 2) + bs
    ensures Encode(Counted(cap), Bytes(bs)) == ToBE(|bs|, 2) + bs
    ensures Encode(Raw(len), Bytes(bs)) == bs
    ensures Encode(PcrSelect(tagWidth), Pcr(n, bs)) == ToBE(n, tagWidth) + [|bs| % 256] + bs
  {
    BigEndian(|bs|);
  }

  /** A list is a count of four bytes and its elements one after the other. */
  lemma ListBytes(cap: nat, e: Format, vs: seq<Value>)
    ensures Encode(List(cap, e), Items(vs)) == ToBE(|vs|, 4) + EncodeAll(e, vs)
    ensures EncodeAll(e, []) == []
    ensures vs != [] ==> EncodeAll(e, vs) == Encode(e, vs[0]) + EncodeAll(e, vs[1..])
  {
  }

  // ---------------------------------------------------------------- what is read

  /** The outcome of reading each leaf into a destination. */
  lemma LeafRead(w: pos, len: pos, allowed: seq<nat>, input: seq<byte>)
    ensures Decode(UInt(w), input, true) ==
            if |input| < w then Err(MuInsufficientBuffer) else Ok(Num(FromBE(input[..w])), w)
    ensures Decode(Enum32(allowed), input, true) ==
            if |input| < 4 then Err(MuInsufficientBuffer)
            else if FromBE(input[..4]) !in allowed then Err(SysBadValue) else Ok(Num(FromBE(input[..4])), 4)
    ensures Decode(Raw(len), input, true) ==
            if |input| < len then Err(MuInsufficientBuffer) else Ok(Bytes(input[..len]), len)
  {
    hide FromBE;
  }

  /** Sized bytes must fit the input and their array; counted ones are only held against the
      input before they are copied. */
  lemma BytesRead(cap: nat, input: seq<byte>)
    ensures |input| < 2 ==>
              Decode(Sized(cap), input, true) == Decode(Counted(cap), input, true) == Err(MuInsufficientBuffer)
    ensures |input| >= 2 ==>
              var n := 256 * (input[0] as int) + input[1];
              && (Decode(Sized(cap), input, true) ==
                  if |input| < 2 + n || cap < n then Err(MuInsufficientBuffer) else Ok(Bytes(input[2..2 + n]), 2 + n))
              && (Decode(Counted(cap), input, true) ==
                  if |input| < 2 + n then Err(EsysInsufficientBuffer)
                  else if cap < n then Err(OutOfBounds)
                  else Ok(Bytes(input[2..2 + n]), 2 + n))
  {
    hide *;
    BytesReadBy(cap, input);
    if |input| >= 2 { FrontPair(input); }
  }

  lemma BytesReadBy(cap: nat, input: seq<byte>)
    ensures |input| < 2 ==>
              Decode(Sized(cap), input, true) == Decode(Counted(cap), input, true) == Err(MuInsufficientBuffer)
    ensures |input| >= 2 ==>
              var n := FromBE(input[..2]);
              && (Decode(Sized(cap), input, true) ==
                  if |input| < 2 + n || cap < n then Err(MuInsufficientBuffer) else Ok(Bytes(input[2..2 + n]), 2 + n))
              && (Decode(Counted(cap), input, true) ==
                  if |input| < 2 + n then Err(EsysInsufficientBuffer)
                  else if cap < n then Err(OutOfBounds)
                  else Ok(Bytes(input[2..2 + n]), 2 + n))
  {
    hide FromBE;
  }

  lemma FrontPair(input: seq<byte>)
    requires |input| >= 2
    ensures FromBE(input[..2]) == 256 * (input[0] as int) + input[1]
  {
    FromBigEndian(input[0], input[1], 0, 0);
    assert input[..2] == [input[0], input[1]];
    hide FromBE;
  }

  lemma FrontFour(input: seq<byte>)
    requires |input| >= 4
    ensures FromBE(input[..4]) ==
            0x100_0000 * (input[0] as int) + 0x1_0000 * (input[1] as int) + 256 * (input[2] as int) + input[3]
  {
    FromBigEndian(input[0], input[1], input[2], input[3]);
    assert input[..4] == [input[0], input[1], input[2], input[3]];
    hide FromBE;
  }

  /** A PCR selection has at most four bytes. */
  lemma PcrRead(w: nat, input: seq<byte>)
    ensures var n := if |input| < w + 1 then 0 else input[w];
            Decode(PcrSelect(w), input, true) ==
            if |input| < w + 1 then Err(MuInsufficientBuffer)
            else if n > 4 then Err(SysMalformedResponse)
            else if |input| < w + 1 + n then Err(MuInsufficientBuffer)
            else Ok(Pcr(FromBE(input[..w]), input[w + 1..w + 1 + n]), w + 1 + n)
  {
    hide FromBE;
  }

  /** A list that is too long is refused before its elements are looked at, and otherwise ends
      with the first element that cannot be read. */
  lemma ListRead(cap: nat, e: Format, input: seq<byte>)
    ensures |input| < 4 ==> Decode(List(cap, e), input, true) == Err(MuInsufficientBuffer)
    ensures |input| >= 4 ==>
              var n := 0x100_0000 * (input[0] as int) + 0x1_0000 * (input[1] as int) + 256 * (input[2] as int)
                       + input[3];
              Decode(List(cap, e), input, true) ==
              if n > cap then Err(SysMalformedResponse)
              else if n == 0 then Ok(Items([]), 4)
              else
                var p := DecodeAll(e, input[4..], n, true);
                if p.Err? then Err(p.rc) else Ok(Items(p.value), 4 + p.used)
  {
    hide *;
    ListReadBy(cap, e, input);
    if |input| >= 4 { FrontFour(input); }
  }

  lemma ListReadBy(cap: nat, e: Format, input: seq<byte>)
    ensures |input| < 4 ==> Decode(List(cap, e), input, true) == Err(MuInsufficientBuffer)
    ensures |input| >= 4 ==>
              var n := FromBE(input[..4]);
              Decode(List(cap, e), input, true) ==
              if n > cap then Err(SysMalformedResponse)
              else if n == 0 then Ok(Items([]), 4)
              else
                var p := DecodeAll(e, input[4..], n, true);
                if p.Err? then Err(p.rc) else Ok(Items(p.value), 4 + p.used)
  {
    hide FromBE;
  }
}
