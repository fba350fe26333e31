/** Bytes, return codes and big-endian integers shared by every layer. */
module TpmBase {

  type byte = b: int | 0 <= b < 256

  /** The return codes the modelled functions can produce, with the layer that raises them.
      OutOfBounds is none of them: it stands for a call that runs past the end of an array.
      Nothing is promised of the state after it. */
  datatype Rc =
    | Success
    | OutOfBounds
    | MuInsufficientBuffer
    | EsysInsufficientBuffer
    | SysBadValue
    | SysMalformedResponse
    | SysNoDecryptParam
    | SysBadSize
    | EsysNotImplemented
    | EsysBadReference
    | EsysBadValue
    | EsysBadTr
    | EsysBadSize
    | EsysGeneralFailure
    | EsysMultipleDecryptSessions
    | EsysMultipleEncryptSessions
    | EsysRspAuthFailed
    | MuBadReference

  /** The outcome of reading a value from the front of some input. */
  datatype Parse<+T> = Ok(value: T, used: nat) | Err(rc: Rc)

  function Pow256(w: nat): (p: nat)
    ensures p > 0
  {
    if w == 0 then 1 else 256 * Pow256(w - 1)
  }

  /** The `w` bytes of `n`, most significant first; higher bytes of `n` are cut off. */
  function ToBE(n: nat, w: nat): (bs: seq<byte>)
    ensures |bs| == w
  {
    if w == 0 then [] else ToBE(n / 256, w - 1) + [n % 256]
  }

  function FromBE(bs: seq<byte>): nat {
    if bs == [] then 0 else 256 * FromBE(bs[..|bs| - 1]) + bs[|bs| - 1]
  }

  lemma {:induction false} FromToBE(n: nat, w: nat)
    requires n < Pow256(w)
    ensures FromBE(ToBE(n, w)) == n
  {
    if w > 0 {
      FromToBE(n / 256, w - 1);
      assert ToBE(n, w)[..w - 1] == ToBE(n / 256, w - 1);
    }
  }

  lemma {:induction false} ToFromBE(bs: seq<byte>)
    ensures FromBE(bs) < Pow256(|bs|)
    ensures ToBE(FromBE(bs), |bs|) == bs
  {
    if bs != [] {
      ToFromBE(bs[..|bs| - 1]);
    }
  }

  /** The input left after `n` bytes; an offset past the end leaves nothing. */
  function Drop<T>(s: seq<T>, n: nat): seq<T> {
    if n <= |s| then s[n..] else []
  }

  lemma TakeDrop<T>(s: seq<T>, n: nat, m: nat)
    requires n + m <= |s|
    ensures m <= |Drop(s, n)|
    ensures s[..n] + Drop(s, n)[..m] == s[..n + m]
  {
  }

  lemma Assoc<T>(a: seq<T>, b: seq<T>, c: seq<T>)
    ensures a + b + c == a + (b + c)
  {
  }

  /** The parts one after the other. */
  function Cat(parts: seq<seq<byte>>): seq<byte> {
    if parts == [] then [] else parts[0] + Cat(parts[1..])
  }

  lemma CatFew(a: seq<byte>, b: seq<byte>, c: seq<byte>, d: seq<byte>)
    ensures Cat([]) == [] && Cat([a]) == a && Cat([a, b]) == a + b && Cat([a, b, c]) == a + b + c
    ensures Cat([a, b, c, d]) == a + b + c + d
  {
    assert [a, b, c, d][1..] == [b, c, d] && [b, c, d][1..] == [c, d] && [c, d][1..] == [d];
    assert [a, b, c][1..] == [b, c] && [b, c][1..] == [c] && [a, b][1..] == [b] && [c][1..] == [];
    assert [a][1..] == [] && [b][1..] == [] && [d][1..] == [];
    assert Cat([d]) == d && Cat([c]) == c && Cat([b]) == b && Cat([c, d]) == c + d;
    assert Cat([b, c, d]) == b + (c + d) && Cat([b, c]) == b + c;
    assert a + (b + (c + d)) == a + b + c + d && a + (b + c) == a + b + c;
  }

  lemma {:induction false} CatAppend(p: seq<seq<byte>>, q: seq<seq<byte>>)
    ensures Cat(p + q) == Cat(p) + Cat(q)
  {
    if p == [] {
      assert p + q == q;
    } else {
      assert (p + q)[0] == p[0] && (p + q)[1..] == p[1..] + q;
      CatAppend(p[1..], q);
      Assoc(p[0], Cat(p[1..]), Cat(q));
    }
  }

  /** A part that is made of parts. */
  lemma CatInline(p: seq<seq<byte>>, x: seq<byte>, q: seq<seq<byte>>, r: seq<seq<byte>>)
    requires x == Cat(q)
    ensures Cat(p + [x] + r) == Cat(p + q + r)
  {
    CatAppend(p + [x], r);
    CatAppend(p, [x]);
    CatAppend(p + q, r);
    CatAppend(p, q);
    CatFew(x, [], [], []);
  }

  lemma SplitFront<T>(a: seq<T>, b: seq<T>)
    ensures (a + b)[..|a|] == a
    ensures Drop(a + b, |a|) == b
  {
  }

  lemma Cons<T>(v: T, vs: seq<T>)
    ensures ([v] + vs)[0] == v && ([v] + vs)[1..] == vs
  {
  }

  lemma Uncons<T>(vs: seq<T>)
    requires vs != []
    ensures [vs[0]] + vs[1..] == vs
  {
  }

  /** `s` with `bs` written at `off`. */
  function Splice(s: seq<byte>, off: nat, bs: seq<byte>): (r: seq<byte>)
    ensures |r| == |s|
  {
    if bs == [] || |s| < off + |bs| then s else s[..off] + bs + s[off + |bs|..]
  }

  lemma SpliceSplice(s: seq<byte>, off: nat, a: seq<byte>, b: seq<byte>)
    requires off + |a| + |b| <= |s|
    ensures Splice(Splice(s, off, a), off + |a|, b) == Splice(s, off, a + b)
  {
    if a == [] {
      assert a + b == b;
    } else if b == [] {
      assert a + b == a;
    } else {
      var m := Splice(s, off, a);
      assert m[..off + |a|] == s[..off] + a;
      assert m[off + |a| + |b|..] == s[off + |a| + |b|..];
    }
  }
}
