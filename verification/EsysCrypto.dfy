/**
 Key derivation and obfuscation over abstract hash, HMAC and cipher functions: the counter
 loops of KDFa and KDFe, XOR obfuscation, and the messages that are hashed.
 */
module EsysCrypto {
  import opened TpmBase
  import opened MuMarshal
  import opened TpmFormats
  import opened EsysMu
  import opened EsysTable

  /** iesys_crypto_hash_get_digest_size */
  function DigestSize(alg: nat): Option<nat> {
    if alg == ALG_SHA1 then Some(20)
    else if alg == ALG_SHA256 then Some(32)
    else if alg == ALG_SHA384 then Some(48)
    else if alg == ALG_SHA512 then Some(64)
    else if alg == ALG_SM3_256 then Some(32)
    else None
  }

  /** The digest lengths of the algorithms that have one, SHA-1 to SHA-512 and SM3. */
  lemma DigestSizes(alg: nat)
    ensures DigestSize(alg) ==
            match alg
            case 0x0004 => Some(20)
            case 0x000B => Some(32)
            case 0x000C => Some(48)
            case 0x000D => Some(64)
            case 0x0012 => Some(32)
            case _ => None
  {
  }

  function Hlen(alg: nat): (h: nat)
    ensures h > 0
    ensures DigestSize(alg) == Some(h) || (DigestSize(alg) == None && h == 1)
  {
    match DigestSize(alg) case Some(h) => h case None => 1
  }

  /** A crypto backend: the algorithms it implements and what it computes. */
  datatype Backend = Backend(
    algs: set<nat>,
    hash: (nat, seq<byte>) -> seq<byte>,
    hmac: (nat, seq<byte>, seq<byte>) -> seq<byte>,
    encrypt: (seq<byte>, seq<byte>, seq<byte>) -> seq<byte>,
    decrypt: (seq<byte>, seq<byte>, seq<byte>) -> seq<byte>)

  /** All that is asked of it: digests have their length, the cipher keeps lengths, and
      decryption inverts encryption under the same key and initialization vector. */
  ghost predicate Lawful(c: Backend) {
    && (forall alg, m :: DigestSize(alg).Some? ==> |c.hash(alg, m)| == Hlen(alg))
    && (forall alg, k, m :: DigestSize(alg).Some? ==> |c.hmac(alg, k, m)| == Hlen(alg))
    && (forall k, iv, d :: |c.encrypt(k, iv, d)| == |d|)
    && (forall k, iv, d :: |c.decrypt(k, iv, d)| == |d|)
    && (forall k, iv, d :: c.decrypt(k, iv, c.encrypt(k, iv, d)) == d)
  }

  const NULL_BACKEND: Backend :=
    Backend({}, (alg, m) => Zeros(Hlen(alg)), (alg, k, m) => Zeros(Hlen(alg)), (k, iv, d) => d, (k, iv, d) => d)

  type Crypto = c: Backend | Lawful(c) ghost witness NULL_BACKEND

  /** Whether starting a hash or HMAC of this algorithm succeeds. */
  function StartRc(c: Crypto, alg: nat): Rc {
    if alg in c.algs && DigestSize(alg).Some? then Success else EsysNotImplemented
  }

  lemma StartRcIs(c: Crypto, alg: nat)
    ensures StartRc(c, alg) ==
            if alg in c.algs && alg in {0x0004, 0x000B, 0x000C, 0x000D, 0x0012} then Success else EsysNotImplemented
  {
    hide Lawful;
  }

  /** iesys_crypto_sym_aes_encrypt and _decrypt on data of any length. */
  function Cfb(c: Crypto, encrypt: bool, key: seq<byte>, iv: seq<byte>, data: seq<byte>): (r: seq<byte>)
    ensures |r| == |data|
  {
    if encrypt then c.encrypt(key, iv, data) else c.decrypt(key, iv, data)
  }

  lemma CfbInverse(c: Crypto, key: seq<byte>, iv: seq<byte>, data: seq<byte>)
    ensures Cfb(c, false, key, iv, Cfb(c, true, key, iv, data)) == data
  {
  }

  // ---------------------------------------------------------------- hashed messages

  function OptBytes(name: Option<seq<byte>>): seq<byte> {
    match name case Some(n) => n case None => []
  }

  /** What a command or response parameter hash covers. */
  function PHashInput(rc: Option<seq<byte>>, cc: seq<byte>, names: seq<Option<seq<byte>>>, params: seq<byte>): seq<byte>
    requires |names| == 3
  {
    OptBytes(rc) + cc + OptBytes(names[0]) + OptBytes(names[1]) + OptBytes(names[2]) + params
  }

  /** Response code, command code, names, parameters: those that are there, in this order. */
  lemma PHashInputIs(rc: Option<seq<byte>>, cc: seq<byte>, names: seq<Option<seq<byte>>>, params: seq<byte>)
    requires |names| == 3
    ensures PHashInput(rc, cc, names, params) ==
            (if rc.Some? then rc.value else []) + cc + (if names[0].Some? then names[0].value else [])
            + (if names[1].Some? then names[1].value else []) + (if names[2].Some? then names[2].value else [])
            + params
  {
  }

  /** Updating a hash or HMAC with a part that may be missing. */
  function FeedIf(message: seq<byte>, part: Option<seq<byte>>): (m: seq<byte>)
    ensures m == message + OptBytes(part)
  {
    match part case Some(bytes) => message + bytes case None => message
  }

  /** iesys_crypto_pHash; the names are hashed without their size fields. */
  method PHash(c: Crypto, alg: nat, rcBuffer: Option<seq<byte>>, cc: seq<byte>, names: seq<Option<seq<byte>>>,
               params: seq<byte>)
    returns (rc: Rc, digest: seq<byte>)
    requires |names| == 3
    ensures rc == StartRc(c, alg)
    ensures rc == Success ==>
              digest == c.hash(alg, PHashInput(rcBuffer, cc, names, params)) && DigestSize(alg) == Some(|digest|)
    ensures rc == Success ==>
              digest == c.hash(alg, (if rcBuffer.Some? then rcBuffer.value else []) + cc
                                    + (if names[0].Some? then names[0].value else [])
                                    + (if names[1].Some? then names[1].value else [])
                                    + (if names[2].Some? then names[2].value else []) + params)
  {
    PHashInputIs(rcBuffer, cc, names, params);
    if StartRc(c, alg) != Success {
      return StartRc(c, alg), [];
    }
    var message := FeedIf([], rcBuffer) + cc;
    assert message == OptBytes(rcBuffer) + cc;
    hide OptBytes, Lawful;
    message := FeedIf(message, names[0]);
    message := FeedIf(message, names[1]);
    message := FeedIf(message, names[2]);
    return Success, c.hash(alg, message + params);
  }

  /** What an authorization HMAC covers; the nonce order is that of the sender. */
  function AuthInput(pHash: seq<byte>, newer: seq<byte>, older: seq<byte>, decrypt: Option<seq<byte>>,
                     encrypt: Option<seq<byte>>, attributes: byte): seq<byte>
  {
    pHash + newer + older + OptBytes(decrypt) + OptBytes(encrypt) + [attributes]
  }

  /** Hash, newer nonce, older nonce, the nonces of other sessions, attributes. */
  lemma AuthInputIs(pHash: seq<byte>, newer: seq<byte>, older: seq<byte>, decrypt: Option<seq<byte>>,
                    encrypt: Option<seq<byte>>, attributes: byte)
    ensures AuthInput(pHash, newer, older, decrypt, encrypt, attributes) ==
            pHash + newer + older + (if decrypt.Some? then decrypt.value else [])
            + (if encrypt.Some? then encrypt.value else []) + [attributes]
  {
  }

  /** iesys_crypto_authHmac */
  method AuthHmac(c: Crypto, alg: nat, key: seq<byte>, pHash: seq<byte>, newer: seq<byte>, older: seq<byte>,
                  decrypt: Option<seq<byte>>, encrypt: Option<seq<byte>>, attributes: byte)
    returns (rc: Rc, hmac: seq<byte>)
    ensures rc == StartRc(c, alg)
    ensures rc == Success ==>
              && hmac == c.hmac(alg, key, AuthInput(pHash, newer, older, decrypt, encrypt, attributes))
              && DigestSize(alg) == Some(|hmac|)
    ensures rc == Success ==>
              hmac == c.hmac(alg, key, pHash + newer + older + (if decrypt.Some? then decrypt.value else [])
                                       + (if encrypt.Some? then encrypt.value else []) + [attributes])
  {
    AuthInputIs(pHash, newer, older, decrypt, encrypt, attributes);
    if StartRc(c, alg) != Success {
      return StartRc(c, alg), [];
    }
    var message := pHash + newer + older;
    message := FeedIf(message, decrypt);
    message := FeedIf(message, encrypt);
    return Success, c.hmac(alg, key, message + [attributes]);
  }

  // ---------------------------------------------------------------- counter arithmetic

  /** The length of `n` pieces of `h` bytes. */
  function Span(n: nat, h: nat): (s: nat) {
    if n == 0 then 0 else Span(n - 1, h) + h
  }

  lemma {:induction false} SpanIs(n: nat, h: nat)
    ensures Span(n, h) == n * h
  {
    if n > 0 {
      SpanIs(n - 1, h);
      assert n * h == (n - 1) * h + h;
    }
  }

  lemma SpanNext(n: nat, h: nat)
    ensures Span(0, h) == 0 && Span(n + 1, h) == Span(n, h) + h
  {
  }

  lemma {:induction false} SpanMono(i: nat, n: nat, h: nat)
    requires i <= n
    ensures Span(i, h) <= Span(n, h)
  {
    if i < n { SpanMono(i, n - 1, h); }
  }

  /** How many pieces of `h` bytes cover `bytes`. */
  function Blocks(bytes: int, h: nat): nat
    requires h > 0
    decreases if bytes <= 0 then 0 else bytes
  {
    if bytes <= 0 then 0 else 1 + Blocks(bytes - h, h)
  }

  lemma BlocksStep(bytes: int, h: nat)
    requires h > 0 && bytes > 0
    ensures Blocks(bytes, h) == 1 + Blocks(bytes - h, h)
  {
  }

  /** ... which is the quotient rounded up. */
  lemma {:induction false} BlocksIsCeil(n: nat, h: nat)
    requires h > 0
    ensures Blocks(n, h) == (n + h - 1) / h
    ensures n <= Span(Blocks(n, h), h) < n + h
    decreases n
  {
    if n > h {
      BlocksIsCeil(n - h, h);
      QuotientStep(n - 1, h);
    } else if n > 0 {
      assert Blocks(n - h, h) == 0 && Blocks(n, h) == 1 && Span(1, h) == Span(0, h) + h;
      DivisionUnique(n + h - 1, h, 1);
    } else {
      DivisionUnique(h - 1, h, 0);
    }
  }

  lemma QuotientStep(x: nat, h: nat)
    requires h > 0
    ensures (x + h) / h == x / h + 1
  {
    var q, r := x / h, x % h;
    assert x == q * h + r;
    assert (q + 1) * h == q * h + h;
    DivisionUnique(x + h, h, q + 1);
  }

  lemma DivisionUnique(j: nat, h: nat, q: nat)
    requires h > 0 && q * h <= j < q * h + h
    ensures j / h == q && j % h == j - q * h
  {
    MulMono(j / h, q, h);
    MulMono(q, j / h, h);
  }

  lemma {:induction false} MulMono(a: nat, b: nat, h: nat)
    ensures a < b ==> a * h + h <= b * h
  {
    if a < b {
      assert b * h == (b - 1) * h + h;
      MulMono(a, b - 1, h);
    }
  }

  function Next(counter: nat): nat { (counter + 1) % U32 }

  function CounterAt(start: nat, i: nat): nat { (start + i) % U32 }

  lemma CounterZero(start: nat)
    requires start < U32
    ensures CounterAt(start, 0) == start
  {
  }

  lemma CounterStep(start: nat, i: nat)
    ensures Next(CounterAt(start, i)) == CounterAt(start, i + 1)
  {
  }

  lemma CounterAdd(start: nat, n: nat, m: nat)
    ensures CounterAt(CounterAt(start, n), m) == CounterAt(start, n + m)
  {
  }

  function Pow2(k: nat): (p: nat)
    ensures p > 0
  {
    if k == 0 then 1 else 2 * Pow2(k - 1)
  }

  /** `b & ((1 << k) - 1)`: the k low bits. */
  function Low(b: byte, k: nat): (r: byte)
    ensures r <= b && r < Pow2(k)
  {
    if k == 0 then 0 else b % 2 + 2 * Low(b / 2, k - 1)
  }

  /** `& ((1 << k) - 1)` on the first byte, when the bit length is no multiple of 8. */
  function MaskFirst(bits: nat, s: seq<byte>): (r: seq<byte>)
    ensures |r| == |s| && forall i :: 0 < i < |s| ==> r[i] == s[i]
    ensures bits % 8 == 0 ==> r == s
  {
    if bits % 8 != 0 && s != [] then [Low(s[0], bits % 8)] + s[1..] else s
  }

  lemma Pow2Values()
    ensures Pow2(0) == 1 && Pow2(1) == 2 && Pow2(2) == 4 && Pow2(3) == 8 && Pow2(4) == 16
    ensures Pow2(5) == 32 && Pow2(6) == 64 && Pow2(7) == 128 && Pow2(8) == 256
  {
    assert Pow2(2) == 4 && Pow2(4) == 16 && Pow2(6) == 64;
  }

  /** The low bits of a byte are its remainder. */
  lemma {:induction false} LowIs(b: byte, k: nat)
    ensures Low(b, k) == (b as int) % Pow2(k)
  {
    if k > 0 {
      LowIs(b / 2, k - 1);
      HalfRemainder(b, Pow2(k - 1));
    }
  }

  lemma HalfRemainder(b: nat, m: nat)
    requires m > 0
    ensures b % (2 * m) == b % 2 + 2 * (b / 2 % m)
  {
    var q, x := b / 2 / m, b / 2 % m;
    assert b / 2 == q * m + x;
    assert 2 * (q * m) == q * (2 * m);
    DivisionUnique(b, 2 * m, q);
  }

  /** The mask keeps as many low bits of the first byte as the bit length has over whole bytes. */
  lemma MaskIs(bits: nat, s: seq<byte>)
    requires s != []
    ensures MaskFirst(bits, s) == [if bits % 8 == 0 then s[0] else (s[0] as int) % Pow2(bits % 8)] + s[1..]
  {
    LowIs(s[0], bits % 8);
    hide Low, Pow2;
  }

  /** The label as it is hashed, with the terminating zero of the C string. */
  function LabelBytes(purpose: Option<seq<byte>>): seq<byte> {
    match purpose case Some(l) => l + [0] case None => []
  }

  const LABEL_CFB: seq<byte> := [67, 70, 66]
  const LABEL_XOR: seq<byte> := [88, 79, 82]

  // ---------------------------------------------------------------- KDFa

  /** What is derived: by KDFa from an HMAC key and two nonces, or by KDFe from a shared
      secret and the coordinates of the two parties, each of which may be missing. */
  datatype Kdf =
    | Kdfa(alg: nat, purpose: Option<seq<byte>>, bits: nat, key: seq<byte>, u: seq<byte>, v: seq<byte>)
    | Kdfe(alg: nat, purpose: Option<seq<byte>>, bits: nat, z: Option<seq<byte>>, partyU: Option<seq<byte>>,
           partyV: Option<seq<byte>>)

  /** One block. KDFa is the counter mode of NIST SP 800-108 section 5.1, an HMAC over
      [i] || label || 00 || context || [L]; KDFe hashes [i] || Z || label || 00 || U || V. */
  function KdfBlock(c: Crypto, p: Kdf, counter: nat): (b: seq<byte>)
    ensures DigestSize(p.alg).Some? ==> |b| == Hlen(p.alg)
  {
    match p
    case Kdfa(alg, purpose, bits, key, u, v) =>
      c.hmac(alg, key, ToBE(counter, 4) + LabelBytes(purpose) + u + v + ToBE(bits, 4))
    case Kdfe(alg, purpose, _, z, u, v) =>
      c.hash(alg, ToBE(counter, 4) + OptBytes(z) + LabelBytes(purpose) + OptBytes(u) + OptBytes(v))
  }

  /** The two kinds of blocks, written out. */
  lemma KdfBlockIs(c: Crypto, p: Kdf, counter: nat)
    ensures p.Kdfa? ==>
              KdfBlock(c, p, counter) ==
              c.hmac(p.alg, p.key, ToBE(counter, 4) + (if p.purpose.Some? then p.purpose.value + [0] else [])
                                   + p.u + p.v + ToBE(p.bits, 4))
    ensures p.Kdfe? ==>
              KdfBlock(c, p, counter) ==
              c.hash(p.alg, ToBE(counter, 4) + (if p.z.Some? then p.z.value else [])
                            + (if p.purpose.Some? then p.purpose.value + [0] else [])
                            + (if p.partyU.Some? then p.partyU.value else [])
                            + (if p.partyV.Some? then p.partyV.value else []))
  {
    hide Lawful;
  }

  /** The blocks for the `n` counters behind `start`, one after the other. */
  function KdfStream(c: Crypto, p: Kdf, start: nat, n: nat): (s: seq<byte>)
    requires DigestSize(p.alg).Some?
    ensures |s| == Span(n, Hlen(p.alg))
  {
    if n == 0 then [] else KdfStream(c, p, start, n - 1) + KdfBlock(c, p, CounterAt(start, n))
  }

  /** iesys_crypto_KDFaHmac */
  method KDFaHmac(c: Crypto, p: Kdf, counter: nat) returns (rc: Rc, hmac: seq<byte>)
    requires p.Kdfa?
    ensures rc == StartRc(c, p.alg)
    ensures rc == Success ==> hmac == KdfBlock(c, p, counter)
    ensures rc == Success ==>
              hmac == c.hmac(p.alg, p.key, ToBE(counter, 4) + (if p.purpose.Some? then p.purpose.value + [0] else [])
                                           + p.u + p.v + ToBE(p.bits, 4))
  {
    KdfBlockIs(c, p, counter);
    if StartRc(c, p.alg) != Success {
      return StartRc(c, p.alg), [];
    }
    var message := FeedIf(ToBE(counter, 4), if p.purpose.Some? then Some(p.purpose.value + [0]) else None);
    assert message == ToBE(counter, 4) + LabelBytes(p.purpose);
    hide LabelBytes, Lawful;
    message := message + p.u;
    message := message + p.v;
    return Success, c.hmac(p.alg, p.key, message + ToBE(p.bits, 4));
  }

  /** The hash of one round of KDFe. */
  method KDFeHash(c: Crypto, p: Kdf, counter: nat) returns (rc: Rc, digest: seq<byte>)
    requires p.Kdfe?
    ensures rc == StartRc(c, p.alg)
    ensures rc == Success ==> digest == KdfBlock(c, p, counter)
    ensures rc == Success ==>
              digest == c.hash(p.alg, ToBE(counter, 4) + (if p.z.Some? then p.z.value else [])
                                      + (if p.purpose.Some? then p.purpose.value + [0] else [])
                                      + (if p.partyU.Some? then p.partyU.value else [])
                                      + (if p.partyV.Some? then p.partyV.value else []))
  {
    KdfBlockIs(c, p, counter);
    if StartRc(c, p.alg) != Success {
      return StartRc(c, p.alg), [];
    }
    var message := FeedIf(ToBE(counter, 4), p.z);
    ghost var front := message;
    message := FeedIf(message, if p.purpose.Some? then Some(p.purpose.value + [0]) else None);
    assert message == front + LabelBytes(p.purpose);
    hide LabelBytes, OptBytes, Lawful;
    message := FeedIf(message, p.partyU);
    message := FeedIf(message, p.partyV);
    return Success, c.hash(p.alg, message);
  }

  /** The bytes a call asks for; the sum in front of the division is one of 32 bits. */
  function KdfaBytes(p: Kdf, useDigestSize: bool): nat {
    if useDigestSize then Hlen(p.alg) else ((p.bits + 7) % U32) / 8
  }

  function KdfaBlocks(p: Kdf, useDigestSize: bool): nat { Blocks(KdfaBytes(p, useDigestSize), Hlen(p.alg)) }

  function KdfaRc(c: Crypto, p: Kdf, useDigestSize: bool): Rc {
    if DigestSize(p.alg) == None then EsysBadValue
    else if KdfaBytes(p, useDigestSize) > 0 then StartRc(c, p.alg)
    else Success
  }

  /** The output when the first `n` blocks are there, in front of what it held before. */
  ghost function Filled(c: Crypto, p: Kdf, start: nat, n: nat, was: seq<byte>): seq<byte>
    requires DigestSize(p.alg).Some? && Span(n, Hlen(p.alg)) <= |was|
  {
    KdfStream(c, p, start, n) + was[Span(n, Hlen(p.alg))..]
  }

  lemma FilledStep(c: Crypto, p: Kdf, start: nat, n: nat, was: seq<byte>)
    requires DigestSize(p.alg).Some? && Span(n + 1, Hlen(p.alg)) <= |was|
    ensures Splice(Filled(c, p, start, n, was), Span(n, Hlen(p.alg)), KdfBlock(c, p, CounterAt(start, n + 1)))
            == Filled(c, p, start, n + 1, was)
  {
    hide KdfBlock, DigestSize, CounterAt, Lawful;
    var a, b := KdfStream(c, p, start, n), KdfBlock(c, p, CounterAt(start, n + 1));
    assert KdfStream(c, p, start, n + 1) == a + b;
    SpliceFront(was, a, b);
  }

  lemma SpliceFront(s: seq<byte>, a: seq<byte>, b: seq<byte>)
    requires |a| + |b| <= |s|
    ensures Splice(a + s[|a|..], |a|, b) == a + b + s[|a| + |b|..]
  {
  }

  /** Where the loop stands after `n` blocks. */
  ghost predicate Progress(c: Crypto, p: Kdf, start: nat, wanted: nat, n: nat, bytes: int, subKey: nat, counter: nat,
                           now: seq<byte>, was: seq<byte>)
    requires DigestSize(p.alg).Some?
  {
    var h := Hlen(p.alg);
    && n + Blocks(bytes, h) == Blocks(wanted, h) && subKey == Span(n, h)
    && subKey <= |was| && Span(Blocks(wanted, h), h) <= |was|
    && counter == CounterAt(start, n)
    && (bytes == wanted ==> now == was)
    && (bytes != wanted ==> bytes < wanted && StartRc(c, p.alg) == Success)
    && now == Filled(c, p, start, n, was)
  }

  lemma ProgressStart(c: Crypto, p: Kdf, start: nat, wanted: nat, was: seq<byte>)
    requires DigestSize(p.alg).Some? && start < U32 && Span(Blocks(wanted, Hlen(p.alg)), Hlen(p.alg)) <= |was|
    ensures Progress(c, p, start, wanted, 0, wanted, 0, start, was, was)
  {
    CounterZero(start);
    SpanNext(0, Hlen(p.alg));
  }

  lemma ProgressEnd(c: Crypto, p: Kdf, start: nat, wanted: nat, n: nat, bytes: int, subKey: nat, counter: nat,
                    now: seq<byte>, was: seq<byte>)
    requires DigestSize(p.alg).Some? && bytes <= 0
    requires Progress(c, p, start, wanted, n, bytes, subKey, counter, now, was)
    ensures n == Blocks(wanted, Hlen(p.alg)) && Span(n, Hlen(p.alg)) <= |was|
    ensures counter == CounterAt(start, n) && now == Filled(c, p, start, n, was)
    ensures wanted > 0 ==> StartRc(c, p.alg) == Success
  {
  }

  /** One round: the block of the next counter goes behind those that are there. */
  method PutBlock(c: Crypto, p: Kdf, ghost start: nat, ghost wanted: nat, ghost n: nat, ghost bytes: nat,
                  counter: nat, out: array<byte>, subKey: nat, ghost was: seq<byte>)
    returns (rc: Rc)
    requires DigestSize(p.alg).Some? && |was| == out.Length && bytes > 0
    requires Progress(c, p, start, wanted, n, bytes, subKey, counter, out[..], was)
    modifies out
    ensures rc == StartRc(c, p.alg)
    ensures rc == Success ==>
              var h := Hlen(p.alg);
              Progress(c, p, start, wanted, n + 1, bytes - h, subKey + h, Next(counter), out[..], was)
    ensures rc != Success ==> bytes == wanted && out[..] == was
  {
    hide Lawful, KdfBlock, DigestSize, CounterAt, Next, Filled, Splice, StartRc, Blocks, Span;
    var h := Hlen(p.alg);
    BlocksStep(bytes, h);
    SpanMono(n + 1, Blocks(wanted, h), h);
    SpanNext(n, h);
    CounterStep(start, n);
    var block;
    if p.Kdfa? {
      rc, block := KDFaHmac(c, p, Next(counter));
    } else {
      rc, block := KDFeHash(c, p, Next(counter));
    }
    if rc == Success {
      FilledStep(c, p, start, n, was);
      CopyIn(out, subKey, block);
    }
  }

  /** The loop of both derivations over the wanted bytes; the counter is stepped before each
      block, which is written whole. */
  method FillBlocks(c: Crypto, p: Kdf, counterIn: nat, out: array<byte>, wanted: nat) returns (rc: Rc, counter: nat)
    requires counterIn < U32 && DigestSize(p.alg).Some? && Span(Blocks(wanted, Hlen(p.alg)), Hlen(p.alg)) <= out.Length
    modifies out
    ensures rc == if wanted > 0 then StartRc(c, p.alg) else Success
    ensures rc != Success ==> out[..] == old(out[..])
    ensures rc == Success ==>
              var n := Blocks(wanted, Hlen(p.alg));
              counter == CounterAt(counterIn, n) && out[..] == Filled(c, p, counterIn, n, old(out[..]))
  {
    hide *;
    var hlen := Hlen(p.alg);
    var bytes: int, subKey := wanted, 0;
    ghost var was, i := out[..], 0;
    counter := counterIn;
    ProgressStart(c, p, counterIn, wanted, was);
    while bytes > 0
      invariant bytes <= wanted && Progress(c, p, counterIn, wanted, i, bytes, subKey, counter, out[..], was)
      decreases bytes
    {
      rc := PutBlock(c, p, counterIn, wanted, i, bytes, counter, out, subKey, was);
      if rc != Success {
        return rc, counterIn;
      }
      counter := Next(counter);
      subKey, bytes, i := subKey + hlen, bytes - hlen, i + 1;
    }
    ProgressEnd(c, p, counterIn, wanted, i, bytes, subKey, counter, out[..], was);
    rc := Success;
  }

  /** The masking of the first output byte. */
  method MaskOut(bits: nat, out: array<byte>)
    requires bits % 8 != 0 ==> out.Length > 0
    modifies out
    ensures out[..] == MaskFirst(bits, old(out[..]))
  {
    if bits % 8 != 0 {
      out[0] := Low(out[0], bits % 8);
    }
  }

  /** iesys_crypto_KDFa. The output gets whole blocks, so it may get more than was asked for;
      only then the first byte is masked and the counter handed back. */
  method KDFa(c: Crypto, p: Kdf, counterIn: nat, out: array<byte>, useDigestSize: bool)
    returns (rc: Rc, counterOut: nat)
    requires p.Kdfa? && counterIn < U32 && p.bits < U32
    requires DigestSize(p.alg).Some? ==> Span(KdfaBlocks(p, useDigestSize), Hlen(p.alg)) <= out.Length
    requires p.bits % 8 != 0 ==> out.Length > 0
    modifies out
    ensures rc == KdfaRc(c, p, useDigestSize)
    ensures rc != Success ==> out[..] == old(out[..]) && counterOut == counterIn
    ensures rc == Success ==>
              var n := KdfaBlocks(p, useDigestSize);
              && counterOut == CounterAt(counterIn, n)
              && out[..] == MaskFirst(p.bits, KdfStream(c, p, counterIn, n) + old(out[..])[Span(n, Hlen(p.alg))..])
    ensures rc == Success ==>
              var h, name := DigestSize(p.alg).value, if p.purpose.Some? then p.purpose.value + [0] else [];
              var n := ((if useDigestSize then h else (p.bits + 7) % 0x1_0000_0000 / 8) + h - 1) / h;
              && counterOut == (counterIn + n) % 0x1_0000_0000
              && (forall k: nat :: 0 < k < n ==>
                    Piece(out[..], k, h) ==
                    c.hmac(p.alg, p.key, ToBE((counterIn + k + 1) % 0x1_0000_0000, 4) + name + p.u + p.v
                                         + ToBE(p.bits, 4)))
              && (n > 0 ==>
                    var b := c.hmac(p.alg, p.key, ToBE((counterIn + 1) % 0x1_0000_0000, 4) + name + p.u + p.v
                                                  + ToBE(p.bits, 4));
                    && |b| == h <= |out[..]| && out[..][1..h] == b[1..]
                    && out[..][0] == if p.bits % 8 == 0 then b[0] else (b[0] as int) % Pow2(p.bits % 8))
  {
    if DigestSize(p.alg) == None {
      return EsysBadValue, counterIn;
    }
    hide Lawful, DigestSize, MaskFirst, CounterAt, Blocks, Span, KdfStream;
    var bytes := if useDigestSize then DigestSize(p.alg).value else ((p.bits + 7) % U32) / 8;
    var counter;
    rc, counter := FillBlocks(c, p, counterIn, out, bytes);
    if rc != Success {
      return rc, counterIn;
    }
    MaskOut(p.bits, out);
    ghost var rest := old(out[..])[Span(KdfaBlocks(p, useDigestSize), Hlen(p.alg))..];
    KdfaWritten(c, p, counterIn, useDigestSize, rest, out[..]);
    return Success, counter;
  }

  /** What KDFa leaves, block by block: the counters behind the one it was given, each in an
      HMAC of its own. */
  lemma KdfaWritten(c: Crypto, p: Kdf, counterIn: nat, useDigestSize: bool, rest: seq<byte>, out: seq<byte>)
    requires p.Kdfa? && DigestSize(p.alg).Some?
    requires out == MaskFirst(p.bits, KdfStream(c, p, counterIn, KdfaBlocks(p, useDigestSize)) + rest)
    ensures var h, name := DigestSize(p.alg).value, if p.purpose.Some? then p.purpose.value + [0] else [];
            var n := ((if useDigestSize then h else (p.bits + 7) % 0x1_0000_0000 / 8) + h - 1) / h;
            && CounterAt(counterIn, KdfaBlocks(p, useDigestSize)) == (counterIn + n) % 0x1_0000_0000
            && (forall k: nat :: 0 < k < n ==>
                  Piece(out, k, h) ==
                  c.hmac(p.alg, p.key, ToBE((counterIn + k + 1) % 0x1_0000_0000, 4) + name + p.u + p.v
                                       + ToBE(p.bits, 4)))
            && (n > 0 ==>
                  var b := c.hmac(p.alg, p.key, ToBE((counterIn + 1) % 0x1_0000_0000, 4) + name + p.u + p.v
                                                + ToBE(p.bits, 4));
                  && |b| == h <= |out| && out[1..h] == b[1..]
                  && out[0] == if p.bits % 8 == 0 then b[0] else (b[0] as int) % Pow2(p.bits % 8))
  {
    hide KdfBlock, KdfStream, DigestSize, Lawful, Pow2, MaskFirst, Blocks, Span, ToBE, Piece;
    var h := Hlen(p.alg);
    var n := KdfaBlocks(p, useDigestSize);
    BlocksIsCeil(KdfaBytes(p, useDigestSize), h);
    MaskedPieces(c, p, counterIn, n, rest, out);
    KdfBlockIs(c, p, (counterIn + 1) % U32);
    var name := if p.purpose.Some? then p.purpose.value + [0] else [];
    forall k: nat | 0 < k < n
      ensures Piece(out, k, h) ==
              c.hmac(p.alg, p.key, ToBE((counterIn + k + 1) % 0x1_0000_0000, 4) + name + p.u + p.v + ToBE(p.bits, 4))
    {
      KdfBlockIs(c, p, (counterIn + k + 1) % U32);
    }
  }

  /** The conversion to INT16. */
  function Int16(n: nat): int {
    if n % 65536 < 32768 then n % 65536 else n % 65536 - 65536
  }

  function KdfeBytes(bits: nat): int { Int16(((bits + 7) % U32) / 8) }

  function KdfeRc(c: Crypto, p: Kdf): Rc {
    if DigestSize(p.alg) == None || KdfeBytes(p.bits) == 0 then EsysBadValue
    else if KdfeBytes(p.bits) > 0 then StartRc(c, p.alg)
    else Success
  }

  /** iesys_crypto_KDFe */
  method KDFe(c: Crypto, p: Kdf, key: array<byte>) returns (rc: Rc)
    requires p.Kdfe? && p.bits < U32
    requires DigestSize(p.alg).Some? ==> Span(Blocks(KdfeBytes(p.bits), Hlen(p.alg)), Hlen(p.alg)) <= key.Length
    requires p.bits % 8 != 0 ==> key.Length > 0
    modifies key
    ensures rc == KdfeRc(c, p)
    ensures rc != Success ==> key[..] == old(key[..])
    ensures rc == Success ==>
              var n := Blocks(KdfeBytes(p.bits), Hlen(p.alg));
              key[..] == MaskFirst(p.bits, KdfStream(c, p, 0, n) + old(key[..])[Span(n, Hlen(p.alg))..])
    ensures rc == Success ==>
              var h, name := DigestSize(p.alg).value, if p.purpose.Some? then p.purpose.value + [0] else [];
              var bytes := (p.bits + 7) % 0x1_0000_0000 / 8 % 65536;
              var n := if bytes < 32768 then (bytes + h - 1) / h else 0;
              var z, pu := if p.z.Some? then p.z.value else [], if p.partyU.Some? then p.partyU.value else [];
              var pv := if p.partyV.Some? then p.partyV.value else [];
              && (forall k: nat :: 0 < k < n ==>
                    Piece(key[..], k, h) == c.hash(p.alg, ToBE((k + 1) % 0x1_0000_0000, 4) + z + name + pu + pv))
              && (n > 0 ==>
                    var b := c.hash(p.alg, ToBE(1, 4) + z + name + pu + pv);
                    && |b| == h <= |key[..]| && key[..][1..h] == b[1..]
                    && key[..][0] == if p.bits % 8 == 0 then b[0] else (b[0] as int) % Pow2(p.bits % 8))
  {
    if DigestSize(p.alg) == None || KdfeBytes(p.bits) == 0 {
      return EsysBadValue;
    }
    hide Lawful, DigestSize, MaskFirst, CounterAt, Span, KdfStream;
    var byteSize, counter := KdfeBytes(p.bits), 0;
    if byteSize > 0 {
      hide Blocks;
      rc, counter := FillBlocks(c, p, 0, key, byteSize);
      if rc != Success {
        return rc;
      }
    } else {
      NothingFilled(c, p, key[..]);
    }
    MaskOut(p.bits, key);
    KdfeWritten(c, p, old(key[..])[Span(Blocks(KdfeBytes(p.bits), Hlen(p.alg)), Hlen(p.alg))..], key[..]);
    return Success;
  }

  /** What KDFe leaves, block by block. */
  lemma KdfeWritten(c: Crypto, p: Kdf, rest: seq<byte>, out: seq<byte>)
    requires p.Kdfe? && DigestSize(p.alg).Some?
    requires out == MaskFirst(p.bits, KdfStream(c, p, 0, Blocks(KdfeBytes(p.bits), Hlen(p.alg))) + rest)
    ensures var h, name := DigestSize(p.alg).value, if p.purpose.Some? then p.purpose.value + [0] else [];
            var bytes := (p.bits + 7) % 0x1_0000_0000 / 8 % 65536;
            var n := if bytes < 32768 then (bytes + h - 1) / h else 0;
            var z, pu := if p.z.Some? then p.z.value else [], if p.partyU.Some? then p.partyU.value else [];
            var pv := if p.partyV.Some? then p.partyV.value else [];
            && (forall k: nat :: 0 < k < n ==>
                  Piece(out, k, h) == c.hash(p.alg, ToBE((k + 1) % 0x1_0000_0000, 4) + z + name + pu + pv))
            && (n > 0 ==>
                  var b := c.hash(p.alg, ToBE(1, 4) + z + name + pu + pv);
                  && |b| == h <= |out| && out[1..h] == b[1..]
                  && out[0] == if p.bits % 8 == 0 then b[0] else (b[0] as int) % Pow2(p.bits % 8))
  {
    hide KdfBlock, KdfStream, DigestSize, Lawful, Pow2, MaskFirst, Blocks, Span, ToBE, Piece, KdfeBytes;
    var h := Hlen(p.alg);
    var n := Blocks(KdfeBytes(p.bits), h);
    KdfeCount(p.bits, h);
    MaskedPieces(c, p, 0, n, rest, out);
    KdfBlockIs(c, p, 1 % U32);
    var name := if p.purpose.Some? then p.purpose.value + [0] else [];
    var z, pu := if p.z.Some? then p.z.value else [], if p.partyU.Some? then p.partyU.value else [];
    var pv := if p.partyV.Some? then p.partyV.value else [];
    forall k: nat | 0 < k < n
      ensures Piece(out, k, h) == c.hash(p.alg, ToBE((k + 1) % 0x1_0000_0000, 4) + z + name + pu + pv)
    {
      KdfBlockIs(c, p, (k + 1) % U32);
    }
  }

  lemma KdfeCount(bits: nat, h: nat)
    requires h > 0
    ensures var bytes := (bits + 7) % 0x1_0000_0000 / 8 % 65536;
            Blocks(KdfeBytes(bits), h) == if bytes < 32768 then (bytes + h - 1) / h else 0
  {
    if KdfeBytes(bits) >= 0 { BlocksIsCeil(KdfeBytes(bits), h); }
  }

  /** How both derivations end: an unknown algorithm is a bad value, and so is a length of zero
      for KDFe; no algorithm is started for no bytes. */
  lemma KdfRcs(c: Crypto, p: Kdf, useDigestSize: bool)
    ensures KdfaRc(c, p, useDigestSize) ==
            if p.alg !in {0x0004, 0x000B, 0x000C, 0x000D, 0x0012} then EsysBadValue
            else if !useDigestSize && (p.bits + 7) % 0x1_0000_0000 < 8 then Success
            else if p.alg !in c.algs then EsysNotImplemented else Success
    ensures KdfeRc(c, p) ==
            var bytes := (p.bits + 7) % 0x1_0000_0000 / 8 % 65536;
            if p.alg !in {0x0004, 0x000B, 0x000C, 0x000D, 0x0012} || bytes == 0 then EsysBadValue
            else if bytes < 32768 && p.alg !in c.algs then EsysNotImplemented else Success
  {
    hide Lawful;
  }

  lemma NothingFilled(c: Crypto, p: Kdf, was: seq<byte>)
    requires DigestSize(p.alg).Some?
    ensures Span(0, Hlen(p.alg)) == 0 && KdfStream(c, p, 0, 0) + was[0..] == was
  {
  }

  /** KDFe derives as many bytes as the bits take up exactly up to 32767 of them, the largest
      number its INT16 holds. */
  lemma KdfeLengthIff(bits: nat)
    requires bits < U32
    ensures KdfeBytes(bits) == (bits + 7) / 8 <==> (bits + 7) / 8 < 32768
  {
  }

  /** The first length beyond derives nothing at all, and says so to nobody. */
  lemma KdfeDerivesNothing(c: Crypto, alg: nat, z: Option<seq<byte>>)
    requires DigestSize(alg).Some?
    ensures KdfeRc(c, Kdfe(alg, None, 32768 * 8, z, None, None)) == Success
    ensures Blocks(KdfeBytes(32768 * 8), Hlen(alg)) == 0
  {
    assert KdfeBytes(32768 * 8) < 0;
  }

  /** KDFa derives as many bytes as the bits take up unless rounding up wraps 32 bits. */
  lemma KdfaLengthIff(p: Kdf)
    requires p.Kdfa? && p.bits < U32
    ensures KdfaBytes(p, false) == (p.bits + 7) / 8 <==> p.bits + 7 < U32
  {
  }

  /** Any byte of the derived stream belongs to the block of its own counter. */
  lemma {:induction false} KdfStreamAt(c: Crypto, p: Kdf, start: nat, n: nat, k: nat, j: nat)
    requires DigestSize(p.alg).Some? && k < n && j < Hlen(p.alg)
    ensures Span(k, Hlen(p.alg)) + j < |KdfStream(c, p, start, n)|
    ensures KdfStream(c, p, start, n)[Span(k, Hlen(p.alg)) + j] == KdfBlock(c, p, CounterAt(start, k + 1))[j]
  {
    hide KdfBlock, DigestSize, CounterAt;
    if k < n - 1 {
      KdfStreamAt(c, p, start, n - 1, k, j);
    }
  }

  /** The k-th piece of `h` bytes; nothing if there is none. */
  ghost function Piece(s: seq<byte>, k: nat, h: nat): seq<byte> {
    if k * h + h <= |s| then s[k * h..k * h + h] else []
  }

  lemma StreamPiece(c: Crypto, p: Kdf, start: nat, n: nat, rest: seq<byte>, k: nat)
    requires DigestSize(p.alg).Some? && k < n
    ensures Piece(KdfStream(c, p, start, n) + rest, k, Hlen(p.alg)) == KdfBlock(c, p, (start + k + 1) % U32)
  {
    hide KdfBlock, KdfStream, DigestSize, Span, Lawful;
    var h, s := Hlen(p.alg), KdfStream(c, p, start, n);
    SpanIs(k, h);
    SpanIs(n, h);
    MulMono(k, n, h);
    assert CounterAt(start, k + 1) == (start + k + 1) % U32;
    var b := KdfBlock(c, p, CounterAt(start, k + 1));
    forall j | 0 <= j < h ensures (s + rest)[k * h + j] == b[j] { KdfStreamAt(c, p, start, n, k, j); }
    assert |b| == h && |(s + rest)[k * h..k * h + h]| == h;
  }

  /** The pieces of what KDFa leaves, but for the masked first byte. */
  lemma MaskedPieces(c: Crypto, p: Kdf, start: nat, n: nat, rest: seq<byte>, out: seq<byte>)
    requires DigestSize(p.alg).Some? && out == MaskFirst(p.bits, KdfStream(c, p, start, n) + rest)
    ensures forall k: nat :: 0 < k < n ==> Piece(out, k, Hlen(p.alg)) == KdfBlock(c, p, (start + k + 1) % U32)
    ensures n > 0 ==>
              var h, b := Hlen(p.alg), KdfBlock(c, p, (start + 1) % U32);
              && |b| == h <= |out| && out[1..h] == b[1..]
              && out[0] == if p.bits % 8 == 0 then b[0] else (b[0] as int) % Pow2(p.bits % 8)
  {
    hide KdfBlock, KdfStream, DigestSize, Lawful, Low, Pow2, MaskFirst;
    var h, whole := Hlen(p.alg), KdfStream(c, p, start, n) + rest;
    if n > 0 {
      StreamPiece(c, p, start, n, rest, 0);
      assert 0 * h == 0;
      SpanIs(n, h);
      MulMono(0, n, h);
      MaskIs(p.bits, whole);
      assert Piece(whole, 0, h) == whole[0..h];
    }
    forall k: nat | 0 < k < n ensures Piece(out, k, h) == KdfBlock(c, p, (start + k + 1) % U32) {
      StreamPiece(c, p, start, n, rest, k);
      MulMono(0, k, h);
      SamePiece(out, whole, k, h);
    }
  }

  lemma SamePiece(a: seq<byte>, b: seq<byte>, k: nat, h: nat)
    requires |a| == |b| && k * h > 0 && forall i :: 0 < i < |b| ==> a[i] == b[i]
    ensures Piece(a, k, h) == Piece(b, k, h)
  {
  }

  /** Derivation can go on with the counter at which it stopped. */
  lemma {:induction false} KdfStreamSplit(c: Crypto, p: Kdf, start: nat, n: nat, m: nat)
    requires DigestSize(p.alg).Some?
    ensures KdfStream(c, p, start, n + m) == KdfStream(c, p, start, n) + KdfStream(c, p, CounterAt(start, n), m)
  {
    hide KdfBlock, DigestSize, CounterAt;
    if m > 0 {
      KdfStreamSplit(c, p, start, n, m - 1);
      CounterAdd(start, n, m);
      Assoc(KdfStream(c, p, start, n), KdfStream(c, p, CounterAt(start, n), m - 1),
            KdfBlock(c, p, CounterAt(start, n + m)));
    }
  }

  // ---------------------------------------------------------------- XOR obfuscation

  /** `a ^ b` on the w low bits. */
  function XorBits(a: nat, b: nat, w: nat): (r: nat)
    ensures r < Pow2(w)
  {
    if w == 0 then 0 else (a + b) % 2 + 2 * XorBits(a / 2, b / 2, w - 1)
  }

  lemma LowBit(a: nat, b: nat, high: nat, x: nat)
    requires x == (a + b) % 2 + 2 * high
    ensures x / 2 == high && (x + b) % 2 == a % 2 && a % 2 + 2 * (a / 2) == a
  {
  }

  lemma XorBitsStep(a: nat, b: nat, w: nat)
    requires w > 0
    ensures XorBits(a, b, w) == (a + b) % 2 + 2 * XorBits(a / 2, b / 2, w - 1)
  {
  }

  lemma HalfSmall(a: nat, w: nat)
    requires w > 0 && a < Pow2(w)
    ensures a / 2 < Pow2(w - 1)
  {
  }

  lemma {:induction false} XorBitsTwice(a: nat, b: nat, w: nat)
    requires a < Pow2(w)
    ensures XorBits(XorBits(a, b, w), b, w) == a
  {
    if w > 0 {
      hide XorBits, Pow2;
      var x := XorBits(a, b, w);
      XorBitsStep(a, b, w);
      LowBit(a, b, XorBits(a / 2, b / 2, w - 1), x);
      XorBitsStep(x, b, w);
      HalfSmall(a, w);
      XorBitsTwice(a / 2, b / 2, w - 1);
    }
  }

  lemma Pow2Byte()
    ensures Pow2(8) == 256
  {
    assert Pow2(4) == 16;
  }

  /** Bit by bit, for the eight bits of a byte. */
  lemma {:induction false} XorBitsAt(a: nat, b: nat, w: nat, k: nat)
    requires k < w
    ensures XorBits(a, b, w) / Pow2(k) % 2 == (a / Pow2(k) % 2 + b / Pow2(k) % 2) % 2
  {
    hide *;
    XorBitsStep(a, b, w);
    Pow2Step(k);
    if k == 0 {
      BitZero(a, b, XorBits(a / 2, b / 2, w - 1));
    } else {
      XorBitsAt(a / 2, b / 2, w - 1, k - 1);
      BitBehind(a, b, XorBits(a / 2, b / 2, w - 1), XorBits(a, b, w), Pow2(k - 1), Pow2(k));
    }
  }

  lemma Pow2Step(k: nat)
    ensures Pow2(0) == 1 && (k > 0 ==> Pow2(k) == 2 * Pow2(k - 1))
  {
  }

  lemma BitZero(a: nat, b: nat, high: nat)
    ensures ((a + b) % 2 + 2 * high) / 1 % 2 == (a / 1 % 2 + b / 1 % 2) % 2
  {
  }

  lemma BitBehind(a: nat, b: nat, high: nat, x: nat, m: nat, p: nat)
    requires x == (a + b) % 2 + 2 * high && m > 0 && p == 2 * m
    requires high / m % 2 == (a / 2 / m % 2 + b / 2 / m % 2) % 2
    ensures x / p % 2 == (a / p % 2 + b / p % 2) % 2
  {
    LowBit(a, b, high, x);
    HalveThen(x, m);
    HalveThen(a, m);
    HalveThen(b, m);
    assert x / p == high / m && a / p == a / 2 / m && b / p == b / 2 / m;
  }

  lemma HalveThen(n: nat, m: nat)
    requires m > 0
    ensures n / (2 * m) == n / 2 / m
  {
    var q, x := n / 2 / m, n / 2 % m;
    assert n / 2 == q * m + x;
    assert 2 * (q * m) == q * (2 * m);
    DivisionUnique(n, 2 * m, q);
  }

  lemma XorIs(a: byte, b: byte, k: nat)
    requires k < 8
    ensures (Xor(a, b) as int) / Pow2(k) % 2 == ((a as int) / Pow2(k) % 2 + (b as int) / Pow2(k) % 2) % 2
  {
    XorBitsAt(a, b, 8, k);
    hide XorBits, Pow2;
  }

  function Xor(a: byte, b: byte): byte {
    Pow2Byte();
    XorBits(a, b, 8)
  }

  lemma XorTwice(a: byte, b: byte)
    ensures Xor(Xor(a, b), b) == a
  {
    Pow2Byte();
    XorBitsTwice(a, b, 8);
  }

  /** Bytes combined with the front of a stream. */
  function XorWith(data: seq<byte>, stream: seq<byte>): (r: seq<byte>)
    requires |data| <= |stream|
    ensures |r| == |data| && forall i :: 0 <= i < |data| ==> r[i] == Xor(data[i], stream[i])
  {
    if data == [] then [] else [Xor(data[0], stream[0])] + XorWith(data[1..], stream[1..])
  }

  /** Twice the same stream restores the bytes, and two streams that do the same are the same
      as far as they are used. */
  lemma XorWithLaws(a: seq<byte>, s: seq<byte>, t: seq<byte>)
    requires |a| == |s| == |t|
    ensures XorWith(XorWith(a, s), s) == a
    ensures XorWith(a, s) == XorWith(a, t) <==> s == t
  {
    hide Xor;
    var x, y := XorWith(a, s), XorWith(a, t);
    forall i | 0 <= i < |a|
      ensures XorWith(x, s)[i] == a[i] && (x[i] == y[i] ==> s[i] == t[i])
    {
      XorTwice(a[i], s[i]);
      XorSwap(a[i], s[i]);
      XorSwap(a[i], t[i]);
      XorTwice(s[i], a[i]);
      XorTwice(t[i], a[i]);
    }
  }

  lemma {:induction false} XorBitsSwap(a: nat, b: nat, w: nat)
    ensures XorBits(a, b, w) == XorBits(b, a, w)
  {
    if w > 0 { XorBitsSwap(a / 2, b / 2, w - 1); }
  }

  lemma XorSwap(a: byte, b: byte)
    ensures Xor(a, b) == Xor(b, a)
  {
    XorBitsSwap(a, b, 8);
  }

  /** `now` is `was` with the first `n` bytes at `off` combined with a key stream. */
  ghost predicate Xored(now: seq<byte>, was: seq<byte>, off: nat, n: nat, stream: seq<byte>)
    requires off + n <= |was| && n <= |stream|
  {
    && |now| == |was|
    && forall j :: 0 <= j < |was| ==> now[j] == if off <= j < off + n then Xor(was[j], stream[j - off]) else was[j]
  }

  /** The same stream a second time restores the data. */
  lemma XoredTwice(a: seq<byte>, b: seq<byte>, c: seq<byte>, off: nat, n: nat, stream: seq<byte>)
    requires off + n <= |a| && n <= |stream|
    requires Xored(b, a, off, n, stream) && Xored(c, b, off, n, stream)
    ensures c == a
  {
    hide Xor;
    forall j | 0 <= j < |a| ensures c[j] == a[j] {
      if off <= j < off + n { XorTwice(a[j], stream[j - off]); }
    }
  }

  /** The one derivation that obfuscation stands for: as many bits as there is data. */
  function XorKdf(alg: nat, key: seq<byte>, u: seq<byte>, v: seq<byte>, size: nat): Kdf {
    Kdfa(alg, Some(LABEL_XOR), size * 8 % U32, key, u, v)
  }

  function XorStream(c: Crypto, p: Kdf, size: nat): (s: seq<byte>)
    requires DigestSize(p.alg).Some?
    ensures size <= |s|
  {
    BlocksIsCeil(size, Hlen(p.alg));
    KdfStream(c, p, 0, Blocks(size, Hlen(p.alg)))
  }

  /** Exactly for data whose bit count fits 32 bits, the stream is what one KDFa call derives:
      the count wraps for longer data, and the call derives too little. */
  lemma XorStreamIsKdfaIff(c: Crypto, alg: nat, key: seq<byte>, u: seq<byte>, v: seq<byte>, size: nat)
    requires DigestSize(alg).Some?
    ensures var p := XorKdf(alg, key, u, v, size);
            MaskFirst(p.bits, KdfStream(c, p, 0, KdfaBlocks(p, false))) == XorStream(c, p, size) <==> size * 8 < U32
  {
    hide KdfStream, Blocks, Span, MaskFirst, KdfaBytes, XorKdf, DigestSize, Lawful;
    var p, h := XorKdf(alg, key, u, v, size), Hlen(alg);
    XorKdfaBytes(alg, key, u, v, size);
    HlenSmall(alg);
    BlocksIsCeil(KdfaBytes(p, false), h);
    BlocksIsCeil(size, h);
  }

  lemma XorKdfaBytes(alg: nat, key: seq<byte>, u: seq<byte>, v: seq<byte>, size: nat)
    ensures var p := XorKdf(alg, key, u, v, size);
            && p.Kdfa? && p.alg == alg && p.bits % 8 == 0
            && (size * 8 < U32 ==> p.bits == size * 8 && KdfaBytes(p, false) == size)
            && (size * 8 >= U32 ==> KdfaBytes(p, false) + 64 < size)
  {
    var wrapped, whole := size * 8 % U32, size * 8 / U32;
    assert size * 8 == U32 * whole + wrapped;
    assert size * 8 >= U32 ==> whole >= 1;
  }

  lemma XorBitsWhole(alg: nat, key: seq<byte>, u: seq<byte>, v: seq<byte>, size: nat)
    ensures var p := XorKdf(alg, key, u, v, size); p.bits % 8 == 0 && p.bits < U32 && p.Kdfa? && p.alg == alg
  {
    var b := size * 8 % U32;
    assert size * 8 == U32 * (size * 8 / U32) + b;
  }

  /** One block goes over the next bytes of the data. */
  lemma XoredMore(now: seq<byte>, mid: seq<byte>, was: seq<byte>, off: nat, n: nat, k: nat, stream: seq<byte>,
                  block: seq<byte>)
    requires off + n + k <= |was| && n + k <= |stream| && k <= |block|
    requires Xored(mid, was, off, n, stream) && Xored(now, mid, off + n, k, block)
    requires forall j :: 0 <= j < k ==> block[j] == stream[n + j]
    ensures Xored(now, was, off, n + k, stream)
  {
    hide Xor;
    forall j | 0 <= j < |was|
      ensures now[j] == if off <= j < off + n + k then Xor(was[j], stream[j - off]) else was[j]
    {
      if off + n <= j < off + n + k { assert block[j - off - n] == stream[n + (j - off - n)]; }
    }
  }

  /** The inner loop: XOR the next bytes with the derived ones. */
  method XorBlock(data: array<byte>, off: nat, count: nat, block: array<byte>)
    requires off + count <= data.Length && count <= block.Length && data != block
    modifies data
    ensures Xored(data[..], old(data[..]), off, count, old(block[..]))
  {
    hide Xor;
    for i := 0 to count
      invariant block[..] == old(block[..])
      invariant Xored(data[..], old(data[..]), off, i, block[..])
    {
      data[off + i] := Xor(data[off + i], block[i]);
    }
  }

  /** One digest of the stream for the next counter. */
  method NextDigest(c: Crypto, p: Kdf, counterIn: nat, out: array<byte>) returns (rc: Rc, counter: nat)
    requires p.Kdfa? && p.bits % 8 == 0 && p.bits < U32 && counterIn < U32
    requires DigestSize(p.alg).Some? && Hlen(p.alg) <= out.Length
    modifies out
    ensures rc == StartRc(c, p.alg)
    ensures rc == Success ==>
              && counter == CounterAt(counterIn, 1)
              && out[..Hlen(p.alg)] == KdfBlock(c, p, CounterAt(counterIn, 1))
  {
    var h := Hlen(p.alg);
    OneBlock(c, p, counterIn);
    hide Blocks, KdfStream, DigestSize, CounterAt, Lawful, KdfBlock, StartRc;
    rc, counter := KDFa(c, p, counterIn, out, true);
    if rc == Success {
      assert out[..h] == KdfStream(c, p, counterIn, 1);
    }
  }

  lemma OneBlock(c: Crypto, p: Kdf, start: nat)
    requires DigestSize(p.alg).Some?
    ensures KdfaBlocks(p, true) == 1 && Span(1, Hlen(p.alg)) == Hlen(p.alg)
    ensures KdfStream(c, p, start, 1) == KdfBlock(c, p, CounterAt(start, 1))
  {
    var h := Hlen(p.alg);
    assert Blocks(h, h) == 1 + Blocks(0, h);
    SpanNext(0, h);
    assert KdfStream(c, p, start, 0) == [];
    hide KdfBlock, DigestSize;
    assert [] + KdfBlock(c, p, CounterAt(start, 1)) == KdfBlock(c, p, CounterAt(start, 1));
  }

  /** Where the loop stands after `n` blocks with `rest` bytes to go. */
  ghost predicate XorProgress(c: Crypto, p: Kdf, size: nat, n: nat, rest: nat, counter: nat, off: nat, now: seq<byte>,
                              was: seq<byte>)
    requires DigestSize(p.alg).Some? && off + size <= |was|
  {
    var h := Hlen(p.alg);
    && rest == (if Span(n, h) < size then size - Span(n, h) else 0)
    && counter == CounterAt(0, n) < U32
    && (rest == size ==> now == was)
    && (rest != size ==> StartRc(c, p.alg) == Success)
    && Xored(now, was, off, size - rest, XorStream(c, p, size))
  }

  lemma XorStart(c: Crypto, p: Kdf, size: nat, off: nat, was: seq<byte>)
    requires DigestSize(p.alg).Some? && off + size <= |was|
    ensures XorProgress(c, p, size, 0, size, 0, off, was, was)
  {
    CounterZero(0);
    SpanNext(0, Hlen(p.alg));
    hide Xor;
  }

  lemma XorEnd(c: Crypto, p: Kdf, size: nat, n: nat, counter: nat, off: nat, now: seq<byte>, was: seq<byte>)
    requires DigestSize(p.alg).Some? && off + size <= |was|
    requires XorProgress(c, p, size, n, 0, counter, off, now, was)
    ensures Xored(now, was, off, size, XorStream(c, p, size))
    ensures size > 0 ==> StartRc(c, p.alg) == Success
  {
  }

  /** The block of the next counter covers the next bytes of the data. */
  lemma XorRound(c: Crypto, p: Kdf, size: nat, n: nat, rest: nat, counter: nat, off: nat, block: seq<byte>,
                 mid: seq<byte>, now: seq<byte>, was: seq<byte>)
    requires DigestSize(p.alg).Some? && off + size <= |was| && rest > 0 && StartRc(c, p.alg) == Success
    requires XorProgress(c, p, size, n, rest, counter, off, mid, was)
    requires Hlen(p.alg) <= |block| && block[..Hlen(p.alg)] == KdfBlock(c, p, CounterAt(counter, 1))
    requires var k := if Hlen(p.alg) < rest then Hlen(p.alg) else rest; Xored(now, mid, off + size - rest, k, block)
    ensures var rest' := if rest < Hlen(p.alg) then 0 else rest - Hlen(p.alg);
            XorProgress(c, p, size, n + 1, rest', CounterAt(counter, 1), off, now, was)
  {
    hide Lawful, DigestSize, KdfBlock, Xor, CounterAt, StartRc, KdfStream, Xored;
    var h := Hlen(p.alg);
    var k := if h < rest then h else rest;
    SpanNext(n, h);
    CounterAdd(0, n, 1);
    CounterSmall(counter);
    BlocksIsCeil(size, h);
    if Blocks(size, h) <= n { SpanMono(Blocks(size, h), n, h); }
    forall j | 0 <= j < k ensures block[j] == XorStream(c, p, size)[size - rest + j] {
      KdfStreamAt(c, p, 0, Blocks(size, h), n, j);
      assert block[j] == block[..h][j];
    }
    XoredMore(now, mid, was, off, size - rest, k, XorStream(c, p, size), block);
  }

  lemma CounterSmall(counter: nat)
    ensures CounterAt(counter, 1) < U32
  {
  }

  /** A byte of the obfuscation stream: block after block of an HMAC over the counter, the label
      "XOR" with its zero, the nonces and the number of bits. */
  lemma XorStreamByte(c: Crypto, alg: nat, key: seq<byte>, u: seq<byte>, v: seq<byte>, size: nat, i: nat)
    requires DigestSize(alg).Some? && i < size
    ensures var h := DigestSize(alg).value;
            XorStream(c, XorKdf(alg, key, u, v, size), size)[i] ==
            c.hmac(alg, key, ToBE((i / h + 1) % 0x1_0000_0000, 4) + [88, 79, 82, 0] + u + v
                             + ToBE(size * 8 % 0x1_0000_0000, 4))[i % h]
  {
    hide KdfStream, KdfBlock, DigestSize, Span, Blocks, ToBE, Lawful;
    var p, h := XorKdf(alg, key, u, v, size), Hlen(alg);
    var k, j := i / h, i % h;
    assert i == k * h + j;
    BlocksIsCeil(size, h);
    var n := Blocks(size, h);
    SpanIs(n, h);
    SpanIs(k, h);
    MulMono(n, k, h);
    assert k < n by { if n <= k { NoLess(n, k, h); } }
    KdfStreamAt(c, p, 0, n, k, j);
    KdfBlockIs(c, p, CounterAt(0, k + 1));
    assert LABEL_XOR + [0] == [88, 79, 82, 0];
  }

  lemma XorWritten(c: Crypto, alg: nat, key: seq<byte>, u: seq<byte>, v: seq<byte>, off: nat, size: nat,
                   now: seq<byte>, was: seq<byte>)
    requires DigestSize(alg).Some? && off + size <= |was|
    requires Xored(now, was, off, size, XorStream(c, XorKdf(alg, key, u, v, size), size))
    ensures |now| == |was|
    ensures forall j :: 0 <= j < |was| && !(off <= j < off + size) ==> now[j] == was[j]
    ensures var h := DigestSize(alg).value;
            forall j :: off <= j < off + size ==>
              now[j] == Xor(was[j], c.hmac(alg, key, ToBE(((j - off) / h + 1) % 0x1_0000_0000, 4)
                                                     + [88, 79, 82, 0] + u + v
                                                     + ToBE(size * 8 % 0x1_0000_0000, 4))[(j - off) % h])
  {
    hide Xor, XorStream, XorKdf, DigestSize, Lawful, ToBE;
    var h := Hlen(alg);
    HmacLength(c, alg);
    forall j | off <= j < off + size
      ensures now[j] == Xor(was[j], c.hmac(alg, key, ToBE(((j - off) / h + 1) % 0x1_0000_0000, 4)
                                                     + [88, 79, 82, 0] + u + v
                                                     + ToBE(size * 8 % 0x1_0000_0000, 4))[(j - off) % h])
    {
      XorStreamByte(c, alg, key, u, v, size, j - off);
    }
  }

  lemma HmacLength(c: Crypto, alg: nat)
    requires DigestSize(alg).Some?
    ensures forall k, m :: |c.hmac(alg, k, m)| == Hlen(alg)
  {
  }

  lemma NoLess(n: nat, k: nat, h: nat)
    requires n <= k
    ensures n * h <= k * h
  {
    if n < k { MulMono(n, k, h); }
  }

  /** iesys_xor_parameter_obfuscation, on the `size` bytes of a buffer behind `off`. */
  method XorObfuscation(c: Crypto, alg: nat, key: seq<byte>, u: seq<byte>, v: seq<byte>, data: array<byte>, off: nat,
                        size: nat)
    returns (rc: Rc)
    requires off + size <= data.Length
    modifies data
    ensures rc == if DigestSize(alg) == None then EsysBadValue else if size > 0 then StartRc(c, alg) else Success
    ensures rc != Success ==> data[..] == old(data[..])
    ensures rc == Success ==>
              Xored(data[..], old(data[..]), off, size, XorStream(c, XorKdf(alg, key, u, v, size), size))
    ensures rc == Success ==>
              var h, now, was := DigestSize(alg).value, data[..], old(data[..]);
              && (forall j :: 0 <= j < |was| && !(off <= j < off + size) ==> now[j] == was[j])
              && (forall j :: off <= j < off + size ==>
                    now[j] == Xor(was[j], c.hmac(alg, key, ToBE(((j - off) / h + 1) % 0x1_0000_0000, 4)
                                                           + [88, 79, 82, 0] + u + v
                                                           + ToBE(size * 8 % 0x1_0000_0000, 4))[(j - off) % h]))
  {
    hide *;
    if DigestSize(alg) == None {
      return EsysBadValue;
    }
    var p, hlen := XorKdf(alg, key, u, v, size), Hlen(alg);
    XorBitsWhole(alg, key, u, v, size);
    var kdfaResult := new byte[1024];
    HlenSmall(alg);
    var rest: nat, counter: nat := size, 0;
    ghost var was, n := data[..], 0;
    XorStart(c, p, size, off, was);
    XorCounter(c, p, size, n, rest, counter, off, data[..], was);
    while rest > 0
      invariant rest <= size && XorProgress(c, p, size, n, rest, counter, off, data[..], was)
      decreases rest
    {
      XorCounter(c, p, size, n, rest, counter, off, data[..], was);
      ghost var mid := data[..];
      var next;
      rc, next := NextDigest(c, p, counter, kdfaResult);
      if rc != Success {
        return rc;
      }
      ghost var block := kdfaResult[..];
      assert block[..hlen] == kdfaResult[..hlen];
      XorBlock(data, off + size - rest, if hlen < rest then hlen else rest, kdfaResult);
      XorRound(c, p, size, n, rest, counter, off, block, mid, data[..], was);
      rest := if rest < hlen then 0 else rest - hlen;
      counter, n := next, n + 1;
    }
    XorEnd(c, p, size, n, counter, off, data[..], was);
    XorWritten(c, alg, key, u, v, off, size, data[..], was);
    return Success;
  }

  lemma HlenSmall(alg: nat)
    ensures Hlen(alg) <= 64
  {
  }

  lemma XorCounter(c: Crypto, p: Kdf, size: nat, n: nat, rest: nat, counter: nat, off: nat, now: seq<byte>,
                   was: seq<byte>)
    requires DigestSize(p.alg).Some? && off + size <= |was|
    requires XorProgress(c, p, size, n, rest, counter, off, now, was)
    ensures counter < U32 && (StartRc(c, p.alg) != Success ==> rest == size && now == was)
  {
  }

  // ---------------------------------------------------------------- keys for parameter encryption

  const AES_BLOCK: nat := 16
  const MAX_SYM_KEY: nat := 32

  /** symKey: key and block size of the largest cipher, rounded up to whole digests. */
  function SymKeyLen(hlen: nat): nat
    requires hlen > 0
  {
    var len := MAX_SYM_KEY + AES_BLOCK;
    if len % hlen > 0 then len + hlen - len % hlen else len
  }

  function AesOff(keyBits: nat): nat { (keyBits + 7) / 8 }

  /** Key and initialization vector tile what is asked of KDFa, for any key size. */
  lemma KeyAndIvTile(keyBits: nat)
    ensures (keyBits + AES_BLOCK * 8 + 7) / 8 == AesOff(keyBits) + AES_BLOCK
  {
  }

  /** The rounded-up array has room for the whole blocks exactly when it has room for key and
      vector themselves. */
  lemma SymKeyRoomIff(alg: nat, keyBits: nat)
    requires DigestSize(alg).Some?
    ensures var h, n := Hlen(alg), AesOff(keyBits) + AES_BLOCK;
            Span(Blocks(n, h), h) <= SymKeyLen(h) <==> n <= SymKeyLen(h)
  {
    var h, n := Hlen(alg), AesOff(keyBits) + AES_BLOCK;
    BlocksIsCeil(n, h);
    SpanIs(Blocks(n, h), h);
    if n <= SymKeyLen(h) {
      WholeSymKey(alg);
      BlocksMono(n, SymKeyLen(h), h);
      SpanMono(Blocks(n, h), Blocks(SymKeyLen(h), h), h);
    }
  }

  lemma WholeSymKey(alg: nat)
    requires DigestSize(alg).Some?
    ensures Span(Blocks(SymKeyLen(Hlen(alg)), Hlen(alg)), Hlen(alg)) == SymKeyLen(Hlen(alg)) >= 48
  {
    var h := Hlen(alg);
    assert Blocks(60, 20) == 3 && Span(3, 20) == 60;
    assert Blocks(64, 32) == 2 && Span(2, 32) == 64;
    assert Blocks(48, 48) == 1 && Span(1, 48) == 48;
    assert Blocks(64, 64) == 1 && Span(1, 64) == 64;
  }

  lemma {:induction false} BlocksMono(a: int, b: int, h: nat)
    requires h > 0 && a <= b
    ensures Blocks(a, h) <= Blocks(b, h)
    decreases if b <= 0 then 0 else b
  {
    if b > 0 { BlocksMono(a - h, b - h, h); }
  }

  /** For keys of up to 256 bits there is room under every hash algorithm. */
  lemma SymKeyRoom(alg: nat, keyBits: nat)
    requires DigestSize(alg).Some? && keyBits <= 256
    ensures Span(Blocks((keyBits + AES_BLOCK * 8 + 7) / 8, Hlen(alg)), Hlen(alg)) <= SymKeyLen(Hlen(alg))
  {
    SymKeyRoomIff(alg, keyBits);
    WholeSymKey(alg);
  }
}
