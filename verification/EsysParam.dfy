/** Encryption of the first parameter of a command or response, AES in CFB mode or XOR. */
module EsysParam {
  import opened TpmBase
  import opened MuMarshal
  import opened TpmFormats
  import opened EsysMu
  import opened EsysResource
  import opened EsysTable
  import opened EsysCrypto

  /** What the fields of a session must be for the arrays they are used with. */
  predicate KeyReady(s: Session) {
    && s.sizeSessionValue <= |s.sessionValue|
    && s.symmetric.keyBits < Pow256(2) && s.attributes < 256
  }

  function EncryptKey(s: Session): seq<byte>
    requires KeyReady(s)
  {
    s.sessionValue[..s.sizeSessionValue]
  }

  predicate AesKeySize(keyBits: nat) { keyBits == 128 || keyBits == 192 || keyBits == 256 }

  /** The local array of the derivation has room for key and vector. */
  predicate KeyFits(s: Session) {
    AesOff(s.symmetric.keyBits) + AES_BLOCK <= SymKeyLen(Hlen(s.authHash))
  }

  /** The derivation of AES key and initialization vector. */
  function CfbKdf(s: Session, u: seq<byte>, v: seq<byte>): Kdf
    requires KeyReady(s)
  {
    Kdfa(s.authHash, Some(LABEL_CFB), s.symmetric.keyBits + AES_BLOCK * 8, EncryptKey(s), u, v)
  }

  lemma CfbRoom(s: Session, u: seq<byte>, v: seq<byte>)
    requires KeyReady(s) && s.symmetric.algorithm == ALG_AES
    ensures AesOff(s.symmetric.keyBits) + AES_BLOCK <= Span(KdfaBlocks(CfbKdf(s, u, v), false), Hlen(s.authHash))
  {
    hide Blocks, Span, DigestSize;
    var p := CfbKdf(s, u, v);
    KeyAndIvTile(s.symmetric.keyBits);
    assert KdfaBytes(p, false) == (s.symmetric.keyBits + AES_BLOCK * 8 + 7) / 8;
    BlocksIsCeil(KdfaBytes(p, false), Hlen(s.authHash));
  }

  function CfbStream(c: Crypto, s: Session, u: seq<byte>, v: seq<byte>): (r: seq<byte>)
    requires KeyReady(s) && DigestSize(s.authHash).Some? && s.symmetric.algorithm == ALG_AES
    ensures AesOff(s.symmetric.keyBits) + AES_BLOCK <= |r|
  {
    var p := CfbKdf(s, u, v);
    CfbRoom(s, u, v);
    KdfStream(c, p, 0, KdfaBlocks(p, false))
  }

  /** How transforming `size` bytes ends. The key is derived before the cipher is asked whether
      it knows its size, into an array that not every size fits. */
  function CipherRc(c: Crypto, s: Session, size: nat): Rc {
    if s.symmetric.algorithm == ALG_AES then
      if s.symmetric.mode != ALG_CFB then EsysBadValue
      else if StartRc(c, s.authHash) != Success then StartRc(c, s.authHash)
      else if !KeyFits(s) then OutOfBounds
      else if !AesKeySize(s.symmetric.keyBits) then EsysBadValue
      else Success
    else if s.symmetric.algorithm == ALG_XOR then (if size > 0 then StartRc(c, s.authHash) else Success)
    else EsysBadValue
  }

  /** The transformed bytes: the first bytes of the derived stream are the AES key, the 16
      behind them the vector; or all of it is the XOR key stream. */
  function Ciphered(c: Crypto, s: Session, u: seq<byte>, v: seq<byte>, data: seq<byte>, encrypt: bool): (r: seq<byte>)
    requires KeyReady(s) && CipherRc(c, s, |data|) == Success && DigestSize(s.authHash).Some?
    ensures |r| == |data|
  {
    if s.symmetric.algorithm == ALG_AES then
      var n, stream := AesOff(s.symmetric.keyBits), CfbStream(c, s, u, v);
      Cfb(c, encrypt, stream[..n], stream[n..n + AES_BLOCK], data)
    else XorWith(data, XorStream(c, XorKdf(s.authHash, EncryptKey(s), u, v, |data|), |data|))
  }

  lemma FirstBlocks(c: Crypto, p: Kdf)
    requires DigestSize(p.alg).Some?
    ensures KdfStream(c, p, 0, 3) == KdfBlock(c, p, 1) + KdfBlock(c, p, 2) + KdfBlock(c, p, 3)
  {
    hide KdfBlock, DigestSize, Lawful;
    assert CounterAt(0, 1) == 1 && CounterAt(0, 2) == 2 && CounterAt(0, 3) == 3;
    assert KdfStream(c, p, 0, 1) == [] + KdfBlock(c, p, 1) == KdfBlock(c, p, 1);
    assert KdfStream(c, p, 0, 2) == KdfBlock(c, p, 1) + KdfBlock(c, p, 2);
  }

  /** Three blocks are enough for key and vector, under every hash algorithm. */
  lemma CfbFront(c: Crypto, s: Session, u: seq<byte>, v: seq<byte>)
    requires KeyReady(s) && DigestSize(s.authHash).Some? && s.symmetric.algorithm == ALG_AES
    requires AesKeySize(s.symmetric.keyBits)
    ensures var p, n := CfbKdf(s, u, v), s.symmetric.keyBits / 8;
            var whole := KdfBlock(c, p, 1) + KdfBlock(c, p, 2) + KdfBlock(c, p, 3);
            && n + 16 <= |whole| && AesOff(s.symmetric.keyBits) == n && n + 16 <= |CfbStream(c, s, u, v)|
            && CfbStream(c, s, u, v)[..n] == whole[..n]
            && CfbStream(c, s, u, v)[n..n + 16] == whole[n..n + 16]
  {
    hide *;
    var p, h, n := CfbKdf(s, u, v), Hlen(s.authHash), s.symmetric.keyBits / 8;
    AesNumbers(s.symmetric.keyBits);
    HlenLarge(s.authHash);
    CfbBytes(s, u, v);
    CfbAlg(s, u, v);
    FewBlocks(n + 16, h);
    var count := Blocks(n + 16, h);
    FirstBlocks(c, p);
    KdfStreamSplit(c, p, 0, count, 3 - count);
    CfbStreamIs(c, s, u, v);
    var stream, rest := CfbStream(c, s, u, v), KdfStream(c, p, CounterAt(0, count), 3 - count);
    assert count + (3 - count) == 3;
    FrontOf(stream, rest, n);
  }

  lemma FrontOf(a: seq<byte>, b: seq<byte>, n: nat)
    requires n + 16 <= |a|
    ensures (a + b)[..n] == a[..n] && (a + b)[n..n + 16] == a[n..n + 16]
  {
  }

  lemma AesNumbers(keyBits: nat)
    requires AesKeySize(keyBits)
    ensures AesOff(keyBits) == keyBits / 8 <= 32 && (keyBits + AES_BLOCK * 8 + 7) / 8 == keyBits / 8 + 16
    ensures AES_BLOCK == 16
  {
  }

  lemma HlenLarge(alg: nat)
    requires DigestSize(alg).Some?
    ensures Hlen(alg) >= 20
  {
  }

  lemma CfbAlg(s: Session, u: seq<byte>, v: seq<byte>)
    requires KeyReady(s)
    ensures CfbKdf(s, u, v).alg == s.authHash
  {
  }

  lemma FewBlocks(n: nat, h: nat)
    requires n <= 48 && h >= 20
    ensures Blocks(n, h) <= 3
  {
    assert Blocks(n - h - h - h, h) == 0;
    assert Blocks(n - h - h, h) <= 1;
    assert Blocks(n - h, h) <= 2;
  }

  /** AES, written out: the blocks of the HMAC under the counted session value over a counter,
      the label "CFB" with its zero, the two nonces and the number of bits; the first of their
      bytes are the key, the 16 behind it the initialization vector. */
  lemma CipheredAes(c: Crypto, s: Session, u: seq<byte>, v: seq<byte>, data: seq<byte>, encrypt: bool)
    requires KeyReady(s) && CipherRc(c, s, |data|) == Success && DigestSize(s.authHash).Some?
    requires s.symmetric.algorithm == 0x0006
    ensures var key, n := s.sessionValue[..s.sizeSessionValue], s.symmetric.keyBits / 8;
            var behind := [67, 70, 66, 0] + u + v + ToBE(s.symmetric.keyBits + 128, 4);
            var whole := c.hmac(s.authHash, key, ToBE(1, 4) + behind) + c.hmac(s.authHash, key, ToBE(2, 4) + behind)
                         + c.hmac(s.authHash, key, ToBE(3, 4) + behind);
            && n in {16, 24, 32} && n + 16 <= |whole|
            && Ciphered(c, s, u, v, data, encrypt) ==
               if encrypt then c.encrypt(whole[..n], whole[n..n + 16], data)
               else c.decrypt(whole[..n], whole[n..n + 16], data)
  {
    hide KdfBlock, DigestSize, Lawful, CfbStream, KeyReady, ToBE, StartRc, KeyFits, Pow256;
    CfbFront(c, s, u, v);
    CfbBlock(c, s, u, v, 1);
    CfbBlock(c, s, u, v, 2);
    CfbBlock(c, s, u, v, 3);
  }

  lemma CfbBlock(c: Crypto, s: Session, u: seq<byte>, v: seq<byte>, k: nat)
    requires KeyReady(s)
    ensures KdfBlock(c, CfbKdf(s, u, v), k) ==
            c.hmac(s.authHash, s.sessionValue[..s.sizeSessionValue],
                   ToBE(k, 4) + ([67, 70, 66, 0] + u + v + ToBE(s.symmetric.keyBits + 128, 4)))
  {
    KdfBlockIs(c, CfbKdf(s, u, v), k);
    assert LABEL_CFB + [0] == [67, 70, 66, 0];
    var bits := ToBE(s.symmetric.keyBits + 128, 4);
    hide KdfBlock, Lawful, ToBE, KeyReady;
    assert ToBE(k, 4) + [67, 70, 66, 0] + u + v + bits == ToBE(k, 4) + ([67, 70, 66, 0] + u + v + bits);
  }

  /** XOR, written out: every byte is combined with its own byte of such blocks under the label
      "XOR". */
  lemma CipheredXor(c: Crypto, s: Session, u: seq<byte>, v: seq<byte>, data: seq<byte>, encrypt: bool, j: nat)
    requires KeyReady(s) && CipherRc(c, s, |data|) == Success && DigestSize(s.authHash).Some?
    requires s.symmetric.algorithm == 0x000A && j < |data|
    ensures var h := DigestSize(s.authHash).value;
            Ciphered(c, s, u, v, data, encrypt)[j] ==
            Xor(data[j], c.hmac(s.authHash, s.sessionValue[..s.sizeSessionValue],
                                ToBE((j / h + 1) % 0x1_0000_0000, 4) + [88, 79, 82, 0] + u + v
                                + ToBE(|data| * 8 % 0x1_0000_0000, 4))[j % h])
  {
    XorStreamByte(c, s.authHash, EncryptKey(s), u, v, |data|, j);
    hide Xor, XorStream, XorKdf, DigestSize, Lawful, ToBE, StartRc, Pow256;
  }

  lemma CipheredByXor(c: Crypto, s: Session, u: seq<byte>, v: seq<byte>, data: seq<byte>, encrypt: bool)
    requires KeyReady(s) && CipherRc(c, s, |data|) == Success && DigestSize(s.authHash).Some?
    requires s.symmetric.algorithm == ALG_XOR
    ensures Ciphered(c, s, u, v, data, encrypt)
            == XorWith(data, XorStream(c, XorKdf(s.authHash, EncryptKey(s), u, v, |data|), |data|))
  {
  }

  /** How it ends, written out: only AES in CFB mode and XOR are known; the array of the key has
      48 bytes rounded up to whole digests; AES knows three key sizes. */
  lemma CipherRcIs(c: Crypto, s: Session, size: nat)
    ensures var started := s.authHash in c.algs && s.authHash in {0x0004, 0x000B, 0x000C, 0x000D, 0x0012};
            var room := match s.authHash case 0x0004 => 60 case 0x000C => 48 case _ => 64;
            CipherRc(c, s, size) ==
            if s.symmetric.algorithm == 0x0006 then
              if s.symmetric.mode != 0x0043 then EsysBadValue
              else if !started then EsysNotImplemented
              else if (s.symmetric.keyBits + 7) / 8 + 16 > room then OutOfBounds
              else if s.symmetric.keyBits !in {128, 192, 256} then EsysBadValue
              else Success
            else if s.symmetric.algorithm == 0x000A then
              if size > 0 && !started then EsysNotImplemented else Success
            else EsysBadValue
  {
    hide Lawful;
  }

  /** What one side encrypts the other side decrypts. */
  lemma CipherInverse(c: Crypto, s: Session, u: seq<byte>, v: seq<byte>, data: seq<byte>)
    requires KeyReady(s) && CipherRc(c, s, |data|) == Success && DigestSize(s.authHash).Some?
    ensures Ciphered(c, s, u, v, Ciphered(c, s, u, v, data, true), false) == data
  {
    hide Cfb, Lawful, CfbStream, XorStream, XorWith, KeyReady, DigestSize;
    if s.symmetric.algorithm == ALG_AES {
      var n, stream := AesOff(s.symmetric.keyBits), CfbStream(c, s, u, v);
      CfbInverse(c, stream[..n], stream[n..n + AES_BLOCK], data);
    } else {
      var stream := XorStream(c, XorKdf(s.authHash, EncryptKey(s), u, v, |data|), |data|);
      XorWithTwice(data, stream);
    }
  }

  lemma XorWithTwice(data: seq<byte>, stream: seq<byte>)
    requires |data| <= |stream|
    ensures XorWith(XorWith(data, stream), stream) == data
  {
    hide Xor;
    var x := XorWith(data, stream);
    forall i | 0 <= i < |data| ensures XorWith(x, stream)[i] == data[i] { XorTwice(data[i], stream[i]); }
  }

  /** The region of a buffer that was combined in place is what the stream makes of it. */
  lemma XoredRegion(now: seq<byte>, was: seq<byte>, off: nat, n: nat, stream: seq<byte>)
    requires off + n <= |was| && n <= |stream| && Xored(now, was, off, n, stream)
    ensures now == was[..off] + XorWith(was[off..off + n], stream) + was[off + n..]
  {
    hide Xor, XorWith;
    var piece := was[off..off + n];
    var mid := XorWith(piece, stream);
    var out := was[..off] + mid + was[off + n..];
    forall j | 0 <= j < |was| ensures now[j] == out[j] {
      if j < off {
      } else if j < off + n {
        assert out[j] == mid[j - off] && piece[j - off] == was[j];
      } else {
        assert out[j] == was[off + n..][j - off - n];
      }
    }
  }

  /** When the derivation runs over its array: exactly when the blocks KDFa writes are longer
      than the array, for a session whose hash algorithm starts. */
  lemma KeyOverrunsIff(c: Crypto, s: Session, u: seq<byte>, v: seq<byte>, size: nat)
    requires KeyReady(s) && s.symmetric.algorithm == ALG_AES
    ensures CipherRc(c, s, size) == OutOfBounds <==>
              && s.symmetric.mode == ALG_CFB && StartRc(c, s.authHash) == Success
              && Span(KdfaBlocks(CfbKdf(s, u, v), false), Hlen(s.authHash)) > SymKeyLen(Hlen(s.authHash))
  {
    if DigestSize(s.authHash).Some? {
      CfbBytes(s, u, v);
      KeyAndIvTile(s.symmetric.keyBits);
      SymKeyRoomIff(s.authHash, s.symmetric.keyBits);
    }
    hide DigestSize, Blocks, Span, SymKeyLen, Lawful, CfbKdf, AesKeySize;
  }

  /** A key size of 300 bits fits the array and is refused by the cipher; for one of 512 bits
      and SHA-256 three blocks are written into the 64 bytes that are there. */
  lemma OddKeySizes(c: Crypto, s: Session, size: nat)
    requires KeyReady(s) && s.symmetric.algorithm == ALG_AES && s.symmetric.mode == ALG_CFB
    requires s.authHash == ALG_SHA256 && ALG_SHA256 in c.algs
    ensures s.symmetric.keyBits == 300 ==> CipherRc(c, s, size) == EsysBadValue
    ensures s.symmetric.keyBits == 512 ==>
              && CipherRc(c, s, size) == OutOfBounds
              && KdfaBlocks(CfbKdf(s, [], []), false) == 3 && SymKeyLen(Hlen(s.authHash)) == 64
  {
    if s.symmetric.keyBits == 512 {
      CfbBytes(s, [], []);
      BlocksIsCeil(80, 32);
    }
    hide Lawful, KdfaBlocks;
  }

  /** Key and vector are the pieces of symKey the cipher is pointed at. */
  method DeriveAesKey(c: Crypto, s: Session, u: seq<byte>, v: seq<byte>) returns (rc: Rc, key: seq<byte>, iv: seq<byte>)
    requires KeyReady(s) && DigestSize(s.authHash).Some? && s.symmetric.algorithm == ALG_AES
    ensures rc == if StartRc(c, s.authHash) == Success && !KeyFits(s) then OutOfBounds else StartRc(c, s.authHash)
    ensures rc == Success && AesKeySize(s.symmetric.keyBits) ==>
              var n, stream := AesOff(s.symmetric.keyBits), CfbStream(c, s, u, v);
              key == stream[..n] && iv == stream[n..n + AES_BLOCK]
  {
    hide *;
    var p, keyBits := CfbKdf(s, u, v), s.symmetric.keyBits;
    KeyFitsIs(s);
    var symKey := new byte[SymKeyLen(Hlen(s.authHash))];
    if AesOff(keyBits) + AES_BLOCK > symKey.Length {
      // The first block starts the algorithm; those behind it leave the array.
      return if StartRc(c, s.authHash) == Success then OutOfBounds else StartRc(c, s.authHash), [], [];
    }
    CfbFacts(c, s, u, v);
    var counter;
    rc, counter := KDFa(c, p, 0, symKey, false);
    var aesOff, whole := AesOff(keyBits), symKey[..];
    if rc == Success && AesKeySize(keyBits) {
      WholeBytes(s, p.bits);
      FrontSlices(whole, CfbStream(c, s, u, v), aesOff);
    }
    key, iv := whole[..aesOff], whole[aesOff..aesOff + AES_BLOCK];
  }

  lemma KeyFitsIs(s: Session)
    ensures KeyFits(s) <==> AesOff(s.symmetric.keyBits) + AES_BLOCK <= SymKeyLen(Hlen(s.authHash))
  {
  }

  lemma FrontSlices(whole: seq<byte>, stream: seq<byte>, n: nat)
    requires n + AES_BLOCK <= |stream| <= |whole| && whole[..|stream|] == stream
    ensures whole[..n] == stream[..n] && whole[n..n + AES_BLOCK] == stream[n..n + AES_BLOCK]
  {
    forall i | 0 <= i < |stream| ensures whole[i] == stream[i] { assert whole[..|stream|][i] == whole[i]; }
  }

  /** A derivation for a key size AES knows asks for whole bytes. */
  lemma WholeBytes(s: Session, bits: nat)
    requires AesKeySize(s.symmetric.keyBits) && bits == s.symmetric.keyBits + AES_BLOCK * 8
    ensures forall m :: MaskFirst(bits, m) == m
  {
  }

  lemma CfbFacts(c: Crypto, s: Session, u: seq<byte>, v: seq<byte>)
    requires KeyReady(s) && KeyFits(s) && DigestSize(s.authHash).Some? && s.symmetric.algorithm == ALG_AES
    ensures var p, h := CfbKdf(s, u, v), Hlen(s.authHash);
            && p.Kdfa? && p.alg == s.authHash && 0 < p.bits < U32 && p.bits == s.symmetric.keyBits + AES_BLOCK * 8
            && KdfaRc(c, p, false) == StartRc(c, s.authHash)
            && Span(KdfaBlocks(p, false), h) <= SymKeyLen(h)
            && AesOff(s.symmetric.keyBits) + AES_BLOCK <= SymKeyLen(h) && SymKeyLen(h) > 0
            && CfbStream(c, s, u, v) == KdfStream(c, p, 0, KdfaBlocks(p, false))
  {
    SymKeyRoomIff(s.authHash, s.symmetric.keyBits);
    CfbBytes(s, u, v);
    CfbStreamIs(c, s, u, v);
    KeyAndIvTile(s.symmetric.keyBits);
    KeyBitsSmall(s);
    hide DigestSize, Blocks, Span, KdfStream, SymKeyLen, Lawful, StartRc, CfbStream, Pow256;
  }

  lemma KeyBitsSmall(s: Session)
    requires KeyReady(s)
    ensures s.symmetric.keyBits < 65536
  {
    Pow256Facts();
  }

  lemma CfbStreamIs(c: Crypto, s: Session, u: seq<byte>, v: seq<byte>)
    requires KeyReady(s) && DigestSize(s.authHash).Some? && s.symmetric.algorithm == ALG_AES
    ensures var p := CfbKdf(s, u, v); CfbStream(c, s, u, v) == KdfStream(c, p, 0, KdfaBlocks(p, false))
  {
    hide Lawful, DigestSize, KdfStream, KdfaBlocks, CfbKdf;
  }

  method AesRegion(c: Crypto, s: Session, u: seq<byte>, v: seq<byte>, buffer: array<byte>, off: nat, size: nat,
                   encrypt: bool)
    returns (rc: Rc)
    requires off + size <= buffer.Length && KeyReady(s) && DigestSize(s.authHash).Some?
    requires s.symmetric.algorithm == ALG_AES
    modifies buffer
    ensures rc == CipherRc(c, s, size)
    ensures rc != Success && rc != OutOfBounds ==> buffer[..] == old(buffer[..])
    ensures rc == Success ==>
              buffer[..] == old(buffer[..off]) + Ciphered(c, s, u, v, old(buffer[off..off + size]), encrypt)
                            + old(buffer[off + size..])
  {
    hide KeyReady, DigestSize, StartRc, CfbStream, Splice, Cfb, Lawful, KeyFits;
    if s.symmetric.mode != ALG_CFB {
      return EsysBadValue;
    }
    var key, iv;
    rc, key, iv := DeriveAesKey(c, s, u, v);
    if rc != Success {
      return rc;
    }
    if !AesKeySize(s.symmetric.keyBits) {
      return EsysBadValue;
    }
    ghost var was := buffer[..];
    var data := buffer[off..off + size];
    var out := Cfb(c, encrypt, key, iv, data);
    CopyIn(buffer, off, out);
    SpliceRegion(was, off, out);
    return Success;
  }

  lemma SpliceRegion(s: seq<byte>, off: nat, bs: seq<byte>)
    requires off + |bs| <= |s|
    ensures Splice(s, off, bs) == s[..off] + bs + s[off + |bs|..]
  {
  }

  lemma CfbBytes(s: Session, u: seq<byte>, v: seq<byte>)
    requires KeyReady(s) && DigestSize(s.authHash).Some?
    ensures var p := CfbKdf(s, u, v);
            && KdfaBytes(p, false) == (s.symmetric.keyBits + AES_BLOCK * 8 + 7) / 8 > 0
            && KdfaBlocks(p, false) == Blocks(KdfaBytes(p, false), Hlen(s.authHash))
  {
    KeyBitsSmall(s);
    hide DigestSize, Blocks, KeyReady;
  }

  /** The transformation of `size` bytes of a buffer in place. */
  method CipherRegion(c: Crypto, s: Session, u: seq<byte>, v: seq<byte>, buffer: array<byte>, off: nat, size: nat,
                      encrypt: bool)
    returns (rc: Rc)
    requires off + size <= buffer.Length && KeyReady(s) && DigestSize(s.authHash).Some?
    modifies buffer
    ensures rc == CipherRc(c, s, size)
    ensures rc != Success && rc != OutOfBounds ==> buffer[..] == old(buffer[..])
    ensures rc == Success ==>
              buffer[..] == old(buffer[..off]) + Ciphered(c, s, u, v, old(buffer[off..off + size]), encrypt)
                            + old(buffer[off + size..])
    ensures rc == Success && s.symmetric.algorithm == 0x0006 ==>
              var key, n := s.sessionValue[..s.sizeSessionValue], s.symmetric.keyBits / 8;
              var behind := [67, 70, 66, 0] + u + v + ToBE(s.symmetric.keyBits + 128, 4);
              var whole := c.hmac(s.authHash, key, ToBE(1, 4) + behind) + c.hmac(s.authHash, key, ToBE(2, 4) + behind)
                           + c.hmac(s.authHash, key, ToBE(3, 4) + behind);
              && n in {16, 24, 32} && n + 16 <= |whole|
              && buffer[..] == old(buffer[..off])
                               + (if encrypt then c.encrypt(whole[..n], whole[n..n + 16], old(buffer[off..off + size]))
                                  else c.decrypt(whole[..n], whole[n..n + 16], old(buffer[off..off + size])))
                               + old(buffer[off + size..])
  {
    hide DigestSize, Lawful, CfbStream, KeyReady, ToBE, StartRc, KeyFits, Pow256, Ciphered, Xor, XorStream, Xored;
    if s.symmetric.algorithm == ALG_AES {
      rc := AesRegion(c, s, u, v, buffer, off, size, encrypt);
      if rc == Success {
        CipheredAes(c, s, u, v, old(buffer[off..off + size]), encrypt);
      }
    } else if s.symmetric.algorithm == ALG_XOR {
      rc := XorObfuscation(c, s.authHash, EncryptKey(s), u, v, buffer, off, size);
      if rc == Success {
        XoredRegion(buffer[..], old(buffer[..]), off, size,
                    XorStream(c, XorKdf(s.authHash, EncryptKey(s), u, v, size), size));
        CipheredByXor(c, s, u, v, old(buffer[off..off + size]), encrypt);
      }
    } else {
      return EsysBadValue;
    }
  }
}
