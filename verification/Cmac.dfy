/**
  AES-CMAC (backport-include/crypto/aes-cbc-macs.h) against RFC 4493. The block
  cipher is a function on blocks; nothing else about it matters here.
*/
module Cmac {
  import opened Wrappers

  type Bytes = seq<bv8>

  type Block = b: Bytes | |b| == 16 witness [0, 0, 0, 0, 0, 0, 0, 0, 0, 0, 0, 0, 0, 0, 0, 0]

  const ZeroBlock: Block := [0, 0, 0, 0, 0, 0, 0, 0, 0, 0, 0, 0, 0, 0, 0, 0]

  type Cipher = Block -> Block

  /** A prepared key: the cipher and the two subkeys. */
  datatype Key = Key(enc: Cipher, k1: Block, k2: Block)

  // ----- RFC 4493 -----

  function Xor(a: Block, b: Block): (r: Block)
    ensures forall i | 0 <= i < 16 :: r[i] == a[i] ^ b[i]
  {
    seq(16, i requires 0 <= i < 16 => a[i] ^ b[i])
  }

  /** Section 2.4: a one bit and then zeros, up to a whole block. */
  function Padding(m: Bytes): Block
    requires |m| < 16
  {
    m + [0x80] + seq(15 - |m|, _ => 0)
  }

  /** The number of blocks of a message; an empty one counts as one. */
  function Blocks(m: Bytes): (n: nat)
    ensures n >= 1 && 16 * (n - 1) <= |m| <= 16 * n
    ensures m != [] ==> 16 * (n - 1) < |m|
  {
    if m == [] then 1 else (|m| + 15) / 16
  }

  /** The chaining value after the first `k` blocks. */
  function Chain(enc: Cipher, m: Bytes, k: nat): Block
    requires 16 * k <= |m|
  {
    if k == 0 then ZeroBlock else enc(Xor(Chain(enc, m, k - 1), m[16 * (k - 1)..16 * k]))
  }

  /** What follows the last whole chaining step: 1 to 16 bytes, or none of an empty message. */
  function Tail(m: Bytes): (t: Bytes)
    ensures |t| <= 16 && (m != [] ==> |t| >= 1)
  {
    m[16 * (Blocks(m) - 1)..]
  }

  /** Section 2.4. */
  function CmacOf(key: Key, m: Bytes): Block {
    var last := if |Tail(m)| == 16 then Xor(Tail(m), key.k1) else Xor(Padding(Tail(m)), key.k2);
    key.enc(Xor(Chain(key.enc, m, Blocks(m) - 1), last))
  }

  // ----- subkeys, section 2.3 -----

  function Join(hi: bv64, lo: bv64): bv128 { ((hi as bv128) << 64) | (lo as bv128) }

  /** Shift left by one bit, and add the constant Rb if a one was shifted out. */
  function Doubled(l: bv128): bv128 { (l << 1) ^ (if (l >> 127) == 1 then 0x87 else 0) }

  /** be64_to_cpu. */
  function WordOf(b: Bytes): bv64
    requires |b| == 8
  {
    ((b[0] as bv64) << 56) | ((b[1] as bv64) << 48) | ((b[2] as bv64) << 40) | ((b[3] as bv64) << 32)
    | ((b[4] as bv64) << 24) | ((b[5] as bv64) << 16) | ((b[6] as bv64) << 8) | (b[7] as bv64)
  }

  /** cpu_to_be64. */
  function BytesOf(w: bv64): (r: Bytes)
    ensures |r| == 8
  {
    [(w >> 56) as bv8, ((w >> 48) & 0xff) as bv8, ((w >> 40) & 0xff) as bv8, ((w >> 32) & 0xff) as bv8,
     ((w >> 24) & 0xff) as bv8, ((w >> 16) & 0xff) as bv8, ((w >> 8) & 0xff) as bv8, (w & 0xff) as bv8]
  }

  lemma WordRoundTrip(w: bv64)
    ensures WordOf(BytesOf(w)) == w
  {
  }

  /** A block as the 128-bit number its bytes spell, most significant first. */
  function NumberOf(b: Block): bv128 { Join(WordOf(b[..8]), WordOf(b[8..])) }

  lemma NumberOfWords(hi: bv64, lo: bv64)
    ensures NumberOf(BytesOf(hi) + BytesOf(lo)) == Join(hi, lo)
  {
    WordRoundTrip(hi);
    WordRoundTrip(lo);
    var b := BytesOf(hi) + BytesOf(lo);
    assert b[..8] == BytesOf(hi) && b[8..] == BytesOf(lo);
  }

  lemma DoubledByWords(hi: bv64, lo: bv64)
    ensures var mask: bv64 := (if hi >> 63 == 1 then 0xffff_ffff_ffff_ffff else 0) & 0x87;
            Join((hi << 1) ^ (lo >> 63), (lo << 1) ^ mask) == Doubled(Join(hi, lo))
  {
  }

  /** The block that spells a 128-bit number. */
  function BlockOf(n: bv128): Block {
    BytesOf((n >> 64) as bv64) + BytesOf((n & 0xffff_ffff_ffff_ffff) as bv64)
  }

  lemma BlockOfWords(hi: bv64, lo: bv64)
    ensures BlockOf(Join(hi, lo)) == BytesOf(hi) + BytesOf(lo)
  {
    assert (Join(hi, lo) >> 64) as bv64 == hi;
    assert (Join(hi, lo) & 0xffff_ffff_ffff_ffff) as bv64 == lo;
  }

  /** Reading that block gives the number back. */
  lemma NumberOfBlock(n: bv128)
    ensures NumberOf(BlockOf(n)) == n
  {
    var hi, lo := (n >> 64) as bv64, (n & 0xffff_ffff_ffff_ffff) as bv64;
    assert Join(hi, lo) == n;
    NumberOfWords(hi, lo);
  }

  /** Section 2.3: the subkeys are the encrypted zero block doubled once and twice. */
  function KeyOf(enc: Cipher): Key {
    var l := NumberOf(enc(ZeroBlock));
    Key(enc, BlockOf(Doubled(l)), BlockOf(Doubled(Doubled(l))))
  }

  /** Read as numbers, the subkeys are the doubled ones. */
  lemma SubkeysAreDoubled(enc: Cipher)
    ensures var key, l := KeyOf(enc), NumberOf(enc(ZeroBlock));
            NumberOf(key.k1) == Doubled(l) && NumberOf(key.k2) == Doubled(NumberOf(key.k1))
  {
    hide NumberOf, BlockOf, Doubled;
    var l := NumberOf(enc(ZeroBlock));
    NumberOfBlock(Doubled(l));
    NumberOfBlock(Doubled(Doubled(l)));
  }

  /** The algorithm of section 2.4 with the subkeys of section 2.3: the MAC under a cipher. */
  function AesCmac(enc: Cipher, m: Bytes): Block {
    CmacOf(KeyOf(enc), m)
  }

  /** What aes_prepareenckey makes of a raw key: a cipher, or an error. */
  datatype Setup = Ready(enc: Cipher) | Failed(err: int)

  /** aes_cmac_preparekey. */
  method PrepareKey(setup: Setup) returns (err: int, key: Option<Key>)
    ensures setup.Failed? ==> err == setup.err && key.None?
    ensures setup.Ready? ==> err == 0 && key == Some(KeyOf(setup.enc))
  {
    if setup.Failed? {
      return setup.err, None;
    }
    key := Subkeys(setup.enc);
    err := 0;
  }

  /** Lines 62-64: one doubling. */
  method DoubleWords(hi: bv64, lo: bv64) returns (hi': bv64, lo': bv64)
    ensures Join(hi', lo') == Doubled(Join(hi, lo))
  {
    hide Join, Doubled;
    DoubledByWords(hi, lo);
    var mask := (if hi >> 63 == 1 then 0xffff_ffff_ffff_ffff else 0) & 0x87;
    hi', lo' := (hi << 1) ^ (lo >> 63), (lo << 1) ^ mask;
  }

  /** Lines 57-67: the two subkeys, doubled word by word. */
  method Subkeys(enc: Cipher) returns (key: Option<Key>)
    ensures key == Some(KeyOf(enc))
  {
    hide WordOf, BytesOf, Doubled, Join, BlockOf;
    ghost var l := NumberOf(enc(ZeroBlock));
    var final: seq<Block> := [ZeroBlock, ZeroBlock];
    final := final[0 := enc(ZeroBlock)];
    var hi, lo := WordOf(final[0][..8]), WordOf(final[0][8..]);
    for i := 0 to 2
      invariant |final| == 2
      invariant i == 0 ==> Join(hi, lo) == l
      invariant i == 1 ==> Join(hi, lo) == Doubled(l)
      invariant i > 0 ==> final[0] == BlockOf(Doubled(l))
      invariant i == 2 ==> final[1] == BlockOf(Doubled(Doubled(l)))
    {
      hi, lo := DoubleWords(hi, lo);
      BlockOfWords(hi, lo);
      final := final[i := BytesOf(hi) + BytesOf(lo)];
    }
    key := Some(Key(enc, final[0], final[1]));
  }

  // ----- the state while a message is being fed in -----

  /** `h` with `t` xored into its first bytes. */
  function XorPrefix(h: Block, t: Bytes): (r: Block)
    requires |t| <= 16
    ensures forall i | 0 <= i < 16 :: r[i] == if i < |t| then h[i] ^ t[i] else h[i]
  {
    seq(16, i requires 0 <= i < 16 => if i < |t| then h[i] ^ t[i] else h[i])
  }

  /** The contents of ctx->h after the message `m`. */
  function HashState(enc: Cipher, m: Bytes): Block {
    XorPrefix(Chain(enc, m, Blocks(m) - 1), Tail(m))
  }

  /** Chaining depends only on the blocks it has passed. */
  lemma {:induction false} ChainPrefix(enc: Cipher, m: Bytes, m': Bytes, k: nat)
    requires 16 * k <= |m| && m <= m'
    ensures Chain(enc, m', k) == Chain(enc, m, k)
  {
    if k > 0 {
      ChainPrefix(enc, m, m', k - 1);
      assert m'[16 * (k - 1)..16 * k] == m[16 * (k - 1)..16 * k];
    }
  }

  /** Finishing the pending state gives the CMAC of the message. */
  lemma FinalStep(key: Key, m: Bytes)
    ensures var h, n := HashState(key.enc, m), |Tail(m)|;
            CmacOf(key, m) == key.enc(if n == 16 then Xor(h, key.k1) else Xor(h[n := h[n] ^ 0x80], key.k2))
  {
    var c, t := Chain(key.enc, m, Blocks(m) - 1), Tail(m);
    var h := HashState(key.enc, m);
    if |t| == 16 {
      assert Xor(c, Xor(t, key.k1)) == Xor(h, key.k1);
    } else {
      PaddedXor(c, t, key.k2);
    }
  }

  lemma PaddedXor(c: Block, t: Bytes, k: Block)
    requires |t| < 16
    ensures var h := XorPrefix(c, t);
            Xor(c, Xor(Padding(t), k)) == Xor(h[|t| := h[|t|] ^ 0x80], k)
  {
    var h := XorPrefix(c, t);
    var p := Padding(t);
    forall i | 0 <= i < 16
      ensures Xor(c, Xor(p, k))[i] == Xor(h[|t| := h[|t|] ^ 0x80], k)[i]
    {
      assert p[i] == if i < |t| then t[i] else if i == |t| then 0x80 else 0;
    }
  }

  /** `h` with `x` xored in from position `off` on. */
  function XorRange(h: Block, off: nat, x: Bytes): (r: Block)
    requires off + |x| <= 16
    ensures forall i | 0 <= i < 16 :: r[i] == if off <= i < off + |x| then h[i] ^ x[i - off] else h[i]
  {
    seq(16, i requires 0 <= i < 16 => if off <= i < off + |x| then h[i] ^ x[i - off] else h[i])
  }

  lemma XorWhole(h: Block, x: Block)
    ensures XorRange(h, 0, x) == Xor(h, x)
  {
  }

  lemma BlocksUnique(m: Bytes, n: nat)
    requires n >= 1 && 16 * (n - 1) < |m| <= 16 * n
    ensures Blocks(m) == n
  {
  }

  /** Bytes that still fit into the pending block are xored in behind what is there. */
  lemma FillTail(enc: Cipher, m: Bytes, x: Bytes)
    requires |Tail(m)| + |x| <= 16
    ensures Tail(m + x) == Tail(m) + x
    ensures HashState(enc, m + x) == XorRange(HashState(enc, m), |Tail(m)|, x)
  {
    hide Blocks, Chain, XorPrefix, XorRange;
    var n := Blocks(m);
    var c := Chain(enc, m, n - 1);
    if x == [] {
      assert m + x == m;
    } else {
      BlocksUnique(m + x, n);
      ChainPrefix(enc, m, m + x, n - 1);
    }
    assert Tail(m + x) == Tail(m) + x;
    XorTwice(c, Tail(m), x);
  }

  lemma XorTwice(c: Block, t: Bytes, x: Bytes)
    requires |t| + |x| <= 16
    ensures XorPrefix(c, t + x) == XorRange(XorPrefix(c, t), |t|, x)
  {
    hide XorPrefix, XorRange;
    var a, b := XorPrefix(c, t + x), XorRange(XorPrefix(c, t), |t|, x);
    assert forall i | 0 <= i < 16 :: a[i] == b[i];
  }

  /** Encrypting a full pending block is the next chaining step. */
  lemma CloseBlock(enc: Cipher, m: Bytes)
    requires |Tail(m)| == 16
    ensures |m| == 16 * Blocks(m)
    ensures enc(HashState(enc, m)) == Chain(enc, m, Blocks(m))
  {
    var n := Blocks(m);
    assert Tail(m) == m[16 * (n - 1)..16 * n];
    assert HashState(enc, m) == Xor(Chain(enc, m, n - 1), Tail(m));
  }

  /** A whole block more. */
  lemma ChainBlock(enc: Cipher, m: Bytes, x: Block, n: nat)
    requires |m| == 16 * n
    ensures Chain(enc, m + x, n + 1) == enc(XorRange(Chain(enc, m, n), 0, x))
  {
    ChainPrefix(enc, m, m + x, n);
    assert (m + x)[16 * n..16 * (n + 1)] == x;
    assert Xor(Chain(enc, m, n), x) == XorRange(Chain(enc, m, n), 0, x);
  }

  /** A new pending block after `n` closed ones. */
  lemma OpenBlock(enc: Cipher, m: Bytes, x: Bytes, n: nat)
    requires |m| == 16 * n && |x| <= 16 && (x == [] ==> m == [])
    ensures Tail(m + x) == x
    ensures HashState(enc, m + x) == XorRange(Chain(enc, m, n), 0, x)
  {
    if x == [] {
      assert m + x == [];
    } else {
      BlocksUnique(m + x, n + 1);
      ChainPrefix(enc, m, m + x, n);
      assert Tail(m + x) == x;
    }
    assert XorPrefix(Chain(enc, m, n), x) == XorRange(Chain(enc, m, n), 0, x);
  }

  lemma EmptyState(enc: Cipher, m: Bytes)
    requires Tail(m) == []
    ensures m == [] && HashState(enc, m) == Chain(enc, m, 0) == ZeroBlock
  {
    hide Blocks, Tail, XorPrefix;
    assert m == [] && Blocks(m) == 1;
    var z := XorPrefix(ZeroBlock, []);
    assert forall i | 0 <= i < 16 :: z[i] == ZeroBlock[i];
  }

  class CmacContext {
    const key: Key
    const h: array<bv8>
    var partialLen: nat

    /** The message fed in so far is `m`. */
    ghost predicate Holds(m: Bytes)
      reads this, h
    {
      h.Length == 16 && h[..] == HashState(key.enc, m) && partialLen == |Tail(m)|
    }

    /** aes_cmac_init. */
    constructor (key: Key)
      ensures this.key == key && Holds([]) && fresh(h)
    {
      this.key := key;
      h := new bv8[16](_ => 0);
      partialLen := 0;
      new;
      assert h[..] == ZeroBlock;
      assert XorPrefix(ZeroBlock, []) == ZeroBlock;
    }

    /** crypto_xor into ctx->h. */
    method XorInto(off: nat, x: Bytes)
      requires h.Length == 16 && off + |x| <= 16
      modifies h
      ensures h[..] == XorRange(old(h[..]), off, x)
    {
      for k := 0 to |x|
        invariant forall i | 0 <= i < 16 :: h[i] == if off <= i < off + k then old(h[i]) ^ x[i - off] else old(h[i])
      {
        h[off + k] := h[off + k] ^ x[k];
      }
    }

    /** The block cipher applied to ctx->h in place. */
    method Encrypt()
      requires h.Length == 16
      modifies h
      ensures h[..] == key.enc(old(h[..]))
    {
      var b := key.enc(h[..]);
      for k := 0 to 16
        invariant forall i | 0 <= i < 16 :: h[i] == if i < k then b[i] else old(h[i])
      {
        h[k] := b[k];
      }
    }

    /** Whole blocks in a row: after `count` of them the chaining value is in ctx->h. */
    method ChainBlocks(data: Bytes, count: nat, ghost m: Bytes, ghost n: nat)
      requires h.Length == 16 && 16 * count <= |data| && |m| == 16 * n && h[..] == Chain(key.enc, m, n)
      modifies h
      ensures h[..] == Chain(key.enc, m + data[..16 * count], n + count)
    {
      assert m + data[..0] == m;
      for k := 0 to count
        invariant h[..] == Chain(key.enc, m + data[..16 * k], n + k)
      {
        var block := data[16 * k..16 * (k + 1)];
        ChainBlock(key.enc, m + data[..16 * k], block, n + k);
        assert m + data[..16 * k] + block == m + data[..16 * (k + 1)];
        XorInto(0, block);
        Encrypt();
      }
    }

    /** The part of aes_cmac_update after the pending block has been closed. */
    method UpdateBlocks(data: Bytes, ghost m: Bytes, ghost n: nat)
      requires h.Length == 16 && |m| == 16 * n && h[..] == Chain(key.enc, m, n) && (data == [] ==> m == [])
      modifies this, h
      ensures Holds(m + data)
    {
      hide Chain, HashState, Blocks, Tail, XorRange;
      var blocks, rest := |data| / 16, |data| % 16;
      var closed := if rest != 0 || blocks == 0 then blocks else blocks - 1;
      ChainBlocks(data, closed, m, n);
      ghost var m' := m + data[..16 * closed];
      OpenBlock(key.enc, m', data[16 * closed..], n + closed);
      assert m' + data[16 * closed..] == m + data;
      XorInto(0, data[16 * closed..]);
      partialLen := |data| - 16 * closed;
    }

    /** aes_cmac_update. */
    method Update(data: Bytes, ghost m: Bytes)
      requires Holds(m)
      modifies this, h
      ensures Holds(m + data)
    {
      hide Chain, HashState, XorRange;
      var rest := data;
      ghost var m' := m;
      if partialLen != 0 {
        var l := if |data| < 16 - partialLen then |data| else 16 - partialLen;
        FillTail(key.enc, m, data[..l]);
        XorInto(partialLen, data[..l]);
        m', rest, partialLen := m + data[..l], data[l..], partialLen + l;
        if rest == [] {
          assert data[..l] == data;
          return;
        }
        CloseBlock(key.enc, m');
        Encrypt();
        assert m' + rest == m + data;
        UpdateBlocks(rest, m', Blocks(m'));
      } else {
        EmptyState(key.enc, m);
        UpdateBlocks(rest, m, 0);
      }
    }

    /** aes_cmac_final: the result is the CMAC of everything fed in, and the context is wiped. */
    method Final(ghost m: Bytes) returns (out: Block)
      requires Holds(m)
      modifies this, h
      ensures out == CmacOf(key, m)
      ensures partialLen == 0 && h[..] == ZeroBlock
    {
      FinalStep(key, m);
      hide CmacOf, HashState, XorRange, Xor;
      if partialLen == 16 {
        XorWhole(h[..], key.k1);
        XorInto(0, key.k1);
      } else {
        h[partialLen] := h[partialLen] ^ 0x80;
        XorWhole(h[..], key.k2);
        XorInto(0, key.k2);
      }
      out := key.enc(h[..]);
      Wipe();
    }

    /** memzero_explicit on the context. */
    method Wipe()
      requires h.Length == 16
      modifies this, h
      ensures partialLen == 0 && h[..] == ZeroBlock
    {
      for k := 0 to 16
        invariant forall i | 0 <= i < k :: h[i] == 0
      {
        h[k] := 0;
      }
      partialLen := 0;
    }
  }

  function Concat(chunks: seq<Bytes>): Bytes {
    if chunks == [] then [] else Concat(chunks[..|chunks| - 1]) + chunks[|chunks| - 1]
  }

  /** Feeding a message in pieces of any length gives the CMAC of the whole. */
  method CmacOfChunks(key: Key, chunks: seq<Bytes>) returns (out: Block)
    ensures out == CmacOf(key, Concat(chunks))
  {
    hide CmacOf, HashState, Tail;
    var ctx := new CmacContext(key);
    for k := 0 to |chunks|
      invariant fresh(ctx) && fresh(ctx.h) && ctx.key == key && ctx.Holds(Concat(chunks[..k]))
    {
      assert chunks[..k + 1][..k] == chunks[..k];
      ctx.Update(chunks[k], Concat(chunks[..k]));
    }
    assert chunks[..|chunks|] == chunks;
    out := ctx.Final(Concat(chunks));
  }

  /** Preparing a key and feeding a message in pieces gives the MAC of RFC 4493 under the cipher. */
  method MacOfChunks(setup: Setup, chunks: seq<Bytes>) returns (err: int, out: Option<Block>)
    ensures setup.Failed? ==> err == setup.err && out.None?
    ensures setup.Ready? ==> err == 0 && out == Some(AesCmac(setup.enc, Concat(chunks)))
  {
    hide CmacOf, KeyOf, Concat;
    var key;
    err, key := PrepareKey(setup);
    if key.None? {
      return err, None;
    }
    var mac := CmacOfChunks(key.value, chunks);
    return err, Some(mac);
  }

  /** aes_cmac: the whole message at once. */
  method CmacAtOnce(key: Key, data: Bytes) returns (out: Block)
    ensures out == CmacOf(key, data)
  {
    var ctx := new CmacContext(key);
    ctx.Update(data, []);
    assert [] + data == data;
    out := ctx.Final(data);
  }
}
