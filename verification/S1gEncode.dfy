/**
 * Writing S1G traffic indication maps, the other side of
 * include/linux/ieee80211-s1g.h: what the reader makes of a written map.
 */
module S1gEncode {
  import opened Wrappers
  import opened S1gTim

  // ---------------------------------------------------------------------
  // Encoded blocks in a row
  // ---------------------------------------------------------------------

  ghost predicate Writable(e: Encoded) {
    Complete(e) && e.offset < 32
  }

  /** The block-control octet and what follows it. */
  function Written(e: Encoded): seq<Byte>
    requires Writable(e)
  {
    var ctrl := e.mode + (if e.inverse then 4 else 0) + 8 * e.offset;
    [ctrl] + e.payload
  }

  function WrittenAll(es: seq<Encoded>): seq<Byte>
    requires forall e | e in es :: Writable(e)
  {
    if es == [] then [] else Written(es[0]) + WrittenAll(es[1..])
  }

  lemma WrittenParts(pre: seq<Byte>, e: Encoded, post: seq<Byte>)
    requires Writable(e)
    ensures var tim, p := pre + Written(e) + post, |pre|;
      && p < |tim| && tim[p] % 4 == e.mode != 3
      && PayloadLength(e.mode, tim, p + 1) == Some(|e.payload|)
      && EncodedAt(tim, p, |e.payload|) == e
  {
    hide Ones;
    var tim, p := pre + Written(e) + post, |pre|;
    assert tim[p + 1..p + 1 + |e.payload|] == e.payload;
    assert tim[p + 1] == e.payload[0];
  }

  /** Decoding undoes writing. */
  lemma {:induction false} DecodeWritten(pre: seq<Byte>, es: seq<Encoded>)
    requires forall e | e in es :: Writable(e)
    ensures Decode(pre + WrittenAll(es), |pre|) == (es, ENOENT)
    decreases |es|
  {
    hide PayloadLength, EncodedAt, Writable;
    var tim := pre + WrittenAll(es);
    if es != [] {
      var e, rest := es[0], WrittenAll(es[1..]);
      assert tim == pre + Written(e) + rest;
      WrittenParts(pre, e, rest);
      DecodeWritten(pre + Written(e), es[1..]);
      assert es == [e] + es[1..];
    }
  }

  // ---------------------------------------------------------------------
  // One block bitmap
  // ---------------------------------------------------------------------

  /** Which octets are not zero, the first one in the lowest bit. */
  function PresentMap(octets: seq<Byte>): nat {
    if octets == [] then 0 else (if octets[0] != 0 then 1 else 0) + 2 * PresentMap(octets[1..])
  }

  function PresentOctets(octets: seq<Byte>): seq<Byte> {
    if octets == [] then []
    else (if octets[0] != 0 then [octets[0]] else []) + PresentOctets(octets[1..])
  }

  lemma {:induction false} SubblocksPresent(octets: seq<Byte>)
    ensures |PresentOctets(octets)| == Ones(PresentMap(octets), |octets|)
    ensures Subblocks(PresentMap(octets), PresentOctets(octets), |octets|) == octets
  {
    if octets != [] {
      SubblocksPresent(octets[1..]);
      assert PresentMap(octets) / 2 == PresentMap(octets[1..]);
      assert octets == [octets[0]] + octets[1..];
      if octets[0] != 0 {
        assert PresentMap(octets) % 2 == 1;
        assert PresentOctets(octets)[1..] == PresentOctets(octets[1..]);
      } else {
        assert PresentMap(octets) % 2 == 0;
        assert PresentOctets(octets) == PresentOctets(octets[1..]);
      }
    }
  }

  function Power2(n: nat): nat {
    if n == 0 then 1 else 2 * Power2(n - 1)
  }

  lemma {:induction false} PresentMapBelow(octets: seq<Byte>)
    ensures PresentMap(octets) < Power2(|octets|)
  {
    if octets != [] {
      PresentMapBelow(octets[1..]);
    }
  }

  /** n bits from base on as a number. */
  function Packed(bits: nat -> bool, base: nat, n: nat): nat
    decreases n
  {
    if n == 0 then 0 else (if bits(base) then 1 else 0) + 2 * Packed(bits, base + 1, n - 1)
  }

  lemma {:induction false} PackedBits(bits: nat -> bool, base: nat, n: nat, k: nat)
    ensures Packed(bits, base, n) < Power2(n)
    ensures k < n ==> Bit(Packed(bits, base, n), k) == bits(base + k)
    decreases n
  {
    if n > 0 {
      PackedBits(bits, base + 1, n - 1, if k > 0 then k - 1 else 0);
      assert Packed(bits, base, n) / 2 == Packed(bits, base + 1, n - 1);
    }
  }

  lemma Power2Of8()
    ensures Power2(8) == 256
  {
    assert Power2(4) == 16;
  }

  // ---------------------------------------------------------------------
  // A map for a set of AIDs
  // ---------------------------------------------------------------------

  /** An octet of bits, as far as eight bits make one. */
  function Octet(bits: nat -> bool, base: nat): Byte {
    PackedBits(bits, base, 8, 0);
    Power2Of8();
    Packed(bits, base, 8)
  }

  function BlockOctets(aids: set<nat>, blk: nat, inverse: bool): (r: seq<Byte>)
    ensures |r| == 8
  {
    var bits := (a: nat) => (a in aids) != inverse;
    seq(8, s requires 0 <= s < 8 => Octet(bits, 64 * blk + 8 * s))
  }

  /** The block bitmap of the AIDs of one block, or of the others when inverse. */
  function BlockOf(aids: set<nat>, blk: nat, inverse: bool): (e: Encoded)
    requires blk < 32
    ensures e.mode == MODE_BLOCK && e.offset == blk && e.inverse == inverse && Writable(e)
  {
    var octets := BlockOctets(aids, blk, inverse);
    SubblocksPresent(octets);
    PresentMapBelow(octets);
    Power2Of8();
    Encoded(MODE_BLOCK, inverse, blk, [PresentMap(octets)] + PresentOctets(octets))
  }

  lemma OctetsOfBlock(aids: set<nat>, blk: nat, inverse: bool)
    requires blk < 32
    ensures Octets(BlockOf(aids, blk, inverse), blk) == BlockOctets(aids, blk, inverse)
  {
    hide Ones, PresentMap, PresentOctets, Subblocks, BlockOctets;
    var e, octets := BlockOf(aids, blk, inverse), BlockOctets(aids, blk, inverse);
    SubblocksPresent(octets);
    assert e.payload[1..] == PresentOctets(octets);
  }

  lemma OctetBit(aids: set<nat>, blk: nat, inverse: bool, i: nat)
    requires i < 64
    ensures Bit(BlockOctets(aids, blk, inverse)[i / 8], i % 8) <==> (64 * blk + i in aids) != inverse
  {
    hide Bit, Packed, Power2;
    var bits := (a: nat) => (a in aids) != inverse;
    var s, k := i / 8, i % 8;
    PackedBits(bits, 64 * blk + 8 * s, 8, k);
    assert BlockOctets(aids, blk, inverse)[s] == Packed(bits, 64 * blk + 8 * s, 8);
    assert 64 * blk + 8 * s + k == 64 * blk + i;
  }

  /** The block holds the AIDs of the set in every block of AIDs it covers. */
  ghost predicate Faithful(e: Encoded, aids: set<nat>)
    requires Complete(e)
  {
    forall blk: nat, i | Covers(e, blk) && 0 <= i < 64 :: Bitmap(e, blk)[i] <==> 64 * blk + i in aids
  }

  lemma BlockFaithful(aids: set<nat>, blk: nat, inverse: bool)
    requires blk < 32
    ensures Faithful(BlockOf(aids, blk, inverse), aids)
  {
    hide BlockOf, BlockOctets, Octets, Bit, Complete;
    var e := BlockOf(aids, blk, inverse);
    OctetsOfBlock(aids, blk, inverse);
    forall i | 0 <= i < 64
      ensures Bitmap(e, blk)[i] <==> 64 * blk + i in aids
    {
      OctetBit(aids, blk, inverse, i);
    }
  }

  // ---------------------------------------------------------------------
  // The other two encodings
  // ---------------------------------------------------------------------

  /** A single AID of a block, or all of the block but one when inverse. */
  function SingleOf(aid: nat, inverse: bool): (e: Encoded)
    requires aid < 2048
    ensures Writable(e)
  {
    Encoded(MODE_SINGLE, inverse, aid / 64, [aid % 64])
  }

  lemma SingleFaithful(aids: set<nat>, aid: nat, inverse: bool)
    requires aid < 2048
    requires forall a | a / 64 == aid / 64 :: a in aids <==> (a == aid) != inverse
    ensures Faithful(SingleOf(aid, inverse), aids)
  {
    var e, blk := SingleOf(aid, inverse), aid / 64;
    forall i | 0 <= i < 64
      ensures Bitmap(e, blk)[i] <==> 64 * blk + i in aids
    {
      assert (64 * blk + i) / 64 == blk;
      assert i == aid % 64 <==> 64 * blk + i == aid;
    }
  }

  /** The octets of n blocks in a row. */
  function OlbOctets(aids: set<nat>, blk: nat, n: nat, inverse: bool): (r: seq<Byte>)
    ensures |r| == 8 * n
    decreases n
  {
    if n == 0 then [] else BlockOctets(aids, blk, inverse) + OlbOctets(aids, blk + 1, n - 1, inverse)
  }

  function OlbOf(aids: set<nat>, blk: nat, n: nat, inverse: bool): (e: Encoded)
    requires blk < 32 && 0 < n < 32
    ensures Writable(e)
  {
    Encoded(MODE_OLB, inverse, blk, [8 * n] + OlbOctets(aids, blk, n, inverse))
  }

  lemma {:induction false} OlbOctetsAt(aids: set<nat>, blk: nat, n: nat, inverse: bool, k: nat)
    requires k < n
    ensures PaddedOctets(OlbOctets(aids, blk, n, inverse), 8 * k) == BlockOctets(aids, blk + k, inverse)
    decreases n
  {
    hide BlockOctets;
    var all, rest := OlbOctets(aids, blk, n, inverse), OlbOctets(aids, blk + 1, n - 1, inverse);
    if k > 0 {
      OlbOctetsAt(aids, blk + 1, n - 1, inverse, k - 1);
      assert PaddedOctets(all, 8 * k) == PaddedOctets(rest, 8 * (k - 1));
    }
  }

  lemma OctetsOfOlb(aids: set<nat>, first: nat, n: nat, inverse: bool, blk: nat)
    requires first < 32 && 0 < n < 32 && first <= blk < first + n
    ensures var e := OlbOf(aids, first, n, inverse);
      Covers(e, blk) && e.mode == MODE_OLB && e.inverse == inverse
      && Octets(e, blk) == BlockOctets(aids, blk, inverse)
  {
    hide BlockOctets, OlbOctets, PaddedOctets;
    var e := OlbOf(aids, first, n, inverse);
    OlbOctetsAt(aids, first, n, inverse, blk - first);
    assert e.payload[1..] == OlbOctets(aids, first, n, inverse);
  }

  lemma OlbSpan(aids: set<nat>, first: nat, n: nat, inverse: bool, blk: nat)
    requires first < 32 && 0 < n < 32
    ensures Covers(OlbOf(aids, first, n, inverse), blk) ==> first <= blk < first + n
  {
    hide OlbOctets;
  }

  lemma OlbFaithful(aids: set<nat>, first: nat, n: nat, inverse: bool)
    requires first < 32 && 0 < n < 32
    ensures Faithful(OlbOf(aids, first, n, inverse), aids)
  {
    hide BlockOctets, Bit, OlbOf, Octets, Covers, Complete;
    var e := OlbOf(aids, first, n, inverse);
    forall blk: nat, i | Covers(e, blk) && 0 <= i < 64
      ensures Bitmap(e, blk)[i] <==> 64 * blk + i in aids
    {
      OlbSpan(aids, first, n, inverse, blk);
      OctetsOfOlb(aids, first, n, inverse, blk);
      OctetBit(aids, blk, inverse, i);
    }
  }

  // ---------------------------------------------------------------------
  // Whole maps
  // ---------------------------------------------------------------------

  lemma AidParts(aid: nat)
    ensures aid / 64 % 32 == aid % 2048 / 64 && aid % 2048 == 64 * (aid / 64 % 32) + aid % 64
  {
    var q, r := aid / 2048, aid % 2048;
    assert aid == 64 * (32 * q + r / 64) + r % 64;
    assert aid / 64 == 32 * q + r / 64 && aid % 64 == r % 64;
  }

  /**
   * A map of blocks of any encoding, in any order and even overlapping, that
   * cover the blocks of a set of AIDs and hold its members, announces exactly
   * the AIDs of the set.  An AID counts modulo 2048, the AIDs of a page.
   */
  lemma MapAnnounces(header: seq<Byte>, es: seq<Encoded>, aids: set<nat>, aid: nat)
    requires |header| == MAP_OFFSET
    requires forall e | e in es :: Writable(e) && Faithful(e, aids)
    requires forall a | a in aids :: exists e | e in es && Writable(e) :: Covers(e, a / 64)
    ensures Announced(header + WrittenAll(es), aid) <==> aid % 2048 in aids
  {
    hide Decode, FirstCovering, Bitmap, WrittenAll, Covers, Complete;
    var blk := aid / 64 % 32;
    AidParts(aid);
    DecodeWritten(header, es);
    var found := FirstCovering(es, blk);
    if found.Some? {
      assert Faithful(found.value, aids);
    }
  }
}
