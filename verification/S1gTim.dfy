/**
 * The S1G traffic indication map of include/linux/ieee80211-s1g.h: finding the
 * encoded block for an association identifier (AID) and reading its bit,
 * compared with a decoder that expands encoded blocks into bitmaps.
 */
module S1gTim {
  import opened Wrappers

  type Byte = n: nat | n < 256

  const MODE_BLOCK := 0
  const MODE_SINGLE := 1
  const MODE_OLB := 2

  /** dtim_count, dtim_period and bitmap_ctrl stand before the virtual map. */
  const MAP_OFFSET := 3

  // ---------------------------------------------------------------------
  // Bits
  // ---------------------------------------------------------------------

  /** Bit k of b: b & BIT(k) is not zero. */
  predicate Bit(b: nat, k: nat) {
    if k == 0 then b % 2 == 1 else Bit(b / 2, k - 1)
  }

  /** The number of ones among the lowest n bits; hweight8 for n == 8. */
  function Ones(b: nat, n: nat): (r: nat)
    ensures r <= n
  {
    if n == 0 then 0 else b % 2 + Ones(b / 2, n - 1)
  }

  /** b & GENMASK(n - 1, 0). */
  function LowBits(b: nat, n: nat): nat {
    if n == 0 then 0 else b % 2 + 2 * LowBits(b / 2, n - 1)
  }

  lemma {:induction false} OnesOfLowBits(b: nat, n: nat, m: nat)
    requires n <= m
    ensures Ones(LowBits(b, n), m) == Ones(b, n)
  {
    if n == 0 {
      OnesOfZero(m);
    } else {
      OnesOfLowBits(b / 2, n - 1, m - 1);
      assert LowBits(b, n) / 2 == LowBits(b / 2, n - 1);
    }
  }

  lemma {:induction false} OnesOfZero(n: nat)
    ensures Ones(0, n) == 0
  {
    if n > 0 {
      OnesOfZero(n - 1);
    }
  }

  lemma {:induction false} OnesUpTo(b: nat, k: nat, n: nat)
    requires k < n
    ensures Ones(b, k) + (if Bit(b, k) then 1 else 0) <= Ones(b, n)
  {
    if k > 0 {
      OnesUpTo(b / 2, k - 1, n - 1);
    }
  }

  // ---------------------------------------------------------------------
  // Reference decoder
  // ---------------------------------------------------------------------

  datatype Error = EINVAL | EOPNOTSUPP | ENOENT

  /** One encoded block with the octets that follow its block-control octet. */
  datatype Encoded = Encoded(mode: nat, inverse: bool, offset: nat, payload: seq<Byte>)

  /** The payload is as long as its first octet says. */
  predicate Complete(e: Encoded) {
    || (e.mode == MODE_BLOCK && e.payload != [] && |e.payload| == 1 + Ones(e.payload[0], 8))
    || (e.mode == MODE_SINGLE && |e.payload| == 1)
    || (e.mode == MODE_OLB && e.payload != [] && |e.payload| - 1 == e.payload[0])
  }

  /** How many octets the payload starting at p takes, unless the map ends first. */
  function PayloadLength(mode: nat, tim: seq<Byte>, p: nat): (r: Option<nat>)
    requires mode < 3 && p <= |tim|
    ensures r.Some? ==> 1 <= r.value && p + r.value <= |tim|
  {
    if p == |tim| then None
    else
      var n := if mode == MODE_BLOCK then Ones(tim[p], 8) else if mode == MODE_SINGLE then 0 else tim[p];
      if p + 1 + n > |tim| then None else Some(1 + n)
  }

  /** Every encoded block from p on, up to the end or the first malformed one. */
  function Decode(tim: seq<Byte>, p: nat): (r: (seq<Encoded>, Error))
    requires p <= |tim|
    ensures forall e | e in r.0 :: Complete(e)
    decreases |tim| - p
  {
    if p == |tim| then ([], ENOENT)
    else if tim[p] % 4 == 3 then ([], EOPNOTSUPP)
    else
      var len := PayloadLength(tim[p] % 4, tim, p + 1);
      if len.None? then ([], EINVAL)
      else
        var e := EncodedAt(tim, p, len.value);
        var rest := Decode(tim, p + 1 + len.value);
        ([e] + rest.0, rest.1)
  }

  function EncodedAt(tim: seq<Byte>, p: nat, len: nat): Encoded
    requires p + 1 + len <= |tim| && len > 0
  {
    Encoded(tim[p] % 4, tim[p] / 4 % 2 == 1, tim[p] / 8, tim[p + 1..p + 1 + len])
  }

  /** The block holds the bits of AID block blk; an OLB block may hold several. */
  predicate Covers(e: Encoded, blk: nat)
    requires Complete(e)
  {
    if e.mode == MODE_OLB then e.offset <= blk < e.offset + (|e.payload| - 1 + 7) / 8
    else e.offset == blk
  }

  /** The first block that covers blk. */
  function FirstCovering(es: seq<Encoded>, blk: nat): (r: Option<Encoded>)
    requires forall e | e in es :: Complete(e)
    ensures r.Some? ==> Complete(r.value) && Covers(r.value, blk) && r.value in es
    ensures r.None? ==> forall e | e in es :: !Covers(e, blk)
  {
    if es == [] then None
    else if Covers(es[0], blk) then Some(es[0])
    else FirstCovering(es[1..], blk)
  }

  /** The n subblocks a block bitmap announces, the absent ones as zero. */
  function Subblocks(bitmap: nat, bytes: seq<Byte>, n: nat): (r: seq<Byte>)
    requires |bytes| == Ones(bitmap, n)
    ensures |r| == n
    decreases n
  {
    if n == 0 then []
    else if bitmap % 2 == 1 then [bytes[0]] + Subblocks(bitmap / 2, bytes[1..], n - 1)
    else [0] + Subblocks(bitmap / 2, bytes, n - 1)
  }

  /** Eight octets of an OLB payload from position i on, zero past its end. */
  function PaddedOctets(bytes: seq<Byte>, i: nat): (r: seq<Byte>)
    ensures |r| == 8
  {
    seq(8, k requires 0 <= k < 8 => if i + k < |bytes| then bytes[i + k] else 0)
  }

  /** The eight octets of AID block blk before inversion. */
  function Octets(e: Encoded, blk: nat): (r: seq<Byte>)
    requires Complete(e) && Covers(e, blk) && e.mode != MODE_SINGLE
    ensures |r| == 8
  {
    if e.mode == MODE_BLOCK then Subblocks(e.payload[0], e.payload[1..], 8)
    else PaddedOctets(e.payload[1..], 8 * (blk - e.offset))
  }

  /** The 64 bits of AID block blk. */
  function Bitmap(e: Encoded, blk: nat): (r: seq<bool>)
    requires Complete(e) && Covers(e, blk)
    ensures |r| == 64
  {
    if e.mode == MODE_SINGLE then
      seq(64, i => (i == e.payload[0] % 64) != e.inverse)
    else
      var octets := Octets(e, blk);
      seq(64, i requires 0 <= i < 64 => Bit(octets[i / 8], i % 8) != e.inverse)
  }

  /** Whether the map announces traffic for an AID. */
  function Announced(tim: seq<Byte>, aid: nat): bool
  {
    if |tim| < MAP_OFFSET then false
    else
      var blk := aid / 64 % 32;
      var e := FirstCovering(Decode(tim, MAP_OFFSET).0, blk);
      e.Some? && Bitmap(e.value, blk)[aid % 64]
  }

  lemma {:induction false} SubblockAt(bitmap: nat, bytes: seq<Byte>, n: nat, s: nat)
    requires |bytes| == Ones(bitmap, n) && s < n
    ensures Bit(bitmap, s) ==> Ones(bitmap, s) < |bytes|
    ensures Subblocks(bitmap, bytes, n)[s] == if Bit(bitmap, s) then bytes[Ones(bitmap, s)] else 0
    decreases n
  {
    OnesUpTo(bitmap, s, n);
    if s > 0 {
      SubblockAt(bitmap / 2, if bitmap % 2 == 1 then bytes[1..] else bytes, n - 1, s - 1);
    }
  }

  // ---------------------------------------------------------------------
  // The code
  // ---------------------------------------------------------------------

  /** struct s1g_tim_aid. */
  datatype TargetAid = TargetAid(aid: nat, blk: nat, subblk: nat, bit: nat)

  function TargetOf(aid: nat): TargetAid {
    TargetAid(aid, aid / 64 % 32, aid / 8 % 8, aid % 8)
  }

  /** struct s1g_tim_enc_block; the pointer is an index into the TIM and len a u8. */
  datatype EncBlock = EncBlock(mode: nat, inverse: bool, ptr: nat, len: nat, olbOffset: nat)

  datatype Search = Found(enc: EncBlock) | Failed(error: Error)

  /** The encoded block that a search result points to. */
  ghost predicate PointsTo(tim: seq<Byte>, enc: EncBlock, e: Encoded) {
    && enc.mode == e.mode && enc.inverse == e.inverse && enc.olbOffset == e.offset
    && enc.ptr + |e.payload| <= |tim| && tim[enc.ptr..enc.ptr + |e.payload|] == e.payload
    && enc.len == |e.payload| % 256
  }

  /**
   * ieee80211_s1g_find_target_block: the first decoded block that covers the
   * target, or the error at which decoding stops.
   */
  method FindTargetBlock(tim: seq<Byte>, blk: nat, start: nat) returns (r: Search)
    requires start <= |tim|
    ensures var e := FirstCovering(Decode(tim, start).0, blk);
      if e.Some? then r.Found? && PointsTo(tim, r.enc, e.value)
      else r == Failed(Decode(tim, start).1)
  {
    hide Ones, Covers, Complete, PointsTo, PayloadLength, Decode, FirstCovering, EncodedAt;
    var ptr := start;
    while ptr + 1 <= |tim|
      invariant start <= ptr <= |tim|
      invariant Decode(tim, start).1 == Decode(tim, ptr).1
      invariant FirstCovering(Decode(tim, start).0, blk) == FirstCovering(Decode(tim, ptr).0, blk)
    {
      var ctrl := tim[ptr];
      var mode, inverse, offset := ctrl % 4, ctrl / 4 % 2 == 1, ctrl / 8;
      DecodeStops(tim, ptr, blk);
      if mode == 3 {
        return Failed(EOPNOTSUPP);
      }
      var len := PayloadLength(mode, tim, ptr + 1);
      if len.None? {
        return Failed(EINVAL);
      }
      DecodeCovers(tim, ptr, blk);
      var span := (len.value - 1 + 7) / 8;
      var contains :=
        if mode == MODE_OLB then blk >= offset && blk < offset + span else offset == blk;
      PointsToFound(tim, ptr, len.value);
      if contains {
        return Found(EncBlock(mode, inverse, ptr + 1, len.value % 256, offset));
      }
      ptr := ptr + 1 + len.value;
    }
    DecodeStops(tim, ptr, blk);
    return Failed(ENOENT);
  }

  /** Where decoding stops nothing covers the target any more. */
  lemma DecodeStops(tim: seq<Byte>, p: nat, blk: nat)
    requires p <= |tim|
    ensures p == |tim| ==> Decode(tim, p) == ([], ENOENT)
    ensures p < |tim| && tim[p] % 4 == 3 ==> Decode(tim, p) == ([], EOPNOTSUPP)
    ensures p < |tim| && tim[p] % 4 != 3 && PayloadLength(tim[p] % 4, tim, p + 1).None? ==>
      Decode(tim, p) == ([], EINVAL)
    ensures Decode(tim, p).0 == [] ==> FirstCovering(Decode(tim, p).0, blk) == None
  {
    hide PayloadLength;
  }

  /** One step of decoding: the block at p covers the target, or the search goes on behind it. */
  lemma DecodeCovers(tim: seq<Byte>, p: nat, blk: nat)
    requires p < |tim| && tim[p] % 4 != 3 && PayloadLength(tim[p] % 4, tim, p + 1).Some?
    ensures var len := PayloadLength(tim[p] % 4, tim, p + 1).value;
      var e, next := EncodedAt(tim, p, len), p + 1 + len;
      && Decode(tim, p).1 == Decode(tim, next).1
      && FirstCovering(Decode(tim, p).0, blk) ==
         if (if e.mode == MODE_OLB then e.offset <= blk < e.offset + (len - 1 + 7) / 8 else e.offset == blk)
         then Some(e) else FirstCovering(Decode(tim, next).0, blk)
  {
    hide PayloadLength, Complete;
    var len := PayloadLength(tim[p] % 4, tim, p + 1).value;
    var e, rest := EncodedAt(tim, p, len), Decode(tim, p + 1 + len).0;
    assert Decode(tim, p).0 == [e] + rest;
    assert e in Decode(tim, p).0;
    assert ([e] + rest)[1..] == rest;
  }

  lemma PointsToFound(tim: seq<Byte>, p: nat, len: nat)
    requires p + 1 + len <= |tim| && len > 0
    ensures var e := EncodedAt(tim, p, len);
      && e.mode == tim[p] % 4 && e.inverse == (tim[p] / 4 % 2 == 1) && e.offset == tim[p] / 8
      && PointsTo(tim, EncBlock(e.mode, e.inverse, p + 1, len % 256, e.offset), e)
  {
  }

  /** ieee80211_s1g_parse_bitmap. */
  function ParseBitmap(tim: seq<Byte>, enc: EncBlock, target: TargetAid): bool
    requires enc.ptr < |tim| && enc.ptr + Ones(tim[enc.ptr], 8) < |tim|
    requires target.subblk < 8
  {
    var blkmap := tim[enc.ptr];
    if !Bit(blkmap, target.subblk) then enc.inverse
    else
      var skip := if target.subblk == 0 then 0 else Ones(LowBits(blkmap, target.subblk), 8);
      SkipInside(blkmap, target.subblk);
      Bit(tim[enc.ptr + 1 + skip], target.bit) != enc.inverse
  }

  lemma SkipInside(blkmap: nat, subblk: nat)
    requires subblk < 8 && Bit(blkmap, subblk)
    ensures (if subblk == 0 then 0 else Ones(LowBits(blkmap, subblk), 8)) == Ones(blkmap, subblk)
    ensures Ones(blkmap, subblk) < Ones(blkmap, 8)
  {
    OnesOfLowBits(blkmap, subblk, 8);
    OnesUpTo(blkmap, subblk, 8);
  }

  /** ieee80211_s1g_parse_single. */
  function ParseSingle(tim: seq<Byte>, enc: EncBlock, target: TargetAid): bool
    requires enc.ptr < |tim|
  {
    (tim[enc.ptr] % 64 == target.aid % 64) != enc.inverse
  }

  /** ieee80211_s1g_parse_olb. */
  function ParseOlb(tim: seq<Byte>, enc: EncBlock, target: TargetAid): bool
    requires enc.ptr < |tim| && enc.ptr + tim[enc.ptr] < |tim|
    requires enc.olbOffset <= target.blk
  {
    var len := tim[enc.ptr];
    var i := (target.blk - enc.olbOffset) * 8 + target.subblk;
    if i >= len then enc.inverse
    else Bit(tim[enc.ptr + 1 + i], target.bit) != enc.inverse
  }

  lemma TargetBits(aid: nat)
    ensures var t := TargetOf(aid);
      t.subblk < 8 && t.bit < 8 && t.subblk == aid % 64 / 8 && t.bit == aid % 64 % 8
  {
    var q, r := aid / 64, aid % 64;
    assert aid == 64 * q + r;
    assert aid / 8 == 8 * q + r / 8;
  }

  lemma BitmapAt(e: Encoded, aid: nat)
    requires Complete(e) && e.mode != MODE_SINGLE && Covers(e, TargetOf(aid).blk)
    ensures var t := TargetOf(aid);
      Bitmap(e, t.blk)[aid % 64] == (Bit(Octets(e, t.blk)[t.subblk], t.bit) != e.inverse)
  {
    hide Ones, Bit, Octets, Complete, Covers;
    TargetBits(aid);
  }

  lemma ParseBitmapRight(tim: seq<Byte>, enc: EncBlock, e: Encoded, aid: nat)
    requires Complete(e) && e.mode == MODE_BLOCK && PointsTo(tim, enc, e)
    requires Covers(e, TargetOf(aid).blk)
    ensures enc.ptr < |tim| && enc.ptr + Ones(tim[enc.ptr], 8) < |tim|
    ensures ParseBitmap(tim, enc, TargetOf(aid)) == Bitmap(e, TargetOf(aid).blk)[aid % 64]
  {
    hide Ones, Bit, LowBits, Bitmap;
    var t := TargetOf(aid);
    TargetBits(aid);
    BitmapAt(e, aid);
    assert tim[enc.ptr] == e.payload[0];
    var bytes := e.payload[1..];
    SubblockAt(e.payload[0], bytes, 8, t.subblk);
    if Bit(e.payload[0], t.subblk) {
      SkipInside(e.payload[0], t.subblk);
      assert bytes[Ones(e.payload[0], t.subblk)] == tim[enc.ptr + 1 + Ones(e.payload[0], t.subblk)];
    } else {
      ZeroBit(t.bit);
    }
  }

  lemma {:induction false} ZeroBit(k: nat)
    ensures !Bit(0, k)
  {
    if k > 0 {
      ZeroBit(k - 1);
    }
  }

  lemma ParseOlbRight(tim: seq<Byte>, enc: EncBlock, e: Encoded, aid: nat)
    requires Complete(e) && e.mode == MODE_OLB && PointsTo(tim, enc, e)
    requires Covers(e, TargetOf(aid).blk)
    ensures enc.ptr < |tim| && enc.ptr + tim[enc.ptr] < |tim|
    ensures enc.olbOffset <= TargetOf(aid).blk
    ensures ParseOlb(tim, enc, TargetOf(aid)) == Bitmap(e, TargetOf(aid).blk)[aid % 64]
  {
    hide Ones, Bit, LowBits, Bitmap;
    var t := TargetOf(aid);
    TargetBits(aid);
    BitmapAt(e, aid);
    assert tim[enc.ptr] == e.payload[0];
    var bytes := e.payload[1..];
    var i := 8 * (t.blk - e.offset) + t.subblk;
    assert PaddedOctets(bytes, 8 * (t.blk - e.offset))[t.subblk] == if i < |bytes| then bytes[i] else 0;
    if i < |bytes| {
      assert bytes[i] == tim[enc.ptr + 1 + i];
    } else {
      ZeroBit(t.bit);
    }
  }

  lemma ParseSingleRight(tim: seq<Byte>, enc: EncBlock, e: Encoded, aid: nat)
    requires Complete(e) && e.mode == MODE_SINGLE && PointsTo(tim, enc, e)
    requires Covers(e, TargetOf(aid).blk)
    ensures enc.ptr < |tim|
    ensures ParseSingle(tim, enc, TargetOf(aid)) == Bitmap(e, TargetOf(aid).blk)[aid % 64]
  {
    assert tim[enc.ptr] == e.payload[0];
  }

  /** ieee80211_s1g_check_tim. */
  method CheckTim(tim: seq<Byte>, aid: nat) returns (r: bool)
    ensures r == Announced(tim, aid)
  {
    hide Ones, Bit, LowBits, Bitmap, Covers, Complete, PointsTo, Decode, FirstCovering,
      ParseBitmap, ParseSingle, ParseOlb;
    if |tim| < MAP_OFFSET {
      return false;
    }
    var target := TargetOf(aid);
    var found := FindTargetBlock(tim, target.blk, MAP_OFFSET);
    if found.Failed? {
      return false;
    }
    ghost var e := FirstCovering(Decode(tim, MAP_OFFSET).0, target.blk).value;
    TargetBits(aid);
    ModesOf(tim, found.enc, e);
    if found.enc.mode == MODE_BLOCK {
      ParseBitmapRight(tim, found.enc, e, aid);
      r := ParseBitmap(tim, found.enc, target);
    } else if found.enc.mode == MODE_SINGLE {
      ParseSingleRight(tim, found.enc, e, aid);
      r := ParseSingle(tim, found.enc, target);
    } else {
      ParseOlbRight(tim, found.enc, e, aid);
      r := ParseOlb(tim, found.enc, target);
    }
  }

  lemma ModesOf(tim: seq<Byte>, enc: EncBlock, e: Encoded)
    requires Complete(e) && PointsTo(tim, enc, e)
    ensures enc.mode == e.mode && (e.mode == MODE_BLOCK || e.mode == MODE_SINGLE || e.mode == MODE_OLB)
  {
  }
}
