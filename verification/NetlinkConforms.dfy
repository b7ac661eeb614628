/**
 * What it means that compat/backport-5.2.c accepts an attribute or a stream,
 * without the order of its checks, and how attributes are laid out in a stream.
 */
module NetlinkConforms {
  import opened Wrappers
  import opened Netlink

  // ---------------------------------------------------------------------
  // Conforming attributes
  // ---------------------------------------------------------------------

  /** The attribute is of a type from which on the policy array is strict. */
  predicate FromStrictStart(policy: seq<Policy>, t: nat)
    requires policy != []
  {
    0 < policy[0].strictStart <= t
  }

  /** An integer has its own size and an exact length is kept. */
  predicate LengthExact(pt: Policy, n: nat) {
    (IntSize(pt.kind) > 0 ==> n == IntSize(pt.kind)) && (pt.kind.ExactLenWarn? ==> n == pt.len)
  }

  /** NLA_F_NESTED is set on what nests and on nothing else; an unspecified attribute is free. */
  predicate NestedMarked(pt: Policy, a: Attr) {
    pt.kind.Unspec? || (IsNested(a) <==> pt.kind.Nested? || pt.kind.NestedArray?)
  }

  /** A limit of an unsigned 64-bit attribute is compared as an unsigned number. */
  function Limit(k: Kind, n: int): int {
    if k.U64? && n < 0 then TWO_64 + n else n
  }

  /** The policy's own check agrees, and limits are those of an integer within them. */
  ghost predicate Validated(pt: Policy, a: Attr) {
    && (pt.validation.Function? && pt.check.Some? ==> pt.check.value(a) >= 0)
    && (Ranged(pt) ==>
          && 0 < IntSize(pt.kind) <= |a.payload|
          && (HasMin(pt) ==> Limit(pt.kind, pt.min) <= IntValue(pt.kind, a.payload))
          && (HasMax(pt) ==> IntValue(pt.kind, a.payload) <= Limit(pt.kind, pt.max)))
  }

  /** What acceptance of an attribute says about it, down through all nesting. */
  ghost predicate Conforms(tables: Tables, table: nat, maxtype: nat, flags: Flags, a: Attr)
    requires WellFormed(tables) && HasTable(tables, Some(table), maxtype)
    decreases |a.payload|, 2
  {
    var t := AttrType(a);
    0 < t <= maxtype ==>
      var pt, strict := tables[table][t], FromStrictStart(tables[table], t);
      && (strict || flags.strictAttrs ==> LengthExact(pt, |a.payload|))
      && (strict || flags.nested ==> NestedMarked(pt, a))
      && (strict || flags.unspec ==> !pt.kind.Unspec?)
      && Validated(pt, a)
      && if Nests(pt.kind) then
           assert pt.nested.Some? ==> HasTable(tables, pt.nested, pt.len);
           NestConforms(tables, pt, if strict then STRICT else flags, a.payload)
         else Fits(pt, a.payload)
  }

  /** What nests is empty or holds a stream, or elements that are empty or hold one. */
  ghost predicate NestConforms(tables: Tables, pt: Policy, flags: Flags, data: seq<Byte>)
    requires WellFormed(tables) && HasTable(tables, pt.nested, pt.len)
    decreases |data|, 1
  {
    data == [] || (|data| >= HDRLEN && (pt.nested.Some? ==>
      if pt.kind.Nested? then StreamConforms(tables, pt.nested, pt.len, flags, data)
      else forall e | e in Attrs(data, 0) && e.payload != [] ::
             |e.payload| >= HDRLEN && StreamConforms(tables, pt.nested, pt.len, flags, e.payload)))
  }

  ghost predicate StreamConforms(tables: Tables, table: Option<nat>, maxtype: nat, flags: Flags, data: seq<Byte>)
    requires WellFormed(tables) && HasTable(tables, table, maxtype)
    decreases |data|, 0
  {
    && (flags.trailing ==> Leftover(data, 0) <= 0)
    && (forall a | a in Attrs(data, 0) :: EntryConforms(tables, table, maxtype, flags, a))
  }

  ghost predicate EntryConforms(tables: Tables, table: Option<nat>, maxtype: nat, flags: Flags, a: Attr)
    requires WellFormed(tables) && HasTable(tables, table, maxtype)
    decreases |a.payload|, 3
  {
    && (flags.maxtype ==> 0 < AttrType(a) <= maxtype)
    && (table.Some? ==> Conforms(tables, table.value, maxtype, flags, a))
  }

  lemma HeaderAccepted(policy: seq<Policy>, pt: Policy, flags: Flags, a: Attr, t: nat)
    requires policy != []
    ensures var f, strict := FlagsFor(policy, flags, t), FromStrictStart(policy, t);
      && f == (if strict then STRICT else flags)
      && (HeaderError(pt, f, a) == 0 <==>
            && (strict || flags.strictAttrs ==> LengthExact(pt, |a.payload|))
            && (strict || flags.nested ==> NestedMarked(pt, a)))
      && (HeaderError(pt, f, a) == 0 || HeaderError(pt, f, a) == EINVAL)
  {
    hide IsNested;
  }

  lemma FurtherAccepted(pt: Policy, a: Attr)
    requires Ranged(pt) ==> IntSize(pt.kind) <= |a.payload|
    ensures FurtherError(pt, a) >= 0 <==> Validated(pt, a)
  {
    hide IntValue;
  }

  /** An attribute is accepted if and only if it conforms. */
  lemma {:induction false} ConformsExact(tables: Tables, table: nat, maxtype: nat, flags: Flags, a: Attr)
    requires WellFormed(tables) && HasTable(tables, Some(table), maxtype)
    ensures AttrError(tables, table, maxtype, flags, a) >= 0 <==> Conforms(tables, table, maxtype, flags, a)
    decreases |a.payload|, 2
  {
    hide WellFormed, HeaderError, KindError, NestError, FurtherError, Fits, NestConforms, Validated, LengthExact,
      NestedMarked, FlagsFor, FromStrictStart, Ranged, IsNested;
    var t := AttrType(a);
    if 0 < t <= maxtype {
      var f, pt := FlagsFor(tables[table], flags, t), tables[table][t];
      KindFits(tables, table, t, f, a.payload);
      HeaderAccepted(tables[table], pt, flags, a, t);
      if Nests(pt.kind) {
        NestConformsExact(tables, pt, f, a);
        NestedRange(pt);
        FurtherAccepted(pt, a);
      } else {
        KindAccepted(pt, f, a.payload);
        KindMonotone(pt, f, f, a.payload);
        KindThenFurther(tables, table, t, f, a);
      }
    }
  }

  lemma NestedRange(pt: Policy)
    requires Nests(pt.kind)
    ensures IntSize(pt.kind) == 0 && !pt.kind.Unspec?
  {
  }

  lemma KindThenFurther(tables: Tables, table: nat, t: nat, flags: Flags, a: Attr)
    requires WellFormed(tables) && table < |tables| && t < |tables[table]| && !Nests(tables[table][t].kind)
    ensures var pt := tables[table][t];
      KindError(pt, flags, a.payload) == 0 ==>
        (Ranged(pt) ==> IntSize(pt.kind) <= |a.payload|) && (FurtherError(pt, a) >= 0 <==> Validated(pt, a))
  {
    hide WellFormed, KindError, FurtherError, Validated;
    var pt := tables[table][t];
    KindFits(tables, table, t, flags, a.payload);
    if KindError(pt, flags, a.payload) == 0 {
      FurtherAccepted(pt, a);
    }
  }

  lemma {:induction false} NestConformsExact(tables: Tables, pt: Policy, flags: Flags, a: Attr)
    requires WellFormed(tables) && Nests(pt.kind) && HasTable(tables, pt.nested, pt.len)
    ensures NestError(tables, pt, flags, a) <= 0
    ensures NestError(tables, pt, flags, a) == 0 <==> NestConforms(tables, pt, flags, a.payload)
    decreases |a.payload|, 1
  {
    hide WellFormed, HasTable, StreamError, ArrayError, StreamConforms;
    if |a.payload| >= HDRLEN && pt.nested.Some? {
      if pt.kind.Nested? {
        StreamConformsExact(tables, pt.nested, pt.len, flags, a.payload);
      } else {
        ArrayAccepted(tables, pt.nested, pt.len, flags, a.payload, 0);
        forall e | e in Attrs(a.payload, 0)
          ensures StreamError(tables, pt.nested, pt.len, flags, e.payload, 0) == 0
             <==> StreamConforms(tables, pt.nested, pt.len, flags, e.payload)
        {
          StreamConformsExact(tables, pt.nested, pt.len, flags, e.payload);
        }
      }
    }
  }

  /** A stream is accepted if and only if it conforms. */
  lemma {:induction false} StreamConformsExact(tables: Tables, table: Option<nat>, maxtype: nat, flags: Flags, data: seq<Byte>)
    requires WellFormed(tables) && HasTable(tables, table, maxtype)
    ensures StreamError(tables, table, maxtype, flags, data, 0) == 0 <==> StreamConforms(tables, table, maxtype, flags, data)
    decreases |data|, 0
  {
    hide WellFormed, HasTable, StreamError, EntryError, EntryConforms, Attrs, Leftover, AttrFits;
    var attrs := Attrs(data, 0);
    StreamAccepted(tables, table, maxtype, flags, data, 0);
    if StreamConforms(tables, table, maxtype, flags, data) {
      forall a | a in attrs
        ensures EntryError(tables, table, maxtype, flags, a) >= 0
      {
        assert EntryConforms(tables, table, maxtype, flags, a);
        EntryConformsExact(tables, table, maxtype, flags, a);
      }
    }
    if StreamError(tables, table, maxtype, flags, data, 0) == 0 {
      forall a | a in attrs
        ensures EntryConforms(tables, table, maxtype, flags, a)
      {
        assert EntryError(tables, table, maxtype, flags, a) >= 0;
        EntryConformsExact(tables, table, maxtype, flags, a);
      }
    }
  }

  lemma {:induction false} EntryConformsExact(tables: Tables, table: Option<nat>, maxtype: nat, flags: Flags, a: Attr)
    requires WellFormed(tables) && HasTable(tables, table, maxtype)
    ensures EntryError(tables, table, maxtype, flags, a) >= 0 <==> EntryConforms(tables, table, maxtype, flags, a)
    decreases |a.payload|, 3
  {
    hide WellFormed, AttrError;
    if table.Some? {
      ConformsExact(tables, table.value, maxtype, flags, a);
    }
  }

  /** Every attribute of an accepted stream conforms, and its limits mean what they say unless one is misread. */
  lemma AcceptedConforms(tables: Tables, table: nat, maxtype: nat, flags: Flags, data: seq<Byte>, a: Attr)
    requires WellFormed(tables) && HasTable(tables, Some(table), maxtype)
    requires StreamError(tables, Some(table), maxtype, flags, data, 0) == 0 && a in Attrs(data, 0)
    ensures Conforms(tables, table, maxtype, flags, a)
    ensures 0 < AttrType(a) <= maxtype ==> LimitsKept(tables[table][AttrType(a)], a.payload)
  {
    hide WellFormed, StreamError, Fits, NestConforms, LengthExact, NestedMarked, FromStrictStart, LimitsKept;
    StreamConformsExact(tables, Some(table), maxtype, flags, data);
    assert EntryConforms(tables, Some(table), maxtype, flags, a);
    if 0 < AttrType(a) <= maxtype {
      var pt := tables[table][AttrType(a)];
      FurtherAccepted(pt, a);
      AcceptedWithinLimits(pt, a);
    }
  }

  /** Which error the switch gives: EINVAL for what is never right, ERANGE for a length. */
  lemma KindErrorCode(pt: Policy, flags: Flags, b: seq<Byte>)
    requires !Nests(pt.kind) && KindError(pt, flags, b) != 0
    ensures KindError(pt, flags, b) == EINVAL || KindError(pt, flags, b) == ERANGE
    ensures KindError(pt, flags, b) == EINVAL <==>
      || pt.kind.Reject? || (pt.kind.Unspec? && flags.unspec)
      || (pt.kind.Bitfield32? && |b| == 8) || (pt.kind.NulString? && !Terminated(b, pt.len))
  {
    hide Word, Terminated, TextLength;
    if pt.kind.NulString? {
      Unterminated(pt, b);
    }
  }

  lemma Unterminated(pt: Policy, b: seq<Byte>)
    requires pt.kind.NulString?
    ensures StringError(pt, b) == EINVAL <==> !Terminated(b, pt.len)
  {
    var n := |b|;
    var minlen := if pt.len > 0 && pt.len + 1 < n then pt.len + 1 else n;
    if 0 in b[..minlen] {
      var k :| 0 <= k < minlen && b[..minlen][k] == 0;
      assert b[k] == 0;
    }
    if k :| 0 <= k < |b| && b[k] == 0 && (pt.len > 0 ==> k <= pt.len) {
      assert b[..minlen][k] == 0;
    }
  }

  // ---------------------------------------------------------------------
  // Layout
  // ---------------------------------------------------------------------

  /** An attribute in a stream: length and type in two bytes each, the payload, and padding. */
  function Encoded(a: Attr): (r: seq<Byte>)
    ensures |r| == Align(HDRLEN + |a.payload|)
  {
    var len := HDRLEN + |a.payload|;
    BytesOf(len, 2) + BytesOf(a.nlaType, 2) + a.payload + seq(Align(len) - len, _ => 0)
  }

  function EncodedAll(attrs: seq<Attr>): seq<Byte> {
    if attrs == [] then [] else Encoded(attrs[0]) + EncodedAll(attrs[1..])
  }

  /** The attributes stand one after the other from p on, each on a multiple of four bytes after the one before. */
  ghost predicate PlacedFrom(attrs: seq<Attr>, p: nat) {
    attrs != [] ==>
      && attrs[0].pos == p && attrs[0].nlaType < 0x1_0000 && HDRLEN + |attrs[0].payload| < 0x1_0000
      && PlacedFrom(attrs[1..], p + Align(HDRLEN + |attrs[0].payload|))
  }

  lemma TwoBytes(v: nat, rest: seq<Byte>)
    requires v < 0x1_0000
    ensures UnsignedValue(BytesOf(v, 2) + rest, 2) == v
  {
    var b := BytesOf(v, 2) + rest;
    assert BytesOf(v, 2) == [v % 256, v / 256 % 256];
    assert b[0] == v % 256 && b[1..][0] == v / 256 % 256;
    assert UnsignedValue(b, 2) == b[0] + 256 * UnsignedValue(b[1..], 1);
    assert UnsignedValue(b[1..], 1) == b[1..][0];
  }

  /** The attribute that was written is the one that is read. */
  lemma ReadsEncoded(pre: seq<Byte>, a: Attr, post: seq<Byte>)
    requires a.pos == |pre| && a.nlaType < 0x1_0000 && HDRLEN + |a.payload| < 0x1_0000
    ensures var data := pre + Encoded(a) + post;
      && AttrFits(data, |pre|) && AttrAt(data, |pre|) == a
      && NextPos(data, |pre|) == |pre| + |Encoded(a)|
  {
    hide BytesOf, UnsignedValue, Align;
    var data, p, len := pre + Encoded(a) + post, |pre|, HDRLEN + |a.payload|;
    var tail := seq(Align(len) - len, _ => 0) + post;
    assert data[p..] == BytesOf(len, 2) + (BytesOf(a.nlaType, 2) + a.payload + tail);
    TwoBytes(len, BytesOf(a.nlaType, 2) + a.payload + tail);
    assert data[p + 2..] == BytesOf(a.nlaType, 2) + (a.payload + tail);
    TwoBytes(a.nlaType, a.payload + tail);
    assert data[p + HDRLEN..p + len] == a.payload;
  }

  /** Reading undoes writing: the loop visits exactly the attributes written, and nothing is left over. */
  lemma {:induction false} StreamRoundTrip(pre: seq<Byte>, attrs: seq<Attr>)
    requires PlacedFrom(attrs, |pre|)
    ensures Attrs(pre + EncodedAll(attrs), |pre|) == attrs
    ensures Leftover(pre + EncodedAll(attrs), |pre|) == 0
    decreases |attrs|
  {
    hide Encoded, AttrAt;
    var data := pre + EncodedAll(attrs);
    if attrs != [] {
      var a, rest := attrs[0], EncodedAll(attrs[1..]);
      assert data == pre + Encoded(a) + rest;
      ReadsEncoded(pre, a, rest);
      StreamRoundTrip(pre + Encoded(a), attrs[1..]);
      assert attrs == [a] + attrs[1..];
    }
  }
}
