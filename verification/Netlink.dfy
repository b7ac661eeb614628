/**
 * Netlink attribute streams and what it means for one to be accepted by a
 * policy (compat/backport-5.2.c).  A stream is a sequence of bytes in host
 * order, taken as little-endian.
 */
module Netlink {
  import opened Wrappers

  const EINVAL := -22
  const ERANGE := -34

  type Byte = n: nat | n < 256

  const HDRLEN := 4

  // ---------------------------------------------------------------------
  // Attributes
  // ---------------------------------------------------------------------

  /** One attribute: where its header starts, its type field and its payload. */
  datatype Attr = Attr(pos: nat, nlaType: nat, payload: seq<Byte>)

  function AttrType(a: Attr): nat {
    a.nlaType % 0x4000
  }

  /** NLA_F_NESTED is set. */
  predicate IsNested(a: Attr) {
    a.nlaType / 0x8000 % 2 == 1
  }

  /** An unsigned number from the first n bytes. */
  function UnsignedValue(b: seq<Byte>, n: nat): nat
    requires n <= |b|
  {
    if n == 0 then 0 else b[0] + 256 * UnsignedValue(b[1..], n - 1)
  }

  function Align(n: nat): (r: nat)
    ensures n <= r < n + 4 && r % 4 == 0
  {
    (n + 3) / 4 * 4
  }

  /** nla_ok: a whole header and a whole attribute fit into what remains. */
  predicate AttrFits(data: seq<Byte>, p: nat) {
    p + HDRLEN <= |data| && HDRLEN <= UnsignedValue(data[p..], 2) <= |data| - p
  }

  function AttrAt(data: seq<Byte>, p: nat): (a: Attr)
    requires AttrFits(data, p)
    ensures |a.payload| + HDRLEN + p <= |data|
  {
    Attr(p, UnsignedValue(data[p + 2..], 2), data[p + HDRLEN..p + UnsignedValue(data[p..], 2)])
  }

  /** Where nla_next goes from the attribute at p; this may lie past the end. */
  function NextPos(data: seq<Byte>, p: nat): (q: nat)
    requires AttrFits(data, p)
    ensures q >= p + HDRLEN
  {
    p + Align(UnsignedValue(data[p..], 2))
  }

  /** The attributes that nla_for_each_attr visits from p on. */
  function Attrs(data: seq<Byte>, p: nat): (r: seq<Attr>)
    ensures forall a | a in r :: |a.payload| + HDRLEN <= |data|
    decreases |data| - p
  {
    if AttrFits(data, p) then [AttrAt(data, p)] + Attrs(data, NextPos(data, p)) else []
  }

  /** The bytes left when the loop ends; negative when only padding is missing. */
  function Leftover(data: seq<Byte>, p: nat): int
    decreases |data| - p
  {
    if AttrFits(data, p) then Leftover(data, NextPos(data, p)) else |data| - p
  }

  /** The position of the last attribute of type t. */
  function LastOf(attrs: seq<Attr>, t: nat): (r: Option<nat>)
    ensures r.None? <==> forall a | a in attrs :: AttrType(a) != t
    ensures r.Some? ==> exists k ::
      && 0 <= k < |attrs| && attrs[k].pos == r.value && AttrType(attrs[k]) == t
      && forall j | k < j < |attrs| :: AttrType(attrs[j]) != t
  {
    if attrs == [] then None
    else
      var last := attrs[|attrs| - 1];
      if AttrType(last) == t then Some(last.pos)
      else
        var front := attrs[..|attrs| - 1];
        assert forall a | a in attrs :: a in front || a == last;
        LastOf(front, t)
  }

  // ---------------------------------------------------------------------
  // Policies
  // ---------------------------------------------------------------------

  datatype Kind =
    | Unspec | U8 | U16 | U32 | U64 | String | Flag | Msecs | Nested | NestedArray | NulString
    | Binary | S8 | S16 | S32 | S64 | Bitfield32 | Reject | ExactLen | ExactLenWarn | MinLen

  datatype Validation = NoCheck | Range | AtLeast | AtMost | Function

  /** struct nla_policy, with the members of its union side by side. */
  datatype Policy = Policy(
    kind: Kind,
    validation: Validation,
    len: nat,
    nested: Option<nat>,
    mask: Option<bv32>,
    min: int,
    max: int,
    check: Option<Attr -> int>,
    strictStart: nat)

  /** All policy arrays; a nested policy names one of them, perhaps its own. */
  type Tables = seq<seq<Policy>>

  /** The byte size of an integer kind, 0 for the others: nla_attr_len. */
  function IntSize(k: Kind): nat {
    match k
    case U8 => 1 case S8 => 1
    case U16 => 2 case S16 => 2
    case U32 => 4 case S32 => 4
    case U64 => 8 case S64 => 8
    case _ => 0
  }

  /** nla_attr_minlen for the kinds that the default case of the switch meets. */
  function MinSize(k: Kind): nat {
    if k.Msecs? then 8 else IntSize(k)
  }

  predicate Ranged(pt: Policy) {
    pt.validation.Range? || pt.validation.AtLeast? || pt.validation.AtMost?
  }

  /**
   * A nested policy reaches into an existing array that covers its types; an
   * integer with limits, which is read, is not shorter than its own size.
   */
  ghost predicate WellFormed(tables: Tables) {
    forall t, i | 0 <= t < |tables| && 0 <= i < |tables[t]| ::
      && (tables[t][i].nested.Some? ==> HasTable(tables, tables[t][i].nested, tables[t][i].len))
      && (Ranged(tables[t][i]) ==> tables[t][i].len == 0 || IntSize(tables[t][i].kind) <= tables[t][i].len)
  }

  ghost predicate HasTable(tables: Tables, table: Option<nat>, maxtype: nat) {
    table.Some? ==> table.value < |tables| && maxtype < |tables[table.value]|
  }

  /** enum netlink_validation as a set of flags. */
  datatype Flags = Flags(trailing: bool, maxtype: bool, unspec: bool, strictAttrs: bool, nested: bool)

  const STRICT := Flags(true, true, true, true, true)

  ghost predicate Subset(f: Flags, g: Flags) {
    && (f.trailing ==> g.trailing) && (f.maxtype ==> g.maxtype) && (f.unspec ==> g.unspec)
    && (f.strictAttrs ==> g.strictAttrs) && (f.nested ==> g.nested)
  }

  // ---------------------------------------------------------------------
  // Checks of one attribute that need no recursion
  // ---------------------------------------------------------------------

  function SignedValue(v: nat, half: nat): int {
    if v < half then v else v - 2 * half
  }

  const TWO_64: nat := 0x1_0000_0000_0000_0000

  /** The conversion of a negative limit for the unsigned 64-bit comparison. */
  function AsU64(n: int): int {
    if n < 0 then n + TWO_64 else n
  }

  function IntValue(k: Kind, b: seq<Byte>): int
    requires IntSize(k) <= |b|
  {
    var v := UnsignedValue(b, IntSize(k));
    match k
    case S8 => SignedValue(v, 0x80)
    case S16 => SignedValue(v, 0x8000)
    case S32 => SignedValue(v, 0x8000_0000)
    case S64 => SignedValue(v, 0x8000_0000_0000_0000)
    case _ => v
  }

  /** nla_validate_int_range. */
  function RangeError(pt: Policy, b: seq<Byte>): int
    requires IntSize(pt.kind) <= |b|
  {
    if IntSize(pt.kind) == 0 then EINVAL
    else
      var low := pt.validation.Range? || pt.validation.AtLeast?;
      var high := pt.validation.Range? || pt.validation.AtMost?;
      var v := IntValue(pt.kind, b);
      var min, max := if pt.kind.U64? then AsU64(pt.min) else pt.min, if pt.kind.U64? then AsU64(pt.max) else pt.max;
      if (low && v < min) || (high && v > max) then ERANGE else 0
  }

  /** validate_nla_bitfield32 on a value and a selector. */
  function BitfieldError(mask: Option<bv32>, value: bv32, selector: bv32): int {
    if mask.None? then EINVAL
    else if selector & !mask.value != 0 then EINVAL
    else if value & !mask.value != 0 then EINVAL
    else if value & !selector != 0 then EINVAL
    else 0
  }

  function Word(b: seq<Byte>): bv32
    requires 4 <= |b|
  {
    (b[0] as bv32) | (b[1] as bv32 << 8) | (b[2] as bv32 << 16) | (b[3] as bv32 << 24)
  }

  /** The string cases: NLA_NUL_STRING falls through to NLA_STRING. */
  function StringError(pt: Policy, b: seq<Byte>): int {
    var n := |b|;
    var minlen := if pt.len > 0 && pt.len + 1 < n then pt.len + 1 else n;
    if pt.kind.NulString? && (minlen == 0 || 0 !in b[..minlen]) then EINVAL
    else if n < 1 then ERANGE
    else if pt.len > 0 && (if b[n - 1] == 0 then n - 1 else n) > pt.len then ERANGE
    else 0
  }

  /** The attribute's length is not the one its kind calls for. */
  predicate OddLength(pt: Policy, n: nat) {
    (IntSize(pt.kind) != 0 && n != IntSize(pt.kind)) || (pt.kind.ExactLenWarn? && n != pt.len)
  }

  predicate Nests(k: Kind) {
    k.Nested? || k.NestedArray?
  }

  /** The tests before the switch. */
  function HeaderError(pt: Policy, flags: Flags, a: Attr): int {
    if OddLength(pt, |a.payload|) && flags.strictAttrs then EINVAL
    else if flags.nested && Nests(pt.kind) && !IsNested(a) then EINVAL
    else if flags.nested && !Nests(pt.kind) && !pt.kind.Unspec? && IsNested(a) then EINVAL
    else 0
  }

  /** The switch on the kind, for the kinds that do not nest. */
  function KindError(pt: Policy, flags: Flags, b: seq<Byte>): int
    requires !Nests(pt.kind)
  {
    var n := |b|;
    match pt.kind
    case ExactLen => if n != pt.len then ERANGE else 0
    case Reject => EINVAL
    case Flag => if n > 0 then ERANGE else 0
    case Bitfield32 => if n != 8 then ERANGE else BitfieldError(pt.mask, Word(b), Word(b[4..]))
    case NulString => StringError(pt, b)
    case String => StringError(pt, b)
    case Binary => if pt.len > 0 && n > pt.len then ERANGE else 0
    case Unspec => if flags.unspec then EINVAL else if n < pt.len then ERANGE else 0
    case MinLen => if n < pt.len then ERANGE else 0
    case _ => if n < (if pt.len > 0 then pt.len else MinSize(pt.kind)) then ERANGE else 0
  }

  /** The switch on the validation type. */
  function FurtherError(pt: Policy, a: Attr): int
    requires Ranged(pt) ==> IntSize(pt.kind) <= |a.payload|
  {
    match pt.validation
    case NoCheck => 0
    case Function => if pt.check.Some? then pt.check.value(a) else 0
    case _ => RangeError(pt, a.payload)
  }

  lemma KindFits(tables: Tables, t: nat, i: nat, flags: Flags, b: seq<Byte>)
    requires WellFormed(tables) && t < |tables| && i < |tables[t]|
    ensures var pt := tables[t][i];
      && (pt.nested.Some? ==> HasTable(tables, pt.nested, pt.len))
      && (Ranged(pt) && !Nests(pt.kind) && KindError(pt, flags, b) == 0 ==> IntSize(pt.kind) <= |b|)
  {
    var pt := tables[t][i];
    assert Ranged(pt) ==> pt.len == 0 || IntSize(pt.kind) <= pt.len;
  }

  // ---------------------------------------------------------------------
  // What these checks mean
  // ---------------------------------------------------------------------

  predicate HasMin(pt: Policy) {
    pt.validation.Range? || pt.validation.AtLeast?
  }

  predicate HasMax(pt: Policy) {
    pt.validation.Range? || pt.validation.AtMost?
  }

  /** Limits are 16-bit numbers. */
  predicate LimitsInRange(pt: Policy) {
    -0x8000 <= pt.min < 0x8000 && -0x8000 <= pt.max < 0x8000
  }

  /** The value lies between the limits that apply. */
  predicate WithinLimits(pt: Policy, v: int) {
    (HasMin(pt) ==> pt.min <= v) && (HasMax(pt) ==> v <= pt.max)
  }

  /**
   * A limit of an unsigned 64-bit attribute that applies is negative, and does
   * not rule every value out together with a lower one above it.
   */
  predicate Misread(pt: Policy) {
    var low, high := HasMin(pt) && pt.min < 0, HasMax(pt) && pt.max < 0;
    pt.kind.U64? && ((low && !high) || (high && !(low && pt.min > pt.max)))
  }

  function Power256(n: nat): nat {
    if n == 0 then 1 else 256 * Power256(n - 1)
  }

  /** The bytes of a number. */
  function BytesOf(v: nat, n: nat): (r: seq<Byte>)
    ensures |r| == n
  {
    if n == 0 then [] else [v % 256] + BytesOf(v / 256, n - 1)
  }

  lemma {:induction false} BytesOfValue(v: nat, n: nat)
    requires v < Power256(n)
    ensures UnsignedValue(BytesOf(v, n), n) == v
  {
    if n > 0 {
      BytesOfValue(v / 256, n - 1);
      assert BytesOf(v, n)[1..] == BytesOf(v / 256, n - 1);
    }
  }

  lemma {:induction false} UnsignedBelow(b: seq<Byte>, n: nat)
    requires n <= |b|
    ensures UnsignedValue(b, n) < Power256(n)
  {
    if n > 0 {
      UnsignedBelow(b[1..], n - 1);
    }
  }

  lemma Power256Of8()
    ensures Power256(8) == TWO_64
  {
    assert Power256(4) == 0x1_0000_0000;
  }

  /** Without a misread limit the check accepts exactly the values within the limits. */
  lemma RangeAccepts(pt: Policy, b: seq<Byte>)
    requires 0 < IntSize(pt.kind) <= |b| && !Misread(pt) && Ranged(pt)
    requires LimitsInRange(pt)
    ensures RangeError(pt, b) == 0 <==> WithinLimits(pt, IntValue(pt.kind, b))
  {
    hide UnsignedValue;
    if pt.kind.U64? {
      UnsignedBelow(b, 8);
      Power256Of8();
    }
  }

  /** A value that a misread limit gets wrong. */
  function MisreadValue(pt: Policy): int {
    if HasMin(pt) && pt.min < 0 then (if HasMax(pt) && pt.max < 0 then TWO_64 + pt.min else 0)
    else if HasMin(pt) then pt.min else 0
  }

  lemma RangeMisreads(pt: Policy)
    requires Misread(pt) && Ranged(pt)
    requires LimitsInRange(pt)
    ensures 0 <= MisreadValue(pt) < TWO_64
    ensures var b := BytesOf(MisreadValue(pt), 8);
      !(RangeError(pt, b) == 0 <==> WithinLimits(pt, IntValue(pt.kind, b)))
  {
    hide UnsignedValue, BytesOf;
    Power256Of8();
    BytesOfValue(MisreadValue(pt), 8);
  }

  /** The limits of a policy mean what they say for every attribute if and only if none is misread. */
  lemma RangeExact(pt: Policy)
    requires Ranged(pt) && IntSize(pt.kind) > 0
    requires LimitsInRange(pt)
    ensures (forall b: seq<Byte> | IntSize(pt.kind) <= |b| ::
              RangeError(pt, b) == 0 <==> WithinLimits(pt, IntValue(pt.kind, b)))
        <==> !Misread(pt)
  {
    hide RangeError, IntValue, BytesOf;
    if Misread(pt) {
      RangeMisreads(pt);
      assert |BytesOf(MisreadValue(pt), 8)| == 8;
    } else {
      forall b: seq<Byte> | IntSize(pt.kind) <= |b|
        ensures RangeError(pt, b) == 0 <==> WithinLimits(pt, IntValue(pt.kind, b))
      {
        RangeAccepts(pt, b);
      }
    }
  }

  /** The string ends inside the payload, after at most `len` characters if a length is given. */
  ghost predicate Terminated(b: seq<Byte>, len: nat) {
    exists k | 0 <= k < |b| :: b[k] == 0 && (len > 0 ==> k <= len)
  }

  /** The characters of a string payload, a final NUL not counted. */
  function TextLength(b: seq<Byte>): nat {
    if b != [] && b[|b| - 1] == 0 then |b| - 1 else |b|
  }

  /** Only bits of the mask are selected, and only selected bits are set. */
  predicate BitsAllowed(mask: Option<bv32>, value: bv32, selector: bv32) {
    mask.Some? && value & !selector == 0 && selector & !mask.value == 0 && value & !mask.value == 0
  }

  /** What a reader of an attribute of this kind can rely on. */
  ghost predicate Fits(pt: Policy, b: seq<Byte>)
    requires !Nests(pt.kind)
  {
    match pt.kind
    case Reject => false
    case Flag => b == []
    case ExactLen => |b| == pt.len
    case Binary => pt.len > 0 ==> |b| <= pt.len
    case Bitfield32 => |b| == 8 && BitsAllowed(pt.mask, Word(b), Word(b[4..]))
    case NulString => Terminated(b, pt.len) && (pt.len > 0 ==> TextLength(b) <= pt.len)
    case String => b != [] && (pt.len > 0 ==> TextLength(b) <= pt.len)
    case Unspec => |b| >= pt.len
    case MinLen => |b| >= pt.len
    case _ => |b| >= if pt.len > 0 then pt.len else MinSize(pt.kind)
  }

  lemma StringFits(pt: Policy, b: seq<Byte>)
    ensures pt.kind.NulString? ==>
      (StringError(pt, b) == 0 <==> Terminated(b, pt.len) && (pt.len > 0 ==> TextLength(b) <= pt.len))
    ensures pt.kind.String? ==>
      (StringError(pt, b) == 0 <==> b != [] && (pt.len > 0 ==> TextLength(b) <= pt.len))
  {
    var n := |b|;
    var minlen := if pt.len > 0 && pt.len + 1 < n then pt.len + 1 else n;
    if 0 in b[..minlen] {
      var k :| 0 <= k < minlen && b[..minlen][k] == 0;
      assert b[k] == 0;
    }
    if k :| 0 <= k < |b| && b[k] == 0 && (pt.len > 0 ==> k <= pt.len) {
      assert b[..minlen][k] == 0;
    }
  }

  /** An attribute passes the switch if and only if it fits its policy and its kind is allowed at all. */
  lemma KindAccepted(pt: Policy, flags: Flags, b: seq<Byte>)
    requires !Nests(pt.kind)
    ensures KindError(pt, flags, b) == 0 <==> Fits(pt, b) && !(pt.kind.Unspec? && flags.unspec)
  {
    hide StringError, Terminated, TextLength, Word, BitfieldError, BitsAllowed;
    StringFits(pt, b);
    if |b| == 8 {
      BitfieldFits(pt.mask, Word(b), Word(b[4..]));
    }
  }

  lemma BitfieldFits(mask: Option<bv32>, value: bv32, selector: bv32)
    ensures BitfieldError(mask, value, selector) == 0 <==> BitsAllowed(mask, value, selector)
  {
  }

  // ---------------------------------------------------------------------
  // Acceptance
  // ---------------------------------------------------------------------

  /** The flags that apply to an attribute: strict from strict_start_type on. */
  function FlagsFor(policy: seq<Policy>, flags: Flags, t: nat): Flags
    requires policy != []
  {
    if policy[0].strictStart > 0 && t >= policy[0].strictStart then STRICT else flags
  }

  /** The first error of validate_nla, or what the policy's own check returns. */
  function AttrError(tables: Tables, table: nat, maxtype: nat, flags: Flags, a: Attr): int
    requires WellFormed(tables) && HasTable(tables, Some(table), maxtype)
    decreases |a.payload|, 2, 0
  {
    var t := AttrType(a);
    if t == 0 || t > maxtype then 0
    else
      var f, pt := FlagsFor(tables[table], flags, t), tables[table][t];
      KindFits(tables, table, t, f, a.payload);
      var header := HeaderError(pt, f, a);
      if header != 0 then header
      else
        var err := if Nests(pt.kind) then NestError(tables, pt, f, a) else KindError(pt, f, a.payload);
        if err < 0 then err else FurtherError(pt, a)
  }

  /** The nested cases: empty, too short, or checked against the inner policy. */
  function NestError(tables: Tables, pt: Policy, flags: Flags, a: Attr): int
    requires WellFormed(tables) && Nests(pt.kind) && HasTable(tables, pt.nested, pt.len)
    decreases |a.payload|, 1, 0
  {
    if a.payload == [] then 0
    else if |a.payload| < HDRLEN then ERANGE
    else if pt.nested.None? then 0
    else if pt.kind.Nested? then StreamError(tables, pt.nested, pt.len, flags, a.payload, 0)
    else ArrayError(tables, pt.nested, pt.len, flags, a.payload, 0)
  }

  /** The first error among the elements of a nested array. */
  function ArrayError(tables: Tables, table: Option<nat>, maxtype: nat, flags: Flags, data: seq<Byte>, p: nat): (r: int)
    requires WellFormed(tables) && HasTable(tables, table, maxtype)
    ensures r <= 0
    decreases |data|, 0, |data| - p
  {
    if !AttrFits(data, p) then 0
    else
      var a := AttrAt(data, p);
      var err := if a.payload == [] then 0
        else if |a.payload| < HDRLEN then ERANGE
        else StreamError(tables, table, maxtype, flags, a.payload, 0);
      if err < 0 then err else ArrayError(tables, table, maxtype, flags, data, NextPos(data, p))
  }

  /** The first error of a stream from p on. */
  function StreamError(tables: Tables, table: Option<nat>, maxtype: nat, flags: Flags, data: seq<Byte>, p: nat): (r: int)
    requires WellFormed(tables) && HasTable(tables, table, maxtype)
    ensures r <= 0
    decreases |data|, 0, |data| - p
  {
    if !AttrFits(data, p) then (if |data| - p > 0 && flags.trailing then EINVAL else 0)
    else
      var err := EntryError(tables, table, maxtype, flags, AttrAt(data, p));
      if err < 0 then err else StreamError(tables, table, maxtype, flags, data, NextPos(data, p))
  }

  /** The error of one attribute of a stream, for a type out of range or by its policy. */
  function EntryError(tables: Tables, table: Option<nat>, maxtype: nat, flags: Flags, a: Attr): int
    requires WellFormed(tables) && HasTable(tables, table, maxtype)
    decreases |a.payload|, 3, 0
  {
    if AttrType(a) == 0 || AttrType(a) > maxtype then (if flags.maxtype then EINVAL else 0)
    else if table.None? then 0
    else AttrError(tables, table.value, maxtype, flags, a)
  }

  // ---------------------------------------------------------------------
  // What acceptance means
  // ---------------------------------------------------------------------

  /** A stream is accepted when each of its attributes is and no bytes are left over. */
  lemma {:induction false} StreamAccepted(tables: Tables, table: Option<nat>, maxtype: nat, flags: Flags, data: seq<Byte>, p: nat)
    requires WellFormed(tables) && HasTable(tables, table, maxtype)
    ensures StreamError(tables, table, maxtype, flags, data, p) == 0 <==>
      && (forall a | a in Attrs(data, p) :: EntryError(tables, table, maxtype, flags, a) >= 0)
      && !(flags.trailing && Leftover(data, p) > 0)
    decreases |data| - p
  {
    hide WellFormed, HasTable, EntryError, AttrFits, AttrAt;
    if AttrFits(data, p) {
      var a, q := AttrAt(data, p), NextPos(data, p);
      assert Attrs(data, p) == [a] + Attrs(data, q);
      assert a in Attrs(data, p);
      assert forall b | b in Attrs(data, p) :: b == a || b in Attrs(data, q);
      assert forall b | b in Attrs(data, q) :: b in Attrs(data, p);
      StreamAccepted(tables, table, maxtype, flags, data, q);
    }
  }

  lemma {:induction false} ArrayAccepted(tables: Tables, table: Option<nat>, maxtype: nat, flags: Flags, data: seq<Byte>, p: nat)
    requires WellFormed(tables) && HasTable(tables, table, maxtype)
    ensures ArrayError(tables, table, maxtype, flags, data, p) == 0 <==>
      forall a | a in Attrs(data, p) && a.payload != [] ::
        |a.payload| >= HDRLEN && StreamError(tables, table, maxtype, flags, a.payload, 0) == 0
    decreases |data| - p
  {
    hide WellFormed, HasTable, StreamError, AttrFits, AttrAt;
    if AttrFits(data, p) {
      var a, q := AttrAt(data, p), NextPos(data, p);
      assert Attrs(data, p) == [a] + Attrs(data, q);
      assert a in Attrs(data, p);
      assert forall b | b in Attrs(data, p) :: b == a || b in Attrs(data, q);
      assert forall b | b in Attrs(data, q) :: b in Attrs(data, p);
      ArrayAccepted(tables, table, maxtype, flags, data, q);
    }
  }

  /** A stream accepted under some flags is accepted under every subset of them. */
  lemma {:induction false} StreamMonotone(tables: Tables, table: Option<nat>, maxtype: nat, f: Flags, g: Flags, data: seq<Byte>)
    requires WellFormed(tables) && HasTable(tables, table, maxtype) && Subset(f, g)
    requires StreamError(tables, table, maxtype, g, data, 0) == 0
    ensures StreamError(tables, table, maxtype, f, data, 0) == 0
    decreases |data|, 0
  {
    hide WellFormed, HasTable, StreamError, EntryError;
    StreamAccepted(tables, table, maxtype, f, data, 0);
    StreamAccepted(tables, table, maxtype, g, data, 0);
    forall a | a in Attrs(data, 0) ensures EntryError(tables, table, maxtype, f, a) >= 0 {
      EntryMonotone(tables, table, maxtype, f, g, a);
    }
  }

  lemma {:induction false} EntryMonotone(tables: Tables, table: Option<nat>, maxtype: nat, f: Flags, g: Flags, a: Attr)
    requires WellFormed(tables) && HasTable(tables, table, maxtype) && Subset(f, g)
    requires EntryError(tables, table, maxtype, g, a) >= 0
    ensures EntryError(tables, table, maxtype, f, a) >= 0
    decreases |a.payload|, 3
  {
    hide WellFormed, AttrError;
    if table.Some? && 0 < AttrType(a) <= maxtype {
      AttrMonotone(tables, table.value, maxtype, f, g, a);
    }
  }

  /** Fewer flags do not change the result for an attribute that is not rejected. */
  lemma {:induction false} AttrMonotone(tables: Tables, table: nat, maxtype: nat, f: Flags, g: Flags, a: Attr)
    requires WellFormed(tables) && HasTable(tables, Some(table), maxtype) && Subset(f, g)
    requires AttrError(tables, table, maxtype, g, a) >= 0
    ensures AttrError(tables, table, maxtype, f, a) == AttrError(tables, table, maxtype, g, a)
    decreases |a.payload|, 2
  {
    hide WellFormed, HeaderError, KindError, NestError, FurtherError;
    var t := AttrType(a);
    if 0 < t <= maxtype {
      var f', g', pt := FlagsFor(tables[table], f, t), FlagsFor(tables[table], g, t), tables[table][t];
      KindFits(tables, table, t, f', a.payload);
      KindFits(tables, table, t, g', a.payload);
      HeaderMonotone(pt, f', g', a);
      if Nests(pt.kind) {
        NestMonotone(tables, pt, f', g', a);
      } else {
        KindMonotone(pt, f', g', a.payload);
      }
    }
  }

  lemma HeaderMonotone(pt: Policy, f: Flags, g: Flags, a: Attr)
    requires Subset(f, g)
    ensures HeaderError(pt, g, a) <= 0
    ensures HeaderError(pt, g, a) == 0 ==> HeaderError(pt, f, a) == 0
  {
  }

  lemma KindMonotone(pt: Policy, f: Flags, g: Flags, b: seq<Byte>)
    requires Subset(f, g) && !Nests(pt.kind)
    ensures KindError(pt, g, b) <= 0
    ensures KindError(pt, g, b) == 0 ==> KindError(pt, f, b) == 0
  {
    hide StringError, BitfieldError, Word;
    StringErrorSign(pt, b);
    if |b| == 8 {
      BitfieldSign(pt.mask, Word(b), Word(b[4..]));
    }
  }

  lemma StringErrorSign(pt: Policy, b: seq<Byte>)
    ensures StringError(pt, b) <= 0
  {
  }

  lemma BitfieldSign(mask: Option<bv32>, value: bv32, selector: bv32)
    ensures BitfieldError(mask, value, selector) <= 0
  {
  }

  lemma {:induction false} NestMonotone(tables: Tables, pt: Policy, f: Flags, g: Flags, a: Attr)
    requires WellFormed(tables) && Nests(pt.kind) && HasTable(tables, pt.nested, pt.len) && Subset(f, g)
    ensures NestError(tables, pt, g, a) <= 0
    ensures NestError(tables, pt, g, a) == 0 ==> NestError(tables, pt, f, a) == 0
    decreases |a.payload|, 1
  {
    hide WellFormed, HasTable, StreamError, ArrayError;
    if |a.payload| >= HDRLEN && pt.nested.Some? && NestError(tables, pt, g, a) == 0 {
      if pt.kind.Nested? {
        StreamMonotone(tables, pt.nested, pt.len, f, g, a.payload);
      } else {
        ArrayAccepted(tables, pt.nested, pt.len, f, a.payload, 0);
        ArrayAccepted(tables, pt.nested, pt.len, g, a.payload, 0);
        forall e | e in Attrs(a.payload, 0) && e.payload != []
          ensures |e.payload| >= HDRLEN && StreamError(tables, pt.nested, pt.len, f, e.payload, 0) == 0
        {
          StreamMonotone(tables, pt.nested, pt.len, f, g, e.payload);
        }
      }
    }
  }

  /** An integer with limits, none of them misread, lies within them. */
  predicate LimitsKept(pt: Policy, b: seq<Byte>) {
    Ranged(pt) && IntSize(pt.kind) > 0 && LimitsInRange(pt) && !Misread(pt) ==>
      IntSize(pt.kind) <= |b| && WithinLimits(pt, IntValue(pt.kind, b))
  }

  lemma AcceptedWithinLimits(pt: Policy, a: Attr)
    requires Ranged(pt) ==> IntSize(pt.kind) <= |a.payload|
    requires FurtherError(pt, a) >= 0
    ensures LimitsKept(pt, a.payload)
  {
    hide IntValue, Misread;
    if Ranged(pt) && IntSize(pt.kind) > 0 && LimitsInRange(pt) && !Misread(pt) {
      RangeAccepts(pt, a.payload);
    }
  }
}
