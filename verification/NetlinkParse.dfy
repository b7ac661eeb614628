/**
 * The validating parser of compat/backport-5.2.c: loops over attributes with a
 * cursor and a remainder, and three mutually recursive routines for nesting.
 */
module NetlinkParse {
  import opened Wrappers
  import opened Netlink
  import opened NetlinkConforms

  /** nla_validate_int_range. */
  method ValidateIntRange(pt: Policy, a: Attr) returns (ret: int)
    requires IntSize(pt.kind) <= |a.payload|
    ensures ret == RangeError(pt, a.payload)
  {
    hide IntValue;
    var validateMin := pt.validation.Range? || pt.validation.AtLeast?;
    var validateMax := pt.validation.Range? || pt.validation.AtMost?;
    if pt.kind.U64? {
      var value := IntValue(pt.kind, a.payload);
      if (validateMin && value < AsU64(pt.min)) || (validateMax && value > AsU64(pt.max)) {
        return ERANGE;
      }
      return 0;
    }
    if IntSize(pt.kind) == 0 {
      return EINVAL;
    }
    var value := IntValue(pt.kind, a.payload);
    if (validateMin && value < pt.min) || (validateMax && value > pt.max) {
      return ERANGE;
    }
    return 0;
  }

  /** memchr(data, 0, n). */
  method HasNul(b: seq<Byte>, n: nat) returns (found: bool)
    requires n <= |b|
    ensures found <==> 0 in b[..n]
  {
    var i := 0;
    while i < n
      invariant i <= n
      invariant 0 !in b[..i]
    {
      if b[i] == 0 {
        assert b[..n][i] == 0;
        return true;
      }
      assert b[..i + 1] == b[..i] + [b[i]];
      i := i + 1;
    }
    return false;
  }

  /** The string cases of validate_nla; attrlen shrinks by a final NUL. */
  method ValidateString(pt: Policy, b: seq<Byte>) returns (err: int)
    requires pt.kind.NulString? || pt.kind.String?
    ensures err == StringError(pt, b)
  {
    var attrlen := |b|;
    if pt.kind.NulString? {
      var minlen := attrlen;
      if pt.len > 0 {
        minlen := if attrlen < pt.len + 1 then attrlen else pt.len + 1;
      }
      var found := HasNul(b, minlen);
      if minlen == 0 || !found {
        return EINVAL;
      }
    }
    if attrlen < 1 {
      return ERANGE;
    }
    if pt.len > 0 {
      if b[attrlen - 1] == 0 {
        attrlen := attrlen - 1;
      }
      if attrlen > pt.len {
        return ERANGE;
      }
    }
    return 0;
  }

  /** The switch of validate_nla for the kinds that do not nest. */
  method ValidateKind(pt: Policy, flags: Flags, b: seq<Byte>) returns (err: int)
    requires !Nests(pt.kind)
    ensures err == KindError(pt, flags, b)
  {
    hide Word, BitfieldError, StringError;
    var attrlen, minlen := |b|, 0;
    err := ERANGE;
    match pt.kind {
      case ExactLen =>
        if attrlen != pt.len { return; }
      case Reject =>
        return EINVAL;
      case Flag =>
        if attrlen > 0 { return; }
      case Bitfield32 =>
        if attrlen != 8 { return; }
        err := BitfieldError(pt.mask, Word(b), Word(b[4..]));
        return;
      case NulString =>
        err := ValidateString(pt, b);
        return;
      case String =>
        err := ValidateString(pt, b);
        return;
      case Binary =>
        if pt.len > 0 && attrlen > pt.len { return; }
      case Unspec =>
        if flags.unspec { return EINVAL; }
        if attrlen < pt.len { return; }
      case MinLen =>
        if attrlen < pt.len { return; }
      case _ =>
        minlen := if pt.len > 0 then pt.len else MinSize(pt.kind);
        if attrlen < minlen { return; }
    }
    return 0;
  }

  /** validate_nla. */
  method ValidateNla(tables: Tables, table: nat, maxtype: nat, validate: Flags, a: Attr) returns (ret: int)
    requires WellFormed(tables) && HasTable(tables, Some(table), maxtype)
    ensures ret == AttrError(tables, table, maxtype, validate, a)
    ensures ret >= 0 <==> Conforms(tables, table, maxtype, validate, a)
    decreases |a.payload|, 2
  {
    hide WellFormed, KindError, ArrayError, StreamError, RangeError, Conforms;
    ConformsExact(tables, table, maxtype, validate, a);
    var policy, flags, attrlen, t := tables[table], validate, |a.payload|, AttrType(a);
    if policy[0].strictStart > 0 && t >= policy[0].strictStart {
      flags := STRICT;
    }
    if t == 0 || t > maxtype {
      return 0;
    }
    var pt := policy[t];
    KindFits(tables, table, t, flags, a.payload);
    if (IntSize(pt.kind) != 0 && attrlen != IntSize(pt.kind)) || (pt.kind.ExactLenWarn? && attrlen != pt.len) {
      if flags.strictAttrs {
        return EINVAL;
      }
    }
    if flags.nested {
      if Nests(pt.kind) && !IsNested(a) {
        return EINVAL;
      }
      if !Nests(pt.kind) && !pt.kind.Unspec? && IsNested(a) {
        return EINVAL;
      }
    }
    if Nests(pt.kind) {
      if attrlen != 0 {
        if attrlen < HDRLEN {
          return ERANGE;
        }
        if pt.nested.Some? {
          if pt.kind.Nested? {
            ret := ValidateStream(tables, pt.nested, pt.len, flags, a.payload);
          } else {
            ret := ValidateArray(tables, pt.nested, pt.len, flags, a.payload);
          }
          if ret < 0 {
            return;
          }
        }
      }
    } else {
      ret := ValidateKind(pt, flags, a.payload);
      KindMonotone(pt, flags, flags, a.payload);
      if ret != 0 {
        return;
      }
    }
    match pt.validation {
      case NoCheck =>
      case Function =>
        if pt.check.Some? {
          return pt.check.value(a);
        }
      case _ =>
        ret := ValidateIntRange(pt, a);
        return;
    }
    return 0;
  }

  /** nla_validate_array. */
  method ValidateArray(tables: Tables, table: Option<nat>, maxtype: nat, flags: Flags, data: seq<Byte>) returns (ret: int)
    requires WellFormed(tables) && HasTable(tables, table, maxtype)
    ensures ret == ArrayError(tables, table, maxtype, flags, data, 0)
    decreases |data|, 1
  {
    hide WellFormed, HasTable, StreamError, AttrFits, AttrAt, NextPos;
    var p, rem: int := 0, |data|;
    while AttrFits(data, p)
      invariant rem == |data| - p
      invariant ArrayError(tables, table, maxtype, flags, data, 0) == ArrayError(tables, table, maxtype, flags, data, p)
      decreases rem
    {
      var entry := AttrAt(data, p);
      if |entry.payload| != 0 {
        if |entry.payload| < HDRLEN {
          return ERANGE;
        }
        ret := ValidateStream(tables, table, maxtype, flags, entry.payload);
        if ret < 0 {
          return;
        }
      }
      rem := rem - (NextPos(data, p) - p);
      p := NextPos(data, p);
    }
    return 0;
  }

  /** __nla_validate. */
  method ValidateStream(tables: Tables, table: Option<nat>, maxtype: nat, flags: Flags, data: seq<Byte>) returns (ret: int)
    requires WellFormed(tables) && HasTable(tables, table, maxtype)
    ensures ret == StreamError(tables, table, maxtype, flags, data, 0)
    ensures ret == 0 <==> StreamConforms(tables, table, maxtype, flags, data)
    decreases |data|, 0, 1
  {
    StreamConformsExact(tables, table, maxtype, flags, data);
    ghost var n;
    ret, n := ValidateParse(tables, table, maxtype, flags, data, null);
  }

  /** tb holds the last attribute of each type among the given ones. */
  ghost predicate Tabulates(tb: seq<Option<nat>>, maxtype: nat, attrs: seq<Attr>) {
    && maxtype < |tb| && tb[0].None?
    && forall t | 0 < t <= maxtype :: tb[t] == LastOf(attrs, t)
  }

  lemma TabulatesMore(tb: seq<Option<nat>>, maxtype: nat, attrs: seq<Attr>, a: Attr)
    requires Tabulates(tb, maxtype, attrs)
    ensures var t := AttrType(a);
      Tabulates(if 0 < t <= maxtype then tb[t := Some(a.pos)] else tb, maxtype, attrs + [a])
  {
    assert (attrs + [a])[..|attrs|] == attrs;
  }

  /** The stream is read up to p; attribute n comes next. */
  ghost predicate ReadUpTo(data: seq<Byte>, p: nat, n: nat) {
    var all := Attrs(data, 0);
    n <= |all| && all[n..] == Attrs(data, p)
  }

  lemma ReadOne(data: seq<Byte>, p: nat, n: nat)
    requires ReadUpTo(data, p, n) && AttrFits(data, p)
    ensures n < |Attrs(data, 0)| && Attrs(data, 0)[n] == AttrAt(data, p)
    ensures Attrs(data, 0)[..n + 1] == Attrs(data, 0)[..n] + [AttrAt(data, p)]
    ensures ReadUpTo(data, NextPos(data, p), n + 1)
  {
    hide AttrFits, AttrAt, NextPos;
    var all, rest := Attrs(data, 0), Attrs(data, NextPos(data, p));
    assert all[n..] == [AttrAt(data, p)] + rest;
    assert all[n] == all[n..][0];
    assert all[n + 1..] == all[n..][1..] == rest;
  }

  lemma ReadAll(data: seq<Byte>, p: nat, n: nat)
    requires ReadUpTo(data, p, n) && !AttrFits(data, p)
    ensures n == |Attrs(data, 0)| && Attrs(data, 0)[..n] == Attrs(data, 0)
  {
  }

  /**
   * __nla_validate_parse.  n attributes were taken into tb; a rejected stream
   * stops at the attribute after them.
   */
  method ValidateParse(tables: Tables, table: Option<nat>, maxtype: nat, flags: Flags, data: seq<Byte>,
                       tb: array?<Option<nat>>) returns (ret: int, ghost n: nat)
    requires WellFormed(tables) && HasTable(tables, table, maxtype)
    requires tb != null ==> maxtype < tb.Length
    modifies if tb == null then {} else {tb}
    ensures ret == StreamError(tables, table, maxtype, flags, data, 0)
    ensures n <= |Attrs(data, 0)| && (ret == 0 ==> n == |Attrs(data, 0)|)
    ensures n < |Attrs(data, 0)| ==> ret == EntryError(tables, table, maxtype, flags, Attrs(data, 0)[n])
    ensures tb != null ==> Tabulates(tb[..], maxtype, Attrs(data, 0)[..n])
    ensures tb != null ==> forall t | maxtype < t < tb.Length :: tb[t] == old(tb[t])
    decreases |data|, 0, 0
  {
    hide WellFormed, HasTable, AttrError, AttrFits, AttrAt, NextPos, Attrs, ReadUpTo, Tabulates;
    var p, rem: int := 0, |data|;
    n := 0;
    if tb != null {
      Clear(tb, maxtype);
      NothingYet(tb[..], maxtype);
    }
    assert ReadUpTo(data, 0, 0) && Attrs(data, 0)[..0] == [] by {
      ReadStart(data);
    }
    while AttrFits(data, p)
      invariant rem == |data| - p && ReadUpTo(data, p, n) && n <= |Attrs(data, 0)|
      invariant StreamError(tables, table, maxtype, flags, data, 0) == StreamError(tables, table, maxtype, flags, data, p)
      invariant tb != null ==> Tabulates(tb[..], maxtype, Attrs(data, 0)[..n])
      invariant tb != null ==> forall t | maxtype < t < tb.Length :: tb[t] == old(tb[t])
      decreases rem
    {
      var nla := AttrAt(data, p);
      var t := AttrType(nla);
      ReadOne(data, p, n);
      if tb != null {
        TabulatesMore(tb[..], maxtype, Attrs(data, 0)[..n], nla);
      }
      if t == 0 || t > maxtype {
        if flags.maxtype {
          return EINVAL, n;
        }
      } else {
        if table.Some? {
          var err := ValidateNla(tables, table.value, maxtype, flags, nla);
          if err < 0 {
            return err, n;
          }
        }
        if tb != null {
          tb[t] := Some(nla.pos);
        }
      }
      n := n + 1;
      rem := rem - (NextPos(data, p) - p);
      p := NextPos(data, p);
    }
    ReadAll(data, p, n);
    if rem > 0 && flags.trailing {
      return EINVAL, n;
    }
    return 0, n;
  }

  method Clear(tb: array<Option<nat>>, maxtype: nat)
    requires maxtype < tb.Length
    modifies tb
    ensures forall t | 0 <= t <= maxtype :: tb[t].None?
    ensures forall t | maxtype < t < tb.Length :: tb[t] == old(tb[t])
  {
    forall t | 0 <= t <= maxtype {
      tb[t] := None;
    }
  }

  lemma ReadStart(data: seq<Byte>)
    ensures ReadUpTo(data, 0, 0)
  {
  }

  lemma NothingYet(tb: seq<Option<nat>>, maxtype: nat)
    requires maxtype < |tb| && forall t | 0 <= t <= maxtype :: tb[t].None?
    ensures Tabulates(tb, maxtype, [])
  {
  }
}
