/**
  Tristate values, configuration symbols and the state in which symbols are
  evaluated (kconf/expr.h, kconf/symbol.c).
*/
module Symbols {

  import opened Wrappers

  /** no < mod < yes, the numbering of `enum tristate`. */
  type Tristate = t: int | 0 <= t <= 2

  const NO: Tristate := 0
  const MOD: Tristate := 1
  const YES: Tristate := 2

  function Min(a: Tristate, b: Tristate): Tristate { if a < b then a else b }
  function Max(a: Tristate, b: Tristate): Tristate { if a > b then a else b }

  datatype SymbolType = UnknownType | BooleanType | TristateType | IntType | HexType | StringType

  /**
    A symbol is identified by its address in C. Here the three built-in
    constants are constructors of their own and every other symbol carries an
    `id` that stands for its address.
  */
  datatype Symbol =
    | SymYes
    | SymMod
    | SymNo
    | Config(id: nat, name: string, configType: SymbolType, constFlag: bool)

  function TypeOf(s: Symbol): SymbolType {
    if s.Config? then s.configType else TristateType
  }

  predicate IsConst(s: Symbol) {
    s.Config? ==> s.constFlag
  }

  predicate IsLogical(s: Symbol) {
    TypeOf(s) == BooleanType || TypeOf(s) == TristateType
  }

  /** A symbol that expr_eliminate_yn removes. */
  predicate IsYesNo(s: Symbol) {
    s == SymYes || s == SymNo
  }

  /**
    Everything an expression's value depends on. `tri` and `str` are the values
    computed before coercion; the three number readers stand for the C library:
    `signedNumber(text, base)` is what strtoll yields when the whole text is a
    number, `unsignedNumber(text)` the same for strtoull in base 16.
  */
  datatype Env = Env(
    tri: Symbol -> Tristate,
    str: Symbol -> string,
    signedNumber: (string, nat) -> Option<int>,
    unsignedNumber: string -> Option<nat>)

  /** curr.tri of a symbol: bool symbols never hold mod, non-logical ones hold no. */
  function TriOf(env: Env, s: Symbol): Tristate {
    match s
    case SymYes => YES
    case SymMod => MOD
    case SymNo => NO
    case Config(_, _, t, _) =>
      if t == TristateType then env.tri(s)
      else if t == BooleanType then (if env.tri(s) == MOD then YES else env.tri(s))
      else NO
  }

  function TriText(v: Tristate): string {
    if v == NO then "n" else if v == MOD then "m" else "y"
  }

  /** sym_get_string_value: a symbol without a type evaluates to its own name. */
  function TextOf(env: Env, s: Symbol): string {
    if IsLogical(s) then TriText(TriOf(env, s))
    else if s.configType == UnknownType then s.name
    else env.str(s)
  }

  datatype Number = Textual | Signed(s: int) | Unsigned(u: nat)

  /** expr_parse_string. */
  function ParseNumber(env: Env, text: string, t: SymbolType): Number {
    match t
    case BooleanType => LogicalNumber(text)
    case TristateType => LogicalNumber(text)
    case IntType => SignedNumber(env, text, 10)
    case HexType =>
      (match env.unsignedNumber(text)
       case Some(u) => Unsigned(u)
       case None => Textual)
    case UnknownType => SignedNumber(env, text, 0)
    case StringType => SignedNumber(env, text, 0)
  }

  function LogicalNumber(text: string): Number {
    Signed(if text == "n" then 0 else if text == "m" then 1 else if text == "y" then 2 else -1)
  }

  function SignedNumber(env: Env, text: string, base: nat): Number {
    match env.signedNumber(text, base)
    case Some(v) => Signed(v)
    case None => Textual
  }

  /** The sign of strcmp. */
  function StrCmp(a: string, b: string): (r: int)
    ensures r == 0 <==> a == b
  {
    if a == [] && b == [] then 0
    else if a == [] then -1
    else if b == [] then 1
    else if a[0] < b[0] then -1
    else if a[0] > b[0] then 1
    else
      assert a[1..] == b[1..] ==> a == [a[0]] + a[1..] && b == [b[0]] + b[1..];
      StrCmp(a[1..], b[1..])
  }

  /** Dictionary order: the texts differ first in a smaller character of `a`, or `b` goes on where `a` ends. */
  ghost predicate TextBefore(a: string, b: string) {
    exists k: nat :: BeforeAt(a, b, k)
  }

  ghost predicate BeforeAt(a: string, b: string, k: nat) {
    k <= |a| && k < |b| && a[..k] == b[..k] && (k == |a| || a[k] < b[k])
  }

  lemma BeforeAtTail(a: string, b: string, k: nat)
    requires a != "" && b != "" && a[0] == b[0]
    ensures BeforeAt(a, b, k + 1) <==> BeforeAt(a[1..], b[1..], k)
  {
    if k < |a| && k < |b| {
      assert a[..k + 1] == [a[0]] + a[1..][..k] && b[..k + 1] == [b[0]] + b[1..][..k];
      assert a[1..][..k] == a[..k + 1][1..] && b[1..][..k] == b[..k + 1][1..];
    }
  }

  lemma TextBeforeTail(a: string, b: string)
    requires a != "" && b != "" && a[0] == b[0]
    ensures TextBefore(a, b) <==> TextBefore(a[1..], b[1..])
  {
    assert !BeforeAt(a, b, 0);
    hide BeforeAt;
    if TextBefore(a, b) {
      var k: nat :| BeforeAt(a, b, k);
      BeforeAtTail(a, b, k - 1);
    }
    if TextBefore(a[1..], b[1..]) {
      var k: nat :| BeforeAt(a[1..], b[1..], k);
      BeforeAtTail(a, b, k);
    }
  }

  lemma {:induction false} StrCmpOrder(a: string, b: string)
    ensures StrCmp(a, b) < 0 <==> TextBefore(a, b)
    ensures StrCmp(a, b) > 0 <==> TextBefore(b, a)
    decreases |a|
  {
    if a == "" || b == "" || a[0] != b[0] {
      FirstDiffers(a, b);
      FirstDiffers(b, a);
    } else {
      TextBeforeTail(a, b);
      TextBeforeTail(b, a);
      StrCmpOrder(a[1..], b[1..]);
    }
  }

  lemma FirstDiffers(a: string, b: string)
    requires a == "" || b == "" || a[0] != b[0]
    ensures TextBefore(a, b) <==> b != "" && (a == "" || a[0] < b[0])
  {
    if TextBefore(a, b) {
      var k: nat :| BeforeAt(a, b, k);
      BeforeStart(a, b, k);
    }
    if b != "" && (a == "" || a[0] < b[0]) {
      assert BeforeAt(a, b, 0);
    }
  }

  lemma BeforeStart(a: string, b: string, k: nat)
    requires BeforeAt(a, b, k)
    ensures k == 0 || (a != "" && a[0] == b[0])
  {
    if k > 0 {
      assert a[..k][0] == b[..k][0];
    }
  }

  function Sign(a: int, b: int): int {
    if a > b then 1 else if a < b then -1 else 0
  }

  /** The unsigned reading of the 64-bit union that holds a parsed number. */
  function AsUnsigned(n: Number): nat {
    match n
    case Textual => 0
    case Signed(s) => s % 0x1_0000_0000_0000_0000
    case Unsigned(u) => u
  }

  function CompareTexts(env: Env, text1: string, t1: SymbolType, text2: string, t2: SymbolType): int {
    if t1 == StringType && t2 == StringType then
      StrCmp(text1, text2)
    else
      var n1, n2 := ParseNumber(env, text1, t1), ParseNumber(env, text2, t2);
      if n1.Textual? || n2.Textual? then StrCmp(text1, text2)
      else if n1.Unsigned? || n2.Unsigned? then Sign(AsUnsigned(n1), AsUnsigned(n2))
      else Sign(n1.s, n2.s)
  }

  /** The three-way comparison at the end of __expr_calc_value. */
  function Compare(env: Env, a: Symbol, b: Symbol): int {
    CompareTexts(env, TextOf(env, a), TypeOf(a), TextOf(env, b), TypeOf(b))
  }

  /** A tristate symbol that holds `v` compares equal to `c`. */
  predicate Denotes(env: Env, c: Symbol, v: Tristate) {
    CompareTexts(env, TriText(v), TristateType, TextOf(env, c), TypeOf(c)) == 0
  }

  /** Which symbols are compared with which. */
  type Comparisons = set<(Symbol, Symbol)>

  /**
    No symbol equals two different constants that it is compared with. It fails
    for a tristate symbol at m compared with "1" and "0x1", because
    expr_parse_string reads untyped constants as numbers.
  */
  ghost predicate NoClash(env: Env, cs: Comparisons) {
    forall a, b, c | (a, b) in cs && (a, c) in cs && b != c && IsConst(b) && IsConst(c)
      :: !(Denotes(env, b, TriOf(env, a)) && Denotes(env, c, TriOf(env, a)))
  }

  /** Comparing a logical symbol with y, m or n compares tristate values. */
  lemma CompareWithBuiltin(env: Env, a: Symbol, b: Symbol)
    requires IsLogical(a) && !b.Config?
    ensures Compare(env, a, b) == Sign(TriOf(env, a), TriOf(env, b))
  {
    assert "n" != "m" && "n" != "y" && "m" != "y" by {
      assert "n"[0] != "m"[0] && "n"[0] != "y"[0] && "m"[0] != "y"[0];
    }
    assert LogicalNumber(TriText(TriOf(env, a))) == Signed(TriOf(env, a));
    assert LogicalNumber(TriText(TriOf(env, b))) == Signed(TriOf(env, b));
  }
}
