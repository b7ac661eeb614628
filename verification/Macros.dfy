/**
 * What references in Kconfig text mean (kconf/preprocess.c): numbered
 * arguments, the order in which a name is looked up, and calls of
 * user-defined functions as the substitution of arguments in a template.
 */
module Macros {
  import opened Wrappers
  import opened Numerals
  import opened Preprocess

  // ---------------------------------------------------------------------
  // Numbers
  // ---------------------------------------------------------------------

  lemma {:induction false} DecimalMore(s: string, c: char, acc: nat)
    ensures Decimal(s + [c], acc) ==
      if Decimal(s, acc).Some? && '0' <= c <= '9' then Some(10 * Decimal(s, acc).value + (c as int - '0' as int)) else None
    decreases |s|
  {
    if s == "" {
      assert s + [c] == [c] && [c][1..] == "";
    } else {
      assert (s + [c])[1..] == s[1..] + [c];
      if '0' <= s[0] <= '9' {
        DecimalMore(s[1..], c, 10 * acc + (s[0] as int - '0' as int));
      }
    }
  }

  lemma {:induction false} DecimalNumeral(n: nat)
    ensures Decimal(Numeral(n), 0) == Some(n)
  {
    DigitChar(n % 10);
    if n < 10 {
      DecimalMore("", Digit(n), 0);
      assert "" + [Digit(n)] == Numeral(n);
    } else {
      DecimalNumeral(n / 10);
      DecimalMore(Numeral(n / 10), Digit(n % 10), 0);
    }
  }

  lemma {:induction false} DecimalZeros(z: nat, s: string)
    ensures Decimal(Zeros(z) + s, 0) == Decimal(s, 0)
  {
    if z == 0 {
      assert Zeros(z) + s == s;
    } else {
      assert (Zeros(z) + s)[1..] == Zeros(z - 1) + s;
      DecimalZeros(z - 1, s);
    }
  }

  /** A digit after a numeral makes the next numeral; a zero before a digit stays a zero. */
  lemma NumeralMore(z: nat, n: nat, d: nat)
    requires d < 10
    ensures n == 0 ==> Zeros(z) + Numeral(n) + [Digit(d)] == Zeros(z + 1) + Numeral(d)
    ensures n > 0 ==> Zeros(z) + Numeral(n) + [Digit(d)] == Zeros(z) + Numeral(10 * n + d)
  {
    if n > 0 {
      assert (10 * n + d) / 10 == n && (10 * n + d) % 10 == d;
    }
  }

  /** A text that is read as a number is one with zeros in front. */
  lemma {:induction false} DecimalShape(s: string) returns (z: nat, n: nat)
    requires s != "" && Decimal(s, 0).Some?
    ensures s == Zeros(z) + Numeral(n)
    decreases |s|
  {
    hide Numeral, Zeros;
    var t, c := s[..|s| - 1], s[|s| - 1];
    assert s == t + [c];
    DecimalMore(t, c, 0);
    var d := c as int - '0' as int;
    DigitChar(d);
    if t == "" {
      z, n := 0, d;
      OneDigit(d);
    } else {
      z, n := DecimalShape(t);
      NumeralMore(z, n, d);
      z, n := if n == 0 then z + 1 else z, 10 * n + d;
    }
  }

  lemma OneDigit(d: nat)
    requires d < 10
    ensures Zeros(0) + Numeral(d) == [Digit(d)]
  {
  }

  predicate AllSpaces(s: string) {
    forall i | 0 <= i < |s| :: Space(s[i])
  }

  /** strtoul saturates, and counts a negative number down from the top. */
  function AsUnsignedLong(negative: bool, n: nat): nat {
    if n > ULONG_MAX then ULONG_MAX
    else if negative && n > 0 then ULONG_MAX + 1 - n
    else n
  }

  lemma {:induction false} SpacesSkipped(sp: string, s: string)
    requires AllSpaces(sp) && (s == "" || !Space(s[0]))
    ensures SkipSpaces(sp + s) == s
    decreases |sp|
  {
    if sp == "" {
      assert sp + s == s;
    } else {
      assert (sp + s)[1..] == sp[1..] + s;
      SpacesSkipped(sp[1..], s);
    }
  }

  lemma {:induction false} SpacesFound(s: string) returns (sp: string)
    ensures AllSpaces(sp) && s == sp + SkipSpaces(s)
  {
    if s != "" && Space(s[0]) {
      var t := SpacesFound(s[1..]);
      sp := [s[0]] + t;
    } else {
      sp := "";
    }
  }

  lemma SignedRead(s: string, sign: string, digits: string, n: nat)
    requires sign in {"", "+", "-"} && SkipSpaces(s) == sign + digits
    requires digits != "" && digits[0] in DIGITS && Decimal(digits, 0) == Some(n)
    ensures WholeNumber(s) == Some(AsUnsignedLong(sign == "-", n))
  {
    hide SkipSpaces, Decimal;
    var t := sign + digits;
    assert sign == "" ==> t == digits;
    assert sign != "" ==> t[0] == sign[0] && t[1..] == digits;
  }

  /** What strtoul reads to the end: white space, a sign, zeros and a numeral. */
  lemma WholeNumberRead(sp: string, sign: string, z: nat, n: nat)
    requires AllSpaces(sp) && sign in {"", "+", "-"}
    ensures WholeNumber(sp + sign + Zeros(z) + Numeral(n)) == Some(AsUnsignedLong(sign == "-", n))
  {
    hide SkipSpaces, Decimal, WholeNumber, Numeral, AsUnsignedLong;
    var digits := Zeros(z) + Numeral(n);
    var t := sign + digits;
    assert sp + sign + Zeros(z) + Numeral(n) == sp + t;
    NumeralDigits(n);
    assert digits[0] in DIGITS;
    SpacesSkipped(sp, t);
    DecimalZeros(z, Numeral(n));
    DecimalNumeral(n);
    SignedRead(sp + t, sign, digits, n);
  }

  lemma NumeralRead(n: nat)
    ensures WholeNumber(Numeral(n)) == Some(if n > ULONG_MAX then ULONG_MAX else n)
  {
    hide WholeNumber, Numeral;
    WholeNumberRead("", "", 0, n);
    assert "" + "" + Zeros(0) + Numeral(n) == Numeral(n);
  }

  /** And it reads nothing else. */
  lemma WholeNumberShape(s: string) returns (sp: string, sign: string, z: nat, n: nat)
    requires WholeNumber(s).Some?
    ensures AllSpaces(sp) && sign in {"", "+", "-"} && s == sp + sign + Zeros(z) + Numeral(n)
  {
    hide SkipSpaces, Decimal, Numeral, Zeros;
    sp := SpacesFound(s);
    var t := SkipSpaces(s);
    sign := if t != "" && (t[0] == '+' || t[0] == '-') then [t[0]] else "";
    var digits := if sign != "" then t[1..] else t;
    z, n := DecimalShape(digits);
    Regroup(sp, sign, Zeros(z), Numeral(n));
    assert t == sign + digits;
  }

  lemma Regroup(a: string, b: string, c: string, d: string)
    ensures a + (b + (c + d)) == a + b + c + d
  {
  }

  /** The clause `k` is the k-th argument of the enclosing call. */
  lemma ArgumentMeaning(m: Machine, counts: seq<nat>, args: seq<string>, k: nat)
    requires Counts(m, counts) && 1 <= k <= |args| && k <= ULONG_MAX
    ensures Clause(m, counts, Numeral(k), args) == Some(args[k - 1])
  {
    hide Tokens, AllExpanded, VariableValue, Otherwise, WholeNumber, Numeral, Counts;
    NumeralRead(k);
    assert ArgumentIndex(Numeral(k), args) == Some(k - 1);
  }

  /** Only numbers up to the number of arguments are arguments. */
  lemma NoArgument(args: seq<string>, k: nat)
    requires k == 0 || |args| < k
    ensures k <= ULONG_MAX || |args| < ULONG_MAX ==> ArgumentIndex(Numeral(k), args) == None
  {
    hide WholeNumber, Numeral;
    NumeralRead(k);
  }

  /** Every argument reference is a numeral: an index comes from no other text. */
  lemma ArgumentShape(clause: string, args: seq<string>) returns (sp: string, sign: string, z: nat, n: nat)
    requires ArgumentIndex(clause, args).Some?
    ensures AllSpaces(sp) && sign in {"", "+", "-"} && clause == sp + sign + Zeros(z) + Numeral(n)
    ensures ArgumentIndex(clause, args) == Some(AsUnsignedLong(sign == "-", n) - 1)
  {
    sp, sign, z, n := WholeNumberShape(clause);
    WholeNumberRead(sp, sign, z, n);
  }

  // ---------------------------------------------------------------------
  // Names
  // ---------------------------------------------------------------------

  ghost predicate FirstNamed(vars: seq<Variable>, name: string, v: nat) {
    v < |vars| && vars[v].name == name && forall k | 0 <= k < v :: vars[k].name != name
  }

  function ValueOf(r: Outcome): Option<string> {
    if r.Fatal? then None else Some(r.value)
  }

  /** What a variable stands for; None ends the program. */
  ghost predicate VariableStandsFor(m: Machine, counts: seq<nat>, v: nat, args: seq<string>, r: Option<string>)
    requires Counts(m, counts) && v < |m.vars|
  {
    if (args == [] && counts[v] > 0) || counts[v] > MAX_DEPTH then r == None
    else if m.vars[v].flavor.Simple? then r == Some(m.vars[v].value)
    else r == ValueOf(Expanded(m, counts[v := counts[v] + 1], m.vars[v].value, EndOfText, args))
  }

  /** The order of the lookup: variable, built-in function, environment without arguments, nothing. */
  ghost predicate StandsFor(m: Machine, counts: seq<nat>, name: string, args: seq<string>, r: Option<string>)
    requires Counts(m, counts)
  {
    && (forall v: nat | FirstNamed(m.vars, name, v) :: VariableStandsFor(m, counts, v, args, r))
    && ((forall v | 0 <= v < |m.vars| :: m.vars[v].name != name) ==>
          var call := m.builtin(name, args);
          && (call.Exits? ==> r == None)
          && (call.Returns? ==> r == Some(call.value))
          && (call.NoSuchFunction? && args == [] && m.env(name).Some? ==> r == m.env(name))
          && (call.NoSuchFunction? && (args != [] || m.env(name).None?) ==> r == Some("")))
  }

  lemma VariableMeaning(m: Machine, counts: seq<nat>, name: string, args: seq<string>, r: Option<string>)
    requires Counts(m, counts)
    requires r == match VariableValue(m, counts, name, args)
                  case Failed => None
                  case Value(s) => Some(s)
                  case NoVariable => Otherwise(m, name, args)
    ensures StandsFor(m, counts, name, args, r)
  {
    hide Expanded, Lookup;
    var found := Lookup(m.vars, name);
    forall v: nat | FirstNamed(m.vars, name, v)
      ensures VariableStandsFor(m, counts, v, args, r)
    {
      assert found == Some(v);
    }
  }

  // ---------------------------------------------------------------------
  // Calls
  // ---------------------------------------------------------------------

  /** Texts that a call separates by commas: their own commas are inside parentheses. */
  ghost predicate Separable(ts: seq<string>, nest: int) {
    && ts != []
    && CommasEnclosed(ts[0], nest) && (|ts| > 1 ==> nest + Balance(ts[0]) == 0)
    && (forall i | 1 <= i < |ts| :: CommasEnclosed(ts[i], 0))
    && (forall i | 1 <= i < |ts| - 1 :: Balance(ts[i]) == 0)
  }

  lemma EnclosedTail(t: string, nest: int)
    requires t != "" && CommasEnclosed(t, nest)
    ensures CommasEnclosed(t[1..], Nesting(nest, t[0])) && !(nest == 0 && t[0] == ',')
    ensures Balance(t) == Nesting(0, t[0]) + Balance(t[1..])
  {
    assert t[..0] == "";
    forall k | 0 <= k < |t[1..]| && t[1..][k] == ','
      ensures Nesting(nest, t[0]) + Balance(t[1..][..k]) != 0
    {
      assert t[k + 1] == ',';
      BalanceTail(t, k + 1);
    }
  }

  lemma TokensGrown(c: char, s: string, nest: int, us: seq<string>)
    requires us != [] && Tokens(s, Nesting(nest, c)) == us && !(nest == 0 && c == ',')
    ensures Tokens([c] + s, nest) == [[c] + us[0]] + us[1..]
  {
    assert ([c] + s)[1..] == s;
  }

  lemma JoinedGrown(c: char, us: seq<string>)
    requires us != []
    ensures CommaJoined([[c] + us[0]] + us[1..]) == [c] + CommaJoined(us)
  {
    var ts := [[c] + us[0]] + us[1..];
    assert ts[1..] == us[1..];
    if |us| > 1 {
      assert [c] + us[0] + "," + CommaJoined(us[1..]) == [c] + (us[0] + "," + CommaJoined(us[1..]));
    }
  }

  lemma JoinedFront(us: seq<string>)
    requires us != []
    ensures CommaJoined([""] + us) == "," + CommaJoined(us)
    ensures Tokens("," + CommaJoined(us), 0) == [""] + Tokens(CommaJoined(us), 0)
  {
    assert ([""] + us)[1..] == us;
    assert "" + "," + CommaJoined(us) == "," + CommaJoined(us);
    assert ("," + CommaJoined(us))[1..] == CommaJoined(us);
  }

  /** Splitting undoes joining. */
  lemma {:induction false} TokensOfJoined(ts: seq<string>, nest: int)
    requires Separable(ts, nest)
    ensures Tokens(CommaJoined(ts), nest) == ts
    decreases |ts|, |ts[0]|
  {
    hide CommasEnclosed, Balance, Tokens, CommaJoined;
    if ts[0] != "" {
      EnclosedTail(ts[0], nest);
      var c, us := ts[0][0], [ts[0][1..]] + ts[1..];
      TokensOfJoined(us, Nesting(nest, c));
      TokensGrown(c, CommaJoined(us), nest, us);
      assert us[1..] == ts[1..] && [c] + us[0] == ts[0];
      assert ts == [[c] + us[0]] + us[1..];
      JoinedGrown(c, us);
    } else if |ts| > 1 {
      NoBalance();
      TokensOfJoined(ts[1..], 0);
      JoinedFront(ts[1..]);
      assert ts == [""] + ts[1..];
    } else {
      assert ts == [""];
      NoBalance();
    }
  }

  lemma NoBalance()
    ensures Balance("") == 0 && CommaJoined([""]) == "" && forall nest :: Tokens("", nest) == [""]
  {
  }

  /** Every text expands to its word. */
  ghost predicate ExpandTo(m: Machine, counts: seq<nat>, ts: seq<string>, args: seq<string>, words: seq<string>)
    requires Counts(m, counts)
  {
    |words| == |ts| && forall i | 0 <= i < |ts| :: ValueOf(Expanded(m, counts, ts[i], EndOfText, args)) == Some(words[i])
  }

  lemma {:induction false} AllExpandedTo(m: Machine, counts: seq<nat>, ts: seq<string>, args: seq<string>, words: seq<string>, bound: nat)
    requires Counts(m, counts) && ExpandTo(m, counts, ts, args, words)
    requires forall i | 0 <= i < |ts| :: |ts[i]| <= bound
    ensures AllExpanded(m, counts, ts, args, bound) == Some(words)
    decreases |ts|
  {
    hide Expanded;
    if ts != [] {
      AllExpandedTo(m, counts, ts[1..], args, words[1..], bound);
      assert words == [words[0]] + words[1..];
      assert ValueOf(Expanded(m, counts, ts[0], EndOfText, args)) == Some(words[0]);
    }
  }

  /**
   * A clause that is no argument number: its first text, expanded, is the name
   * and the others, expanded, are the arguments; more than sixteen are refused.
   */
  lemma CallMeaning(m: Machine, counts: seq<nat>, ts: seq<string>, args: seq<string>, words: seq<string>)
    requires Counts(m, counts) && Separable(ts, 0) && ExpandTo(m, counts, ts, args, words)
    requires ArgumentIndex(CommaJoined(ts), args).None?
    ensures var r := Clause(m, counts, CommaJoined(ts), args);
      if |ts| > MAX_ARGS then r == None else StandsFor(m, counts, words[0], words[1..], r)
  {
    hide Tokens, AllExpanded, VariableValue, Otherwise, ArgumentIndex, StandsFor, ExpandTo;
    var clause := CommaJoined(ts);
    TokensOfJoined(ts, 0);
    if |ts| <= MAX_ARGS {
      assert Tokens(clause, 0) == ts;
      AllExpandedTo(m, counts, ts, args, words, |clause|);
      VariableMeaning(m, counts, words[0], words[1..], Clause(m, counts, clause, args));
    }
  }

  lemma {:induction false} AllExpandedFails(m: Machine, counts: seq<nat>, ts: seq<string>, args: seq<string>, i: nat, bound: nat)
    requires Counts(m, counts) && i < |ts| && Expanded(m, counts, ts[i], EndOfText, args).Fatal?
    requires forall k | 0 <= k < |ts| :: |ts[k]| <= bound
    ensures AllExpanded(m, counts, ts, args, bound) == None
    decreases |ts|
  {
    hide Expanded;
    if i > 0 {
      AllExpandedFails(m, counts, ts[1..], args, i - 1, bound);
    }
  }

  /** A name or argument that cannot be expanded ends the program. */
  lemma CallFails(m: Machine, counts: seq<nat>, ts: seq<string>, args: seq<string>, i: nat)
    requires Counts(m, counts) && Separable(ts, 0) && ArgumentIndex(CommaJoined(ts), args).None?
    requires i < |ts| && Expanded(m, counts, ts[i], EndOfText, args).Fatal?
    ensures Clause(m, counts, CommaJoined(ts), args) == None
  {
    hide Tokens, AllExpanded, VariableValue, Otherwise, ArgumentIndex, Expanded;
    TokensOfJoined(ts, 0);
    assert Tokens(CommaJoined(ts), 0) == ts;
    if |ts| <= MAX_ARGS {
      AllExpandedFails(m, counts, ts, args, i, |CommaJoined(ts)|);
    }
  }

  /** A plain name, a number beyond the arguments among them. */
  lemma NameMeaning(m: Machine, counts: seq<nat>, name: string, args: seq<string>)
    requires Counts(m, counts) && '$' !in name && CommasEnclosed(name, 0) && ArgumentIndex(name, args).None?
    ensures StandsFor(m, counts, name, [], Clause(m, counts, name, args))
  {
    hide StandsFor, Clause, ArgumentIndex;
    PlainText(m, counts, name, args);
    assert CommaJoined([name]) == name;
    CallMeaning(m, counts, [name], args, [name]);
    assert [name][1..] == [];
  }

  lemma NumberBeyondArguments(m: Machine, counts: seq<nat>, args: seq<string>, k: nat)
    requires Counts(m, counts) && |args| < ULONG_MAX && (k == 0 || |args| < k)
    ensures StandsFor(m, counts, Numeral(k), [], Clause(m, counts, Numeral(k), args))
  {
    hide StandsFor, Clause, ArgumentIndex;
    NoArgument(args, k);
    NumeralDigits(k);
    NameMeaning(m, counts, Numeral(k), args);
  }

  // ---------------------------------------------------------------------
  // References in a text
  // ---------------------------------------------------------------------

  /** Parentheses close only what is open, and all of it. */
  ghost predicate WellNested(s: string) {
    Balance(s) == 0 && forall j | 0 <= j <= |s| :: Balance(s[..j]) >= 0
  }

  lemma {:induction false} ClosingAfter(c: string, nest: nat, rest: string)
    requires nest + Balance(c) == 0 && forall j | 0 <= j <= |c| :: nest + Balance(c[..j]) >= 0
    ensures Closing(c + ")" + rest, nest) == Some(|c|)
    decreases |c|
  {
    var s := c + ")" + rest;
    if c == "" {
      assert s[0] == ')';
    } else {
      assert s[1..] == c[1..] + ")" + rest;
      BalanceTail(c, 1);
      assert c[1..][..0] == "" && nest + Balance(c[..1]) >= 0;
      forall j | 0 <= j <= |c[1..]|
        ensures Nesting(nest, c[0]) + Balance(c[1..][..j]) >= 0
      {
        BalanceTail(c, j + 1);
        assert nest + Balance(c[..j + 1]) >= 0;
      }
      ClosingAfter(c[1..], Nesting(nest, c[0]), rest);
    }
  }

  lemma {:induction false} NeverCloses(s: string, nest: nat)
    requires forall j | 0 <= j <= |s| :: nest + Balance(s[..j]) >= 0
    ensures Closing(s, nest) == None
  {
    hide Closing, Balance;
    ClosingExact(s, nest);
  }

  /** A dollar sign that no parenthesis follows is itself. */
  lemma {:induction false} LoneDollars(m: Machine, counts: seq<nat>, text: string, args: seq<string>)
    requires Counts(m, counts) && forall i | 0 <= i < |text| - 1 && text[i] == '$' :: text[i + 1] != '('
    ensures Expanded(m, counts, text, EndOfText, args) == Done(text, "")
    decreases |text|
  {
    hide Clause, Counts;
    if text != "" {
      var rest := text[1..];
      forall i | 0 <= i < |rest| - 1 && rest[i] == '$'
        ensures rest[i + 1] != '('
      {
        assert text[i + 1] == '$';
      }
      LoneDollars(m, counts, text[1..], args);
      assert text == [text[0]] + text[1..] && text[..1] == [text[0]];
      assert text[0] == '$' ==> Dollar(m, counts, text[1..], args) == Done("$", text[1..]);
    }
  }

  /** The expansion of plain text stops at the first end character and leaves it. */
  lemma {:induction false} StopsAtEnd(m: Machine, counts: seq<nat>, a: string, rest: string, isEnd: char -> bool, args: seq<string>)
    requires Counts(m, counts) && forall i | 0 <= i < |a| :: a[i] != '$' && !isEnd(a[i])
    requires rest != "" && rest[0] != '$' && isEnd(rest[0])
    ensures Expanded(m, counts, a + rest, isEnd, args) == Done(a, rest)
    decreases |a|
  {
    hide Dollar, Counts;
    if a == "" {
      assert a + rest == rest;
    } else {
      assert (a + rest)[..1] == a[..1] && (a + rest)[1..] == a[1..] + rest;
      StopsAtEnd(m, counts, a[1..], rest, isEnd, args);
      assert a[..1] + a[1..] == a;
    }
  }

  /** A reference is what its clause is; the text after it is left. */
  lemma ReferenceMeaning(m: Machine, counts: seq<nat>, clause: string, rest: string, args: seq<string>)
    requires Counts(m, counts) && WellNested(clause)
    ensures Dollar(m, counts, "(" + clause + ")" + rest, args) ==
      var v := Clause(m, counts, clause, args);
      if v.None? then Fatal else Done(v.value, rest)
  {
    hide Clause, Closing, Balance, Counts;
    var text := "(" + clause + ")" + rest;
    assert text[1..] == clause + ")" + rest;
    ClosingAfter(clause, 0, rest);
    assert text[1..1 + |clause|] == clause && text[2 + |clause|..] == rest;
  }

  /** A reference that nothing closes ends the program. */
  lemma UnterminatedReference(m: Machine, counts: seq<nat>, text: string, isEnd: char -> bool, args: seq<string>)
    requires Counts(m, counts) && forall j | 0 <= j <= |text| :: Balance(text[..j]) >= 0
    ensures Expanded(m, counts, "$(" + text, isEnd, args) == Fatal
  {
    hide Clause, Closing, Balance, Counts;
    NeverCloses(text, 0);
    assert ("$(" + text)[1..] == "(" + text && ("(" + text)[1..] == text;
    assert Dollar(m, counts, "(" + text, args) == Fatal;
  }

  /** A whole reference in a text: its value, then the rest. */
  lemma ReferenceFirst(m: Machine, counts: seq<nat>, clause: string, rest: string, args: seq<string>)
    requires Counts(m, counts) && WellNested(clause)
    ensures Expanded(m, counts, "$(" + clause + ")" + rest, EndOfText, args) ==
      var v := Clause(m, counts, clause, args);
      if v.None? then Fatal else Before(v.value, Expanded(m, counts, rest, EndOfText, args))
  {
    hide Clause, Dollar, Counts, WellNested;
    var text := "$(" + clause + ")" + rest;
    assert text[1..] == "(" + clause + ")" + rest;
    ReferenceMeaning(m, counts, clause, rest, args);
  }

  // ---------------------------------------------------------------------
  // User-defined functions
  // ---------------------------------------------------------------------

  /** A function body: plain texts and numbered arguments. */
  datatype Piece = Text(s: string) | Arg(k: nat)

  function TemplateText(ps: seq<Piece>): string {
    if ps == [] then ""
    else (match ps[0] case Text(s) => s case Arg(k) => "$(" + Numeral(k) + ")") + TemplateText(ps[1..])
  }

  ghost predicate Fits(ps: seq<Piece>, args: seq<string>) {
    forall i | 0 <= i < |ps| ::
      match ps[i] case Text(s) => '$' !in s case Arg(k) => 1 <= k <= |args| && k <= ULONG_MAX
  }

  function Filled(ps: seq<Piece>, args: seq<string>): string
    requires Fits(ps, args)
  {
    if ps == [] then ""
    else
      assert ps[0] in ps;
      (match ps[0] case Text(s) => s case Arg(k) => args[k - 1]) + Filled(ps[1..], args)
  }

  lemma NumeralNested(k: nat)
    ensures WellNested(Numeral(k))
  {
    hide Numeral;
    NumeralDigits(k);
    var s := Numeral(k);
    forall j | 0 <= j <= |s|
      ensures Balance(s[..j]) == 0
    {
      NoParentheses(s[..j]);
    }
    assert s[..|s|] == s;
  }

  lemma {:induction false} NoParentheses(s: string)
    requires '(' !in s && ')' !in s
    ensures Balance(s) == 0
  {
    if s != "" {
      NoParentheses(s[1..]);
    }
  }

  /** The arguments of a call take the places of their numbers, and are not expanded again. */
  lemma {:induction false} TemplateFilled(m: Machine, counts: seq<nat>, ps: seq<Piece>, args: seq<string>)
    requires Counts(m, counts) && Fits(ps, args)
    ensures Expanded(m, counts, TemplateText(ps), EndOfText, args) == Done(Filled(ps, args), "")
    decreases |ps|
  {
    hide Expanded, Clause, Counts, Numeral;
    if ps == [] {
      PlainText(m, counts, "", args);
    } else {
      TemplateFilled(m, counts, ps[1..], args);
      var rest := TemplateText(ps[1..]);
      match ps[0]
      case Text(s) =>
        PlainText(m, counts, s, args);
        ExpandedAppend(m, counts, s, rest, args);
      case Arg(k) =>
        NumeralNested(k);
        ArgumentMeaning(m, counts, args, k);
        ReferenceFirst(m, counts, Numeral(k), rest, args);
    }
  }

  lemma {:induction false} BalanceAppend(a: string, b: string)
    ensures Balance(a + b) == Balance(a) + Balance(b)
    decreases |a|
  {
    if a == "" {
      assert a + b == b;
    } else {
      assert (a + b)[1..] == a[1..] + b;
      BalanceAppend(a[1..], b);
    }
  }

  lemma NestedAppend(a: string, b: string)
    requires WellNested(a) && WellNested(b)
    ensures WellNested(a + b)
  {
    hide Balance;
    BalanceAppend(a, b);
    forall j | 0 <= j <= |a + b|
      ensures Balance((a + b)[..j]) >= 0
    {
      if j <= |a| {
        assert (a + b)[..j] == a[..j];
      } else {
        assert (a + b)[..j] == a + b[..j - |a|];
        BalanceAppend(a, b[..j - |a|]);
      }
    }
  }

  lemma {:induction false} JoinedNested(ts: seq<string>)
    requires forall i | 0 <= i < |ts| :: WellNested(ts[i])
    ensures WellNested(CommaJoined(ts))
  {
    hide WellNested;
    if |ts| <= 1 {
      assert WellNested("") by {
        PlainNested("");
      }
    } else {
      JoinedNested(ts[1..]);
      PlainNested(",");
      NestedAppend(ts[0], ",");
      NestedAppend(ts[0] + ",", CommaJoined(ts[1..]));
    }
  }

  lemma PlainNested(s: string)
    requires '(' !in s && ')' !in s
    ensures WellNested(s)
  {
    hide Balance;
    NoParentheses(s);
    forall j | 0 <= j <= |s|
      ensures Balance(s[..j]) == 0
    {
      NoParentheses(s[..j]);
    }
  }

  lemma CommaNoArgument(clause: string, args: seq<string>)
    requires ',' in clause
    ensures ArgumentIndex(clause, args).None?
  {
    hide ArgumentIndex, Numeral;
    if ArgumentIndex(clause, args).Some? {
      var sp, sign, z, n := ArgumentShape(clause, args);
      NumeralDigits(n);
      assert false;
    }
  }

  /**
   * A call of a user-defined function: the texts between the commas are
   * expanded where the call stands, and replace their numbers in the body.
   */
  lemma UserCall(m: Machine, counts: seq<nat>, ts: seq<string>, args: seq<string>, words: seq<string>,
                 v: nat, ps: seq<Piece>, rest: string)
    requires Counts(m, counts) && 2 <= |ts| <= MAX_ARGS && Separable(ts, 0) && ExpandTo(m, counts, ts, args, words)
    requires forall i | 0 <= i < |ts| :: WellNested(ts[i])
    requires FirstNamed(m.vars, words[0], v) && m.vars[v] == Variable(words[0], TemplateText(ps), Recursive)
    requires counts[v] <= MAX_DEPTH && Fits(ps, words[1..])
    ensures Expanded(m, counts, "$(" + CommaJoined(ts) + ")" + rest, EndOfText, args)
         == Before(Filled(ps, words[1..]), Expanded(m, counts, rest, EndOfText, args))
  {
    hide Expanded, Clause, ArgumentIndex, WellNested, Separable, TemplateText, Filled, Fits;
    var clause := CommaJoined(ts);
    assert clause[|ts[0]|] == ',';
    CommaNoArgument(clause, args);
    CallMeaning(m, counts, ts, args, words);
    assert VariableStandsFor(m, counts, v, words[1..], Clause(m, counts, clause, args));
    TemplateFilled(m, counts[v := counts[v] + 1], ps, words[1..]);
    JoinedNested(ts);
    ReferenceFirst(m, counts, clause, rest, args);
  }
}
