/**
 * Macro expansion in Kconfig text (kconf/preprocess.c), as a function of the
 * variables, of how often each is being expanded already, and of the text.
 * Built-in functions and the environment are parameters.
 */
module Preprocess {
  import opened Wrappers

  const MAX_ARGS := 16
  const MAX_DEPTH := 1000

  datatype Flavor = Simple | Recursive

  datatype Variable = Variable(name: string, value: string, flavor: Flavor)

  /** A built-in function does not exist, returns a text, or ends the program. */
  datatype Call = NoSuchFunction | Returns(value: string) | Exits

  datatype Machine = Machine(
    vars: seq<Variable>,
    builtin: (string, seq<string>) -> Call,
    env: string -> Option<string>)

  /** What an expansion produces and the text it leaves unread; pperror ends the program. */
  datatype Outcome = Done(value: string, rest: string) | Fatal

  /** A variable is unknown, has a value, or cannot be expanded. */
  datatype Reference = NoVariable | Value(text: string) | Failed

  // ---------------------------------------------------------------------
  // Counters
  // ---------------------------------------------------------------------

  ghost predicate Counts(m: Machine, counts: seq<nat>) {
    |counts| == |m.vars| && forall i | 0 <= i < |counts| :: counts[i] <= MAX_DEPTH + 1
  }

  /** How many more expansions the counters allow in all. */
  ghost function Allowance(counts: seq<nat>): nat
    requires forall i | 0 <= i < |counts| :: counts[i] <= MAX_DEPTH + 1
  {
    if counts == [] then 0 else MAX_DEPTH + 1 - counts[0] + Allowance(counts[1..])
  }

  lemma {:induction false} AllowanceDrops(counts: seq<nat>, v: nat)
    requires forall i | 0 <= i < |counts| :: counts[i] <= MAX_DEPTH + 1
    requires v < |counts| && counts[v] <= MAX_DEPTH
    ensures Allowance(counts[v := counts[v] + 1]) == Allowance(counts) - 1
  {
    var next := counts[v := counts[v] + 1];
    if v == 0 {
      assert next[1..] == counts[1..];
    } else {
      AllowanceDrops(counts[1..], v - 1);
      assert next[1..] == counts[1..][v - 1 := counts[v] + 1];
    }
  }

  // ---------------------------------------------------------------------
  // Texts
  // ---------------------------------------------------------------------

  /** The first variable of that name. */
  function Lookup(vars: seq<Variable>, name: string): (r: Option<nat>)
    ensures r.Some? ==> r.value < |vars| && vars[r.value].name == name
    ensures r.Some? ==> forall k | 0 <= k < r.value :: vars[k].name != name
    ensures r.None? ==> forall k | 0 <= k < |vars| :: vars[k].name != name
  {
    if vars == [] then None
    else if vars[0].name == name then Some(0)
    else
      var r := Lookup(vars[1..], name);
      assert forall k | 1 <= k < |vars| :: vars[k] == vars[1..][k - 1];
      if r.None? then None else Some(r.value + 1)
  }

  function Nesting(nest: int, c: char): int {
    if c == '(' then nest + 1 else if c == ')' then nest - 1 else nest
  }

  /** Opening parentheses less closing ones. */
  function Balance(s: string): int {
    if s == "" then 0 else Nesting(0, s[0]) + Balance(s[1..])
  }

  /** The position of the parenthesis that closes nest + 1 open ones. */
  function Closing(s: string, nest: nat): (r: Option<nat>)
    ensures r.Some? ==> r.value < |s| && s[r.value] == ')'
  {
    if s == "" then None
    else if s[0] == ')' && nest == 0 then Some(0)
    else
      var r := Closing(s[1..], Nesting(nest, s[0]));
      if r.None? then None else Some(r.value + 1)
  }

  /** The tokens between the commas that no parenthesis encloses. */
  function Tokens(s: string, nest: int): (r: seq<string>)
    ensures r != [] && forall i | 0 <= i < |r| :: |r[i]| <= |s|
  {
    if s == "" then [""]
    else if nest == 0 && s[0] == ',' then [""] + Tokens(s[1..], nest)
    else
      var r := Tokens(s[1..], Nesting(nest, s[0]));
      [[s[0]] + r[0]] + r[1..]
  }

  lemma BalanceTail(s: string, j: nat)
    requires 0 < j <= |s|
    ensures Balance(s[..j]) == Nesting(0, s[0]) + Balance(s[1..][..j - 1])
  {
    assert s[..j][1..] == s[1..][..j - 1];
  }

  /**
   * The closing parenthesis is the first one that closes more than is open;
   * without one no beginning of the text closes more than it opens.
   */
  lemma {:induction false} ClosingExact(s: string, nest: nat)
    ensures var r := Closing(s, nest);
      && (r.Some? ==> nest + Balance(s[..r.value + 1]) == -1)
      && forall j | 0 <= j <= (if r.Some? then r.value else |s|) :: nest + Balance(s[..j]) >= 0
  {
    var r := Closing(s, nest);
    assert s[..0] == "";
    if s != "" && !(s[0] == ')' && nest == 0) {
      var nest' := Nesting(nest, s[0]);
      ClosingExact(s[1..], nest');
      if r.Some? {
        BalanceTail(s, r.value + 1);
      }
      forall j | 0 <= j <= (if r.Some? then r.value else |s|)
        ensures nest + Balance(s[..j]) >= 0
      {
        if j > 0 {
          BalanceTail(s, j);
        }
      }
    } else if s != "" {
      BalanceTail(s, 1);
      assert s[1..][..0] == "";
    }
  }

  /** Texts with commas between them. */
  function CommaJoined(ts: seq<string>): string {
    if ts == [] then "" else if |ts| == 1 then ts[0] else ts[0] + "," + CommaJoined(ts[1..])
  }

  /** Every comma of `t` stands inside parentheses, `nest` of them opened before. */
  ghost predicate CommasEnclosed(t: string, nest: int) {
    forall k | 0 <= k < |t| && t[k] == ',' :: nest + Balance(t[..k]) != 0
  }

  /** What a split is: the text again when joined, cut at every comma outside parentheses and at no other. */
  ghost predicate SplitAtCommas(s: string, nest: int, ts: seq<string>) {
    && ts != [] && CommaJoined(ts) == s
    && (forall i | 0 <= i < |ts| :: CommasEnclosed(ts[i], if i == 0 then nest else 0))
    && (forall i | 0 <= i < |ts| - 1 :: (if i == 0 then nest else 0) + Balance(ts[i]) == 0)
  }

  lemma EnclosedMore(c: char, t: string, nest: int)
    requires CommasEnclosed(t, Nesting(nest, c)) && !(nest == 0 && c == ',')
    ensures CommasEnclosed([c] + t, nest)
    ensures Balance([c] + t) == Nesting(0, c) + Balance(t)
  {
    var s := [c] + t;
    assert s[1..] == t;
    forall k | 0 <= k < |s| && s[k] == ','
      ensures nest + Balance(s[..k]) != 0
    {
      if k > 0 {
        BalanceTail(s, k);
        assert t[k - 1] == ',';
      } else {
        assert s[..0] == "";
      }
    }
  }

  lemma {:induction false} TokensSplit(s: string, nest: int)
    ensures SplitAtCommas(s, nest, Tokens(s, nest))
  {
    if s != "" {
      assert s == [s[0]] + s[1..];
      if nest == 0 && s[0] == ',' {
        TokensSplit(s[1..], nest);
        SplitFront(s[1..]);
      } else {
        TokensSplit(s[1..], Nesting(nest, s[0]));
        SplitGrown(s, nest);
      }
    }
  }

  lemma SplitFront(s: string)
    requires SplitAtCommas(s, 0, Tokens(s, 0))
    ensures SplitAtCommas("," + s, 0, [""] + Tokens(s, 0))
  {
    hide Tokens;
    var r := Tokens(s, 0);
    var ts := [""] + r;
    assert ts[1..] == r && "" + "," + s == "," + s;
    forall i | 0 <= i < |ts|
      ensures CommasEnclosed(ts[i], 0) && (i < |ts| - 1 ==> Balance(ts[i]) == 0)
    {
      assert i > 0 ==> ts[i] == r[i - 1];
    }
  }

  lemma SplitGrown(s: string, nest: int)
    requires s != "" && !(nest == 0 && s[0] == ',')
    requires var nest' := Nesting(nest, s[0]); SplitAtCommas(s[1..], nest', Tokens(s[1..], nest'))
    ensures var r := Tokens(s[1..], Nesting(nest, s[0])); SplitAtCommas(s, nest, [[s[0]] + r[0]] + r[1..])
  {
    hide Tokens;
    var nest' := Nesting(nest, s[0]);
    var r := Tokens(s[1..], nest');
    var ts := [[s[0]] + r[0]] + r[1..];
    assert CommasEnclosed(r[0], nest');
    EnclosedMore(s[0], r[0], nest);
    assert |r| > 1 ==> ts[1..] == r[1..];
    assert CommaJoined(ts) == [s[0]] + CommaJoined(r) == s;
    forall i | 0 < i < |ts|
      ensures CommasEnclosed(ts[i], 0) && (i < |ts| - 1 ==> Balance(ts[i]) == 0)
    {
      assert ts[i] == r[i];
    }
    assert |ts| > 1 ==> nest' + Balance(r[0]) == 0;
  }

  predicate Space(c: char) {
    c in {' ', '\t', '\n', '\r', '\U{00000B}', '\U{00000C}'}
  }

  function SkipSpaces(s: string): string {
    if s != "" && Space(s[0]) then SkipSpaces(s[1..]) else s
  }

  const ULONG_MAX: nat := 0xFFFF_FFFF_FFFF_FFFF

  function Decimal(s: string, acc: nat): Option<nat> {
    if s == "" then Some(acc)
    else if '0' <= s[0] <= '9' then Decimal(s[1..], 10 * acc + (s[0] as int - '0' as int))
    else None
  }

  /** strtoul in base 10, for a text that it reads to its end. */
  function WholeNumber(s: string): Option<nat> {
    var t := SkipSpaces(s);
    var digits := if t != "" && (t[0] == '+' || t[0] == '-') then t[1..] else t;
    if digits == "" then None
    else
      match Decimal(digits, 0)
      case None => None
      case Some(n) =>
        if n > ULONG_MAX then Some(ULONG_MAX)
        else if t[0] == '-' && n > 0 then Some(ULONG_MAX + 1 - n)
        else Some(n)
  }

  /** The clause is the number of an argument of the enclosing call. */
  function ArgumentIndex(clause: string, args: seq<string>): (r: Option<nat>)
    ensures r.Some? ==> r.value < |args|
  {
    match WholeNumber(clause)
    case Some(n) => if 0 < n <= |args| then Some(n - 1) else None
    case None => None
  }

  function Before(s: string, r: Outcome): Outcome {
    if r.Fatal? then Fatal else Done(s + r.value, r.rest)
  }

  /** is_end_of_str: only the end of the text ends it. */
  const EndOfText: char -> bool := c => false

  // ---------------------------------------------------------------------
  // Expansion
  // ---------------------------------------------------------------------

  /** __expand_string: the text up to an end character that no reference covers. */
  function Expanded(m: Machine, counts: seq<nat>, text: string, isEnd: char -> bool, args: seq<string>): (r: Outcome)
    requires Counts(m, counts)
    ensures r.Done? ==> |r.rest| <= |text|
    decreases Allowance(counts), |text|, 0
  {
    if text == "" then Done("", "")
    else if text[0] == '$' then
      match Dollar(m, counts, text[1..], args)
      case Fatal => Fatal
      case Done(v, rest) => Before(v, Expanded(m, counts, rest, isEnd, args))
    else if isEnd(text[0]) then Done("", text)
    else Before(text[..1], Expanded(m, counts, text[1..], isEnd, args))
  }

  /** expand_dollar_with_args on the text after a dollar sign. */
  function Dollar(m: Machine, counts: seq<nat>, text: string, args: seq<string>): (r: Outcome)
    requires Counts(m, counts)
    ensures r.Done? ==> |r.rest| <= |text|
    decreases Allowance(counts), |text|, 3
  {
    if text == "" || text[0] != '(' then Done("$", text)
    else
      match Closing(text[1..], 0)
      case None => Fatal
      case Some(i) =>
        var v := Clause(m, counts, text[1..1 + i], args);
        if v.None? then Fatal else Done(v.value, text[2 + i..])
  }

  /** eval_clause. */
  function Clause(m: Machine, counts: seq<nat>, clause: string, args: seq<string>): Option<string>
    requires Counts(m, counts)
    decreases Allowance(counts), |clause|, 2
  {
    var index := ArgumentIndex(clause, args);
    if index.Some? then Some(args[index.value])
    else
      var tokens := Tokens(clause, 0);
      if |tokens| > MAX_ARGS then None
      else
        match AllExpanded(m, counts, tokens, args, |clause|)
        case None => None
        case Some(words) =>
          match VariableValue(m, counts, words[0], words[1..])
          case Failed => None
          case Value(s) => Some(s)
          case NoVariable => Otherwise(m, words[0], words[1..])
  }

  /** A name that is no variable: a built-in function, then the environment. */
  function Otherwise(m: Machine, name: string, args: seq<string>): Option<string> {
    match m.builtin(name, args)
    case Exits => None
    case Returns(s) => Some(s)
    case NoSuchFunction => if args == [] && m.env(name).Some? then m.env(name) else Some("")
  }

  function AllExpanded(m: Machine, counts: seq<nat>, tokens: seq<string>, args: seq<string>, ghost bound: nat): (r: Option<seq<string>>)
    requires Counts(m, counts)
    requires forall i | 0 <= i < |tokens| :: |tokens[i]| <= bound
    ensures r.Some? ==> |r.value| == |tokens|
    decreases Allowance(counts), bound, 1, |tokens|
  {
    if tokens == [] then Some([])
    else
      match Expanded(m, counts, tokens[0], EndOfText, args)
      case Fatal => None
      case Done(v, _) =>
        var rest := AllExpanded(m, counts, tokens[1..], args, bound);
        if rest.None? then None else Some([v] + rest.value)
  }

  /** variable_expand: the counter is one higher while the value is expanded. */
  function VariableValue(m: Machine, counts: seq<nat>, name: string, args: seq<string>): Reference
    requires Counts(m, counts)
    decreases Allowance(counts), 0, 1
  {
    match Lookup(m.vars, name)
    case None => NoVariable
    case Some(v) =>
      if (args == [] && counts[v] > 0) || counts[v] > MAX_DEPTH then Failed
      else if m.vars[v].flavor.Simple? then Value(m.vars[v].value)
      else
        AllowanceDrops(counts, v);
        match Expanded(m, counts[v := counts[v] + 1], m.vars[v].value, EndOfText, args)
        case Fatal => Failed
        case Done(s, _) => Value(s)
  }

  // ---------------------------------------------------------------------
  // The counters only guard
  // ---------------------------------------------------------------------

  ghost predicate Lower(d: seq<nat>, c: seq<nat>) {
    |d| == |c| && forall i | 0 <= i < |c| :: d[i] <= c[i]
  }

  /**
   * An expansion that succeeds does not depend on the counters: with lower ones
   * it succeeds with the same value.
   */
  lemma {:induction false} ExpandedLower(m: Machine, c: seq<nat>, d: seq<nat>, text: string, isEnd: char -> bool, args: seq<string>)
    requires Counts(m, c) && Counts(m, d) && Lower(d, c)
    requires Expanded(m, c, text, isEnd, args).Done?
    ensures Expanded(m, d, text, isEnd, args) == Expanded(m, c, text, isEnd, args)
    decreases Allowance(c), |text|, 0
  {
    hide Dollar, Lower;
    if text == "" {
    } else if text[0] == '$' {
      DollarLower(m, c, d, text[1..], args);
      ExpandedLower(m, c, d, Dollar(m, c, text[1..], args).rest, isEnd, args);
    } else if !isEnd(text[0]) {
      ExpandedLower(m, c, d, text[1..], isEnd, args);
    }
  }

  lemma {:induction false} DollarLower(m: Machine, c: seq<nat>, d: seq<nat>, text: string, args: seq<string>)
    requires Counts(m, c) && Counts(m, d) && Lower(d, c)
    requires Dollar(m, c, text, args).Done?
    ensures Dollar(m, d, text, args) == Dollar(m, c, text, args)
    decreases Allowance(c), |text|, 3
  {
    hide Clause, Lower;
    if text != "" && text[0] == '(' {
      var i := Closing(text[1..], 0).value;
      ClauseLower(m, c, d, text[1..1 + i], args);
    }
  }

  lemma {:induction false} ClauseLower(m: Machine, c: seq<nat>, d: seq<nat>, clause: string, args: seq<string>)
    requires Counts(m, c) && Counts(m, d) && Lower(d, c)
    requires Clause(m, c, clause, args).Some?
    ensures Clause(m, d, clause, args) == Clause(m, c, clause, args)
    decreases Allowance(c), |clause|, 2
  {
    hide AllExpanded, VariableValue, Tokens, Lower;
    if ArgumentIndex(clause, args).None? {
      var tokens := Tokens(clause, 0);
      AllLower(m, c, d, tokens, args, |clause|);
      var words := AllExpanded(m, c, tokens, args, |clause|).value;
      VariableLower(m, c, d, words[0], words[1..]);
    }
  }

  lemma {:induction false} AllLower(m: Machine, c: seq<nat>, d: seq<nat>, tokens: seq<string>, args: seq<string>, bound: nat)
    requires Counts(m, c) && Counts(m, d) && Lower(d, c)
    requires forall i | 0 <= i < |tokens| :: |tokens[i]| <= bound
    requires AllExpanded(m, c, tokens, args, bound).Some?
    ensures AllExpanded(m, d, tokens, args, bound) == AllExpanded(m, c, tokens, args, bound)
    decreases Allowance(c), bound, 1, |tokens|
  {
    hide Expanded, Lower;
    if tokens != [] {
      ExpandedLower(m, c, d, tokens[0], EndOfText, args);
      AllLower(m, c, d, tokens[1..], args, bound);
    }
  }

  lemma {:induction false} VariableLower(m: Machine, c: seq<nat>, d: seq<nat>, name: string, args: seq<string>)
    requires Counts(m, c) && Counts(m, d) && Lower(d, c)
    requires !VariableValue(m, c, name, args).Failed?
    ensures VariableValue(m, d, name, args) == VariableValue(m, c, name, args)
    decreases Allowance(c), 0, 1
  {
    hide Expanded, Lookup;
    var v := Lookup(m.vars, name);
    if v.Some? && m.vars[v.value].flavor.Recursive? {
      AllowanceDrops(c, v.value);
      ExpandedLower(m, c[v.value := c[v.value] + 1], d[v.value := d[v.value] + 1], m.vars[v.value].value, EndOfText, args);
    }
  }

  /** A text without references expands to itself. */
  lemma {:induction false} PlainText(m: Machine, counts: seq<nat>, text: string, args: seq<string>)
    requires Counts(m, counts) && '$' !in text
    ensures Expanded(m, counts, text, EndOfText, args) == Done(text, "")
    decreases |text|
  {
    if text != "" {
      PlainText(m, counts, text[1..], args);
      assert text[..1] + text[1..] == text;
    }
  }

  /**
   * Two texts one after the other expand to their expansions one after the
   * other, when the first is complete by itself.
   */
  lemma {:induction false} ExpandedAppend(m: Machine, counts: seq<nat>, a: string, b: string, args: seq<string>)
    requires Counts(m, counts)
    requires Expanded(m, counts, a, EndOfText, args).Done? && (a == "" || a[|a| - 1] != '$')
    ensures Expanded(m, counts, a + b, EndOfText, args)
         == Before(Expanded(m, counts, a, EndOfText, args).value, Expanded(m, counts, b, EndOfText, args))
    decreases |a|
  {
    hide Dollar;
    var eb := Expanded(m, counts, b, EndOfText, args);
    if a == "" {
      assert a + b == b;
      assert eb.Done? ==> "" + eb.value == eb.value;
    } else if a[0] == '$' {
      assert (a + b)[1..] == a[1..] + b;
      DollarAppend(m, counts, a[1..], b, args);
      var r := Dollar(m, counts, a[1..], args);
      ExpandedAppend(m, counts, r.rest, b, args);
      BeforeTwice(r.value, Expanded(m, counts, r.rest, EndOfText, args).value, eb);
    } else {
      assert (a + b)[1..] == a[1..] + b && (a + b)[..1] == a[..1];
      ExpandedAppend(m, counts, a[1..], b, args);
      BeforeTwice(a[..1], Expanded(m, counts, a[1..], EndOfText, args).value, eb);
    }
  }

  lemma BeforeTwice(s: string, t: string, r: Outcome)
    ensures Before(s, Before(t, r)) == Before(s + t, r)
  {
    if r.Done? {
      assert s + (t + r.value) == s + t + r.value;
    }
  }

  lemma DollarAppend(m: Machine, counts: seq<nat>, a: string, b: string, args: seq<string>)
    requires Counts(m, counts) && a != "" && a[|a| - 1] != '$'
    requires Dollar(m, counts, a, args).Done?
    ensures Dollar(m, counts, a + b, args)
         == Done(Dollar(m, counts, a, args).value, Dollar(m, counts, a, args).rest + b)
    ensures var rest := Dollar(m, counts, a, args).rest; rest == "" || rest[|rest| - 1] != '$'
  {
    hide Clause, Closing;
    if a[0] == '(' {
      assert (a + b)[1..] == a[1..] + b;
      ClosingAppend(a[1..], b, 0);
      var i := Closing(a[1..], 0).value;
      assert (a + b)[1..1 + i] == a[1..1 + i];
      assert (a + b)[2 + i..] == a[2 + i..] + b;
    }
  }

  lemma {:induction false} ClosingAppend(a: string, b: string, nest: nat)
    requires Closing(a, nest).Some?
    ensures Closing(a + b, nest) == Closing(a, nest)
    decreases |a|
  {
    assert (a + b)[0] == a[0];
    if !(a[0] == ')' && nest == 0) {
      assert (a + b)[1..] == a[1..] + b;
      ClosingAppend(a[1..], b, Nesting(nest, a[0]));
    }
  }
}
