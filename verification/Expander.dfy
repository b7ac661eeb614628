/**
 * The expander of kconf/preprocess.c with its cursors, nesting counters and
 * per-variable counters that go up and down around the recursion.
 */
module Expander {
  import opened Wrappers
  import opened Preprocess
  import Macros
  import Numerals

  /** The loop of expand_dollar_with_args that looks for the closing parenthesis. */
  method FindClosing(text: string, p: nat) returns (r: Option<nat>)
    requires p <= |text|
    ensures Closing(text[p..], 0).None? ==> r.None?
    ensures Closing(text[p..], 0).Some? ==> r == Some(p + Closing(text[p..], 0).value)
  {
    hide Closing;
    var q, nest: nat := p, 0;
    while q < |text|
      invariant p <= q <= |text|
      invariant Closing(text[p..], 0) == Further(q - p, Closing(text[q..], nest))
    {
      ClosingStep(text, q, nest);
      if text[q] == '(' {
        nest := nest + 1;
      } else if text[q] == ')' {
        if nest == 0 {
          return Some(q);
        }
        nest := nest - 1;
      }
      q := q + 1;
    }
    assert Closing(text[q..], nest) == None by {
      NothingCloses(nest);
    }
    return None;
  }

  lemma ClosingStep(text: string, q: nat, nest: nat)
    requires q < |text|
    ensures Closing(text[q..], nest) ==
      if text[q] == ')' && nest == 0 then Some(0)
      else Further(1, Closing(text[q + 1..], Nesting(nest, text[q])))
  {
    assert text[q..][1..] == text[q + 1..];
  }

  lemma NothingCloses(nest: nat)
    ensures Closing("", nest) == None
  {
  }

  function Further(n: nat, r: Option<nat>): Option<nat> {
    if r.None? then None else Some(n + r.value)
  }

  /** Tokens found so far, then those of the rest, whose first one has begun already. */
  function Joined(argv: seq<string>, begun: string, rest: seq<string>): seq<string>
    requires rest != []
  {
    argv + [begun + rest[0]] + rest[1..]
  }

  lemma JoinedComma(argv: seq<string>, begun: string, s: string)
    requires s != "" && s[0] == ','
    ensures Joined(argv, begun, Tokens(s, 0)) == Joined(argv + [begun], "", Tokens(s[1..], 0))
  {
    var r := Tokens(s[1..], 0);
    assert Tokens(s, 0) == [""] + r;
    assert begun + "" == begun && "" + r[0] == r[0];
    assert ([""] + r)[1..] == r == [r[0]] + r[1..];
  }

  lemma JoinedOther(argv: seq<string>, begun: string, s: string, nest: int)
    requires s != "" && !(nest == 0 && s[0] == ',')
    ensures Joined(argv, begun, Tokens(s, nest)) == Joined(argv, begun + [s[0]], Tokens(s[1..], Nesting(nest, s[0])))
  {
    var r := Tokens(s[1..], Nesting(nest, s[0]));
    assert Tokens(s, nest) == [[s[0]] + r[0]] + r[1..];
    assert begun + ([s[0]] + r[0]) == begun + [s[0]] + r[0];
  }

  /** The splitting loop of eval_clause; None for more tokens than an argument vector holds. */
  method SplitClause(clause: string) returns (r: Option<seq<string>>)
    ensures r == if |Tokens(clause, 0)| > MAX_ARGS then None else Some(Tokens(clause, 0))
  {
    hide Tokens;
    var p, prev, nest := 0, 0, 0;
    var argv: seq<string> := [];
    assert clause[0..] == clause;
    assert Tokens(clause, 0) == Joined([], "", Tokens(clause, 0)) by {
      assert "" + Tokens(clause, 0)[0] == Tokens(clause, 0)[0];
    }
    while p < |clause|
      invariant prev <= p <= |clause| && |argv| <= MAX_ARGS
      invariant Tokens(clause, 0) == Joined(argv, clause[prev..p], Tokens(clause[p..], nest))
    {
      assert clause[p..][1..] == clause[p + 1..];
      if nest == 0 && clause[p] == ',' {
        JoinedComma(argv, clause[prev..p], clause[p..]);
        if |argv| >= MAX_ARGS {
          return None;
        }
        argv := argv + [clause[prev..p]];
        prev := p + 1;
        assert clause[prev..p + 1] == "";
      } else {
        JoinedOther(argv, clause[prev..p], clause[p..], nest);
        assert clause[prev..p + 1] == clause[prev..p] + [clause[p]];
        if clause[p] == '(' {
          nest := nest + 1;
        } else if clause[p] == ')' {
          nest := nest - 1;
        }
      }
      p := p + 1;
    }
    assert Tokens(clause[p..], nest) == [""] by {
      NoTokens(nest);
    }
    assert clause[prev..p] + "" == clause[prev..];
    assert Joined(argv, clause[prev..p], [""]) == argv + [clause[prev..]];
    if |argv| >= MAX_ARGS {
      return None;
    }
    return Some(argv + [clause[prev..]]);
  }

  lemma NoTokens(nest: int)
    ensures Tokens("", nest) == [""]
  {
  }

  /** The list of variables with their exp_count fields. */
  class Expander {
    const m: Machine
    var counts: seq<nat>

    constructor (m: Machine)
      ensures this.m == m && Valid() && forall i | 0 <= i < |counts| :: counts[i] == 0
    {
      this.m := m;
      counts := seq(|m.vars|, _ => 0);
    }

    ghost predicate Valid()
      reads this
    {
      Counts(m, counts)
    }

    method FindVariable(name: string) returns (r: Option<nat>)
      ensures r == Lookup(m.vars, name)
    {
      hide Lookup;
      var v := 0;
      while v < |m.vars|
        invariant v <= |m.vars|
        invariant forall k | 0 <= k < v :: m.vars[k].name != name
      {
        if m.vars[v].name == name {
          assert Lookup(m.vars, name) == Some(v);
          return Some(v);
        }
        v := v + 1;
      }
      return None;
    }

    /** variable_expand. */
    method VariableExpand(name: string, args: seq<string>) returns (r: Reference)
      requires Valid()
      modifies this
      ensures r == VariableValue(m, old(counts), name, args)
      ensures !r.Failed? ==> counts == old(counts)
      decreases Allowance(counts), 0, 1
    {
      hide Expanded, Lookup, Allowance;
      var found := FindVariable(name);
      if found.None? {
        return NoVariable;
      }
      var v := found.value;
      if |args| == 0 && counts[v] > 0 {
        return Failed;
      }
      if counts[v] > MAX_DEPTH {
        return Failed;
      }
      AllowanceDrops(counts, v);
      counts := counts[v := counts[v] + 1];
      var res := m.vars[v].value;
      if m.vars[v].flavor.Recursive? {
        var e := ExpandString(m.vars[v].value, 0, EndOfText, args);
        if e.None? {
          return Failed;
        }
        res := e.value.0;
      }
      counts := counts[v := counts[v] - 1];
      return Value(res);
    }

    /** eval_clause. */
    method EvalClause(clause: string, args: seq<string>) returns (r: Option<string>)
      requires Valid()
      modifies this
      ensures r == Clause(m, old(counts), clause, args)
      ensures forall k | 1 <= k <= |args| && k <= ULONG_MAX && clause == Numerals.Numeral(k) :: r == Some(args[k - 1])
      ensures r.Some? ==> counts == old(counts)
      decreases Allowance(counts), |clause|, 2
    {
      hide Tokens, AllExpanded, VariableValue, Allowance, ArgumentIndex, Lookup, Counts;
      forall k | 1 <= k <= |args| && k <= ULONG_MAX && clause == Numerals.Numeral(k)
        ensures Clause(m, counts, clause, args) == Some(args[k - 1])
      {
        Macros.ArgumentMeaning(m, counts, args, k);
      }
      var index := ArgumentIndex(clause, args);
      if index.Some? {
        return Some(args[index.value]);
      }
      var split := SplitClause(clause);
      if split.None? {
        return None;
      }
      var words := ExpandTokens(split.value, args, |clause|);
      if words.None? {
        return None;
      }
      var name, newArgs := words.value[0], words.value[1..];
      var ref := VariableExpand(name, newArgs);
      if ref.Failed? {
        return None;
      }
      if ref.Value? {
        return Some(ref.text);
      }
      var call := m.builtin(name, newArgs);
      if call.Exits? {
        return None;
      }
      if call.Returns? {
        return Some(call.value);
      }
      if |newArgs| == 0 && m.env(name).Some? {
        return m.env(name);
      }
      return Some("");
    }

    /** The name and the arguments of a clause, expanded in order. */
    method ExpandTokens(tokens: seq<string>, args: seq<string>, ghost bound: nat) returns (r: Option<seq<string>>)
      requires Valid() && forall i | 0 <= i < |tokens| :: |tokens[i]| <= bound
      modifies this
      ensures r == AllExpanded(m, old(counts), tokens, args, bound)
      ensures r.Some? ==> counts == old(counts)
      decreases Allowance(counts), bound, 1
    {
      hide Expanded, Allowance, Counts;
      var i, words := 0, [];
      assert tokens[0..] == tokens;
      PrefixedNone(AllExpanded(m, counts, tokens, args, bound));
      while i < |tokens|
        invariant i == |words| <= |tokens| && counts == old(counts)
        invariant AllExpanded(m, counts, tokens, args, bound)
               == Prefixed(words, AllExpanded(m, counts, tokens[i..], args, bound))
      {
        assert tokens[i..][1..] == tokens[i + 1..];
        var e := ExpandString(tokens[i], 0, EndOfText, args);
        if e.None? {
          return None;
        }
        PrefixedOne(words, e.value.0, AllExpanded(m, counts, tokens[i + 1..], args, bound));
        words := words + [e.value.0];
        i := i + 1;
      }
      assert words + [] == words;
      return Some(words);
    }

    /** expand_dollar_with_args at position p, just after the dollar sign. */
    method ExpandDollar(text: string, p: nat, args: seq<string>) returns (r: Option<(string, nat)>)
      requires Valid() && p <= |text|
      modifies this
      ensures r.Some? ==> p <= r.value.1 <= |text|
      ensures Dollar(m, old(counts), text[p..], args) == if r.None? then Fatal else Done(r.value.0, text[r.value.1..])
      ensures r.Some? ==> counts == old(counts)
      decreases Allowance(counts), |text| - p, 3
    {
      hide Clause, Closing, Allowance, Counts;
      if p == |text| || text[p] != '(' {
        return Some(("$", p));
      }
      assert text[p..][1..] == text[p + 1..];
      var q := FindClosing(text, p + 1);
      if q.None? {
        return None;
      }
      ghost var i := Closing(text[p + 1..], 0).value;
      assert text[p..][1..1 + i] == text[p + 1..q.value];
      assert text[p..][2 + i..] == text[q.value + 1..];
      var v := EvalClause(text[p + 1..q.value], args);
      if v.None? {
        return None;
      }
      return Some((v.value, q.value + 1));
    }

    /** __expand_string from position start on, with the position it stops at. */
    method ExpandString(text: string, start: nat, isEnd: char -> bool, args: seq<string>) returns (r: Option<(string, nat)>)
      requires Valid() && start <= |text|
      modifies this
      ensures r.Some? ==> start <= r.value.1 <= |text|
      ensures Expanded(m, old(counts), text[start..], isEnd, args) == if r.None? then Fatal else Done(r.value.0, text[r.value.1..])
      ensures r.Some? ==> counts == old(counts)
      decreases Allowance(counts), |text| - start, 0
    {
      hide Dollar, Allowance, Counts, Expanded, Before;
      var out, from, p := "", start, start;
      ghost var all := Expanded(m, counts, text[start..], isEnd, args);
      BeforeNothing(all);
      assert out + text[from..p] == "";
      while true
        invariant start <= from <= p <= |text| && counts == old(counts)
        invariant all == Before(out + text[from..p], Expanded(m, counts, text[p..], isEnd, args))
        decreases |text| - p
      {
        ExpandedHere(m, counts, text, p, isEnd, args, out + text[from..p]);
        if p < |text| && text[p] == '$' {
          var e := ExpandDollar(text, p + 1, args);
          if e.None? {
            return None;
          }
          out := out + text[from..p] + e.value.0;
          p := e.value.1;
          from := p;
          assert out + text[from..p] == out;
          continue;
        }
        if p == |text| || isEnd(text[p]) {
          break;
        }
        assert out + text[from..p] + text[p..p + 1] == out + text[from..p + 1];
        p := p + 1;
      }
      out := out + text[from..p];
      return Some((out, p));
    }
  }

  /** One step of the expansion at p, behind the text that is done. */
  lemma ExpandedHere(m: Machine, counts: seq<nat>, text: string, p: nat, isEnd: char -> bool, args: seq<string>, done: string)
    requires Counts(m, counts) && p <= |text|
    ensures var r := Before(done, Expanded(m, counts, text[p..], isEnd, args));
      if p == |text| then r == Done(done, text[p..])
      else if text[p] == '$' then
        var e := Dollar(m, counts, text[p + 1..], args);
        r == if e.Fatal? then Fatal else Before(done + e.value, Expanded(m, counts, e.rest, isEnd, args))
      else if isEnd(text[p]) then r == Done(done, text[p..])
      else r == Before(done + text[p..p + 1], Expanded(m, counts, text[p + 1..], isEnd, args))
  {
    hide Dollar, Allowance, Counts;
    assert done + "" == done;
    if p < |text| {
      assert text[p..][1..] == text[p + 1..] && text[p..][..1] == text[p..p + 1];
      if text[p] == '$' {
        var e := Dollar(m, counts, text[p + 1..], args);
        if e.Done? {
          BeforeTwice(done, e.value, Expanded(m, counts, e.rest, isEnd, args));
        }
      } else if !isEnd(text[p]) {
        BeforeTwice(done, text[p..p + 1], Expanded(m, counts, text[p + 1..], isEnd, args));
      }
    }
  }

  lemma BeforeNothing(r: Outcome)
    ensures r == Before("", r)
  {
    if r.Done? {
      assert "" + r.value == r.value;
    }
  }

  function Prefixed(words: seq<string>, r: Option<seq<string>>): Option<seq<string>> {
    if r.None? then None else Some(words + r.value)
  }

  lemma PrefixedNone(r: Option<seq<string>>)
    ensures Prefixed([], r) == r
  {
    assert r.Some? ==> [] + r.value == r.value;
  }

  lemma PrefixedOne(words: seq<string>, w: string, r: Option<seq<string>>)
    ensures Prefixed(words, if r.None? then None else Some([w] + r.value)) == Prefixed(words + [w], r)
  {
    if r.Some? {
      assert words + ([w] + r.value) == words + [w] + r.value;
    }
  }
}
