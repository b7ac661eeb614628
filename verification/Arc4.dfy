/**
  The ARC4 cipher (compat/lib-crypto-arc4.c): key setup and the loop that reads
  the next state values ahead, against the textbook generator.
*/
module Arc4 {

  type Table = seq<nat>

  // ----- the textbook cipher -----

  function Identity(n: nat): (s: Table)
    ensures |s| == n && forall i | 0 <= i < n :: s[i] == i
  {
    seq(n, i => i)
  }

  /** The table is a permutation of 0..255. */
  ghost predicate IsPermutation(s: Table) {
    |s| == 256 && multiset(s) == multiset(Identity(256))
  }

  function Swap(s: Table, i: nat, j: nat): (r: Table)
    requires i < |s| && j < |s|
    ensures |r| == |s|
  {
    s[i := s[j]][j := s[i]]
  }

  /** The state of the generator: the table and the two indices. */
  datatype State = State(s: Table, i: nat, j: nat)

  ghost predicate Valid(st: State) {
    IsPermutation(st.s) && st.i < 256 && st.j < 256
  }

  lemma InRange(s: Table, k: nat)
    requires IsPermutation(s) && k < 256
    ensures s[k] < 256
  {
    assert s[k] in multiset(s);
    assert s[k] in multiset(Identity(256));
  }

  lemma SwapPermutes(s: Table, i: nat, j: nat)
    requires IsPermutation(s) && i < 256 && j < 256
    ensures IsPermutation(Swap(s, i, j))
  {
  }

  /** One step: advance both indices and swap. */
  function Next(st: State): (r: State)
    requires |st.s| == 256 && st.i < 256 && st.j < 256
    ensures |r.s| == 256 && r.i < 256 && r.j < 256
  {
    var i := (st.i + 1) % 256;
    var j := (st.j + st.s[i]) % 256;
    State(Swap(st.s, i, j), i, j)
  }

  /** The byte generated by a step. */
  function Output(st: State): nat
    requires |st.s| == 256 && st.i < 256 && st.j < 256
  {
    var n := Next(st);
    n.s[(n.s[n.i] + n.s[n.j]) % 256]
  }

  function After(st: State, n: nat): (r: State)
    requires |st.s| == 256 && st.i < 256 && st.j < 256
    ensures |r.s| == 256 && r.i < 256 && r.j < 256
  {
    if n == 0 then st else Next(After(st, n - 1))
  }

  /** The n-th byte of the key stream. */
  function StreamByte(st: State, n: nat): nat
    requires |st.s| == 256 && st.i < 256 && st.j < 256
  {
    Output(After(st, n))
  }

  lemma NextValid(st: State)
    requires Valid(st)
    ensures Valid(Next(st)) && Output(st) < 256
  {
    var n := Next(st);
    SwapPermutes(st.s, n.i, n.j);
    InRange(n.s, (n.s[n.i] + n.s[n.j]) % 256);
  }

  lemma StateShape(st: State)
    requires Valid(st)
    ensures |st.s| == 256 && st.i < 256 && st.j < 256
  {
  }

  lemma {:induction false} AfterValid(st: State, n: nat)
    requires Valid(st)
    ensures Valid(After(st, n)) && StreamByte(st, n) < 256
  {
    hide Next, Output, IsPermutation;
    StateShape(st);
    if n > 0 {
      AfterValid(st, n - 1);
      NextValid(After(st, n - 1));
    }
    NextValid(After(st, n));
  }

  /** Encryption and decryption: the text xored with the key stream. */
  ghost function Crypt(st: State, text: seq<bv8>): (r: seq<bv8>)
    requires Valid(st)
    ensures |r| == |text|
  {
    seq(|text|, k requires 0 <= k < |text| => AfterValid(st, k); text[k] ^ (StreamByte(st, k) as bv8))
  }

  lemma {:induction false} AfterSplit(st: State, m: nat, n: nat)
    requires |st.s| == 256 && st.i < 256 && st.j < 256
    ensures After(st, m + n) == After(After(st, m), n)
  {
    hide Next;
    if n > 0 {
      AfterSplit(st, m, n - 1);
      assert m + n - 1 == m + (n - 1);
    }
  }

  /** Two calls in a row are one call on the concatenation. */
  lemma CryptConcat(st: State, a: seq<bv8>, b: seq<bv8>)
    requires Valid(st)
    ensures Valid(After(st, |a|))
    ensures Crypt(st, a + b) == Crypt(st, a) + Crypt(After(st, |a|), b)
    ensures After(st, |a + b|) == After(After(st, |a|), |b|)
  {
    hide Next, Output, After, IsPermutation;
    AfterValid(st, |a|);
    StateShape(st);
    AfterSplit(st, |a|, |b|);
    forall k | 0 <= k < |b|
      ensures StreamByte(st, |a| + k) == StreamByte(After(st, |a|), k)
    {
      AfterSplit(st, |a|, k);
    }
  }

  /** Encrypting twice from the same state gives the text back. */
  lemma CryptTwice(st: State, text: seq<bv8>)
    requires Valid(st)
    ensures Crypt(st, Crypt(st, text)) == text
  {
    forall k | 0 <= k < |text|
      ensures Crypt(st, Crypt(st, text))[k] == text[k]
    {
      AfterValid(st, k);
      XorTwice(text[k], StreamByte(st, k) as bv8);
    }
  }

  lemma XorTwice(a: bv8, b: bv8)
    ensures (a ^ b) ^ b == a
  {
  }

  /** The key schedule: the table and the running index after `n` rounds. */
  function Schedule(key: seq<bv8>, n: nat): (r: (Table, nat))
    requires |key| >= 1 && n <= 256
    ensures |r.0| == 256 && r.1 < 256
  {
    if n == 0 then (Identity(256), 0)
    else
      var (s, j) := Schedule(key, n - 1);
      var i := n - 1;
      var j' := (j + s[i] + key[i % |key|] as nat) % 256;
      (Swap(s, i, j'), j')
  }

  lemma {:induction false} SchedulePermutes(key: seq<bv8>, n: nat)
    requires |key| >= 1 && n <= 256
    ensures IsPermutation(Schedule(key, n).0)
  {
    if n > 0 {
      SchedulePermutes(key, n - 1);
      SwapPermutes(Schedule(key, n - 1).0, n - 1, Schedule(key, n).1);
    }
  }

  // ----- the code -----

  /** The context: `x` is the next first index, one ahead of the textbook. */
  class Arc4Context {
    const S: array<nat>
    var x: nat
    var y: nat

    ghost predicate Ready()
      reads this, S
    {
      S.Length == 256 && x < 256 && y < 256 && IsPermutation(S[..])
    }

    ghost function Abstract(): State
      requires S.Length == 256
      reads this, S
    {
      State(S[..], (x + 255) % 256, y)
    }

    constructor ()
      ensures S.Length == 256 && fresh(S)
    {
      S := new nat[256];
      x, y := 0, 0;
    }

    /** arc4_setkey. */
    method SetKey(key: seq<bv8>)
      requires S.Length == 256 && |key| >= 1
      modifies this, S
      ensures Ready() && Abstract() == State(Schedule(key, 256).0, 0, 0)
    {
      x, y := 1, 0;
      for i := 0 to 256
        invariant x == 1 && y == 0 && forall k | 0 <= k < i :: S[k] == k
      {
        S[i] := i;
      }
      assert S[..] == Identity(256);
      Mix(key);
      SchedulePermutes(key, 256);
    }

    /** The second loop of arc4_setkey. */
    method Mix(key: seq<bv8>)
      requires S.Length == 256 && |key| >= 1 && S[..] == Identity(256)
      modifies S
      ensures S[..] == Schedule(key, 256).0
    {
      var j, k := 0, 0;
      for i := 0 to 256
        invariant k == i % |key| && j < 256
        invariant (S[..], j) == Schedule(key, i)
      {
        var a := S[i];
        ghost var before := S[..];
        j := (j + key[k] as nat + a) % 256;
        S[i] := S[j];
        S[j] := a;
        assert S[..] == Swap(before, i, j);
        k := if k + 1 >= |key| then 0 else k + 1;
        NextIndex(i, |key|);
      }
    }

    /** One round of arc4_crypt: swap, fetch the values of the next round, output. */
    method Round(x1: nat, y1: nat, a: nat, b: nat, input: bv8, ghost now: State)
      returns (output: bv8, x2: nat, ty: nat, ta: nat, tb: nat)
      requires S.Length == 256 && Valid(now) && S[..] == now.s && Fetched(now, x1, y1, a, b)
      modifies S
      ensures Valid(Next(now)) && S[..] == Next(now).s && Output(now) < 256
      ensures output == input ^ (Output(now) as bv8)
      ensures y1 == Next(now).j && Fetched(Next(now), x2, ty, ta, tb)
    {
      NextValid(now);
      ghost var after := Next(now);
      assert after.s == Swap(now.s, x1, y1) && after.i == x1 && after.j == y1;
      hide IsPermutation;
      S[y1] := a;
      var sum := (a + b) % 256;
      S[x1] := b;
      assert S[..] == after.s;
      assert sum == (after.s[x1] + after.s[y1]) % 256;
      x2 := (x1 + 1) % 256;
      ta := S[x2];
      ty := (y1 + ta) % 256;
      tb := S[ty];
      output := input ^ (S[sum] as bv8);
    }

    /** arc4_crypt. */
    method Encrypt(text: seq<bv8>) returns (out: seq<bv8>)
      requires Ready()
      modifies this, S
      ensures Ready() && old(Valid(Abstract()))
      ensures out == Crypt(old(Abstract()), text)
      ensures Abstract() == After(old(Abstract()), |text|)
    {
      hide Next, Output, After, Crypt, IsPermutation, Fetched;
      ghost var st := Abstract();
      CryptNothing(st);
      out := [];
      if text == [] {
        return;
      }
      var x1: nat, y1: nat := x, y;
      StartFetched(S[..], x1, y1);
      assert S[..][x1] == S[x1];
      var a: nat := S[x1];
      y1 := (y1 + a) % 256;
      var b: nat := S[y1];
      ghost var now := st;
      while true
        invariant S.Length == 256 && Valid(now) && now == After(st, |out|) && S[..] == now.s
        invariant Fetched(now, x1, y1, a, b)
        invariant |out| < |text| && out == Crypt(st, text[..|out|])
        decreases |text| - |out|
      {
        var output, x2, ty, ta, tb := Round(x1, y1, a, b, text[|out|], now);
        CryptSnoc(st, text, |out|);
        out := out + [output];
        now := Next(now);
        x1 := x2;
        if |out| == |text| {
          EndIndex(now, x1, ty, ta, tb);
          break;
        }
        y1, a, b := ty, ta, tb;
      }
      assert text[..|text|] == text;
      x, y := x1, y1;
    }
  }

  /** The values a round starts with: the next index, and the two entries to be swapped. */
  predicate Fetched(st: State, x: nat, y: nat, a: nat, b: nat)
    requires |st.s| == 256
  {
    x == (st.i + 1) % 256 && a == st.s[x] && y == (st.j + a) % 256 && b == st.s[y]
  }

  lemma StartFetched(s: Table, x: nat, y: nat)
    requires |s| == 256 && x < 256
    ensures Fetched(State(s, (x + 255) % 256, y), x, (y + s[x]) % 256, s[x], s[(y + s[x]) % 256])
  {
  }

  lemma EndIndex(st: State, x: nat, y: nat, a: nat, b: nat)
    requires |st.s| == 256 && st.i < 256 && Fetched(st, x, y, a, b)
    ensures x < 256 && (x + 255) % 256 == st.i
  {
  }

  lemma CryptNothing(st: State)
    requires Valid(st)
    ensures Crypt(st, []) == [] && After(st, 0) == st
  {
  }

  lemma CryptSnoc(st: State, text: seq<bv8>, n: nat)
    requires Valid(st) && n < |text|
    ensures After(st, n + 1) == Next(After(st, n)) && Valid(After(st, n)) && Output(After(st, n)) < 256
    ensures Crypt(st, text[..n + 1]) == Crypt(st, text[..n]) + [text[n] ^ (Output(After(st, n)) as bv8)]
  {
    hide Next, Output, IsPermutation;
    AfterValid(st, n);
    StateShape(st);
    var s, t := Crypt(st, text[..n + 1]), Crypt(st, text[..n]);
    forall k | 0 <= k < n
      ensures s[k] == t[k]
    {
      AfterValid(st, k);
    }
    assert s == t + [s[n]];
  }

  lemma NextIndex(i: nat, n: nat)
    requires n >= 1
    ensures (i + 1) % n == if i % n + 1 >= n then 0 else i % n + 1
  {
    var q, r := i / n, i % n;
    assert i == q * n + r;
    if r + 1 < n {
      assert i + 1 == q * n + (r + 1);
      ModUnique(i + 1, n, q, r + 1);
    } else {
      assert i + 1 == (q + 1) * n;
      ModUnique(i + 1, n, q + 1, 0);
    }
  }

  lemma ModUnique(i: nat, n: nat, q: nat, r: nat)
    requires n >= 1 && r < n && i == q * n + r
    ensures i % n == r
  {
    var d := q - i / n;
    assert i == (i / n) * n + i % n;
    assert d * n == q * n - (i / n) * n;
    MultipleAtLeast(d, n);
    MultipleAtLeast(-d, n);
    assert (-d) * n == -(d * n);
  }

  lemma MultipleAtLeast(d: int, n: nat)
    ensures d >= 1 ==> d * n >= n
  {
  }
}
