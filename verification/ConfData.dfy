/**
 * The .config file format of kconf/confdata.c: escaping and unescaping of
 * string values, the line a symbol is printed as, and the reader of whole files.
 * A C string is a sequence of characters up to, and without, its NUL.
 */
module ConfData {
  import opened Wrappers

  const NUL: char := '\0'
  const PREFIX := "CONFIG_"

  predicate Special(c: char) {
    c == '"' || c == '\\'
  }

  predicate NulFree(s: string) {
    NUL !in s
  }

  /** The C string that starts a buffer. */
  function CString(b: string): (s: string)
    ensures NulFree(s)
    ensures NulFree(b) ==> s == b
  {
    if b == "" || b[0] == NUL then "" else [b[0]] + CString(b[1..])
  }

  lemma {:induction false} CStringEnds(s: string, rest: string)
    requires NulFree(s)
    ensures CString(s + [NUL] + rest) == s
  {
    if s == "" {
      assert (s + [NUL] + rest)[0] == NUL;
    } else {
      assert (s + [NUL] + rest)[1..] == s[1..] + [NUL] + rest;
      CStringEnds(s[1..], rest);
    }
  }

  // ---------------------------------------------------------------------
  // Escaping
  // ---------------------------------------------------------------------

  function EscapedBody(s: string): string {
    if s == "" then ""
    else (if Special(s[0]) then ['\\', s[0]] else [s[0]]) + EscapedBody(s[1..])
  }

  function Escaped(s: string): string {
    "\"" + EscapedBody(s) + "\""
  }

  function SpecialCount(s: string): nat {
    if s == "" then 0 else (if Special(s[0]) then 1 else 0) + SpecialCount(s[1..])
  }

  lemma {:induction false} EscapedBodyLength(s: string)
    ensures |EscapedBody(s)| == |s| + SpecialCount(s)
  {
    if s != "" {
      EscapedBodyLength(s[1..]);
    }
  }

  lemma {:induction false} EscapedBodySplit(s: string, t: string)
    ensures EscapedBody(s + t) == EscapedBody(s) + EscapedBody(t)
    ensures SpecialCount(s + t) == SpecialCount(s) + SpecialCount(t)
  {
    if s == "" {
      assert s + t == t;
    } else {
      assert (s + t)[1..] == s[1..] + t;
      EscapedBodySplit(s[1..], t);
    }
  }

  lemma {:induction false} PlainText(s: string)
    requires forall c | c in s :: !Special(c)
    ensures EscapedBody(s) == s && SpecialCount(s) == 0
  {
    if s != "" {
      PlainText(s[1..]);
    }
  }

  lemma OneSpecial(c: char)
    requires Special(c)
    ensures EscapedBody([c]) == ['\\', c] && SpecialCount([c]) == 1
  {
    assert [c][1..] == "";
  }

  /** Dropping a plain stretch and then one special character. */
  lemma SpanThenSpecial(s: string, i: nat, n: nat)
    requires i + n < |s|
    requires forall c | c in s[i..i + n] :: !Special(c)
    requires Special(s[i + n])
    ensures EscapedBody(s[..i + n + 1]) == EscapedBody(s[..i]) + s[i..i + n] + ['\\', s[i + n]]
    ensures SpecialCount(s[..i + n + 1]) == SpecialCount(s[..i]) + 1
  {
    hide EscapedBody, SpecialCount;
    assert s[..i + n + 1] == s[..i] + s[i..i + n] + [s[i + n]];
    EscapedBodySplit(s[..i] + s[i..i + n], [s[i + n]]);
    EscapedBodySplit(s[..i], s[i..i + n]);
    PlainText(s[i..i + n]);
    OneSpecial(s[i + n]);
  }

  lemma SpanToEnd(s: string, i: nat)
    requires i <= |s|
    requires forall c | c in s[i..] :: !Special(c)
    ensures EscapedBody(s) == EscapedBody(s[..i]) + s[i..]
    ensures SpecialCount(s) == SpecialCount(s[..i])
  {
    hide EscapedBody, SpecialCount;
    assert s == s[..i] + s[i..];
    EscapedBodySplit(s[..i], s[i..]);
    PlainText(s[i..]);
  }

  /** strcspn(p, "\"\\") at position i. */
  method Span(s: string, i: nat) returns (n: nat)
    requires i <= |s|
    ensures i + n <= |s|
    ensures forall c | c in s[i..i + n] :: !Special(c)
    ensures i + n < |s| ==> Special(s[i + n])
  {
    n := 0;
    while i + n < |s| && !Special(s[i + n])
      invariant i + n <= |s|
      invariant forall c | c in s[i..i + n] :: !Special(c)
    {
      assert s[i..i + n + 1] == s[i..i + n] + [s[i + n]];
      n := n + 1;
    }
  }

  /** A heap buffer that is appended to with strcat and strncat. */
  class Buffer {
    var data: array<char>
    var used: nat

    ghost predicate Valid()
      reads this, data
    {
      used < data.Length && data[used] == NUL
    }

    ghost function Text(): string
      requires Valid()
      reads this, data
    {
      data[..used]
    }

    constructor (size: nat)
      requires size > 0
      ensures Valid() && fresh(data) && data.Length == size && Text() == ""
    {
      data := new char[size];
      used := 0;
      new;
      data[0] := NUL;
    }

    /** The new terminator still has to fit. */
    method Append(s: string)
      requires Valid() && used + |s| < data.Length
      modifies this`used, data
      ensures Valid() && data == old(data) && Text() == old(Text()) + s
    {
      forall k | 0 <= k < |s| {
        data[used + k] := s[k];
      }
      used := used + |s|;
      data[used] := NUL;
    }
  }

  method AppendEscape(out: Buffer, c: char)
    requires out.Valid() && out.used + 2 < out.data.Length
    modifies out`used, out.data
    ensures out.Valid() && out.data == old(out.data) && out.Text() == old(out.Text()) + ['\\', c]
  {
    out.Append("\\");
    out.Append([c]);
  }

  /** The length escape_string_value allocates, terminator included. */
  method EscapedSize(s: string) returns (len: nat)
    ensures len == |Escaped(s)| + 1
  {
    len := |s| + 2 + 1;
    var i := 0;
    while true
      invariant i <= |s|
      invariant len == |s| + 3 + SpecialCount(s[..i])
      decreases |s| - i
    {
      var n := Span(s, i);
      if i + n == |s| {
        SpanToEnd(s, i);
        break;
      }
      SpanThenSpecial(s, i, n);
      len := len + 1;
      i := i + n + 1;
    }
    EscapedBodyLength(s);
  }

  /** One round of the copying loop: a plain stretch, then an escape unless the text ends. */
  method EscapeNext(out: Buffer, s: string, i: nat) returns (last: bool, next: nat)
    requires out.Valid() && i <= |s|
    requires out.data.Length == |EscapedBody(s)| + 3
    requires out.Text() == "\"" + EscapedBody(s[..i])
    modifies out`used, out.data
    ensures out.Valid() && out.data == old(out.data)
    ensures last ==> out.Text() == "\"" + EscapedBody(s)
    ensures next <= |s|
    ensures !last ==> i < next && out.Text() == "\"" + EscapedBody(s[..next])
  {
    hide EscapedBody, SpecialCount;
    var n := Span(s, i);
    PrefixFits(s, i, n);
    out.Append(s[i..i + n]);
    if i + n == |s| {
      assert s[i..i + n] == s[i..];
      SpanToEnd(s, i);
      return true, i;
    }
    SpanThenSpecial(s, i, n);
    AppendEscape(out, s[i + n]);
    return false, i + n + 1;
  }

  /** escape_string_value: the buffer is filled to its last byte. */
  method EscapeString(s: string) returns (out: Buffer)
    ensures fresh(out) && fresh(out.data)
    ensures out.Valid() && out.Text() == Escaped(s)
    ensures out.used + 1 == out.data.Length
  {
    hide EscapedBody, SpecialCount;
    var len := EscapedSize(s);
    out := new Buffer(len);
    out.Append("\"");
    var i, last := 0, false;
    PlainText(s[..0]);
    while !last
      invariant fresh(out) && fresh(out.data) && out.Valid() && out.data.Length == len
      invariant i <= |s|
      invariant out.Text() == "\"" + EscapedBody(if last then s else s[..i])
      decreases if last then 0 else |s| - i + 1
    {
      last, i := EscapeNext(out, s, i);
    }
    out.Append("\"");
  }

  lemma PrefixFits(s: string, i: nat, n: nat)
    requires i + n <= |s|
    requires forall c | c in s[i..i + n] :: !Special(c)
    requires i + n < |s| ==> Special(s[i + n])
    ensures |EscapedBody(s[..i])| + n + (if i + n < |s| then 2 else 0) <= |EscapedBody(s)|
  {
    hide EscapedBody, SpecialCount;
    if i + n < |s| {
      SpanThenSpecial(s, i, n);
      var j := i + n + 1;
      assert s == s[..j] + s[j..];
      EscapedBodySplit(s[..j], s[j..]);
    } else {
      assert s[i..] == s[i..i + n];
      SpanToEnd(s, i);
    }
  }

  // ---------------------------------------------------------------------
  // Unescaping
  // ---------------------------------------------------------------------

  /** The text up to the first unescaped quote, with the backslashes taken out. */
  function Unquoted(s: string): Option<string> {
    if s == "" then None
    else if s[0] == '"' then Some("")
    else if s[0] != '\\' then Before(s[..1], Unquoted(s[1..]))
    else if |s| == 1 then None
    else Before(s[1..2], Unquoted(s[2..]))
  }

  function Before(s: string, t: Option<string>): Option<string> {
    if t.None? then None else Some(s + t.value)
  }

  lemma {:induction false} UnquotedEscaped(s: string, tail: string)
    ensures Unquoted(EscapedBody(s) + "\"" + tail) == Some(s)
  {
    var t := EscapedBody(s) + "\"" + tail;
    if s == "" {
      assert t[0] == '"';
    } else {
      UnquotedEscaped(s[1..], tail);
      if Special(s[0]) {
        assert t[..2] == ['\\', s[0]];
        assert t[1..2] == [s[0]];
        assert t[2..] == EscapedBody(s[1..]) + "\"" + tail;
      } else {
        assert t[..1] == [s[0]];
        assert t[1..] == EscapedBody(s[1..]) + "\"" + tail;
      }
      assert [s[0]] + s[1..] == s;
    }
  }

  /** A character of a quoted text: itself, or anything behind a backslash. */
  datatype Quoted = Literal(c: char) | Backslashed(c: char)

  ghost predicate Legible(qs: seq<Quoted>) {
    forall q | q in qs :: q.Literal? ==> !Special(q.c)
  }

  function Spelled(qs: seq<Quoted>): string {
    if qs == [] then "" else (if qs[0].Literal? then [qs[0].c] else ['\\', qs[0].c]) + Spelled(qs[1..])
  }

  function Meant(qs: seq<Quoted>): string {
    if qs == [] then "" else [qs[0].c] + Meant(qs[1..])
  }

  /** A quoted text is read by dropping its backslashes, whatever they stand before. */
  lemma {:induction false} UnquotedSpelled(qs: seq<Quoted>, tail: string)
    requires Legible(qs)
    ensures Unquoted(Spelled(qs) + "\"" + tail) == Some(Meant(qs))
    decreases |qs|
  {
    var t := Spelled(qs) + "\"" + tail;
    if qs == [] {
      assert t[0] == '"';
    } else {
      assert qs[0] in qs;
      UnquotedSpelled(qs[1..], tail);
      var n := if qs[0].Literal? then 1 else 2;
      assert t[n..] == Spelled(qs[1..]) + "\"" + tail;
      assert t[n - 1..n] == [qs[0].c];
    }
  }

  /** And nothing else is read: a text without an unescaped quote is refused. */
  lemma {:induction false} UnquotedShape(s: string) returns (qs: seq<Quoted>, tail: string)
    requires Unquoted(s).Some?
    ensures Legible(qs) && s == Spelled(qs) + "\"" + tail
    decreases |s|
  {
    if s[0] == '"' {
      qs, tail := [], s[1..];
    } else {
      var q, n := if s[0] != '\\' then Literal(s[0]) else Backslashed(s[1]), if s[0] != '\\' then 1 else 2;
      qs, tail := UnquotedShape(s[n..]);
      assert s == s[..n] + s[n..];
      assert ([q] + qs)[1..] == qs;
      qs := [q] + qs;
    }
  }

  lemma {:induction false} UnquotedPlain(s: string, t: string)
    requires forall c | c in s :: !Special(c)
    ensures Unquoted(s + t) == Before(s, Unquoted(t))
  {
    if s == "" {
      assert s + t == t;
      assert Unquoted(t).Some? ==> s + Unquoted(t).value == Unquoted(t).value;
    } else {
      assert s[0] in s;
      assert (s + t)[1..] == s[1..] + t && (s + t)[..1] == s[..1];
      UnquotedPlain(s[1..], t);
      assert s[..1] + s[1..] == s;
      if Unquoted(t).Some? {
        assert s[..1] + (s[1..] + Unquoted(t).value) == s + Unquoted(t).value;
      }
    }
  }

  lemma BeforeTwice(a: string, b: string, t: Option<string>)
    ensures Before(a, Before(b, t)) == Before(a + b, t)
  {
    if t.Some? {
      assert a + (b + t.value) == a + b + t.value;
    }
  }

  /** The terminated string that fills b from position i up to position e. */
  ghost predicate Terminated(b: string, i: nat, e: nat) {
    i <= e < |b| && b[e] == NUL && NulFree(b[i..e])
  }

  /** strpbrk(p2, "\"\\"): the next special character, or None at the terminator. */
  method NextSpecial(a: array<char>, i: nat, ghost e: nat) returns (found: Option<nat>)
    requires Terminated(a[..], i, e)
    ensures found.None? ==> forall c | c in a[i..e] :: !Special(c)
    ensures found.Some? ==> i <= found.value < e && Special(a[found.value])
    ensures found.Some? ==> forall c | c in a[i..found.value] :: !Special(c)
  {
    var j := i;
    assert forall k | i <= k < e :: a[k] == a[..][i..e][k - i];
    while a[j] != NUL
      invariant i <= j <= e
      invariant forall c | c in a[i..j] :: !Special(c)
      decreases e - j
    {
      if Special(a[j]) {
        return Some(j);
      }
      assert a[i..j + 1] == a[i..j] + [a[j]];
      j := j + 1;
    }
    return None;
  }

  /** The buffer after the character at i is dropped and the text up to e moves down. */
  function GapClosed(b: string, i: nat, e: nat): (r: string)
    requires i < e < |b|
    ensures |r| == |b|
    ensures r[..i] == b[..i]
    ensures forall k | i <= k < e :: r[k] == b[k + 1]
    ensures forall k | e <= k < |b| :: r[k] == b[k]
  {
    b[..i] + b[i + 1..e + 1] + b[e..]
  }

  lemma GapClosedBefore(b: string, i: nat, e: nat)
    requires i < e < |b|
    ensures forall k | 0 <= k < i :: GapClosed(b, i, e)[k] == b[k]
  {
  }

  /** memmove(p2, p2 + 1, strlen(p2)): the terminator moves along. */
  method CloseGap(a: array<char>, i: nat, ghost e: nat)
    requires Terminated(a[..], i, e) && i < e
    modifies a
    ensures a[..] == GapClosed(old(a[..]), i, e)
  {
    hide GapClosed;
    var j := i;
    ghost var b := a[..];
    assert forall k | i <= k < e :: a[k] == b[i..e][k - i];
    while a[j] != NUL
      invariant i <= j <= e
      invariant forall k | 0 <= k < i :: a[k] == b[k]
      invariant forall k | i <= k < j :: a[k] == b[k + 1]
      invariant forall k | j <= k < |b| :: a[k] == b[k]
      decreases e - j
    {
      a[j] := a[j + 1];
      j := j + 1;
    }
    GapClosedBefore(b, i, e);
  }

  /**
   * The unescaping loop's invariant.  The buffer holds the finished value up to
   * p2 and the unread text from there on.  A backslash at the very end makes the
   * cursor step over the terminator onto its old copy; the text is then malformed.
   */
  ghost predicate Progress(b: string, p: nat, p2: nat, end: nat, text: string, done: string) {
    && p <= p2 && Terminated(b, p2, end)
    && Unquoted(text) == Before(done, Unquoted(b[p2..end]))
    && NulFree(done)
    && (b[p..p2] == done || Unquoted(text).None?)
  }

  lemma ProgressStart(b: string, p: nat, e: nat)
    requires Terminated(b, p, e)
    ensures Progress(b, p, p, e, b[p..e], "")
  {
    hide Unquoted;
    UnquotedPlain("", b[p..e]);
    assert "" + b[p..e] == b[p..e];
  }

  lemma SkipPlain(b: string, p: nat, p2: nat, end: nat, text: string, done: string, q: nat)
    requires Progress(b, p, p2, end, text, done) && p2 <= q < end
    requires forall c | c in b[p2..q] :: !Special(c)
    ensures Progress(b, p, q, end, text, done + b[p2..q])
  {
    hide Unquoted;
    var plain, rest := b[p2..q], b[q..end];
    assert b[p2..end] == plain + rest;
    UnquotedPlain(plain, rest);
    BeforeTwice(done, plain, Unquoted(rest));
    assert b[p..q] == b[p..p2] + plain;
  }

  lemma AtQuote(b: string, p: nat, p2: nat, end: nat, text: string, done: string)
    requires Progress(b, p, p2, end, text, done) && p2 < end && b[p2] == '"'
    ensures Unquoted(text) == Some(done)
    ensures CString(b[p2 := NUL][p..]) == done
  {
    hide CString;
    UnquotedQuote(b[p2..end]);
    assert done + "" == done;
    assert b[p2 := NUL][p..] == done + [NUL] + b[p2 + 1..];
    CStringEnds(done, b[p2 + 1..]);
  }

  lemma AtBackslash(b: string, p: nat, p2: nat, end: nat, text: string, done: string)
    requires Progress(b, p, p2, end, text, done) && p2 < end && b[p2] == '\\'
    ensures end == p2 + 1 ==> Progress(GapClosed(b, p2, end), p, p2 + 1, end, text, done)
    ensures end > p2 + 1 ==>
      Progress(GapClosed(b, p2, end), p, p2 + 1, end - 1, text, done + [b[p2 + 1]])
  {
    hide Unquoted;
    var b', rest := GapClosed(b, p2, end), b[p2..end];
    UnquotedBackslash(rest);
    if end == p2 + 1 {
      NothingSpecial("");
      assert b'[p2 + 1..end] == "";
    } else {
      assert rest[1] == b[p2 + 1];
      assert rest[1..2] == [b[p2 + 1]];
      assert rest[2..] == b'[p2 + 1..end - 1];
      BeforeTwice(done, rest[1..2], Unquoted(rest[2..]));
      assert b'[p..p2 + 1] == b[p..p2] + [b[p2 + 1]];
    }
  }

  /**
   * The unescaping loop of conf_set_sym_val on the text from position p to the
   * terminator at e.  It accepts exactly the texts that Unquoted accepts, and
   * then leaves that value as the C string at p.
   */
  method UnescapeInPlace(a: array<char>, p: nat, ghost e: nat) returns (ok: bool)
    requires Terminated(a[..], p, e)
    modifies a
    ensures ok == Unquoted(old(a[p..e])).Some?
    ensures ok ==> CString(a[p..]) == Unquoted(old(a[p..e])).value
    ensures a[..p] == old(a[..p])
  {
    hide Unquoted, CString, Terminated, Progress, GapClosed;
    ProgressShape(a[..], p, p, e, "", "");
    ghost var text, done, end := a[p..e], "", e;
    assert a[..][p..e] == text;
    ProgressStart(a[..], p, e);
    var p2 := p;
    while true
      invariant Progress(a[..], p, p2, end, text, done)
      invariant p <= p2 <= end < a.Length
      invariant a[..p] == old(a[..p])
      decreases end - p2
    {
      ProgressShape(a[..], p, p2, end, text, done);
      var found := NextSpecial(a, p2, end);
      if found.None? {
        NoQuote(a[..], p, p2, end, text, done);
        return false;
      }
      assert a[..][p2..found.value] == a[p2..found.value];
      SkipPlain(a[..], p, p2, end, text, done, found.value);
      done := done + a[p2..found.value];
      p2 := found.value;
      ghost var b := a[..];
      if a[p2] == '"' {
        AtQuote(b, p, p2, end, text, done);
        a[p2] := NUL;
        assert a[..] == b[p2 := NUL] && a[..][p..] == a[p..];
        return true;
      }
      AtBackslash(b, p, p2, end, text, done);
      ProgressShape(b, p, p2, end, text, done);
      CloseGap(a, p2, end);
      KeepsPrefix(b, p, p2, end);
      if end > p2 + 1 {
        done := done + [b[p2 + 1]];
        end := end - 1;
      }
      p2 := p2 + 1;
    }
  }

  lemma {:induction false} NothingSpecial(s: string)
    requires forall c | c in s :: !Special(c)
    ensures Unquoted(s) == None
  {
    if s != "" {
      assert s[0] in s;
      NothingSpecial(s[1..]);
    }
  }

  lemma ProgressShape(b: string, p: nat, p2: nat, end: nat, text: string, done: string)
    ensures Progress(b, p, p2, end, text, done) ==> Terminated(b, p2, end)
    ensures Terminated(b, p2, end) ==> p2 <= end < |b|
  {
  }

  lemma NoQuote(b: string, p: nat, p2: nat, end: nat, text: string, done: string)
    requires Progress(b, p, p2, end, text, done)
    requires forall c | c in b[p2..end] :: !Special(c)
    ensures Unquoted(text) == None
  {
    NothingSpecial(b[p2..end]);
  }

  lemma KeepsPrefix(b: string, p: nat, p2: nat, end: nat)
    requires p <= p2 < end < |b|
    ensures GapClosed(b, p2, end)[..p] == b[..p]
  {
  }

  lemma UnquotedQuote(s: string)
    requires s != "" && s[0] == '"'
    ensures Unquoted(s) == Some("")
  {
  }

  lemma UnquotedBackslash(s: string)
    requires s != "" && s[0] == '\\'
    ensures |s| == 1 ==> Unquoted(s) == None
    ensures |s| > 1 ==> Unquoted(s) == Before(s[1..2], Unquoted(s[2..]))
  {
  }
}
