/**
 * Writing symbols to a configuration file and reading the file back
 * (kconf/confdata.c): the line format, the line reader, and what a whole file
 * restores.
 */
module ConfFile {
  import opened Wrappers
  import opened Symbols
  import opened ConfData
  import Numerals

  /** What a symbol holds: a tristate for bool and tristate symbols, a text for the others. */
  datatype Content = Logic(tri: Tristate) | Text(text: string)

  datatype Entry = Entry(name: string, kind: SymbolType, content: Content)

  /** The three ways `n` is written. */
  datatype NoStyle = Plain | AsUnset | Omitted

  function ContentText(c: Content): string {
    match c
    case Logic(t) => TriText(t)
    case Text(s) => s
  }

  // ---------------------------------------------------------------------
  // Writing
  // ---------------------------------------------------------------------

  /** __print_symbol. */
  function Printed(e: Entry, style: NoStyle, escape: bool): string {
    var text := ContentText(e.content);
    if e.kind.UnknownType? then ""
    else if (e.kind.BooleanType? || e.kind.TristateType?) && !style.Plain? && Begins(text, 'n') then
      if style.AsUnset? then "# " + PREFIX + e.name + " is not set\n" else ""
    else
      PREFIX + e.name + "=" + (if e.kind.StringType? && escape then Escaped(text) else text) + "\n"
  }

  /** The file as .config writes it (auto false) or as include/config/auto.conf does. */
  function PrintedFor(auto: bool, e: Entry): string {
    if auto then Printed(e, Omitted, false) else Printed(e, AsUnset, true)
  }

  /** A file holds symbols, and between them blank lines, bars of a heading and comments. */
  datatype Item = Symbol(entry: Entry) | Comment(text: string) | Bar | Blank

  function ItemText(auto: bool, item: Item): string {
    match item
    case Symbol(e) => PrintedFor(auto, e)
    case Comment(text) => "# " + text + "\n"
    case Bar => "#\n"
    case Blank => "\n"
  }

  function WrittenFile(auto: bool, items: seq<Item>): string {
    if items == [] then "" else ItemText(auto, items[0]) + WrittenFile(auto, items[1..])
  }

  function EntriesOf(items: seq<Item>): seq<Entry> {
    if items == [] then []
    else (if items[0].Symbol? then [items[0].entry] else []) + EntriesOf(items[1..])
  }

  // ---------------------------------------------------------------------
  // Reading
  // ---------------------------------------------------------------------

  datatype Assignment = Assignment(name: string, val: string)

  datatype Outcome = Set(content: Content) | Untouched | Rejected

  function IndexOf(s: string, c: char): (i: nat)
    ensures i <= |s|
    ensures i < |s| ==> s[i] == c
    ensures c !in s[..i]
  {
    if s == "" || s[0] == c then 0 else
      var i := 1 + IndexOf(s[1..], c);
      assert s[..i] == [s[0]] + s[1..][..i - 1];
      i
  }

  /** The first line of a text, newline included. */
  function FirstLine(text: string): (line: string)
    requires text != ""
    ensures 0 < |line| && line <= text
  {
    var i := IndexOf(text, '\n');
    if i < |text| then text[..i + 1] else text
  }

  /** getline_stripped: without the newline, and without a carriage return before it. */
  function Stripped(line: string): string {
    if line == "" || line[|line| - 1] != '\n' then line
    else
      var body := line[..|line| - 1];
      if body != "" && body[|body| - 1] == '\r' then body[..|body| - 1] else body
  }

  /** The assignment a line of a configuration file makes, if any. */
  function ParsedLine(line: string): Option<Assignment> {
    if line == "" then None
    else if line[0] == '#' then
      if !("# " + PREFIX <= line) then None else
      var rest := line[2 + |PREFIX|..];
      var i := IndexOf(rest, ' ');
      if i < |rest| && rest[i + 1..] == "is not set" then Some(Assignment(rest[..i], "n")) else None
    else
      if !(PREFIX <= line) then None else
      var rest := line[|PREFIX|..];
      var i := IndexOf(rest, '=');
      if i < |rest| then Some(Assignment(rest[..i], rest[i + 1..])) else None
  }

  predicate Digit(c: char) { '0' <= c <= '9' }

  predicate HexDigit(c: char) { Digit(c) || 'a' <= c <= 'f' || 'A' <= c <= 'F' }

  /** sym_string_valid for the kinds that hold a text. */
  predicate ValidText(kind: SymbolType, s: string) {
    match kind
    case StringType => true
    case IntType =>
      var d := if s != "" && s[0] == '-' then s[1..] else s;
      d != "" && (forall c | c in d :: Digit(c)) && (d[0] == '0' ==> |d| == 1)
    case HexType =>
      var d := if "0x" <= s || "0X" <= s then s[2..] else s;
      d != "" && (forall c | c in d :: HexDigit(c))
    case _ => false
  }

  ghost predicate IsNumeralText(s: string, sign: string, n: nat) {
    sign in {"", "-"} && s == sign + Numerals.Numeral(n)
  }

  /** The texts of an int symbol are the numerals, with a minus sign or without. */
  lemma ValidIntText(s: string)
    ensures ValidText(IntType, s) <==> exists sign, n :: IsNumeralText(s, sign, n)
  {
    hide ValidText;
    if ValidText(IntType, s) {
      var sign, n := IntTextShape(s);
    }
    if sign, n :| IsNumeralText(s, sign, n) {
      NumeralIsValid(s, sign, n);
    }
  }

  lemma IntTextShape(s: string) returns (sign: string, n: nat)
    requires ValidText(IntType, s)
    ensures IsNumeralText(s, sign, n)
  {
    hide Numerals.Numeral;
    sign := if s[0] == '-' then "-" else "";
    var d := if s[0] == '-' then s[1..] else s;
    assert s == sign + d && forall c | c in d :: Digit(c);
    forall i | 0 <= i < |d|
      ensures d[i] in Numerals.DIGITS
    {
      assert d[i] in d;
      Numerals.DigitRange(d[i]);
    }
    n := Numerals.NumeralOf(d);
  }

  lemma NumeralIsValid(s: string, sign: string, n: nat)
    requires IsNumeralText(s, sign, n)
    ensures ValidText(IntType, s)
  {
    var d := Numerals.Numeral(n);
    assert n == 0 ==> |d| == 1;
    hide Numerals.Numeral;
    Numerals.NumeralDigits(n);
    Numerals.DigitRange(d[0]);
    assert sign == "" ==> s == d;
    assert sign == "-" ==> s[1..] == d;
    forall c | c in d
      ensures Digit(c)
    {
      Numerals.DigitRange(c);
    }
  }

  function SetText(kind: SymbolType, s: string): Outcome {
    if ValidText(kind, s) then Set(Text(s)) else Rejected
  }

  predicate Begins(s: string, c: char) {
    s != "" && s[0] == c
  }

  /** conf_set_sym_val. */
  function SetValue(auto: bool, kind: SymbolType, p: string): Outcome {
    match kind
    case UnknownType => Untouched
    case TristateType => if Begins(p, 'm') then Set(Logic(MOD)) else SetBoolean(p)
    case BooleanType => SetBoolean(p)
    case StringType =>
      if auto then SetText(kind, p)
      else if !Begins(p, '"') then Untouched
      else
        var s := Unquoted(p[1..]);
        if s.Some? then SetText(kind, s.value) else Rejected
    case _ => SetText(kind, p)
  }

  function SetBoolean(p: string): Outcome {
    if Begins(p, 'y') then Set(Logic(YES)) else if Begins(p, 'n') then Set(Logic(NO)) else Rejected
  }

  /** The symbols that have a value read from the file. */
  type Store = map<string, Content>

  type Kinds = map<string, SymbolType>

  function AfterLine(kinds: Kinds, auto: bool, store: Store, line: string): Store {
    var a := ParsedLine(CString(Stripped(line)));
    if a.None? || a.value.name !in kinds then store else
    match SetValue(auto, kinds[a.value.name], a.value.val)
    case Set(c) => store[a.value.name := c]
    case _ => store
  }

  /** What a file read from its start leaves in the store. */
  function AfterFile(kinds: Kinds, auto: bool, store: Store, text: string): Store
    decreases |text|
  {
    if text == "" then store
    else
      var line := FirstLine(text);
      AfterFile(kinds, auto, AfterLine(kinds, auto, store, line), text[|line|..])
  }

  /** The string case of conf_set_sym_val, with its in-place buffer. */
  method SetString(auto: bool, p: string) returns (r: Outcome)
    requires NulFree(p)
    ensures r == SetValue(auto, StringType, p)
  {
    if auto {
      return Set(Text(p));
    }
    var buffer := p + [NUL];
    var a := new char[|buffer|](i requires 0 <= i < |buffer| => buffer[i]);
    assert a[..] == buffer;
    if a[0] != '"' {
      return Untouched;
    }
    assert p == a[..|p|];
    assert a[..][1..|p|] == p[1..] == a[1..|p|];
    var ok := UnescapeInPlace(a, 1, |p|);
    if !ok {
      return Rejected;
    }
    r := Set(Text(CString(a[1..])));
  }

  /** The reading loop of conf_read_simple. */
  method ReadSimple(kinds: Kinds, auto: bool, text: string) returns (store: Store)
    ensures store == AfterFile(kinds, auto, map[], text)
  {
    hide SetValue, ParsedLine, Stripped, CString, FirstLine;
    store := map[];
    var rest := text;
    while rest != ""
      invariant AfterFile(kinds, auto, store, rest) == AfterFile(kinds, auto, map[], text)
      decreases |rest|
    {
      var line := FirstLine(rest);
      rest := rest[|line|..];
      var a := ParsedLine(CString(Stripped(line)));
      if a.None? || a.value.name !in kinds {
        continue;
      }
      var kind, r := kinds[a.value.name], Untouched;
      if kind.StringType? {
        AssignmentNulFree(CString(Stripped(line)));
        r := SetString(auto, a.value.val);
      } else {
        r := SetValue(auto, kind, a.value.val);
      }
      if r.Set? {
        store := store[a.value.name := r.content];
      }
    }
  }

  lemma AssignmentNulFree(line: string)
    requires NulFree(line)
    ensures ParsedLine(line).Some? ==> NulFree(ParsedLine(line).value.val)
  {
  }

  // ---------------------------------------------------------------------
  // Round trip
  // ---------------------------------------------------------------------

  predicate OneLine(s: string) {
    NulFree(s) && '\n' !in s
  }

  predicate PlainName(s: string) {
    OneLine(s) && '=' !in s && ' ' !in s
  }

  predicate EndsInReturn(s: string) {
    s != "" && s[|s| - 1] == '\r'
  }

  /** A symbol with a name and a value of its kind, fit for one line. */
  predicate Writable(e: Entry) {
    && PlainName(e.name)
    && match e.kind
       case UnknownType => false
       case BooleanType => e.content == Logic(NO) || e.content == Logic(YES)
       case TristateType => e.content.Logic?
       case kind => e.content.Text? && OneLine(e.content.text) && ValidText(kind, e.content.text)
  }

  /** The one case the unescaped form cannot hold. */
  predicate LosesReturn(auto: bool, e: Entry) {
    auto && e.kind.StringType? && e.content.Text? && EndsInReturn(e.content.text)
  }

  /** auto.conf has no line for n. */
  predicate HasLine(auto: bool, e: Entry) {
    !(auto && e.content == Logic(NO))
  }

  lemma {:induction false} IndexOfSplit(s: string, c: char, rest: string)
    requires c !in s
    ensures IndexOf(s + [c] + rest, c) == |s|
  {
    if s != "" {
      assert s[0] in s;
      assert (s + [c] + rest)[1..] == s[1..] + [c] + rest;
      IndexOfSplit(s[1..], c, rest);
    }
  }

  lemma FirstLineSplit(body: string, rest: string)
    requires '\n' !in body
    ensures FirstLine(body + "\n" + rest) == body + "\n"
  {
    hide IndexOf;
    IndexOfSplit(body, '\n', rest);
    assert (body + "\n" + rest)[..|body| + 1] == body + "\n";
  }

  lemma StrippedLine(body: string)
    ensures !EndsInReturn(body) ==> Stripped(body + "\n") == body
    ensures EndsInReturn(body) ==> Stripped(body + "\n") == body[..|body| - 1]
  {
    assert (body + "\n")[..|body|] == body;
  }

  lemma UnsetLine(name: string)
    requires PlainName(name)
    ensures ParsedLine("# " + PREFIX + name + " is not set") == Some(Assignment(name, "n"))
  {
    hide IndexOf;
    var line := "# " + PREFIX + name + " is not set";
    var rest := line[2 + |PREFIX|..];
    assert rest == name + [' '] + "is not set";
    IndexOfSplit(name, ' ', "is not set");
    assert "# " + PREFIX == line[..2 + |PREFIX|];
    assert rest[..|name|] == name && rest[|name| + 1..] == "is not set";
  }

  lemma ValueLine(name: string, val: string)
    requires PlainName(name)
    ensures ParsedLine(PREFIX + name + "=" + val) == Some(Assignment(name, val))
  {
    hide IndexOf;
    var line := PREFIX + name + "=" + val;
    var rest := line[|PREFIX|..];
    assert rest == name + ['='] + val;
    IndexOfSplit(name, '=', val);
    assert PREFIX == line[..|PREFIX|];
    assert rest[..|name|] == name && rest[|name| + 1..] == val;
  }

  /** The text of an entry's line, its newline left out. */
  function LineBody(auto: bool, e: Entry): string {
    if e.content == Logic(NO) then "# " + PREFIX + e.name + " is not set"
    else PREFIX + e.name + "=" + ValuePart(auto, e)
  }

  function ValuePart(auto: bool, e: Entry): string {
    if e.kind.StringType? && !auto then Escaped(ContentText(e.content)) else ContentText(e.content)
  }

  lemma PrintedLine(auto: bool, e: Entry)
    requires Writable(e)
    ensures PrintedFor(auto, e) == if HasLine(auto, e) then LineBody(auto, e) + "\n" else ""
  {
    hide Escaped, ValidText;
    if e.content == Logic(NO) {
      assert "# " + PREFIX + e.name + " is not set\n" == LineBody(auto, e) + "\n";
    }
  }

  lemma {:induction false} EscapedBodyOneLine(s: string)
    requires OneLine(s)
    ensures OneLine(EscapedBody(s))
  {
    if s != "" {
      EscapedBodyOneLine(s[1..]);
      assert s[0] in s;
    }
  }

  lemma LineBodyOneLine(auto: bool, e: Entry)
    requires Writable(e)
    ensures OneLine(LineBody(auto, e))
  {
    hide EscapedBody;
    if e.content.Text? {
      EscapedBodyOneLine(e.content.text);
    }
  }

  /** Only a string that is not escaped can make its line end in a carriage return. */
  lemma LineEnd(auto: bool, e: Entry)
    requires Writable(e)
    ensures EndsInReturn(LineBody(auto, e)) <==> LosesReturn(auto, e)
  {
    hide EscapedBody;
    var body := LineBody(auto, e);
    if e.content != Logic(NO) {
      var v := ValuePart(auto, e);
      if v == "" {
        assert body[|body| - 1] == '=';
      } else {
        assert body[|body| - 1] == v[|v| - 1];
        if !e.kind.StringType? {
          TextEnd(e);
        }
      }
    }
  }

  lemma TextEnd(e: Entry)
    requires Writable(e) && !e.kind.StringType?
    ensures !EndsInReturn(ContentText(e.content))
  {
    var s := ContentText(e.content);
    match e.kind
    case IntType =>
      var d := if s != "" && s[0] == '-' then s[1..] else s;
      assert d[|d| - 1] in d && s[|s| - 1] == d[|d| - 1];
      assert Digit(s[|s| - 1]);
    case HexType =>
      var d := if "0x" <= s || "0X" <= s then s[2..] else s;
      assert d[|d| - 1] in d && s[|s| - 1] == d[|d| - 1];
      assert HexDigit(s[|s| - 1]);
    case _ =>
  }

  /** conf_set_sym_val on the printed value gives the value back. */
  lemma SetPrinted(auto: bool, e: Entry)
    requires Writable(e)
    ensures SetValue(auto, e.kind, ValuePart(auto, e)) == Set(e.content)
  {
    hide EscapedBody, Unquoted, ValidText;
    if e.kind.StringType? && !auto {
      var s := e.content.text;
      UnquotedEscaped(s, "");
      assert Escaped(s)[1..] == EscapedBody(s) + "\"" + "";
      assert ValidText(StringType, s) by {
        AnyString(s);
      }
    }
  }

  lemma AnyString(s: string)
    ensures ValidText(StringType, s)
  {
  }

  /** One printed line read back: the value returns unless a carriage return is lost. */
  lemma LineRestores(kinds: Kinds, auto: bool, store: Store, e: Entry)
    requires Writable(e) && e.name in kinds && kinds[e.name] == e.kind
    requires HasLine(auto, e) && !LosesReturn(auto, e)
    ensures AfterLine(kinds, auto, store, LineBody(auto, e) + "\n") == store[e.name := e.content]
  {
    hide Stripped, ParsedLine, SetValue, CString, ValuePart;
    var body := LineBody(auto, e);
    LineBodyOneLine(auto, e);
    LineEnd(auto, e);
    StrippedLine(body);
    if e.content == Logic(NO) {
      UnsetLine(e.name);
      SetNo(auto, e.kind);
    } else {
      ValueLine(e.name, ValuePart(auto, e));
      SetPrinted(auto, e);
    }
  }

  lemma SetNo(auto: bool, kind: SymbolType)
    requires kind.BooleanType? || kind.TristateType?
    ensures SetValue(auto, kind, "n") == Set(Logic(NO))
  {
  }

  /** The store after the entries with a line are put into it, in order. */
  function Restored(auto: bool, store: Store, es: seq<Entry>): Store
    decreases |es|
  {
    if es == [] then store
    else Restored(auto, if HasLine(auto, es[0]) then store[es[0].name := es[0].content] else store, es[1..])
  }

  // ----- comments -----

  /** The reader takes the comment for the line of a symbol that is not set. */
  predicate Misleading(text: string) {
    var t := if EndsInReturn(text) then text[..|text| - 1] else text;
    PREFIX <= t &&
    var rest := t[|PREFIX|..];
    var i := IndexOf(rest, ' ');
    i < |rest| && rest[i + 1..] == "is not set"
  }

  /** A comment is passed over if and only if it does not read like the line of an unset symbol. */
  lemma CommentParsed(text: string)
    requires OneLine(text)
    ensures ParsedLine(CString(Stripped("# " + text + "\n"))).None? <==> !Misleading(text)
  {
    hide IndexOf, Stripped, CString;
    var t := if EndsInReturn(text) then text[..|text| - 1] else text;
    CommentStripped(text);
    CommentPrefix(t);
    if PREFIX <= t {
      assert ("# " + t)[2 + |PREFIX|..] == t[|PREFIX|..];
    }
  }

  lemma CommentStripped(text: string)
    requires OneLine(text)
    ensures CString(Stripped("# " + text + "\n"))
         == "# " + if EndsInReturn(text) then text[..|text| - 1] else text
  {
    hide Stripped;
    var body := "# " + text;
    StrippedLine(body);
    if text != "" {
      assert body[|body| - 1] == text[|text| - 1];
    }
    assert NulFree(body);
    assert EndsInReturn(text) ==> body[..|body| - 1] == "# " + text[..|text| - 1];
  }

  lemma CommentPrefix(t: string)
    ensures "# " + PREFIX <= "# " + t <==> PREFIX <= t
  {
    var line := "# " + t;
    if PREFIX <= t {
      assert t == PREFIX + t[|PREFIX|..];
      assert line == ("# " + PREFIX) + t[|PREFIX|..];
    }
    if "# " + PREFIX <= line {
      assert forall k | 0 <= k < |PREFIX| :: t[k] == line[2 + k] == ("# " + PREFIX)[2 + k] == PREFIX[k];
      assert t[..|PREFIX|] == PREFIX;
    }
  }

  /** A menu titled "CONFIG_A is not set" sets A to n when the file is read. */
  lemma MisleadingExample(store: Store)
    ensures AfterLine(map["A" := BooleanType], false, store, ItemText(false, Comment("CONFIG_A is not set")))
         == store["A" := Logic(NO)]
  {
    hide Stripped, ParsedLine, CString, SetValue;
    var title := "CONFIG_A is not set";
    assert title == PREFIX + "A" + " is not set";
    CommentStripped(title);
    assert "# " + title == "# " + PREFIX + "A" + " is not set";
    UnsetLine("A");
    SetNo(false, BooleanType);
  }

  /** A symbol known to the reader, or a line it passes over. */
  ghost predicate Readable(kinds: Kinds, auto: bool, item: Item) {
    match item
    case Symbol(e) => Writable(e) && e.name in kinds && kinds[e.name] == e.kind && !LosesReturn(auto, e)
    case Comment(text) => OneLine(text) && !Misleading(text)
    case Bar => true
    case Blank => true
  }

  /** The text of an item's line without its newline. */
  function ItemBody(auto: bool, item: Item): string {
    match item
    case Symbol(e) => LineBody(auto, e)
    case Comment(text) => "# " + text
    case Bar => "#"
    case Blank => ""
  }

  function AfterItem(auto: bool, store: Store, item: Item): Store {
    if item.Symbol? && HasLine(auto, item.entry) then store[item.entry.name := item.entry.content] else store
  }

  predicate ItemHasLine(auto: bool, item: Item) {
    item.Symbol? ==> HasLine(auto, item.entry)
  }

  lemma ItemLine(kinds: Kinds, auto: bool, store: Store, item: Item)
    requires Readable(kinds, auto, item)
    ensures ItemText(auto, item) == if ItemHasLine(auto, item) then ItemBody(auto, item) + "\n" else ""
    ensures '\n' !in ItemBody(auto, item)
    ensures ItemHasLine(auto, item) ==>
      AfterLine(kinds, auto, store, ItemBody(auto, item) + "\n") == AfterItem(auto, store, item)
  {
    hide Stripped, ParsedLine, SetValue, CString, LineBody, Writable, Misleading, PrintedFor;
    match item
    case Symbol(e) =>
      PrintedLine(auto, e);
      LineBodyOneLine(auto, e);
      if HasLine(auto, e) {
        LineRestores(kinds, auto, store, e);
      }
    case Comment(text) =>
      CommentParsed(text);
    case Bar =>
      BareLines();
    case Blank =>
      BareLines();
  }

  lemma BareLines()
    ensures ParsedLine(CString(Stripped("#" + "\n"))).None?
    ensures ParsedLine(CString(Stripped("" + "\n"))).None?
  {
    StrippedLine("#");
    StrippedLine("");
    assert NulFree("#");
  }

  /** Reading a written file puts every printed value into the store, in order. */
  lemma {:induction false} FileRestores(kinds: Kinds, auto: bool, store: Store, items: seq<Item>)
    requires forall x | x in items :: Readable(kinds, auto, x)
    ensures AfterFile(kinds, auto, store, WrittenFile(auto, items)) == Restored(auto, store, EntriesOf(items))
    decreases |items|
  {
    hide AfterLine, FirstLine, ItemText, ItemBody, Readable, HasLine;
    if items != [] {
      var x, rest := items[0], WrittenFile(auto, items[1..]);
      assert x in items;
      ItemLine(kinds, auto, store, x);
      if ItemHasLine(auto, x) {
        var body := ItemBody(auto, x);
        FirstLineSplit(body, rest);
        var text := body + "\n" + rest;
        assert text[|body + "\n"|..] == rest;
        assert AfterFile(kinds, auto, store, text) == AfterFile(kinds, auto, AfterItem(auto, store, x), rest);
      } else {
        assert "" + rest == rest;
      }
      FileRestores(kinds, auto, AfterItem(auto, store, x), items[1..]);
      EntriesStep(auto, store, items);
    }
  }

  lemma EntriesStep(auto: bool, store: Store, items: seq<Item>)
    requires items != []
    ensures Restored(auto, store, EntriesOf(items)) == Restored(auto, AfterItem(auto, store, items[0]), EntriesOf(items[1..]))
  {
    hide HasLine;
    var es := EntriesOf(items[1..]);
    if items[0].Symbol? {
      assert ([items[0].entry] + es)[1..] == es;
    } else {
      assert [] + es == es;
    }
  }

  lemma {:induction false} RestoredAt(auto: bool, store: Store, es: seq<Entry>, name: string)
    requires forall i, j | 0 <= i < j < |es| :: es[i].name != es[j].name
    ensures (forall e | e in es :: e.name != name || !HasLine(auto, e)) ==>
      (name in Restored(auto, store, es) <==> name in store)
      && (name in store ==> Restored(auto, store, es)[name] == store[name])
    ensures forall e | e in es && e.name == name && HasLine(auto, e) ::
      name in Restored(auto, store, es) && Restored(auto, store, es)[name] == e.content
    decreases |es|
  {
    hide HasLine;
    if es != [] {
      var next := if HasLine(auto, es[0]) then store[es[0].name := es[0].content] else store;
      RestoredAt(auto, next, es[1..], name);
      assert es[0] in es;
      assert forall e | e in es :: e == es[0] || e in es[1..];
      assert forall e | e in es[1..] :: e.name != es[0].name;
    }
  }

  /**
   * Saving and loading: a file written from any list of distinct symbols, with
   * comments between them, gives every symbol with a line its value back, and
   * sets no other symbol.
   */
  lemma SaveThenLoad(kinds: Kinds, auto: bool, items: seq<Item>, name: string)
    requires forall x | x in items :: Readable(kinds, auto, x)
    requires var es := EntriesOf(items); forall i, j | 0 <= i < j < |es| :: es[i].name != es[j].name
    ensures var loaded, es := AfterFile(kinds, auto, map[], WrittenFile(auto, items)), EntriesOf(items);
      && (forall e | e in es && e.name == name && HasLine(auto, e) ::
           name in loaded && loaded[name] == e.content)
      && ((forall e | e in es :: e.name != name || !HasLine(auto, e)) ==> name !in loaded)
  {
    hide HasLine, Readable, EntriesOf, WrittenFile;
    FileRestores(kinds, auto, map[], items);
    RestoredAt(auto, map[], EntriesOf(items), name);
  }

  /**
   * The line of one symbol restores it exactly when no carriage return is lost.
   * The escaped form always does.
   */
  lemma LineRestoresIff(kinds: Kinds, auto: bool, store: Store, e: Entry)
    requires Writable(e) && e.name in kinds && kinds[e.name] == e.kind && HasLine(auto, e)
    ensures AfterLine(kinds, auto, store, LineBody(auto, e) + "\n") == store[e.name := e.content]
        <==> !LosesReturn(auto, e)
  {
    hide AfterLine, LineBody;
    if !LosesReturn(auto, e) {
      LineRestores(kinds, auto, store, e);
    } else {
      ReturnLost(kinds, auto, store, e);
      var s := e.content.text;
      assert store[e.name := Text(s[..|s| - 1])][e.name] != e.content;
    }
  }

  /** What comes back when a carriage return is lost. */
  lemma ReturnLost(kinds: Kinds, auto: bool, store: Store, e: Entry)
    requires Writable(e) && e.name in kinds && kinds[e.name] == e.kind && LosesReturn(auto, e)
    ensures AfterLine(kinds, auto, store, LineBody(auto, e) + "\n")
         == store[e.name := Text(e.content.text[..|e.content.text| - 1])]
  {
    hide Stripped, ParsedLine, CString;
    var body, s := LineBody(auto, e), e.content.text;
    LineBodyOneLine(auto, e);
    LineEnd(auto, e);
    StrippedLine(body);
    var cut := s[..|s| - 1];
    assert body[..|body| - 1] == PREFIX + e.name + "=" + cut;
    assert NulFree(body[..|body| - 1]);
    ValueLine(e.name, cut);
  }

  /** The string of an x and a carriage return comes back from auto.conf as "x". */
  lemma LostReturnExample()
    ensures var e := Entry("A", StringType, Text("x\r"));
      && Writable(e)
      && AfterLine(map["A" := StringType], true, map[], PrintedFor(true, e)) == map["A" := Text("x")]
  {
    hide AfterLine, PrintedFor, LineBody;
    var e := Entry("A", StringType, Text("x\r"));
    assert "x\r"[..1] == "x";
    PrintedLine(true, e);
    ReturnLost(map["A" := StringType], true, map[], e);
  }
}
