/**
  The values of the members of a choice (kconf/symbol.c): sym_choice_default,
  sym_calc_choice and choice_set_value.
*/
module Choice {
  import opened Wrappers
  import opened Symbols

  /** A default of the choice, with the value of its condition. */
  datatype Default = Default(condition: Tristate, sym: Symbol)

  /** Values of symbols; a symbol that is not in the map has visibility n, or no user value. */
  type Values = map<Symbol, Tristate>

  type Entries = seq<Option<Symbol>>

  predicate Shown(vis: Values, s: Symbol) { s in vis && vis[s] != NO }

  predicate AskedFor(user: Values, s: Symbol, v: Tristate) { s in user && user[s] == v }

  function MembersOf(entries: Entries): set<Symbol> {
    set e | e in entries && e.Some? :: e.value
  }

  // ----- the steps of sym_calc_choice -----

  /** The first member, in priority order, that is visible and set to y by the user. */
  function FirstYes(l: seq<Symbol>, now: Symbol -> Tristate, user: Values): (r: Option<Symbol>)
    ensures r.Some? ==> r.value in l && now(r.value) != NO && AskedFor(user, r.value, YES)
    ensures r.None? ==> forall s | s in l && now(s) != NO :: !AskedFor(user, s, YES)
  {
    if l == [] then None
    else if now(l[0]) != NO && AskedFor(user, l[0], YES) then Some(l[0])
    else FirstYes(l[1..], now, user)
  }

  /** The search for it recalculates visibilities only as far as it looks. */
  function VisibleAfter(l: seq<Symbol>, vis: Values, now: Symbol -> Tristate, user: Values): (v: Values)
    ensures FirstYes(l, now, user).Some? ==> Shown(v, FirstYes(l, now, user).value)
    ensures FirstYes(l, now, user).None? ==> forall s | s in l :: s in v && v[s] == now(s)
    ensures forall s | s in vis && (s !in l || vis[s] == now(s)) :: s in v && v[s] == vis[s]
    ensures forall s | s in v && s !in l :: s in vis
  {
    if l == [] then vis
    else
      var vis' := vis[l[0] := now(l[0])];
      if now(l[0]) != NO && AskedFor(user, l[0], YES) then vis' else VisibleAfter(l[1..], vis', now, user)
  }

  function FirstDefault(defaults: seq<Default>, vis: Values): Option<Symbol> {
    if defaults == [] then None
    else if defaults[0].condition != NO && Shown(vis, defaults[0].sym) then Some(defaults[0].sym)
    else FirstDefault(defaults[1..], vis)
  }

  function FirstVisible(entries: Entries, vis: Values): (r: Option<Symbol>)
    ensures r.Some? ==> Some(r.value) in entries && Shown(vis, r.value)
    ensures r.None? ==> forall s | Some(s) in entries :: !Shown(vis, s)
  {
    if entries == [] then None
    else if entries[0].Some? && Shown(vis, entries[0].value) then entries[0]
    else FirstVisible(entries[1..], vis)
  }

  /** sym_choice_default. */
  function ChoiceDefault(defaults: seq<Default>, entries: Entries, vis: Values): Option<Symbol> {
    match FirstDefault(defaults, vis)
    case Some(s) => Some(s)
    case None => FirstVisible(entries, vis)
  }

  function FirstUnset(entries: Entries, vis: Values, user: Values): (r: Option<Symbol>)
    ensures r.Some? ==> Some(r.value) in entries && Shown(vis, r.value) && r.value !in user
    ensures r.None? ==> forall s | Some(s) in entries && Shown(vis, s) :: s in user
  {
    if entries == [] then None
    else if entries[0].Some? && Shown(vis, entries[0].value) && entries[0].value !in user then entries[0]
    else FirstUnset(entries[1..], vis, user)
  }

  function LastVisible(l: seq<Symbol>, vis: Values): (r: Option<Symbol>)
    ensures r.Some? ==> r.value in l && Shown(vis, r.value)
    ensures r.None? ==> forall s | s in l :: !Shown(vis, s)
  {
    if l == [] then None
    else if Shown(vis, l[|l| - 1]) then Some(l[|l| - 1])
    else LastVisible(l[..|l| - 1], vis)
  }

  /** The choice without a member set to y: the default, an unset member, or the least prioritized one. */
  function Fallback(entries: Entries, defaults: seq<Default>, priority: seq<Symbol>, vis: Values, user: Values): Option<Symbol> {
    var d := ChoiceDefault(defaults, entries, vis);
    if d.Some? && !AskedFor(user, d.value, NO) then d
    else
      match FirstUnset(entries, vis, user)
      case Some(s) => Some(s)
      case None => LastVisible(priority, vis)
  }

  /** The symbol sym_calc_choice returns. */
  function Chosen(entries: Entries, defaults: seq<Default>, priority: seq<Symbol>,
                  vis: Values, user: Values, now: Symbol -> Tristate): Option<Symbol> {
    match FirstYes(priority, now, user)
    case Some(s) => Some(s)
    case None => Fallback(entries, defaults, priority, VisibleAfter(priority, vis, now, user), user)
  }

  /** Values after the visible members were set, the chosen one to y and the others to n. */
  function Settled(entries: Entries, vis: Values, chosen: Option<Symbol>, curr: Values): (r: Values)
    ensures forall s | s in MembersOf(entries) && Shown(vis, s) :: s in r && r[s] == if chosen == Some(s) then YES else NO
    ensures forall s | s !in MembersOf(entries) || !Shown(vis, s) :: (s in r <==> s in curr) && (s in curr ==> r[s] == curr[s])
  {
    map s | s in curr.Keys + MembersOf(entries) && (s in curr || Shown(vis, s)) ::
      if s in MembersOf(entries) && Shown(vis, s) then (if chosen == Some(s) then YES else NO) else curr[s]
  }

  // ----- what the choice promises -----

  predicate Distinct(l: seq<Symbol>) {
    l == [] || (l[0] !in l[1..] && Distinct(l[1..]))
  }

  /** The priority list holds each member exactly once. */
  ghost predicate Lists(priority: seq<Symbol>, entries: Entries) {
    && Distinct(priority)
    && (forall s :: s in priority <==> s in MembersOf(entries))
  }

  /** Exactly one of the visible members has the value y. */
  ghost predicate ExactlyOneYes(entries: Entries, vis: Values, curr: Values) {
    exists s :: IsTheYes(entries, vis, curr, s)
  }

  ghost predicate IsTheYes(entries: Entries, vis: Values, curr: Values, s: Symbol) {
    && s in MembersOf(entries) && Shown(vis, s) && AskedFor(curr, s, YES)
    && forall t | t in MembersOf(entries) && Shown(vis, t) && t != s :: AskedFor(curr, t, NO)
  }

  /** A default names a visible symbol outside the choice, and the user neither chose a member nor set it to n. */
  ghost predicate PicksOutsider(entries: Entries, defaults: seq<Default>, priority: seq<Symbol>,
                                vis: Values, user: Values, now: Symbol -> Tristate) {
    && FirstYes(priority, now, user).None?
    && var d := FirstDefault(defaults, VisibleAfter(priority, vis, now, user));
       d.Some? && d.value !in MembersOf(entries) && !AskedFor(user, d.value, NO)
  }

  lemma EntriesAreMembers(entries: Entries)
    ensures forall s :: Some(s) in entries <==> s in MembersOf(entries)
  {
    forall s | Some(s) in entries
      ensures s in MembersOf(entries)
    {
      var e := Some(s);
      assert e in entries && e.Some? && e.value == s;
    }
  }

  /**
    When some member is visible, sym_calc_choice makes exactly one visible member
    y and returns it, if and only if no default picks a symbol outside the choice.
  */
  lemma ChosenIsTheYes(entries: Entries, defaults: seq<Default>, priority: seq<Symbol>,
                       vis: Values, user: Values, curr: Values, now: Symbol -> Tristate)
    requires Lists(priority, entries)
    requires exists s | s in MembersOf(entries) :: Shown(VisibleAfter(priority, vis, now, user), s)
    ensures var vis' := VisibleAfter(priority, vis, now, user);
            var chosen := Chosen(entries, defaults, priority, vis, user, now);
            var curr' := Settled(entries, vis', chosen, curr);
            && (ExactlyOneYes(entries, vis', curr') <==> !PicksOutsider(entries, defaults, priority, vis, user, now))
            && (!PicksOutsider(entries, defaults, priority, vis, user, now) ==>
                  chosen.Some? && IsTheYes(entries, vis', curr', chosen.value))
  {
    hide Chosen, VisibleAfter, Settled, PicksOutsider, IsTheYes, Lists;
    var vis' := VisibleAfter(priority, vis, now, user);
    var chosen := Chosen(entries, defaults, priority, vis, user, now);
    SettledYes(entries, vis', chosen, curr);
    if PicksOutsider(entries, defaults, priority, vis, user, now) {
      OutsiderChosen(entries, defaults, priority, vis, user, now);
    } else {
      MemberChosen(entries, defaults, priority, vis, user, now);
      assert IsTheYes(entries, vis', Settled(entries, vis', chosen, curr), chosen.value);
    }
  }

  /** A choice of one visible member with a default on a visible symbol outside it: no member is yes. */
  lemma OutsideDefaultExample(a: Symbol, o: Symbol)
    requires a != o
    ensures var entries, defaults, vis := [Some(a)], [Default(YES, o)], map[a := YES, o := YES];
            var now: Symbol -> Tristate := s => YES;
            && Chosen(entries, defaults, [a], vis, map[], now) == Some(o)
            && !ExactlyOneYes(entries, VisibleAfter([a], vis, now, map[]), Settled(entries, vis, Some(o), map[]))
  {
    var entries, defaults, vis := [Some(a)], [Default(YES, o)], map[a := YES, o := YES];
    var now: Symbol -> Tristate := s => YES;
    EntriesAreMembers(entries);
    assert MembersOf(entries) == {a};
    assert FirstYes([a], now, map[]) == None;
    var vis' := VisibleAfter([a], vis, now, map[]);
    assert Shown(vis', o);
    SettledYes(entries, vis', Some(o), map[]);
    assert FirstDefault(defaults, vis') == Some(o);
    assert Settled(entries, vis, Some(o), map[]) == Settled(entries, vis', Some(o), map[]);
  }

  lemma SettledYes(entries: Entries, vis: Values, chosen: Option<Symbol>, curr: Values)
    ensures var curr' := Settled(entries, vis, chosen, curr);
            forall s :: IsTheYes(entries, vis, curr', s)
                        <==> chosen == Some(s) && s in MembersOf(entries) && Shown(vis, s)
  {
  }

  lemma OutsiderChosen(entries: Entries, defaults: seq<Default>, priority: seq<Symbol>,
                       vis: Values, user: Values, now: Symbol -> Tristate)
    requires PicksOutsider(entries, defaults, priority, vis, user, now)
    ensures var chosen := Chosen(entries, defaults, priority, vis, user, now);
            chosen.Some? && chosen.value !in MembersOf(entries)
  {
  }

  lemma MemberChosen(entries: Entries, defaults: seq<Default>, priority: seq<Symbol>,
                     vis: Values, user: Values, now: Symbol -> Tristate)
    requires Lists(priority, entries) && !PicksOutsider(entries, defaults, priority, vis, user, now)
    requires exists s | s in MembersOf(entries) :: Shown(VisibleAfter(priority, vis, now, user), s)
    ensures var chosen := Chosen(entries, defaults, priority, vis, user, now);
            && chosen.Some? && chosen.value in MembersOf(entries)
            && Shown(VisibleAfter(priority, vis, now, user), chosen.value)
  {
    EntriesAreMembers(entries);
    var vis' := VisibleAfter(priority, vis, now, user);
    if FirstYes(priority, now, user).None? {
      DefaultIsVisible(defaults, vis');
      FallbackMember(entries, defaults, priority, vis', user);
    }
  }

  lemma FallbackMember(entries: Entries, defaults: seq<Default>, priority: seq<Symbol>, vis: Values, user: Values)
    requires Lists(priority, entries)
    requires exists s | s in MembersOf(entries) :: Shown(vis, s)
    requires FirstDefault(defaults, vis).Some? ==>
      || FirstDefault(defaults, vis).value in MembersOf(entries)
      || AskedFor(user, FirstDefault(defaults, vis).value, NO)
    ensures var r := Fallback(entries, defaults, priority, vis, user);
            r.Some? && r.value in MembersOf(entries) && Shown(vis, r.value)
  {
    EntriesAreMembers(entries);
    DefaultIsVisible(defaults, vis);
  }

  lemma {:induction false} DefaultIsVisible(defaults: seq<Default>, vis: Values)
    ensures FirstDefault(defaults, vis).Some? ==> Shown(vis, FirstDefault(defaults, vis).value)
  {
    if defaults != [] {
      DefaultIsVisible(defaults[1..], vis);
    }
  }

  // ----- choice_set_value -----

  function Without(l: seq<Symbol>, s: Symbol): (r: seq<Symbol>)
    ensures forall t :: t in r <==> t in l && t != s
    ensures s !in l ==> r == l
  {
    if l == [] then []
    else if l[0] == s then Without(l[1..], s)
    else
      assert l == [l[0]] + l[1..];
      [l[0]] + Without(l[1..], s)
  }

  /** list_move: the symbol goes to the head of the list. */
  function MoveToFront(l: seq<Symbol>, s: Symbol): (r: seq<Symbol>)
    ensures forall t :: t in r <==> t in l || t == s
  {
    [s] + Without(l, s)
  }

  /** The priority list after the visible members among `entries` were moved to its head, in menu order. */
  function Prioritized(entries: Entries, vis: Values, l: seq<Symbol>): seq<Symbol>
  {
    if entries == [] then l
    else
      var rest := Prioritized(entries[..|entries| - 1], vis, l);
      var e := entries[|entries| - 1];
      if e.Some? && Shown(vis, e.value) then MoveToFront(rest, e.value) else rest
  }

  lemma {:induction false} WithoutDistinct(l: seq<Symbol>, s: Symbol)
    requires Distinct(l)
    ensures Distinct(Without(l, s))
    ensures s in l ==> multiset(Without(l, s)) + multiset{s} == multiset(l)
  {
    if l != [] {
      assert l == [l[0]] + l[1..];
      WithoutDistinct(l[1..], s);
      if l[0] != s {
        var w := Without(l[1..], s);
        assert ([l[0]] + w)[1..] == w;
      }
    }
  }

  lemma MoveToFrontPermutes(l: seq<Symbol>, s: Symbol)
    requires Distinct(l) && s in l
    ensures Distinct(MoveToFront(l, s)) && multiset(MoveToFront(l, s)) == multiset(l)
  {
    WithoutDistinct(l, s);
    var w := Without(l, s);
    assert ([s] + w)[1..] == w;
  }

  /** choice_set_value only permutes the priority list. */
  lemma {:induction false} PrioritizedPermutes(entries: Entries, vis: Values, l: seq<Symbol>)
    requires Distinct(l) && forall s | Some(s) in entries :: s in l
    ensures Distinct(Prioritized(entries, vis, l)) && multiset(Prioritized(entries, vis, l)) == multiset(l)
  {
    if entries != [] {
      var init := entries[..|entries| - 1];
      PrioritizedPermutes(init, vis, l);
      var rest, e := Prioritized(init, vis, l), entries[|entries| - 1];
      if e.Some? {
        assert e in entries;
        assert e.value in multiset(rest);
        MoveToFrontPermutes(rest, e.value);
      }
    }
  }

  lemma PrioritizedLists(entries: Entries, vis: Values, l: seq<Symbol>)
    requires Lists(l, entries)
    ensures Lists(Prioritized(entries, vis, l), entries)
  {
    EntriesAreMembers(entries);
    PrioritizedPermutes(entries, vis, l);
    var p := Prioritized(entries, vis, l);
    assert forall s :: s in p <==> s in multiset(p);
    assert forall s :: s in l <==> s in multiset(l);
  }

  /** With visibilities unchanged, the next sym_calc_choice returns the symbol that was set. */
  lemma SetThenChosen(entries: Entries, defaults: seq<Default>, priority: seq<Symbol>,
                      vis: Values, user: Values, sym: Symbol, now: Symbol -> Tristate)
    requires Lists(priority, entries) && sym in MembersOf(entries) && Shown(vis, sym)
    requires forall s | s in MembersOf(entries) :: s in vis && vis[s] == now(s)
    ensures Chosen(entries, defaults, Prioritized(entries, vis, priority), vis, Settled(entries, vis, Some(sym), user), now)
            == Some(sym)
  {
    PrioritizedLists(entries, vis, priority);
  }

  // ----- the order choice_set_value leaves -----

  /** The visible entries, last one first. */
  function ShownBackwards(entries: Entries, vis: Values): (r: seq<Symbol>)
    ensures forall s | s in r :: Some(s) in entries && Shown(vis, s)
  {
    if entries == [] then []
    else
      var e := entries[|entries| - 1];
      var rest := ShownBackwards(entries[..|entries| - 1], vis);
      if e.Some? && Shown(vis, e.value) then [e.value] + rest else rest
  }

  /** What remains of a list without the visible entries. */
  function Others(entries: Entries, vis: Values, l: seq<Symbol>): (r: seq<Symbol>)
    ensures forall s | s in r :: s in l && !(Some(s) in entries && Shown(vis, s))
  {
    if entries == [] then l
    else
      var e := entries[|entries| - 1];
      var rest := Others(entries[..|entries| - 1], vis, l);
      if e.Some? && Shown(vis, e.value) then Without(rest, e.value) else rest
  }

  lemma {:induction false} WithoutConcat(a: seq<Symbol>, b: seq<Symbol>, s: Symbol)
    ensures Without(a + b, s) == Without(a, s) + Without(b, s)
  {
    if a == [] {
      assert a + b == b;
    } else {
      assert (a + b)[1..] == a[1..] + b;
      WithoutConcat(a[1..], b, s);
    }
  }

  /** No symbol has two entries. */
  predicate OnceEach(entries: Entries) {
    entries == [] ||
    var init, e := entries[..|entries| - 1], entries[|entries| - 1];
    (e.Some? ==> e !in init) && OnceEach(init)
  }

  lemma {:induction false} PrioritizedOrder(entries: Entries, vis: Values, l: seq<Symbol>)
    requires OnceEach(entries)
    ensures Prioritized(entries, vis, l) == ShownBackwards(entries, vis) + Others(entries, vis, l)
  {
    if entries != [] {
      var init, e := entries[..|entries| - 1], entries[|entries| - 1];
      PrioritizedOrder(init, vis, l);
      if e.Some? {
        var shown, others := ShownBackwards(init, vis), Others(init, vis, l);
        WithoutConcat(shown, others, e.value);
        assert Without(shown, e.value) == shown by { assert e.value !in shown; }
      }
    }
  }

  lemma {:induction false} LastVisibleConcat(a: seq<Symbol>, b: seq<Symbol>, vis: Values)
    ensures LastVisible(a + b, vis) == if LastVisible(b, vis).Some? then LastVisible(b, vis) else LastVisible(a, vis)
  {
    if b == [] {
      assert a + b == a;
    } else {
      assert (a + b)[..|a + b| - 1] == a + b[..|b| - 1];
      LastVisibleConcat(a, b[..|b| - 1], vis);
    }
  }

  lemma {:induction false} FirstVisibleSnoc(entries: Entries, e: Option<Symbol>, vis: Values)
    ensures FirstVisible(entries + [e], vis)
            == if FirstVisible(entries, vis).Some? then FirstVisible(entries, vis)
               else if e.Some? && Shown(vis, e.value) then e else None
  {
    if entries != [] {
      assert (entries + [e])[1..] == entries[1..] + [e];
      FirstVisibleSnoc(entries[1..], e, vis);
    }
  }

  lemma {:induction false} LastOfBackwards(entries: Entries, vis: Values, vis': Values)
    requires forall s | Some(s) in entries && Shown(vis', s) :: Shown(vis, s)
    ensures LastVisible(ShownBackwards(entries, vis), vis') == FirstVisible(entries, vis')
  {
    if entries != [] {
      var init, e := entries[..|entries| - 1], entries[|entries| - 1];
      assert entries == init + [e];
      LastOfBackwards(init, vis, vis');
      FirstVisibleSnoc(init, e, vis');
      if e.Some? {
        assert e in entries;
        LastVisibleConcat([e.value], ShownBackwards(init, vis), vis');
        assert [e.value][..0] == [];
      }
    }
  }

  /**
    The order pays off when the chosen symbol disappears: among members that are
    all set to n, the least prioritized one is the first in menu order.
  */
  lemma LeastPrioritizedIsFirst(entries: Entries, vis: Values, vis': Values, l: seq<Symbol>)
    requires OnceEach(entries)
    requires Lists(l, entries)
    requires forall s | s in MembersOf(entries) && Shown(vis', s) :: Shown(vis, s)
    ensures LastVisible(Prioritized(entries, vis, l), vis') == FirstVisible(entries, vis')
  {
    EntriesAreMembers(entries);
    PrioritizedOrder(entries, vis, l);
    LastVisibleConcat(ShownBackwards(entries, vis), Others(entries, vis, l), vis');
    LastOfBackwards(entries, vis, vis');
  }

  /**
    So when the symbol that was set disappears, and no default names an outsider,
    sym_calc_choice takes the first visible member in menu order.
  */
  lemma DisappearedChoice(entries: Entries, defaults: seq<Default>, l: seq<Symbol>,
                          vis: Values, user: Values, sym: Symbol, now: Symbol -> Tristate)
    requires OnceEach(entries)
    requires Lists(l, entries) && now(sym) == NO && sym in MembersOf(entries)
    requires forall d | d in defaults :: d.sym in MembersOf(entries)
    requires forall s | s in MembersOf(entries) && now(s) != NO :: Shown(vis, s)
    ensures var l', user' := Prioritized(entries, vis, l), Settled(entries, vis, Some(sym), user);
            Chosen(entries, defaults, l', vis, user', now)
            == FirstVisible(entries, VisibleAfter(l', vis, now, user'))
  {
    var l', user' := Prioritized(entries, vis, l), Settled(entries, vis, Some(sym), user);
    var vis' := VisibleAfter(l', vis, now, user');
    EntriesAreMembers(entries);
    PrioritizedLists(entries, vis, l);
    hide Lists, MembersOf, Prioritized, Settled, OnceEach, FirstDefault, FirstVisible, FirstUnset, LastVisible;
    assert FirstYes(l', now, user').None?;
    LeastPrioritizedIsFirst(entries, vis, vis', l);
    FallbackAllNo(entries, defaults, l', vis', user');
  }

  /** When all visible members are set to n, the fallback is the least prioritized one. */
  lemma FallbackAllNo(entries: Entries, defaults: seq<Default>, l: seq<Symbol>, vis: Values, user: Values)
    requires forall d | d in defaults :: d.sym in MembersOf(entries)
    requires forall s | s in MembersOf(entries) && Shown(vis, s) :: AskedFor(user, s, NO)
    ensures Fallback(entries, defaults, l, vis, user) == LastVisible(l, vis)
  {
    EntriesAreMembers(entries);
    DefaultIsListed(defaults, vis);
    DefaultIsVisible(defaults, vis);
  }

  lemma {:induction false} DefaultIsListed(defaults: seq<Default>, vis: Values)
    ensures FirstDefault(defaults, vis).Some? ==> exists d | d in defaults :: d.sym == FirstDefault(defaults, vis).value
  {
    if defaults != [] {
      DefaultIsListed(defaults[1..], vis);
    }
  }

  // ----- which symbol is chosen -----

  /** Position k holds the first element with the property. */
  ghost predicate FirstAt<T(!new)>(l: seq<T>, p: T -> bool, k: int) {
    0 <= k < |l| && p(l[k]) && forall j | 0 <= j < k :: !p(l[j])
  }

  ghost predicate LastAt<T(!new)>(l: seq<T>, p: T -> bool, k: int) {
    0 <= k < |l| && p(l[k]) && forall j | k < j < |l| :: !p(l[j])
  }

  ghost predicate Nowhere<T(!new)>(l: seq<T>, p: T -> bool) {
    forall x | x in l :: !p(x)
  }

  /** The user set the symbol to y, and it is visible. */
  function AskedYes(now: Symbol -> Tristate, user: Values): Symbol -> bool {
    (s: Symbol) => now(s) != NO && AskedFor(user, s, YES)
  }

  /** Visible once the members were looked at; other symbols keep the visibility they have. */
  function InSight(priority: seq<Symbol>, vis: Values, now: Symbol -> Tristate): Symbol -> bool {
    (s: Symbol) => if s in priority then now(s) != NO else Shown(vis, s)
  }

  /** A default with a condition other than n on a visible symbol. */
  function Usable(shown: Symbol -> bool): Default -> bool {
    (d: Default) => d.condition != NO && shown(d.sym)
  }

  function EntryShown(shown: Symbol -> bool): Option<Symbol> -> bool {
    (e: Option<Symbol>) => e.Some? && shown(e.value)
  }

  function EntryOpen(shown: Symbol -> bool, user: Values): Option<Symbol> -> bool {
    (e: Option<Symbol>) => e.Some? && shown(e.value) && e.value !in user
  }

  /** The first usable default, or else the first visible entry. */
  ghost predicate IsDefault(d: Option<Symbol>, defaults: seq<Default>, entries: Entries, shown: Symbol -> bool) {
    && (forall k | FirstAt(defaults, Usable(shown), k) :: d == Some(defaults[k].sym))
    && (Nowhere(defaults, Usable(shown)) ==>
          && (forall k | FirstAt(entries, EntryShown(shown), k) :: d == entries[k])
          && (Nowhere(entries, EntryShown(shown)) ==> d == None))
  }

  /** The first entry the user left open, or else the last visible member by priority. */
  ghost predicate IsLastResort(r: Option<Symbol>, entries: Entries, priority: seq<Symbol>, shown: Symbol -> bool, user: Values) {
    && (forall k | FirstAt(entries, EntryOpen(shown, user), k) :: r == entries[k])
    && (Nowhere(entries, EntryOpen(shown, user)) ==>
          && (forall k | LastAt(priority, shown, k) :: r == Some(priority[k]))
          && (Nowhere(priority, shown) ==> r == None))
  }

  lemma {:induction false} FirstYesAt(l: seq<Symbol>, now: Symbol -> Tristate, user: Values, k: nat)
    requires FirstAt(l, AskedYes(now, user), k)
    ensures FirstYes(l, now, user) == Some(l[k])
  {
    if k > 0 {
      assert !AskedYes(now, user)(l[0]);
      FirstYesAt(l[1..], now, user, k - 1);
    }
  }

  lemma {:induction false} FirstDefaultAt(l: seq<Default>, vis: Values, shown: Symbol -> bool, k: nat)
    requires forall s :: shown(s) <==> Shown(vis, s)
    ensures FirstAt(l, Usable(shown), k) ==> FirstDefault(l, vis) == Some(l[k].sym)
    ensures Nowhere(l, Usable(shown)) ==> FirstDefault(l, vis) == None
  {
    if l != [] {
      assert FirstAt(l, Usable(shown), k) && k > 0 ==> !Usable(shown)(l[0]);
      assert Nowhere(l, Usable(shown)) ==> !Usable(shown)(l[0]) && forall x | x in l[1..] :: x in l;
      FirstDefaultAt(l[1..], vis, shown, if k > 0 then k - 1 else 0);
    }
  }

  lemma {:induction false} FirstVisibleAt(l: Entries, vis: Values, shown: Symbol -> bool, k: nat)
    requires forall s :: shown(s) <==> Shown(vis, s)
    ensures FirstAt(l, EntryShown(shown), k) ==> FirstVisible(l, vis) == l[k]
    ensures Nowhere(l, EntryShown(shown)) ==> FirstVisible(l, vis) == None
  {
    if l != [] {
      assert FirstAt(l, EntryShown(shown), k) && k > 0 ==> !EntryShown(shown)(l[0]);
      assert Nowhere(l, EntryShown(shown)) ==> !EntryShown(shown)(l[0]) && forall x | x in l[1..] :: x in l;
      FirstVisibleAt(l[1..], vis, shown, if k > 0 then k - 1 else 0);
    }
  }

  lemma {:induction false} FirstUnsetAt(l: Entries, vis: Values, user: Values, shown: Symbol -> bool, k: nat)
    requires forall s :: shown(s) <==> Shown(vis, s)
    ensures FirstAt(l, EntryOpen(shown, user), k) ==> FirstUnset(l, vis, user) == l[k]
    ensures Nowhere(l, EntryOpen(shown, user)) ==> FirstUnset(l, vis, user) == None
  {
    if l != [] {
      assert FirstAt(l, EntryOpen(shown, user), k) && k > 0 ==> !EntryOpen(shown, user)(l[0]);
      assert Nowhere(l, EntryOpen(shown, user)) ==> !EntryOpen(shown, user)(l[0]) && forall x | x in l[1..] :: x in l;
      FirstUnsetAt(l[1..], vis, user, shown, if k > 0 then k - 1 else 0);
    }
  }

  lemma {:induction false} LastVisibleAt(l: seq<Symbol>, vis: Values, shown: Symbol -> bool, k: nat)
    requires forall s :: shown(s) <==> Shown(vis, s)
    ensures LastAt(l, shown, k) ==> LastVisible(l, vis) == Some(l[k])
    ensures Nowhere(l, shown) ==> LastVisible(l, vis) == None
  {
    if l != [] {
      assert LastAt(l, shown, k) && k < |l| - 1 ==> !shown(l[|l| - 1]);
      assert Nowhere(l, shown) ==> !shown(l[|l| - 1]) && forall x | x in l[..|l| - 1] :: x in l;
      LastVisibleAt(l[..|l| - 1], vis, shown, k);
    }
  }

  lemma DefaultInOrder(defaults: seq<Default>, entries: Entries, vis: Values, shown: Symbol -> bool)
    requires forall s :: shown(s) <==> Shown(vis, s)
    ensures IsDefault(ChoiceDefault(defaults, entries, vis), defaults, entries, shown)
  {
    hide FirstDefault, FirstVisible, Nowhere, Usable, EntryShown;
    FirstDefaultAt(defaults, vis, shown, 0);
    FirstVisibleAt(entries, vis, shown, 0);
    forall k | FirstAt(defaults, Usable(shown), k)
      ensures FirstDefault(defaults, vis) == Some(defaults[k].sym)
    {
      FirstDefaultAt(defaults, vis, shown, k);
    }
    forall k | FirstAt(entries, EntryShown(shown), k)
      ensures FirstVisible(entries, vis) == entries[k]
    {
      FirstVisibleAt(entries, vis, shown, k);
    }
  }

  lemma LastResortInOrder(entries: Entries, priority: seq<Symbol>, vis: Values, user: Values, shown: Symbol -> bool)
    requires forall s :: shown(s) <==> Shown(vis, s)
    ensures var r := match FirstUnset(entries, vis, user) case Some(s) => Some(s) case None => LastVisible(priority, vis);
            IsLastResort(r, entries, priority, shown, user)
  {
    hide FirstUnset, LastVisible, Nowhere;
    FirstUnsetAt(entries, vis, user, shown, 0);
    LastVisibleAt(priority, vis, shown, 0);
    forall k | FirstAt(entries, EntryOpen(shown, user), k)
      ensures FirstUnset(entries, vis, user) == entries[k]
    {
      FirstUnsetAt(entries, vis, user, shown, k);
    }
    forall k | LastAt(priority, shown, k)
      ensures LastVisible(priority, vis) == Some(priority[k])
    {
      LastVisibleAt(priority, vis, shown, k);
    }
  }

  /**
    The order of the choice: the first member by priority that the user wants;
    else the default, unless the user set it to n; else the last resort.
  */
  lemma ChosenInOrder(entries: Entries, defaults: seq<Default>, priority: seq<Symbol>,
                      vis: Values, user: Values, now: Symbol -> Tristate)
    ensures var r, shown := Chosen(entries, defaults, priority, vis, user, now), InSight(priority, vis, now);
            && (forall k | FirstAt(priority, AskedYes(now, user), k) :: r == Some(priority[k]))
            && (Nowhere(priority, AskedYes(now, user)) ==>
                  exists d | IsDefault(d, defaults, entries, shown) ::
                    if d.Some? && !AskedFor(user, d.value, NO) then r == d
                    else IsLastResort(r, entries, priority, shown, user))
  {
    hide FirstYes, VisibleAfter, ChoiceDefault, FirstUnset, LastVisible, IsDefault, IsLastResort, AskedYes;
    var r, shown := Chosen(entries, defaults, priority, vis, user, now), InSight(priority, vis, now);
    var vis' := VisibleAfter(priority, vis, now, user);
    forall k | FirstAt(priority, AskedYes(now, user), k)
      ensures r == Some(priority[k])
    {
      FirstYesAt(priority, now, user, k);
    }
    if Nowhere(priority, AskedYes(now, user)) {
      NobodyAsked(priority, vis, now, user);
      DefaultInOrder(defaults, entries, vis', shown);
      LastResortInOrder(entries, priority, vis', user, shown);
    }
  }

  lemma NobodyAsked(priority: seq<Symbol>, vis: Values, now: Symbol -> Tristate, user: Values)
    requires Nowhere(priority, AskedYes(now, user))
    ensures FirstYes(priority, now, user).None?
    ensures forall s :: InSight(priority, vis, now)(s) <==> Shown(VisibleAfter(priority, vis, now, user), s)
  {
    hide FirstYes, VisibleAfter;
    assert forall s | s in priority :: !AskedYes(now, user)(s);
    var v := VisibleAfter(priority, vis, now, user);
    forall s
      ensures InSight(priority, vis, now)(s) <==> Shown(v, s)
    {
      assert InSight(priority, vis, now)(s) == if s in priority then now(s) != NO else Shown(vis, s);
      if s in priority {
        assert v[s] == now(s);
      } else if s in vis {
        assert s in v;
        assert v[s] == vis[s];
      } else {
        assert s !in v;
      }
    }
  }

  // ----- the code -----

  /**
    A choice block. `entries` are the symbols of its menu entries in menu order
    (None for entries without a symbol), `priority` is the list choice_members.
  */
  class ChoiceMenu {
    const entries: Entries
    const defaults: seq<Default>
    var priority: seq<Symbol>
    var visible: Values
    var user: Values
    var curr: Values

    /** sym_choice_default. */
    method DefaultSymbol() returns (r: Option<Symbol>)
      ensures r == ChoiceDefault(defaults, entries, visible)
    {
      var k := 0;
      while k < |defaults|
        invariant 0 <= k <= |defaults| && FirstDefault(defaults[k..], visible) == FirstDefault(defaults, visible)
      {
        if defaults[k].condition != NO && Shown(visible, defaults[k].sym) {
          return Some(defaults[k].sym);
        }
        assert defaults[k..][1..] == defaults[k + 1..];
        k := k + 1;
      }
      k := 0;
      while k < |entries|
        invariant 0 <= k <= |entries| && FirstVisible(entries[k..], visible) == FirstVisible(entries, visible)
      {
        if entries[k].Some? && Shown(visible, entries[k].value) {
          return entries[k];
        }
        assert entries[k..][1..] == entries[k + 1..];
        k := k + 1;
      }
      return None;
    }

    /** Lines 311-321: the first member the user set to y; visibilities are recalculated on the way. */
    method FindYes(now: Symbol -> Tristate) returns (r: Option<Symbol>)
      modifies this`visible
      ensures r == FirstYes(priority, now, user)
      ensures visible == VisibleAfter(priority, old(visible), now, user)
    {
      hide FirstYes, VisibleAfter, Searched;
      SearchStart(priority, visible, now, user);
      var k := 0;
      while k < |priority|
        invariant 0 <= k <= |priority| && Searched(priority, k, old(visible), visible, now, user)
      {
        SearchStep(priority, k, old(visible), visible, now, user);
        var sym := priority[k];
        visible := visible[sym := now(sym)];
        if visible[sym] != NO && AskedFor(user, sym, YES) {
          return Some(sym);
        }
        k := k + 1;
      }
      SearchEnd(priority, old(visible), visible, now, user);
      return None;
    }

    /** Lines 334-359: the first visible member without a user value, or the last visible one by priority. */
    method FindUnset() returns (r: Option<Symbol>)
      ensures r == match FirstUnset(entries, visible, user)
                   case Some(s) => Some(s)
                   case None => LastVisible(priority, visible)
    {
      var k := 0;
      while k < |entries|
        invariant 0 <= k <= |entries| && FirstUnset(entries[k..], visible, user) == FirstUnset(entries, visible, user)
      {
        if entries[k].Some? && Shown(visible, entries[k].value) && entries[k].value !in user {
          return entries[k];
        }
        assert entries[k..][1..] == entries[k + 1..];
        k := k + 1;
      }
      assert entries[k..] == [];
      k := |priority|;
      assert priority[..k] == priority;
      while k > 0
        invariant 0 <= k <= |priority| && LastVisible(priority[..k], visible) == LastVisible(priority, visible)
      {
        if Shown(visible, priority[k - 1]) {
          return Some(priority[k - 1]);
        }
        assert priority[..k][..k - 1] == priority[..k - 1];
        k := k - 1;
      }
      return None;
    }

    /** sym_calc_choice. */
    method CalcChoice(now: Symbol -> Tristate) returns (r: Option<Symbol>)
      modifies this`visible, this`curr
      ensures r == Chosen(entries, defaults, priority, old(visible), user, now)
      ensures visible == VisibleAfter(priority, old(visible), now, user)
      ensures curr == Settled(entries, visible, r, old(curr))
    {
      hide VisibleAfter, Settled, FirstYes, ChoiceDefault, FirstUnset, LastVisible;
      r := FindYes(now);
      if r.None? {
        r := DefaultSymbol();
        if r.Some? && AskedFor(user, r.value, NO) {
          r := None;
        }
        if r.None? {
          r := FindUnset();
        }
      }
      Settle(r);
    }

    /** Lines 361-376: the visible members get their values. */
    method Settle(r: Option<Symbol>)
      modifies this`curr
      ensures curr == Settled(entries, visible, r, old(curr))
    {
      hide Settled, MembersOf;
      SettledNone(visible, r, curr);
      var k := 0;
      while k < |entries|
        invariant 0 <= k <= |entries| && curr == Settled(entries[..k], visible, r, old(curr))
      {
        SettledSnoc(entries, k, visible, r, old(curr));
        if entries[k].Some? && Shown(visible, entries[k].value) {
          var sym := entries[k].value;
          curr := curr[sym := if r == Some(sym) then YES else NO];
        }
        k := k + 1;
      }
      assert entries[..k] == entries;
    }

    /** choice_set_value. */
    method SetValue(sym: Symbol)
      modifies this`user, this`priority
      ensures user == Settled(entries, visible, Some(sym), old(user))
      ensures priority == Prioritized(entries, visible, old(priority))
    {
      hide Settled, MoveToFront, MembersOf, Prioritized;
      SettledNone(visible, Some(sym), user);
      PrioritizedNone(visible, priority);
      var k := 0;
      while k < |entries|
        invariant 0 <= k <= |entries| && user == Settled(entries[..k], visible, Some(sym), old(user))
        invariant priority == Prioritized(entries[..k], visible, old(priority))
      {
        SettledSnoc(entries, k, visible, Some(sym), old(user));
        PrioritizedSnoc(entries, k, visible, old(priority));
        if entries[k].Some? && Shown(visible, entries[k].value) {
          var s := entries[k].value;
          user := user[s := if s == sym then YES else NO];
          priority := MoveToFront(priority, s);
        }
        k := k + 1;
      }
      assert entries[..k] == entries;
    }
  }

  /** The search of `l` has passed the first `k` symbols without a match, and made `vis` out of `vis0`. */
  ghost predicate Searched(l: seq<Symbol>, k: nat, vis0: Values, vis: Values, now: Symbol -> Tristate, user: Values) {
    && k <= |l| && FirstYes(l[k..], now, user) == FirstYes(l, now, user)
    && VisibleAfter(l[k..], vis, now, user) == VisibleAfter(l, vis0, now, user)
  }

  lemma SearchStart(l: seq<Symbol>, vis: Values, now: Symbol -> Tristate, user: Values)
    ensures Searched(l, 0, vis, vis, now, user)
  {
    assert l[0..] == l;
  }

  lemma SearchStep(l: seq<Symbol>, k: nat, vis0: Values, vis: Values, now: Symbol -> Tristate, user: Values)
    requires k < |l| && Searched(l, k, vis0, vis, now, user)
    ensures var s, vis' := l[k], vis[l[k] := now(l[k])];
            if now(s) != NO && AskedFor(user, s, YES)
            then FirstYes(l, now, user) == Some(s) && VisibleAfter(l, vis0, now, user) == vis'
            else Searched(l, k + 1, vis0, vis', now, user)
  {
    assert l[k..][1..] == l[k + 1..];
  }

  lemma SearchEnd(l: seq<Symbol>, vis0: Values, vis: Values, now: Symbol -> Tristate, user: Values)
    requires Searched(l, |l|, vis0, vis, now, user)
    ensures FirstYes(l, now, user) == None && VisibleAfter(l, vis0, now, user) == vis
  {
    assert l[|l|..] == [];
  }

  lemma PrioritizedNone(vis: Values, l: seq<Symbol>)
    ensures Prioritized([], vis, l) == l
  {
  }

  lemma PrioritizedSnoc(entries: Entries, k: nat, vis: Values, l: seq<Symbol>)
    requires k < |entries|
    ensures var before, e := Prioritized(entries[..k], vis, l), entries[k];
            Prioritized(entries[..k + 1], vis, l)
            == if e.Some? && Shown(vis, e.value) then MoveToFront(before, e.value) else before
  {
    hide MoveToFront;
    assert entries[..k + 1][..k] == entries[..k];
  }

  lemma MembersSnoc(entries: Entries, k: nat)
    requires k < |entries|
    ensures MembersOf(entries[..k + 1])
            == MembersOf(entries[..k]) + if entries[k].Some? then {entries[k].value} else {}
  {
    assert entries[..k + 1] == entries[..k] + [entries[k]];
    EntriesAreMembers(entries[..k]);
    EntriesAreMembers(entries[..k + 1]);
  }

  lemma SettledNone(vis: Values, chosen: Option<Symbol>, curr: Values)
    ensures Settled([], vis, chosen, curr) == curr
  {
  }

  lemma SettledSnoc(entries: Entries, k: nat, vis: Values, chosen: Option<Symbol>, curr: Values)
    requires k < |entries|
    ensures var before, e := Settled(entries[..k], vis, chosen, curr), entries[k];
            Settled(entries[..k + 1], vis, chosen, curr)
            == if e.Some? && Shown(vis, e.value) then before[e.value := if chosen == e then YES else NO] else before
  {
    hide MembersOf;
    MembersSnoc(entries, k);
  }
}
