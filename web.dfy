/** The deck logic of the web front end (app.py), lifted out of its rendering
    code: the add form, the delete button, the type filter in the sidebar and
    the recipe totals of the detail view. */
module WebApp {
  import opened Text
  import opened Catalogue

  /** The type-filter entry that means "no filter". */
  const ALL := "すべて"

  /** The choices the add form offers for タイプ and 難易度. */
  const TYPE_CHOICES: seq<string> := ["炎", "水", "草", "雷", "超", "闘", "悪", "鋼", "無色", "ドラゴン"]
  const DIFFICULTY_CHOICES: seq<string> := ["★", "★★", "★★★", "★★★★", "★★★★★"]

  /** 回し方 of a deck created by the add form: the three stages, no text yet. */
  const NEW_DECK_PHASES: seq<Phase> := [Phase("序盤", ""), Phase("中盤", ""), Phase("終盤", "")]

  /** A recipe has room for this many cards. */
  const FULL_DECK := 20

  // ------------------------------------------------ strengths / weaknesses

  /** [s for s in lines if s.strip()]: the lines that are not all whitespace,
      in their order and exactly as typed. s.strip() is empty exactly when s
      is blank (the contract of Text.Strip), so the test is written as IsBlank. */
  function KeepNonBlank(lines: seq<string>): (kept: seq<string>)
    ensures |kept| <= |lines|
  {
    if lines == [] then []
    else (if !IsBlank(lines[0]) then [lines[0]] else []) + KeepNonBlank(lines[1..])
  }

  /** The kept lines are exactly the lines that are not all whitespace. */
  lemma {:induction false} KeepNonBlankMembers(lines: seq<string>)
    ensures forall x :: x in KeepNonBlank(lines) <==> x in lines && !IsBlank(x)
  {
    if lines != [] {
      KeepNonBlankMembers(lines[1..]);
      assert lines == [lines[0]] + lines[1..];
    }
  }

  /** One unfolding of the filter. */
  lemma KeepNonBlankCons(c: string, t: seq<string>)
    ensures KeepNonBlank([c] + t) == KeepNonBlank([c]) + KeepNonBlank(t)
  {
    assert ([c] + t)[0] == c && ([c] + t)[1..] == t;
    assert [c][1..] == [];
  }

  /** Filtering distributes over concatenation, so the kept lines stay in order. */
  lemma {:induction false} KeepNonBlankAppend(a: seq<string>, b: seq<string>)
    ensures KeepNonBlank(a + b) == KeepNonBlank(a) + KeepNonBlank(b)
  {
    if a == [] {
      assert a + b == b;
    } else {
      var c, t := a[0], a[1..];
      assert a == [c] + t && a + b == [c] + (t + b);
      KeepNonBlankCons(c, t + b);
      KeepNonBlankCons(c, t);
      KeepNonBlankAppend(t, b);
    }
  }

  /** The items of a 強み / 弱み text area: its lines split on "\n", blank ones dropped. */
  function NonBlankLines(text: string): (items: seq<string>)
    ensures forall x :: x in items <==> x in Split(text, '\n') && !IsBlank(x)
    ensures forall x :: x in items ==> '\n' !in x
  {
    KeepNonBlankMembers(Split(text, '\n'));
    KeepNonBlank(Split(text, '\n'))
  }

  /** Typing the lines of a list one per row gives back exactly its non-blank
      lines, untrimmed and in order. */
  lemma NonBlankLinesOfRows(rows: seq<string>)
    requires |rows| >= 1
    requires forall r :: r in rows ==> '\n' !in r
    ensures NonBlankLines(Join(rows, '\n')) == KeepNonBlank(rows)
  {
    SplitJoin(rows, '\n');
  }

  /** One blank row between two blocks of rows adds nothing. */
  lemma BlankRowIgnored(a: seq<string>, blank: string, b: seq<string>)
    requires IsBlank(blank)
    ensures KeepNonBlank(a + [blank] + b) == KeepNonBlank(a) + KeepNonBlank(b)
  {
    KeepNonBlankAppend(a + [blank], b);
    KeepNonBlankAppend(a, [blank]);
    assert KeepNonBlank([blank]) == [] + KeepNonBlank([]);
    assert KeepNonBlank(a) + [] == KeepNonBlank(a);
  }

  // ---------------------------------------------------------- type filter

  /** The type label of every deck, in map order. */
  function TypeLabels(names: seq<string>, entries: map<string, Deck>): seq<string>
    requires forall n :: n in names ==> n in entries
  {
    seq(|names|, i requires 0 <= i < |names| => TypeLabel(entries[names[i]]))
  }

  /** ["すべて"] + sorted(set(d.get("タイプ", "") for d in decks.values())). */
  function TypeOptions(s: Snapshot): (options: seq<string>)
    requires WellFormed(s)
    ensures |options| >= 1 && options[0] == ALL
    ensures StrictlySorted(options[1..])
    ensures forall t :: t in options[1..] <==> exists n :: n in s.entries && TypeLabel(s.entries[n]) == t
  {
    var labels := TypeLabels(s.names, s.entries);
    var sorted := SortedDistinct(labels);
    assert forall t :: t in labels <==> exists n :: n in s.entries && TypeLabel(s.entries[n]) == t by {
      forall t | t in labels ensures exists n :: n in s.entries && TypeLabel(s.entries[n]) == t {
        var i :| 0 <= i < |labels| && labels[i] == t;
        assert s.names[i] in s.names;
      }
      forall t | exists n :: n in s.entries && TypeLabel(s.entries[n]) == t ensures t in labels {
        var n :| n in s.entries && TypeLabel(s.entries[n]) == t;
        var i :| 0 <= i < |s.names| && s.names[i] == n;
        assert labels[i] == t;
      }
    }
    assert ([ALL] + sorted)[1..] == sorted;
    [ALL] + sorted
  }

  /** The option list is the only strictly sorted list of exactly those labels. */
  lemma TypeOptionsUnique(s: Snapshot, other: seq<string>)
    requires WellFormed(s)
    requires StrictlySorted(other)
    requires forall t :: t in other <==> exists n :: n in s.entries && TypeLabel(s.entries[n]) == t
    ensures TypeOptions(s) == [ALL] + other
  {
    var options := TypeOptions(s);
    SortedUnique(options[1..], other);
    assert options == [options[0]] + options[1..];
  }

  /** The names, in order, whose deck satisfies keep. */
  function Select(names: seq<string>, entries: map<string, Deck>, keep: Deck -> bool): (r: seq<string>)
    requires forall n :: n in names ==> n in entries
    ensures |r| <= |names|
  {
    if names == [] then []
    else
      assert forall n :: n in names[1..] ==> n in names;
      (if keep(entries[names[0]]) then [names[0]] else []) + Select(names[1..], entries, keep)
  }

  /** The selected names are exactly the names whose deck satisfies keep. */
  lemma {:induction false} SelectMembers(names: seq<string>, entries: map<string, Deck>, keep: Deck -> bool)
    requires forall n :: n in names ==> n in entries
    ensures forall n :: n in Select(names, entries, keep) <==> n in names && keep(entries[n])
  {
    if names != [] {
      assert forall n :: n in names[1..] ==> n in names;
      SelectMembers(names[1..], entries, keep);
      assert names == [names[0]] + names[1..];
    }
  }

  /** Selection distributes over concatenation: the map order is kept. */
  lemma {:induction false} SelectAppend(a: seq<string>, b: seq<string>, entries: map<string, Deck>, keep: Deck -> bool)
    requires forall n :: n in a + b ==> n in entries
    ensures Select(a + b, entries, keep) == Select(a, entries, keep) + Select(b, entries, keep)
  {
    if a == [] {
      assert a + b == b;
    } else {
      assert (a + b)[0] == a[0] && (a + b)[1..] == a[1..] + b;
      SelectAppend(a[1..], b, entries, keep);
    }
  }

  /** d.get("タイプ") == selected: a deck without タイプ has None, equal to no label. */
  function HasType(selected: string): (keep: Deck -> bool)
    ensures forall d :: keep(d) <==> d.deckType.Some? && d.deckType.value == selected
  {
    (d: Deck) => d.deckType == Some(selected)
  }

  /** The comparison the option list implies: a missing タイプ reads as "". */
  function HasLabel(selected: string): (keep: Deck -> bool)
    ensures forall d :: keep(d) <==> d.deckType == Some(selected) || (selected == "" && d.deckType == None)
  {
    (d: Deck) => TypeLabel(d) == selected
  }

  /** The sidebar's list for the chosen type, as written:
      [n for n, d in decks.items() if d.get("タイプ") == selected], or every
      deck for "すべて". A deck without タイプ matches no label. */
  function FilterByType(s: Snapshot, selected: string): (shown: seq<string>)
    requires forall n :: n in s.names ==> n in s.entries
    ensures selected == ALL ==> shown == s.names
    ensures forall n :: n in shown <==> n in s.names && (selected == ALL || s.entries[n].deckType == Some(selected))
  {
    SelectMembers(s.names, s.entries, HasType(selected));
    if selected == ALL then s.names else Select(s.names, s.entries, HasType(selected))
  }

  /** The list for a type keeps the map order: each block of the order
      contributes its own matches, one block after the other. */
  lemma FilterByTypeKeepsOrder(a: seq<string>, b: seq<string>, entries: map<string, Deck>, selected: string)
    requires forall n :: n in a + b ==> n in entries
    requires selected != ALL
    ensures FilterByType(Snapshot(a + b, entries), selected)
         == FilterByType(Snapshot(a, entries), selected) + FilterByType(Snapshot(b, entries), selected)
  {
    assert forall n :: n in a ==> n in a + b;
    assert forall n :: n in b ==> n in a + b;
    SelectAppend(a, b, entries, HasType(selected));
  }

  /** As written, a deck saved without タイプ puts "" among the options, but
      choosing "" never lists it. */
  lemma UntypedDeckNotListed(s: Snapshot, n: string)
    requires WellFormed(s) && n in s.entries && s.entries[n].deckType == None
    ensures "" in TypeOptions(s)[1..]
    ensures n !in FilterByType(s, "")
  {
    assert TypeLabel(s.entries[n]) == "";
  }

  /** The smallest store showing it: one untyped deck, so the "" option lists nothing at all. */
  lemma UntypedDeckEmptyList()
    ensures var s := Snapshot(["X"], map["X" := Deck(None, "★", None, Recipe([], []), [], [], [], "", "#3B82F6")]);
            "" in TypeOptions(s)[1..] && FilterByType(s, "") == []
  {
    var s := Snapshot(["X"], map["X" := Deck(None, "★", None, Recipe([], []), [], [], [], "", "#3B82F6")]);
    UntypedDeckNotListed(s, "X");
  }

  /** Corrected filter: compares the same label the option list is built
      from, so a missing タイプ counts as "". */
  function FilterByLabel(s: Snapshot, selected: string): (shown: seq<string>)
    requires forall n :: n in s.names ==> n in s.entries
    ensures selected == ALL ==> shown == s.names
    ensures forall n :: n in shown <==> n in s.names && (selected == ALL || TypeLabel(s.entries[n]) == selected)
  {
    SelectMembers(s.names, s.entries, HasLabel(selected));
    if selected == ALL then s.names else Select(s.names, s.entries, HasLabel(selected))
  }

  /** With the corrected filter every deck is listed under the option its own
      type produced, so no offered option lists nothing. */
  lemma EveryDeckListedUnderItsOption(s: Snapshot, n: string)
    requires WellFormed(s) && n in s.entries
    ensures TypeLabel(s.entries[n]) in TypeOptions(s)[1..]
    ensures n in FilterByLabel(s, TypeLabel(s.entries[n]))
  {
  }

  lemma {:induction false} EveryOptionListsADeck(s: Snapshot, t: string)
    requires WellFormed(s) && t in TypeOptions(s)[1..]
    ensures FilterByLabel(s, t) != []
  {
    var n :| n in s.entries && TypeLabel(s.entries[n]) == t;
    assert n in FilterByLabel(s, t);
  }

  // ---------------------------------------------------------------- totals

  /** The 合計枚数 metric's delta: free slots below 20 cards, the "✅ 20枚" mark otherwise. */
  datatype Meter = SlotsFree(free: nat) | Complete

  function Indicator(total: nat): (m: Meter)
    ensures m.Complete? <==> total >= FULL_DECK
    ensures m.SlotsFree? ==> 0 < m.free && total + m.free == FULL_DECK
  {
    if total < FULL_DECK then SlotsFree(FULL_DECK - total) else Complete
  }

  /** A recipe of more than 20 cards still shows the complete mark. */
  lemma OverfullShowsComplete(r: Recipe)
    requires RecipeTotal(r) > FULL_DECK
    ensures Indicator(RecipeTotal(r)) == Complete
  {
  }

  /** A deck fresh from the add form has an empty recipe: 0 cards, 20 slots free. */
  lemma NewDeckHasAllSlotsFree()
    ensures RecipeTotal(Recipe([], [])) == 0
    ensures Indicator(RecipeTotal(Recipe([], []))) == SlotsFree(FULL_DECK)
  {
  }

  // ------------------------------------------------------------ add / delete

  datatype AddOutcome = Added | DuplicateName | MissingName

  /** The "追加・保存" button. The name is taken as typed (not trimmed): an
      empty name or one already in the store is refused and nothing changes;
      otherwise the new deck goes to the end of the order and the store is saved. */
  method AddDeck(store: Store, name: string, deckType: string, difficulty: string,
                 strengthText: string, weaknessText: string, tips: string, color: string)
    returns (outcome: AddOutcome)
    requires store.Valid()
    requires deckType in TYPE_CHOICES && difficulty in DIFFICULTY_CHOICES
    modifies store
    ensures store.Valid()
    ensures outcome == Added <==> name != "" && name !in old(store.entries)
    ensures outcome == DuplicateName <==> name in old(store.entries)
    ensures outcome != Added ==>
      store.names == old(store.names) && store.entries == old(store.entries) && store.disk == old(store.disk)
    ensures outcome == Added ==>
      && store.names == old(store.names) + [name]
      && store.entries.Keys == old(store.entries).Keys + {name}
      && (forall n :: n in old(store.entries) ==> store.entries[n] == old(store.entries)[n])
      && store.disk == Some(store.Current())
    ensures outcome == Added ==>
      store.entries[name] == Deck(Some(deckType), difficulty, None, Recipe([], []), NEW_DECK_PHASES,
                                  NonBlankLines(strengthText), NonBlankLines(weaknessText), tips, color)
  {
    if name != "" && name !in store.entries {
      var deck := Deck(Some(deckType), difficulty, None, Recipe([], []), NEW_DECK_PHASES,
                       NonBlankLines(strengthText), NonBlankLines(weaknessText), tips, color);
      store.Put(name, deck);
      store.Save();
      outcome := Added;
    } else if name in store.entries {
      outcome := DuplicateName;
    } else {
      outcome := MissingName;
    }
  }

  /** The "削除する" button on the selected deck (the selector only offers
      existing names): that deck goes, the rest keep their order, the store is saved. */
  method DeleteDeck(store: Store, name: string)
    requires store.Valid() && name in store.entries
    modifies store
    ensures store.Valid()
    ensures store.entries == old(store.entries) - {name}
    ensures store.names == Without(old(store.names), name)
    ensures |store.names| == |old(store.names)| - 1
    ensures store.disk == Some(store.Current())
  {
    store.Remove(name);
    store.Save();
  }

  /** Deleting a deck just added by the form gives back the order it was added to. */
  lemma DeleteUndoesAdd(s: Snapshot, name: string)
    requires WellFormed(s) && name !in s.entries
    ensures Without(s.names + [name], name) == s.names
  {
    WithoutSplice(s.names, name, []);
    assert s.names + [name] + [] == s.names + [name];
    assert s.names + [] == s.names;
  }
}
