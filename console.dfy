/** The deck logic of the console front end (main.py): the command loop of
    main, add_deck reading its answers line by line, and the recipe totals of
    display_deck. The lines the user types are a sequence; running out of them
    is where input() would raise EOFError and the program would stop. */
module Console {
  import opened Text
  import opened Catalogue

  /** イメージカラー of every deck added from the console. */
  const CONSOLE_COLOR := "#888888"

  /** The single 回し方 stage add_deck writes. */
  const MEMO := "メモ"

  /** add_deck asks for the name and then seven more answers. */
  const ADD_ANSWERS := 8

  // ---------------------------------------------------------------- totals

  /** The loop of display_deck over one list: the running total of 枚数. */
  method SumCounts(cards: seq<Card>) returns (total: nat)
    ensures total == CardTotal(cards)
  {
    total := 0;
    for i := 0 to |cards|
      invariant total == CardTotal(cards[..i])
    {
      assert cards[..i + 1] == cards[..i] + [cards[i]];
      CardTotalAppend(cards[..i], [cards[i]]);
      assert CardTotal([cards[i]]) == cards[i].count + CardTotal([]);
      total := total + cards[i].count;
    }
    assert cards[..|cards|] == cards;
  }

  /** The three numbers display_deck prints: the Pokémon total, the trainer
      total, and 合計, which counts every card of the recipe. */
  method RecipeTotals(recipe: Recipe) returns (pokemonTotal: nat, trainerTotal: nat, total: nat)
    ensures pokemonTotal == CardTotal(recipe.pokemon)
    ensures trainerTotal == CardTotal(recipe.trainer)
    ensures total == CardTotal(recipe.pokemon + recipe.trainer)
  {
    pokemonTotal := SumCounts(recipe.pokemon);
    trainerTotal := SumCounts(recipe.trainer);
    total := pokemonTotal + trainerTotal;
    assert total == RecipeTotal(recipe);
  }

  // -------------------------------------------------------------- commands

  datatype Command = Quit | New | Show(name: string) | Unknown(text: string)

  predicate IsQuitWord(w: string)
  {
    w == "quit" || w == "q" || w == "exit"
  }

  /** The decision main takes on one typed line, tried in this order: a quit
      word, then "new" (both case-insensitive), then an exact deck name, and
      otherwise an offer to add. A name is only shown when it is stored and
      reads as no command word; an unknown text is never a stored name. */
  function Classify(line: string, entries: map<string, Deck>): (c: Command)
    ensures c == Quit <==> IsQuitWord(Lower(Strip(line)))
    ensures c == New <==> Lower(Strip(line)) == "new"
    ensures c.Show? ==> c.name in entries && c.name == Strip(line)
    ensures c.Unknown? ==> c.text !in entries && c.text == Strip(line)
    ensures (c.Show? || c.Unknown?) ==> !IsQuitWord(Lower(Strip(line))) && Lower(Strip(line)) != "new"
  {
    var s := Strip(line);
    if IsQuitWord(Lower(s)) then Quit
    else if Lower(s) == "new" then New
    else if s in entries then Show(s)
    else Unknown(s)
  }

  /** Whitespace around a command does not matter: the line is read exactly as
      its stripped text would be. */
  lemma ClassifyIgnoresSurroundingSpace(line: string, entries: map<string, Deck>)
    ensures Classify(line, entries) == Classify(Strip(line), entries)
  {
    StripIdempotent(line);
  }

  /** Any stored deck whose name has no surrounding whitespace and is not a
      command word in any case is shown by typing its name. */
  lemma PlainNameShown(k: string, entries: map<string, Deck>)
    requires k in entries && Strip(k) == k
    requires !IsQuitWord(Lower(k)) && Lower(k) != "new"
    ensures Classify(k, entries) == Show(k)
  {
  }

  /** Conversely, a deck that some line shows has such a name: a name with
      leading or trailing whitespace, or one that reads as a command word, can
      never be displayed. */
  lemma {:induction false} ShownNameIsPlain(line: string, entries: map<string, Deck>, k: string)
    requires Classify(line, entries) == Show(k)
    ensures k in entries && Strip(k) == k
    ensures !IsQuitWord(Lower(k)) && Lower(k) != "new"
  {
    assert Strip(line) == k;
    StripIdempotent(line);
  }

  /** A deck literally named "New" is there, but typing its name starts an add
      instead, and no other line shows it. */
  lemma DeckNamedNewNotShown(entries: map<string, Deck>)
    requires "New" in entries
    ensures Classify("New", entries) == New
    ensures forall line :: Classify(line, entries) != Show("New")
  {
    StripFixed("New");
    assert Lower("New") == "new";
    forall line ensures Classify(line, entries) != Show("New") {
      if Classify(line, entries) == Show("New") {
        ShownNameIsPlain(line, entries, "New");
      }
    }
  }

  /** The answer to "新規追加しますか？ (y/n)": only y or Y, spaces aside, confirms. */
  function Confirms(answer: string): (yes: bool)
    ensures yes <==> Strip(answer) == "y" || Strip(answer) == "Y"
  {
    LowerIsY(Strip(answer));
    Lower(Strip(answer)) == "y"
  }

  // ------------------------------------------------------------------- add

  datatype AddResult = Cancelled | Stored(name: string) | EndOfInput

  /** The record add_deck stores, built from its seven answers after the name
      (タイプ, 難易度, the recipe memo, 回し方, 強み, 弱み, 対策), each stripped.
      The recipe memo is read but not stored: the recipe lists start empty.
      強み and 弱み are one-element lists even when the answer is empty. */
  function ConsoleDeck(answers: seq<string>): (d: Deck)
    requires |answers| == ADD_ANSWERS - 1
    ensures d.deckType.Some? && d.recipe == Recipe([], [])
    ensures |d.phases| == 1 && d.phases[0].stage == MEMO && d.color == CONSOLE_COLOR
    ensures |d.strengths| == 1 && |d.weaknesses| == 1
    ensures Strip(d.strengths[0]) == d.strengths[0] && Strip(d.weaknesses[0]) == d.weaknesses[0]
  {
    StripIdempotent(answers[4]);
    StripIdempotent(answers[5]);
    Deck(Some(Strip(answers[0])), Strip(answers[1]), None, Recipe([], []), [Phase(MEMO, Strip(answers[3]))],
         [Strip(answers[4])], [Strip(answers[5])], Strip(answers[6]), CONSOLE_COLOR)
  }

  /** What one call of add_deck does, read from lines[pos..]: its result, the
      first line it has not read, and the dictionary afterwards. */
  datatype AddStep = AddStep(result: AddResult, next: nat, state: Snapshot)

  /** add_deck on the content of the dictionary. The name is stripped; an
      empty name cancels after that one line. Otherwise seven more answers are
      read and the deck is assigned under that name without any duplicate
      check. Running out of lines first leaves the dictionary as it was. */
  function AddFromLines(s: Snapshot, lines: seq<string>, pos: nat): (a: AddStep)
    requires pos <= |lines|
    ensures pos <= a.next <= |lines|
    ensures a.result.Cancelled? <==> pos < |lines| && Strip(lines[pos]) == ""
    ensures a.result.Cancelled? ==> a.next == pos + 1
    ensures a.result.EndOfInput? ==> a.next == |lines|
    ensures a.result.Stored? <==> pos + ADD_ANSWERS <= |lines| && Strip(lines[pos]) != ""
    ensures !a.result.Stored? ==> a.state == s
    ensures a.result.Stored? ==>
      && a.next == pos + ADD_ANSWERS && a.result.name == Strip(lines[pos]) && a.result.name != ""
      && a.state.entries.Keys == s.entries.Keys + {a.result.name}
      && a.state.entries[a.result.name] == ConsoleDeck(lines[pos + 1 .. pos + ADD_ANSWERS])
      && (forall n :: n in s.entries && n != a.result.name ==> a.state.entries[n] == s.entries[n])
    ensures s.names <= a.state.names
    ensures WellFormed(s) ==> WellFormed(a.state)
  {
    if pos == |lines| then AddStep(EndOfInput, |lines|, s)
    else
      var name := Strip(lines[pos]);
      if name == "" then AddStep(Cancelled, pos + 1, s)
      else if pos + ADD_ANSWERS > |lines| then AddStep(EndOfInput, |lines|, s)
      else AddStep(Stored(name), pos + ADD_ANSWERS, Assign(s, name, ConsoleDeck(lines[pos + 1 .. pos + ADD_ANSWERS])))
  }

  /** add_deck reading its answers from lines[pos..]: it does what
      AddFromLines says to the store, and writes the whole store only when a
      deck was stored. */
  method AddDeck(store: Store, lines: seq<string>, pos: nat) returns (result: AddResult, next: nat)
    requires store.Valid()
    requires pos <= |lines|
    modifies store
    ensures store.Valid()
    ensures AddFromLines(old(store.Current()), lines, pos) == AddStep(result, next, store.Current())
    ensures store.disk == if result.Stored? then Some(store.Current()) else old(store.disk)
  {
    if pos == |lines| {
      return EndOfInput, |lines|;
    }
    var name := Strip(lines[pos]);
    if name == "" {
      return Cancelled, pos + 1;
    }
    if pos + ADD_ANSWERS > |lines| {
      return EndOfInput, |lines|;
    }
    store.Put(name, ConsoleDeck(lines[pos + 1 .. pos + ADD_ANSWERS]));
    store.Save();
    return Stored(name), pos + ADD_ANSWERS;
  }

  // ------------------------------------------------------------------ main

  datatype SessionEnd = NoDecks | QuitCommand | InputEnded

  /** How a session ends: why, how many lines it read, the dictionary at the
      end, and whether decks.json was written along the way. */
  datatype Outcome = Outcome(end: SessionEnd, consumed: nat, state: Snapshot, saved: bool)

  /** The while loop of main from lines[pos..], one command per line: a quit
      word ends it on that line; "new" runs add_deck on the following lines;
      a stored name is displayed, which changes nothing; anything else reads
      one more line and runs add_deck only when that answer confirms. The
      loop never deletes or reorders a deck, keeps the dictionary well formed,
      changes it only by writing it, and ends on a quit or at the end of input. */
  function LoopFrom(s: Snapshot, lines: seq<string>, pos: nat, saved: bool): (o: Outcome)
    requires pos <= |lines|
    ensures o.end != NoDecks && pos <= o.consumed <= |lines|
    ensures o.end == InputEnded ==> o.consumed == |lines|
    ensures o.end == QuitCommand ==> pos < o.consumed
    ensures s.names <= o.state.names && s.entries.Keys <= o.state.entries.Keys
    ensures WellFormed(s) ==> WellFormed(o.state)
    ensures saved ==> o.saved
    ensures !o.saved ==> o.state == s
    decreases |lines| - pos
  {
    if pos == |lines| then Outcome(InputEnded, |lines|, s, saved)
    else
      match Classify(lines[pos], s.entries)
      case Quit => Outcome(QuitCommand, pos + 1, s, saved)
      case New =>
        var a := AddFromLines(s, lines, pos + 1);
        LoopFrom(a.state, lines, a.next, saved || a.result.Stored?)
      case Show(_) => LoopFrom(s, lines, pos + 1, saved)
      case Unknown(_) =>
        if pos + 1 == |lines| then Outcome(InputEnded, |lines|, s, saved)
        else if Confirms(lines[pos + 1]) then
          var a := AddFromLines(s, lines, pos + 2);
          LoopFrom(a.state, lines, a.next, saved || a.result.Stored?)
        else LoopFrom(s, lines, pos + 2, saved)
  }

  /** main after loading: with no decks it returns at once, otherwise it runs
      the loop. It reports no decks exactly when there were none, and the
      decks it started with are all still there at the end, in the same order. */
  function SessionOutcome(s: Snapshot, lines: seq<string>): (o: Outcome)
    ensures o.end == NoDecks <==> s.names == []
    ensures s.names <= o.state.names
    ensures WellFormed(s) ==> WellFormed(o.state)
  {
    if s.names == [] then Outcome(NoDecks, 0, s, false) else LoopFrom(s, lines, 0, false)
  }

  /** A quit word at a command position ends the session on that line, with
      the dictionary as it is. */
  lemma QuitEndsSession(s: Snapshot, lines: seq<string>, pos: nat, saved: bool)
    requires pos < |lines| && IsQuitWord(Lower(Strip(lines[pos])))
    ensures LoopFrom(s, lines, pos, saved) == Outcome(QuitCommand, pos + 1, s, saved)
  {
  }

  /** "new" followed by a non-empty name and its seven answers stores
      ConsoleDeck of those answers under the stripped name, writes the file,
      and the loop goes on after the last answer. */
  lemma NewStoresDeck(s: Snapshot, lines: seq<string>, pos: nat, saved: bool)
    requires pos + 1 + ADD_ANSWERS <= |lines|
    requires Lower(Strip(lines[pos])) == "new" && Strip(lines[pos + 1]) != ""
    ensures LoopFrom(s, lines, pos, saved)
         == LoopFrom(Assign(s, Strip(lines[pos + 1]), ConsoleDeck(lines[pos + 2 .. pos + 1 + ADD_ANSWERS])),
                     lines, pos + 1 + ADD_ANSWERS, true)
  {
  }

  /** An unknown name answered with anything but y or Y adds nothing: the
      loop goes on two lines later with the same dictionary. */
  lemma DeclinedOfferChangesNothing(s: Snapshot, lines: seq<string>, pos: nat, saved: bool)
    requires pos + 1 < |lines| && Classify(lines[pos], s.entries).Unknown?
    requires Strip(lines[pos + 1]) != "y" && Strip(lines[pos + 1]) != "Y"
    ensures LoopFrom(s, lines, pos, saved) == LoopFrom(s, lines, pos + 2, saved)
  {
  }

  /** An unknown name answered with y or Y, spaces aside, runs add_deck on
      the lines after the answer, and the loop goes on where it stopped. */
  lemma ConfirmedOfferAdds(s: Snapshot, lines: seq<string>, pos: nat, saved: bool)
    requires pos + 1 < |lines| && Classify(lines[pos], s.entries).Unknown?
    requires Strip(lines[pos + 1]) == "y" || Strip(lines[pos + 1]) == "Y"
    ensures var a := AddFromLines(s, lines, pos + 2);
      LoopFrom(s, lines, pos, saved) == LoopFrom(a.state, lines, a.next, saved || a.result.Stored?)
  {
  }

  /** Typing only names of stored decks displays them and changes nothing:
      the session runs to the end of input with the dictionary untouched. */
  lemma {:induction false} DisplayingChangesNothing(s: Snapshot, lines: seq<string>, pos: nat, saved: bool)
    requires pos <= |lines|
    requires forall i :: pos <= i < |lines| ==> Classify(lines[i], s.entries).Show?
    ensures LoopFrom(s, lines, pos, saved) == Outcome(InputEnded, |lines|, s, saved)
    decreases |lines| - pos
  {
    if pos < |lines| {
      var c := Classify(lines[pos], s.entries);
      assert c.Show?;
      assert LoopFrom(s, lines, pos, saved) == LoopFrom(s, lines, pos + 1, saved) by {
        assert c == Show(c.name);
      }
      DisplayingChangesNothing(s, lines, pos + 1, saved);
    }
  }

  /** One pass of main's loop on the command at lines[pos], and on the answers
      it reads after it. It either ends the session on a quit word, or leaves
      the store where LoopFrom goes on from next; wrote tells whether add_deck
      stored a deck and wrote the file. */
  method Step(store: Store, lines: seq<string>, pos: nat, ghost saved: bool)
    returns (quit: bool, next: nat, ghost wrote: bool)
    requires store.Valid() && pos < |lines|
    modifies store
    ensures store.Valid()
    ensures pos < next <= |lines|
    ensures quit ==>
      && store.Current() == old(store.Current()) && !wrote
      && LoopFrom(old(store.Current()), lines, pos, saved) == Outcome(QuitCommand, next, store.Current(), saved)
    ensures !quit ==> LoopFrom(old(store.Current()), lines, pos, saved) == LoopFrom(store.Current(), lines, next, saved || wrote)
    ensures !wrote ==> store.Current() == old(store.Current()) && store.disk == old(store.disk)
    ensures wrote ==> store.disk == Some(store.Current())
  {
    var command := Classify(lines[pos], store.entries);
    match command
    case Quit =>
      return true, pos + 1, false;
    case New =>
      var result;
      result, next := AddDeck(store, lines, pos + 1);
      return false, next, result.Stored?;
    case Show(_) =>
      // display_deck only prints.
      return false, pos + 1, false;
    case Unknown(_) =>
      if pos + 1 == |lines| {
        return false, |lines|, false;
      }
      if Confirms(lines[pos + 1]) {
        var result;
        result, next := AddDeck(store, lines, pos + 2);
        return false, next, result.Stored?;
      }
      return false, pos + 2, false;
  }

  /** main after loading, as the loop over the typed lines. It does exactly
      what SessionOutcome says to the store; decks.json ends up holding the
      final store if any deck was stored, and is untouched otherwise. */
  method Run(store: Store, lines: seq<string>) returns (end: SessionEnd, consumed: nat)
    requires store.Valid()
    modifies store
    ensures store.Valid()
    ensures var o := SessionOutcome(old(store.Current()), lines);
      end == o.end && consumed == o.consumed && store.Current() == o.state
      && store.disk == if o.saved then Some(o.state) else old(store.disk)
  {
    if store.names == [] {
      return NoDecks, 0;
    }
    ghost var start := store.Current();
    ghost var saved := false;
    var pos := 0;
    while pos < |lines|
      invariant pos <= |lines|
      invariant store.Valid()
      invariant LoopFrom(store.Current(), lines, pos, saved) == LoopFrom(start, lines, 0, false)
      invariant store.disk == if saved then Some(store.Current()) else old(store.disk)
      decreases |lines| - pos
    {
      var quit, next;
      ghost var wrote;
      quit, next, wrote := Step(store, lines, pos, saved);
      if quit {
        return QuitCommand, next;
      }
      saved := saved || wrote;
      pos := next;
    }
    return InputEnded, |lines|;
  }

  /** The whole program: load the store, then run main's loop. A missing file
      means no decks, so the program ends at once and writes nothing. */
  method Session(file: Option<Snapshot>, lines: seq<string>) returns (store: Store, end: SessionEnd, consumed: nat)
    requires file.Some? ==> WellFormed(file.value)
    ensures fresh(store) && store.Valid()
    ensures var o := SessionOutcome(if file.Some? then file.value else Snapshot([], map[]), lines);
      end == o.end && consumed == o.consumed && store.Current() == o.state
      && store.disk == if o.saved then Some(o.state) else file
    ensures file.None? ==> end == NoDecks && consumed == 0 && store.names == [] && store.disk == None
    ensures file.Some? ==> file.value.names <= store.names
  {
    store := new Store.Load(file);
    end, consumed := Run(store, lines);
  }
}
