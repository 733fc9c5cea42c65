# Pokémon TCG Pocket deck catalogue — a Dafny model

The repository is a small deck builder for Pokémon TCG Pocket with two front ends.
`app.py` is a Streamlit web page and `main.py` is a console program. Both keep a
catalogue of deck archetypes in `decks.json`. In memory the catalogue is a Python dict
from deck name to a deck record. A record holds タイプ (type), 難易度 (difficulty), a
レシピ (recipe) of ポケモン and トレーナー card lists with 名前/枚数 (name/count),
回し方 (play phases), 強み/弱み (strengths/weaknesses), 対策 (tips) and
イメージカラー (colour). The logic sits inline in the rendering code. This model lifts
it out:

- `text.dfy`, module `Text`: the Python string operations the logic depends on.
  These are `str.strip()` (Python's full whitespace set), `str.split("\n")` with its
  inverse `join`, ASCII `str.lower()`, and the code-point order `sorted()` uses on
  strings.
- `catalogue.dfy`, module `Catalogue`: the deck record, and the insertion-ordered dict
  both front ends mutate in place. The dict is a class `Store` with the key order as a
  sequence, the records as a map, and a ghost `disk` field standing for the content of
  `decks.json`. The module also holds the card totals and the order-preserving removal
  of a name.
- `web.dfy`, module `WebApp`: the logic of `app.py`. That is the add form (name not
  trimmed, empty and duplicate names refused), the delete button, the sidebar type
  filter and its option list, the splitting of the 強み/弱み text areas into items,
  and the recipe totals with the "slots left out of 20" metric.
- `console.dfy`, module `Console`: the logic of `main.py`. That is `add_deck` (name
  trimmed, empty name cancels, an existing name is overwritten in place), the total
  loops of `display_deck`, and the command loop of `main`. The loop runs over a
  sequence of typed lines: a quit word ends it, `new` adds, an exact name displays,
  and anything else offers an add that `y` accepts. The loop is specified by a
  function over the typed lines, and the method that runs it is proved equal to that
  function.

Both add operations, delete, the filter and the totals are proved against
specification functions and lemmas. Those cover: rejection leaves the store untouched;
success appends exactly one name at the end; overwrite keeps the position; delete
removes exactly one name and keeps the others' order; the filter keeps map order;
the option list is the unique sorted list of the distinct labels; totals are sums.

## Model

| member | source | states |
|---|---|---|
| `Text.Strip` | main.py:74 | `str.strip()` gives `""` exactly when the text is all whitespace. Otherwise the result starts and ends with a non-whitespace character |
| `Text.StripIsSlice` | main.py:74 | the stripped text is the slice of the input right after its leading whitespace, and every character outside that slice is whitespace |
| `Text.StripIdempotent` | main.py:121 | stripping twice gives the same as stripping once |
| `Text.StripFixed` | main.py:121 | a text that neither starts nor ends with whitespace is its own strip |
| `Text.Split` | app.py:130 | `split("\n")` always gives at least one piece, and no piece contains a newline |
| `Text.JoinSplit` | app.py:130 | joining the pieces of a split with the separator gives back the original text |
| `Text.Join` | app.py:130 | `"\n".join(parts)` begins with the first piece. `Text.JoinSplit` and `Text.SplitJoin` make it the inverse of `split` |
| `Text.Lower` | main.py:123 | `str.lower()` on ASCII: same length, each capital becomes its small letter, no capital letter is left, and every other character is unchanged |
| `Text.LowerIsY` | main.py:132 | a text lowers to `y` exactly when it is `y` or `Y` |
| `Text.SplitJoin` | app.py:130 | pieces without the separator, joined and then split, come back unchanged |
| `Text.LessIrreflexive` | app.py:103 | no string sorts before itself |
| `Text.LessTransitive` | app.py:103 | the string order used by `sorted()` is transitive |
| `Text.LessTotal` | app.py:103 | any two different strings are ordered one way or the other |
| `Text.InsertSorted` | app.py:103 | inserting into a strictly ascending list keeps it strictly ascending and adds exactly the new element |
| `Text.SortedDistinct` | app.py:102-103 | `sorted(set(xs))` is strictly ascending and holds exactly the elements of `xs` |
| `Text.SortedUnique` | app.py:103 | two strictly ascending lists with the same elements are equal |
| `Catalogue.TypeLabel` | app.py:102 | `d.get("タイプ", "")`: the label is the stored type. It is `""` exactly when the type is missing or is itself `""` |
| `Catalogue.CardTotal` | app.py:211-212 | `sum(c["枚数"] ...)`: no line counts more than the total, and the total is 0 exactly when every line has 枚数 0 |
| `Catalogue.RecipeTotal` | app.py:229 | Pokémon total plus trainer total is the count over all cards of the recipe |
| `Catalogue.CardTotalAppend` | app.py:211-212 | the `枚数` sum over two concatenated lists is the sum of their sums |
| `Catalogue.Without` | app.py:272 | removing a name keeps exactly the other names and never lengthens the order |
| `Catalogue.WithoutAppend` | app.py:272 | removal distributes over concatenation, so the remaining names keep their relative order |
| `Catalogue.WithoutSplice` | app.py:272 | deleting the single occurrence of `x` from `a + [x] + b` leaves exactly `a + b` |
| `Catalogue.WithoutDistinct` | app.py:272 | deleting a present name from a duplicate-free order shortens it by one and keeps it duplicate-free |
| `Catalogue.Assign` | main.py:87 | `decks[name] = deck` on values: the key set gains the name and the name holds the deck. Every other record is kept. The old order is a prefix of the new one, at most one name longer. A well-formed dictionary stays well formed |
| `Catalogue.Store.Load` | main.py:10-16 | a missing file gives an empty store; an existing document gives its decks in document order |
| `Catalogue.Store.Put` | main.py:87 | `decks[name] = deck` in place: the store becomes `Catalogue.Assign` of its old content. A new name is appended to the order, an existing one keeps its place, and only that entry changes |
| `Catalogue.Store.Remove` | app.py:272 | `del decks[name]`: that key goes, the order loses just that name, the other records stay |
| `Catalogue.Store.Save` | app.py:77-79 | the document afterwards holds the whole current store |
| `WebApp.KeepNonBlank` | app.py:130-131 | the comprehension keeps at most as many lines as it is given. Which ones it keeps is stated by `WebApp.KeepNonBlankMembers` |
| `WebApp.KeepNonBlankMembers` | app.py:130-131 | the kept lines are exactly the input lines that are not all whitespace |
| `WebApp.KeepNonBlankAppend` | app.py:130-131 | the filter distributes over concatenation, so kept lines stay in their order |
| `WebApp.NonBlankLines` | app.py:130-131 | each 強み/弱み item is a non-blank line of the text, and every non-blank line is an item; no item contains a newline |
| `WebApp.NonBlankLinesOfRows` | app.py:130-131 | typing rows one per line yields exactly the non-blank rows, untrimmed and in order |
| `WebApp.BlankRowIgnored` | app.py:131 | a blank row between two blocks adds no item |
| `WebApp.TypeOptions` | app.py:102-103 | the options are `すべて` followed by a strictly ascending list of exactly the decks' type labels, a missing type counting as `""` |
| `WebApp.TypeOptionsUnique` | app.py:102-103 | any strictly sorted list of those labels is the option list, so the options are fully determined |
| `WebApp.Select` | app.py:106 | the comprehension over `decks.items()` lists at most as many names as there are decks. Which ones is stated by `WebApp.SelectMembers` |
| `WebApp.HasType` | app.py:106 | the test `d.get("タイプ") == selected` holds exactly when the deck has a type and it equals the choice |
| `WebApp.HasLabel` | app.py:102 | the corrected test holds when the type equals the choice, or when the choice is `""` and the deck has no type |
| `WebApp.SelectMembers` | app.py:106 | the comprehension keeps exactly the names whose deck passes the test |
| `WebApp.SelectAppend` | app.py:106 | the comprehension keeps map order |
| `WebApp.FilterByType` | app.py:105-106 | Any label other than `すべて` lists exactly the names whose stored タイプ equals it; a deck without タイプ matches no label. `すべて` means no filtering, read as every name in order |
| `WebApp.FilterByTypeKeepsOrder` | app.py:106 | the filtered list follows map order: each block of the order contributes its matches in turn |
| `WebApp.UntypedDeckNotListed` | app.py:102-106 | a deck stored without タイプ puts `""` among the options but is never listed under `""` |
| `WebApp.UntypedDeckEmptyList` | app.py:102-106 | a store whose only deck has no タイプ offers `""` and lists nothing for it |
| `WebApp.FilterByLabel` | app.py:105-106 | corrected filter: lists exactly the names whose type label (missing counted as `""`) equals the choice |
| `WebApp.EveryDeckListedUnderItsOption` | app.py:102-106 | with the corrected filter every deck's label is offered and the deck is listed under it |
| `WebApp.EveryOptionListsADeck` | app.py:102-106 | with the corrected filter no offered type option lists nothing |
| `WebApp.Indicator` | app.py:230 | the metric shows the complete mark exactly when the total is 20 or more; otherwise it shows a positive number of free slots that tops the total up to 20 |
| `WebApp.OverfullShowsComplete` | app.py:229-230 | a recipe of more than 20 cards still shows the complete mark |
| `WebApp.NewDeckHasAllSlotsFree` | app.py:128 | the empty recipe of a new deck totals 0 and shows 20 free slots |
| `WebApp.AddDeck` | app.py:123-142 | Adds only when the untrimmed name is non-empty and not a key. Otherwise it reports a duplicate (name present, even `""`) or a missing name, and nothing changes. On success the name is appended, old records are unchanged, the new record has empty lists, phases 序盤/中盤/終盤 with empty text and the split 強み/弱み, and the document is saved |
| `WebApp.DeleteDeck` | app.py:269-276 | exactly the selected name goes, the others keep order and records, and the document is saved |
| `WebApp.DeleteUndoesAdd` | app.py:272 | deleting a name just appended restores the previous order |
| `Console.SumCounts` | main.py:31-34 | the running-total loop ends with the `枚数` sum of the list |
| `Console.RecipeTotals` | main.py:28-43 | the two loop totals are the sums of their lists, and the printed 合計 counts every card of the recipe |
| `Console.Classify` | main.py:121-131 | The decision on a typed line. It is a quit exactly when the stripped, lower-cased line is `quit`, `q` or `exit`, and an add exactly when it is `new`. A deck is shown only under its stored name, which is the stripped line. An unknown text is never a stored name. Neither of these reads as a command word. Together these fix the decision for every line |
| `Console.ClassifyIgnoresSurroundingSpace` | main.py:121 | whitespace around a typed line does not change the decision: the line is read as its stripped text would be |
| `Console.PlainNameShown` | main.py:128-129 | a stored name with no surrounding whitespace that is no command word is displayed by typing it |
| `Console.ShownNameIsPlain` | main.py:121-129 | a displayed deck always has such a name, so names with surrounding whitespace or spelling a command word can never be displayed |
| `Console.DeckNamedNewNotShown` | main.py:126-129 | a deck named `New` exists but typing `New` starts an add, and no line displays it |
| `Console.Confirms` | main.py:132 | `input().strip().lower() == "y"` holds exactly when the stripped answer is `y` or `Y` |
| `Console.ConsoleDeck` | main.py:87-96 | A console-added record has a type and an empty recipe. It has one phase, labelled メモ, and colour `#888888`. Its 強み and 弱み lists have one element each, even for an empty answer, and those items are already stripped |
| `Console.AddFromLines` | main.py:71-96 | `add_deck` on values, reading from a position in the typed lines. An empty stripped name cancels after one line and changes nothing. Running out of lines changes nothing. Otherwise, after the name and seven answers, the stripped name holds `ConsoleDeck` of those answers. The keys grow by that name only, other records are kept, the order keeps its prefix, and a well-formed dictionary stays well formed |
| `Console.AddDeck` | main.py:71-102 | in place on the store: its result, the next line and the new store are exactly `Console.AddFromLines` of the old store. The document is written with the whole store exactly when a deck was stored, and left alone otherwise |
| `Console.LoopFrom` | main.py:114-133 | The while loop of `main` on values. A quit word ends it on that line. `new` runs `add_deck` on the next lines. A stored name is displayed and changes nothing. Anything else reads one answer and runs `add_deck` only if it confirms. It ends on a quit or at the end of input, never reports "no decks", never removes or reorders a deck, keeps the dictionary well formed, and changes it only when it writes the file |
| `Console.SessionOutcome` | main.py:110-112 | `main` after loading: it reports no decks exactly when there are none, and every deck it starts with is still there, in order |
| `Console.QuitEndsSession` | main.py:123-125 | a quit word at a command position ends the session on that line with the dictionary unchanged |
| `Console.NewStoresDeck` | main.py:126-127 | `new`, a non-empty name and seven answers store `ConsoleDeck` of those answers under the stripped name, record the write, and continue after the last answer |
| `Console.DeclinedOfferChangesNothing` | main.py:130-133 | an unknown name followed by an answer whose stripped form is neither `y` nor `Y` adds nothing; the loop goes on two lines later |
| `Console.ConfirmedOfferAdds` | main.py:130-133 | an unknown name followed by an answer whose stripped form is `y` or `Y` runs `add_deck` on the lines after the answer, and the loop goes on from where `add_deck` stopped |
| `Console.DisplayingChangesNothing` | main.py:128-129 | a run of lines that only name stored decks ends at the end of input with the dictionary and the file untouched |
| `Console.Step` | main.py:121-133 | One pass of the loop, in place on the store. It either ends on a quit with the store unchanged, or leaves the store where `Console.LoopFrom` continues from the next command. The document is written exactly when a deck was stored |
| `Console.Run` | main.py:110-133 | in place on the store: the end reason, the lines read and the final store are exactly `Console.SessionOutcome` of the starting store. The document holds the final store if any deck was stored, and is untouched otherwise |
| `Console.Session` | main.py:105-112 | loads the store, then behaves as `Console.SessionOutcome` of the loaded decks (none for a missing file). A missing file means the program ends at once and writes nothing, and loaded decks are never lost |

## Findings

| source | as written | input that shows it | evidently intended | confidence | as-written member | corrected member |
|---|---|---|---|---|---|---|
| app.py:102-106 | The option list reads a missing タイプ as `""` (`d.get("タイプ", "")`). The filter compares `d.get("タイプ")`, which is `None` for such a deck | a store whose only deck `X` has no タイプ: the options are `すべて`, `""`, and choosing `""` lists nothing | choosing an offered type lists the decks that produced it | medium; not executed | `WebApp.UntypedDeckNotListed` (with `WebApp.FilterByType`, `WebApp.UntypedDeckEmptyList`) | `WebApp.EveryOptionListsADeck` (with `WebApp.FilterByLabel`, `WebApp.EveryDeckListedUnderItsOption`) |

## Left out

- All Streamlit presentation is left out: page setup, CSS, HTML cards, tabs, columns, the emoji, tier-colour and phase-colour tables, `st.rerun` and `st.cache_data`. The cache means each rerun starts from a fresh load; the model keeps one `Store` object instead.
- JSON encoding and decoding is left out (`ensure_ascii=False`, `indent=2`). `Store.disk` holds the document's content as a value. A malformed file, where `json.load` raises, is not modelled: `Store.Load` requires a well-formed document.
- Console printing is left out: the deck listing in `main` and the formatting in `display_deck`. Of `display_deck` only the totals are modelled.
- A missing `枚数` or `名前` raises `KeyError` in both front ends. This is not modelled: counts are natural numbers and always present.
- Record fields other than タイプ and Tier are always present in the model. The source's `.get` defaults for them only affect what is displayed. Tier is optional because only hand-written records carry it.
- `input()` becomes a sequence of lines. When the lines run out, Python raises `EOFError` and the program stops; the model ends the session (`InputEnded`, or `EndOfInput` inside `add_deck`, which writes nothing).
- `Text.Lower` lowers only ASCII letters. Python's `str.lower()` covers all of Unicode, but for the equality tests against `quit`, `q`, `exit`, `new` and `y` the two agree.
- `WebApp.AddDeck` takes the type and difficulty as chosen from the form's fixed lists, the colour as a plain string, and the text areas as given.
- The sidebar selector offers `""` plus the existing names (app.py:92-96). This is why `WebApp.DeleteDeck` requires a present name. The source has no "not found" path for delete, so the model has none.
- The model follows the code. The console add overwrites an existing name, the web add does not trim the name, and delete has no not-found path.
- WebApp.FilterByType and WebApp.FilterByLabel return every name for `すべて`. app.py:105 computes and shows no list in that case; the model reads it as "no filtering".
- Console.ConsoleDeck: its contract states the record's structure, its constants and that its items are stripped. The other field values (the stripped タイプ, 難易度, 回し方 and 対策 answers) are given by its body.
