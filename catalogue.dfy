/** The deck catalogue shared by the web and the console front ends: the deck
    record, the insertion-ordered name -> deck dictionary both of them mutate in
    place, and the card totals both of them display. */
module Catalogue {

  datatype Option<T> = None | Some(value: T)

  /** One line of a recipe: a card name (名前) and how many copies (枚数). */
  datatype Card = Card(name: string, count: nat)

  /** レシピ: the Pokémon list (ポケモン) and the trainer list (トレーナー). */
  datatype Recipe = Recipe(pokemon: seq<Card>, trainer: seq<Card>)

  /** One entry of 回し方: a stage label and how to play it. */
  datatype Phase = Phase(stage: string, text: string)

  /** A deck record. deckType is None when the stored record has no タイプ key;
      the other fields read by the model are always written by both add paths. */
  datatype Deck = Deck(
    deckType: Option<string>,   // タイプ
    difficulty: string,         // 難易度, a star string such as "★★★"
    tier: Option<string>,       // Tier, only ever present in hand-written records
    recipe: Recipe,             // レシピ
    phases: seq<Phase>,         // 回し方, in document order
    strengths: seq<string>,     // 強み
    weaknesses: seq<string>,    // 弱み
    tips: string,               // 対策
    color: string               // イメージカラー
  )

  /** The label a deck contributes to the type list: a missing タイプ reads as
      "", so an untyped deck and one typed "" get the same label. */
  function TypeLabel(d: Deck): (l: string)
    ensures l == "" <==> d.deckType == None || d.deckType == Some("")
    ensures d.deckType.Some? ==> l == d.deckType.value
  {
    if d.deckType.Some? then d.deckType.value else ""
  }

  /** No name occurs twice. */
  predicate Distinct(names: seq<string>)
  {
    forall i, j :: 0 <= i < j < |names| ==> names[i] != names[j]
  }

  /** The content of the store document: deck names in insertion order and
      the record of each. */
  datatype Snapshot = Snapshot(names: seq<string>, entries: map<string, Deck>)

  /** The order lists every key exactly once. */
  ghost predicate WellFormed(s: Snapshot)
  {
    Distinct(s.names) && forall n :: n in s.names <==> n in s.entries
  }

  // ---------------------------------------------------------------- totals

  /** sum(c["枚数"] for c in cards): no line counts more than the total, and
      the total is 0 exactly when every line has 枚数 0. */
  function CardTotal(cards: seq<Card>): (total: nat)
    ensures forall i :: 0 <= i < |cards| ==> cards[i].count <= total
    ensures total == 0 <==> forall i :: 0 <= i < |cards| ==> cards[i].count == 0
  {
    if cards == [] then 0
    else
      var rest := CardTotal(cards[1..]);
      assert forall i :: 1 <= i < |cards| ==> cards[i] == cards[1..][i - 1];
      cards[0].count + rest
  }

  /** The total of a concatenation is the sum of the totals. */
  lemma {:induction false} CardTotalAppend(a: seq<Card>, b: seq<Card>)
    ensures CardTotal(a + b) == CardTotal(a) + CardTotal(b)
  {
    if a == [] {
      assert a + b == b;
    } else {
      assert (a + b)[1..] == a[1..] + b;
      CardTotalAppend(a[1..], b);
    }
  }

  /** The whole recipe's card count, Pokémon total plus trainer total: the
      number of cards over both lists taken together. */
  function RecipeTotal(r: Recipe): (total: nat)
    ensures total == CardTotal(r.pokemon + r.trainer)
  {
    CardTotalAppend(r.pokemon, r.trainer);
    CardTotal(r.pokemon) + CardTotal(r.trainer)
  }

  // ------------------------------------------------------- ordered removal

  /** names with every occurrence of x taken out, the others in their order. */
  function Without(names: seq<string>, x: string): (r: seq<string>)
    ensures |r| <= |names|
    ensures forall n :: n in r <==> n in names && n != x
  {
    if names == [] then []
    else
      assert forall n :: n in names <==> n == names[0] || n in names[1..] by {
        assert names == [names[0]] + names[1..];
      }
      (if names[0] == x then [] else [names[0]]) + Without(names[1..], x)
  }

  /** Removal distributes over concatenation: the remaining names keep their
      relative order. */
  lemma {:induction false} WithoutAppend(a: seq<string>, b: seq<string>, x: string)
    ensures Without(a + b, x) == Without(a, x) + Without(b, x)
  {
    if a == [] {
      assert a + b == b;
    } else {
      var head := if a[0] == x then [] else [a[0]];
      assert (a + b)[0] == a[0] && (a + b)[1..] == a[1..] + b;
      assert Without(a + b, x) == head + Without(a[1..] + b, x);
      assert Without(a, x) == head + Without(a[1..], x);
      WithoutAppend(a[1..], b, x);
      assert head + (Without(a[1..], x) + Without(b, x)) == (head + Without(a[1..], x)) + Without(b, x);
    }
  }

  /** Removing a name absent from the list changes nothing. */
  lemma {:induction false} WithoutAbsent(a: seq<string>, x: string)
    requires x !in a
    ensures Without(a, x) == a
  {
    if a != [] {
      WithoutAbsent(a[1..], x);
      assert a == [a[0]] + a[1..];
    }
  }

  /** Deleting the one occurrence of x between a and b leaves exactly a + b. */
  lemma WithoutSplice(a: seq<string>, x: string, b: seq<string>)
    requires x !in a && x !in b
    ensures Without(a + [x] + b, x) == a + b
  {
    var ax := a + [x];
    assert ax + b == a + [x] + b;
    WithoutAppend(ax, b, x);
    WithoutAppend(a, [x], x);
    assert Without([x], x) == [] by {
      assert [x][1..] == [];
    }
    WithoutAbsent(a, x);
    WithoutAbsent(b, x);
    assert Without(ax, x) == a;
  }

  /** Removing a present name from a duplicate-free order shortens it by one
      and keeps it duplicate-free. */
  lemma {:induction false} WithoutDistinct(names: seq<string>, x: string)
    requires Distinct(names) && x in names
    ensures Distinct(Without(names, x))
    ensures |Without(names, x)| == |names| - 1
  {
    var i :| 0 <= i < |names| && names[i] == x;
    var a, b := names[..i], names[i + 1..];
    assert names == a + [x] + b;
    assert x !in a by {
      forall k | 0 <= k < |a| ensures a[k] != x { assert names[k] == a[k]; }
    }
    assert x !in b by {
      forall k | 0 <= k < |b| ensures b[k] != x { assert names[i + 1 + k] == b[k]; }
    }
    WithoutSplice(a, x, b);
    assert Without(names, x) == a + b;
    forall p, q | 0 <= p < q < |a + b| ensures (a + b)[p] != (a + b)[q] {
      var p' := if p < i then p else p + 1;
      var q' := if q < i then q else q + 1;
      assert (a + b)[p] == names[p'] && (a + b)[q] == names[q'];
    }
  }

  // ----------------------------------------------------------------- store

  /** decks[name] = deck on the content of the dictionary: the key set gains
      name, name now holds deck, every other record is kept, and the order
      gains name at the end only when it was not a key already. */
  function Assign(s: Snapshot, name: string, deck: Deck): (r: Snapshot)
    ensures r.entries.Keys == s.entries.Keys + {name}
    ensures r.entries[name] == deck
    ensures forall n :: n in s.entries && n != name ==> r.entries[n] == s.entries[n]
    ensures s.names <= r.names && |r.names| <= |s.names| + 1
    ensures WellFormed(s) ==> WellFormed(r)
  {
    if name in s.entries then Snapshot(s.names, s.entries[name := deck])
    else
      var names := s.names + [name];
      assert forall i :: 0 <= i < |s.names| ==> names[i] == s.names[i];
      Snapshot(names, s.entries[name := deck])
  }

  /** A Python dict of decks as both front ends hold it: keys in insertion
      order, assignment to an existing key keeps its place, `del` removes a key.
      disk is the content of decks.json (None while the file does not exist). */
  class Store {
    var names: seq<string>
    var entries: map<string, Deck>
    ghost var disk: Option<Snapshot>

    ghost predicate Valid()
      reads this
    {
      WellFormed(Snapshot(names, entries))
    }

    function Current(): Snapshot
      reads this
    {
      Snapshot(names, entries)
    }

    /** load_decks(): the document's decks, or no decks when the file is missing. */
    constructor Load(file: Option<Snapshot>)
      requires file.Some? ==> WellFormed(file.value)
      ensures Valid() && disk == file
      ensures file.None? ==> names == [] && entries == map[]
      ensures file.Some? ==> Current() == file.value
    {
      if file.Some? {
        names, entries := file.value.names, file.value.entries;
      } else {
        names, entries := [], map[];
      }
      disk := file;
    }

    /** decks[name] = deck: a new name goes to the end of the order, an
        existing one is replaced where it stands; no other entry changes. */
    method Put(name: string, deck: Deck)
      requires Valid()
      modifies this
      ensures Valid() && disk == old(disk)
      ensures Current() == Assign(old(Current()), name, deck)
      ensures entries == old(entries)[name := deck]
      ensures names == if name in old(entries) then old(names) else old(names) + [name]
    {
      if name !in entries {
        names := names + [name];
      }
      entries := entries[name := deck];
    }

    /** del decks[name]: only that name goes, the others keep their order and records. */
    method Remove(name: string)
      requires Valid() && name in entries
      modifies this
      ensures Valid() && disk == old(disk)
      ensures entries == old(entries) - {name}
      ensures names == Without(old(names), name)
      ensures |names| == |old(names)| - 1
    {
      WithoutDistinct(names, name);
      names := Without(names, name);
      entries := entries - {name};
    }

    /** save_decks(decks): the whole dictionary overwrites the document. */
    method Save()
      requires Valid()
      modifies this`disk
      ensures Valid() && disk == Some(Current())
    {
      disk := Some(Snapshot(names, entries));
    }
  }
}
