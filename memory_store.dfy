/**
 * The earlier single-file store (`src/store.ts`, class `Store`): every deck lives in
 * one in-memory map that is written out whole to `store.json`. Here the file is a
 * second map, `persisted`, that `Persist` overwrites with the in-memory one.
 */
module MemoryStore {
  import opened Outcomes

  /** The word record of this store: every field is optional. */
  datatype WordData = WordData(
    sentence: Option<string>,
    definition: Option<string>,
    comment: Option<string>,
    pinyin: Option<string>)

  datatype Deck = Deck(words: map<string, WordData>, description: Option<string>)

  class Store {
    /** The decks held in memory. */
    var decks: map<string, Deck>
    /** The decks written to `store.json` by the last `Persist`. */
    var persisted: map<string, Deck>

    twostate predicate Untouched()
      reads this
    {
      decks == old(decks) && persisted == old(persisted)
    }

    /** Opening the store from the content of `store.json`. */
    constructor (saved: map<string, Deck>)
      ensures decks == saved && persisted == saved
    {
      decks := saved;
      persisted := saved;
    }

    /** `persist`: writes the in-memory decks to the file. */
    method Persist()
      modifies this
      ensures persisted == decks && decks == old(decks)
    {
      persisted := decks;
    }

    /** `hasDeck`: whether a deck of that name is held. */
    predicate HasDeck(name: string)
      reads this
      ensures HasDeck(name) <==> GetDeck(name).Ok?
    {
      name in decks
    }

    /** `getDeck`: the deck of that name, or an error. */
    function GetDeck(name: string): (r: Result<Deck>)
      reads this
      ensures r.Ok? <==> name in decks
      ensures r.Ok? ==> r.value == decks[name]
      ensures r.Err? ==> r.error == DeckNotFound(name)
    {
      if name !in decks then Err(DeckNotFound(name)) else Ok(decks[name])
    }

    /**
     * `removeDeck`: the file is written BEFORE the deck is deleted, so the file still
     * holds the removed deck.
     */
    method RemoveDeck(name: string) returns (r: Outcome)
      modifies this
      ensures r == if name in old(decks) then Pass else Fail(DeckNotFound(name))
      ensures r.Fail? ==> Untouched()
      ensures r.Pass? ==> decks == old(decks) - {name} && persisted == old(decks)
      ensures r.Pass? ==> name !in decks && name in persisted
    {
      if name !in decks {
        return Fail(DeckNotFound(name));
      }
      Persist();
      decks := decks - {name};
      r := Pass;
    }

    /** `addDeck`: adds exactly one key, an empty deck with the description or "". */
    method AddDeck(name: string, description: Option<string>) returns (r: Outcome)
      modifies this
      ensures r == if name in old(decks) then Fail(DeckExists(name)) else Pass
      ensures r.Fail? ==> Untouched()
      ensures r.Pass? ==>
        && decks == old(decks)[name := Deck(map[], Some(if Truthy(description) then description.value else ""))]
        && persisted == decks
    {
      if name in decks {
        return Fail(DeckExists(name));
      }
      var text := if Truthy(description) then description.value else "";
      decks := decks[name := Deck(map[], Some(text))];
      Persist();
      r := Pass;
    }

    /** `addDeckWord`: adds exactly one word to an existing deck that lacks it. */
    method AddDeckWord(name: string, word: string, data: WordData) returns (r: Outcome)
      modifies this
      ensures r == if name !in old(decks) then Fail(DeckNotFound(name))
                   else if word in old(decks)[name].words then Fail(WordExists(name, word))
                   else Pass
      ensures r.Fail? ==> Untouched()
      ensures r.Pass? ==>
        && decks == old(decks)[name := old(decks)[name].(words := old(decks)[name].words[word := data])]
        && persisted == decks
    {
      if name !in decks {
        return Fail(DeckNotFound(name));
      }
      if word in decks[name].words {
        return Fail(WordExists(name, word));
      }
      decks := decks[name := decks[name].(words := decks[name].words[word := data])];
      Persist();
      r := Pass;
    }

    /** `removeDeckWord`: deletes exactly one existing word. */
    method RemoveDeckWord(name: string, word: string) returns (r: Outcome)
      modifies this
      ensures r == if name !in old(decks) then Fail(DeckNotFound(name))
                   else if word !in old(decks)[name].words then Fail(WordNotFound(name, word))
                   else Pass
      ensures r.Fail? ==> Untouched()
      ensures r.Pass? ==>
        && decks == old(decks)[name := old(decks)[name].(words := old(decks)[name].words - {word})]
        && persisted == decks
    {
      if name !in decks {
        return Fail(DeckNotFound(name));
      }
      if word !in decks[name].words {
        return Fail(WordNotFound(name, word));
      }
      decks := decks[name := decks[name].(words := decks[name].words - {word})];
      Persist();
      r := Pass;
    }

    /** `updateDeckWord`: replaces the record of exactly one existing word. */
    method UpdateDeckWord(name: string, word: string, data: WordData) returns (r: Outcome)
      modifies this
      ensures r == if name !in old(decks) then Fail(DeckNotFound(name))
                   else if word !in old(decks)[name].words then Fail(WordNotFound(name, word))
                   else Pass
      ensures r.Fail? ==> Untouched()
      ensures r.Pass? ==>
        && decks == old(decks)[name := old(decks)[name].(words := old(decks)[name].words[word := data])]
        && persisted == decks
    {
      if name !in decks {
        return Fail(DeckNotFound(name));
      }
      if word !in decks[name].words {
        return Fail(WordNotFound(name, word));
      }
      decks := decks[name := decks[name].(words := decks[name].words[word := data])];
      Persist();
      r := Pass;
    }

    /** `deckHasWord`: membership of the word in an existing deck. */
    function DeckHasWord(name: string, word: string): (r: Result<bool>)
      reads this
      ensures r.Ok? <==> HasDeck(name)
      ensures r.Ok? ==> (r.value <==> word in GetDeck(name).value.words)
      ensures r.Err? ==> r.error == DeckNotFound(name)
    {
      if name !in decks then Err(DeckNotFound(name)) else Ok(word in decks[name].words)
    }

    /** `listDeckWords`: the word map of an existing deck. */
    function ListDeckWords(name: string): (r: Result<map<string, WordData>>)
      reads this
      ensures r.Ok? <==> HasDeck(name)
      ensures r.Ok? ==> r.value == GetDeck(name).value.words
      ensures r.Err? ==> r.error == DeckNotFound(name)
    {
      if name !in decks then Err(DeckNotFound(name)) else Ok(decks[name].words)
    }
  }

  /** Adding a new word and then removing it restores every deck. */
  method AddThenRemoveWord(store: Store, name: string, word: string, data: WordData)
    requires name in store.decks && word !in store.decks[name].words
    modifies store
    ensures store.decks == old(store.decks) && store.persisted == store.decks
  {
    var added := store.AddDeckWord(name, word, data);
    assert added.Pass?;
    var has := store.DeckHasWord(name, word);
    assert has == Ok(true);
    var removed := store.RemoveDeckWord(name, word);
    assert removed.Pass?;
    assert store.decks[name].words == old(store.decks)[name].words;
  }

  /** Adding a new deck and removing it restores the decks; the file keeps the removed deck. */
  method AddThenRemoveDeck(store: Store, name: string)
    requires name !in store.decks
    modifies store
    ensures store.decks == old(store.decks)
    ensures name in store.persisted
  {
    var added := store.AddDeck(name, None);
    assert added.Pass?;
    var removed := store.RemoveDeck(name);
    assert removed.Pass?;
  }
}
