/**
 * The file-backed deck store (`src/Store.ts`, class `Store`).
 *
 * The deck folder is modelled as a map from deck name to the deck stored in
 * `<name>.json`, and the metadata file as a second copy of the metadata that
 * `PersistMetadata` overwrites with the in-memory one. A deck is loaded by reading its
 * file, so every operation works on a copy; the copy reaches the folder only through
 * `SaveDeck`. The two content-generator calls are parameters of the operations that
 * make them.
 */
module DeckStore {
  import opened Outcomes
  import opened Decks
  import Text

  /** The word record the content generator returns (it has no level and no date). */
  datatype GeneratedWord = GeneratedWord(
    sentence: string,
    tone: string,
    note: string,
    sentenceTranslation: string,
    translations: Option<seq<string>>,
    comment: Option<string>,
    pinyin: string,
    sentencePinyin: string,
    sentenceDefinition: string)

  /** The phrase the content generator returns; a blank `phrase` means "nothing meaningful". */
  datatype GeneratedPhrase = GeneratedPhrase(
    phrase: string,
    pinyin: string,
    translation: string,
    note: Option<string>)

  /** The suffix under which `importDeck` stages a deck to merge. */
  const TempSuffix: string := "-temp"

  /**
   * The record `addDeckWord` stores: the generated one with trimmed translations (none
   * when the generator gave none), the caller's comment unless it is empty, then the
   * generated comment, then "", the caller's level or -1, and the creation time.
   */
  function NewWord(g: GeneratedWord, comment: Option<string>, level: Option<int>, now: string): (w: WordData)
    ensures g.translations.None? ==> w.translations == []
    ensures g.translations.Some? ==> |w.translations| == |g.translations.value|
    ensures g.translations.Some? ==>
      forall i :: 0 <= i < |w.translations| ==> w.translations[i] == Text.Trim(g.translations.value[i])
    ensures w.comment == if Truthy(comment) then comment.value else if Truthy(g.comment) then g.comment.value else ""
    ensures w.level == if level.Some? then level.value else -1
    ensures w.createdAt == now
    ensures w.pinyin == g.pinyin && w.tone == g.tone && w.note == g.note && w.sentence == g.sentence
    ensures w.sentencePinyin == g.sentencePinyin && w.sentenceTranslation == g.sentenceTranslation
    ensures w.sentenceDefinition == g.sentenceDefinition
  {
    var translations :=
      if g.translations.Some? then seq(|g.translations.value|, i requires 0 <= i < |g.translations.value| => Text.Trim(g.translations.value[i]))
      else [];
    WordData(
      sentence := g.sentence,
      tone := g.tone,
      note := g.note,
      sentenceTranslation := g.sentenceTranslation,
      translations := translations,
      comment := if Truthy(comment) then comment.value else if Truthy(g.comment) then g.comment.value else "",
      pinyin := g.pinyin,
      sentencePinyin := g.sentencePinyin,
      sentenceDefinition := g.sentenceDefinition,
      level := if level.Some? then level.value else -1,
      createdAt := now)
  }

  /** The loop of `mergeDecks`: each source word the target lacks is copied into it. */
  method CopyMissingWords(target: map<string, WordData>, source: map<string, WordData>)
    returns (words: map<string, WordData>)
    ensures words == MergeWords(target, source)
  {
    words := target;
    var pending := source.Keys;
    while pending != {}
      invariant pending <= source.Keys
      invariant words.Keys == target.Keys + (source.Keys - pending)
      invariant forall k :: k in words ==> words[k] == if k in target then target[k] else source[k]
      decreases pending
    {
      var w :| w in pending;
      if w !in words {
        words := words[w := source[w]];
      }
      pending := pending - {w};
    }
  }

  class Store {
    /** The metadata the running command works on. */
    var metadata: Metadata
    /** The content of the metadata file. */
    var savedMetadata: Metadata
    /** The deck folder: the deck held by each `<name>.json`. */
    var files: map<string, Deck>

    /** Every registered deck has a file. */
    ghost predicate Consistent()
      reads this
    {
      forall n :: n in metadata.decks ==> n in files
    }

    /** The folder and both copies of the metadata are as they were. */
    twostate predicate Untouched()
      reads this
    {
      files == old(files) && metadata == old(metadata) && savedMetadata == old(savedMetadata)
    }

    /** Opening a store whose metadata file holds `saved`. */
    constructor (saved: Metadata, folder: map<string, Deck>)
      ensures metadata == saved && savedMetadata == saved && files == folder
    {
      metadata := saved;
      savedMetadata := saved;
      files := folder;
    }

    /** Opening the store on a first run: `default` alone is registered and its file is written. */
    constructor FirstRun()
      ensures metadata == BaseMetadata && savedMetadata == BaseMetadata
      ensures files == map["default" := DefaultDeck]
      ensures Consistent() && Distinct(metadata.decks)
    {
      metadata := BaseMetadata;
      savedMetadata := BaseMetadata;
      files := map["default" := DefaultDeck];
    }

    // -------------------------------------------------------------------------
    // File access

    /** `loadDeck`: the deck in `<name>.json`, or an error when there is no such file. */
    function LoadDeck(name: string): (r: Result<Deck>)
      reads this
      ensures r.Ok? <==> name in files
      ensures r.Ok? ==> r.value == files[name]
      ensures r.Err? ==> r.error == DeckNotFound(name)
    {
      if name in files then Ok(files[name]) else Err(DeckNotFound(name))
    }

    /** `saveDeck`: (over)writes `<name>.json`. */
    method SaveDeck(name: string, deck: Deck)
      modifies this
      ensures files == old(files)[name := deck]
      ensures metadata == old(metadata) && savedMetadata == old(savedMetadata)
    {
      files := files[name := deck];
    }

    /** `deleteDeckFile`: unlinking fails when the file is absent. */
    method DeleteDeckFile(name: string) returns (r: Outcome)
      modifies this
      ensures r == if name in old(files) then Pass else Fail(FileMissing(name))
      ensures files == if r.Pass? then old(files) - {name} else old(files)
      ensures metadata == old(metadata) && savedMetadata == old(savedMetadata)
    {
      if name !in files {
        return Fail(FileMissing(name));
      }
      files := files - {name};
      r := Pass;
    }

    /** `persistMetadata`: the metadata file receives the in-memory metadata. */
    method PersistMetadata()
      modifies this
      ensures savedMetadata == metadata
      ensures metadata == old(metadata) && files == old(files)
    {
      savedMetadata := metadata;
    }

    // -------------------------------------------------------------------------
    // Decks

    /** `setLlmApiKey`: records the key and persists the metadata. */
    method SetLlmApiKey(apiKey: string)
      modifies this
      ensures metadata == old(metadata).(llmApiKey := Some(apiKey)) && savedMetadata == metadata
      ensures files == old(files)
    {
      metadata := metadata.(llmApiKey := Some(apiKey));
      PersistMetadata();
    }

    /** `hasDeck`: membership in the registry only. */
    predicate HasDeck(name: string)
      reads this
      ensures HasDeck(name) <==> exists i :: 0 <= i < |metadata.decks| && metadata.decks[i] == name
      ensures !HasDeck(name) ==> GetDeck(name) == Err(DeckNotFound(name))
    {
      name in metadata.decks
    }

    /** `getDeck`: the deck of a registered name whose file exists. */
    function GetDeck(name: string): (r: Result<Deck>)
      reads this
      ensures r.Ok? <==> name in metadata.decks && name in files
      ensures r.Ok? ==> r.value == files[name]
      ensures r.Err? ==> r.error == DeckNotFound(name)
    {
      if name !in metadata.decks then Err(DeckNotFound(name)) else LoadDeck(name)
    }

    /** `listDecks`: every registered deck, loaded; the first missing file aborts the listing. */
    method ListDecks() returns (r: Result<map<string, Deck>>)
      ensures r.Ok? <==> forall n :: n in metadata.decks ==> n in files
      ensures r.Ok? ==> r.value.Keys == set n | n in metadata.decks
      ensures r.Ok? ==> forall n :: n in r.value ==> r.value[n] == files[n]
      ensures r.Err? ==> exists i :: 0 <= i < |metadata.decks| && metadata.decks[i] !in files
                                    && r.error == DeckNotFound(metadata.decks[i])
                                    && forall j :: 0 <= j < i ==> metadata.decks[j] in files
    {
      var decks: map<string, Deck> := map[];
      for i := 0 to |metadata.decks|
        invariant decks.Keys == set n | n in metadata.decks[..i]
        invariant forall n :: n in metadata.decks[..i] ==> n in files
        invariant forall n :: n in decks ==> decks[n] == files[n]
      {
        var name := metadata.decks[i];
        var loaded := LoadDeck(name);
        if loaded.Err? {
          assert forall j :: 0 <= j < i ==> metadata.decks[j] in metadata.decks[..i];
          return Err(loaded.error);
        }
        decks := decks[name := loaded.value];
        assert metadata.decks[..i + 1] == metadata.decks[..i] + [name];
      }
      assert metadata.decks[..|metadata.decks|] == metadata.decks;
      r := Ok(decks);
    }

    /**
     * `mergeDecks`: copies every source word missing from the target into the target,
     * deletes the source file when asked to, and unregisters the source in every case.
     */
    method MergeDecks(target: string, source: string, deleteSource: bool) returns (r: Outcome)
      modifies this
      ensures r == if target !in old(metadata.decks) then Fail(TargetNotFound(target))
                   else if source !in old(metadata.decks) then Fail(SourceNotFound(source))
                   else if target !in old(files) then Fail(DeckNotFound(target))
                   else if source !in old(files) then Fail(DeckNotFound(source))
                   else Pass
      ensures r.Fail? ==> files == old(files) && metadata == old(metadata) && savedMetadata == old(savedMetadata)
      ensures r.Pass? ==>
        var merged := old(files)[target].(words := MergeWords(old(files)[target].words, old(files)[source].words));
        && files == (if deleteSource then old(files)[target := merged] - {source} else old(files)[target := merged])
        && metadata == old(metadata).(decks := Without(old(metadata.decks), source))
        && savedMetadata == metadata
      ensures old(Consistent()) ==> Consistent()
      ensures old(Distinct(metadata.decks)) ==> Distinct(metadata.decks)
    {
      if target !in metadata.decks {
        return Fail(TargetNotFound(target));
      }
      if source !in metadata.decks {
        return Fail(SourceNotFound(source));
      }
      var loadedTarget := LoadDeck(target);
      if loadedTarget.Err? {
        return Fail(loadedTarget.error);
      }
      var loadedSource := LoadDeck(source);
      if loadedSource.Err? {
        return Fail(loadedSource.error);
      }
      var targetDeck, sourceDeck := loadedTarget.value, loadedSource.value;

      var words := CopyMissingWords(targetDeck.words, sourceDeck.words);
      SaveDeck(target, targetDeck.(words := words));

      if deleteSource {
        var deleted := DeleteDeckFile(source);
        assert deleted.Pass?;
      }

      if Distinct(metadata.decks) { WithoutDistinct(metadata.decks, source); }
      metadata := metadata.(decks := Without(metadata.decks, source));
      PersistMetadata();
      r := Pass;
    }

    /** The tail of `importDeck`: the deck file is written and the name registered (once more). */
    method SaveAndRegister(name: string, deck: Deck)
      modifies this
      ensures files == old(files)[name := deck]
      ensures metadata == old(metadata).(decks := old(metadata.decks) + [name]) && savedMetadata == metadata
      ensures Occurrences(metadata.decks, name) == Occurrences(old(metadata.decks), name) + 1
      ensures old(Consistent()) ==> Consistent()
      ensures name !in old(metadata.decks) && old(Distinct(metadata.decks)) ==> Distinct(metadata.decks)
    {
      if name !in metadata.decks && Distinct(metadata.decks) {
        AppendDistinct(metadata.decks, name);
      }
      SaveDeck(name, deck);
      OccurrencesAppend(metadata.decks, name, name);
      metadata := metadata.(decks := metadata.decks + [name]);
      PersistMetadata();
    }

    /** Writing `b` and then `a`, then removing `b`, is writing `a` and removing `b`. */
    static lemma StagedThenRemoved(m: map<string, Deck>, b: string, a: string, x: Deck, y: Deck)
      requires a != b
      ensures m[b := x][a := y] - {b} == m[a := y] - {b}
    {
    }

    /**
     * The `merge` branch of `importDeck` on a registered name: the deck is staged under
     * `<name>-temp` (never registered), merged into the registered deck with the staged
     * file deleted, and on success the name is registered once more.
     */
    method ImportByMerge(name: string, deck: Deck) returns (r: Outcome)
      requires name in metadata.decks
      modifies this
      ensures name + TempSuffix !in old(metadata.decks) ==>
        && r == Fail(SourceNotFound(name + TempSuffix))
        && files == old(files)[name + TempSuffix := deck]
        && metadata == old(metadata) && savedMetadata == old(savedMetadata)
      ensures name + TempSuffix in old(metadata.decks) ==>
        && r == (if name in old(files) then Pass else Fail(DeckNotFound(name)))
        && (r.Pass? ==>
              && files == old(files)[name := old(files)[name].(words := MergeWords(old(files)[name].words, deck.words))]
                         - {name + TempSuffix}
              && metadata == old(metadata).(decks := Without(old(metadata.decks), name + TempSuffix) + [name])
              && savedMetadata == metadata)
        && (r.Fail? ==>
              && files == old(files)[name + TempSuffix := deck]
              && metadata == old(metadata) && savedMetadata == old(savedMetadata))
      ensures old(Consistent()) ==> Consistent()
    {
      var temp := name + TempSuffix;
      assert temp != name by { assert |temp| == |name| + 5; }
      ghost var before := files;
      SaveDeck(temp, deck);
      r := MergeDecks(name, temp, true);
      if r.Fail? {
        return r;
      }
      assert before[temp := deck][name] == before[name];
      StagedThenRemoved(before, temp, name, deck,
        before[name].(words := MergeWords(before[name].words, deck.words)));
      metadata := metadata.(decks := metadata.decks + [name]);
      PersistMetadata();
      r := Pass;
    }

    /**
     * `importDeck`: a new name is saved and registered. On a registered name, both flags
     * together fail; `replace` deletes and rewrites the file and registers the name
     * once more; without a flag the import fails; `merge` stages the deck under
     * `<name>-temp` without registering it and merges from there.
     */
    method ImportDeck(name: string, deck: Deck, merge: bool, replace: bool) returns (r: Outcome)
      modifies this
      // A new name: saved and registered, whatever the flags.
      ensures name !in old(metadata.decks) ==>
        && r == Pass
        && files == old(files)[name := deck]
        && metadata == old(metadata).(decks := old(metadata.decks) + [name])
        && savedMetadata == metadata
      ensures name in old(metadata.decks) && merge && replace ==>
        r == Fail(MergeAndReplace(name)) && Untouched()
      ensures name in old(metadata.decks) && !merge && !replace ==>
        r == Fail(MergeOrReplaceNeeded(name)) && Untouched()
      // Replace: the old file goes, the new deck is written, and the name is registered again.
      ensures name in old(metadata.decks) && replace && !merge ==>
        && r == (if name in old(files) then Pass else Fail(FileMissing(name)))
        && (r.Pass? ==>
              && files == old(files)[name := deck]
              && metadata == old(metadata).(decks := old(metadata.decks) + [name])
              && savedMetadata == metadata
              && Occurrences(metadata.decks, name) == Occurrences(old(metadata.decks), name) + 1 >= 2)
        && (r.Fail? ==> Untouched())
      // Merge: the staged deck is never registered, so the merge finds no source deck
      // unless a deck called `<name>-temp` happens to be registered already.
      ensures name in old(metadata.decks) && merge && !replace && name + TempSuffix !in old(metadata.decks) ==>
        && r == Fail(SourceNotFound(name + TempSuffix))
        && files == old(files)[name + TempSuffix := deck]
        && metadata == old(metadata) && savedMetadata == old(savedMetadata)
      ensures name in old(metadata.decks) && merge && !replace && name + TempSuffix in old(metadata.decks) ==>
        && r == (if name in old(files) then Pass else Fail(DeckNotFound(name)))
        && (r.Pass? ==>
              && files == old(files)[name := old(files)[name].(words := MergeWords(old(files)[name].words, deck.words))]
                         - {name + TempSuffix}
              && metadata == old(metadata).(decks := Without(old(metadata.decks), name + TempSuffix) + [name])
              && savedMetadata == metadata)
        && (r.Fail? ==>
              && files == old(files)[name + TempSuffix := deck]
              && metadata == old(metadata) && savedMetadata == old(savedMetadata))
      ensures old(Consistent()) ==> Consistent()
      ensures name !in old(metadata.decks) && old(Distinct(metadata.decks)) ==> Distinct(metadata.decks)
    {
      if name in metadata.decks {
        if merge && replace {
          return Fail(MergeAndReplace(name));
        }
        if merge {
          r := ImportByMerge(name, deck);
          return;
        }
        if !replace {
          return Fail(MergeOrReplaceNeeded(name));
        }
        r := DeleteDeckFile(name);
        if r.Fail? {
          return r;
        }
      }
      SaveAndRegister(name, deck);
      r := Pass;
    }

    /**
     * `cloneDeck`: a new registered deck with the source's words, its phrases (an empty
     * map when the source has none) and its description.
     */
    method CloneDeck(target: string, source: string) returns (r: Outcome)
      modifies this
      ensures r == if target in old(metadata.decks) then Fail(DeckExists(target))
                   else if source !in old(metadata.decks) then Fail(SourceNotFound(source))
                   else if source !in old(files) then Fail(DeckNotFound(source))
                   else Pass
      ensures r.Fail? ==> Untouched()
      ensures r.Pass? ==>
        var original := old(files)[source];
        && files == old(files)[target := Deck(original.words,
                                              Some(if original.phrases.Some? then original.phrases.value else map[]),
                                              original.description)]
        && metadata == old(metadata).(decks := old(metadata.decks) + [target])
        && savedMetadata == metadata
      ensures old(Consistent()) ==> Consistent()
      ensures old(Distinct(metadata.decks)) ==> Distinct(metadata.decks)
    {
      if HasDeck(target) {
        return Fail(DeckExists(target));
      }
      if source !in metadata.decks {
        return Fail(SourceNotFound(source));
      }
      var loaded := LoadDeck(source);
      if loaded.Err? {
        return Fail(loaded.error);
      }
      var original := loaded.value;
      var cloned := Deck(original.words,
                         Some(if original.phrases.Some? then original.phrases.value else map[]),
                         original.description);
      SaveDeck(target, cloned);
      if Distinct(metadata.decks) { AppendDistinct(metadata.decks, target); }
      metadata := metadata.(decks := metadata.decks + [target]);
      PersistMetadata();
      r := Pass;
    }

    /** `addDeck`: registers a new, empty deck with the given description or "". */
    method AddDeck(name: string, description: Option<string>) returns (r: Outcome)
      modifies this
      ensures r == if name in old(metadata.decks) then Fail(DeckExists(name)) else Pass
      ensures r.Fail? ==> Untouched()
      ensures r.Pass? ==>
        && files == old(files)[name := Deck(map[], None, Some(if Truthy(description) then description.value else ""))]
        && metadata == old(metadata).(decks := old(metadata.decks) + [name])
        && savedMetadata == metadata
      ensures old(Consistent()) ==> Consistent()
      ensures old(Distinct(metadata.decks)) ==> Distinct(metadata.decks)
    {
      if HasDeck(name) {
        return Fail(DeckExists(name));
      }
      var deck := Deck(map[], None, Some(if Truthy(description) then description.value else ""));
      if Distinct(metadata.decks) { AppendDistinct(metadata.decks, name); }
      metadata := metadata.(decks := metadata.decks + [name]);
      SaveDeck(name, deck);
      PersistMetadata();
      r := Pass;
    }

    /**
     * `removeDeck`: `default` is refused before anything else, then unregistered names;
     * otherwise the name leaves the registry and its file is deleted. A missing file
     * fails after the in-memory registry changed and before it is persisted.
     */
    method RemoveDeck(name: string) returns (r: Outcome)
      modifies this
      ensures r == if name == "default" then Fail(DefaultProtected)
                   else if name !in old(metadata.decks) then Fail(DeckNotFound(name))
                   else if name !in old(files) then Fail(FileMissing(name))
                   else Pass
      ensures name == "default" || name !in old(metadata.decks) ==> Untouched()
      ensures r.Pass? || r == Fail(FileMissing(name)) ==>
        && files == (if r.Pass? then old(files) - {name} else old(files))
        && metadata == old(metadata).(decks := Without(old(metadata.decks), name))
        && savedMetadata == (if r.Pass? then metadata else old(savedMetadata))
      ensures old(Consistent()) ==> Consistent()
      ensures old(Distinct(metadata.decks)) ==> Distinct(metadata.decks)
    {
      if name == "default" {
        return Fail(DefaultProtected);
      }
      if !HasDeck(name) {
        return Fail(DeckNotFound(name));
      }
      if Distinct(metadata.decks) { WithoutDistinct(metadata.decks, name); }
      metadata := metadata.(decks := Without(metadata.decks, name));
      r := DeleteDeckFile(name);
      if r.Fail? {
        return r;
      }
      PersistMetadata();
    }

    // -------------------------------------------------------------------------
    // Words (these consult the deck file only, not the registry)

    /** `getDeckWord`: the record of a word of a deck file. */
    function GetDeckWord(name: string, word: string): (r: Result<WordData>)
      reads this
      ensures r.Ok? <==> name in files && word in files[name].words
      ensures r.Ok? ==> r.value == files[name].words[word]
      ensures r.Err? ==> r.error == if name in files then WordNotFound(name, word) else DeckNotFound(name)
    {
      match LoadDeck(name)
      case Err(e) => Err(e)
      case Ok(deck) => if word in deck.words then Ok(deck.words[word]) else Err(WordNotFound(name, word))
    }

    /** `setWordCommenct`: replaces the comment of an existing word, and nothing else. */
    method SetWordComment(name: string, word: string, comment: string) returns (r: Outcome)
      modifies this
      ensures r == if name !in old(files) then Fail(DeckNotFound(name))
                   else if word !in old(files)[name].words then Fail(WordNotFound(name, word))
                   else Pass
      ensures r.Fail? ==> Untouched()
      ensures r.Pass? ==>
        var deck := old(files)[name];
        files == old(files)[name := deck.(words := deck.words[word := deck.words[word].(comment := comment)])]
      ensures metadata == old(metadata) && savedMetadata == old(savedMetadata)
      ensures old(Consistent()) ==> Consistent()
    {
      var loaded := LoadDeck(name);
      if loaded.Err? {
        return Fail(loaded.error);
      }
      var deck := loaded.value;
      if word !in deck.words {
        return Fail(WordNotFound(name, word));
      }
      deck := deck.(words := deck.words[word := deck.words[word].(comment := comment)]);
      SaveDeck(name, deck);
      r := Pass;
    }

    /**
     * `addDeckWord`: refuses a word already in the deck before the generator is
     * consulted, then stores the generated record completed by `NewWord`.
     */
    method AddDeckWord(name: string, word: string, comment: Option<string>, level: Option<int>,
                       generated: Result<GeneratedWord>, now: string) returns (r: Result<WordData>)
      modifies this
      ensures r.Ok? <==> name in old(files) && word !in old(files)[name].words && generated.Ok?
      ensures r.Err? ==> Untouched()
      ensures r.Err? ==> r.error == if name !in old(files) then DeckNotFound(name)
                                   else if word in old(files)[name].words then WordExists(name, word)
                                   else generated.error
      ensures r.Ok? ==>
        && r.value == NewWord(generated.value, comment, level, now)
        && files == old(files)[name := old(files)[name].(words := old(files)[name].words[word := r.value])]
      ensures metadata == old(metadata) && savedMetadata == old(savedMetadata)
      ensures old(Consistent()) ==> Consistent()
    {
      var loaded := LoadDeck(name);
      if loaded.Err? {
        return Err(loaded.error);
      }
      var deck := loaded.value;
      if word in deck.words {
        return Err(WordExists(name, word));
      }
      if generated.Err? {
        return Err(generated.error);
      }
      var data := NewWord(generated.value, comment, level, now);
      deck := deck.(words := deck.words[word := data]);
      SaveDeck(name, deck);
      r := Ok(data);
    }

    /** `removeDeckWord`: deletes an existing word, and nothing else. */
    method RemoveDeckWord(name: string, word: string) returns (r: Outcome)
      modifies this
      ensures r == if name !in old(files) then Fail(DeckNotFound(name))
                   else if word !in old(files)[name].words then Fail(WordNotFound(name, word))
                   else Pass
      ensures r.Fail? ==> Untouched()
      ensures r.Pass? ==> files == old(files)[name := old(files)[name].(words := old(files)[name].words - {word})]
      ensures metadata == old(metadata) && savedMetadata == old(savedMetadata)
      ensures old(Consistent()) ==> Consistent()
    {
      var loaded := LoadDeck(name);
      if loaded.Err? {
        return Fail(loaded.error);
      }
      var deck := loaded.value;
      if word !in deck.words {
        return Fail(WordNotFound(name, word));
      }
      deck := deck.(words := deck.words - {word});
      SaveDeck(name, deck);
      r := Pass;
    }

    /** `updateDeckWord`: replaces the record of an existing word, and nothing else. */
    method UpdateDeckWord(name: string, word: string, data: WordData) returns (r: Result<WordData>)
      modifies this
      ensures r.Ok? <==> name in old(files) && word in old(files)[name].words
      ensures r.Ok? ==> r.value == data
      ensures r.Err? ==> r.error == if name in old(files) then WordNotFound(name, word) else DeckNotFound(name)
      ensures r.Err? ==> Untouched()
      ensures r.Ok? ==> files == old(files)[name := old(files)[name].(words := old(files)[name].words[word := data])]
      ensures metadata == old(metadata) && savedMetadata == old(savedMetadata)
      ensures old(Consistent()) ==> Consistent()
    {
      var loaded := LoadDeck(name);
      if loaded.Err? {
        return Err(loaded.error);
      }
      var deck := loaded.value;
      if word !in deck.words {
        return Err(WordNotFound(name, word));
      }
      deck := deck.(words := deck.words[word := data]);
      SaveDeck(name, deck);
      r := Ok(data);
    }

    /** `deckHasWord`: whether the deck file holds the word. */
    function DeckHasWord(name: string, word: string): (r: Result<bool>)
      reads this
      ensures r.Ok? <==> name in files
      ensures r.Ok? ==> (r.value <==> GetDeckWord(name, word).Ok?)
      ensures r.Err? ==> r.error == DeckNotFound(name)
    {
      match LoadDeck(name)
      case Err(e) => Err(e)
      case Ok(deck) => Ok(word in deck.words)
    }

    /** `listDeckWords`: the word map of the deck file. */
    function ListDeckWords(name: string): (r: Result<map<string, WordData>>)
      reads this
      ensures r.Ok? <==> name in files
      ensures r.Err? ==> r.error == DeckNotFound(name)
      ensures r.Ok? ==> forall w :: w in r.value <==> GetDeckWord(name, w).Ok?
      ensures r.Ok? ==> forall w :: w in r.value ==> r.value[w] == GetDeckWord(name, w).value
    {
      match LoadDeck(name)
      case Err(e) => Err(e)
      case Ok(deck) => Ok(deck.words)
    }

    /**
     * `generateDeckPhrase`: needs the deck file and a non-empty word list before the
     * generator is consulted; a blank generated phrase is an error. The phrase is
     * returned, not stored.
     */
    function GenerateDeckPhrase(name: string, words: seq<string>, generated: Result<GeneratedPhrase>): (r: Result<(string, Phrase)>)
      reads this
      ensures r.Ok? <==> name in files && words != [] && generated.Ok? && Text.Trim(generated.value.phrase) != ""
      ensures r.Err? ==> r.error == if name !in files then DeckNotFound(name)
                                   else if words == [] then NoWordsGiven
                                   else if generated.Err? then generated.error
                                   else NoMeaningfulPhrase
      ensures r.Ok? ==>
        var g := generated.value;
        r.value == (g.phrase, Phrase(g.pinyin, g.translation, Some(if Truthy(g.note) then g.note.value else "")))
    {
      match LoadDeck(name)
      case Err(e) => Err(e)
      case Ok(_) =>
        if words == [] then Err(NoWordsGiven)
        else match generated
          case Err(e) => Err(e)
          case Ok(g) =>
            if Text.Trim(g.phrase) == "" then Err(NoMeaningfulPhrase)
            else Ok((g.phrase, Phrase(g.pinyin, g.translation, Some(if Truthy(g.note) then g.note.value else ""))))
    }
  }
}
