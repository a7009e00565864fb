/**
 * The level commands of `src/word.ts` (`list`, `set-level`, `level-up`, `level-down`,
 * `unset-level`) and `reset`, over the file-backed deck store. A word's level is -1
 * when unset, otherwise a number up to 10.
 */
module WordCommands {
  import opened Outcomes
  import opened Decks
  import Text
  import DeckStore

  // ---------------------------------------------------------------------------
  // Level arithmetic

  /** `level-up`: one more, capped at 10. */
  function LevelUp(level: int): (r: int)
    ensures r <= 10
    ensures level < 10 ==> r == level + 1
    ensures level >= 10 ==> r == 10
  {
    if level + 1 < 10 then level + 1 else 10
  }

  /** `level-down`: one less, floored at 0 (so an unset level becomes 0). */
  function LevelDown(level: int): (r: int)
    ensures r >= 0
    ensures level > 0 ==> r == level - 1
    ensures level <= 0 ==> r == 0
  {
    if level - 1 > 0 then level - 1 else 0
  }

  /** The level an unset word is given. */
  const Unset: int := -1

  /** Both steps turn a valid level into a set one; up never lowers it, and down lowers every set level. */
  lemma LevelStepsStayValid(level: int)
    requires -1 <= level <= 10
    ensures 0 <= LevelUp(level) <= 10 && 0 <= LevelDown(level) <= 10
    ensures LevelUp(level) >= level
    ensures level >= 0 ==> LevelDown(level) <= level
  {
  }

  /** Down undoes up below the cap, and up undoes down above the floor. */
  lemma LevelStepsInverse(level: int)
    ensures 0 <= level < 10 ==> LevelDown(LevelUp(level)) == level
    ensures 0 < level <= 10 ==> LevelUp(LevelDown(level)) == level
    ensures LevelUp(LevelUp(10)) == 10 && LevelDown(LevelDown(0)) == 0
  {
  }

  /** An unset word goes to 0 whichever way it is stepped. */
  lemma UnsetSteps()
    ensures LevelUp(Unset) == 0 && LevelDown(Unset) == 0
  {
  }

  /** The requested change of level. */
  datatype LevelChange = Up | Down | Clear | SetTo(text: string)

  /** The new level, or the error `parseWordLevel` raises for `set-level`. */
  function NextLevel(change: LevelChange, level: int): (r: Result<int>)
    ensures r.Err? <==> change.SetTo? && Text.ParseWordLevel(change.text).Err?
    ensures r.Err? ==> r.error == InvalidLevel
    ensures change.SetTo? && r.Ok? ==> -1 <= r.value <= 10
    ensures -1 <= level <= 10 && r.Ok? ==> -1 <= r.value <= 10
    // the level each command writes
    ensures change == Up ==> r == Ok(LevelUp(level))
    ensures change == Down ==> r == Ok(LevelDown(level))
    ensures change == Clear ==> r == Ok(-1)
    ensures change.SetTo? ==> r == Text.ParseWordLevel(change.text)
  {
    match change
    case Up => Ok(LevelUp(level))
    case Down => Ok(LevelDown(level))
    case Clear => Ok(Unset)
    case SetTo(text) => Text.ParseWordLevel(text)
  }

  /**
   * `set-level`, `level-up`, `level-down` and `unset-level`: read the word, assign its
   * level, write the word back. A missing deck or word fails before the level is parsed.
   */
  method ChangeLevel(store: DeckStore.Store, deck: string, word: string, change: LevelChange)
    returns (r: Result<WordData>)
    modifies store
    ensures var found := old(store.GetDeckWord(deck, word));
      r.Ok? <==> found.Ok? && NextLevel(change, found.value.level).Ok?
    ensures var found := old(store.GetDeckWord(deck, word));
      r.Err? ==> r.error == if found.Err? then found.error else InvalidLevel
    ensures r.Err? ==> store.Untouched()
    ensures r.Ok? ==>
      var data := old(store.files[deck].words[word]);
      && r.value == data.(level := NextLevel(change, data.level).value)
      && store.files == old(store.files)[deck := old(store.files[deck]).(words := old(store.files[deck].words)[word := r.value])]
    ensures store.metadata == old(store.metadata) && store.savedMetadata == old(store.savedMetadata)
  {
    var found := store.GetDeckWord(deck, word);
    if found.Err? {
      return Err(found.error);
    }
    var level := NextLevel(change, found.value.level);
    if level.Err? {
      return Err(level.error);
    }
    var data := found.value.(level := level.value);
    r := store.UpdateDeckWord(deck, word, data);
  }

  // ---------------------------------------------------------------------------
  // Listing

  /**
   * The guard of the `--level` filter: `parseInt` without a radix (so a `0x` prefix
   * reads base 16) gives a number in [-1, 10].
   */
  predicate LevelGuard(text: string) {
    Text.ParseIntAuto(text).Some? && -1 <= Text.ParseIntAuto(text).value <= 10
  }

  /**
   * The `--level` filter of `list`: when the guard holds, only the words whose level is
   * `parseWordLevel` of the option (base 10) are kept; otherwise (absent, not a number,
   * out of range) every word is listed.
   */
  function LevelFilter(words: map<string, WordData>, level: Option<string>): (r: map<string, WordData>)
    ensures r.Keys <= words.Keys
    ensures forall w :: w in r ==> r[w] == words[w]
    ensures level.None? || !LevelGuard(level.value) ==> r == words
    ensures level.Some? && LevelGuard(level.value) ==>
      && Text.ParseWordLevel(level.value).Ok?
      && forall w :: w in r <==> w in words && words[w].level == Text.ParseWordLevel(level.value).value
  {
    if level.Some? && LevelGuard(level.value) then
      Text.ParseIntAutoDecimal(level.value);
      var parsed := Text.ParseWordLevel(level.value).value;
      map w | w in words && words[w].level == parsed :: words[w]
    else words
  }

  /** Filtering by a level written out in decimal keeps exactly the words of that level. */
  lemma FilterByShownLevel(words: map<string, WordData>, n: int)
    requires -1 <= n <= 10
    ensures forall w :: w in LevelFilter(words, Some(Text.Show(n))) <==> w in words && words[w].level == n
  {
    var text := Text.Show(n);
    Text.ParseIntShow(n);
    Text.ShowNotHex(n);
    Text.ParseIntAutoDecimal(text);
    Text.ParseWordLevelShow(n);
    FilterByGuardedLevel(words, text, n, n);
  }

  /**
   * Once the guard reads the option as some `g` in [-1, 10] and base 10 reads it as level `n`,
   * exactly the words of level `n` stay, whatever `g` was.
   */
  lemma FilterByGuardedLevel(words: map<string, WordData>, text: string, g: int, n: int)
    requires Text.ParseIntAuto(text) == Some(g) && -1 <= g <= 10 && Text.ParseWordLevel(text) == Ok(n)
    ensures forall w :: w in LevelFilter(words, Some(text)) <==> w in words && words[w].level == n
  {
    assert LevelGuard(text);
  }

  /** `--level 0x10`: the guard reads sixteen, so every word is listed. */
  lemma FilterHexOutOfRange(words: map<string, WordData>)
    ensures LevelFilter(words, Some("0x10")) == words
  {
    Text.ParseIntAutoHex();
  }

  /** `--level 0x5`: the guard reads five, but the filter keeps the level read in base 10, which is 0. */
  lemma FilterHexInRange(words: map<string, WordData>)
    ensures forall w :: w in LevelFilter(words, Some("0x5")) <==> w in words && words[w].level == 0
  {
    Text.ParseIntAutoHexFive();
    FilterByGuardedLevel(words, "0x5", 5, 0);
  }

  /** `list`: the words of the deck, filtered by level; a missing deck file is an error. */
  function ListCommand(store: DeckStore.Store, deck: string, level: Option<string>): (r: Result<map<string, WordData>>)
    reads store
    ensures r.Ok? <==> deck in store.files
    ensures r.Err? ==> r.error == DeckNotFound(deck)
    ensures r.Ok? ==> r.value == LevelFilter(store.files[deck].words, level)
  {
    match store.ListDeckWords(deck)
    case Err(e) => Err(e)
    case Ok(words) => Ok(LevelFilter(words, level))
  }

  // ---------------------------------------------------------------------------
  // Reset

  /** `reset`: removes every word of the deck, one at a time; the deck itself stays. */
  method ResetCommand(store: DeckStore.Store, deck: string) returns (r: Outcome)
    modifies store
    ensures r == if deck in old(store.files) then Pass else Fail(DeckNotFound(deck))
    ensures r.Fail? ==> store.Untouched()
    ensures r.Pass? ==> store.files == old(store.files)[deck := old(store.files[deck]).(words := map[])]
    ensures store.metadata == old(store.metadata) && store.savedMetadata == old(store.savedMetadata)
  {
    var listed := store.ListDeckWords(deck);
    if listed.Err? {
      return Fail(listed.error);
    }
    var remaining := listed.value.Keys;
    assert store.files[deck].words == map w | w in remaining :: store.files[deck].words[w];
    assert store.files == store.files[deck := store.files[deck].(words := store.files[deck].words)];
    while remaining != {}
      invariant deck in store.files
      invariant remaining <= old(store.files[deck].words).Keys
      invariant store.files == old(store.files)[deck := old(store.files[deck]).(words := map w | w in remaining :: old(store.files[deck].words)[w])]
      invariant store.metadata == old(store.metadata) && store.savedMetadata == old(store.savedMetadata)
      decreases remaining
    {
      var w :| w in remaining;
      var removed := store.RemoveDeckWord(deck, w);
      remaining := remaining - {w};
      assert store.files[deck].words == map x | x in remaining :: old(store.files[deck].words)[x];
    }
    assert store.files[deck].words == map[];
    r := Pass;
  }
}
