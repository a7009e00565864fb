/**
 * The records of the deck store: word records, phrases, decks and the store metadata,
 * the initial metadata and default deck, and the two list/map operations the store
 * builds on (unregistering a name and merging word maps).
 */
module Decks {
  import opened Outcomes

  /** A vocabulary entry; the headword itself is its key in the deck's word map. */
  datatype WordData = WordData(
    sentence: string,
    tone: string,
    note: string,
    sentenceTranslation: string,
    translations: seq<string>,
    comment: string,
    pinyin: string,
    sentencePinyin: string,
    sentenceDefinition: string,
    level: int,
    createdAt: string)

  /** A generated phrase; the phrase text is its key in the deck's phrase map. */
  datatype Phrase = Phrase(pinyin: string, translation: string, note: Option<string>)

  /** One deck file; `phrases` and `description` may be absent from it. */
  datatype Deck = Deck(
    words: map<string, WordData>,
    phrases: Option<map<string, Phrase>>,
    description: Option<string>)

  /** The metadata file: the API key (optional) and the ordered registry of deck names. */
  datatype Metadata = Metadata(llmApiKey: Option<string>, decks: seq<string>)

  /** The metadata written on the first run: only `default` is registered. */
  const BaseMetadata: Metadata := Metadata(None, ["default"])

  /** The deck file written on the first run for `default`. */
  const DefaultDeck: Deck := Deck(map[], Some(map[]), Some("Default Deck"))

  // ---------------------------------------------------------------------------
  // The registry

  /** How many times `name` is registered. */
  function Occurrences(names: seq<string>, name: string): (c: nat)
    ensures c > 0 <==> name in names
  {
    if names == [] then 0
    else (if names[0] == name then 1 else 0) + Occurrences(names[1..], name)
  }

  lemma {:induction false} OccurrencesAppend(names: seq<string>, extra: string, name: string)
    ensures Occurrences(names + [extra], name) == Occurrences(names, name) + (if extra == name then 1 else 0)
  {
    if names == [] {
      assert [] + [extra] == [extra];
    } else {
      assert (names + [extra])[1..] == names[1..] + [extra];
      OccurrencesAppend(names[1..], extra, name);
    }
  }

  /** No entry occurs twice (no name is registered twice). */
  ghost predicate Distinct<T>(names: seq<T>) {
    forall i, j :: 0 <= i < j < |names| ==> names[i] != names[j]
  }

  /**
   * `names.filter(d => d !== name)`: every occurrence of `name` goes, every other entry
   * stays, in its order.
   */
  function Without(names: seq<string>, name: string): (r: seq<string>)
    ensures name !in r
    ensures forall n :: n != name ==> (n in r <==> n in names)
    ensures forall n :: n != name ==> Occurrences(r, n) == Occurrences(names, n)
    ensures name !in names ==> r == names
  {
    if names == [] then []
    else if names[0] == name then Without(names[1..], name)
    else
      var rest := Without(names[1..], name);
      assert names == [names[0]] + names[1..];
      assert ([names[0]] + rest)[1..] == rest;
      [names[0]] + rest
  }

  /** The filter keeps order: filtering a concatenation filters each part in place. */
  lemma {:induction false} WithoutAppend(a: seq<string>, b: seq<string>, name: string)
    ensures Without(a + b, name) == Without(a, name) + Without(b, name)
  {
    if a != [] {
      assert (a + b)[0] == a[0] && (a + b)[1..] == a[1..] + b;
      WithoutAppend(a[1..], b, name);
      if a[0] != name {
        var x, y := Without(a[1..], name), Without(b, name);
        assert [a[0]] + (x + y) == ([a[0]] + x) + y;
      }
    } else {
      assert a + b == b;
    }
  }

  /** A single entry is dropped when it is the name and kept otherwise. */
  lemma WithoutSingle(x: string, name: string)
    ensures Without([x], name) == if x == name then [] else [x]
  {
    assert [x][1..] == [];
  }

  /** Unregistering keeps a registry free of duplicates. */
  lemma {:induction false} WithoutDistinct(names: seq<string>, name: string)
    requires Distinct(names)
    ensures Distinct(Without(names, name))
  {
    if names != [] {
      var tail := names[1..];
      assert Distinct(tail) by {
        forall i, j | 0 <= i < j < |tail| ensures tail[i] != tail[j] {
          assert tail[i] == names[i + 1] && tail[j] == names[j + 1];
        }
      }
      WithoutDistinct(tail, name);
      if names[0] != name {
        var rest := Without(tail, name);
        assert names[0] !in tail by {
          forall i | 0 <= i < |tail| ensures tail[i] != names[0] {
            assert tail[i] == names[i + 1];
          }
        }
        assert names[0] !in rest;
        var r := [names[0]] + rest;
        forall i, j | 0 <= i < j < |r| ensures r[i] != r[j] {
          if i == 0 {
            assert r[j] == rest[j - 1];
          } else {
            assert r[i] == rest[i - 1] && r[j] == rest[j - 1];
          }
        }
      }
    }
  }

  /** Appending an absent entry (an unregistered name) keeps a list free of duplicates. */
  lemma AppendDistinct<T>(names: seq<T>, name: T)
    requires Distinct(names) && name !in names
    ensures Distinct(names + [name])
  {
    var r := names + [name];
    forall i, j | 0 <= i < j < |r| ensures r[i] != r[j] {
      assert r[i] == names[i];
      if j < |names| {
        assert r[j] == names[j];
      }
    }
  }

  // ---------------------------------------------------------------------------
  // Merging word maps

  /**
   * The words after merging `source` into `target`: every source word missing from the
   * target is copied in, and a word present in both keeps the target's record.
   */
  function MergeWords(target: map<string, WordData>, source: map<string, WordData>): (r: map<string, WordData>)
    ensures r.Keys == target.Keys + source.Keys
    ensures forall w :: w in target ==> r[w] == target[w]
    ensures forall w :: w in source && w !in target ==> r[w] == source[w]
  {
    source + target
  }

  /** Merging the same source a second time changes nothing. */
  lemma MergeIdempotent(target: map<string, WordData>, source: map<string, WordData>)
    ensures MergeWords(MergeWords(target, source), source) == MergeWords(target, source)
  {
  }

  /** Merging a deck into itself changes nothing. */
  lemma MergeSelf(words: map<string, WordData>)
    ensures MergeWords(words, words) == words
  {
  }
}
