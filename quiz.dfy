/**
 * The `word test` action (`src/word.ts`): four question categories, each with a pool of
 * words; every round draws a category and a word at random, removes that pair from its
 * pool, grades the typed answer, and records the word as a success or as an error of
 * its category. `Math.random()` is replaced by the caller's `rolls`, the typed answers
 * by `answers`, and the key order of the deck's word map by `order`.
 */
module Quiz {
  import opened Outcomes
  import opened Decks
  import Text
  import Tone
  import DeckStore

  // ---------------------------------------------------------------------------
  // Categories

  datatype Kind = ChinesePinyin | ChineseEnglish | EnglishChinese | EnglishPinyin

  /** The categories in the order the pool object is built. */
  const AllKinds: seq<Kind> := [ChinesePinyin, ChineseEnglish, EnglishChinese, EnglishPinyin]

  lemma AllKindsListed()
    ensures forall k: Kind :: k in AllKinds
  {
    forall k: Kind ensures k in AllKinds {
      match k
      case ChinesePinyin => assert k == AllKinds[0];
      case ChineseEnglish => assert k == AllKinds[1];
      case EnglishChinese => assert k == AllKinds[2];
      case EnglishPinyin => assert k == AllKinds[3];
    }
  }

  function KindName(k: Kind): (s: string)
    ensures s != "mixed"
  {
    match k
    case ChinesePinyin => "chinese-pinyin"
    case ChineseEnglish => "chinese-english"
    case EnglishChinese => "english-chinese"
    case EnglishPinyin => "english-pinyin"
  }

  /** `mixed` draws from every category; any other kind restricts the quiz to one. */
  datatype Mode = Mixed | Single(kind: Kind)

  /** The `--kind` option: `mixed`, one of the four category names, or unknown (`None`). */
  function ParseMode(kind: string): (r: Option<Mode>)
    ensures r == Some(Mixed) <==> kind == "mixed"
    ensures forall k :: r == Some(Single(k)) <==> kind == KindName(k)
    ensures r.None? <==> kind != "mixed" && forall k :: KindName(k) != kind
  {
    if kind == "mixed" then Some(Mixed)
    else if kind == "chinese-pinyin" then Some(Single(ChinesePinyin))
    else if kind == "chinese-english" then Some(Single(ChineseEnglish))
    else if kind == "english-chinese" then Some(Single(EnglishChinese))
    else if kind == "english-pinyin" then Some(Single(EnglishPinyin))
    else None
  }

  // ---------------------------------------------------------------------------
  // Pools

  /** A word can be asked in a category when it has a pinyin, or at least one translation. */
  predicate Eligible(k: Kind, data: WordData)
    ensures !Eligible(k, data) ==> data.pinyin == "" || data.translations == []
    ensures data.pinyin == "" && data.translations == [] ==> !Eligible(k, data)
  {
    match k
    case ChinesePinyin | EnglishPinyin => data.pinyin != ""
    case ChineseEnglish | EnglishChinese => |data.translations| > 0
  }

  /** The two pinyin categories draw from the same words, and so do the two translation categories. */
  lemma EligiblePairs(data: WordData)
    ensures Eligible(ChinesePinyin, data) <==> Eligible(EnglishPinyin, data)
    ensures Eligible(ChineseEnglish, data) <==> Eligible(EnglishChinese, data)
  {
  }

  /** `order` lists every key of `words` exactly once: the order `Object.keys` yields. */
  ghost predicate KeyOrder(order: seq<string>, words: map<string, WordData>) {
    Distinct(order) && forall w :: w in order <==> w in words
  }

  /** The initial pool of a category: the eligible words, in key order. */
  function PoolOf(order: seq<string>, words: map<string, WordData>, k: Kind): (r: seq<string>)
    requires forall w :: w in order ==> w in words
    ensures forall w :: w in r <==> w in order && Eligible(k, words[w])
    ensures Distinct(order) ==> Distinct(r)
  {
    if order == [] then []
    else
      var rest := PoolOf(order[1..], words, k);
      assert forall w :: w in order[1..] ==> w in order;
      if Eligible(k, words[order[0]]) then
        assert Distinct(order) ==> order[0] !in order[1..] by {
          if Distinct(order) {
            forall j | 0 <= j < |order[1..]| ensures order[1..][j] != order[0] {
              assert order[1..][j] == order[j + 1];
            }
          }
        }
        assert Distinct(order) ==> Distinct(order[1..]) by {
          if Distinct(order) {
            forall i, j | 0 <= i < j < |order[1..]| ensures order[1..][i] != order[1..][j] {
              assert order[1..][i] == order[i + 1] && order[1..][j] == order[j + 1];
            }
          }
        }
        var r := [order[0]] + rest;
        assert forall i :: 1 <= i < |r| ==> r[i] == rest[i - 1];
        r
      else
        assert Distinct(order) ==> Distinct(order[1..]) by {
          if Distinct(order) {
            forall i, j | 0 <= i < j < |order[1..]| ensures order[1..][i] != order[1..][j] {
              assert order[1..][i] == order[i + 1] && order[1..][j] == order[j + 1];
            }
          }
        }
        rest
  }

  /** The categories present in the pool object, in its key order. */
  function ModeKinds(mode: Mode): (r: seq<Kind>)
    ensures Distinct(r) && |r| > 0
    ensures mode.Single? ==> r == [mode.kind]
  {
    if mode.Mixed? then AllKinds else [mode.kind]
  }

  /** The pool object before the first round. */
  function InitialPools(order: seq<string>, words: map<string, WordData>, mode: Mode): (r: map<Kind, seq<string>>)
    requires forall w :: w in order ==> w in words
    ensures forall k :: k in r <==> k in ModeKinds(mode)
    ensures forall k :: k in r ==> r[k] == PoolOf(order, words, k)
  {
    map k | k in ModeKinds(mode) :: PoolOf(order, words, k)
  }

  /** The number of questions left: the summed pool sizes. */
  function Size(keys: seq<Kind>, pools: map<Kind, seq<string>>): (r: nat)
    requires forall k :: k in keys ==> k in pools
    ensures forall k :: k in keys ==> |pools[k]| <= r
  {
    if keys == [] then 0 else |pools[keys[0]]| + Size(keys[1..], pools)
  }

  /** Replacing one pool changes the total by the change of that pool's size. */
  lemma {:induction false} SizeUpdate(keys: seq<Kind>, pools: map<Kind, seq<string>>, k: Kind, s: seq<string>)
    requires Distinct(keys) && k in keys
    requires forall x :: x in keys ==> x in pools
    ensures Size(keys, pools[k := s]) == Size(keys, pools) - |pools[k]| + |s|
  {
    var tail := keys[1..];
    assert Distinct(tail) by {
      forall i, j | 0 <= i < j < |tail| ensures tail[i] != tail[j] {
        assert tail[i] == keys[i + 1] && tail[j] == keys[j + 1];
      }
    }
    if keys[0] == k {
      assert k !in tail by {
        forall j | 0 <= j < |tail| ensures tail[j] != k {
          assert tail[j] == keys[j + 1];
        }
      }
      SizeFrame(tail, pools, k, s);
    } else {
      SizeUpdate(tail, pools, k, s);
    }
  }

  /** Pools whose category is not listed do not count. */
  lemma {:induction false} SizeFrame(keys: seq<Kind>, pools: map<Kind, seq<string>>, k: Kind, s: seq<string>)
    requires k !in keys
    requires forall x :: x in keys ==> x in pools
    ensures Size(keys, pools[k := s]) == Size(keys, pools)
  {
    if keys != [] {
      SizeFrame(keys[1..], pools, k, s);
    }
  }

  /** The total over two lists of categories is the sum of their totals. */
  lemma {:induction false} SizeAppend(a: seq<Kind>, b: seq<Kind>, pools: map<Kind, seq<string>>)
    requires forall x :: x in a + b ==> x in pools
    ensures forall x :: x in a ==> x in pools
    ensures forall x :: x in b ==> x in pools
    ensures Size(a + b, pools) == Size(a, pools) + Size(b, pools)
  {
    assert forall x :: x in a ==> x in a + b;
    assert forall x :: x in b ==> x in a + b;
    if a != [] {
      assert (a + b)[1..] == a[1..] + b;
      SizeAppend(a[1..], b, pools);
    } else {
      assert a + b == b;
    }
  }

  /** Deleting an empty category keeps the total. */
  lemma SizeDelete(keys: seq<Kind>, pools: map<Kind, seq<string>>, i: nat)
    requires Distinct(keys) && i < |keys|
    requires forall x :: x in keys ==> x in pools
    requires pools[keys[i]] == []
    ensures forall x :: x in keys[..i] + keys[i + 1..] ==> x in pools - {keys[i]}
    ensures Size(keys[..i] + keys[i + 1..], pools - {keys[i]}) == Size(keys, pools)
  {
    var k := keys[i];
    var pre, post := keys[..i], keys[i + 1..];
    DropAt(keys, i);
    assert keys == pre + ([k] + post);
    SizeAppend(pre, [k] + post, pools);
    assert ([k] + post)[1..] == post;
    SizeAppend(pre, post, pools);
    SizeRestrict(pre + post, pools, k);
  }

  /** Removing an unlisted category from the map keeps the total. */
  lemma {:induction false} SizeRestrict(keys: seq<Kind>, pools: map<Kind, seq<string>>, k: Kind)
    requires k !in keys
    requires forall x :: x in keys ==> x in pools
    ensures Size(keys, pools - {k}) == Size(keys, pools)
  {
    if keys != [] {
      SizeRestrict(keys[1..], pools, k);
    }
  }

  /** Every listed pool is empty exactly when the total is zero. */
  lemma {:induction false} SizeZero(keys: seq<Kind>, pools: map<Kind, seq<string>>)
    requires forall x :: x in keys ==> x in pools
    ensures Size(keys, pools) == 0 <==> forall x :: x in keys ==> pools[x] == []
  {
    if keys != [] {
      SizeZero(keys[1..], pools);
      assert forall x :: x in keys <==> x == keys[0] || x in keys[1..];
    }
  }

  /** `Math.floor(Math.random() * n)` for a roll in [0, 1). */
  function Pick(roll: real, n: nat): (i: nat)
    requires 0.0 <= roll < 1.0
    ensures n == 0 ==> i == 0
    ensures n > 0 ==> i < n
  {
    assert 0.0 <= roll * n as real <= n as real;
    assert n > 0 ==> roll * n as real < n as real;
    (roll * n as real).Floor
  }

  // ---------------------------------------------------------------------------
  // Grading

  /** Whether `answer` is accepted for `word` asked in category `k`. */
  predicate IsCorrect(k: Kind, word: string, data: WordData, answer: string)
    ensures k == EnglishChinese && answer == word ==> IsCorrect(k, word, data, answer)
    ensures k == ChineseEnglish && answer in data.translations ==> IsCorrect(k, word, data, answer)
  {
    match k
    case ChinesePinyin => Tone.Normalize(Text.Trim(answer)) == Text.ToLower(data.pinyin)
    case ChineseEnglish => Text.IsStringIncludedInArray(data.translations, answer)
    case EnglishChinese => Text.CompareStrings(answer, word)
    case EnglishPinyin => Text.CompareStrings(Tone.Normalize(answer), data.pinyin)
  }

  /**
   * Since an answer without any tone shape normalises to "", a Chinese-to-pinyin answer
   * without one is never accepted: a neutral-tone syllable such as "de" cannot be
   * answered correctly.
   */
  lemma UntonedAnswerRejected(word: string, data: WordData, answer: string)
    requires data.pinyin != ""
    requires Tone.NoShape(Text.Trim(answer))
    ensures !IsCorrect(ChinesePinyin, word, data, answer)
  {
    Tone.NormalizeEmptyIff(Text.Trim(answer));
    assert |Text.ToLower(data.pinyin)| > 0;
  }

  /** Typing the Chinese word itself, in any padding, answers the English-to-Chinese question. */
  lemma WordItselfAccepted(word: string, data: WordData, p: string, q: string)
    requires Text.AllSpace(p) && Text.AllSpace(q)
    ensures IsCorrect(EnglishChinese, word, data, p + word + q)
  {
    Text.CompareIgnoresPadding(word, word, p, q);
  }

  /** Any listed translation, in any padding, answers the Chinese-to-English question. */
  lemma TranslationAccepted(word: string, data: WordData, i: nat, p: string, q: string)
    requires i < |data.translations|
    requires Text.AllSpace(p) && Text.AllSpace(q)
    ensures IsCorrect(ChineseEnglish, word, data, p + data.translations[i] + q)
  {
    var t := data.translations[i];
    Text.CompareIgnoresPadding(t, t, p, q);
    Text.CompareIsEquivalence(t, p + t + q, t);
  }

  // ---------------------------------------------------------------------------
  // Tallies

  /** One question: the category and the word. */
  datatype Question = Question(kind: Kind, word: string)

  /** The questions asked, in order, draw on words of the deck. */
  ghost predicate FromDeck(asked: seq<Question>, words: map<string, WordData>) {
    forall j :: 0 <= j < |asked| ==> asked[j].word in words
  }

  /** How the quiz grades the answer typed for question `q`: by the comparison of its category. */
  function Verdict(words: map<string, WordData>): (Question, string) -> bool {
    (q: Question, answer: string) => q.word in words && IsCorrect(q.kind, q.word, words[q.word], answer)
  }

  /**
   * `grades[j]` records the grade `accept` gives `answers[j]`, typed for the question
   * `asked[j]` (built one round at a time).
   */
  ghost predicate Graded(accept: (Question, string) -> bool, asked: seq<Question>, answers: seq<string>, grades: seq<bool>)
    decreases |asked|
  {
    && |grades| == |asked| <= |answers|
    && (asked == [] ||
        var n := |asked| - 1;
        && Graded(accept, asked[..n], answers, grades[..n])
        && grades[n] == accept(asked[n], answers[n]))
  }

  /** Read index by index: every grade is the grade of its own answer. */
  lemma {:induction false} GradedAt(accept: (Question, string) -> bool, asked: seq<Question>, answers: seq<string>, grades: seq<bool>)
    requires Graded(accept, asked, answers, grades)
    ensures |grades| == |asked| <= |answers|
    ensures forall j :: 0 <= j < |asked| ==> grades[j] == accept(asked[j], answers[j])
  {
    if asked != [] {
      var n := |asked| - 1;
      var asked', grades' := asked[..n], grades[..n];
      GradedAt(accept, asked', answers, grades');
      forall j | 0 <= j < |asked| ensures grades[j] == accept(asked[j], answers[j]) {
        if j < n {
          assert asked'[j] == asked[j] && grades'[j] == grades[j];
        }
      }
    }
  }

  /** Grading one more answer extends the record by that answer's grade. */
  lemma GradedStep(accept: (Question, string) -> bool, asked: seq<Question>, answers: seq<string>, grades: seq<bool>,
                   q: Question, correct: bool)
    requires Graded(accept, asked, answers, grades) && |asked| < |answers|
    requires correct == accept(q, answers[|asked|])
    ensures Graded(accept, asked + [q], answers, grades + [correct])
  {
    assert (asked + [q])[..|asked|] == asked && (grades + [correct])[..|asked|] == grades;
  }

  /** The words answered correctly, in the order asked. */
  function Successes(asked: seq<Question>, grades: seq<bool>): (r: seq<string>)
    requires |grades| == |asked|
    ensures |r| <= |asked|
    ensures forall w :: w in r ==> exists j :: 0 <= j < |asked| && grades[j] && asked[j].word == w
  {
    if asked == [] then []
    else
      var n := |asked| - 1;
      var rest := Successes(asked[..n], grades[..n]);
      assert forall j :: 0 <= j < n ==> asked[..n][j] == asked[j] && grades[..n][j] == grades[j];
      rest + (if grades[n] then [asked[n].word] else [])
  }

  /** The words of category `k` answered wrongly, in the order asked. */
  function Failures(asked: seq<Question>, grades: seq<bool>, k: Kind): (r: seq<string>)
    requires |grades| == |asked|
    ensures |r| <= |asked|
    ensures forall w :: w in r ==> exists j :: 0 <= j < |asked| && !grades[j] && asked[j] == Question(k, w)
  {
    if asked == [] then []
    else
      var n := |asked| - 1;
      var rest := Failures(asked[..n], grades[..n], k);
      assert forall j :: 0 <= j < n ==> asked[..n][j] == asked[j] && grades[..n][j] == grades[j];
      rest + (if asked[n].kind == k && !grades[n] then [asked[n].word] else [])
  }

  /** The four error lists, keyed by category. */
  function ErrorLists(asked: seq<Question>, grades: seq<bool>): (r: map<Kind, seq<string>>)
    requires |grades| == |asked|
    ensures forall k :: k in r && r[k] == Failures(asked, grades, k)
  {
    AllKindsListed();
    map k | k in AllKinds :: Failures(asked, grades, k)
  }

  /** `totalErrors`: the summed lengths of the four error lists. */
  function TotalErrors(errors: map<Kind, seq<string>>): (r: nat)
    requires forall k :: k in errors
    ensures forall k :: |errors[k]| <= r
    ensures r == 0 <==> forall k :: errors[k] == []
  {
    var r := |errors[ChinesePinyin]| + |errors[ChineseEnglish]| + |errors[EnglishChinese]| + |errors[EnglishPinyin]|;
    ErrorListsBounded(errors, r);
    r
  }

  /** Each category's error list is part of the sum over the four categories. */
  lemma ErrorListsBounded(errors: map<Kind, seq<string>>, r: nat)
    requires forall k :: k in errors
    requires r == |errors[ChinesePinyin]| + |errors[ChineseEnglish]| + |errors[EnglishChinese]| + |errors[EnglishPinyin]|
    ensures forall k :: |errors[k]| <= r
  {
    forall k ensures |errors[k]| <= r {
      match k
      case ChinesePinyin =>
      case ChineseEnglish =>
      case EnglishChinese =>
      case EnglishPinyin =>
    }
  }

  /** Every question asked is counted once: as a success or as an error of its own category. */
  lemma {:induction false} TallyAddsUp(asked: seq<Question>, grades: seq<bool>)
    requires |grades| == |asked|
    ensures |Successes(asked, grades)| + TotalErrors(ErrorLists(asked, grades)) == |asked|
  {
    if asked != [] {
      var n := |asked| - 1;
      TallyAddsUp(asked[..n], grades[..n]);
    }
  }

  /** The tallies after one more question: its word joins the successes or its category's errors. */
  lemma TallyStep(asked: seq<Question>, grades: seq<bool>, q: Question, correct: bool)
    requires |grades| == |asked|
    ensures Successes(asked + [q], grades + [correct]) ==
      Successes(asked, grades) + (if correct then [q.word] else [])
    ensures ErrorLists(asked + [q], grades + [correct]) ==
      var errors := ErrorLists(asked, grades);
      if correct then errors else errors[q.kind := errors[q.kind] + [q.word]]
  {
    SuccessesStep(asked, grades, q, correct);
    ErrorListsStep(asked, grades, q, correct);
  }

  lemma SuccessesStep(asked: seq<Question>, grades: seq<bool>, q: Question, correct: bool)
    requires |grades| == |asked|
    ensures Successes(asked + [q], grades + [correct]) ==
      Successes(asked, grades) + (if correct then [q.word] else [])
  {
    var asked', grades' := asked + [q], grades + [correct];
    assert asked'[..|asked|] == asked && grades'[..|asked|] == grades;
  }

  lemma ErrorListsStep(asked: seq<Question>, grades: seq<bool>, q: Question, correct: bool)
    requires |grades| == |asked|
    ensures ErrorLists(asked + [q], grades + [correct]) ==
      var errors := ErrorLists(asked, grades);
      if correct then errors else errors[q.kind := errors[q.kind] + [q.word]]
  {
    var asked', grades' := asked + [q], grades + [correct];
    var before, after := ErrorLists(asked, grades), ErrorLists(asked', grades');
    var expected := if correct then before else before[q.kind := before[q.kind] + [q.word]];
    AllKindsListed();
    forall k ensures after[k] == expected[k] {
      FailuresStep(asked, grades, q, correct, k);
    }
  }

  /** One more question adds its word to the failures of category `k` when it is a wrong answer of that category. */
  lemma FailuresStep(asked: seq<Question>, grades: seq<bool>, q: Question, correct: bool, k: Kind)
    requires |grades| == |asked|
    ensures Failures(asked + [q], grades + [correct], k) ==
      Failures(asked, grades, k) + (if q.kind == k && !correct then [q.word] else [])
  {
    var asked', grades' := asked + [q], grades + [correct];
    assert asked'[..|asked|] == asked && grades'[..|asked|] == grades;
  }

  // ---------------------------------------------------------------------------
  // The test action

  datatype Report =
    /** The deck has no words. */
    | EmptyDeck
    /** The kind is neither `mixed` nor a category name. */
    | UnknownKind(name: string)
    /**
     * A category whose pool is empty was drawn: the word is undefined, and the action
     * fails when the deck has no word keyed `undefined`.
     */
    | Aborted(kind: Kind)
    /** The summary: questions asked, words answered correctly, errors per category. */
    | Completed(count: nat, successWords: seq<string>, errors: map<Kind, seq<string>>)

  /** The pair `q` is still in a pool. */
  predicate InPools(pools: map<Kind, seq<string>>, q: Question) {
    q.kind in pools && q.word in pools[q.kind]
  }

  /** The (category, word) pairs still to be asked. */
  ghost function Pairs(pools: map<Kind, seq<string>>): (r: set<Question>)
    ensures forall q :: q in r <==> InPools(pools, q)
  {
    set k, w | k in pools && w in pools[k] :: Question(k, w)
  }

  /** The pool object is well formed: its key order lists each category once, and no pool repeats a word. */
  ghost predicate PoolsValid(keys: seq<Kind>, pools: map<Kind, seq<string>>) {
    && Distinct(keys)
    && (forall k :: k in keys <==> k in pools)
    && (forall k :: k in pools ==> Distinct(pools[k]))
  }

  /** Dropping the entry at `i` of a list without repeats removes exactly that entry. */
  lemma DropAt<T>(s: seq<T>, i: nat)
    requires Distinct(s) && i < |s|
    ensures forall x :: x in s[..i] + s[i + 1..] <==> x in s && x != s[i]
    ensures Distinct(s[..i] + s[i + 1..])
  {
    var rest := s[..i] + s[i + 1..];
    assert s == s[..i] + [s[i]] + s[i + 1..];
    forall x | x in rest ensures x != s[i] {
      var j :| 0 <= j < |rest| && rest[j] == x;
      if j < i {
        assert rest[j] == s[j];
      } else {
        assert rest[j] == s[j + 1];
      }
    }
    forall a, b | 0 <= a < b < |rest| ensures rest[a] != rest[b] {
      var a' := if a < i then a else a + 1;
      var b' := if b < i then b else b + 1;
      assert rest[a] == s[a'] && rest[b] == s[b'];
    }
  }

  /**
   * One round's removal: the drawn word leaves the drawn category's pool (`splice`), and
   * the category leaves the object once its pool is empty (`delete`).
   */
  method Remove(keys: seq<Kind>, pools: map<Kind, seq<string>>, kindIdx: nat, wordIdx: nat)
    returns (keys': seq<Kind>, pools': map<Kind, seq<string>>)
    requires PoolsValid(keys, pools)
    requires kindIdx < |keys| && wordIdx < |pools[keys[kindIdx]]|
    ensures PoolsValid(keys', pools')
    ensures |keys'| <= |keys|
    ensures forall q :: InPools(pools', q) <==>
      InPools(pools, q) && q != Question(keys[kindIdx], pools[keys[kindIdx]][wordIdx])
    ensures forall k :: k in pools' && pools'[k] == [] ==> k in pools && pools[k] == []
    ensures Size(keys', pools') + 1 == Size(keys, pools)
  {
    var k := keys[kindIdx];
    var rest := pools[k][..wordIdx] + pools[k][wordIdx + 1..];
    DropAt(pools[k], wordIdx);
    SizeUpdate(keys, pools, k, rest);
    keys', pools' := keys, pools[k := rest];
    if |rest| == 0 {
      SizeDelete(keys', pools', kindIdx);
      DropAt(keys, kindIdx);
      keys', pools' := keys[..kindIdx] + keys[kindIdx + 1..], pools' - {k};
    }
  }

  /** Grades one answer with the comparison its category uses. */
  method Grade(k: Kind, word: string, data: WordData, answer: string) returns (correct: bool)
    ensures correct == IsCorrect(k, word, data, answer)
  {
    match k {
      case ChinesePinyin =>
        var toned := Tone.ParseTone(Text.Trim(answer));
        correct := toned == Text.ToLower(data.pinyin);
      case ChineseEnglish =>
        correct := Text.IsStringIncludedInArray(data.translations, answer);
      case EnglishChinese =>
        correct := Text.CompareStrings(answer, word);
      case EnglishPinyin =>
        var toned := Tone.ParseTone(answer);
        correct := Text.CompareStrings(toned, data.pinyin);
    }
  }

  /**
   * The questions asked so far are distinct, were pairs of `start` and are no longer
   * among the pairs `left`.
   */
  ghost predicate History(start: set<Question>, left: set<Question>, asked: seq<Question>) {
    && Distinct(asked)
    && forall j :: 0 <= j < |asked| ==> asked[j] in start && asked[j] !in left
  }

  lemma HistoryStep(start: set<Question>, left: set<Question>, asked: seq<Question>, q: Question)
    requires History(start, left, asked) && q in left && left <= start
    ensures History(start, left - {q}, asked + [q])
  {
    assert q !in asked by {
      forall j | 0 <= j < |asked| ensures asked[j] != q {
        assert asked[j] !in left;
      }
    }
    AppendDistinct(asked, q);
    var asked' := asked + [q];
    forall j | 0 <= j < |asked'| ensures asked'[j] in start && asked'[j] !in left - {q} {
      if j < |asked| {
        assert asked'[j] == asked[j];
      }
    }
  }

  /**
   * What the loop of `test` keeps about the questions asked so far: none twice, each from
   * the initial pools and gone from the current ones, each word in the deck, each graded.
   */
  ghost predicate Asked(words: map<string, WordData>, answers: seq<string>, start: set<Question>,
                        left: set<Question>, asked: seq<Question>, grades: seq<bool>) {
    && History(start, left, asked)
    && FromDeck(asked, words)
    && Graded(Verdict(words), asked, answers, grades)
  }

  /** Before the first round nothing has been asked. */
  lemma AskedStart(words: map<string, WordData>, answers: seq<string>, start: set<Question>)
    ensures Asked(words, answers, start, start, [], [])
  {
  }

  /** What the record of the questions asked says once the loop is over. */
  lemma AskedEnd(words: map<string, WordData>, answers: seq<string>, start: set<Question>,
                 left: set<Question>, asked: seq<Question>, grades: seq<bool>)
    requires Asked(words, answers, start, left, asked, grades)
    ensures Distinct(asked) && forall j :: 0 <= j < |asked| ==> asked[j] in start
    ensures FromDeck(asked, words) && Graded(Verdict(words), asked, answers, grades)
  {
  }

  lemma AskedStep(words: map<string, WordData>, answers: seq<string>, start: set<Question>,
                  left: set<Question>, asked: seq<Question>, grades: seq<bool>, q: Question, correct: bool)
    requires Asked(words, answers, start, left, asked, grades) && left <= start
    requires q in left && q.word in words && |asked| < |answers|
    requires correct == Verdict(words)(q, answers[|asked|])
    ensures Asked(words, answers, start, left - {q}, asked + [q], grades + [correct])
  {
    HistoryStep(start, left, asked, q);
    GradedStep(Verdict(words), asked, answers, grades, q, correct);
    var asked' := asked + [q];
    forall j | 0 <= j < |asked'| ensures asked'[j].word in words {
      if j < |asked| {
        assert asked'[j] == asked[j];
      }
    }
  }

  /**
   * What the loop of `test` keeps about the pools: they stay valid and within the initial
   * pairs, and a pool is empty only if it was empty from the start.
   */
  ghost predicate Pools(words: map<string, WordData>, initial: map<Kind, seq<string>>, start: set<Question>,
                        mode: Mode, keys: seq<Kind>, pools: map<Kind, seq<string>>) {
    && PoolsValid(keys, pools) && (mode.Single? ==> |keys| <= 1)
    && Pairs(pools) <= start
    && (forall x :: x in Pairs(pools) ==> x.word in words)
    && (forall k :: k in pools && pools[k] == [] ==> k in initial && initial[k] == [])
  }

  lemma PoolsStep(words: map<string, WordData>, initial: map<Kind, seq<string>>, start: set<Question>, mode: Mode,
                  keys: seq<Kind>, pools: map<Kind, seq<string>>, keys': seq<Kind>, pools': map<Kind, seq<string>>, q: Question)
    requires Pools(words, initial, start, mode, keys, pools)
    requires PoolsValid(keys', pools') && |keys'| <= |keys|
    requires Pairs(pools') == Pairs(pools) - {q}
    requires forall k :: k in pools' && pools'[k] == [] ==> k in pools && pools[k] == []
    ensures Pools(words, initial, start, mode, keys', pools')
  {
  }

  /**
   * One round: draws a category and a word (`Math.floor(Math.random() * n)` twice),
   * removes the pair from the pools and grades the answer. `drawnEmpty` is set when the
   * drawn category's pool is empty, where the source goes on with an undefined word and
   * fails unless the deck has a word keyed `undefined`.
   */
  method Round(words: map<string, WordData>, keys: seq<Kind>, pools: map<Kind, seq<string>>,
               kindRoll: real, wordRoll: real, answer: string)
    returns (keys': seq<Kind>, pools': map<Kind, seq<string>>, q: Question, drawnEmpty: bool, correct: bool)
    requires PoolsValid(keys, pools) && Size(keys, pools) > 0
    requires forall x :: x in Pairs(pools) ==> x.word in words
    requires 0.0 <= kindRoll < 1.0 && 0.0 <= wordRoll < 1.0
    ensures drawnEmpty ==> q.kind in pools && pools[q.kind] == [] && |keys| > 1
    ensures !drawnEmpty ==>
      && q in Pairs(pools) && Pairs(pools') == Pairs(pools) - {q}
      && (forall k :: k in pools' && pools'[k] == [] ==> k in pools && pools[k] == [])
      && PoolsValid(keys', pools') && |keys'| <= |keys|
      && Size(keys', pools') + 1 == Size(keys, pools)
      && q.word in words
      && correct == Verdict(words)(q, answer)
  {
    var kindIdx := Pick(kindRoll, |keys|);
    var k := keys[kindIdx];
    var wordIdx := Pick(wordRoll, |pools[k]|);
    if |pools[k]| == 0 {
      SizeZero(keys, pools);
      return keys, pools, Question(k, ""), true, false;
    }
    var word := pools[k][wordIdx];
    q := Question(k, word);
    assert InPools(pools, q);
    keys', pools' := Remove(keys, pools, kindIdx, wordIdx);
    assert Pairs(pools') == Pairs(pools) - {q};
    drawnEmpty := false;
    correct := Grade(k, word, words[word], answer);
  }

  /**
   * One pass of the loop body of `test`: a round, then the word pushed onto the success
   * list or onto the error list of its category. The ghost record of the questions asked
   * and the pool invariants carry over to the new state.
   */
  method Turn(words: map<string, WordData>, answers: seq<string>, ghost start: set<Question>, mode: Mode,
              initial: map<Kind, seq<string>>, keys: seq<Kind>, pools: map<Kind, seq<string>>,
              ghost asked: seq<Question>, ghost grades: seq<bool>,
              successWords: seq<string>, errors: map<Kind, seq<string>>,
              kindRoll: real, wordRoll: real, answer: string)
    returns (keys': seq<Kind>, pools': map<Kind, seq<string>>, q: Question, drawnEmpty: bool,
             ghost asked': seq<Question>, ghost grades': seq<bool>,
             successWords': seq<string>, errors': map<Kind, seq<string>>)
    requires Pools(words, initial, start, mode, keys, pools) && Size(keys, pools) > 0
    requires Asked(words, answers, start, Pairs(pools), asked, grades)
    requires |asked| < |answers| && answer == answers[|asked|]
    requires successWords == Successes(asked, grades) && errors == ErrorLists(asked, grades)
    requires 0.0 <= kindRoll < 1.0 && 0.0 <= wordRoll < 1.0
    ensures drawnEmpty ==>
      && mode == Mixed && q.kind in initial && initial[q.kind] == []
      && pools' == pools && asked' == asked && grades' == grades
    ensures !drawnEmpty ==>
      && Pools(words, initial, start, mode, keys', pools')
      && Asked(words, answers, start, Pairs(pools'), asked', grades')
      && Size(keys', pools') + 1 == Size(keys, pools) && |asked'| == |asked| + 1
      && successWords' == Successes(asked', grades') && errors' == ErrorLists(asked', grades')
  {
    var correct;
    keys', pools', q, drawnEmpty, correct := Round(words, keys, pools, kindRoll, wordRoll, answer);
    if drawnEmpty {
      return keys, pools, q, true, asked, grades, successWords, errors;
    }
    AskedStep(words, answers, start, Pairs(pools), asked, grades, q, correct);
    PoolsStep(words, initial, start, mode, keys, pools, keys', pools', q);
    TallyStep(asked, grades, q, correct);
    asked', grades' := asked + [q], grades + [correct];
    if correct {
      successWords', errors' := successWords + [q.word], errors;
    } else {
      successWords', errors' := successWords, errors[q.kind := errors[q.kind] + [q.word]];
    }
  }

  /**
   * The sampling loop of the `test` action, from the initial pool object on. Round `i`
   * reads `rolls[2 * i]` (the category), `rolls[2 * i + 1]` (the word) and `answers[i]`.
   */
  method Rounds(words: map<string, WordData>, mode: Mode, initial: map<Kind, seq<string>>, number: int,
                rolls: seq<real>, answers: seq<string>)
    returns (report: Report, ghost asked: seq<Question>, ghost grades: seq<bool>)
    requires PoolsValid(ModeKinds(mode), initial)
    requires forall q :: q in Pairs(initial) ==> q.word in words
    requires forall j :: 0 <= j < |rolls| ==> 0.0 <= rolls[j] < 1.0
    requires |rolls| >= 2 * number && |answers| >= number
    ensures report.Aborted? || report.Completed?
    ensures FromDeck(asked, words) && Graded(Verdict(words), asked, answers, grades)
    ensures asked == [] || |asked| <= number
    ensures Distinct(asked)
    ensures forall j :: 0 <= j < |asked| ==> asked[j] in Pairs(initial)
    ensures |asked| <= Size(ModeKinds(mode), initial)
    ensures report.Completed? && |asked| < number ==> |asked| == Size(ModeKinds(mode), initial)
    ensures report.Aborted? ==> mode == Mixed && report.kind in initial && initial[report.kind] == []
    ensures report.Completed? ==>
      && report.count == |asked|
      && report.successWords == Successes(asked, grades)
      && report.errors == ErrorLists(asked, grades)
      && |report.successWords| + TotalErrors(report.errors) == report.count
  {
    asked, grades := [], [];
    var keys := ModeKinds(mode);
    var pools := initial;
    var successWords: seq<string> := [];
    var errors: map<Kind, seq<string>> := map k | k in AllKinds :: [];
    assert errors == ErrorLists(asked, grades);
    ghost var start := Pairs(initial);
    ghost var total := Size(keys, pools);
    AskedStart(words, answers, start);
    var count := 0;
    var i := 0;
    while i < number
      invariant 0 <= i == count == |asked| && (i == 0 || i <= number)
      invariant Pools(words, initial, start, mode, keys, pools)
      invariant Asked(words, answers, start, Pairs(pools), asked, grades)
      invariant Size(keys, pools) + count == total
      invariant successWords == Successes(asked, grades)
      invariant errors == ErrorLists(asked, grades)
    {
      if Size(keys, pools) < 1 {
        break;
      }
      count := count + 1;
      var q, drawnEmpty;
      keys, pools, q, drawnEmpty, asked, grades, successWords, errors :=
        Turn(words, answers, start, mode, initial, keys, pools, asked, grades, successWords, errors,
             rolls[2 * i], rolls[2 * i + 1], answers[i]);
      if drawnEmpty {
        AskedEnd(words, answers, start, Pairs(pools), asked, grades);
        return Aborted(q.kind), asked, grades;
      }
      i := i + 1;
    }
    AskedEnd(words, answers, start, Pairs(pools), asked, grades);
    TallyAddsUp(asked, grades);
    report := Completed(count, successWords, errors);
  }

  /**
   * The `test` action on the listed words of a deck: an empty deck and an unknown kind end
   * it before the first round.
   */
  method Test(words: map<string, WordData>, order: seq<string>, kind: string, number: int,
              rolls: seq<real>, answers: seq<string>)
    returns (report: Report, ghost asked: seq<Question>, ghost grades: seq<bool>)
    requires KeyOrder(order, words)
    requires forall j :: 0 <= j < |rolls| ==> 0.0 <= rolls[j] < 1.0
    requires |rolls| >= 2 * number && |answers| >= number
    ensures words == map[] ==> report == EmptyDeck
    ensures words != map[] && ParseMode(kind).None? ==> report == UnknownKind(kind)
    ensures report.EmptyDeck? || report.UnknownKind? ==> asked == []
    ensures report.Aborted? || report.Completed? ==> words != map[] && ParseMode(kind).Some?
    ensures FromDeck(asked, words) && Graded(Verdict(words), asked, answers, grades)
    ensures asked == [] || |asked| <= number
    // no (category, word) pair is asked twice, and every pair comes from an initial pool
    ensures Distinct(asked)
    ensures ParseMode(kind).Some? ==>
      var mode := ParseMode(kind).value;
      var initial := InitialPools(order, words, mode);
      && (forall j :: 0 <= j < |asked| ==> asked[j] in Pairs(initial))
      && |asked| <= Size(ModeKinds(mode), initial)
      && (report.Completed? && |asked| < number ==> |asked| == Size(ModeKinds(mode), initial))
    // an empty pool is drawn only in mixed mode, and only one that was empty from the start
    ensures report.Aborted? ==>
      ParseMode(kind) == Some(Mixed) && PoolOf(order, words, report.kind) == []
    ensures report.Completed? ==>
      && report.count == |asked|
      && report.successWords == Successes(asked, grades)
      && report.errors == ErrorLists(asked, grades)
      && |report.successWords| + TotalErrors(report.errors) == report.count
  {
    if |order| == 0 {
      return EmptyDeck, [], [];
    }
    assert order[0] in words;
    var parsed := ParseMode(kind);
    if parsed.None? {
      return UnknownKind(kind), [], [];
    }
    var mode := parsed.value;
    var initial := InitialPools(order, words, mode);
    report, asked, grades := Rounds(words, mode, initial, number, rolls, answers);
  }

  /** The action as invoked: the words are listed from the store first, which fails on a missing deck file. */
  method TestDeck(store: DeckStore.Store, deck: string, order: seq<string>, kind: string, number: int,
                  rolls: seq<real>, answers: seq<string>)
    returns (r: Result<Report>)
    requires deck in store.files ==> KeyOrder(order, store.files[deck].words)
    requires forall j :: 0 <= j < |rolls| ==> 0.0 <= rolls[j] < 1.0
    requires |rolls| >= 2 * number && |answers| >= number
    ensures r.Err? <==> deck !in store.files
    ensures r.Err? ==> r.error == DeckNotFound(deck)
    ensures r.Ok? && store.files[deck].words == map[] ==> r.value == EmptyDeck
    ensures r.Ok? && r.value.Completed? ==> r.value.count == 0 || r.value.count <= number
  {
    var listed := store.ListDeckWords(deck);
    if listed.Err? {
      return Err(listed.error);
    }
    assert listed.value == store.files[deck].words;
    var report, asked, grades := Test(listed.value, order, kind, number, rolls, answers);
    r := Ok(report);
  }
}
