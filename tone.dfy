/**
 * The tone normaliser `parseTone`: keyboard tone notation (a doubled or capitalised
 * vowel) is rewritten into a pinyin vowel with its tone mark.
 *
 * For a vowel v with upper-case form V the four shapes, tried in this order, are
 *   1. `VV`  -> v with a macron (first tone)
 *   2. `vv`  -> v with an acute accent (second tone)
 *   3. `VvV` -> v with a caron (third tone)
 *   4. `Vv`  -> the plain vowel v (the table entry at index 0, not the grave accent)
 * The vowels are tried in the order a, e, i, o, u, ü; only the first vowel with some
 * matching shape is rewritten, every occurrence of that shape is replaced, and when no
 * shape matches at all the result is the empty string.
 */
module Tone {
  import opened Outcomes

  // ---------------------------------------------------------------------------
  // The string primitives used by the normaliser

  /** `s.includes(p)`: `p` occurs in `s` as a contiguous block. */
  predicate Includes(s: string, p: string)
    ensures Includes(s, p) ==> |p| <= |s|
    ensures p == [] ==> Includes(s, p)
    decreases |s|
  {
    p <= s || (|s| > 0 && Includes(s[1..], p))
  }

  /**
   * `s.replace(/p/g, rep)`: scanning from the left, every occurrence of `p` is replaced
   * by `rep`, and the scan resumes after the replaced occurrence.
   */
  function ReplaceAll(s: string, p: string, rep: string): (r: string)
    requires |p| > 0
    ensures |rep| <= |p| ==> |r| <= |s|
    decreases |s|
  {
    if |s| == 0 then s
    else if p <= s then rep + ReplaceAll(s[|p|..], p, rep)
    else [s[0]] + ReplaceAll(s[1..], p, rep)
  }

  /** Without an occurrence of the pattern, replacing leaves the string as it is. */
  lemma {:induction false} ReplaceAllAbsent(s: string, p: string, rep: string)
    requires |p| > 0 && !Includes(s, p)
    ensures ReplaceAll(s, p, rep) == s
    decreases |s|
  {
    if |s| > 0 {
      ReplaceAllAbsent(s[1..], p, rep);
    }
  }

  /** With an occurrence of the pattern, the replacement shows up in the result. */
  lemma {:induction false} ReplaceAllPresent(s: string, p: string, rep: string)
    requires |p| > 0 && Includes(s, p)
    ensures Includes(ReplaceAll(s, p, rep), rep)
    decreases |s|
  {
    if p <= s {
      assert rep <= rep + ReplaceAll(s[|p|..], p, rep);
    } else {
      ReplaceAllPresent(s[1..], p, rep);
      IncludesExtend(s[0], ReplaceAll(s[1..], p, rep), rep);
    }
  }

  /** At position `j` of `s`, the first or the second character of `p` mismatches. */
  predicate MismatchAt(s: string, p: string, j: nat)
    requires 0 < |p| && j + |p| <= |s|
  {
    s[j] != p[0] || (|p| > 1 && s[j + 1] != p[1])
  }

  /** A pattern is absent when it mismatches at every position where it would fit. */
  lemma {:induction false} IncludesMismatch(s: string, p: string)
    requires |p| > 0
    requires forall j: nat :: j + |p| <= |s| ==> MismatchAt(s, p, j)
    ensures !Includes(s, p)
    decreases |s|
  {
    if |s| > 0 {
      if |p| <= |s| {
        assert MismatchAt(s, p, 0);
        var pre := s[..|p|];
        if s[0] != p[0] {
          assert pre[0] != p[0];
        } else {
          assert pre[1] != p[1];
        }
      }
      forall j: nat | j + |p| <= |s[1..]| ensures MismatchAt(s[1..], p, j) {
        assert MismatchAt(s, p, j + 1);
      }
      IncludesMismatch(s[1..], p);
    }
  }

  lemma IncludesExtend(c: char, s: string, p: string)
    requires Includes(s, p)
    ensures Includes([c] + s, p)
  {
    assert ([c] + s)[1..] == s;
  }

  /** A prefix of a replaced string that avoids the replacement character is a prefix of the original. */
  lemma {:induction false} ReplaceAllPrefix(t: string, p: string, c: char, q: string)
    requires |p| > 0 && q <= ReplaceAll(t, p, [c])
    requires forall i :: 0 <= i < |q| ==> q[i] != c
    ensures q <= t
    decreases |t|
  {
    if |q| > 0 && |t| > 0 {
      // a replaced occurrence would put `c` at the front, which `q` avoids
      assert ReplaceAll(t, p, [c])[0] == (if p <= t then c else t[0]);
      assert q[0] != c;
      var rest := ReplaceAll(t[1..], p, [c]);
      assert ReplaceAll(t, p, [c]) == [t[0]] + rest;
      assert q[1..] <= rest;
      ReplaceAllPrefix(t[1..], p, c, q[1..]);
      assert q == [q[0]] + q[1..];
    }
  }

  /**
   * Every occurrence is replaced: when the replacement character is not part of the
   * pattern, the pattern no longer occurs in the result.
   */
  lemma {:induction false} ReplaceAllRemoves(s: string, p: string, c: char)
    requires |p| > 0 && forall i :: 0 <= i < |p| ==> p[i] != c
    ensures !Includes(ReplaceAll(s, p, [c]), p)
    decreases |s|
  {
    if |s| > 0 {
      var r := ReplaceAll(s, p, [c]);
      if p <= s {
        assert r == [c] + ReplaceAll(s[|p|..], p, [c]) && r[1..] == ReplaceAll(s[|p|..], p, [c]);
        ReplaceAllRemoves(s[|p|..], p, c);
        assert r[0] == c && p[0] != c;
      } else {
        assert r == [s[0]] + ReplaceAll(s[1..], p, [c]) && r[1..] == ReplaceAll(s[1..], p, [c]);
        ReplaceAllRemoves(s[1..], p, c);
        assert p == [p[0]] + p[1..];
        if p[1..] <= r[1..] {
          // the rest of `p` starts `s[1..]` as well, so only the first characters can differ
          ReplaceAllPrefix(s[1..], p, c, p[1..]);
          assert s[..|p|] == [s[0]] + s[1..][..|p| - 1];
          assert s[0] != p[0];
        }
      }
    }
  }

  /** A pattern absent from a string is absent from each of its suffixes. */
  lemma {:induction false} IncludesSuffix(s: string, k: nat, p: string)
    requires k <= |s| && !Includes(s, p)
    ensures !Includes(s[k..], p)
    decreases k
  {
    if k > 0 {
      assert s[1..][k - 1..] == s[k..];
      IncludesSuffix(s[1..], k - 1, p);
    }
  }

  /**
   * Every occurrence of `Vv` is replaced by `v` as well: the pattern cannot re-form as
   * long as the string holds no `VV`.
   */
  lemma {:induction false} ReplaceAllRemovesPair(s: string, V: char, v: char)
    requires V != v && !Includes(s, [V, V])
    ensures !Includes(ReplaceAll(s, [V, v], [v]), [V, v])
    decreases |s|
  {
    var p := [V, v];
    if |s| > 0 {
      var r := ReplaceAll(s, p, [v]);
      if p <= s {
        var rest := ReplaceAll(s[2..], p, [v]);
        assert r == [v] + rest && r[1..] == rest;
        IncludesSuffix(s, 2, [V, V]);
        ReplaceAllRemovesPair(s[2..], V, v);
      } else {
        var rest := ReplaceAll(s[1..], p, [v]);
        assert r == [s[0]] + rest && r[1..] == rest;
        ReplaceAllRemovesPair(s[1..], V, v);
        var t := s[1..];
        if |t| > 0 {
          if p <= t {
            // `t` starts with `V`, so `s` starting with `V` would hold `VV`
            assert t[0] == V && !([V, V] <= s);
            assert s[0] != V;
          } else {
            // the character after `s[0]` is kept, and `s` does not start with `Vv`
            assert rest == [t[0]] + ReplaceAll(t[1..], p, [v]);
            assert !(s[0] == V && t[0] == v);
          }
        }
      }
    }
  }

  // ---------------------------------------------------------------------------
  // The vowel tables

  /** The vowels, in the order in which they are tried. */
  const Vowels: seq<char> := ['a', 'e', 'i', 'o', 'u', 'ü']

  /** `toUpperCase` of a vowel. */
  function UpperVowel(v: char): char {
    match v
    case 'a' => 'A'
    case 'e' => 'E'
    case 'i' => 'I'
    case 'o' => 'O'
    case 'u' => 'U'
    case 'ü' => 'Ü'
    case _ => v
  }

  /** The plain vowel followed by its four toned forms (macron, acute, caron, grave). */
  function ToneTable(v: char): (t: seq<char>)
    ensures |t| == 5
  {
    match v
    case 'a' => ['a', 'ā', 'á', 'ǎ', 'à']
    case 'e' => ['e', 'ē', 'é', 'ě', 'è']
    case 'i' => ['i', 'ī', 'í', 'ǐ', 'ì']
    case 'o' => ['o', 'ō', 'ó', 'ǒ', 'ò']
    case 'u' => ['u', 'ū', 'ú', 'ǔ', 'ù']
    case _ => ['ü', 'ǖ', 'ǘ', 'ǚ', 'ǜ']
  }

  /** Entry 0 of each vowel's table is the vowel itself. */
  lemma TablePlain(i: nat)
    requires i < |Vowels|
    ensures ToneTable(Vowels[i])[0] == Vowels[i]
  {
    assert i == 0 || i == 1 || i == 2 || i == 3 || i == 4 || i == 5;
  }

  /** The four typed shapes of vowel `v`, numbered 1 to 4 in priority order. */
  function Pattern(v: char, k: nat): (p: string)
    requires 1 <= k <= 4
    ensures 2 <= |p| <= 3
  {
    var V := UpperVowel(v);
    if k == 1 then [V, V]
    else if k == 2 then [v, v]
    else if k == 3 then [V, v, V]
    else [V, v]
  }

  /** What shape `k` is rewritten to: the table entry `k` for shapes 1 to 3, entry 0 for shape 4. */
  function Replacement(v: char, k: nat): string
    requires 1 <= k <= 4
  {
    if k == 4 then [ToneTable(v)[0]] else [ToneTable(v)[k]]
  }

  // ---------------------------------------------------------------------------
  // The specification of the normaliser

  /** The first of the four shapes of `v` that occurs in `s`, if any. */
  function FirstPattern(s: string, v: char): (r: Option<nat>)
    ensures r.Some? ==> 1 <= r.value <= 4 && Includes(s, Pattern(v, r.value))
    ensures r.Some? ==> forall k :: 1 <= k < r.value ==> !Includes(s, Pattern(v, k))
    ensures r.None? ==> forall k :: 1 <= k <= 4 ==> !Includes(s, Pattern(v, k))
  {
    if Includes(s, Pattern(v, 1)) then Some(1)
    else if Includes(s, Pattern(v, 2)) then Some(2)
    else if Includes(s, Pattern(v, 3)) then Some(3)
    else if Includes(s, Pattern(v, 4)) then Some(4)
    else None
  }

  /** The normaliser restricted to the vowels from index `i` on. */
  function NormalizeFrom(s: string, i: nat): (r: string)
    requires i <= |Vowels|
    ensures |r| <= |s|
    decreases |Vowels| - i
  {
    if i == |Vowels| then ""
    else match FirstPattern(s, Vowels[i])
      case Some(k) => ReplaceAll(s, Pattern(Vowels[i], k), Replacement(Vowels[i], k))
      case None => NormalizeFrom(s, i + 1)
  }

  /** What `parseTone` returns for `pinyin`. */
  function Normalize(pinyin: string): (r: string)
    ensures |r| <= |pinyin|
  {
    if |pinyin| == 0 then "" else NormalizeFrom(pinyin, 0)
  }

  /** Shape `k` of vowel number `i` is the one the normaliser rewrites in `s`. */
  ghost predicate Selected(s: string, i: nat, k: nat) {
    && i < |Vowels| && 1 <= k <= 4
    && (forall j, k' :: 0 <= j < i && 1 <= k' <= 4 ==> !Includes(s, Pattern(Vowels[j], k')))
    && (forall k' :: 1 <= k' < k ==> !Includes(s, Pattern(Vowels[i], k')))
    && Includes(s, Pattern(Vowels[i], k))
  }

  /** No shape of any vowel occurs in `s`. */
  ghost predicate NoShape(s: string) {
    forall i, k :: 0 <= i < |Vowels| && 1 <= k <= 4 ==> !Includes(s, Pattern(Vowels[i], k))
  }

  lemma {:induction false} NormalizeFromSkips(s: string, i: nat, j: nat)
    requires i <= j <= |Vowels|
    requires forall m :: i <= m < j ==> FirstPattern(s, Vowels[m]).None?
    ensures NormalizeFrom(s, i) == NormalizeFrom(s, j)
    decreases j - i
  {
    if i < j {
      NormalizeFromStep(s, i);
      NormalizeFromSkips(s, i + 1, j);
    }
  }

  /** A vowel with no shape in `s` passes the work on to the next vowel. */
  lemma NormalizeFromStep(s: string, i: nat)
    requires i < |Vowels| && FirstPattern(s, Vowels[i]).None?
    ensures NormalizeFrom(s, i) == NormalizeFrom(s, i + 1)
  {
  }

  // ---------------------------------------------------------------------------
  // The properties of the normaliser

  /** The empty input gives the empty string. */
  lemma NormalizeEmpty()
    ensures Normalize("") == ""
  {
  }

  /**
   * The priority rule: the rewritten shape is the first shape (in the order 1 to 4) of
   * the first vowel (in the order a, e, i, o, u, ü) that occurs at all; all its
   * occurrences are replaced, shape 4 by the plain vowel.
   */
  lemma NormalizeSelected(s: string, i: nat, k: nat)
    requires Selected(s, i, k)
    ensures Normalize(s) ==
      ReplaceAll(s, Pattern(Vowels[i], k), if k == 4 then [Vowels[i]] else [ToneTable(Vowels[i])[k]])
  {
    forall m | 0 <= m < i ensures FirstPattern(s, Vowels[m]).None? {
      assert !Includes(s, Pattern(Vowels[m], 1)) && !Includes(s, Pattern(Vowels[m], 2));
      assert !Includes(s, Pattern(Vowels[m], 3)) && !Includes(s, Pattern(Vowels[m], 4));
    }
    NormalizeFromSkips(s, 0, i);
    assert FirstPattern(s, Vowels[i]) == Some(k);
    if k == 4 {
      TablePlain(i);
    }
  }

  /** When no shape of any vowel occurs, the result is the empty string, not the input. */
  lemma NormalizeNoShape(s: string)
    requires NoShape(s)
    ensures Normalize(s) == ""
  {
    forall m | 0 <= m < |Vowels| ensures FirstPattern(s, Vowels[m]).None? {
      assert forall k :: 1 <= k <= 4 ==> !Includes(s, Pattern(Vowels[m], k));
    }
    NormalizeFromSkips(s, 0, |Vowels|);
  }

  /** Some shape of some vowel is always selected when one occurs. */
  lemma SomeSelected(s: string) returns (i: nat, k: nat)
    requires !NoShape(s)
    ensures Selected(s, i, k)
  {
    var i0, k0 :| 0 <= i0 < |Vowels| && 1 <= k0 <= 4 && Includes(s, Pattern(Vowels[i0], k0));
    i := 0;
    while FirstPattern(s, Vowels[i]).None?
      invariant 0 <= i <= i0
      invariant forall j, k' :: 0 <= j < i && 1 <= k' <= 4 ==> !Includes(s, Pattern(Vowels[j], k'))
      decreases i0 - i
    {
      i := i + 1;
    }
    k := FirstPattern(s, Vowels[i]).value;
  }

  /** The result is empty exactly when the input holds no shape at all. */
  lemma NormalizeEmptyIff(s: string)
    ensures Normalize(s) == "" <==> NoShape(s)
  {
    if NoShape(s) {
      NormalizeNoShape(s);
    } else {
      var i, k := SomeSelected(s);
      NormalizeSelected(s, i, k);
      var rep: string := if k == 4 then [Vowels[i]] else [ToneTable(Vowels[i])[k]];
      ReplaceAllPresent(s, Pattern(Vowels[i], k), rep);
      assert Includes(Normalize(s), rep);
    }
  }

  /** The toned entries 1 to 3 of each vowel's table differ from the vowel in either case. */
  lemma TableMarked(i: nat, k: nat)
    requires i < |Vowels| && 1 <= k <= 3
    ensures ToneTable(Vowels[i])[k] != Vowels[i] && ToneTable(Vowels[i])[k] != UpperVowel(Vowels[i])
  {
    assert i == 0 || i == 1 || i == 2 || i == 3 || i == 4 || i == 5;
  }

  /** The rewritten shape no longer occurs anywhere in the result: every occurrence is replaced. */
  lemma NormalizeRemovesShape(s: string, i: nat, k: nat)
    requires Selected(s, i, k)
    ensures !Includes(Normalize(s), Pattern(Vowels[i], k))
  {
    NormalizeSelected(s, i, k);
    if k == 4 {
      RemovesFourthShape(s, i);
    } else {
      RemovesMarkedShape(s, i, k);
    }
  }

  /** Shape 4 (`Vv` -> `v`) leaves no `Vv` behind, since the first shape `VV` is absent. */
  lemma RemovesFourthShape(s: string, i: nat)
    requires Selected(s, i, 4)
    ensures !Includes(ReplaceAll(s, Pattern(Vowels[i], 4), [Vowels[i]]), Pattern(Vowels[i], 4))
  {
    var v := Vowels[i];
    assert UpperVowel(v) != v by { assert i == 0 || i == 1 || i == 2 || i == 3 || i == 4 || i == 5; }
    assert Pattern(v, 1) == [UpperVowel(v), UpperVowel(v)];
    ReplaceAllRemovesPair(s, UpperVowel(v), v);
  }

  /** Shapes 1 to 3 are replaced by a marked vowel, which is not part of the shape. */
  lemma RemovesMarkedShape(s: string, i: nat, k: nat)
    requires i < |Vowels| && 1 <= k <= 3
    ensures !Includes(ReplaceAll(s, Pattern(Vowels[i], k), [ToneTable(Vowels[i])[k]]), Pattern(Vowels[i], k))
  {
    var v := Vowels[i];
    TableMarked(i, k);
    ReplaceAllRemoves(s, Pattern(v, k), ToneTable(v)[k]);
  }

  /** Worked input for the first shape: `mAA` has the first tone. */
  lemma NormalizeExampleFirst()
    ensures Normalize("mAA") == "mā"
  {
    assert Pattern('a', 1) == "AA" && Includes("mAA", "AA");
    assert ReplaceAll("AA", "AA", "ā") == "ā";
  }

  /** Worked input for the second shape: `maa` has the second tone. */
  lemma NormalizeExampleSecond()
    ensures Normalize("maa") == "má"
  {
    IncludesMismatch("maa", Pattern('a', 1));
    assert Pattern('a', 2) == "aa" && Includes("maa", "aa");
    assert ReplaceAll("aa", "aa", "á") == "á";
  }

  /** Worked input for the third shape: `mAaA` has the third tone, although it also holds the fourth shape `Aa`. */
  lemma NormalizeExampleThird()
    ensures Normalize("mAaA") == "mǎ"
  {
    IncludesMismatch("mAaA", Pattern('a', 1));
    IncludesMismatch("mAaA", Pattern('a', 2));
    assert Pattern('a', 3) == "AaA" && Includes("mAaA", "AaA");
    assert ReplaceAll("AaA", "AaA", "ǎ") == "ǎ";
  }

  /** Worked input for the fourth shape: `mAa` loses its mark. */
  lemma NormalizeExampleFourth()
    ensures Normalize("mAa") == "ma"
  {
    IncludesMismatch("mAa", Pattern('a', 1));
    IncludesMismatch("mAa", Pattern('a', 2));
    IncludesMismatch("mAa", Pattern('a', 3));
    assert Pattern('a', 4) == "Aa" && Includes("mAa", "Aa");
    assert ReplaceAll("Aa", "Aa", "a") == "a";
  }

  /** Worked input with two occurrences: both `aa` of `maamaa` are rewritten. */
  lemma NormalizeExampleTwice()
    ensures Normalize("maamaa") == "mámá"
  {
    IncludesMismatch("maamaa", Pattern('a', 1));
    assert Pattern('a', 2) == "aa" && Includes("maamaa", "aa");
    ReplaceAllTwice();
  }

  /** Both occurrences of `aa` in `maamaa` are replaced, left to right. */
  lemma ReplaceAllTwice()
    ensures ReplaceAll("maamaa", "aa", "á") == "mámá"
  {
    assert "aa"[2..] == [] && ReplaceAll("aa", "aa", "á") == "á";
    assert "maa"[0] != 'a' && "maa"[1..] == "aa";
    assert ReplaceAll("maa", "aa", "á") == "má";
    assert "aamaa"[..2] == "aa" && "aamaa"[2..] == "maa";
    assert ReplaceAll("aamaa", "aa", "á") == "ámá";
    assert "maamaa"[0] != 'a' && "maamaa"[1..] == "aamaa";
  }

  // ---------------------------------------------------------------------------
  // The implementation

  /** `parseTone`: the vowel loop exits at the first vowel with a matching shape. */
  method ParseTone(pinyin: string) returns (str: string)
    ensures str == Normalize(pinyin)
  {
    if |pinyin| == 0 {
      return "";
    }
    str := "";
    for idx := 0 to |Vowels|
      invariant str == ""
      invariant NormalizeFrom(pinyin, 0) == NormalizeFrom(pinyin, idx)
    {
      var vowel := Vowels[idx];
      if Includes(pinyin, Pattern(vowel, 1)) {
        str := ReplaceAll(pinyin, Pattern(vowel, 1), [ToneTable(vowel)[1]]);
        break;
      }
      if Includes(pinyin, Pattern(vowel, 2)) {
        str := ReplaceAll(pinyin, Pattern(vowel, 2), [ToneTable(vowel)[2]]);
        break;
      }
      if Includes(pinyin, Pattern(vowel, 3)) {
        str := ReplaceAll(pinyin, Pattern(vowel, 3), [ToneTable(vowel)[3]]);
        break;
      }
      if Includes(pinyin, Pattern(vowel, 4)) {
        str := ReplaceAll(pinyin, Pattern(vowel, 4), [ToneTable(vowel)[0]]);
        break;
      }
    }
  }
}
