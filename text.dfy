/**
 * The answer-comparison helpers: white-space trimming and case folding (ASCII only),
 * `compareStrings`, `isStringIncludedInArray`, and `parseWordLevel` together with the
 * decimal `parseInt` it relies on.
 */
module Text {
  import opened Outcomes

  // ---------------------------------------------------------------------------
  // Trimming

  /** The white-space characters removed by trimming (the ASCII ones). */
  predicate IsSpace(c: char) {
    c == ' ' || c == '\t' || c == '\n' || c == '\r' || c == '\U{000B}' || c == '\U{000C}'
  }

  ghost predicate AllSpace(s: string) {
    forall i :: 0 <= i < |s| ==> IsSpace(s[i])
  }

  /** Drops the leading white space: the result is the suffix that starts at the first non-space. */
  function TrimStart(s: string): (r: string)
    ensures |r| <= |s| && r == s[|s| - |r|..]
    ensures r == [] || !IsSpace(r[0])
    ensures AllSpace(s[..|s| - |r|])
    decreases |s|
  {
    if |s| > 0 && IsSpace(s[0]) then TrimStart(s[1..]) else s
  }

  /** Drops the trailing white space: the result is the prefix that ends at the last non-space. */
  function TrimEnd(s: string): (r: string)
    ensures |r| <= |s| && r == s[..|r|]
    ensures r == [] || !IsSpace(r[|r| - 1])
    ensures AllSpace(s[|r|..])
    decreases |s|
  {
    if |s| > 0 && IsSpace(s[|s| - 1]) then
      var r := TrimEnd(s[..|s| - 1]);
      TrimEndStep(s, r);
      r
    else s
  }

  /** One step of the right trim: a prefix of `s` minus its blank last character is a prefix of `s`. */
  lemma TrimEndStep(s: string, r: string)
    requires |s| > 0 && IsSpace(s[|s| - 1])
    requires |r| <= |s| - 1 && r == s[..|s| - 1][..|r|] && AllSpace(s[..|s| - 1][|r|..])
    ensures r == s[..|r|] && AllSpace(s[|r|..])
  {
    assert s[|r|..] == s[..|s| - 1][|r|..] + [s[|s| - 1]];
  }

  /** `String.prototype.trim` restricted to ASCII white space. */
  function Trim(s: string): (r: string)
    ensures |r| <= |s|
    ensures r == [] || (!IsSpace(r[0]) && !IsSpace(r[|r| - 1]))
  {
    TrimEnd(TrimStart(s))
  }

  /** The input is white space, then its trim, then white space; `k` is where the trim starts. */
  lemma TrimSplits(s: string) returns (k: nat)
    ensures k + |Trim(s)| <= |s| && Trim(s) == s[k..k + |Trim(s)|]
    ensures AllSpace(s[..k]) && AllSpace(s[k + |Trim(s)|..])
  {
    var t := TrimStart(s);
    var e := TrimEnd(t);
    k := |s| - |t|;
    assert Trim(s) == e;
    SliceOfSuffix(s, k, t, e);
    SpaceSuffix(s[k + |e|..], t[|e|..]);
  }

  /** Rewriting a blank string by an equal one keeps it blank (kept apart to keep `TrimSplits` small). */
  lemma SpaceSuffix(a: string, b: string)
    requires a == b && AllSpace(b)
    ensures AllSpace(a)
  {
  }

  /** A prefix `e` of the suffix `t` of `s` that starts at `k` is the slice of `s` at `k`. */
  lemma SliceOfSuffix<T>(s: seq<T>, k: nat, t: seq<T>, e: seq<T>)
    requires k <= |s| && t == s[k..] && |e| <= |t| && e == t[..|e|]
    ensures k + |e| <= |s| && e == s[k..k + |e|] && s[k + |e|..] == t[|e|..]
  {
  }

  lemma {:induction false} TrimStartSkips(p: string, x: string)
    requires AllSpace(p)
    ensures TrimStart(p + x) == TrimStart(x)
    decreases |p|
  {
    if p == [] {
      assert p + x == x;
    } else {
      assert (p + x)[0] == p[0] && IsSpace(p[0]);
      assert (p + x)[1..] == p[1..] + x;
      TrimStartSkips(p[1..], x);
    }
  }

  lemma {:induction false} TrimEndSkips(x: string, q: string)
    requires AllSpace(q)
    ensures TrimEnd(x + q) == TrimEnd(x)
    decreases |q|
  {
    if q == [] {
      assert x + q == x;
    } else {
      var q' := q[..|q| - 1];
      assert (x + q)[|x + q| - 1] == q[|q| - 1] && IsSpace(q[|q| - 1]);
      assert (x + q)[..|x + q| - 1] == x + q';
      TrimEndSkips(x, q');
    }
  }

  /** Trimming a word padded with white space on both sides gives back the word. */
  lemma TrimPadded(p: string, r: string, q: string)
    requires AllSpace(p) && AllSpace(q)
    requires r == [] || (!IsSpace(r[0]) && !IsSpace(r[|r| - 1]))
    ensures Trim(p + r + q) == r
  {
    TrimStartSkipsBefore(p, r, q);
    TrimStartAppend(r, q);
    if r != [] {
      assert TrimStart(r) == r;
      TrimEndSkips(r, q);
      assert TrimEnd(r) == r;
    }
  }

  lemma TrimIdempotent(s: string)
    ensures Trim(Trim(s)) == Trim(s)
  {
    TrimPadded([], Trim(s), []);
    assert [] + Trim(s) + [] == Trim(s);
  }

  // ---------------------------------------------------------------------------
  // Case folding

  predicate IsUpper(c: char) { 'A' <= c <= 'Z' }

  /** `toLowerCase` of one character, restricted to the ASCII letters. */
  function LowerChar(c: char): (r: char)
    ensures !IsUpper(r)
    ensures !IsUpper(c) ==> r == c
    ensures IsUpper(c) ==> r as int == c as int + 32
  {
    if IsUpper(c) then (c as int + 32) as char else c
  }

  function ToLower(s: string): (r: string)
    ensures |r| == |s|
    ensures forall i :: 0 <= i < |r| ==> !IsUpper(r[i])
    ensures forall i :: 0 <= i < |s| ==> r[i] == LowerChar(s[i])
  {
    seq(|s|, i requires 0 <= i < |s| => LowerChar(s[i]))
  }

  /** A string without upper-case letters is its own lower-case form. */
  lemma ToLowerFixes(s: string)
    requires forall i :: 0 <= i < |s| ==> !IsUpper(s[i])
    ensures ToLower(s) == s
  {
  }

  // ---------------------------------------------------------------------------
  // Answer comparison

  /** `compareStrings`: equality after trimming and lower-casing both sides. */
  predicate CompareStrings(a: string, b: string)
    ensures Trim(a) == Trim(b) ==> CompareStrings(a, b)
    ensures CompareStrings(a, b) ==> |Trim(a)| == |Trim(b)|
  {
    ToLower(Trim(a)) == ToLower(Trim(b))
  }

  /** Lower-casing never turns a character into white space or white space into something else. */
  lemma LowerKeepsSpace(c: char)
    ensures IsSpace(LowerChar(c)) <==> IsSpace(c)
  {
  }

  /** Lower-casing commutes with taking a slice. */
  lemma ToLowerSlice(s: string, lo: nat, hi: nat)
    requires lo <= hi <= |s|
    ensures ToLower(s)[lo..hi] == ToLower(s[lo..hi])
  {
  }

  /** Dropping the leading white space commutes with lower-casing. */
  lemma {:induction false} LowerTrimStart(s: string)
    ensures ToLower(TrimStart(s)) == TrimStart(ToLower(s))
    decreases |s|
  {
    var t := ToLower(s);
    if |s| > 0 {
      assert t[0] == LowerChar(s[0]);
      LowerKeepsSpace(s[0]);
      if IsSpace(s[0]) {
        ToLowerSlice(s, 1, |s|);
        assert s[1..|s|] == s[1..] && t[1..|s|] == t[1..];
        LowerTrimStart(s[1..]);
        calc {
          ToLower(TrimStart(s));
          ToLower(TrimStart(s[1..]));
          TrimStart(ToLower(s[1..]));
          TrimStart(t[1..]);
          TrimStart(t);
        }
      } else {
        assert TrimStart(s) == s && TrimStart(t) == t;
      }
    }
  }

  /** Dropping the trailing white space commutes with lower-casing. */
  lemma {:induction false} LowerTrimEnd(s: string)
    ensures ToLower(TrimEnd(s)) == TrimEnd(ToLower(s))
    decreases |s|
  {
    var t, n := ToLower(s), |s| - 1;
    if |s| > 0 {
      assert t[n] == LowerChar(s[n]);
      LowerKeepsSpace(s[n]);
      if IsSpace(s[n]) {
        ToLowerSlice(s, 0, n);
        LowerTrimEnd(s[..n]);
        calc {
          ToLower(TrimEnd(s));
          ToLower(TrimEnd(s[..n]));
          TrimEnd(ToLower(s[..n]));
          TrimEnd(t[..n]);
          TrimEnd(t);
        }
      } else {
        assert TrimEnd(s) == s && TrimEnd(t) == t;
      }
    }
  }

  /** `compareStrings` ignores case: strings with the same lower-case form compare equal. */
  lemma CompareIgnoresCase(a: string, b: string)
    requires ToLower(a) == ToLower(b)
    ensures CompareStrings(a, b)
  {
    LowerTrimStart(a);
    LowerTrimEnd(TrimStart(a));
    LowerTrimStart(b);
    LowerTrimEnd(TrimStart(b));
  }

  /** `CompareStrings` is an equivalence relation. */
  lemma CompareIsEquivalence(a: string, b: string, c: string)
    ensures CompareStrings(a, a)
    ensures CompareStrings(a, b) == CompareStrings(b, a)
    ensures CompareStrings(a, b) && CompareStrings(b, c) ==> CompareStrings(a, c)
  {
  }

  /** Trailing white space survives dropping the leading white space, unless nothing else is left. */
  lemma {:induction false} TrimStartAppend(a: string, q: string)
    requires AllSpace(q)
    ensures TrimStart(a + q) == if TrimStart(a) == [] then [] else TrimStart(a) + q
    decreases |a|
  {
    if a == [] {
      assert a + q == q + [];
      TrimStartSkips(q, []);
    } else if IsSpace(a[0]) {
      assert (a + q)[0] == a[0];
      assert (a + q)[1..] == a[1..] + q;
      TrimStartAppend(a[1..], q);
    } else {
      assert (a + q)[0] == a[0];
    }
  }

  /** Leading white space before `a + q` is dropped. */
  lemma {:induction false} TrimStartSkipsBefore(p: string, a: string, q: string)
    requires AllSpace(p)
    ensures TrimStart(p + a + q) == TrimStart(a + q)
    decreases |p|
  {
    if p == [] {
      assert p + a + q == a + q;
    } else {
      assert (p + a + q)[0] == p[0];
      assert (p + a + q)[1..] == p[1..] + a + q;
      TrimStartSkipsBefore(p[1..], a, q);
    }
  }

  /** Extra white space around a string does not survive trimming. */
  lemma TrimAbsorbsPadding(a: string, p: string, q: string)
    requires AllSpace(p) && AllSpace(q)
    ensures Trim(p + a + q) == Trim(a)
  {
    TrimStartSkipsBefore(p, a, q);
    TrimStartAppend(a, q);
    if TrimStart(a) != [] {
      TrimEndSkips(TrimStart(a), q);
    }
  }

  /** White space typed around an answer never changes the comparison. */
  lemma CompareIgnoresPadding(a: string, b: string, p: string, q: string)
    requires AllSpace(p) && AllSpace(q)
    ensures CompareStrings(p + a + q, b) == CompareStrings(a, b)
  {
    TrimAbsorbsPadding(a, p, q);
  }

  /** Some element after the first satisfies `f` exactly when some element of the tail does. */
  lemma ExistsInTail<T>(arr: seq<T>, f: T -> bool)
    requires |arr| > 0
    ensures (exists i :: 1 <= i < |arr| && f(arr[i])) <==> (exists i :: 0 <= i < |arr| - 1 && f(arr[1..][i]))
  {
    if exists i :: 1 <= i < |arr| && f(arr[i]) {
      var i :| 1 <= i < |arr| && f(arr[i]);
      assert arr[1..][i - 1] == arr[i];
    }
    if exists i :: 0 <= i < |arr| - 1 && f(arr[1..][i]) {
      var i :| 0 <= i < |arr| - 1 && f(arr[1..][i]);
      assert arr[1..][i] == arr[i + 1];
    }
  }

  /** `isStringIncludedInArray`: some element of `arr` compares equal to `str`. */
  function IsStringIncludedInArray(arr: seq<string>, str: string): (r: bool)
    ensures r <==> exists i :: 0 <= i < |arr| && CompareStrings(arr[i], str)
  {
    if arr == [] then false
    else if CompareStrings(arr[0], str) then true
    else
      var rest := IsStringIncludedInArray(arr[1..], str);
      ExistsInTail(arr, x => CompareStrings(x, str));
      rest
  }

  // ---------------------------------------------------------------------------
  // Decimal integers

  predicate IsDigit(c: char) { '0' <= c <= '9' }

  ghost predicate AllDigits(s: string) {
    forall i :: 0 <= i < |s| ==> IsDigit(s[i])
  }

  /** The longest prefix of `s` made of decimal digits. */
  function DigitPrefix(s: string): (r: string)
    ensures r <= s && AllDigits(r)
    ensures |r| == |s| || !IsDigit(s[|r|])
  {
    if |s| > 0 && IsDigit(s[0]) then
      var rest := DigitPrefix(s[1..]);
      assert [s[0]] + rest <= s;
      [s[0]] + rest
    else []
  }

  /** The value of a string of decimal digits, most significant first. */
  function DigitsValue(ds: string): nat
    requires AllDigits(ds)
  {
    if ds == [] then 0 else DigitsValue(ds[..|ds| - 1]) * 10 + (ds[|ds| - 1] as int - '0' as int)
  }

  /** The value of the longest run of digits at the start of `t`, if there is one. */
  function Unsigned(t: string): (r: Option<nat>)
    ensures r.None? <==> t == [] || !IsDigit(t[0])
  {
    var ds := DigitPrefix(t);
    if ds == [] then None else Some(DigitsValue(ds))
  }

  /** One optional sign, then the unsigned value. */
  function Signed(t: string): Option<int> {
    if |t| > 0 && t[0] == '-' then
      match Unsigned(t[1..])
      case None => None
      case Some(v) => Some(0 - v)
    else if |t| > 0 && t[0] == '+' then Unsigned(t[1..])
    else Unsigned(t)
  }

  /**
   * `parseInt(s, 10)`: leading white space is skipped, one sign is accepted, and the
   * longest run of digits that follows is the value; without a digit the result is NaN
   * (here `None`).
   */
  function ParseInt(s: string): (r: Option<int>)
    ensures r.None? <==> AfterSign(TrimStart(s)) == [] || !IsDigit(AfterSign(TrimStart(s))[0])
  {
    Signed(TrimStart(s))
  }

  function DigitChar(d: nat): (c: char)
    requires d < 10
    ensures IsDigit(c) && c as int - '0' as int == d
  {
    ('0' as int + d) as char
  }

  /** The decimal numeral of a natural number. */
  function ShowNat(n: nat): (s: string)
    ensures |s| > 0 && AllDigits(s)
  {
    if n < 10 then [DigitChar(n)] else ShowNat(n / 10) + [DigitChar(n % 10)]
  }

  /** The decimal numeral of an integer, as `toString` writes it. */
  function Show(n: int): string {
    if n < 0 then "-" + ShowNat(-n) else ShowNat(n)
  }

  lemma {:induction false} DigitsValueShowNat(n: nat)
    ensures DigitsValue(ShowNat(n)) == n
  {
    if n >= 10 {
      var s := ShowNat(n);
      assert s[..|s| - 1] == ShowNat(n / 10);
      DigitsValueShowNat(n / 10);
    }
  }

  lemma DigitPrefixAll(s: string)
    requires AllDigits(s)
    ensures DigitPrefix(s) == s
  {
  }

  /** A string that does not start with white space is its own `TrimStart`. */
  lemma TrimStartUnpadded(s: string)
    requires s == [] || !IsSpace(s[0])
    ensures TrimStart(s) == s
  {
  }

  /** A run of digits is read whole. */
  lemma UnsignedDigits(ds: string)
    requires |ds| > 0 && AllDigits(ds)
    ensures Unsigned(ds) == Some(DigitsValue(ds))
  {
    DigitPrefixAll(ds);
  }

  /** An unpadded run of digits parses to its value. */
  lemma ParseIntDigits(ds: string)
    requires |ds| > 0 && AllDigits(ds)
    ensures ParseInt(ds) == Some(DigitsValue(ds))
  {
    TrimStartUnpadded(ds);
    UnsignedDigits(ds);
    SignedUnsigned(ds);
  }

  /** Without a leading sign, the signed reading is the unsigned one. */
  lemma SignedUnsigned(t: string)
    requires |t| > 0 && IsDigit(t[0])
    ensures Signed(t) == Unsigned(t)
  {
  }

  /** A minus sign followed by an unpadded run of digits parses to the negated value. */
  lemma ParseIntNegative(s: string, ds: string)
    requires |ds| > 0 && AllDigits(ds)
    requires |s| > 0 && s[0] == '-' && s[1..] == ds
    ensures ParseInt(s) == Some(0 - DigitsValue(ds))
  {
    TrimStartUnpadded(s);
    UnsignedDigits(ds);
  }

  /** The numeral of a negative number is a minus sign and the numeral of its magnitude. */
  lemma ShowNegative(n: int)
    requires n < 0
    ensures |Show(n)| > 0 && Show(n)[0] == '-' && Show(n)[1..] == ShowNat(-n)
  {
  }

  /** A minus sign followed by the numeral of `m` parses to `-m`. */
  lemma ParseIntMinusNumeral(s: string, m: nat)
    requires |s| > 0 && s[0] == '-' && s[1..] == ShowNat(m)
    ensures ParseInt(s) == Some(0 - m)
  {
    ParseIntNegative(s, ShowNat(m));
    DigitsValueShowNat(m);
  }

  lemma ParseIntShowNegative(n: int)
    requires n < 0
    ensures ParseInt(Show(n)) == Some(n)
  {
    ShowNegative(n);
    ParseIntMinusNumeral(Show(n), -n);
  }

  lemma ParseIntShowNat(n: nat)
    ensures ParseInt(Show(n)) == Some(n)
  {
    ParseIntDigits(ShowNat(n));
    DigitsValueShowNat(n);
  }

  /** `parseInt` reads back every numeral that `Show` writes. */
  lemma ParseIntShow(n: int)
    ensures ParseInt(Show(n)) == Some(n)
  {
    if n < 0 {
      ParseIntShowNegative(n);
    } else {
      ParseIntShowNat(n);
    }
  }

  // ---------------------------------------------------------------------------
  // `parseInt` without a radix

  /** What follows the one optional sign. */
  function AfterSign(t: string): string {
    if |t| > 0 && (t[0] == '-' || t[0] == '+') then t[1..] else t
  }

  /** `0x` or `0X` in front: without a radix, `parseInt` then reads base 16. */
  predicate HexPrefixed(u: string) {
    |u| >= 2 && u[0] == '0' && (u[1] == 'x' || u[1] == 'X')
  }

  /** The value of a hexadecimal digit, if `c` is one. */
  function HexDigit(c: char): (r: Option<nat>)
    ensures r.Some? ==> r.value < 16
    ensures IsDigit(c) ==> r == Some(c as int - '0' as int)
    ensures c == 'x' || c == 'X' || c == 'g' ==> r.None?
  {
    if IsDigit(c) then Some(c as int - '0' as int)
    else if 'a' <= c <= 'f' then Some(c as int - 'a' as int + 10)
    else if 'A' <= c <= 'F' then Some(c as int - 'A' as int + 10)
    else None
  }

  /** The length of the longest run of hexadecimal digits at the start of `v`. */
  function HexRun(v: string): (n: nat)
    ensures n <= |v|
    ensures forall i :: 0 <= i < n ==> HexDigit(v[i]).Some?
    ensures n == |v| || HexDigit(v[n]).None?
  {
    if |v| > 0 && HexDigit(v[0]).Some? then
      var n := HexRun(v[1..]);
      assert forall i :: 1 <= i < n + 1 ==> v[i] == v[1..][i - 1];
      n + 1
    else 0
  }

  /** The value of the hexadecimal digits `v[..n]`, most significant first. */
  function HexValue(v: string, n: nat): nat
    requires n <= |v| && forall i :: 0 <= i < n ==> HexDigit(v[i]).Some?
  {
    if n == 0 then 0 else HexValue(v, n - 1) * 16 + HexDigit(v[n - 1]).value
  }

  /** The value of the longest run of hexadecimal digits at the start of `v`, if there is one. */
  function HexUnsigned(v: string): (r: Option<nat>)
    ensures r.None? <==> v == [] || HexDigit(v[0]).None?
  {
    var n := HexRun(v);
    if n == 0 then None else Some(HexValue(v, n))
  }

  /**
   * `parseInt(s)` with no radix: as `parseInt(s, 10)`, except that `0x` or `0X` after the
   * optional sign selects base 16 for the digits that follow.
   */
  function ParseIntAuto(s: string): (r: Option<int>)
    ensures HexPrefixed(AfterSign(TrimStart(s))) ==>
      (r.None? <==> |AfterSign(TrimStart(s))| == 2 || HexDigit(AfterSign(TrimStart(s))[2]).None?)
  {
    var t := TrimStart(s);
    var u := AfterSign(t);
    if HexPrefixed(u) then
      match HexUnsigned(u[2..])
      case None => None
      case Some(v) => if t[0] == '-' then Some(0 - v) else Some(v)
    else ParseInt(s)
  }

  /**
   * Where the two readings part: without a hex prefix they agree, and with one the
   * base-10 reading stops at the `x` and gives 0.
   */
  lemma ParseIntAutoDecimal(s: string)
    ensures !HexPrefixed(AfterSign(TrimStart(s))) ==> ParseIntAuto(s) == ParseInt(s)
    ensures HexPrefixed(AfterSign(TrimStart(s))) ==> ParseInt(s) == Some(0)
  {
    var t := TrimStart(s);
    var u := AfterSign(t);
    if HexPrefixed(u) {
      var ds := DigitPrefix(u);
      assert |ds| > 0 && ds[0] == '0';
      DigitPrefixStops(u, 1);
      assert ds == ['0'] && DigitsValue(['0']) == 0;
      assert Unsigned(u) == Some(0);
    }
  }

  /** A run of decimal digits carries no hex prefix. */
  lemma DigitsNotHex(u: string)
    requires AllDigits(u)
    ensures !HexPrefixed(u)
  {
    if |u| >= 2 {
      assert IsDigit(u[1]);
    }
  }

  /** A decimal numeral carries no hex prefix. */
  lemma ShowNotHex(n: int)
    ensures !HexPrefixed(AfterSign(TrimStart(Show(n))))
  {
    var t := Show(n);
    if n < 0 {
      ShowNegative(n);
      TrimStartUnpadded(t);
      assert AfterSign(t) == ShowNat(-n);
      DigitsNotHex(ShowNat(-n));
    } else {
      var u := ShowNat(n);
      assert t == u && IsDigit(u[0]);
      TrimStartUnpadded(u);
      assert AfterSign(u) == u;
      DigitsNotHex(u);
    }
  }

  /** The run of digits ends at the first character that is not a digit. */
  lemma DigitPrefixStops(u: string, j: nat)
    requires j < |u| && !IsDigit(u[j])
    ensures |DigitPrefix(u)| <= j
  {
  }

  /** Worked input: `0x10` is sixteen. */
  lemma ParseIntAutoHex()
    ensures ParseIntAuto("0x10") == Some(16)
  {
    var v := "10";
    assert TrimStart("0x10") == "0x10" && AfterSign("0x10") == "0x10" && "0x10"[2..] == v;
    assert v[1..] == "0" && v[1..][1..] == "";
    assert HexRun(v[1..][1..]) == 0 && HexRun(v[1..]) == 1 && HexRun(v) == 2;
    assert HexValue(v, 1) == 1;
  }

  /** Worked input: `-0x5` is minus five. */
  lemma ParseIntAutoNegativeHex()
    ensures ParseIntAuto("-0x5") == Some(-5)
  {
    TrimStartUnpadded("-0x5");
    assert AfterSign("-0x5") == "0x5" && "0x5"[2..] == "5";
    HexOneDigit("5");
  }

  /** Worked input: `0x5` is five without a radix, and 0 in base 10. */
  lemma ParseIntAutoHexFive()
    ensures ParseIntAuto("0x5") == Some(5)
    ensures ParseInt("0x5") == Some(0)
  {
    TrimStartUnpadded("0x5");
    assert AfterSign("0x5") == "0x5" && "0x5"[2..] == "5";
    HexOneDigit("5");
    ParseIntAutoDecimal("0x5");
  }

  /** A single hexadecimal digit is worth that digit. */
  lemma HexOneDigit(v: string)
    requires |v| == 1 && HexDigit(v[0]).Some?
    ensures HexUnsigned(v) == HexDigit(v[0])
  {
    assert v[1..] == [] && HexRun(v[1..]) == 0;
    assert HexRun(v) == 1;
    assert HexValue(v, 1) == HexValue(v, 0) * 16 + HexDigit(v[0]).value;
  }

  /** Worked inputs: a bare prefix, or a prefix without a hex digit after it, is NaN. */
  lemma ParseIntAutoNoDigits()
    ensures ParseIntAuto("0x") == None
    ensures ParseIntAuto("0xg") == None
  {
    assert TrimStart("0x") == "0x" && AfterSign("0x") == "0x";
    assert TrimStart("0xg") == "0xg" && AfterSign("0xg") == "0xg";
  }

  /** `parseWordLevel`: the parsed integer if it lies in [-1, 10], and an error otherwise. */
  function ParseWordLevel(level: string): (r: Result<int>)
    ensures r.Ok? ==> -1 <= r.value <= 10 && ParseInt(level) == Some(r.value)
    ensures r.Err? ==> r.error == InvalidLevel
    ensures ParseInt(level).Some? && -1 <= ParseInt(level).value <= 10 ==> r == Ok(ParseInt(level).value)
  {
    match ParseInt(level)
    case None => Err(InvalidLevel)
    case Some(n) => if n < -1 || n > 10 then Err(InvalidLevel) else Ok(n)
  }

  /** Every level written out in decimal parses back to itself exactly when it lies in [-1, 10]. */
  lemma ParseWordLevelShow(n: int)
    ensures ParseWordLevel(Show(n)) == if -1 <= n <= 10 then Ok(n) else Err(InvalidLevel)
  {
    ParseIntShow(n);
  }
}
