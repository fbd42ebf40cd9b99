/**
 * Character classes and string primitives the store relies on: Python's
 * `str.lower`/`str.upper`/`str.strip`/`str.split`, the regular expression
 * character class `[0-9a-zA-Zа-яА-ЯёЁ]`, SQLite's `LOWER()`, substring tests
 * and the Levenshtein distance imported from the `Levenshtein` package.
 */
module Text {

  /** The class `[0-9a-zA-Zа-яА-ЯёЁ]` used by every tokenizer of the store. */
  predicate IsWordChar(c: char) {
    ('0' <= c <= '9') || ('a' <= c <= 'z') || ('A' <= c <= 'Z') ||
    ('\U{0430}' <= c <= '\U{044F}') || ('\U{0410}' <= c <= '\U{042F}') ||
    c == '\U{0451}' || c == '\U{0401}'
  }

  /** Python's `str.isspace` (what `strip()`, `split()` and `\s` treat as white space). */
  predicate IsSpace(c: char) {
    c == ' ' || ('\t' <= c <= '\r') || ('\U{1C}' <= c <= '\U{1F}') ||
    c == '\U{85}' || c == '\U{A0}' || c == '\U{1680}' || ('\U{2000}' <= c <= '\U{200A}') ||
    c == '\U{2028}' || c == '\U{2029}' || c == '\U{202F}' || c == '\U{205F}' || c == '\U{3000}'
  }

  /** Python's `str.lower` on ASCII and the basic Cyrillic block (U+0400..U+042F). */
  function LowerChar(c: char): char {
    if 'A' <= c <= 'Z' then (c as int + 32) as char
    else if '\U{0400}' <= c <= '\U{040F}' then (c as int + 0x50) as char
    else if '\U{0410}' <= c <= '\U{042F}' then (c as int + 0x20) as char
    else c
  }

  /** Python's `str.upper` on ASCII and the basic Cyrillic block. */
  function UpperChar(c: char): char {
    if 'a' <= c <= 'z' then (c as int - 32) as char
    else if '\U{0450}' <= c <= '\U{045F}' then (c as int - 0x50) as char
    else if '\U{0430}' <= c <= '\U{044F}' then (c as int - 0x20) as char
    else c
  }

  /** SQLite's built-in `LOWER()`: folds ASCII letters only. */
  function SqlLowerChar(c: char): char {
    if 'A' <= c <= 'Z' then (c as int + 32) as char else c
  }

  function Lower(s: string): (r: string)
    ensures |r| == |s| && forall i :: 0 <= i < |s| ==> r[i] == LowerChar(s[i])
  {
    seq(|s|, i requires 0 <= i < |s| => LowerChar(s[i]))
  }

  function SqlLower(s: string): (r: string)
    ensures |r| == |s| && forall i :: 0 <= i < |s| ==> r[i] == SqlLowerChar(s[i])
  {
    seq(|s|, i requires 0 <= i < |s| => SqlLowerChar(s[i]))
  }

  /** Lower-casing twice is lower-casing once. */
  lemma LowerIdempotent(s: string)
    ensures Lower(Lower(s)) == Lower(s)
  {
    assert forall i :: 0 <= i < |s| ==> LowerChar(LowerChar(s[i])) == LowerChar(s[i]);
  }

  /** Lower-casing never turns a white-space character into a visible one or back. */
  lemma LowerCharKeepsClasses(c: char)
    ensures IsSpace(LowerChar(c)) == IsSpace(c)
    ensures IsWordChar(LowerChar(c)) == IsWordChar(c)
  {
  }

  // ----- prefixes, suffixes and substrings -----

  predicate StartsWith(s: string, prefix: string) {
    |prefix| <= |s| && s[..|prefix|] == prefix
  }

  predicate EndsWith(s: string, suffix: string) {
    |suffix| <= |s| && s[|s| - |suffix|..] == suffix
  }

  /** Python's `needle in hay` on strings. */
  predicate Contains(hay: string, needle: string) {
    exists i | 0 <= i <= |hay| - |needle| :: OccursAt(hay, needle, i)
  }

  predicate OccursAt(hay: string, needle: string, i: nat) {
    i + |needle| <= |hay| && hay[i..i + |needle|] == needle
  }

  lemma ContainsSelf(s: string)
    ensures Contains(s, s)
  {
    assert OccursAt(s, s, 0);
  }

  // ----- white space -----

  predicate IsBlank(s: string) {
    forall i :: 0 <= i < |s| ==> IsSpace(s[i])
  }

  function TrimStart(s: string): (r: string)
    ensures r == [] || !IsSpace(r[0])
    ensures |r| <= |s| && r == s[|s| - |r|..]
    ensures IsBlank(s[..|s| - |r|])
  {
    if s != [] && IsSpace(s[0]) then
      var r := TrimStart(s[1..]);
      assert s[..|s| - |r|] == [s[0]] + s[1..][..|s[1..]| - |r|];
      r
    else s
  }

  function TrimEnd(s: string): (r: string)
    ensures r == [] || !IsSpace(r[|r| - 1])
    ensures |r| <= |s| && r == s[..|r|]
    ensures IsBlank(s[|r|..])
  {
    if s != [] && IsSpace(s[|s| - 1]) then
      var r := TrimEnd(s[..|s| - 1]);
      assert s[|r|..] == s[..|s| - 1][|r|..] + [s[|s| - 1]];
      r
    else s
  }

  /** Python's `str.strip()`: the result neither starts nor ends with white space, and is empty just for blank input. */
  function Strip(s: string): (r: string)
    ensures r == [] || (!IsSpace(r[0]) && !IsSpace(r[|r| - 1]))
    ensures |r| <= |s|
    ensures r == [] <==> IsBlank(s)
  {
    var a := TrimStart(s);
    var r := TrimEnd(a);
    StripEmptyIff(s, a, r);
    r
  }

  lemma StripEmptyIff(s: string, a: string, r: string)
    requires a == TrimStart(s) && r == TrimEnd(a)
    ensures r == [] <==> IsBlank(s)
  {
    if r == [] {
      assert a[0..] == a;
      assert s[..|s|] == s;
    }
  }

  /** What `strip` keeps is a contiguous slice of its input. */
  lemma StripIsSlice(s: string)
    ensures Contains(s, Strip(s))
    ensures forall k :: 0 <= k < |Strip(s)| ==> Strip(s)[k] in s
  {
    var a := TrimStart(s);
    var r := Strip(s);
    var i := |s| - |a|;
    assert r == a[..|r|];
    assert s[i..i + |r|] == r;
    assert OccursAt(s, r, i);
    forall k | 0 <= k < |r| ensures r[k] in s {
      assert r[k] == s[i + k];
    }
  }

  /** Number of leading characters that satisfy `p`. */
  function LeadingCount(s: string, p: char -> bool): (n: nat)
    ensures n <= |s|
    ensures forall i :: 0 <= i < n ==> p(s[i])
    ensures n < |s| ==> !p(s[n])
  {
    if s == [] || !p(s[0]) then 0 else 1 + LeadingCount(s[1..], p)
  }

  /** The maximal non-empty runs of characters satisfying `inRun`, left to right. */
  function Runs(s: string, inRun: char -> bool): (r: seq<string>)
    ensures forall k :: 0 <= k < |r| ==> r[k] != [] && forall i :: 0 <= i < |r[k]| ==> inRun(r[k][i])
    decreases |s|
  {
    if s == [] then []
    else if !inRun(s[0]) then Runs(s[1..], inRun)
    else
      var n := LeadingCount(s, inRun);
      [s[..n]] + Runs(s[n..], inRun)
  }

  /** A text made of one run is that run. */
  lemma RunsOfRun(w: string, inRun: char -> bool)
    requires w != [] && forall i :: 0 <= i < |w| ==> inRun(w[i])
    ensures Runs(w, inRun) == [w]
  {
    assert LeadingCount(w, inRun) == |w|;
    assert w[..|w|] == w && w[|w|..] == [];
  }

  /**
   * A character outside the runs splits a text: the runs of `x + [c] + y` are
   * those of `x` followed by those of `y`. With `RunsOfRun` and `Runs([]) ==
   * []` this fixes `Runs` on every text: the maximal runs, left to right.
   */
  lemma {:induction false} RunsSplit(x: string, c: char, y: string, inRun: char -> bool)
    requires !inRun(c)
    ensures Runs(x + [c] + y, inRun) == Runs(x, inRun) + Runs(y, inRun)
    decreases |x|
  {
    var s := x + [c] + y;
    if x == [] {
      assert s[1..] == y;
    } else if !inRun(x[0]) {
      assert s[1..] == x[1..] + [c] + y;
      RunsSplit(x[1..], c, y, inRun);
    } else {
      var m := LeadingCount(x, inRun);
      assert s[m] == if m < |x| then x[m] else c;
      assert LeadingCount(s, inRun) == m;
      assert s[..m] == x[..m];
      if m == |x| {
        assert s[m..] == [c] + y && ([c] + y)[1..] == y;
        assert x[m..] == [];
      } else {
        assert s[m..] == x[m..] + [c] + y;
        RunsSplit(x[m..], c, y, inRun);
      }
    }
  }

  /**
   * `re.sub(r"[^…]+", " ", s)`: every maximal run of characters outside `keep`
   * becomes one space; kept characters are copied.
   */
  function ReplaceRuns(s: string, keep: char -> bool): (r: string)
    ensures forall i :: 0 <= i < |r| ==> keep(r[i]) || r[i] == ' '
    ensures |r| <= |s|
    ensures r == [] <==> s == []
    ensures s != [] ==> r[0] == (if keep(s[0]) then s[0] else ' ')
    ensures s != [] && keep(s[|s| - 1]) ==> r[|r| - 1] == s[|s| - 1]
    ensures !keep(' ') ==> forall i :: 0 <= i < |r| - 1 && r[i] == ' ' ==> keep(r[i + 1])
    decreases |s|
  {
    if s == [] then []
    else if keep(s[0]) then
      var rest := ReplaceRuns(s[1..], keep);
      assert s[1..] != [] ==> s[1..][|s[1..]| - 1] == s[|s| - 1];
      [s[0]] + rest
    else
      var n := LeadingCount(s, c => !keep(c));
      assert n > 0;
      assert n < |s| ==> s[n..][0] == s[n];
      assert n < |s| ==> s[n..][|s[n..]| - 1] == s[|s| - 1];
      " " + ReplaceRuns(s[n..], keep)
  }

  /** No word character is white space. */
  lemma WordCharNotSpace(c: char)
    requires IsWordChar(c) || c == 'е'
    ensures !IsSpace(c)
  {
  }

  /** A string made only of kept characters comes out of `ReplaceRuns` unchanged. */
  lemma {:induction false} ReplaceRunsKeeps(s: string, keep: char -> bool)
    requires forall i :: 0 <= i < |s| ==> keep(s[i])
    ensures ReplaceRuns(s, keep) == s
    decreases |s|
  {
    if s != [] {
      ReplaceRunsKeeps(s[1..], keep);
      assert [s[0]] + s[1..] == s;
    }
  }

  /** `re.sub(r"\s+", " ", s)`. */
  function CollapseSpaces(s: string): (r: string)
    ensures forall i :: 0 <= i < |r| && IsSpace(r[i]) ==> r[i] == ' '
    ensures forall i :: 0 <= i < |r| - 1 && IsSpace(r[i]) ==> !IsSpace(r[i + 1])
    ensures |r| <= |s|
    ensures r == [] <==> s == []
    ensures s != [] && !IsSpace(s[0]) ==> r[0] == s[0]
    ensures s != [] && !IsSpace(s[|s| - 1]) ==> r[|r| - 1] == s[|s| - 1]
  {
    ReplaceRuns(s, c => !IsSpace(c))
  }

  // ----- normalize_text -----

  /** Approximation of the regular-expression `\w` class (used by `\b`): word characters, `_` and Cyrillic letters. */
  predicate IsRegexWordChar(c: char) {
    IsWordChar(c) || c == '_' || ('\U{0400}' <= c <= '\U{045F}')
  }

  /** The letters of `spo2`, either case. */
  predicate IsLetterS(c: char) { c == 's' || c == 'S' }
  predicate IsLetterP(c: char) { c == 'p' || c == 'P' }
  predicate IsLetterO(c: char) { c == 'o' || c == 'O' }

  /** A whole-word, case-insensitive `spo2` starts at position `i`. */
  predicate Spo2At(s: string, i: nat) {
    i + 4 <= |s| &&
    IsLetterS(s[i]) && IsLetterP(s[i + 1]) && IsLetterO(s[i + 2]) && s[i + 3] == '2' &&
    (i == 0 || !IsRegexWordChar(s[i - 1])) &&
    (i + 4 == |s| || !IsRegexWordChar(s[i + 4]))
  }

  /** `re.sub(r'\bsp[oO]2\b', 'SPO2', s[i..], flags=re.IGNORECASE)`, scanning left to right. */
  function Spo2From(s: string, i: nat): (r: string)
    requires i <= |s|
    ensures |r| == |s| - i
    decreases |s| - i
  {
    if i == |s| then []
    else if Spo2At(s, i) then "SPO2" + Spo2From(s, i + 4)
    else [s[i]] + Spo2From(s, i + 1)
  }

  /** The rewrite keeps white space where it is and puts none where there was none. */
  lemma {:induction false} Spo2FromSpaces(s: string, i: nat)
    requires i <= |s|
    ensures var r := Spo2From(s, i);
      forall k :: 0 <= k < |r| ==> IsSpace(r[k]) == IsSpace(s[i + k]) && (IsSpace(s[i + k]) ==> r[k] == s[i + k])
    decreases |s| - i
  {
    if i < |s| {
      var r := Spo2From(s, i);
      Spo2FromStep(s, i);
      if Spo2At(s, i) {
        Spo2FromSpaces(s, i + 4);
        assert forall k :: 4 <= k < |r| ==> r[k] == Spo2From(s, i + 4)[k - 4];
      } else {
        Spo2FromSpaces(s, i + 1);
        assert forall k :: 1 <= k < |r| ==> r[k] == Spo2From(s, i + 1)[k - 1];
      }
    }
  }

  /** A cleaned text: non-empty, no white space at either end, only single spaces inside. */
  predicate Tidy(t: string) {
    t != [] && !IsSpace(t[0]) && !IsSpace(t[|t| - 1]) &&
    (forall i :: 0 <= i < |t| && IsSpace(t[i]) ==> t[i] == ' ') &&
    (forall i :: 0 <= i < |t| - 1 && IsSpace(t[i]) ==> !IsSpace(t[i + 1]))
  }

  /** Stripping and then collapsing white-space runs leaves a tidy text, unless nothing is left. */
  lemma StripCollapseTidy(s: string)
    requires CollapseSpaces(Strip(s)) != []
    ensures Tidy(CollapseSpaces(Strip(s)))
  {
  }

  /** `s[0].upper() + s[1:]`. */
  function Capitalize(s: string): (r: string)
    ensures |r| == |s|
    ensures forall k :: 0 < k < |s| ==> r[k] == s[k]
  {
    if s == [] then [] else [UpperChar(s[0])] + s[1..]
  }

  lemma CapitalizeTidy(s: string)
    requires Tidy(s)
    ensures Tidy(Capitalize(s))
  {
    var r := Capitalize(s);
    assert r[0] == UpperChar(s[0]) && !IsSpace(r[0]);
    assert forall k :: 0 <= k < |r| ==> IsSpace(r[k]) == IsSpace(s[k]);
  }

  lemma Spo2Tidy(s: string)
    requires Tidy(s)
    ensures Tidy(Spo2From(s, 0))
  {
    Spo2FromSpaces(s, 0);
  }

  /**
   * `normalize_text`: strip, collapse white-space runs to one space, upper-case
   * the first character and spell `spo2` as `SPO2`. The result is empty just
   * for blank input, otherwise tidy, and never longer than the input.
   */
  function NormalizeText(value: string): (r: string)
    ensures |r| <= |value|
    ensures r == [] <==> IsBlank(value)
    ensures r != [] ==> Tidy(r)
  {
    if value == [] then value
    else
      var collapsed := CollapseSpaces(Strip(value));
      if collapsed == [] then []
      else
        StripCollapseTidy(value);
        CapitalizeTidy(collapsed);
        Spo2Tidy(Capitalize(collapsed));
        Spo2From(Capitalize(collapsed), 0)
  }

  /** The text `normalize_text` hands to its `spo2` rewrite: stripped, collapsed and capitalised. */
  function Capitalized(value: string): string {
    Capitalize(CollapseSpaces(Strip(value)))
  }

  /** Whole-word `spo2` matches never overlap: a match excludes another in the next three positions. */
  lemma Spo2Apart(s: string, p: nat, i: nat)
    requires p < i && Spo2At(s, p) && Spo2At(s, i)
    ensures p + 4 <= i
  {
    assert forall k :: p < k < p + 4 ==> !IsLetterS(s[k]);
  }

  /** One step of the scan: a match is replaced, any other character is copied. */
  lemma Spo2FromStep(s: string, j: nat)
    requires j < |s|
    ensures Spo2At(s, j) ==> Spo2From(s, j) == "SPO2" + Spo2From(s, j + 4)
    ensures !Spo2At(s, j) ==> Spo2From(s, j) == [s[j]] + Spo2From(s, j + 1)
  {
  }

  /** The left-to-right scan from `j` reaches position `i` unless a match it replaces straddles `i`. */
  lemma {:induction false} Spo2FromReaches(s: string, j: nat, i: nat)
    requires j <= i <= |s|
    requires forall p :: j <= p < i < p + 4 ==> !Spo2At(s, p)
    ensures forall d :: 0 <= d < |s| - i ==> Spo2From(s, j)[i - j + d] == Spo2From(s, i)[d]
    decreases i - j
  {
    if j < i {
      Spo2FromStep(s, j);
      if Spo2At(s, j) {
        Spo2FromReaches(s, j + 4, i);
      } else {
        Spo2FromReaches(s, j + 1, i);
      }
    }
  }

  /** The scan from `j` rewrites every whole-word `spo2` at or after `j`: matches never overlap. */
  lemma Spo2FromAt(s: string, j: nat, i: nat)
    requires j <= i && Spo2At(s, i)
    ensures Spo2From(s, j)[i - j..i - j + 4] == "SPO2"
  {
    forall p | j <= p < i < p + 4
      ensures !Spo2At(s, p)
    {
      if Spo2At(s, p) {
        Spo2Apart(s, p, i);
      }
    }
    Spo2FromReaches(s, j, i);
    Spo2FromStep(s, i);
    var r, u := Spo2From(s, j), Spo2From(s, i);
    assert forall d :: 0 <= d < 4 ==> u[d] == "SPO2"[d];
    var w := r[i - j..i - j + 4];
    assert forall d :: 0 <= d < 4 ==> w[d] == r[i - j + d];
  }

  /** A character no whole-word `spo2` covers is copied unchanged. */
  lemma {:induction false} Spo2FromKeeps(s: string, j: nat, k: nat)
    requires j <= k < |s|
    requires forall i :: j <= i <= k < i + 4 ==> !Spo2At(s, i)
    ensures Spo2From(s, j)[k - j] == s[k]
    decreases k - j
  {
    if Spo2At(s, j) {
      assert j + 4 <= k;
      Spo2FromKeeps(s, j + 4, k);
    } else if j < k {
      Spo2FromKeeps(s, j + 1, k);
    }
  }

  /** For non-blank input the result is the `spo2` rewrite of the capitalised text. */
  lemma NormalizeTextScans(value: string)
    requires !IsBlank(value)
    ensures NormalizeText(value) == Spo2From(Capitalized(value), 0)
  {
  }

  /** The first character of a non-blank text comes out upper-cased (an upper-cased `s` stays `S` under the rewrite). */
  lemma NormalizeTextUpperFirst(value: string)
    requires !IsBlank(value)
    ensures NormalizeText(value)[0] == UpperChar(Strip(value)[0])
  {
    var c := Capitalized(value);
    CapitalizedFirst(value);
    UpperCharNotLowerS(Strip(value)[0]);
    NormalizeTextScans(value);
    Spo2FromFirst(c);
  }

  /** `str.upper` never yields a lower-case `s`. */
  lemma UpperCharNotLowerS(c: char)
    ensures UpperChar(c) != 's'
  {
    if 'a' <= c <= 'z' {
      assert UpperChar(c) as int == c as int - 32;
    }
  }

  lemma CapitalizedFirst(value: string)
    requires !IsBlank(value)
    ensures Capitalized(value) != [] && Capitalized(value)[0] == UpperChar(Strip(value)[0])
  {
  }

  /** The rewrite keeps a first character other than a lower-case `s`. */
  lemma Spo2FromFirst(s: string)
    requires s != [] && s[0] != 's'
    ensures Spo2From(s, 0)[0] == s[0]
  {
    Spo2FromStep(s, 0);
  }

  /** Every whole-word, case-insensitive `spo2` of the capitalised text is spelt `SPO2`. */
  lemma NormalizeTextSpo2(value: string, i: nat)
    requires !IsBlank(value) && Spo2At(Capitalized(value), i)
    ensures NormalizeText(value)[i..i + 4] == "SPO2"
  {
    NormalizeTextScans(value);
    Spo2FromAt(Capitalized(value), 0, i);
  }

  /** Every other character of the capitalised text is kept as it is. */
  lemma NormalizeTextKeeps(value: string, k: nat)
    requires !IsBlank(value) && k < |Capitalized(value)|
    requires forall i: nat :: i <= k < i + 4 ==> !Spo2At(Capitalized(value), i)
    ensures NormalizeText(value)[k] == Capitalized(value)[k]
  {
    NormalizeTextScans(value);
    Spo2FromKeeps(Capitalized(value), 0, k);
  }

  // ----- edit distance -----

  function Min3(a: nat, b: nat, c: nat): nat {
    if a <= b && a <= c then a else if b <= c then b else c
  }

  /**
   * Levenshtein distance (unit-cost insertions, deletions and substitutions),
   * by the textbook recurrence on the last characters.
   */
  function EditDistance(a: string, b: string): nat
    decreases |a| + |b|
  {
    if |a| == 0 then |b|
    else if |b| == 0 then |a|
    else
      Min3(EditDistance(a[..|a| - 1], b) + 1,
           EditDistance(a, b[..|b| - 1]) + 1,
           EditDistance(a[..|a| - 1], b[..|b| - 1]) + (if a[|a| - 1] == b[|b| - 1] then 0 else 1))
  }

  /** A string is at distance zero from itself. */
  lemma {:induction false} EditDistanceSelf(a: string)
    ensures EditDistance(a, a) == 0
    decreases |a|
  {
    if |a| > 0 {
      EditDistanceSelf(a[..|a| - 1]);
    }
  }

  /** Distance zero means equal strings. */
  lemma {:induction false} EditDistanceZero(a: string, b: string)
    requires EditDistance(a, b) == 0
    ensures a == b
    decreases |a| + |b|
  {
    if |a| > 0 && |b| > 0 {
      EditDistanceZero(a[..|a| - 1], b[..|b| - 1]);
      assert a == a[..|a| - 1] + [a[|a| - 1]];
      assert b == b[..|b| - 1] + [b[|b| - 1]];
    }
  }

  /** The distance does not depend on the order of its arguments. */
  lemma {:induction false} EditDistanceSymmetric(a: string, b: string)
    ensures EditDistance(a, b) == EditDistance(b, a)
    decreases |a| + |b|
  {
    if |a| > 0 && |b| > 0 {
      EditDistanceSymmetric(a[..|a| - 1], b);
      EditDistanceSymmetric(a, b[..|b| - 1]);
      EditDistanceSymmetric(a[..|a| - 1], b[..|b| - 1]);
    }
  }

  /** The distance is at most the length of the longer string. */
  lemma {:induction false} EditDistanceBound(a: string, b: string)
    ensures EditDistance(a, b) <= if |a| < |b| then |b| else |a|
    decreases |a| + |b|
  {
    if |a| > 0 && |b| > 0 {
      EditDistanceBound(a[..|a| - 1], b[..|b| - 1]);
      if |a| != |b| {
        if |a| < |b| { EditDistanceBound(a, b[..|b| - 1]); } else { EditDistanceBound(a[..|a| - 1], b); }
      }
    }
  }
}
