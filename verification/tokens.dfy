/**
 * The two tokenizers of the store: `_tokenize` (used by the fuzzy resolver)
 * and `_semantic_tokenize` with `_normalize_semantic_token` (used by the
 * duplicate scorer), with their fixed stop-word, replacement and suffix tables.
 */
module Tokens {
  import opened Text

  /** `_TOKEN_STOPWORDS`. */
  const TokenStopwords: set<string> := {
    "и", "да", "нет", "куплены", "куплено", "куплена", "куплен", "готово", "готовы", "готов",
    "выполнено", "выполнены", "выполнен", "сделано", "сделаны", "сделан"
  }

  /** `_SEMANTIC_STOPWORDS`: the token stop words plus prepositions and demonstratives. */
  const SemanticStopwords: set<string> := TokenStopwords + {
    "во", "в", "на", "по", "за", "из", "у", "к", "со", "от", "до", "для", "это", "эта", "этот", "там"
  }

  /** `_SEMANTIC_REPLACEMENTS`: a small synonym table applied to whole tokens. */
  const SemanticReplacements: map<string, string> := map[
    "оплатить" := "платить", "заплатить" := "платить", "оплата" := "платить",
    "платеж" := "платить", "квитанция" := "платить",
    "покупку" := "покуп", "покупка" := "покуп", "покупки" := "покуп", "купить" := "покуп",
    "электричество" := "свет", "электричества" := "свет", "электроэнергия" := "свет",
    "электроэнергию" := "свет", "свет" := "свет"
  ]

  /** `_SEMANTIC_SUFFIXES`, tried in this order. */
  const SemanticSuffixes: seq<string> := [
    "иями", "ями", "ами", "иях", "ях", "ев", "ов", "его", "ого", "ему", "ому", "ыми", "ими"
  ]

  /** Final letters dropped from tokens longer than four characters. */
  const FinalLetters: set<char> := {'и', 'ы', 'а', 'я', 'е', 'ю', 'ь', 'й'}

  /** Words minus the given stop words, in order. */
  function DropStopwords(words: seq<string>, stop: set<string>): (r: seq<string>)
    ensures forall k :: 0 <= k < |r| ==> r[k] in words && r[k] !in stop
    ensures forall w :: w in words && w !in stop ==> w in r
  {
    if words == [] then []
    else if words[0] in stop then DropStopwords(words[1..], stop)
    else [words[0]] + DropStopwords(words[1..], stop)
  }

  /** Dropping stop words distributes over concatenation. */
  lemma {:induction false} DropStopwordsAppend(a: seq<string>, b: seq<string>, stop: set<string>)
    ensures DropStopwords(a + b, stop) == DropStopwords(a, stop) + DropStopwords(b, stop)
    decreases |a|
  {
    if a == [] {
      assert a + b == b;
    } else {
      assert (a + b)[0] == a[0] && (a + b)[1..] == a[1..] + b;
      DropStopwordsAppend(a[1..], b, stop);
      if a[0] !in stop {
        var da, db := DropStopwords(a[1..], stop), DropStopwords(b, stop);
        assert [a[0]] + (da + db) == ([a[0]] + da) + db;
      }
    }
  }

  /**
   * `_tokenize`: lower-case, split on runs of non-word characters, drop empty
   * parts and token stop words. The tokens are exactly the maximal word runs
   * of the lower-cased text that are not stop words; `TokenizeSplit` and
   * `TokenizeWord` give their order.
   */
  function Tokenize(text: string): (r: seq<string>)
    ensures forall k :: 0 <= k < |r| ==> r[k] != [] && r[k] !in TokenStopwords
    ensures forall k :: 0 <= k < |r| ==> forall i :: 0 <= i < |r[k]| ==> IsWordChar(r[k][i])
    ensures forall k :: 0 <= k < |r| ==> r[k] in Runs(Lower(text), IsWordChar)
    ensures forall w :: w in Runs(Lower(text), IsWordChar) && w !in TokenStopwords ==> w in r
  {
    DropStopwords(Runs(Lower(text), IsWordChar), TokenStopwords)
  }

  /** A non-word character splits a text: its tokens are those of either side, in order. */
  lemma TokenizeSplit(x: string, c: char, y: string)
    requires !IsWordChar(c)
    ensures Tokenize(x + [c] + y) == Tokenize(x) + Tokenize(y)
  {
    assert Lower(x + [c] + y) == Lower(x) + [LowerChar(c)] + Lower(y);
    LowerCharKeepsClasses(c);
    RunsSplit(Lower(x), LowerChar(c), Lower(y), IsWordChar);
    DropStopwordsAppend(Runs(Lower(x), IsWordChar), Runs(Lower(y), IsWordChar), TokenStopwords);
  }

  /** A word is one token, lower-cased, unless it is a stop word. */
  lemma TokenizeWord(w: string)
    requires w != [] && forall i :: 0 <= i < |w| ==> IsWordChar(w[i])
    ensures Tokenize(w) == if Lower(w) in TokenStopwords then [] else [Lower(w)]
  {
    forall i | 0 <= i < |w| ensures IsWordChar(Lower(w)[i]) {
      LowerCharKeepsClasses(w[i]);
    }
    RunsOfRun(Lower(w), IsWordChar);
    var l := Lower(w);
    assert Tokenize(w) == DropStopwords([l], TokenStopwords);
    assert [l][0] == l && [l][1..] == [];
    assert DropStopwords([l][1..], TokenStopwords) == [];
  }

  /**
   * A single word is the single semantic token its lower-case, `е`-for-`ё`
   * form reduces to, unless that form or its reduction is a semantic stop
   * word or the reduction is empty.
   */
  lemma SemanticTokenizeWord(w: string)
    requires w != [] && forall i :: 0 <= i < |w| ==> IsWordChar(w[i])
    ensures var y := YoToYe(Lower(w));
            var t := NormalizeSemanticToken(y);
            SemanticTokenize(w) == if y !in SemanticStopwords && t != [] && t !in SemanticStopwords then [t] else []
  {
    forall i | 0 <= i < |w| ensures IsWordChar(Lower(w)[i]) {
      LowerCharKeepsClasses(w[i]);
    }
    ReplaceRunsKeeps(Lower(w), IsWordChar);
    var y := YoToYe(Lower(w));
    forall i | 0 <= i < |y| ensures !IsSpace(y[i]) {
      WordCharNotSpace(y[i]);
    }
    RunsOfRun(y, c => !IsSpace(c));
    assert SemanticTokenize(w) == ReduceSemanticTokens([y]);
    ReduceSingle(y);
  }

  /** Reducing one raw token. */
  lemma ReduceSingle(y: string)
    ensures var t := NormalizeSemanticToken(y);
            ReduceSemanticTokens([y]) == if y !in SemanticStopwords && t != [] && t !in SemanticStopwords then [t] else []
  {
    assert [y][0] == y && [y][1..] == [];
  }

  /** The first suffix of `suffixes` that ends `base` and leaves at least four characters, removed. */
  function StripFirstSuffix(base: string, suffixes: seq<string>): (r: string)
    ensures StartsWith(base, r)
    ensures r == base || |r| >= 4
  {
    if suffixes == [] then base
    else if EndsWith(base, suffixes[0]) && |base| - |suffixes[0]| >= 4 then base[..|base| - |suffixes[0]|]
    else StripFirstSuffix(base, suffixes[1..])
  }

  /** `_SEMANTIC_REPLACEMENTS.get(token, token)`. */
  function Replaced(token: string): string {
    if token in SemanticReplacements then SemanticReplacements[token] else token
  }

  /**
   * `_normalize_semantic_token`: replace through the synonym table, strip at
   * most one listed suffix (keeping four characters) and at most one final
   * vowel-like letter of a token longer than four characters. The result is a
   * prefix of the replaced token of length at least min(4, its length).
   */
  function NormalizeSemanticToken(token: string): (r: string)
    ensures StartsWith(Replaced(token), r)
    ensures |r| >= (if |Replaced(token)| < 4 then |Replaced(token)| else 4)
    ensures |Replaced(token)| <= 4 ==> r == Replaced(token)
  {
    var base := Replaced(token);
    var stripped := if |base| > 4 then StripFirstSuffix(base, SemanticSuffixes) else base;
    if |stripped| > 4 && stripped[|stripped| - 1] in FinalLetters then stripped[..|stripped| - 1]
    else stripped
  }

  /** The loop body of `_semantic_tokenize` over the raw tokens. */
  function ReduceSemanticTokens(raw: seq<string>): (r: seq<string>)
    ensures forall k :: 0 <= k < |r| ==> r[k] != [] && r[k] !in SemanticStopwords
    ensures |r| <= |raw|
  {
    if raw == [] then []
    else if raw[0] in SemanticStopwords then ReduceSemanticTokens(raw[1..])
    else
      var reduced := NormalizeSemanticToken(raw[0]);
      if reduced != [] && reduced !in SemanticStopwords then [reduced] + ReduceSemanticTokens(raw[1..])
      else ReduceSemanticTokens(raw[1..])
  }

  /** `ё` is written `е` before tokens are compared. */
  function YoToYe(s: string): (r: string)
    ensures |r| == |s|
  {
    seq(|s|, i requires 0 <= i < |s| => if s[i] == 'ё' then 'е' else s[i])
  }

  /**
   * `_semantic_tokenize`: lower-case, turn runs of non-word characters into a
   * space, write `ё` as `е`, split on white space and reduce each token.
   * No emitted token is empty or a semantic stop word.
   */
  function SemanticTokenize(text: string): (r: seq<string>)
    ensures forall k :: 0 <= k < |r| ==> r[k] != [] && r[k] !in SemanticStopwords
  {
    var normalized := YoToYe(ReplaceRuns(Lower(text), IsWordChar));
    ReduceSemanticTokens(Runs(normalized, c => !IsSpace(c)))
  }
}
