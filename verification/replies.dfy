// Small helpers of the bot's reply logic: recognising a token that ends like
// a Russian verb, the summary line after marking tasks done, and the emoji
// shown next to a task title.

module Replies {
  import opened Wrappers
  import opened Text

  // ----- looks_like_verb_token -----

  /** `VERB_BOUNDARY_SUFFIXES`, in the order they are tried. */
  const VerbBoundarySuffixes: seq<string> :=
    ["ться", "тса", "ись", "йся", "ть", "ти", "йте", "айте", "яйте", "ите", "ете",
     "ай", "яй", "ей", "уй", "ри", "ни"]

  /** `SHORT_VERB_BOUNDARY_SUFFIXES`: these count only on tokens of four letters or more. */
  const ShortVerbBoundarySuffixes: set<string> := {"ай", "яй", "ей", "уй", "ри", "ни"}

  /** The class `[а-яё-]`. */
  predicate IsVerbChar(c: char) {
    'а' <= c <= 'я' || c == 'ё' || c == '-'
  }

  /** The characters of `s` in `[а-яё-]`, in order. */
  function KeepVerbChars(s: string): (r: string)
    ensures |r| <= |s|
    ensures forall i :: 0 <= i < |r| ==> IsVerbChar(r[i])
    ensures (forall i :: 0 <= i < |s| ==> IsVerbChar(s[i])) ==> r == s
    decreases |s|
  {
    if s == [] then []
    else (if IsVerbChar(s[0]) then [s[0]] else []) + KeepVerbChars(s[1..])
  }

  /** The token lower-cased with every character outside `[а-яё-]` removed. */
  function CleanVerb(token: string): string {
    KeepVerbChars(Lower(token))
  }

  /**
   * `looks_like_verb_token`: a cleaned token of at least three letters that
   * ends with one of the verb suffixes; the short suffixes need four letters.
   */
  method LooksLikeVerbToken(token: string) returns (b: bool)
    ensures |CleanVerb(token)| < 3 ==> !b
    ensures |CleanVerb(token)| >= 4 ==>
              (b <==> exists k :: 0 <= k < |VerbBoundarySuffixes| && EndsWith(CleanVerb(token), VerbBoundarySuffixes[k]))
    ensures |CleanVerb(token)| == 3 ==>
              (b <==> exists k :: 0 <= k < |VerbBoundarySuffixes| && VerbBoundarySuffixes[k] !in ShortVerbBoundarySuffixes &&
                                  EndsWith(CleanVerb(token), VerbBoundarySuffixes[k]))
  {
    var cleaned := CleanVerb(token);
    if cleaned == [] || |cleaned| < 3 {
      return false;
    }
    for k := 0 to |VerbBoundarySuffixes|
      invariant forall j :: 0 <= j < k && EndsWith(cleaned, VerbBoundarySuffixes[j]) ==>
                  VerbBoundarySuffixes[j] in ShortVerbBoundarySuffixes && |cleaned| < 4
    {
      var suffix := VerbBoundarySuffixes[k];
      if EndsWith(cleaned, suffix) {
        if suffix in ShortVerbBoundarySuffixes && |cleaned| < 4 {
          continue;
        }
        return true;
      }
    }
    return false;
  }

  // ----- format_completion_summary -----

  /** `sep.join(xs)`. */
  function Join(xs: seq<string>, sep: string): string
    decreases |xs|
  {
    if xs == [] then []
    else if |xs| == 1 then xs[0]
    else xs[0] + sep + Join(xs[1..], sep)
  }

  const SummaryHead := "Отмечаю: "
  const SummaryTail := " — выполнено."

  /** `format_completion_summary`: one line naming every completed title. */
  function FormatCompletionSummary(titles: seq<string>): (r: string)
    ensures r == [] <==> titles == []
  {
    if titles == [] then ""
    else if |titles| == 1 then SummaryHead + titles[0] + SummaryTail
    else if |titles| == 2 then SummaryHead + titles[0] + " и " + titles[1] + SummaryTail
    else SummaryHead + Join(titles[..|titles| - 1], ", ") + " и " + titles[|titles| - 1] + SummaryTail
  }

  /**
   * The two-title case agrees with the general rule: all titles but the last
   * joined with commas, then "и" and the last.
   */
  lemma SummaryGeneralForm(titles: seq<string>)
    requires |titles| >= 2
    ensures FormatCompletionSummary(titles) ==
            SummaryHead + Join(titles[..|titles| - 1], ", ") + " и " + titles[|titles| - 1] + SummaryTail
  {
    if |titles| == 2 {
      assert titles[..1] == [titles[0]];
    }
  }

  lemma InfixContains(p: string, t: string, q: string)
    ensures Contains(p + t + q, t)
  {
    assert (p + t + q)[|p|..|p| + |t|] == t;
    assert OccursAt(p + t + q, t, |p|);
  }

  lemma ContainsExtend(hay: string, needle: string, p: string, q: string)
    requires Contains(hay, needle)
    ensures Contains(p + hay + q, needle)
  {
    var i :| 0 <= i <= |hay| - |needle| && OccursAt(hay, needle, i);
    assert (p + hay + q)[|p| + i..|p| + i + |needle|] == hay[i..i + |needle|];
    assert OccursAt(p + hay + q, needle, |p| + i);
  }

  lemma {:induction false} JoinContains(xs: seq<string>, sep: string, i: nat)
    requires i < |xs|
    ensures Contains(Join(xs, sep), xs[i])
    decreases |xs|
  {
    if |xs| == 1 {
      InfixContains([], xs[0], []);
      assert [] + xs[0] + [] == xs[0];
    } else if i == 0 {
      InfixContains([], xs[0], sep + Join(xs[1..], sep));
      assert [] + xs[0] + (sep + Join(xs[1..], sep)) == Join(xs, sep);
    } else {
      JoinContains(xs[1..], sep, i - 1);
      ContainsExtend(Join(xs[1..], sep), xs[i], xs[0] + sep, []);
      assert xs[0] + sep + Join(xs[1..], sep) + [] == Join(xs, sep);
    }
  }

  /** The summary names every title it is given. */
  lemma SummaryNamesEach(titles: seq<string>, i: nat)
    requires i < |titles|
    ensures Contains(FormatCompletionSummary(titles), titles[i])
  {
    var n := |titles|;
    if n == 1 {
      InfixContains(SummaryHead, titles[0], SummaryTail);
    } else {
      SummaryGeneralForm(titles);
      var init := titles[..n - 1];
      var joined := Join(init, ", ");
      if i == n - 1 {
        InfixContains(SummaryHead + joined + " и ", titles[i], SummaryTail);
      } else {
        JoinContains(init, ", ", i);
        assert init[i] == titles[i];
        ContainsExtend(joined, titles[i], SummaryHead, " и " + titles[n - 1] + SummaryTail);
        assert SummaryHead + joined + (" и " + titles[n - 1] + SummaryTail) ==
               SummaryHead + joined + " и " + titles[n - 1] + SummaryTail;
      }
    }
  }

  // ----- get_emoji_for_task -----

  /** `TASK_EMOJI_MAP`: a keyword and its emoji, in the order they are tried. */
  const TaskEmojiMap: seq<(string, string)> := [
    ("купить", "\U{1F6D2}"), ("хлеб", "\U{1F956}"), ("молоко", "\U{1F95B}"), ("сыр", "\U{1F9C0}"),
    ("почистить", "\U{1F9FD}"), ("мусор", "\U{1F5D1}"), ("оплатить", "\U{1F4B0}"), ("лампочка", "\U{1F4A1}"),
    ("интернет", "\U{1F310}"), ("отчет", "\U{1F4C4}"), ("проект", "\U{1F4C4}"), ("пациент", "\U{1F9CD}"),
    ("встреча", "\U{1F4DE}")]

  const DefaultTaskEmoji := "\U{1F9E9}"

  /** The `k`-th keyword occurs in the lower-cased, non-empty title. */
  predicate KeywordIn(title: Option<string>, k: nat) {
    k < |TaskEmojiMap| && title.Some? && title.value != [] && Contains(Lower(title.value), TaskEmojiMap[k].0)
  }

  /**
   * `get_emoji_for_task`: the emoji of the first keyword found in the title,
   * or the default emoji when there is no title or no keyword in it.
   */
  method GetEmojiForTask(title: Option<string>) returns (emoji: string)
    ensures forall k: nat :: KeywordIn(title, k) && (forall j: nat :: j < k ==> !KeywordIn(title, j)) ==>
              emoji == TaskEmojiMap[k].1
    ensures emoji == DefaultTaskEmoji <==> forall k: nat :: k < |TaskEmojiMap| ==> !KeywordIn(title, k)
  {
    if title.None? || title.value == [] {
      return DefaultTaskEmoji;
    }
    var lowered := Lower(title.value);
    for k := 0 to |TaskEmojiMap|
      invariant forall j: nat :: j < k ==> !KeywordIn(title, j)
    {
      var (keyword, e) := TaskEmojiMap[k];
      if Contains(lowered, keyword) {
        assert KeywordIn(title, k);
        return e;
      }
    }
    return DefaultTaskEmoji;
  }
}
