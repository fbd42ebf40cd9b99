/**
 * The fuzzy resolver: `_select_candidate` (exact title first) and
 * `_score_candidates` (token overlap, substring hits and edit distance as
 * successive tie-breakers, then a substring fallback), plus the
 * closest-by-distance choice of `delete_task_fuzzy`.
 *
 * A candidate is the `(id, title)` part of a row; the resolver answers with
 * the position of the chosen candidate in the sequence it was given.
 */
module Resolver {
  import opened Wrappers
  import opened Text
  import opened Tokens
  import opened Seqs

  datatype Candidate = Candidate(id: nat, title: string)

  /** `re.sub(r"[^0-9a-zA-Zа-яА-ЯёЁ ]+", " ", pattern).strip()`. */
  function CleanPattern(pattern: string): (r: string)
    ensures forall i :: 0 <= i < |r| ==> IsWordChar(r[i]) || r[i] == ' '
  {
    var replaced := ReplaceRuns(pattern, c => IsWordChar(c) || c == ' ');
    StripIsSlice(replaced);
    Strip(replaced)
  }

  /** The sort key `(-overlap, edit_distance, len(title_lower), candidate)`, with the overlap kept positive. */
  datatype Key = Key(overlap: nat, distance: nat, length: nat, id: nat)

  /** Lexicographic order on keys: larger overlap first, then smaller distance, length and id. */
  predicate KeyLe(a: Key, b: Key) {
    a.overlap > b.overlap ||
    (a.overlap == b.overlap &&
      (a.distance < b.distance ||
        (a.distance == b.distance && (a.length < b.length || (a.length == b.length && a.id <= b.id)))))
  }

  predicate KeyLt(a: Key, b: Key) {
    KeyLe(a, b) && a != b
  }

  /** Number of pattern tokens among the candidate's tokens (0 when the pattern has none). */
  function Overlap(pt: set<string>, title: string): nat {
    if pt == {} then 0 else |pt * (set t | t in Tokenize(title))|
  }

  /** The `substring_match` flag of `_score_candidates`. */
  predicate SubstringMatch(pt: set<string>, cleanedLower: string, titleLower: string) {
    if pt == {} && cleanedLower != [] then Contains(titleLower, cleanedLower)
    else
      (pt != {} && exists t | t in pt :: |t| > 2 && Contains(titleLower, t)) ||
      (cleanedLower != [] && Contains(titleLower, cleanedLower))
  }

  /** A candidate is scored unless the pattern has tokens, none of them overlap and nothing matches as a substring. */
  predicate Scored(pt: set<string>, cleanedLower: string, c: Candidate) {
    !(pt != {} && Overlap(pt, c.title) == 0 && !SubstringMatch(pt, cleanedLower, Lower(c.title)))
  }

  function KeyOf(pt: set<string>, cleanedLower: string, c: Candidate): Key {
    Key(Overlap(pt, c.title),
        if cleanedLower != [] then EditDistance(Lower(c.title), cleanedLower) else 0,
        |Lower(c.title)|,
        c.id)
  }

  /** The fallback test: one lower-cased text contains the other. */
  predicate FallbackMatch(cleanedLower: string, c: Candidate) {
    Contains(Lower(c.title), cleanedLower) || Contains(cleanedLower, Lower(c.title))
  }

  /**
   * What `_score_candidates` answers: the scored candidate with the least key
   * (the head of the sorted list); when nothing is scored and the pattern is not
   * empty, the first candidate passing the substring fallback; otherwise none.
   */
  ghost predicate ScoreOutcome(pt: set<string>, cleaned: string, cands: seq<Candidate>, r: Option<nat>) {
    var cl := Lower(cleaned);
    if exists j :: 0 <= j < |cands| && Scored(pt, cl, cands[j]) then
      r.Some? && r.value < |cands| && Scored(pt, cl, cands[r.value]) &&
      forall j :: 0 <= j < |cands| && Scored(pt, cl, cands[j]) ==> KeyLe(KeyOf(pt, cl, cands[r.value]), KeyOf(pt, cl, cands[j]))
    else if cl != [] then
      FallbackOutcome(cl, cands, r)
    else r.None?
  }

  /** The first candidate passing the fallback test, if any. */
  ghost predicate FallbackOutcome(cl: string, cands: seq<Candidate>, r: Option<nat>) {
    (r.Some? ==> r.value < |cands| && FallbackMatch(cl, cands[r.value]) &&
                 forall j :: 0 <= j < r.value ==> !FallbackMatch(cl, cands[j])) &&
    (r.None? ==> forall j :: 0 <= j < |cands| ==> !FallbackMatch(cl, cands[j]))
  }

  /** An element of the `scored` list: the sort key and the candidate's position. */
  datatype Entry = Entry(key: Key, index: nat)

  predicate EntryLe(a: Entry, b: Entry) {
    KeyLe(a.key, b.key)
  }

  lemma EntryLeTotalPreorder()
    ensures TotalPreorder(EntryLe)
  {
  }

  /** The `scored` list `_score_candidates` builds: one entry per scored candidate, in candidate order. */
  function Entries(pt: set<string>, cl: string, cands: seq<Candidate>): (r: seq<Entry>)
    ensures |r| <= |cands|
    decreases |cands|
  {
    if cands == [] then []
    else
      var last := |cands| - 1;
      Entries(pt, cl, cands[..last]) +
        (if Scored(pt, cl, cands[last]) then [Entry(KeyOf(pt, cl, cands[last]), last)] else [])
  }

  /** Every entry belongs to a scored candidate and carries that candidate's key. */
  lemma {:induction false} EntriesSound(pt: set<string>, cl: string, cands: seq<Candidate>)
    ensures forall e :: e in Entries(pt, cl, cands) ==>
              e.index < |cands| && Scored(pt, cl, cands[e.index]) && e.key == KeyOf(pt, cl, cands[e.index])
    decreases |cands|
  {
    if cands != [] {
      var last := |cands| - 1;
      var prefix := Entries(pt, cl, cands[..last]);
      var tail: seq<Entry> := if Scored(pt, cl, cands[last]) then [Entry(KeyOf(pt, cl, cands[last]), last)] else [];
      assert Entries(pt, cl, cands) == prefix + tail;
      EntriesSound(pt, cl, cands[..last]);
      forall e: Entry | e in prefix + tail
        ensures e.index < |cands| && Scored(pt, cl, cands[e.index]) && e.key == KeyOf(pt, cl, cands[e.index])
      {
        if e in prefix {
          assert cands[..last][e.index] == cands[e.index];
        } else {
          assert e in tail;
        }
      }
    }
  }

  /** Every scored candidate has its entry. */
  lemma {:induction false} EntriesComplete(pt: set<string>, cl: string, cands: seq<Candidate>, j: nat)
    requires j < |cands| && Scored(pt, cl, cands[j])
    ensures Entry(KeyOf(pt, cl, cands[j]), j) in Entries(pt, cl, cands)
    decreases |cands|
  {
    var last := |cands| - 1;
    if j < last {
      assert cands[..last][j] == cands[j];
      EntriesComplete(pt, cl, cands[..last], j);
    }
  }

  /** The first candidate passing the substring fallback. */
  function FallbackChoice(cl: string, cands: seq<Candidate>): (r: Option<nat>)
    ensures FallbackOutcome(cl, cands, r)
  {
    FirstWhere(cands, (c: Candidate) => FallbackMatch(cl, c))
  }

  /**
   * The answer of `_score_candidates`: the head of the sorted `scored` list;
   * with nothing scored, the fallback for a non-empty pattern, else none.
   */
  function ScoreChoice(pt: set<string>, cleaned: string, cands: seq<Candidate>): (r: Option<nat>)
    ensures r.Some? ==> r.value < |cands|
  {
    var cl := Lower(cleaned);
    var scored := Entries(pt, cl, cands);
    if scored != [] then
      EntriesSound(pt, cl, cands);
      assert SortBy(scored, EntryLe)[0] in multiset(SortBy(scored, EntryLe));
      Some(SortBy(scored, EntryLe)[0].index)
    else if cl != [] then FallbackChoice(cl, cands)
    else None
  }

  /** `ScoreChoice` is the least-key scored candidate, or else the fallback: it meets `ScoreOutcome`. */
  lemma ScoreChoiceOutcome(pt: set<string>, cleaned: string, cands: seq<Candidate>)
    ensures ScoreOutcome(pt, cleaned, cands, ScoreChoice(pt, cleaned, cands))
  {
    var cl := Lower(cleaned);
    var scored := Entries(pt, cl, cands);
    EntriesSound(pt, cl, cands);
    if scored == [] {
      forall j | 0 <= j < |cands| ensures !Scored(pt, cl, cands[j]) {
        if Scored(pt, cl, cands[j]) {
          EntriesComplete(pt, cl, cands, j);
        }
      }
    } else {
      EntryLeTotalPreorder();
      var head := SortBy(scored, EntryLe)[0];
      SortByHeadLeast(scored, EntryLe);
      assert head in multiset(SortBy(scored, EntryLe));
      forall j | 0 <= j < |cands| && Scored(pt, cl, cands[j])
        ensures KeyLe(KeyOf(pt, cl, cands[head.index]), KeyOf(pt, cl, cands[j]))
      {
        EntriesComplete(pt, cl, cands, j);
      }
    }
  }

  /** The second loop of `_score_candidates`. */
  method FirstFallback(cl: string, cands: seq<Candidate>) returns (r: Option<nat>)
    ensures r == FallbackChoice(cl, cands)
  {
    for i := 0 to |cands|
      invariant forall j :: 0 <= j < i ==> !FallbackMatch(cl, cands[j])
    {
      var titleLower := Lower(cands[i].title);
      if Contains(titleLower, cl) || Contains(cl, titleLower) {
        return Some(i);
      }
    }
    return None;
  }

  /** `_score_candidates`: build the scored list, sort it and take its head, else fall back. */
  method ScoreCandidates(patternTokens: seq<string>, cleaned: string, cands: seq<Candidate>) returns (r: Option<nat>)
    ensures r == ScoreChoice((set t | t in patternTokens), cleaned, cands)
  {
    var pt := set t | t in patternTokens;
    var cleanedLower := Lower(cleaned);
    var scored: seq<Entry> := [];
    for i := 0 to |cands|
      invariant scored == Entries(pt, cleanedLower, cands[..i])
    {
      assert cands[..i + 1][..i] == cands[..i];
      var titleLower := Lower(cands[i].title);
      var overlap := if pt != {} then |pt * (set t | t in Tokenize(cands[i].title))| else 0;
      var substringMatch := false;
      if pt != {} {
        substringMatch := exists t | t in pt :: |t| > 2 && Contains(titleLower, t);
      }
      if cleanedLower != [] && Contains(titleLower, cleanedLower) {
        substringMatch := true;
      }
      if pt == {} && cleanedLower != [] {
        substringMatch := Contains(titleLower, cleanedLower);
      }
      if pt != {} && overlap == 0 && !substringMatch {
        continue;
      }
      var editDistance := if cleanedLower != [] then EditDistance(titleLower, cleanedLower) else 0;
      scored := scored + [Entry(Key(overlap, editDistance, |titleLower|, cands[i].id), i)];
    }
    assert cands[..|cands|] == cands;
    if scored == [] {
      if cleanedLower != [] {
        r := FirstFallback(cleanedLower, cands);
      } else {
        r := None;
      }
    } else {
      r := Some(SortBy(scored, EntryLe)[0].index);
    }
  }

  /** The exact-match test of `_select_candidate`. */
  predicate ExactTitle(lowered: string, c: Candidate) {
    c.title != [] && Lower(Strip(c.title)) == lowered
  }

  /**
   * What `_select_candidate` answers for a pattern that survives cleaning: the
   * first candidate whose stripped, lower-cased title equals the lower-cased
   * cleaned pattern; otherwise the outcome of `_score_candidates` on the
   * pattern's tokens.
   */
  ghost predicate SelectOutcome(pattern: string, cands: seq<Candidate>, r: Option<nat>) {
    var lowered := Lower(CleanPattern(pattern));
    if exists j :: 0 <= j < |cands| && ExactTitle(lowered, cands[j]) then
      ExactOutcome(lowered, cands, r)
    else
      ScoreOutcome((set t | t in Tokenize(pattern)), CleanPattern(pattern), cands, r)
  }

  /** `r` is the first candidate with the exact title. */
  ghost predicate ExactOutcome(lowered: string, cands: seq<Candidate>, r: Option<nat>) {
    r.Some? && r.value < |cands| && ExactTitle(lowered, cands[r.value]) &&
    forall j :: 0 <= j < r.value ==> !ExactTitle(lowered, cands[j])
  }

  /** The answer of `_select_candidate`. */
  function SelectChoice(pattern: string, cands: seq<Candidate>): (r: Option<nat>)
    ensures r.Some? ==> r.value < |cands|
  {
    if pattern == [] then None
    else
      var cleaned := CleanPattern(pattern);
      if cleaned == [] then None
      else
        var lowered := Lower(cleaned);
        match FirstWhere(cands, (c: Candidate) => ExactTitle(lowered, c))
        case Some(k) => Some(k)
        case None => ScoreChoice((set t | t in Tokenize(pattern)), cleaned, cands)
  }

  /** An empty or punctuation-only pattern selects nothing; otherwise the choice meets `SelectOutcome`. */
  lemma SelectChoiceOutcome(pattern: string, cands: seq<Candidate>)
    ensures pattern == [] || CleanPattern(pattern) == [] ==> SelectChoice(pattern, cands).None?
    ensures pattern != [] && CleanPattern(pattern) != [] ==> SelectOutcome(pattern, cands, SelectChoice(pattern, cands))
  {
    if pattern != [] && CleanPattern(pattern) != [] {
      var cleaned := CleanPattern(pattern);
      var lowered := Lower(cleaned);
      var exact := FirstWhere(cands, (c: Candidate) => ExactTitle(lowered, c));
      if exact.Some? {
        assert SelectChoice(pattern, cands) == exact;
        assert ExactTitle(lowered, cands[exact.value]);
      } else {
        var pt := set t | t in Tokenize(pattern);
        assert SelectChoice(pattern, cands) == ScoreChoice(pt, cleaned, cands);
        ScoreChoiceOutcome(pt, cleaned, cands);
      }
    }
  }

  /** `_select_candidate`. */
  method SelectCandidate(pattern: string, cands: seq<Candidate>) returns (r: Option<nat>)
    ensures r == SelectChoice(pattern, cands)
  {
    if pattern == [] {
      return None;
    }
    var cleaned := CleanPattern(pattern);
    if cleaned == [] {
      return None;
    }
    var lowered := Lower(cleaned);
    r := FindFirst(cands, (c: Candidate) => ExactTitle(lowered, c));
    if r.None? {
      r := ScoreCandidates(Tokenize(pattern), cleaned, cands);
    }
  }

  /**
   * `min(candidates, key=distance(title.lower(), cleaned.lower()))` of
   * `delete_task_fuzzy`: the first candidate at the least distance.
   */
  function ClosestByDistance(cands: seq<Candidate>, cleanedLower: string): (k: nat)
    requires |cands| > 0
    ensures k < |cands|
    ensures forall j :: 0 <= j < |cands| ==>
              EditDistance(Lower(cands[k].title), cleanedLower) <= EditDistance(Lower(cands[j].title), cleanedLower)
    ensures forall j :: 0 <= j < k ==>
              EditDistance(Lower(cands[j].title), cleanedLower) > EditDistance(Lower(cands[k].title), cleanedLower)
  {
    ArgMin(cands, (c: Candidate) => EditDistance(Lower(c.title), cleanedLower))
  }
}
