/**
 * Generic sequence helpers used to state what the SQL queries and the Python
 * comprehensions of the store compute: first match (`LIMIT 1`), filtering
 * positions (`WHERE`), keep-first de-duplication and a stable insertion sort
 * (`ORDER BY`).
 */
module Seqs {
  import opened Wrappers

  /** Index of the first element satisfying `p`, as a `LIMIT 1` scan in table order. */
  function FirstWhere<T>(s: seq<T>, p: T -> bool): (r: Option<nat>)
    ensures r.Some? ==> r.value < |s| && p(s[r.value])
    ensures r.Some? ==> forall j :: 0 <= j < r.value ==> !p(s[j])
    ensures r.None? ==> forall j :: 0 <= j < |s| ==> !p(s[j])
  {
    if |s| == 0 then None
    else if p(s[0]) then Some(0)
    else match FirstWhere(s[1..], p)
      case None => None
      case Some(k) => Some(k + 1)
  }

  /** `FirstWhere` is the only answer with its two properties. */
  lemma FirstWhereUnique<T>(s: seq<T>, p: T -> bool, k: Option<nat>)
    requires k.Some? ==> k.value < |s| && p(s[k.value]) && forall j :: 0 <= j < k.value ==> !p(s[j])
    requires k.None? ==> forall j :: 0 <= j < |s| ==> !p(s[j])
    ensures k == FirstWhere(s, p)
  {
  }

  /** The `for x in s: if p(x): return x` loop: a linear scan answering `FirstWhere`. */
  method FindFirst<T>(s: seq<T>, p: T -> bool) returns (r: Option<nat>)
    ensures r == FirstWhere(s, p)
  {
    for i := 0 to |s|
      invariant forall j :: 0 <= j < i ==> !p(s[j])
    {
      if p(s[i]) {
        FirstWhereUnique(s, p, Some(i));
        return Some(i);
      }
    }
    FirstWhereUnique(s, p, None);
    return None;
  }

  /** The increasing list of positions whose element satisfies `p`. */
  function Positions<T>(s: seq<T>, p: T -> bool): (r: seq<nat>)
    ensures forall k :: 0 <= k < |r| ==> r[k] < |s| && p(s[r[k]])
    ensures forall k, l :: 0 <= k < l < |r| ==> r[k] < r[l]
    ensures forall i :: 0 <= i < |s| && p(s[i]) ==> i in r
    decreases |s|
  {
    if |s| == 0 then []
    else
      var rest := Positions(s[..|s| - 1], p);
      if p(s[|s| - 1]) then rest + [|s| - 1] else rest
  }

  /** No element satisfies `p`: no positions. */
  lemma {:induction false} PositionsNone<T>(s: seq<T>, p: T -> bool)
    requires forall i :: 0 <= i < |s| ==> !p(s[i])
    ensures Positions(s, p) == []
    decreases |s|
  {
    if |s| > 0 {
      PositionsNone(s[..|s| - 1], p);
      assert !p(s[|s| - 1]);
    }
  }

  /** `Positions` of a two-element sequence. */
  lemma PositionsOfPair<T>(a: T, b: T, p: T -> bool)
    ensures Positions([a, b], p) == (if p(a) then [0] else []) + (if p(b) then [1] else [])
  {
    assert [a, b][..1] == [a];
    assert [a][..0] == [];
    assert Positions([a], p) == if p(a) then [0] else [];
  }

  /** The elements at the given positions, in order. */
  function Pick<T>(s: seq<T>, pos: seq<nat>): (r: seq<T>)
    requires forall k :: 0 <= k < |pos| ==> pos[k] < |s|
    ensures |r| == |pos| && forall k :: 0 <= k < |pos| ==> r[k] == s[pos[k]]
  {
    seq(|pos|, k requires 0 <= k < |pos| => s[pos[k]])
  }

  /** `a` is obtained from `b` by deleting elements. */
  predicate IsSubsequence<T(==)>(a: seq<T>, b: seq<T>)
    decreases |b|
  {
    a == [] || (b != [] && ((a[0] == b[0] && IsSubsequence(a[1..], b[1..])) || IsSubsequence(a, b[1..])))
  }

  /**
   * Keep the first element of each key, skipping keys already in `seen`
   * (Python's `if key in seen: continue; seen.add(key)` idiom).
   */
  function KeepFirstBy<T, K>(xs: seq<T>, key: T -> K, seen: set<K>): (r: seq<T>)
    ensures forall k :: 0 <= k < |r| ==> r[k] in xs && key(r[k]) !in seen
    ensures |r| <= |xs|
    decreases |xs|
  {
    if xs == [] then []
    else if key(xs[0]) in seen then KeepFirstBy(xs[1..], key, seen)
    else [xs[0]] + KeepFirstBy(xs[1..], key, seen + {key(xs[0])})
  }

  /** The keys of `KeepFirstBy` are pairwise distinct. */
  lemma {:induction false} KeepFirstByDistinct<T, K>(xs: seq<T>, key: T -> K, seen: set<K>)
    ensures forall i, j :: 0 <= i < j < |KeepFirstBy(xs, key, seen)| ==>
              key(KeepFirstBy(xs, key, seen)[i]) != key(KeepFirstBy(xs, key, seen)[j])
    decreases |xs|
  {
    if xs != [] {
      var seen' := if key(xs[0]) in seen then seen else seen + {key(xs[0])};
      KeepFirstByDistinct(xs[1..], key, seen');
      var tail := KeepFirstBy(xs[1..], key, seen');
      assert forall i, j :: 0 <= i < j < |tail| ==> key(tail[i]) != key(tail[j]);
      if key(xs[0]) in seen {
        assert KeepFirstBy(xs, key, seen) == tail;
      } else {
        var r := KeepFirstBy(xs, key, seen);
        assert r == [xs[0]] + tail;
        forall i, j | 0 <= i < j < |r| ensures key(r[i]) != key(r[j]) {
          if i == 0 {
            assert r[j] == tail[j - 1];
            assert key(tail[j - 1]) !in seen';
          } else {
            assert r[i] == tail[i - 1] && r[j] == tail[j - 1];
          }
        }
      }
    }
  }

  /** Every element whose key was not already seen is represented in the result. */
  lemma {:induction false} KeepFirstByCovers<T, K>(xs: seq<T>, key: T -> K, seen: set<K>, x: T)
    requires x in xs && key(x) !in seen
    ensures exists k :: 0 <= k < |KeepFirstBy(xs, key, seen)| && key(KeepFirstBy(xs, key, seen)[k]) == key(x)
    decreases |xs|
  {
    var r := KeepFirstBy(xs, key, seen);
    if xs[0] == x || key(xs[0]) == key(x) {
      assert key(xs[0]) !in seen;
      assert key(r[0]) == key(x);
    } else if key(xs[0]) in seen {
      KeepFirstByCovers(xs[1..], key, seen, x);
    } else {
      KeepFirstByCovers(xs[1..], key, seen + {key(xs[0])}, x);
      var k :| 0 <= k < |KeepFirstBy(xs[1..], key, seen + {key(xs[0])})|
        && key(KeepFirstBy(xs[1..], key, seen + {key(xs[0])})[k]) == key(x);
      assert r[k + 1] == KeepFirstBy(xs[1..], key, seen + {key(xs[0])})[k];
    }
  }

  /** The result keeps the input order: it is a subsequence of the input. */
  lemma {:induction false} KeepFirstBySubsequence<T, K>(xs: seq<T>, key: T -> K, seen: set<K>)
    ensures IsSubsequence(KeepFirstBy(xs, key, seen), xs)
    decreases |xs|
  {
    if xs != [] {
      if key(xs[0]) in seen {
        KeepFirstBySubsequence(xs[1..], key, seen);
        SubsequenceOfTail(KeepFirstBy(xs[1..], key, seen), xs);
      } else {
        KeepFirstBySubsequence(xs[1..], key, seen + {key(xs[0])});
      }
    }
  }

  /** `[f(x) for x in xs if keep(f(x))]`. */
  function MapFilter<T, U>(xs: seq<T>, f: T -> U, keep: U -> bool): seq<U>
    decreases |xs|
  {
    if xs == [] then [] else (if keep(f(xs[0])) then [f(xs[0])] else []) + MapFilter(xs[1..], f, keep)
  }

  lemma {:induction false} MapFilterAppend<T, U>(a: seq<T>, b: seq<T>, f: T -> U, keep: U -> bool)
    ensures MapFilter(a + b, f, keep) == MapFilter(a, f, keep) + MapFilter(b, f, keep)
    decreases |a|
  {
    if a == [] {
      assert a + b == b;
    } else {
      assert (a + b)[0] == a[0] && (a + b)[1..] == a[1..] + b;
      MapFilterAppend(a[1..], b, f, keep);
      var h := if keep(f(a[0])) then [f(a[0])] else [];
      var ma, mb := MapFilter(a[1..], f, keep), MapFilter(b, f, keep);
      assert MapFilter(a + b, f, keep) == h + (ma + mb);
      assert h + (ma + mb) == (h + ma) + mb;
    }
  }

  /** Whatever holds of every kept image holds of every element of `MapFilter`. */
  lemma {:induction false} MapFilterAll<T, U>(xs: seq<T>, f: T -> U, keep: U -> bool, p: U -> bool)
    requires forall x :: x in xs && keep(f(x)) ==> p(f(x))
    ensures forall y :: y in MapFilter(xs, f, keep) ==> p(y)
    decreases |xs|
  {
    if xs != [] {
      MapFilterAll(xs[1..], f, keep, p);
    }
  }

  /** One step of a keep-first scan over `MapFilter`: the image of `xs[i]` is skipped or taken. */
  lemma MapFilterKeepFirstStep<T, U, K>(xs: seq<T>, i: nat, f: T -> U, keep: U -> bool, key: U -> K, seen: set<K>)
    requires i < |xs|
    ensures var y := f(xs[i]);
            KeepFirstBy(MapFilter(xs[i..], f, keep), key, seen) ==
            if !keep(y) || key(y) in seen then KeepFirstBy(MapFilter(xs[i + 1..], f, keep), key, seen)
            else [y] + KeepFirstBy(MapFilter(xs[i + 1..], f, keep), key, seen + {key(y)})
  {
    assert xs[i..][0] == xs[i] && xs[i..][1..] == xs[i + 1..];
    var y := f(xs[i]);
    if keep(y) {
      var ys := [y] + MapFilter(xs[i + 1..], f, keep);
      assert ys[0] == y && ys[1..] == MapFilter(xs[i + 1..], f, keep);
    } else {
      assert MapFilter(xs[i..], f, keep) == MapFilter(xs[i + 1..], f, keep);
    }
  }

  /** Only the keys of `xs` matter in the seen set. */
  lemma {:induction false} KeepFirstBySeenAgree<T, K>(xs: seq<T>, key: T -> K, s1: set<K>, s2: set<K>)
    requires forall x :: x in xs ==> (key(x) in s1 <==> key(x) in s2)
    ensures KeepFirstBy(xs, key, s1) == KeepFirstBy(xs, key, s2)
    decreases |xs|
  {
    if xs != [] {
      var k := key(xs[0]);
      KeepFirstBySeenAgree(xs[1..], key, if k in s1 then s1 else s1 + {k}, if k in s2 then s2 else s2 + {k});
    }
  }

  /**
   * De-duplicating a concatenation: the second part is scanned with a seen
   * set that holds, among its own keys, exactly those seen before or met in
   * the first part.
   */
  lemma {:induction false} KeepFirstByAppend<T, K>(xs: seq<T>, ys: seq<T>, key: T -> K, seen: set<K>, seen2: set<K>)
    requires forall y :: y in ys ==> (key(y) in seen2 <==> key(y) in seen || exists x :: x in xs && key(x) == key(y))
    ensures KeepFirstBy(xs + ys, key, seen) == KeepFirstBy(xs, key, seen) + KeepFirstBy(ys, key, seen2)
    decreases |xs|
  {
    if xs == [] {
      assert xs + ys == ys;
      KeepFirstBySeenAgree(ys, key, seen, seen2);
    } else {
      assert (xs + ys)[0] == xs[0];
      assert (xs + ys)[1..] == xs[1..] + ys;
      var seen' := if key(xs[0]) in seen then seen else seen + {key(xs[0])};
      forall y | y in ys
        ensures key(y) in seen2 <==> key(y) in seen' || exists x :: x in xs[1..] && key(x) == key(y)
      {
        if x :| x in xs && key(x) == key(y) {
          if x != xs[0] {
            assert x in xs[1..];
          }
        }
      }
      KeepFirstByAppend(xs[1..], ys, key, seen', seen2);
    }
  }

  lemma SubsequenceOfTail<T>(a: seq<T>, b: seq<T>)
    requires b != [] && IsSubsequence(a, b[1..])
    ensures IsSubsequence(a, b)
  {
  }

  /** Each kept element is the first element of the input carrying its key. */
  lemma {:induction false} KeepFirstByFirstOccurrence<T, K>(xs: seq<T>, key: T -> K, seen: set<K>, k: nat)
    requires k < |KeepFirstBy(xs, key, seen)|
    ensures exists i :: 0 <= i < |xs| && xs[i] == KeepFirstBy(xs, key, seen)[k] &&
              forall j :: 0 <= j < i ==> key(xs[j]) != key(xs[i])
    decreases |xs|
  {
    var r := KeepFirstBy(xs, key, seen);
    if key(xs[0]) !in seen && k == 0 {
      assert xs[0] == r[0];
    } else {
      var seen' := if key(xs[0]) in seen then seen else seen + {key(xs[0])};
      var k' := if key(xs[0]) in seen then k else k - 1;
      var tail := xs[1..];
      assert r[k] == KeepFirstBy(tail, key, seen')[k'];
      KeepFirstByFirstOccurrence(tail, key, seen', k');
      var i :| 0 <= i < |tail| && tail[i] == r[k] && forall j :: 0 <= j < i ==> key(tail[j]) != key(tail[i]);
      assert key(r[k]) !in seen';
      FirstOccurrenceInTail(xs, key, i);
      assert xs[i + 1] == r[k];
    }
  }

  /** A first occurrence in the tail whose key differs from the head's is a first occurrence in the whole. */
  lemma FirstOccurrenceInTail<T, K>(xs: seq<T>, key: T -> K, i: nat)
    requires 0 <= i < |xs| - 1
    requires forall j :: 0 <= j < i ==> key(xs[1..][j]) != key(xs[1..][i])
    requires key(xs[0]) != key(xs[i + 1])
    ensures forall j :: 0 <= j < i + 1 ==> key(xs[j]) != key(xs[i + 1])
  {
    forall j | 0 <= j < i + 1 ensures key(xs[j]) != key(xs[i + 1]) {
      if j > 0 { assert xs[j] == xs[1..][j - 1]; }
    }
  }

  // ----- ordering -----

  /** `le` is total and transitive. */
  ghost predicate TotalPreorder<T(!new)>(le: (T, T) -> bool) {
    (forall a, b :: le(a, b) || le(b, a)) &&
    (forall a, b, c :: le(a, b) && le(b, c) ==> le(a, c))
  }

  predicate SortedBy<T>(s: seq<T>, le: (T, T) -> bool) {
    forall i, j :: 0 <= i < j < |s| ==> le(s[i], s[j])
  }

  /** Insert `x` before the first element it is `le`-below (so equal keys keep input order). */
  function InsertBy<T>(x: T, s: seq<T>, le: (T, T) -> bool): (r: seq<T>)
    ensures multiset(r) == multiset(s) + multiset{x}
    ensures |r| == |s| + 1
  {
    if s == [] then [x]
    else if le(x, s[0]) then [x] + s
    else
      assert s == [s[0]] + s[1..];
      [s[0]] + InsertBy(x, s[1..], le)
  }

  /** Insertion sort; the model of an SQL `ORDER BY`. */
  function SortBy<T>(s: seq<T>, le: (T, T) -> bool): (r: seq<T>)
    ensures multiset(r) == multiset(s)
    ensures |r| == |s|
  {
    if s == [] then []
    else
      assert s == [s[0]] + s[1..];
      InsertBy(s[0], SortBy(s[1..], le), le)
  }

  lemma {:induction false} InsertBySorted<T(!new)>(x: T, s: seq<T>, le: (T, T) -> bool)
    requires TotalPreorder(le) && SortedBy(s, le)
    ensures SortedBy(InsertBy(x, s, le), le)
  {
    if s != [] && !le(x, s[0]) {
      InsertBySorted(x, s[1..], le);
      var t := InsertBy(x, s[1..], le);
      assert le(s[0], x);
      forall y | y in multiset(t) ensures le(s[0], y) {
        assert y in multiset(s[1..]) + multiset{x};
        if y != x {
          assert y in multiset(s[1..]);
          assert y in s[1..];
        }
      }
      forall k | 0 <= k < |t| ensures le(s[0], t[k]) {
        assert t[k] in multiset(t);
      }
    }
  }

  /** `SortBy` sorts whenever `le` is a total preorder. */
  lemma {:induction false} SortBySorted<T(!new)>(s: seq<T>, le: (T, T) -> bool)
    requires TotalPreorder(le)
    ensures SortedBy(SortBy(s, le), le)
  {
    if s != [] {
      SortBySorted(s[1..], le);
      InsertBySorted(s[0], SortBy(s[1..], le), le);
    }
  }

  /** The elements satisfying `p`, in order. */
  function Filter<T>(s: seq<T>, p: T -> bool): (r: seq<T>)
    ensures |r| <= |s| && forall k :: 0 <= k < |r| ==> p(r[k])
    decreases |s|
  {
    if s == [] then [] else (if p(s[0]) then [s[0]] else []) + Filter(s[1..], p)
  }

  /** Every kept element comes from the input. */
  lemma {:induction false} FilterFrom<T>(s: seq<T>, p: T -> bool)
    ensures forall k :: 0 <= k < |Filter(s, p)| ==> Filter(s, p)[k] in s
    decreases |s|
  {
    if s != [] {
      FilterFrom(s[1..], p);
      var r, t := Filter(s, p), Filter(s[1..], p);
      var h := if p(s[0]) then [s[0]] else [];
      assert r == h + t;
      forall k | 0 <= k < |r| ensures r[k] in s {
        if k < |h| {
          assert r[k] == s[0];
        } else {
          assert r[k] == t[k - |h|] && t[k - |h|] in s[1..];
        }
      }
    }
  }

  /** Inserting `x` puts it before every element of its own class `p`. */
  lemma {:induction false} InsertByFilter<T>(x: T, s: seq<T>, le: (T, T) -> bool, p: T -> bool)
    requires forall a, b :: p(a) && p(b) ==> le(a, b)
    ensures Filter(InsertBy(x, s, le), p) == (if p(x) then [x] else []) + Filter(s, p)
    decreases |s|
  {
    if s == [] {
      FilterCons(x, [], p);
    } else if le(x, s[0]) {
      FilterCons(x, s, p);
    } else {
      var t := InsertBy(x, s[1..], le);
      assert InsertBy(x, s, le) == [s[0]] + t;
      InsertByFilter(x, s[1..], le, p);
      FilterCons(s[0], t, p);
      if p(x) {
        assert !p(s[0]);
        assert Filter(s, p) == Filter(s[1..], p);
        assert Filter([s[0]] + t, p) == Filter(t, p);
      } else {
        assert Filter(t, p) == Filter(s[1..], p);
      }
    }
  }

  lemma FilterCons<T>(y: T, t: seq<T>, p: T -> bool)
    ensures Filter([y] + t, p) == (if p(y) then [y] else []) + Filter(t, p)
  {
    assert ([y] + t)[1..] == t;
  }

  /**
   * `SortBy` is stable: the elements of one class `p` of mutually `le`-equal
   * elements come out in their input order.
   */
  lemma {:induction false} SortByStable<T>(s: seq<T>, le: (T, T) -> bool, p: T -> bool)
    requires forall a, b :: p(a) && p(b) ==> le(a, b)
    ensures Filter(SortBy(s, le), p) == Filter(s, p)
    decreases |s|
  {
    if s != [] {
      SortByStable(s[1..], le, p);
      InsertByFilter(s[0], SortBy(s[1..], le), le, p);
    }
  }

  /** The head of a sorted sequence is `le`-below every element: `sorted(s)[0]` is a minimum. */
  lemma SortByHeadLeast<T(!new)>(s: seq<T>, le: (T, T) -> bool)
    requires TotalPreorder(le) && s != []
    ensures forall x :: x in s ==> le(SortBy(s, le)[0], x)
  {
    var t := SortBy(s, le);
    SortBySorted(s, le);
    forall x | x in s ensures le(t[0], x) {
      assert x in multiset(s);
      assert x in multiset(t);
      var p :| 0 <= p < |t| && t[p] == x;
      if p == 0 {
        assert le(x, x) || le(x, x);
      }
    }
  }

  /** `min(s, key=f)`: the first position holding the least value of `f`. */
  function ArgMin<T>(s: seq<T>, f: T -> nat): (k: nat)
    requires |s| > 0
    ensures k < |s|
    ensures forall j :: 0 <= j < |s| ==> f(s[k]) <= f(s[j])
    ensures forall j :: 0 <= j < k ==> f(s[j]) > f(s[k])
    decreases |s|
  {
    if |s| == 1 then 0
    else
      var k := ArgMin(s[..|s| - 1], f);
      assert s[..|s| - 1][k] == s[k];
      if f(s[|s| - 1]) < f(s[k]) then |s| - 1 else k
  }

  /** Code-point (SQLite BINARY collation) order on strings: prefixes first. */
  predicate StrLe(a: string, b: string) {
    a == [] || (b != [] && (a[0] < b[0] || (a[0] == b[0] && StrLe(a[1..], b[1..]))))
  }

  lemma {:induction false} StrLeTotal(a: string, b: string)
    ensures StrLe(a, b) || StrLe(b, a)
  {
    if a != [] && b != [] && a[0] == b[0] {
      StrLeTotal(a[1..], b[1..]);
    }
  }

  lemma {:induction false} StrLeTransitive(a: string, b: string, c: string)
    requires StrLe(a, b) && StrLe(b, c)
    ensures StrLe(a, c)
  {
    if a != [] && b != [] && c != [] && a[0] == b[0] && b[0] == c[0] {
      StrLeTransitive(a[1..], b[1..], c[1..]);
    }
  }

  lemma {:induction false} StrLeAntisymmetric(a: string, b: string)
    requires StrLe(a, b) && StrLe(b, a)
    ensures a == b
  {
    if a != [] && b != [] {
      StrLeAntisymmetric(a[1..], b[1..]);
      assert a == [a[0]] + a[1..];
      assert b == [b[0]] + b[1..];
    }
  }

  /** The lexicographic string order is a total preorder. */
  lemma StrLeTotalPreorder()
    ensures TotalPreorder((a: string, b: string) => StrLe(a, b))
  {
    forall a: string, b: string ensures StrLe(a, b) || StrLe(b, a) { StrLeTotal(a, b); }
    forall a: string, b: string, c: string | StrLe(a, b) && StrLe(b, c) ensures StrLe(a, c) {
      StrLeTransitive(a, b, c);
    }
  }
}
