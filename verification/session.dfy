// The per-user conversation context kept in memory by the bot: `set_ctx`
// overwrites the keys it is given, except that a `history` list is trimmed
// to its last ten entries with repeats removed; `get_ctx` reads one key.

module Session {
  import opened Seqs
  import opened Actions

  /** How many `history` entries are kept. */
  const HistoryLimit: nat := 10

  /** A user's context before anything was stored for them. */
  const DefaultSession: Dict := map["history" := Arr([]), "last_list" := Null, "last_action" := Null,
                                    "pending_delete" := Null, "pending_confirmation" := Null]

  function Id(v: Value): Value {
    v
  }

  /** `xs[-n:]`: the last `n` elements, or all of them when there are fewer. */
  function LastN<T>(xs: seq<T>, n: nat): (r: seq<T>)
    ensures |r| == if |xs| <= n then |xs| else n
    ensures r == xs[|xs| - |r|..]
  {
    if |xs| <= n then xs else xs[|xs| - n..]
  }

  /** The trimmed history: the last ten entries, each kept at its first occurrence. */
  function TrimHistory(items: seq<Value>): seq<Value> {
    KeepFirstBy(LastN(items, HistoryLimit), Id, {})
  }

  /** What `set_ctx` stores for one keyword argument. */
  function Stored(key: string, value: Value): Value {
    if key == "history" && value.Arr? then Arr(TrimHistory(value.items)) else value
  }

  /** The context after the keyword arguments `kw`, in order. */
  function ApplyCtx(sess: Dict, kw: seq<(string, Value)>): Dict
    decreases |kw|
  {
    if kw == [] then sess
    else
      var last := kw[|kw| - 1];
      ApplyCtx(sess, kw[..|kw| - 1])[last.0 := Stored(last.0, last.1)]
  }

  /** A user's context, or the default one. */
  function SessionOf(sessions: map<int, Dict>, userId: int): Dict {
    if userId in sessions then sessions[userId] else DefaultSession
  }

  /** No later keyword argument has the same name as `kw[i]`. */
  predicate LastFor(kw: seq<(string, Value)>, i: nat) {
    i < |kw| && forall j :: i < j < |kw| ==> kw[j].0 != kw[i].0
  }

  /** `SESSION`: every user's context. */
  class SessionStore {
    var sessions: map<int, Dict>

    constructor ()
      ensures sessions == map[]
    {
      sessions := map[];
    }

    /**
     * `get_ctx`: the stored value of `key`, with the default context standing in
     * for a user who has none, and `default` for a key the context lacks.
     */
    function GetCtx(userId: int, key: string, default: Value): (r: Value)
      reads this
      ensures userId !in sessions && key == "history" ==> r == Arr([])
      ensures userId !in sessions && key in {"last_list", "last_action", "pending_delete", "pending_confirmation"} ==>
                r == Null
      ensures key in SessionOf(sessions, userId) ==> r == SessionOf(sessions, userId)[key]
      ensures key !in SessionOf(sessions, userId) ==> r == default
    {
      var sess := SessionOf(sessions, userId);
      if key in sess then sess[key] else default
    }

    /**
     * `set_ctx`: stores each keyword argument in the user's context, trimming a
     * `history` list; afterwards `get_ctx` returns what was stored for each
     * given key, the old value for every other key, and other users are untouched.
     */
    method SetCtx(userId: int, kw: seq<(string, Value)>)
      modifies this
      ensures sessions == old(sessions)[userId := ApplyCtx(SessionOf(old(sessions), userId), kw)]
      ensures forall i: nat, default :: LastFor(kw, i) ==> GetCtx(userId, kw[i].0, default) == Stored(kw[i].0, kw[i].1)
      ensures forall key, default :: (forall i :: 0 <= i < |kw| ==> kw[i].0 != key) ==>
                GetCtx(userId, key, default) == old(GetCtx(userId, key, default))
      ensures forall u, key, default :: u != userId ==> GetCtx(u, key, default) == old(GetCtx(u, key, default))
    {
      var start := SessionOf(sessions, userId);
      var sess := start;
      for i := 0 to |kw|
        invariant sess == ApplyCtx(start, kw[..i])
      {
        var (key, value) := kw[i];
        assert kw[..i + 1][..i] == kw[..i];
        ghost var next := ApplyCtx(start, kw[..i])[key := Stored(key, value)];
        assert ApplyCtx(start, kw[..i + 1]) == next;
        if key == "history" && value.Arr? {
          sess := sess["history" := Arr(TrimHistory(value.items))];
        } else {
          sess := sess[key := value];
        }
      }
      assert kw[..|kw|] == kw;
      sessions := sessions[userId := sess];
      forall i | LastFor(kw, i) {
        ApplyCtxLast(start, kw, i);
      }
      forall key | forall i :: 0 <= i < |kw| ==> kw[i].0 != key {
        ApplyCtxOther(start, kw, key);
      }
    }
  }

  /** The last keyword argument with a given name decides what is stored under it. */
  lemma {:induction false} ApplyCtxLast(sess: Dict, kw: seq<(string, Value)>, i: nat)
    requires LastFor(kw, i)
    ensures kw[i].0 in ApplyCtx(sess, kw) && ApplyCtx(sess, kw)[kw[i].0] == Stored(kw[i].0, kw[i].1)
    decreases |kw|
  {
    if i < |kw| - 1 {
      var init := kw[..|kw| - 1];
      assert LastFor(init, i) by {
        forall j | i < j < |init| ensures init[j].0 != init[i].0 {
          assert init[j] == kw[j];
        }
      }
      ApplyCtxLast(sess, init, i);
    }
  }

  /** A key no keyword argument names keeps its presence and its value. */
  lemma {:induction false} ApplyCtxOther(sess: Dict, kw: seq<(string, Value)>, key: string)
    requires forall i :: 0 <= i < |kw| ==> kw[i].0 != key
    ensures key in ApplyCtx(sess, kw) <==> key in sess
    ensures key in sess ==> ApplyCtx(sess, kw)[key] == sess[key]
    decreases |kw|
  {
    if kw != [] {
      var init := kw[..|kw| - 1];
      assert forall i :: 0 <= i < |init| ==> init[i] == kw[i];
      ApplyCtxOther(sess, init, key);
    }
  }

  /**
   * A stored history has at most ten entries, no repeats, keeps their order,
   * holds only entries from the last ten given, and holds every one of those.
   */
  lemma HistoryTrimmed(items: seq<Value>)
    ensures var r := TrimHistory(items);
            var tail := LastN(items, HistoryLimit);
            |r| <= HistoryLimit &&
            (forall i, j :: 0 <= i < j < |r| ==> r[i] != r[j]) &&
            IsSubsequence(r, tail) &&
            (forall v :: v in r ==> v in tail) &&
            (forall v :: v in tail ==> v in r)
  {
    var tail := LastN(items, HistoryLimit);
    var r := TrimHistory(items);
    KeepFirstByDistinct(tail, Id, {});
    KeepFirstBySubsequence(tail, Id, {});
    forall v | v in tail ensures v in r {
      KeepFirstByCovers(tail, Id, {}, v);
    }
  }

  /** Each stored history entry is taken at its first occurrence among the last ten. */
  lemma HistoryKeepsFirst(items: seq<Value>, k: nat)
    requires k < |TrimHistory(items)|
    ensures var tail := LastN(items, HistoryLimit);
            exists i :: 0 <= i < |tail| && tail[i] == TrimHistory(items)[k] && forall j :: 0 <= j < i ==> tail[j] != tail[i]
  {
    KeepFirstByFirstOccurrence(LastN(items, HistoryLimit), Id, {}, k);
  }
}
