/** Speculative semantic-query state: an undo journal instead of copies.

    Opening a transaction copies nothing.  Memo writes are journaled, the relation cache layers
    itself, and a context reset moves the whole pre-reset context into the journal.  The model
    keeps, as ghost state, the copy that a naive implementation would have taken at each
    savepoint, and relates rollback to it. */
module QueryJournal {
  import opened Wrappers
  import opened RelationRules
  import opened RelationCache

  datatype Memos = Memos(
    projection: map<nat, nat>,
    evaluation: map<nat, nat>,
    completed: map<Key, bool>,
    noCandidates: set<Key>,
    clean: set<nat>,
    context: Option<(nat, nat)>)

  datatype Undo =
    | ProjectionMemo(ty: nat, previous: Option<nat>)
    | EvaluationMemo(ty: nat, previous: Option<nat>)
    | CompletedRelation(key: Key, verdict: Option<bool>)
    | NoCandidateInserted(key: Key)
    | NoCandidateRemoved(key: Key)
    | PublicationClean(ty: nat)
    | ContextReset(memos: Memos, cache: Cache)

  function Restore<K, V>(m: map<K, V>, key: K, previous: Option<V>): map<K, V> {
    if previous.Some? then m[key := previous.value] else m - {key}
  }

  function Find<K, V>(m: map<K, V>, key: K): Option<V> {
    if key in m then Some(m[key]) else None
  }

  function UndoMemos(u: Undo, m: Memos): Memos {
    match u
    case ProjectionMemo(ty, previous) => m.(projection := Restore(m.projection, ty, previous))
    case EvaluationMemo(ty, previous) => m.(evaluation := Restore(m.evaluation, ty, previous))
    case CompletedRelation(key, verdict) => m.(completed := Restore(m.completed, key, verdict))
    case NoCandidateInserted(key) => m.(noCandidates := m.noCandidates - {key})
    case NoCandidateRemoved(key) => m.(noCandidates := m.noCandidates + {key})
    case PublicationClean(ty) => m.(clean := m.clean - {ty})
    case ContextReset(memos, _) => memos
  }

  /** Replay a stretch of the journal, newest entry first. */
  function Unwind(m: Memos, log: seq<Undo>): Memos
    decreases |log|
  {
    if log == [] then m else Unwind(UndoMemos(log[|log| - 1], m), log[..|log| - 1])
  }

  /** The relation cache after the same replay: the oldest reset wins. */
  function UnwindCache(c: Cache, log: seq<Undo>): Cache
    decreases |log|
  {
    if log == [] then c
    else UnwindCache(if log[|log| - 1].ContextReset? then log[|log| - 1].cache else c, log[..|log| - 1])
  }

  /** The cache held by the oldest context reset of a stretch of the journal. */
  function OldestReset(log: seq<Undo>): Option<Cache> {
    if log == [] then None
    else if log[0].ContextReset? then Some(log[0].cache)
    else OldestReset(log[1..])
  }

  /** The part of a layered cache that lies below its layers number `depth` and up. */
  function Below(c: Cache, depth: nat): (r: Cache)
    requires depth <= Depth(c)
    ensures Depth(r) == depth
  {
    if Depth(c) == depth then c else Below(c.base, depth)
  }

  /** An empty cache with one layer for each open transaction. */
  function EmptyLayers(depth: nat): (c: Cache)
    ensures Depth(c) == depth && View(c) == map[]
  {
    if depth == 0 then Root(map[]) else Savepoint(EmptyLayers(depth - 1))
  }

  lemma {:induction false} UnwindSplit(m: Memos, c: Cache, older: seq<Undo>, newer: seq<Undo>)
    ensures Unwind(m, older + newer) == Unwind(Unwind(m, newer), older)
    ensures UnwindCache(c, older + newer) == UnwindCache(UnwindCache(c, newer), older)
    decreases |newer|
  {
    if newer == [] {
      assert older + newer == older;
    } else {
      var last := newer[|newer| - 1];
      assert (older + newer)[..|older + newer| - 1] == older + newer[..|newer| - 1];
      UnwindSplit(UndoMemos(last, m), if last.ContextReset? then last.cache else c, older, newer[..|newer| - 1]);
    }
  }

  /** The replay ends with the cache of the oldest reset, and without a reset with the one it has. */
  lemma {:induction false} OldestResetWins(c: Cache, log: seq<Undo>)
    ensures UnwindCache(c, log) == if OldestReset(log).Some? then OldestReset(log).value else c
  {
    if log != [] {
      assert log == [log[0]] + log[1..];
      UnwindSplit(Memos(map[], map[], map[], {}, {}, None), c, [log[0]], log[1..]);
      OldestResetWins(c, log[1..]);
      var rest := UnwindCache(c, log[1..]);
      assert [log[0]][..0] == [];
      assert UnwindCache(rest, [log[0]]) == if log[0].ContextReset? then log[0].cache else rest;
    }
  }

  /** A journal without resets leaves the cache alone. */
  lemma {:induction false} UnwindCacheCases(c: Cache, d: Cache, log: seq<Undo>)
    ensures UnwindCache(c, log) == UnwindCache(d, log) || (UnwindCache(c, log) == c && UnwindCache(d, log) == d)
    decreases |log|
  {
    if log != [] {
      var last := log[|log| - 1];
      if !last.ContextReset? {
        UnwindCacheCases(c, d, log[..|log| - 1]);
      }
    }
  }

  /** What one open transaction promises: replaying its journal gives back the memos of its
      savepoint, and the cache of its savepoint lies below its layer. */
  ghost predicate Recoverable(memos: Memos, cache: Cache, log: seq<Undo>, snapshot: (Memos, Cache), layer: nat) {
    && Unwind(memos, log) == snapshot.0
    && Depth(UnwindCache(cache, log)) > layer
    && Below(UnwindCache(cache, log), layer) == snapshot.1
  }

  class QueryState {
    var memos: Memos
    var cache: Cache
    var journal: seq<Undo>
    var savepoints: seq<nat>
    /** The copies a naive implementation would have taken, oldest first. */
    ghost var snapshots: seq<(Memos, Cache)>

    ghost predicate Valid()
      reads this
    {
      && |snapshots| == |savepoints|
      && Depth(cache) == |savepoints|
      && (savepoints == [] ==> journal == [])
      && (savepoints != [] ==> savepoints[0] == 0)
      && (forall i | 0 <= i < |savepoints| :: savepoints[i] <= |journal|)
      && (forall i, j | 0 <= i < j < |savepoints| :: savepoints[i] <= savepoints[j])
      && (forall i | 0 <= i < |savepoints| :: Recoverable(memos, cache, journal[savepoints[i]..], snapshots[i], i))
    }

    constructor ()
      ensures Valid() && savepoints == [] && memos == Memos(map[], map[], map[], {}, {}, None) && cache == Root(map[])
    {
      memos, cache := Memos(map[], map[], map[], {}, {}, None), Root(map[]);
      journal, savepoints, snapshots := [], [], [];
    }

    /** Open a speculative transaction. */
    method Open()
      requires Valid()
      modifies this
      ensures Valid()
      ensures memos == old(memos) && cache == Savepoint(old(cache)) && journal == old(journal)
      ensures savepoints == old(savepoints) + [|old(journal)|]
      ensures snapshots == old(snapshots) + [(old(memos), old(cache))]
    {
      ghost var before := cache;
      savepoints := savepoints + [|journal|];
      snapshots := snapshots + [(memos, cache)];
      cache := Savepoint(cache);
      forall i | 0 <= i < |savepoints|
        ensures Recoverable(memos, cache, journal[savepoints[i]..], snapshots[i], i)
      {
        UnwindCacheCases(before, cache, journal[savepoints[i]..]);
      }
    }

    /** Replace the memos, journaling how to get back if a transaction could still be dropped. */
    method Record(next: Memos, undo: Undo)
      requires Valid() && UndoMemos(undo, next) == memos && !undo.ContextReset?
      modifies this`memos, this`journal
      ensures Valid() && memos == next
      ensures journal == if savepoints == [] then [] else old(journal) + [undo]
    {
      ghost var before := memos;
      if savepoints != [] {
        journal := journal + [undo];
      }
      memos := next;
      forall i | 0 <= i < |savepoints|
        ensures Recoverable(memos, cache, journal[savepoints[i]..], snapshots[i], i)
      {
        assert journal[savepoints[i]..] == old(journal)[savepoints[i]..] + [undo];
        UnwindSplit(memos, cache, old(journal)[savepoints[i]..], [undo]);
        assert Unwind(memos, [undo]) == before;
      }
    }

    method RememberProjection(ty: nat, value: nat)
      requires Valid()
      modifies this`memos, this`journal
      ensures Valid() && memos == old(memos).(projection := old(memos).projection[ty := value])
    {
      var previous := Find(memos.projection, ty);
      assert Restore(memos.projection[ty := value], ty, previous) == memos.projection;
      Record(memos.(projection := memos.projection[ty := value]), ProjectionMemo(ty, previous));
    }

    method RememberEvaluation(ty: nat, value: nat)
      requires Valid()
      modifies this`memos, this`journal
      ensures Valid() && memos == old(memos).(evaluation := old(memos).evaluation[ty := value])
    {
      var previous := Find(memos.evaluation, ty);
      assert Restore(memos.evaluation[ty := value], ty, previous) == memos.evaluation;
      Record(memos.(evaluation := memos.evaluation[ty := value]), EvaluationMemo(ty, previous));
    }

    method RememberRelation(key: Key, verdict: bool)
      requires Valid()
      modifies this`memos, this`journal
      ensures Valid() && memos == old(memos).(completed := old(memos).completed[key := verdict])
    {
      var previous := Find(memos.completed, key);
      assert Restore(memos.completed[key := verdict], key, previous) == memos.completed;
      Record(memos.(completed := memos.completed[key := verdict]), CompletedRelation(key, previous));
    }

    method InsertNoCandidate(key: Key)
      requires Valid()
      modifies this`memos, this`journal
      ensures Valid() && memos == old(memos).(noCandidates := old(memos).noCandidates + {key})
    {
      if key !in memos.noCandidates {
        assert memos.noCandidates + {key} - {key} == memos.noCandidates;
        Record(memos.(noCandidates := memos.noCandidates + {key}), NoCandidateInserted(key));
      } else {
        assert memos.noCandidates + {key} == memos.noCandidates;
      }
    }

    method TakeNoCandidate(key: Key) returns (removed: bool)
      requires Valid()
      modifies this`memos, this`journal
      ensures Valid() && memos == old(memos).(noCandidates := old(memos).noCandidates - {key})
      ensures removed == (key in old(memos).noCandidates)
    {
      removed := key in memos.noCandidates;
      if removed {
        assert memos.noCandidates - {key} + {key} == memos.noCandidates;
        Record(memos.(noCandidates := memos.noCandidates - {key}), NoCandidateRemoved(key));
      } else {
        assert memos.noCandidates - {key} == memos.noCandidates;
      }
    }

    method MarkClean(ty: nat)
      requires Valid()
      modifies this`memos, this`journal
      ensures Valid() && memos == old(memos).(clean := old(memos).clean + {ty})
    {
      if ty !in memos.clean {
        assert memos.clean + {ty} - {ty} == memos.clean;
        Record(memos.(clean := memos.clean + {ty}), PublicationClean(ty));
      } else {
        assert memos.clean + {ty} == memos.clean;
      }
    }

    /** A finished query promotes its verdicts into the top layer; no journal entry is needed. */
    method PromoteVerdicts(pending: map<Key, bool>)
      requires Valid()
      modifies this`cache
      ensures Valid() && cache == Promote(old(cache), pending)
    {
      ghost var before := cache;
      cache := Promote(cache, pending);
      forall i | 0 <= i < |savepoints|
        ensures Recoverable(memos, cache, journal[savepoints[i]..], snapshots[i], i)
      {
        UnwindCacheCases(before, cache, journal[savepoints[i]..]);
      }
    }

    /** A changed store or publication drops every memo; the old context moves into the journal. */
    method ResetContext(context: (nat, nat))
      requires Valid()
      modifies this`memos, this`cache, this`journal
      ensures Valid()
      ensures memos == Memos(map[], map[], map[], {}, {}, Some(context)) && View(cache) == map[]
      ensures journal == if savepoints == [] then [] else old(journal) + [ContextReset(old(memos), old(cache))]
    {
      ghost var m, c := memos, cache;
      var reset := ContextReset(memos, cache);
      if savepoints != [] {
        journal := journal + [reset];
      }
      memos := Memos(map[], map[], map[], {}, {}, Some(context));
      cache := EmptyLayers(|savepoints|);
      forall i | 0 <= i < |savepoints|
        ensures Recoverable(memos, cache, journal[savepoints[i]..], snapshots[i], i)
      {
        assert journal[savepoints[i]..] == old(journal)[savepoints[i]..] + [reset];
        UnwindSplit(memos, cache, old(journal)[savepoints[i]..], [reset]);
        assert Unwind(memos, [reset]) == m && UnwindCache(cache, [reset]) == c;
      }
    }

    /** Keep the writes; an enclosing transaction inherits the journal. */
    method Commit()
      requires Valid() && savepoints != []
      modifies this
      ensures Valid()
      ensures memos == old(memos) && View(cache) == View(old(cache))
      ensures savepoints == old(savepoints)[..|old(savepoints)| - 1]
      ensures snapshots == old(snapshots)[..|old(savepoints)| - 1]
      ensures journal == if |old(savepoints)| == 1 then [] else old(journal)
      ensures cache == RelationCache.Commit(old(cache))
    {
      ghost var before := cache;
      LayersAreInvisible(cache);
      savepoints := savepoints[..|savepoints| - 1];
      snapshots := snapshots[..|savepoints|];
      cache := RelationCache.Commit(cache);
      if savepoints == [] {
        journal := [];
      }
      forall i | 0 <= i < |savepoints|
        ensures Recoverable(memos, cache, journal[savepoints[i]..], snapshots[i], i)
      {
        UnwindCacheCases(before, cache, journal[savepoints[i]..]);
        assert Below(before, i) == Below(before.base, i) == Below(before.base.base, i);
      }
    }

    /** Whether the innermost transaction can be dropped without a trace: the oldest context reset
        journaled since its savepoint, if there is one, holds a cache with one layer for each open
        transaction.  A reset taken in a nested transaction holds one layer more, and stays in the
        journal when that transaction is committed. */
    predicate ResetsOwnLayer()
      requires Valid() && savepoints != []
      reads this
    {
      var reset := OldestReset(journal[savepoints[|savepoints| - 1]..]);
      reset.Some? ==> Depth(reset.value) == |savepoints|
    }

    /** Drop the innermost transaction.  The memos are always those of its savepoint; the cache
        is exactly when the transaction resets its own layer. */
    method Rollback()
      requires Valid() && savepoints != []
      modifies this
      ensures savepoints == old(savepoints)[..|old(savepoints)| - 1]
      ensures snapshots == old(snapshots)[..|old(savepoints)| - 1]
      ensures memos == old(snapshots)[|old(savepoints)| - 1].0
      ensures old(ResetsOwnLayer()) <==> cache == old(snapshots)[|old(savepoints)| - 1].1
      ensures old(ResetsOwnLayer()) ==> Valid()
      ensures var reset := OldestReset(old(journal)[old(savepoints)[|old(savepoints)| - 1]..]);
              var held := if reset.Some? then reset.value else old(cache);
              held.Layer? && cache == held.base
    {
      hide Unwind, UnwindCache, OldestReset;
      ghost var n := |savepoints|;
      ghost var journal0, memos0, cache0 := journal, memos, cache;
      var mark := savepoints[|savepoints| - 1];
      assert Recoverable(memos, cache, journal[mark..], snapshots[n - 1], n - 1);
      OldestResetWins(cache, journal[mark..]);
      savepoints := savepoints[..|savepoints| - 1];
      snapshots := snapshots[..n - 1];
      Replay(mark);
      ghost var restored := cache;
      cache := cache.base;
      if Depth(restored) == n {
        assert Below(restored, n - 1) == Below(restored.base, n - 1) == restored.base;
        forall i | 0 <= i < n - 1
          ensures Recoverable(memos, cache, journal[savepoints[i]..], snapshots[i], i)
        {
          assert Recoverable(memos0, cache0, journal0[savepoints[i]..], snapshots[i], i);
          StillRecoverable(memos0, cache0, journal0, savepoints[i], mark, snapshots[i], i);
          assert journal[savepoints[i]..] == journal0[savepoints[i]..mark];
        }
      }
    }

    /** Undo the journal down to a mark, newest entry first. */
    method Replay(mark: nat)
      requires mark <= |journal|
      modifies this`memos, this`cache, this`journal
      ensures journal == old(journal)[..mark]
      ensures memos == Unwind(old(memos), old(journal)[mark..])
      ensures cache == UnwindCache(old(cache), old(journal)[mark..])
    {
      while |journal| > mark
        invariant mark <= |journal| <= |old(journal)| && journal == old(journal)[..|journal|]
        invariant Unwind(memos, journal[mark..]) == Unwind(old(memos), old(journal)[mark..])
        invariant UnwindCache(cache, journal[mark..]) == UnwindCache(old(cache), old(journal)[mark..])
      {
        var undo := journal[|journal| - 1];
        assert journal[mark..][..|journal| - mark - 1] == journal[..|journal| - 1][mark..];
        memos := UndoMemos(undo, memos);
        if undo.ContextReset? {
          cache := undo.cache;
        }
        journal := journal[..|journal| - 1];
      }
    }
  }

  /** Dropping an inner transaction that resets its own layer keeps an outer one recoverable. */
  lemma StillRecoverable(memos: Memos, cache: Cache, log: seq<Undo>, from: nat, mark: nat, snapshot: (Memos, Cache), layer: nat)
    requires from <= mark <= |log|
    requires Recoverable(memos, cache, log[from..], snapshot, layer)
    requires Depth(UnwindCache(cache, log[mark..])) > layer + 1
    ensures Recoverable(Unwind(memos, log[mark..]), UnwindCache(cache, log[mark..]).base, log[from..mark], snapshot, layer)
  {
    assert log[from..] == log[from..mark] + log[mark..];
    UnwindSplit(memos, cache, log[from..mark], log[mark..]);
    var restored := UnwindCache(cache, log[mark..]);
    UnwindCacheCases(restored, restored.base, log[from..mark]);
  }

  /** A verdict written in a dropped transaction survives the drop when a nested transaction
      reset the context and committed: the snapshot holds no verdict, the restored cache does. */
  method CommittedResetLeaks(k: Key, verdict: bool) returns (state: QueryState, ghost snapshot: (Memos, Cache))
    ensures fresh(state) && state.savepoints == [] && state.memos == snapshot.0
    ensures View(snapshot.1) == map[] && View(state.cache) == map[k := verdict]
  {
    state := CommittedReset(k, verdict);
    snapshot := state.snapshots[0];
    assert state.journal[0..] == state.journal;
    state.Rollback();
    assert View(Root(map[])) + map[k := verdict] == map[k := verdict];
  }

  /** One open transaction, with the verdict written in it, and a reset committed into it. */
  method CommittedReset(k: Key, verdict: bool) returns (state: QueryState)
    ensures fresh(state) && state.Valid() && state.savepoints == [0]
    ensures state.snapshots == [(Memos(map[], map[], map[], {}, {}, None), Root(map[]))]
    ensures exists memos ::
              state.journal == [ContextReset(memos, Layer(Layer(Root(map[]), map[k := verdict]), map[]))]
  {
    state := TwoTransactions(k, verdict);
    ghost var memos := state.memos;
    state.ResetContext((1, 1));
    state.Commit();
    assert state.journal == [ContextReset(memos, Layer(Layer(Root(map[]), map[k := verdict]), map[]))];
    assert state.savepoints == [0] && |state.snapshots| == 1;
  }

  method TwoTransactions(k: Key, verdict: bool) returns (state: QueryState)
    ensures fresh(state) && state.Valid() && state.savepoints == [0, 0] && state.journal == []
    ensures state.cache == Layer(Layer(Root(map[]), map[k := verdict]), map[])
    ensures |state.snapshots| == 2 && state.snapshots[0] == (Memos(map[], map[], map[], {}, {}, None), Root(map[]))
  {
    state := new QueryState();
    state.Open();
    state.PromoteVerdicts(map[k := verdict]);
    assert map[] + map[k := verdict] == map[k := verdict];
    state.Open();
  }
}
