/** Syncing a second time: what was appended is not recognized, so it is appended again. */
module SyncAgain {
  import opened SyncWalk
  import opened SyncOrder

  /** What the first `n` heads add depends only on which exchanged entries are known. */
  lemma {:induction false} SameSynced(fetch: Graph, known: set<Hash>, known': set<Hash>, rank: Entry -> nat,
                                      heads: seq<Entry>, n: nat)
    requires Acyclic(fetch, rank) && n <= |heads|
    requires known * Exchanged(fetch, heads) == known' * Exchanged(fetch, heads)
    ensures Synced(fetch, known, rank, heads[..n]) == Synced(fetch, known', rank, heads[..n])
  {
    if n > 0 {
      SameSynced(fetch, known, known', rank, heads, n - 1);
      NextSame(fetch, known, known', rank, heads, n - 1);
    }
  }

  lemma NextSame(fetch: Graph, known: set<Hash>, known': set<Hash>, rank: Entry -> nat, heads: seq<Entry>, i: nat)
    requires Acyclic(fetch, rank) && i < |heads|
    requires known * Exchanged(fetch, heads) == known' * Exchanged(fetch, heads)
    requires Synced(fetch, known, rank, heads[..i]) == Synced(fetch, known', rank, heads[..i])
    ensures Synced(fetch, known, rank, heads[..i + 1]) == Synced(fetch, known', rank, heads[..i + 1])
  {
    assert HeadAdds(fetch, known, rank, heads[i]) == HeadAdds(fetch, known', rank, heads[i]) by {
      SameAdds(fetch, heads, known, known', rank, heads[i]);
    }
    SyncedStep(fetch, known, rank, heads, i);
    SyncedStep(fetch, known', rank, heads, i);
  }

  /** Syncing the same heads a second time appends the same entries a second time. */
  method SyncTwice(log: OpLog, fetch: Graph, heads: seq<Entry>, wrapper: nat -> Hash, ghost rank: Entry -> nat)
    requires Acyclic(fetch, rank) && WrappersFresh(wrapper, Exchanged(fetch, heads))
    modifies log
    ensures var once := Synced(fetch, old(log.known), rank, heads);
            log.appended == old(log.appended) + once + once
  {
    ghost var known := log.known;
    Sync(log, fetch, heads, wrapper, rank);
    SameSynced(fetch, known, log.known, rank, heads, |heads|);
    assert heads[..|heads|] == heads;
    Sync(log, fetch, heads, wrapper, rank);
  }
}
