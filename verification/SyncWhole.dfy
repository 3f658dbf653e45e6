/** When a whole `sync`, over all its heads, appends no entry twice. */
module SyncWhole {
  import opened Common
  import opened Lists
  import opened SyncWalk
  import opened SyncOrder
  import opened SyncRepeats

  /** Each head that is not known leads to each missing entry along one link only. */
  ghost predicate EachOnce(fetch: Graph, known: set<Hash>, heads: seq<Entry>) {
    forall i :: 0 <= i < |heads| && heads[i].hash !in known ==> OneLinkIn(Missing(fetch, known), heads[i])
  }

  /** No two of these heads lead to the same entry. */
  ghost predicate Apart(fetch: Graph, known: set<Hash>, heads: seq<Entry>) {
    forall i, j, x :: 0 <= i < j < |heads| ==> !(Wanted(fetch, known, heads[i], x) && Wanted(fetch, known, heads[j], x))
  }

  lemma HeadRepeatsNothingIff(fetch: Graph, known: set<Hash>, rank: Entry -> nat, head: Entry)
    requires Acyclic(fetch, rank)
    ensures NoRepeats(HeadAdds(fetch, known, rank, head))
            <==> head.hash in known || OneLinkIn(Missing(fetch, known), head)
  {
    if head.hash !in known {
      SyncRepeatsNothingIff(Missing(fetch, known), rank, head);
    }
  }

  /** What each head adds. */
  ghost function Additions(fetch: Graph, known: set<Hash>, rank: Entry -> nat, heads: seq<Entry>): (r: seq<seq<Entry>>)
    requires Acyclic(fetch, rank)
    ensures |r| == |heads|
    ensures forall i :: 0 <= i < |r| ==> r[i] == HeadAdds(fetch, known, rank, heads[i])
  {
    seq(|heads|, i requires 0 <= i < |heads| => HeadAdds(fetch, known, rank, heads[i]))
  }

  lemma {:induction false} SyncedIsFlat(fetch: Graph, known: set<Hash>, rank: Entry -> nat, heads: seq<Entry>)
    requires Acyclic(fetch, rank)
    ensures Synced(fetch, known, rank, heads) == Flat(Additions(fetch, known, rank, heads))
  {
    if heads != [] {
      var n := |heads| - 1;
      SyncedIsFlat(fetch, known, rank, heads[..n]);
      LastAddition(fetch, known, rank, heads);
      FlatPush(Additions(fetch, known, rank, heads[..n]), HeadAdds(fetch, known, rank, heads[n]));
    }
  }

  lemma LastAddition(fetch: Graph, known: set<Hash>, rank: Entry -> nat, heads: seq<Entry>)
    requires Acyclic(fetch, rank) && heads != []
    ensures var n := |heads| - 1;
            Additions(fetch, known, rank, heads)
            == Additions(fetch, known, rank, heads[..n]) + [HeadAdds(fetch, known, rank, heads[n])]
  {
    assert forall i :: 0 <= i < |heads| - 1 ==> heads[..|heads| - 1][i] == heads[i];
  }

  lemma OnceIff(fetch: Graph, known: set<Hash>, rank: Entry -> nat, heads: seq<Entry>)
    requires Acyclic(fetch, rank)
    ensures AllOnce(Additions(fetch, known, rank, heads)) <==> EachOnce(fetch, known, heads)
  {
    forall i | 0 <= i < |heads|
      ensures NoRepeats(Additions(fetch, known, rank, heads)[i])
              <==> heads[i].hash in known || OneLinkIn(Missing(fetch, known), heads[i])
    {
      HeadRepeatsNothingIff(fetch, known, rank, heads[i]);
    }
  }

  lemma ApartIff(fetch: Graph, known: set<Hash>, rank: Entry -> nat, heads: seq<Entry>)
    requires Acyclic(fetch, rank)
    ensures AllApart(Additions(fetch, known, rank, heads)) <==> Apart(fetch, known, heads)
  {
    forall i, x | 0 <= i < |heads|
      ensures x in Additions(fetch, known, rank, heads)[i] <==> Wanted(fetch, known, heads[i], x)
    {
      HeadAddsWanted(fetch, known, rank, heads[i], x);
    }
  }

  /**
   * Exactly when a sync appends no entry twice: from each unknown head one link
   * leads to each missing entry, and no two of those heads lead to the same one.
   */
  lemma WholeSyncRepeatsNothingIff(fetch: Graph, known: set<Hash>, rank: Entry -> nat, heads: seq<Entry>)
    requires Acyclic(fetch, rank)
    ensures NoRepeats(Synced(fetch, known, rank, heads))
            <==> EachOnce(fetch, known, heads) && Apart(fetch, known, heads)
  {
    SyncedIsFlat(fetch, known, rank, heads);
    FlatRepeatsNothingIff(Additions(fetch, known, rank, heads));
    OnceIff(fetch, known, rank, heads);
    ApartIff(fetch, known, rank, heads);
  }
}
