/** What the order and the content of a `sync` walk guarantee, and what they do not. */
module SyncOrder {
  import opened Common
  import opened Lists
  import opened SyncWalk

  /** `parent` is a missing entry that `child` points to. */
  ghost predicate Link(g: Graph, child: Entry, parent: Entry) {
    exists h :: h in child.next && h in g && g[h] == parent
  }

  ghost predicate IsPath(g: Graph, path: seq<Entry>) {
    |path| > 0 && forall i :: 0 <= i < |path| - 1 ==> Link(g, path[i], path[i + 1])
  }

  ghost predicate Reachable(g: Graph, from: Entry, to: Entry) {
    exists path :: IsPath(g, path) && path[0] == from && path[|path| - 1] == to
  }

  lemma {:induction false} StackedIsVisited(g: Graph, rank: Entry -> nat, q: seq<Entry>, x: Entry)
    requires Acyclic(g, rank) && x in q
    ensures forall y :: y in Visits(g, rank, x) ==> y in Drain(g, rank, q)
    decreases |q|
  {
    if x != q[|q| - 1] {
      StackedIsVisited(g, rank, q[..|q| - 1], x);
    }
  }

  // -------------------------------------------------------------------- content

  lemma {:induction false} PathIsVisited(g: Graph, rank: Entry -> nat, path: seq<Entry>)
    requires Acyclic(g, rank) && IsPath(g, path)
    ensures path[|path| - 1] in Visits(g, rank, path[0])
    decreases |path|
  {
    if |path| > 1 {
      var rest := path[1..];
      PathIsVisited(g, rank, rest);
      assert Link(g, path[0], path[1]);
      ParentsAreLinked(g, path[0].next);
      StackedIsVisited(g, rank, Parents(g, path[0].next), path[1]);
    }
  }

  lemma {:induction false} VisitHasPath(g: Graph, rank: Entry -> nat, e: Entry, x: Entry) returns (path: seq<Entry>)
    requires Acyclic(g, rank) && x in Visits(g, rank, e)
    ensures IsPath(g, path) && path[0] == e && path[|path| - 1] == x
    decreases rank(e), 1, 0
  {
    if x == e {
      path := [e];
    } else {
      ParentsBelow(g, rank, e);
      var parent, rest := DrainHasPath(g, rank, Parents(g, e.next), x);
      ParentsAreLinked(g, e.next);
      path := [e] + rest;
    }
  }

  lemma {:induction false} DrainHasPath(g: Graph, rank: Entry -> nat, q: seq<Entry>, x: Entry)
    returns (from: Entry, path: seq<Entry>)
    requires Acyclic(g, rank) && x in Drain(g, rank, q)
    ensures from in q && IsPath(g, path) && path[0] == from && path[|path| - 1] == x
    decreases Height(rank, q), 0, |q|
  {
    if x in Visits(g, rank, q[|q| - 1]) {
      from := q[|q| - 1];
      path := VisitHasPath(g, rank, from, x);
    } else {
      from, path := DrainHasPath(g, rank, q[..|q| - 1], x);
    }
  }

  /** The walk collects exactly the head and what is reachable from it through missing entries. */
  lemma VisitsAreReachable(g: Graph, rank: Entry -> nat, head: Entry, x: Entry)
    requires Acyclic(g, rank)
    ensures x in Visits(g, rank, head) <==> Reachable(g, head, x)
  {
    if x in Visits(g, rank, head) {
      var path := VisitHasPath(g, rank, head, x);
    }
    if Reachable(g, head, x) {
      var path :| IsPath(g, path) && path[0] == head && path[|path| - 1] == x;
      PathIsVisited(g, rank, path);
    }
  }

  // ---------------------------------------------------------------------- order

  /** Each time an entry is visited, each of its missing parents is visited later. */
  lemma {:induction false} ParentVisitedLater(g: Graph, rank: Entry -> nat, e: Entry, i: nat, p: Entry) returns (j: nat)
    requires Acyclic(g, rank) && i < |Visits(g, rank, e)| && Link(g, Visits(g, rank, e)[i], p)
    ensures i < j < |Visits(g, rank, e)| && Visits(g, rank, e)[j] == p
    decreases rank(e), 1, 0
  {
    var q := Parents(g, e.next);
    ParentsBelow(g, rank, e);
    if i == 0 {
      ParentsAreLinked(g, e.next);
      StackedIsVisited(g, rank, q, p);
      assert p in Drain(g, rank, q) by { assert Visits(g, rank, p)[0] == p; }
      var m :| 0 <= m < |Drain(g, rank, q)| && Drain(g, rank, q)[m] == p;
      j := m + 1;
    } else {
      j := ParentDrainedLater(g, rank, q, i - 1, p);
      j := j + 1;
    }
  }

  lemma {:induction false} ParentDrainedLater(g: Graph, rank: Entry -> nat, q: seq<Entry>, i: nat, p: Entry)
    returns (j: nat)
    requires Acyclic(g, rank) && i < |Drain(g, rank, q)| && Link(g, Drain(g, rank, q)[i], p)
    ensures i < j < |Drain(g, rank, q)| && Drain(g, rank, q)[j] == p
    decreases Height(rank, q), 0, |q|
  {
    var first := Visits(g, rank, q[|q| - 1]);
    if i < |first| {
      j := ParentVisitedLater(g, rank, q[|q| - 1], i, p);
    } else {
      j := ParentDrainedLater(g, rank, q[..|q| - 1], i - |first|, p);
      j := j + |first|;
    }
  }

  /** The order of the walk, link by link: what hangs off the last link is visited first. */
  lemma LastLinkFirst(fetch: Graph, known: set<Hash>, rank: Entry -> nat, e: Entry, links: seq<Hash>, h: Hash)
    requires Acyclic(fetch, rank) && e.next == links + [h]
    ensures var g := Missing(fetch, known);
            Visits(g, rank, e)
            == [e] + (if h in fetch && fetch[h].hash !in known then Visits(g, rank, fetch[h]) else [])
               + Visits(g, rank, e.(next := links))[1..]
  {
    var g, fewer := Missing(fetch, known), e.(next := links);
    assert e.next[..|e.next| - 1] == links;
    assert Visits(g, rank, fewer)[1..] == Drain(g, rank, Parents(g, links));
    if h in g {
      DropLast(Parents(g, links), [g[h]]);
      assert Drain(g, rank, Parents(g, e.next)) == Visits(g, rank, g[h]) + Drain(g, rank, Parents(g, links));
    } else {
      assert Parents(g, e.next) == Parents(g, links);
    }
  }

  /** The sequence offered to the append guard for one head. */
  ghost function Offered(g: Graph, rank: Entry -> nat, head: Entry): seq<Entry>
    requires Acyclic(g, rank)
  {
    Reverse(Visits(g, rank, head))
  }

  ghost predicate FirstAt<T>(s: seq<T>, i: nat, x: T) {
    i < |s| && s[i] == x && forall j :: 0 <= j < i ==> s[j] != x
  }

  /** Topological order: the first occurrence of a parent comes before the first of any child. */
  lemma ParentsComeFirst(g: Graph, rank: Entry -> nat, head: Entry, child: Entry, parent: Entry, i: nat)
    requires Acyclic(g, rank) && FirstAt(Offered(g, rank, head), i, child) && Link(g, child, parent)
    ensures exists j :: 0 <= j < i && FirstAt(Offered(g, rank, head), j, parent)
  {
    var v, o := Visits(g, rank, head), Offered(g, rank, head);
    var m := ParentVisitedLater(g, rank, head, |v| - 1 - i, parent);
    var j := |v| - 1 - m;
    assert o[j] == parent;
    j := EarliestUpTo(o, j, parent);
  }

  lemma {:induction false} EarliestUpTo<T>(s: seq<T>, hi: nat, x: T) returns (j: nat)
    requires hi < |s| && s[hi] == x
    ensures j <= hi && FirstAt(s, j, x)
  {
    j := hi;
    if exists m :: 0 <= m < hi && s[m] == x {
      var m :| 0 <= m < hi && s[m] == x;
      j := EarliestUpTo(s, m, x);
    }
  }

  // ---------------------------------------------------------------- appending

  /**
   * The op log, as `sync` uses it. Appending wraps the serialized entry in a
   * new entry with a hash of its own, so the entry's own hash stays unknown.
   */
  class OpLog {
    var known: set<Hash>
    var appended: seq<Entry>

    constructor (known: set<Hash>)
      ensures this.known == known && appended == []
    {
      this.known := known;
      appended := [];
    }

    method Append(e: Entry, wrapper: Hash)
      modifies this
      ensures known == old(known) + {wrapper} && appended == old(appended) + [e]
    {
      known := known + {wrapper};
      appended := appended + [e];
    }
  }

  /** The hashes of the entries being exchanged. */
  ghost function Exchanged(fetch: Graph, heads: seq<Entry>): set<Hash> {
    (set x | x in fetch.Values :: x.hash) + (set x | x in heads :: x.hash)
  }

  /** Wrapper hashes are not among them. */
  ghost predicate WrappersFresh(wrapper: nat -> Hash, exchanged: set<Hash>) {
    forall n: nat :: wrapper(n) !in exchanged
  }

  lemma VisitsAreMissing(fetch: Graph, known: set<Hash>, rank: Entry -> nat, head: Entry, x: Entry)
    requires Acyclic(Missing(fetch, known), rank) && x in Visits(Missing(fetch, known), rank, head)
    ensures x == head || (x in fetch.Values && x.hash !in known)
  {
    var g := Missing(fetch, known);
    var path := VisitHasPath(g, rank, head, x);
    if |path| > 1 {
      assert Link(g, path[|path| - 2], x);
    }
  }

  /** Everything `sync` appends, head by head. */
  ghost function Synced(fetch: Graph, known: set<Hash>, rank: Entry -> nat, heads: seq<Entry>): seq<Entry>
    requires Acyclic(fetch, rank)
  {
    if heads == [] then []
    else
      var n := |heads| - 1;
      Synced(fetch, known, rank, heads[..n]) + HeadAdds(fetch, known, rank, heads[n])
  }

  /** What one more head adds. */
  ghost function HeadAdds(fetch: Graph, known: set<Hash>, rank: Entry -> nat, head: Entry): seq<Entry>
    requires Acyclic(fetch, rank)
  {
    if head.hash in known then [] else Offered(Missing(fetch, known), rank, head)
  }

  lemma SyncedStep(fetch: Graph, known: set<Hash>, rank: Entry -> nat, heads: seq<Entry>, i: nat)
    requires Acyclic(fetch, rank) && i < |heads|
    ensures Synced(fetch, known, rank, heads[..i + 1])
            == Synced(fetch, known, rank, heads[..i]) + HeadAdds(fetch, known, rank, heads[i])
  {
    assert heads[..i + 1][..i] == heads[..i];
  }

  // ------------------------------------------------ what is appended, from scratch

  /** `parent` is linked from `child`, can be fetched, and is not in the log. */
  ghost predicate Follows(fetch: Graph, known: set<Hash>, child: Entry, parent: Entry) {
    exists h :: h in child.next && h in fetch && fetch[h] == parent && parent.hash !in known
  }

  /** A chain of such links. */
  ghost predicate Chain(fetch: Graph, known: set<Hash>, path: seq<Entry>) {
    |path| > 0 && forall i :: 0 <= i < |path| - 1 ==> Follows(fetch, known, path[i], path[i + 1])
  }

  /** A chain leads from a head that is not in the log to `x`. */
  ghost predicate Wanted(fetch: Graph, known: set<Hash>, head: Entry, x: Entry) {
    head.hash !in known && exists path :: Chain(fetch, known, path) && path[0] == head && path[|path| - 1] == x
  }

  lemma LinkIsFollows(fetch: Graph, known: set<Hash>, child: Entry, parent: Entry)
    ensures Link(Missing(fetch, known), child, parent) <==> Follows(fetch, known, child, parent)
  {
    var g := Missing(fetch, known);
    if Follows(fetch, known, child, parent) {
      var h :| h in child.next && h in fetch && fetch[h] == parent && parent.hash !in known;
      assert h in g && g[h] == parent;
    }
  }

  lemma ReachableIsChain(fetch: Graph, known: set<Hash>, head: Entry, x: Entry)
    requires head.hash !in known
    ensures Reachable(Missing(fetch, known), head, x) <==> Wanted(fetch, known, head, x)
  {
    forall child, parent
      ensures Link(Missing(fetch, known), child, parent) <==> Follows(fetch, known, child, parent)
    {
      LinkIsFollows(fetch, known, child, parent);
    }
    forall path: seq<Entry> ensures IsPath(Missing(fetch, known), path) <==> Chain(fetch, known, path) {
    }
  }

  lemma HeadAddsWanted(fetch: Graph, known: set<Hash>, rank: Entry -> nat, head: Entry, x: Entry)
    requires Acyclic(fetch, rank)
    ensures x in HeadAdds(fetch, known, rank, head) <==> Wanted(fetch, known, head, x)
  {
    if head.hash !in known {
      ReverseMember(Visits(Missing(fetch, known), rank, head), x);
      VisitsAreReachable(Missing(fetch, known), rank, head, x);
      ReachableIsChain(fetch, known, head, x);
    }
  }

  /** Exactly what a sync appends: what a chain of missing entries leads to from an unknown head. */
  lemma {:induction false} SyncedIsWanted(fetch: Graph, known: set<Hash>, rank: Entry -> nat,
                                          heads: seq<Entry>, x: Entry)
    requires Acyclic(fetch, rank)
    ensures x in Synced(fetch, known, rank, heads) <==> exists head :: head in heads && Wanted(fetch, known, head, x)
  {
    if heads != [] {
      var n := |heads| - 1;
      SyncedIsWanted(fetch, known, rank, heads[..n], x);
      HeadAddsWanted(fetch, known, rank, heads[n], x);
      assert heads == heads[..n] + [heads[n]];
    }
  }

  method AppendMissing(log: OpLog, offered: seq<Entry>, wrapper: nat -> Hash, ghost exchanged: set<Hash>)
    requires WrappersFresh(wrapper, exchanged)
    requires forall x :: x in offered ==> x.hash in exchanged && x.hash !in log.known
    modifies log
    ensures log.appended == old(log.appended) + offered
    ensures log.known * exchanged == old(log.known) * exchanged
  {
    for i := 0 to |offered|
      invariant log.appended == old(log.appended) + offered[..i]
      invariant log.known * exchanged == old(log.known) * exchanged
    {
      assert offered[i] in offered;
      assert offered[i].hash !in log.known * exchanged;
      if offered[i].hash !in log.known {
        log.Append(offered[i], wrapper(|log.appended|));
      }
    }
  }

  /** One head: nothing if it is known, else everything its walk visited, last visit first. */
  method SyncHead(log: OpLog, fetch: Graph, head: Entry, wrapper: nat -> Hash,
                  ghost heads: seq<Entry>, ghost rank: Entry -> nat)
    requires Acyclic(fetch, rank) && WrappersFresh(wrapper, Exchanged(fetch, heads)) && head in heads
    modifies log
    ensures log.appended == old(log.appended) + HeadAdds(fetch, old(log.known), rank, head)
    ensures log.known * Exchanged(fetch, heads) == old(log.known) * Exchanged(fetch, heads)
  {
    if head.hash in log.known {
      return;
    }
    var visited := Walk(fetch, log.known, head, rank);
    forall x | x in Reverse(visited) ensures x.hash in Exchanged(fetch, heads) && x.hash !in log.known {
      VisitsAreMissing(fetch, log.known, rank, head, x);
    }
    AppendMissing(log, Reverse(visited), wrapper, Exchanged(fetch, heads));
  }

  /** Only whether the exchanged entries are known matters. */
  lemma SameAdds(fetch: Graph, heads: seq<Entry>, known: set<Hash>, known': set<Hash>, rank: Entry -> nat, head: Entry)
    requires Acyclic(fetch, rank) && head in heads
    requires known * Exchanged(fetch, heads) == known' * Exchanged(fetch, heads)
    ensures HeadAdds(fetch, known, rank, head) == HeadAdds(fetch, known', rank, head)
  {
    forall x | x in fetch.Values || x in heads ensures x.hash in known <==> x.hash in known' {
      assert x.hash in Exchanged(fetch, heads);
      assert x.hash in known * Exchanged(fetch, heads) <==> x.hash in known' * Exchanged(fetch, heads);
    }
    assert Missing(fetch, known) == Missing(fetch, known');
  }

  lemma SyncedNext(fetch: Graph, heads: seq<Entry>, known: set<Hash>, known': set<Hash>, rank: Entry -> nat,
                   i: nat, appended: seq<Entry>, before: seq<Entry>, after: seq<Entry>)
    requires Acyclic(fetch, rank) && i < |heads|
    requires known * Exchanged(fetch, heads) == known' * Exchanged(fetch, heads)
    requires before == appended + Synced(fetch, known, rank, heads[..i])
    requires after == before + HeadAdds(fetch, known', rank, heads[i])
    ensures after == appended + Synced(fetch, known, rank, heads[..i + 1])
  {
    SyncedStep(fetch, known, rank, heads, i);
    SameAdds(fetch, heads, known, known', rank, heads[i]);
    Associate(appended, Synced(fetch, known, rank, heads[..i]), HeadAdds(fetch, known, rank, heads[i]));
  }

  /** Where `sync` stands after some of the heads, from a log that had `appended` and `known`. */
  ghost predicate SyncedSoFar(log: OpLog, appended: seq<Entry>, known: set<Hash>,
                              fetch: Graph, heads: seq<Entry>, rank: Entry -> nat, i: nat)
    requires Acyclic(fetch, rank) && i <= |heads|
    reads log
  {
    && log.appended == appended + Synced(fetch, known, rank, heads[..i])
    && log.known * Exchanged(fetch, heads) == known * Exchanged(fetch, heads)
  }

  method SyncNext(log: OpLog, fetch: Graph, heads: seq<Entry>, i: nat, wrapper: nat -> Hash,
                  ghost rank: Entry -> nat, ghost appended: seq<Entry>, ghost known: set<Hash>)
    requires Acyclic(fetch, rank) && WrappersFresh(wrapper, Exchanged(fetch, heads)) && i < |heads|
    requires SyncedSoFar(log, appended, known, fetch, heads, rank, i)
    modifies log
    ensures SyncedSoFar(log, appended, known, fetch, heads, rank, i + 1)
  {
    ghost var before, had := log.appended, log.known;
    SyncHead(log, fetch, heads[i], wrapper, heads, rank);
    SyncedNext(fetch, heads, known, had, rank, i, appended, before, log.appended);
  }

  method Sync(log: OpLog, fetch: Graph, heads: seq<Entry>, wrapper: nat -> Hash, ghost rank: Entry -> nat)
    requires Acyclic(fetch, rank) && WrappersFresh(wrapper, Exchanged(fetch, heads))
    modifies log
    ensures log.appended == old(log.appended) + Synced(fetch, old(log.known), rank, heads)
    ensures forall x :: x in log.appended <==>
              || x in old(log.appended)
              || exists head :: head in heads && Wanted(fetch, old(log.known), head, x)
    ensures log.known * Exchanged(fetch, heads) == old(log.known) * Exchanged(fetch, heads)
  {
    ghost var appended, known := log.appended, log.known;
    for i := 0 to |heads|
      invariant SyncedSoFar(log, appended, known, fetch, heads, rank, i)
    {
      SyncNext(log, fetch, heads, i, wrapper, rank, appended, known);
    }
    assert heads[..|heads|] == heads;
    forall x
      ensures x in Synced(fetch, known, rank, heads) <==> exists head :: head in heads && Wanted(fetch, known, head, x)
    {
      SyncedIsWanted(fetch, known, rank, heads, x);
    }
  }
}
