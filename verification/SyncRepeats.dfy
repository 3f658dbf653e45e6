/**
 * How often `sync` appends an entry. The guard before each append looks for the
 * entry's own hash, which appending does not record, so an entry is appended
 * once per visit: exactly once only where a single link leads to it.
 */
module SyncRepeats {
  import opened Common
  import opened Lists
  import opened SyncWalk
  import opened SyncOrder

  /** How many links of `x` lead to the missing entry `p`. */
  function LinkCount(g: Graph, x: Entry, p: Entry): nat {
    multiset(Parents(g, x.next))[p]
  }

  /** The same, for any `x`. */
  function LinksTo(g: Graph, p: Entry): Entry -> nat {
    (x: Entry) => LinkCount(g, x, p)
  }

  /** Conservation: an entry is visited once for the head and once for each link out of a visit. */
  lemma {:induction false} VisitsAreConserved(g: Graph, rank: Entry -> nat, e: Entry, p: Entry)
    requires Acyclic(g, rank)
    ensures multiset(Visits(g, rank, e))[p]
            == (if e == p then 1 else 0) + Sum(Visits(g, rank, e), LinksTo(g, p))
    decreases rank(e), 1, 0
  {
    var q := Parents(g, e.next);
    ParentsBelow(g, rank, e);
    DrainIsConserved(g, rank, q, p);
    CountConcat([e], Drain(g, rank, q), LinksTo(g, p), p);
    assert Sum([e], LinksTo(g, p)) == LinkCount(g, e, p) by { assert [e][1..] == []; }
  }

  lemma {:induction false} DrainIsConserved(g: Graph, rank: Entry -> nat, q: seq<Entry>, p: Entry)
    requires Acyclic(g, rank)
    ensures multiset(Drain(g, rank, q))[p] == multiset(q)[p] + Sum(Drain(g, rank, q), LinksTo(g, p))
    decreases Height(rank, q), 0, |q|
  {
    if q != [] {
      var init, top := q[..|q| - 1], q[|q| - 1];
      VisitsAreConserved(g, rank, top, p);
      DrainIsConserved(g, rank, init, p);
      CountConcat(Visits(g, rank, top), Drain(g, rank, init), LinksTo(g, p), p);
      CountLast(q, p);
    }
  }

  /** No missing entry reachable from `head` is the target of two links. */
  ghost predicate OneLinkIn(g: Graph, head: Entry) {
    forall c, d, i, j |
      && Reachable(g, head, c) && 0 <= i < |c.next| && c.next[i] in g
      && Reachable(g, head, d) && 0 <= j < |d.next| && d.next[j] in g
      && g[c.next[i]] == g[d.next[j]]
      :: c == d && i == j
  }

  lemma {:induction false} SomeLink(g: Graph, next: seq<Hash>, p: Entry) returns (i: nat)
    requires multiset(Parents(g, next))[p] > 0
    ensures i < |next| && next[i] in g && g[next[i]] == p
  {
    ParentsAreLinked(g, next);
    assert p in Parents(g, next);
    var h :| h in next && h in g && g[h] == p;
    i :| 0 <= i < |next| && next[i] == h;
  }

  lemma {:induction false} TwoLinks(g: Graph, next: seq<Hash>, p: Entry) returns (i: nat, j: nat)
    requires multiset(Parents(g, next))[p] >= 2
    ensures i < j < |next| && next[i] in g && next[j] in g && g[next[i]] == g[next[j]] == p
  {
    var n := |next| - 1;
    if next[n] in g && g[next[n]] == p {
      i := SomeLink(g, next[..n], p);
      j := n;
    } else {
      i, j := TwoLinks(g, next[..n], p);
    }
  }

  lemma {:induction false} LinkIsCounted(g: Graph, next: seq<Hash>, i: nat)
    requires i < |next| && next[i] in g
    ensures multiset(Parents(g, next))[g[next[i]]] >= 1
  {
    ParentsAreLinked(g, next);
    assert g[next[i]] in Parents(g, next);
  }

  lemma {:induction false} TwoLinksAreCounted(g: Graph, next: seq<Hash>, i: nat, j: nat)
    requires i < j < |next| && next[i] in g && next[j] in g && g[next[i]] == g[next[j]]
    ensures multiset(Parents(g, next))[g[next[i]]] >= 2
  {
    var init := next[..|next| - 1];
    assert init[i] == next[i];
    if j < |init| {
      TwoLinksAreCounted(g, init, i, j);
    } else {
      LinkIsCounted(g, init, i);
    }
  }

  lemma {:induction false} RankFalls(g: Graph, rank: Entry -> nat, path: seq<Entry>)
    requires Acyclic(g, rank) && IsPath(g, path)
    ensures rank(path[|path| - 1]) <= rank(path[0])
  {
    if |path| > 1 {
      var init := path[..|path| - 1];
      assert Link(g, path[|path| - 2], path[|path| - 1]);
      RankFalls(g, rank, init);
    }
  }

  /** With one link into each entry, each is visited once: by induction from the head down. */
  lemma {:induction false} OneLinkOneVisit(g: Graph, rank: Entry -> nat, head: Entry, p: Entry)
    requires Acyclic(g, rank) && OneLinkIn(g, head)
    ensures multiset(Visits(g, rank, head))[p] <= 1
    decreases if rank(p) <= rank(head) then rank(head) - rank(p) + 1 else 0
  {
    var v := Visits(g, rank, head);
    VisitsAreConserved(g, rank, head, p);
    if Sum(v, LinksTo(g, p)) >= 2 {
      var i, j := TermsOfTwo(v, LinksTo(g, p));
      SourcesCoincide(g, rank, head, p, i, j);
      if i == j {
        var a, b := TwoLinks(g, v[i].next, p);
        VisitsAreReachable(g, rank, head, v[i]);
        assert false;
      } else {
        CountOfTwo(v, i, j);
        OneLinkOneVisit(g, rank, head, v[i]);
        assert false;
      }
    } else if head == p && Sum(v, LinksTo(g, p)) >= 1 {
      var i := SomeTerm(v, LinksTo(g, p));
      SourcesCoincide(g, rank, head, p, i, i);
      assert false;
    }
  }

  /** Visits with a link to `p` are of one and the same entry, which ranks above `p`. */
  lemma SourcesCoincide(g: Graph, rank: Entry -> nat, head: Entry, p: Entry, i: nat, j: nat)
    requires Acyclic(g, rank) && OneLinkIn(g, head)
    requires i < |Visits(g, rank, head)| && j < |Visits(g, rank, head)|
    requires LinkCount(g, Visits(g, rank, head)[i], p) > 0 && LinkCount(g, Visits(g, rank, head)[j], p) > 0
    ensures Visits(g, rank, head)[i] == Visits(g, rank, head)[j]
    ensures rank(p) < rank(Visits(g, rank, head)[i]) <= rank(head)
  {
    var c, d := Visits(g, rank, head)[i], Visits(g, rank, head)[j];
    var a := SomeLink(g, c.next, p);
    var b := SomeLink(g, d.next, p);
    VisitsAreReachable(g, rank, head, c);
    VisitsAreReachable(g, rank, head, d);
    var path := VisitHasPath(g, rank, head, c);
    RankFalls(g, rank, path);
  }

  lemma ReverseRepeats<T>(s: seq<T>)
    ensures NoRepeats(Reverse(s)) <==> NoRepeats(s)
  {
    var r := Reverse(s);
    if NoRepeats(r) {
      forall i, j | 0 <= i < j < |s| ensures s[i] != s[j] {
        assert r[|s| - 1 - j] == s[j] && r[|s| - 1 - i] == s[i];
      }
    }
  }

  lemma OneLinkNoRepeats(g: Graph, rank: Entry -> nat, head: Entry)
    requires Acyclic(g, rank) && OneLinkIn(g, head)
    ensures NoRepeats(Visits(g, rank, head))
  {
    var v := Visits(g, rank, head);
    forall i, j | 0 <= i < j < |v| ensures v[i] != v[j] {
      if v[i] == v[j] {
        CountOfTwo(v, i, j);
        OneLinkOneVisit(g, rank, head, v[i]);
        assert false;
      }
    }
  }

  lemma NoRepeatsOneLink(g: Graph, rank: Entry -> nat, head: Entry)
    requires Acyclic(g, rank) && NoRepeats(Visits(g, rank, head))
    ensures OneLinkIn(g, head)
  {
    CountOfNone(Visits(g, rank, head));
    forall c, d, i, j |
      && Reachable(g, head, c) && 0 <= i < |c.next| && c.next[i] in g
      && Reachable(g, head, d) && 0 <= j < |d.next| && d.next[j] in g
      && g[c.next[i]] == g[d.next[j]]
      ensures c == d && i == j
    {
      SingleVisitSingleLink(g, rank, head, c, d, i, j);
    }
  }

  /** Exactly when `sync` appends no entry twice for one head. */
  lemma SyncRepeatsNothingIff(g: Graph, rank: Entry -> nat, head: Entry)
    requires Acyclic(g, rank)
    ensures NoRepeats(Offered(g, rank, head)) <==> OneLinkIn(g, head)
  {
    ReverseRepeats(Visits(g, rank, head));
    if OneLinkIn(g, head) {
      OneLinkNoRepeats(g, rank, head);
    } else if NoRepeats(Visits(g, rank, head)) {
      NoRepeatsOneLink(g, rank, head);
    }
  }

  lemma SingleVisitSingleLink(g: Graph, rank: Entry -> nat, head: Entry, c: Entry, d: Entry, i: nat, j: nat)
    requires Acyclic(g, rank) && forall x :: multiset(Visits(g, rank, head))[x] <= 1
    requires Reachable(g, head, c) && i < |c.next| && c.next[i] in g
    requires Reachable(g, head, d) && j < |d.next| && d.next[j] in g
    requires g[c.next[i]] == g[d.next[j]]
    ensures c == d && i == j
  {
    var v, p := Visits(g, rank, head), g[c.next[i]];
    VisitsAreReachable(g, rank, head, c);
    VisitsAreReachable(g, rank, head, d);
    var m :| 0 <= m < |v| && v[m] == c;
    var n :| 0 <= n < |v| && v[n] == d;
    LinkIsCounted(g, c.next, i);
    LinkIsCounted(g, d.next, j);
    VisitsAreConserved(g, rank, head, p);
    SumOfTwo(v, LinksTo(g, p), m, n);
    if i < j && c == d {
      TwoLinksAreCounted(g, c.next, i, j);
    } else if j < i && c == d {
      TwoLinksAreCounted(g, c.next, j, i);
    }
  }

  const ROOT: Entry := Entry([0], [], [])
  const LEFT: Entry := Entry([1], [], [[0]])
  const RIGHT: Entry := Entry([2], [], [[0]])
  const MERGE: Entry := Entry([3], [], [[1], [2]])
  const DIAMOND: Graph := map[[0] := ROOT, [1] := LEFT, [2] := RIGHT]

  function DiamondRank(e: Entry): nat {
    if e == ROOT then 0 else if e == LEFT || e == RIGHT then 1 else 2
  }

  /** The smallest graph that goes wrong: a merge of two branches appends their common parent twice. */
  lemma DiamondRepeats()
    ensures Acyclic(DIAMOND, DiamondRank)
    ensures !NoRepeats(Offered(DIAMOND, DiamondRank, MERGE))
  {
    var one, two: Hash := [1], [2];
    assert one[0] != two[0] && MERGE.next[0] == one && MERGE.next[1] == two;
    assert one in DIAMOND && DIAMOND[one] == LEFT && two in DIAMOND && DIAMOND[two] == RIGHT;
    assert IsPath(DIAMOND, [MERGE, LEFT]) && IsPath(DIAMOND, [MERGE, RIGHT]);
    SyncRepeatsNothingIff(DIAMOND, DiamondRank, MERGE);
    assert DIAMOND[LEFT.next[0]] == DIAMOND[RIGHT.next[0]];
    assert LEFT != RIGHT && Reachable(DIAMOND, MERGE, LEFT) && Reachable(DIAMOND, MERGE, RIGHT);
  }

  /** A sync appends nothing exactly when every head was known. */
  lemma {:induction false} SyncAddsNothingIff(fetch: Graph, known: set<Hash>, rank: Entry -> nat, heads: seq<Entry>)
    requires Acyclic(fetch, rank)
    ensures Synced(fetch, known, rank, heads) == [] <==> forall x :: x in heads ==> x.hash in known
  {
    if heads != [] {
      var n := |heads| - 1;
      SyncAddsNothingIff(fetch, known, rank, heads[..n]);
      assert heads == heads[..n] + [heads[n]];
    }
  }
}
