/**
 * `sync`: a walk from each announced head through the entries that can be
 * fetched and are not yet in the log. It keeps no visited set, so an entry
 * reachable along several paths is visited once for each of them.
 */
module SyncWalk {
  import opened Common

  type Hash = Bytes

  datatype Entry = Entry(hash: Hash, payload: Bytes, next: seq<Hash>)

  /** What the blob store returns for a hash, once decoded. */
  type Graph = map<Hash, Entry>

  /** The fetchable entries the log does not have. */
  function Missing(fetch: Graph, known: set<Hash>): Graph {
    map h | h in fetch && fetch[h].hash !in known :: fetch[h]
  }

  /** A rank that falls along every parent link: the graph has no cycle. */
  ghost predicate Acyclic(g: Graph, rank: Entry -> nat) {
    forall e: Entry, h :: h in e.next && h in g ==> rank(g[h]) < rank(e)
  }

  /** The missing parents behind a list of links, in link order. */
  function Parents(g: Graph, next: seq<Hash>): seq<Entry> {
    if next == [] then []
    else Parents(g, next[..|next| - 1]) + if next[|next| - 1] in g then [g[next[|next| - 1]]] else []
  }

  lemma {:induction false} ParentsAreLinked(g: Graph, next: seq<Hash>)
    ensures forall p :: p in Parents(g, next) <==> exists h :: h in next && h in g && g[h] == p
  {
    if next != [] {
      var init, last := next[..|next| - 1], next[|next| - 1];
      ParentsAreLinked(g, init);
      assert next == init + [last];
    }
  }

  ghost function Height(rank: Entry -> nat, q: seq<Entry>): nat {
    if q == [] then 0
    else
      var low := Height(rank, q[..|q| - 1]);
      if low <= rank(q[|q| - 1]) then rank(q[|q| - 1]) + 1 else low
  }

  lemma {:induction false} HeightBelow(rank: Entry -> nat, q: seq<Entry>, bound: nat)
    requires forall x :: x in q ==> rank(x) < bound
    ensures Height(rank, q) <= bound
  {
    if q != [] {
      HeightBelow(rank, q[..|q| - 1], bound);
    }
  }

  lemma ParentsBelow(g: Graph, rank: Entry -> nat, e: Entry)
    requires Acyclic(g, rank)
    ensures Height(rank, Parents(g, e.next)) <= rank(e)
  {
    ParentsAreLinked(g, e.next);
    HeightBelow(rank, Parents(g, e.next), rank(e));
  }

  /** The visits made from `e`: itself, then its parents, the last link first. */
  ghost function Visits(g: Graph, rank: Entry -> nat, e: Entry): (r: seq<Entry>)
    requires Acyclic(g, rank)
    ensures |r| > 0 && r[0] == e
    decreases rank(e), 1, 0
  {
    ParentsBelow(g, rank, e);
    [e] + Drain(g, rank, Parents(g, e.next))
  }

  /** The visits made until a stack is empty, its last element being its top. */
  ghost function Drain(g: Graph, rank: Entry -> nat, q: seq<Entry>): seq<Entry>
    requires Acyclic(g, rank)
    decreases Height(rank, q), 0, |q|
  {
    if q == [] then []
    else Visits(g, rank, q[|q| - 1]) + Drain(g, rank, q[..|q| - 1])
  }

  lemma DropLast<T>(a: seq<T>, b: seq<T>)
    requires b != []
    ensures (a + b)[..|a + b| - 1] == a + b[..|b| - 1] && (a + b)[|a + b| - 1] == b[|b| - 1]
  {
  }

  lemma {:induction false} DrainPushed(g: Graph, rank: Entry -> nat, q: seq<Entry>, pushed: seq<Entry>)
    requires Acyclic(g, rank)
    ensures Drain(g, rank, q + pushed) == Drain(g, rank, pushed) + Drain(g, rank, q)
    decreases |pushed|
  {
    if pushed == [] {
      assert q + pushed == q;
    } else {
      var n := |pushed| - 1;
      DrainPushed(g, rank, q, pushed[..n]);
      DropLast(q, pushed);
      Associate(Visits(g, rank, pushed[n]), Drain(g, rank, pushed[..n]), Drain(g, rank, q));
    }
  }

  /** One turn of the loop: visit the top of the stack and push its missing parents. */
  lemma DrainTurn(g: Graph, rank: Entry -> nat, q: seq<Entry>)
    requires Acyclic(g, rank) && q != []
    ensures var top := q[|q| - 1];
            Drain(g, rank, q) == [top] + Drain(g, rank, q[..|q| - 1] + Parents(g, top.next))
  {
    var rest, pushed := q[..|q| - 1], Parents(g, q[|q| - 1].next);
    DrainPushed(g, rank, rest, pushed);
    Associate([q[|q| - 1]], Drain(g, rank, pushed), Drain(g, rank, rest));
  }

  method PushParents(fetch: Graph, known: set<Hash>, queue: seq<Entry>, entry: Entry) returns (pushed: seq<Entry>)
    ensures pushed == queue + Parents(Missing(fetch, known), entry.next)
  {
    pushed := queue;
    for i := 0 to |entry.next|
      invariant pushed == queue + Parents(Missing(fetch, known), entry.next[..i])
    {
      var h := entry.next[i];
      assert entry.next[..i + 1][..i] == entry.next[..i];
      if h in fetch && fetch[h].hash !in known {
        pushed := pushed + [fetch[h]];
      }
    }
    assert entry.next[..|entry.next|] == entry.next;
  }

  /** The walk: it ends, and visits exactly `Visits`, in that order. */
  method Walk(fetch: Graph, known: set<Hash>, head: Entry, ghost rank: Entry -> nat) returns (visited: seq<Entry>)
    requires Acyclic(Missing(fetch, known), rank)
    ensures visited == Visits(Missing(fetch, known), rank, head)
  {
    ghost var g := Missing(fetch, known);
    visited := [];
    var queue := [head];
    assert Drain(g, rank, queue) == Visits(g, rank, head) + Drain(g, rank, []);
    while |queue| > 0
      invariant visited + Drain(g, rank, queue) == Visits(g, rank, head)
      decreases |Drain(g, rank, queue)|
    {
      DrainTurn(g, rank, queue);
      var entry := queue[|queue| - 1];
      visited := visited + [entry];
      queue := PushParents(fetch, known, queue[..|queue| - 1], entry);
    }
  }
}
