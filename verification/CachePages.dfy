/** What consecutive pages and descending order give for whole queries. */
module CachePages {
  import opened Common
  import opened Keys
  import opened Cache
  import opened Paging
  import opened CacheQuery

  /** Everything a query asks for, ascending. */
  function Everything(q: Query): Query {
    Query(q.prefix, None, Asc, None)
  }

  /** Which items of everything a query shows: those in the window, from the other end for a descending query. */
  lemma AnswerIsWindow(rows: seq<Row>, q: Query)
    ensures var offset := match q.offset case Some(n) => n case None => 0;
            Shows(Answer(rows, Everything(q)), Answer(rows, q), offset, q.limit, q.order == Desc)
  {
    PageIsWindow(Matches(rows, q.prefix), q);
  }

  lemma PageIsWindow(m: seq<Row>, q: Query)
    ensures Shows(PageOf(m, Everything(q)), PageOf(m, q), OffsetOf(q), q.limit, q.order == Desc)
  {
    WindowShows(m, ToItem, OffsetOf(q), q.limit, q.order == Desc);
    assert Window(m, 0, None) == m;
  }

  /** After any history of puts and deletes by path, a full query answers what a plain map of keys holds. */
  lemma QueryAfterHistory(commands: seq<Command>, q: Query, k: Key, value: Bytes)
    requires Normal(k) && q.limit.None? && q.offset.None?
    ensures Item(k, value) in Answer(RowsAfter(commands), q)
            <==> && k in PlainMap(commands) && PlainMap(commands)[k] == value
                 && (q.prefix.Some? ==> AsStr(q.prefix.value) <= AsStr(k))
  {
    RoundTrip(k);
    DatastoreIsPlainMap(commands, AsStr(k));
    AnswerIsExactly(RowsAfter(commands), q, k, value);
  }

  // ----------------------------------------------------------- consecutive pages

  /** The query for the `n` items after those of `q`. */
  function NextPage(q: Query, n: nat): Query {
    q.(offset := Some(OffsetOf(q) + n))
  }

  /** A page, and what the page after it would be without a limit, split the page without a limit. */
  lemma SplitMatches(m: seq<Row>, q: Query, n: nat)
    requires n > 0 && q.order == Asc
    ensures var all := PageOf(m, q.(limit := None));
            && PageOf(m, q.(limit := Some(n))) == Take(all, n)
            && PageOf(m, NextPage(q, n).(limit := None)) == Drop(all, n)
  {
    WindowParts(m, ToItem, OffsetOf(q), n);
  }

  /** `c` consecutive pages of `n` of the matches `m`. */
  function PagesOf(m: seq<Row>, q: Query, n: nat, c: nat): seq<Item>
    decreases c
  {
    if c == 0 then [] else PageOf(m, q.(limit := Some(n))) + PagesOf(m, NextPage(q, n), n, c - 1)
  }

  lemma OnePageMore(m: seq<Row>, q: Query, n: nat, c: nat, k: nat)
    requires n > 0 && c > 0 && q.order == Asc
    requires PagesOf(m, NextPage(q, n), n, c - 1) == Take(PageOf(m, NextPage(q, n).(limit := None)), k)
    ensures PagesOf(m, q, n, c) == Take(PageOf(m, q.(limit := None)), n + k)
  {
    SplitMatches(m, q, n);
    TakeMore(PageOf(m, q.(limit := None)), n, k);
  }

  lemma OneTimeMore(n: nat, c: nat)
    requires c > 0
    ensures 0 <= (c - 1) * n && c * n == n + (c - 1) * n
  {
  }

  lemma {:induction false} PagesOfConcatenate(m: seq<Row>, q: Query, n: nat, c: nat)
    requires n > 0 && q.order == Asc
    ensures 0 <= c * n && PagesOf(m, q, n, c) == Take(PageOf(m, q.(limit := None)), c * n)
    decreases c
  {
    if c == 0 {
      assert c * n == 0;
    } else {
      OneTimeMore(n, c);
      PagesOfConcatenate(m, NextPage(q, n), n, c - 1);
      OnePageMore(m, q, n, c, (c - 1) * n);
    }
  }

  /** The answers to `c` consecutive queries for `n` items, one after the other. */
  function AnswerPages(rows: seq<Row>, q: Query, n: nat, c: nat): seq<Item>
    decreases c
  {
    if c == 0 then [] else Answer(rows, q.(limit := Some(n))) + AnswerPages(rows, NextPage(q, n), n, c - 1)
  }

  lemma {:induction false} AnswersArePages(rows: seq<Row>, q: Query, n: nat, c: nat)
    ensures AnswerPages(rows, q, n, c) == PagesOf(Matches(rows, q.prefix), q, n, c)
    decreases c
  {
    if c > 0 {
      AnswersArePages(rows, NextPage(q, n), n, c - 1);
    }
  }

  /**
   * The items of consecutive ascending queries are those of the query without
   * a limit, in order, with no gap and no repeat.
   */
  lemma PagesConcatenate(rows: seq<Row>, q: Query, n: nat, c: nat)
    requires n > 0 && q.order == Asc
    ensures 0 <= c * n && AnswerPages(rows, q, n, c) == Take(Answer(rows, q.(limit := None)), c * n)
  {
    AnswersArePages(rows, q, n, c);
    PagesOfConcatenate(Matches(rows, q.prefix), q, n, c);
  }

  // ------------------------------------------------------------ descending pages

  /** Items of tidy rows tell the rows apart. */
  lemma RenderIsInjective(a: seq<Row>, b: seq<Row>)
    requires forall r :: r in a || r in b ==> AsStr(NewKey(r.key)) == r.key
    ensures Render(a) == Render(b) <==> a == b
  {
    if Render(a) == Render(b) {
      assert |a| == |Render(a)| == |b|;
      forall i | 0 <= i < |a| ensures a[i] == b[i] {
        assert Render(a)[i] == ToItem(a[i]) && Render(b)[i] == ToItem(b[i]);
        assert a[i] in a && b[i] in b;
      }
    }
  }

  lemma SortedHasNoRepeats(rows: seq<Row>)
    requires Sorted(rows)
    ensures NoRepeats(rows)
  {
    forall i, j | 0 <= i < j < |rows| ensures rows[i] != rows[j] {
      LessIsStrict(rows[i].key, rows[j].key);
    }
  }

  /**
   * A descending query reverses the page it cut from the ascending list.
   * Exactly when that is the page of the descending list.
   */
  lemma DescendingQueryIff(rows: seq<Row>, q: Query)
    requires Tidy(rows) && q.order == Desc
    ensures var m := Matches(rows, q.prefix);
            Answer(rows, q) == Render(Window(Reverse(m), OffsetOf(q), q.limit))
            <==> Centred(|m|, OffsetOf(q), q.limit)
  {
    var m := Matches(rows, q.prefix);
    var page := Window(m, OffsetOf(q), q.limit);
    MatchesAreSorted(rows, q.prefix);
    SortedHasNoRepeats(m);
    PageMembers(m, OffsetOf(q), q.limit);
    PageMembers(Reverse(m), OffsetOf(q), q.limit);
    PageMembers(page, 0, None);
    RenderIsInjective(Reverse(page), Window(Reverse(m), OffsetOf(q), q.limit));
    DescendingPageIff(m, OffsetOf(q), q.limit);
  }
}
