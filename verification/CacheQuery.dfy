/** Queries: a range scan that stops early must agree with a plain filter of the table. */
module CacheQuery {
  import opened Common
  import opened Lists
  import opened Keys
  import opened Cache
  import opened Paging

  datatype Order = Asc | Desc

  datatype Query = Query(prefix: Option<Key>, limit: Option<nat>, order: Order, offset: Option<nat>)

  datatype Item = Item(key: Key, value: Bytes)

  /** The text a query looks for. */
  function Printed(prefix: Option<Key>): Option<string> {
    if prefix.Some? then Some(AsStr(prefix.value)) else None
  }

  predicate RowMatches(row: Row, text: Option<string>) {
    text.None? || text.value <= row.key
  }

  /** The plain filter: all rows that match, in table order. */
  function Matches(rows: seq<Row>, prefix: Option<Key>): seq<Row> {
    if rows == [] then []
    else (if RowMatches(rows[0], Printed(prefix)) then [rows[0]] else []) + Matches(rows[1..], prefix)
  }

  /** The rows a range scan starts from: keys at or after the prefix. */
  function Range(rows: seq<Row>, from: string): seq<Row> {
    if rows == [] then []
    else (if !Less(rows[0].key, from) then [rows[0]] else []) + Range(rows[1..], from)
  }

  /** Whether a row matches a text, for any row. */
  function Hits(text: Option<string>): Row -> bool {
    (row: Row) => RowMatches(row, text)
  }

  function ToItem(row: Row): Item { Item(NewKey(row.key), row.value) }

  function Render(rows: seq<Row>): seq<Item> {
    Map(rows, ToItem)
  }

  function OffsetOf(q: Query): nat { if q.offset.Some? then q.offset.value else 0 }

  /** What a query answers, said without any scan. */
  function Answer(rows: seq<Row>, q: Query): seq<Item> {
    PageOf(Matches(rows, q.prefix), q)
  }

  /** The page a query shows of its matches. */
  function PageOf(m: seq<Row>, q: Query): seq<Item> {
    var page := Window(m, OffsetOf(q), q.limit);
    Render(if q.order == Desc then Reverse(page) else page)
  }

  // ------------------------------------------------------- scanning finds the block

  lemma {:induction false} NothingBefore(rows: seq<Row>, prefix: Key)
    requires forall r :: r in rows ==> !(AsStr(prefix) <= r.key)
    ensures Matches(rows, Some(prefix)) == []
  {
    if rows != [] {
      assert rows == [rows[0]] + rows[1..];
      NothingBefore(rows[1..], prefix);
    }
  }

  lemma {:induction false} ScanOfRange(rows: seq<Row>, prefix: Key)
    requires Sorted(rows) && forall r :: r in rows ==> !Less(r.key, AsStr(prefix))
    ensures TakeWhile(rows, Hits(Some(AsStr(prefix)))) == Matches(rows, Some(prefix))
  {
    if rows != [] {
      var p := AsStr(prefix);
      assert rows == [rows[0]] + rows[1..];
      if p <= rows[0].key {
        ScanOfRange(rows[1..], prefix);
      } else {
        forall r | r in rows ensures !(p <= r.key) {
          if p <= r.key {
            LessIsStrict(rows[0].key, r.key);
            PrefixBlock(p, rows[0].key, r.key);
            assert false;
          }
        }
        NothingBefore(rows, prefix);
      }
    }
  }

  /** On a sorted table the scan from the prefix to the first mismatch sees exactly the matches. */
  lemma {:induction false} ScanFindsMatches(rows: seq<Row>, prefix: Key)
    requires Sorted(rows)
    ensures TakeWhile(Range(rows, AsStr(prefix)), Hits(Some(AsStr(prefix)))) == Matches(rows, Some(prefix))
  {
    if rows != [] {
      var p, first := AsStr(prefix), rows[0];
      assert rows == [first] + rows[1..];
      if Less(first.key, p) {
        ScanFindsMatches(rows[1..], prefix);
        if p <= first.key {
          PrefixIsLow(p, first.key);
        }
        assert Range(rows, p) == Range(rows[1..], p) && Matches(rows, Some(prefix)) == Matches(rows[1..], Some(prefix));
      } else {
        forall i | 0 <= i < |rows| ensures !Less(rows[i].key, p) {
          if i > 0 && Less(rows[i].key, p) {
            LessIsTransitive(first.key, rows[i].key, p);
          }
        }
        RangeIsAll(rows, p);
        ScanOfRange(rows, prefix);
      }
    }
  }

  lemma {:induction false} RangeIsAll(rows: seq<Row>, p: string)
    requires forall r :: r in rows ==> !Less(r.key, p)
    ensures Range(rows, p) == rows
  {
    if rows != [] {
      assert rows == [rows[0]] + rows[1..];
      RangeIsAll(rows[1..], p);
    }
  }

  lemma {:induction false} NoPrefixTakesAll(rows: seq<Row>)
    ensures Matches(rows, None) == rows && TakeWhile(rows, Hits(None)) == rows
  {
    if rows != [] {
      assert rows == [rows[0]] + rows[1..];
      NoPrefixTakesAll(rows[1..]);
    }
  }

  // --------------------------------------------------- what the answer is, from scratch

  lemma {:induction false} MatchesAreSorted(rows: seq<Row>, prefix: Option<Key>)
    requires Sorted(rows)
    ensures Sorted(Matches(rows, prefix))
    ensures forall r :: r in Matches(rows, prefix) ==> r in rows
  {
    if rows != [] {
      MatchesAreSorted(rows[1..], prefix);
      if RowMatches(rows[0], Printed(prefix)) {
        ConsSorted(rows[0], Matches(rows[1..], prefix));
      }
    }
  }

  /** Printed keys go up. */
  ghost predicate Rises(items: seq<Item>) {
    forall i, j :: 0 <= i < j < |items| ==> Before(AsStr(items[i].key), AsStr(items[j].key))
  }

  /** Printed keys go down. */
  ghost predicate Falls(items: seq<Item>) {
    forall i, j :: 0 <= i < j < |items| ==> Before(AsStr(items[j].key), AsStr(items[i].key))
  }

  lemma SortedRises(rows: seq<Row>)
    requires Tidy(rows)
    ensures Rises(Render(rows))
  {
    var items := Render(rows);
    forall i, j | 0 <= i < j < |items| ensures Before(AsStr(items[i].key), AsStr(items[j].key)) {
      assert items[i] == ToItem(rows[i]) && items[j] == ToItem(rows[j]) && rows[i] in rows && rows[j] in rows;
      LessIff(rows[i].key, rows[j].key);
    }
  }

  lemma RisesReversed(items: seq<Item>)
    requires Rises(items)
    ensures Falls(Reverse(items))
  {
  }

  lemma PageIsTidy(rows: seq<Row>, q: Query)
    requires Tidy(rows)
    ensures Tidy(Window(Matches(rows, q.prefix), OffsetOf(q), q.limit))
    ensures forall r :: r in Window(Matches(rows, q.prefix), OffsetOf(q), q.limit) ==> r in rows
  {
    var m := Matches(rows, q.prefix);
    MatchesAreSorted(rows, q.prefix);
    PageMembers(m, OffsetOf(q), q.limit);
    SortedSlice(m, OffsetOf(q), q.limit);
  }

  lemma SortedSlice(m: seq<Row>, offset: nat, limit: Option<nat>)
    requires Sorted(m)
    ensures Sorted(Window(m, offset, limit))
  {
    var c := WindowIsSlice(m, offset, limit);
  }

  /** Ascending answers go up by printed key, descending ones go down. */
  lemma AnswerIsOrdered(rows: seq<Row>, q: Query)
    requires Tidy(rows)
    ensures if q.order == Asc then Rises(Answer(rows, q)) else Falls(Answer(rows, q))
  {
    var page := Window(Matches(rows, q.prefix), OffsetOf(q), q.limit);
    PageIsTidy(rows, q);
    SortedRises(page);
    if q.order == Desc {
      MapReverse(page, ToItem);
      RisesReversed(Render(page));
    }
  }

  lemma {:induction false} RowIsFound(rows: seq<Row>, r: Row)
    requires Sorted(rows) && r in rows
    ensures Find(rows, r.key) == Some(r.value)
  {
    if rows[0] != r {
      var i :| 0 < i < |rows| && rows[i] == r;
      LessIsStrict(rows[0].key, r.key);
      assert rows[1..][i - 1] == r;
      RowIsFound(rows[1..], r);
    }
  }

  lemma {:induction false} FoundIsRow(rows: seq<Row>, key: string) returns (r: Row)
    requires Find(rows, key).Some?
    ensures r in rows && r.key == key && Some(r.value) == Find(rows, key)
  {
    if rows[0].key == key {
      r := rows[0];
    } else {
      r := FoundIsRow(rows[1..], key);
    }
  }

  /** Every item is a stored key with its value, under the prefix. */
  lemma ItemsAreStored(rows: seq<Row>, q: Query, item: Item)
    requires Tidy(rows) && item in Answer(rows, q)
    ensures Find(rows, AsStr(item.key)) == Some(item.value)
    ensures q.prefix.Some? ==> AsStr(q.prefix.value) <= AsStr(item.key)
  {
    var m := Matches(rows, q.prefix);
    var page := Window(m, OffsetOf(q), q.limit);
    PageMembers(m, OffsetOf(q), q.limit);
    var r := ItemHasRow(page, q.order, item);
    MatchesAreFilter(rows, q.prefix, r);
    RowIsFound(rows, r);
  }

  lemma ItemHasRow(page: seq<Row>, order: Order, item: Item) returns (r: Row)
    requires item in Render(if order == Desc then Reverse(page) else page)
    ensures r in page && item == ToItem(r)
  {
    var shown := if order == Desc then Reverse(page) else page;
    var i :| 0 <= i < |Render(shown)| && Render(shown)[i] == item;
    r := shown[i];
    ReverseMember(page, r);
  }

  /** Without offset and limit, exactly the stored keys under the prefix are answered, with their values. */
  lemma AnswerIsExactly(rows: seq<Row>, q: Query, k: Key, value: Bytes)
    requires Tidy(rows) && Normal(k) && q.limit.None? && q.offset.None?
    ensures Item(k, value) in Answer(rows, q)
            <==> && Find(rows, AsStr(k)) == Some(value)
                 && (q.prefix.Some? ==> AsStr(q.prefix.value) <= AsStr(k))
  {
    if Item(k, value) in Answer(rows, q) {
      ItemsAreStored(rows, q, Item(k, value));
    }
    if Find(rows, AsStr(k)) == Some(value) && (q.prefix.Some? ==> AsStr(q.prefix.value) <= AsStr(k)) {
      var r := FoundIsRow(rows, AsStr(k));
      RoundTrip(k);
      MatchesAreFilter(rows, q.prefix, r);
      RowIsShown(Matches(rows, q.prefix), q.order, r);
    }
  }

  lemma RowIsShown(page: seq<Row>, order: Order, r: Row)
    requires r in page
    ensures ToItem(r) in Render(if order == Desc then Reverse(page) else page)
  {
    var shown := if order == Desc then Reverse(page) else page;
    ReverseMember(page, r);
    var i :| 0 <= i < |shown| && shown[i] == r;
    assert Render(shown)[i] == ToItem(r);
  }

  method RunQuery(rows: seq<Row>, q: Query) returns (items: seq<Item>)
    requires Sorted(rows)
    ensures items == Answer(rows, q)
    ensures Tidy(rows) ==> if q.order == Asc then Rises(items) else Falls(items)
    ensures Tidy(rows) ==> forall item :: item in items ==> Find(rows, AsStr(item.key)) == Some(item.value)
  {
    if q.prefix.Some? {
      items := Scan(Range(rows, AsStr(q.prefix.value)), Hits(Printed(q.prefix)), ToItem, OffsetOf(q), q.limit);
      ScanFindsMatches(rows, q.prefix.value);
    } else {
      items := Scan(rows, Hits(None), ToItem, OffsetOf(q), q.limit);
      NoPrefixTakesAll(rows);
    }
    ghost var page := Window(Matches(rows, q.prefix), OffsetOf(q), q.limit);
    assert items == Render(page);
    MapReverse(page, ToItem);
    if q.order == Desc {
      items := Reverse(items);
    }
    QueryFacts(rows, q);
  }

  lemma QueryFacts(rows: seq<Row>, q: Query)
    ensures Tidy(rows) ==> if q.order == Asc then Rises(Answer(rows, q)) else Falls(Answer(rows, q))
    ensures Tidy(rows) ==> forall item :: item in Answer(rows, q) ==> Find(rows, AsStr(item.key)) == Some(item.value)
  {
    if Tidy(rows) {
      AnswerIsOrdered(rows, q);
      forall item | item in Answer(rows, q) ensures Find(rows, AsStr(item.key)) == Some(item.value) {
        ItemsAreStored(rows, q, item);
      }
    }
  }

  // ------------------------------------------------------------------- subtrees

  /** On a tidy table the key itself and every descendant match. */
  lemma {:induction false} SubtreeIsFound(rows: seq<Row>, prefix: Key, r: Row)
    requires Tidy(rows) && Normal(prefix) && r in rows
    requires NewKey(r.key) == prefix || IsDescendantOf(NewKey(r.key), prefix)
    ensures r in Matches(rows, Some(prefix))
  {
    MatchesAreSubtreeOrSiblings(NewKey(r.key), prefix);
    MatchesAreFilter(rows, Some(prefix), r);
  }

  lemma {:induction false} MatchesAreFilter(rows: seq<Row>, prefix: Option<Key>, r: Row)
    ensures r in Matches(rows, prefix) <==> r in rows && RowMatches(r, Printed(prefix))
  {
    if rows != [] {
      assert rows == [rows[0]] + rows[1..];
      MatchesAreFilter(rows[1..], prefix, r);
    }
  }

  /** The root prefix is no prefix. */
  lemma {:induction false} RootPrefixTakesAll(rows: seq<Row>)
    requires forall r :: r in rows ==> AsStr(NewKey(r.key)) == r.key
    ensures Matches(rows, Some(Key([]))) == rows
  {
    if rows != [] {
      assert rows == [rows[0]] + rows[1..];
      RootPrefixTakesAll(rows[1..]);
    }
  }

  /**
   * A prefix query returns exactly the subtree of its key, exactly when no
   * stored key runs through a sibling whose name extends the key's last name.
   */
  lemma PrefixIsSubtreeIff(rows: seq<Row>, prefix: Key)
    requires Tidy(rows) && Normal(prefix)
    ensures (forall r :: r in Matches(rows, Some(prefix)) ==>
               NewKey(r.key) == prefix || IsDescendantOf(NewKey(r.key), prefix))
            <==> !exists r :: r in rows && UnderLongerSibling(NewKey(r.key), prefix)
  {
    forall r | r in rows
      ensures r in Matches(rows, Some(prefix)) && NewKey(r.key) != prefix && !IsDescendantOf(NewKey(r.key), prefix)
              <==> UnderLongerSibling(NewKey(r.key), prefix)
    {
      MatchesAreFilter(rows, Some(prefix), r);
      OutsideIff(NewKey(r.key), prefix);
    }
    forall r | r in Matches(rows, Some(prefix)) ensures r in rows {
      MatchesAreFilter(rows, Some(prefix), r);
    }
  }

  lemma OutsideIff(k: Key, p: Key)
    requires Normal(k) && Normal(p)
    ensures AsStr(p) <= AsStr(k) && k != p && !IsDescendantOf(k, p) <==> UnderLongerSibling(k, p)
  {
    MatchesAreSubtreeOrSiblings(k, p);
    TextPrefixIff(k, p);
    if UnderLongerSibling(k, p) {
      SiblingsAreOutside(k, p);
    }
  }

  predicate UnderLongerSibling(k: Key, p: Key) {
    var n := |p.segments| - 1;
    0 <= n < |k.segments| && k.segments[..n] == p.segments[..n] && p.segments[n] < k.segments[n]
  }

  lemma SiblingsAreOutside(k: Key, p: Key)
    requires UnderLongerSibling(k, p)
    ensures k != p && !IsDescendantOf(k, p) && LeadsTo(p.segments, k.segments)
  {
    var n := |p.segments| - 1;
    assert forall i :: 0 <= i < n ==> k.segments[..n][i] == k.segments[i] && p.segments[..n][i] == p.segments[i];
    assert k.segments[..n + 1][n] == k.segments[n] != p.segments[n];
  }

  lemma VisibleIsNormal(s: string)
    requires s != "" && SLASH !in s && !IsWhite(s[0]) && !IsWhite(s[|s| - 1])
    ensures NormalSegment(s)
  {
  }

  /** Two keys, the second under a sibling with a longer name: asking for the first gives both. */
  lemma SiblingLeaks(a: Key, b: Key, value: Bytes)
    requires Normal(a) && Normal(b) && UnderLongerSibling(b, a)
    ensures var rows := [Row(AsStr(a), value), Row(AsStr(b), value)];
            && Tidy(rows) && rows[1] in Matches(rows, Some(a)) && NewKey(rows[1].key) == b
            && b != a && !IsDescendantOf(b, a)
  {
    var rows := [Row(AsStr(a), value), Row(AsStr(b), value)];
    RoundTrip(a);
    RoundTrip(b);
    OutsideIff(b, a);
    PrefixIsLow(AsStr(a), AsStr(b));
    LessIsStrict(AsStr(a), AsStr(b));
    MatchesAreFilter(rows, Some(a), rows[1]);
  }

  /** In particular the keys `/a` and `/ab`. */
  lemma PrefixLeaks(value: Bytes)
    ensures var rows := [Row(AsStr(Key(["a"])), value), Row(AsStr(Key(["ab"])), value)];
            && Tidy(rows) && rows[1] in Matches(rows, Some(Key(["a"])))
            && !IsDescendantOf(NewKey(rows[1].key), Key(["a"]))
  {
    VisibleIsNormal("a");
    VisibleIsNormal("ab");
    SiblingLeaks(Key(["a"]), Key(["ab"]), value);
  }
}
