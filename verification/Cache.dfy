/** The ordered cache table: put, get, delete, and the range scan behind queries. */
module Cache {
  import opened Common
  import opened Keys

  datatype Row = Row(key: string, value: Bytes)

  /** Lexicographic order by code point, which is the order of the UTF-8 bytes. */
  predicate Less(a: string, b: string) {
    b != [] && (a == [] || a[0] < b[0] || (a[0] == b[0] && Less(a[1..], b[1..])))
  }

  /** The same order said at once: at the first place where they differ, `a` ends or has the smaller code point. */
  ghost predicate Before(a: string, b: string) {
    exists n :: 0 <= n <= |a| && n <= |b| && a[..n] == b[..n] && SmallerAt(a, b, n)
  }

  predicate SmallerAt(a: string, b: string, n: nat)
    requires n <= |a| && n <= |b|
  {
    n < |b| && (n == |a| || (a[n] as int) < (b[n] as int))
  }

  lemma {:induction false} LessIff(a: string, b: string)
    ensures Less(a, b) <==> Before(a, b)
  {
    if Less(a, b) {
      var n := FirstDifference(a, b);
    }
    if n :| 0 <= n <= |a| && n <= |b| && a[..n] == b[..n] && SmallerAt(a, b, n) {
      LessFrom(a, b, n);
    }
  }

  lemma {:induction false} FirstDifference(a: string, b: string) returns (n: nat)
    requires Less(a, b)
    ensures n <= |a| && n <= |b| && a[..n] == b[..n] && SmallerAt(a, b, n)
  {
    if a == [] || a[0] < b[0] {
      n := 0;
    } else {
      n := FirstDifference(a[1..], b[1..]);
      assert a[..n + 1] == [a[0]] + a[1..][..n] && b[..n + 1] == [b[0]] + b[1..][..n];
      n := n + 1;
    }
  }

  lemma {:induction false} LessFrom(a: string, b: string, n: nat)
    requires n <= |a| && n <= |b| && a[..n] == b[..n] && SmallerAt(a, b, n)
    ensures Less(a, b)
  {
    if n > 0 {
      assert a[0] == a[..n][0] == b[..n][0] == b[0];
      assert a[1..][..n - 1] == a[..n][1..] && b[1..][..n - 1] == b[..n][1..];
      LessFrom(a[1..], b[1..], n - 1);
    }
  }

  /** Iteration order of the table: keys strictly ascending. */
  ghost predicate Sorted(rows: seq<Row>) {
    forall i, j :: 0 <= i < j < |rows| ==> Less(rows[i].key, rows[j].key)
  }

  lemma {:induction false} LessIsStrict(a: string, b: string)
    ensures !Less(a, a)
    ensures Less(a, b) ==> !Less(b, a)
    ensures a != b ==> Less(a, b) || Less(b, a)
  {
    if a != [] && b != [] {
      LessIsStrict(a[1..], b[1..]);
      assert a == [a[0]] + a[1..] && b == [b[0]] + b[1..];
    }
    if a != [] {
      LessIsStrict(a[1..], a[1..]);
    }
  }

  lemma {:induction false} LessIsTransitive(a: string, b: string, c: string)
    requires Less(a, b) && Less(b, c)
    ensures Less(a, c)
  {
    if a != [] && a[0] == b[0] && b[0] == c[0] {
      LessIsTransitive(a[1..], b[1..], c[1..]);
    }
  }

  lemma {:induction false} PrefixIsLow(p: string, a: string)
    requires p <= a
    ensures !Less(a, p)
  {
    if p != [] {
      HeadPrefix(p, a);
      PrefixIsLow(p[1..], a[1..]);
    }
  }

  /** Keys with a given prefix are consecutive: nothing else lies between the prefix and one of them. */
  lemma {:induction false} PrefixBlock(p: string, a: string, b: string)
    requires !Less(a, p) && !Less(b, a) && p <= b
    ensures p <= a
  {
    if p != [] {
      HeadPrefix(p, b);
      HeadPrefix(p, a);
      PrefixBlock(p[1..], a[1..], b[1..]);
    }
  }

  // ------------------------------------------------------------------- the table

  function Find(rows: seq<Row>, key: string): Option<Bytes> {
    if rows == [] then None else if rows[0].key == key then Some(rows[0].value) else Find(rows[1..], key)
  }

  function Insert(rows: seq<Row>, key: string, value: Bytes): seq<Row> {
    if rows == [] || Less(key, rows[0].key) then [Row(key, value)] + rows
    else if rows[0].key == key then [Row(key, value)] + rows[1..]
    else [rows[0]] + Insert(rows[1..], key, value)
  }

  function Remove(rows: seq<Row>, key: string): seq<Row> {
    if rows == [] then [] else if rows[0].key == key then rows[1..] else [rows[0]] + Remove(rows[1..], key)
  }

  lemma {:induction false} ConsSorted(row: Row, rows: seq<Row>)
    requires Sorted(rows) && forall r :: r in rows ==> Less(row.key, r.key)
    ensures Sorted([row] + rows)
  {
    var all := [row] + rows;
    forall i, j | 0 <= i < j < |all| ensures Less(all[i].key, all[j].key) {
      assert all[j] == rows[j - 1] && (i > 0 ==> all[i] == rows[i - 1]);
      assert rows[j - 1] in rows;
    }
  }

  lemma {:induction false} InsertRefines(rows: seq<Row>, key: string, value: Bytes)
    requires Sorted(rows)
    ensures Sorted(Insert(rows, key, value))
    ensures forall k :: Find(Insert(rows, key, value), k) == if k == key then Some(value) else Find(rows, k)
    ensures forall r :: r in Insert(rows, key, value) ==> r == Row(key, value) || r in rows
  {
    if rows == [] {
      ConsSorted(Row(key, value), rows);
    } else {
      var tail := rows[1..];
      assert rows == [rows[0]] + tail;
      assert forall r :: r in tail ==> Less(rows[0].key, r.key);
      LessIsStrict(key, rows[0].key);
      if Less(key, rows[0].key) {
        forall r | r in rows ensures Less(key, r.key) {
          if r != rows[0] {
            LessIsTransitive(key, rows[0].key, r.key);
          }
        }
        ConsSorted(Row(key, value), rows);
        AbsentBelow(rows, key);
      } else if rows[0].key == key {
        ConsSorted(Row(key, value), tail);
      } else {
        InsertRefines(tail, key, value);
        ConsSorted(rows[0], Insert(tail, key, value));
      }
    }
  }

  lemma {:induction false} AbsentBelow(rows: seq<Row>, key: string)
    requires forall r :: r in rows ==> Less(key, r.key)
    ensures Find(rows, key).None?
  {
    if rows != [] {
      LessIsStrict(key, rows[0].key);
      assert rows == [rows[0]] + rows[1..];
      AbsentBelow(rows[1..], key);
    }
  }

  lemma {:induction false} RemoveRefines(rows: seq<Row>, key: string)
    requires Sorted(rows)
    ensures Sorted(Remove(rows, key))
    ensures forall k :: Find(Remove(rows, key), k) == if k == key then None else Find(rows, k)
    ensures forall r :: r in Remove(rows, key) ==> r in rows
  {
    if rows != [] {
      var tail := rows[1..];
      assert rows == [rows[0]] + tail;
      assert forall r :: r in tail ==> Less(rows[0].key, r.key);
      if rows[0].key == key {
        AbsentBelow(tail, key);
      } else {
        RemoveRefines(tail, key);
        ConsSorted(rows[0], Remove(tail, key));
      }
    }
  }

  // -------------------------------------------------------- the datastore by path

  datatype Command = DoPut(path: string, value: Bytes) | DoDelete(path: string)

  function RowsAfter(commands: seq<Command>): seq<Row> {
    if commands == [] then []
    else
      var before := RowsAfter(commands[..|commands| - 1]);
      match commands[|commands| - 1]
      case DoPut(path, value) => Insert(before, AsStr(NewKey(path)), value)
      case DoDelete(path) => Remove(before, AsStr(NewKey(path)))
  }

  /** The same commands on a plain map from keys. */
  function PlainMap(commands: seq<Command>): map<Key, Bytes> {
    if commands == [] then map[]
    else
      var before := PlainMap(commands[..|commands| - 1]);
      match commands[|commands| - 1]
      case DoPut(path, value) => before[NewKey(path) := value]
      case DoDelete(path) => before - {NewKey(path)}
  }

  /** Every stored key is the printed form of a normal key. */
  ghost predicate Tidy(rows: seq<Row>) {
    Sorted(rows) && forall r :: r in rows ==> Normal(NewKey(r.key)) && AsStr(NewKey(r.key)) == r.key
  }

  /** After any history, looking up any path is looking up its normalized key in a plain map. */
  lemma {:induction false} DatastoreIsPlainMap(commands: seq<Command>, path: string)
    ensures Tidy(RowsAfter(commands))
    ensures Find(RowsAfter(commands), AsStr(NewKey(path))) == Lookup(PlainMap(commands), NewKey(path))
  {
    if commands != [] {
      var n := |commands| - 1;
      var last := commands[n];
      DatastoreIsPlainMap(commands[..n], path);
      var before := RowsAfter(commands[..n]);
      PathsNormalize(last.path, path);
      NewKeyIsNormal(last.path);
      match last {
        case DoPut(p, value) => InsertRefines(before, AsStr(NewKey(p)), value);
        case DoDelete(p) => RemoveRefines(before, AsStr(NewKey(p)));
      }
    }
  }

  class WrappedCache {
    var rows: seq<Row>

    constructor ()
      ensures rows == []
    {
      rows := [];
    }

    method Put(key: Key, value: Bytes)
      requires Sorted(rows)
      modifies this
      ensures Sorted(rows) && rows == Insert(old(rows), AsStr(key), value)
      ensures old(Tidy(rows)) && Normal(key) ==> Tidy(rows)
    {
      InsertRefines(rows, AsStr(key), value);
      if Normal(key) { RoundTrip(key); }
      rows := Insert(rows, AsStr(key), value);
    }

    method Delete(key: Key)
      requires Sorted(rows)
      modifies this
      ensures Sorted(rows) && rows == Remove(old(rows), AsStr(key))
      ensures old(Tidy(rows)) ==> Tidy(rows)
    {
      RemoveRefines(rows, AsStr(key));
      rows := Remove(rows, AsStr(key));
    }

    method Get(key: Key) returns (r: Result<Bytes, string>)
      ensures r == match Find(rows, AsStr(key)) case Some(v) => Ok(v) case None => Err("key not found: " + AsStr(key))
    {
      var found := Find(rows, AsStr(key));
      r := if found.Some? then Ok(found.value) else Err("key not found: " + AsStr(key));
    }
  }

  /** Runs a history of datastore commands, given by path, on a cache. */
  method Perform(commands: seq<Command>) returns (c: WrappedCache)
    ensures fresh(c) && Tidy(c.rows) && c.rows == RowsAfter(commands)
  {
    c := new WrappedCache();
    for i := 0 to |commands|
      invariant fresh(c) && Tidy(c.rows) && c.rows == RowsAfter(commands[..i])
    {
      assert commands[..i + 1][..i] == commands[..i];
      NewKeyIsNormal(commands[i].path);
      match commands[i] {
        case DoPut(path, value) => c.Put(NewKey(path), value);
        case DoDelete(path) => c.Delete(NewKey(path));
      }
    }
    assert commands[..|commands|] == commands;
  }
}
