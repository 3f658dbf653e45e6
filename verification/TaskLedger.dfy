/**
 * The ledger as code: the in-memory store with its conditional writes, and the
 * retry loop over it. Writes by other parties land just before the store calls
 * of the loop; `others[n]` lists those before the n-th call.
 */
module TaskLedger {
  import opened Common
  import opened TaskRecords

  datatype Write = Write(key: TaskKey, bytes: Bytes)

  function WriteAll(st: Store, batch: seq<Write>): Store
    decreases |batch|
  {
    if batch == [] then st else WriteAll(st[batch[0].key := batch[0].bytes], batch[1..])
  }

  function CountIn(batch: seq<Write>, key: TaskKey): nat {
    if batch == [] then 0 else (if batch[0].key == key then 1 else 0) + CountIn(batch[1..], key)
  }

  function Batch(others: seq<seq<Write>>, n: nat): seq<Write> {
    if n < |others| then others[n] else []
  }

  /** The store once the first `n` batches have landed. */
  function After(st: Store, others: seq<seq<Write>>, n: nat): Store {
    if n == 0 then st else WriteAll(After(st, others, n - 1), Batch(others, n - 1))
  }

  /** Writes of others to `key` in the first `n` batches. */
  function CountOthers(others: seq<seq<Write>>, n: nat, key: TaskKey): nat {
    if n == 0 then 0 else CountOthers(others, n - 1, key) + CountIn(Batch(others, n - 1), key)
  }

  lemma {:induction false} UntouchedUnlessWritten(st: Store, batch: seq<Write>, key: TaskKey)
    requires CountIn(batch, key) == 0
    ensures Lookup(WriteAll(st, batch), key) == Lookup(st, key)
    decreases |batch|
  {
    if batch != [] {
      UntouchedUnlessWritten(st[batch[0].key := batch[0].bytes], batch[1..], key);
    }
  }

  /** If the key no longer holds what it did, the batch wrote it. */
  lemma SameUnlessWritten(st: Store, batch: seq<Write>, key: TaskKey)
    ensures Lookup(WriteAll(st, batch), key) != Lookup(st, key) ==> CountIn(batch, key) > 0 && batch != []
  {
    if CountIn(batch, key) == 0 {
      UntouchedUnlessWritten(st, batch, key);
    }
  }

  class MemoryLedger {
    var entries: Store

    constructor ()
      ensures entries == map[]
    {
      entries := map[];
    }

    method Get(key: TaskKey) returns (r: Option<Bytes>)
      ensures r == Lookup(entries, key)
    {
      r := if key in entries then Some(entries[key]) else None;
    }

    method Put(key: TaskKey, value: Bytes)
      modifies this
      ensures entries == old(entries)[key := value]
    {
      entries := entries[key := value];
    }

    method CreateIfAbsent(key: TaskKey, value: Bytes) returns (written: bool)
      modifies this
      ensures written <==> key !in old(entries)
      ensures entries == if written then old(entries)[key := value] else old(entries)
    {
      if key in entries {
        return false;
      }
      entries := entries[key := value];
      return true;
    }

    method CompareAndSwap(key: TaskKey, expected: Option<Bytes>, value: Bytes) returns (swapped: bool)
      modifies this
      ensures swapped <==> Lookup(old(entries), key) == expected
      ensures entries == if swapped then old(entries)[key := value] else old(entries)
    {
      if Lookup(entries, key) == expected {
        entries := entries[key := value];
        swapped := true;
      } else {
        swapped := false;
      }
    }

    /** Other parties write, in order. */
    method Interfere(batch: seq<Write>)
      modifies this
      ensures entries == WriteAll(old(entries), batch)
    {
      var i := 0;
      while i < |batch|
        invariant 0 <= i <= |batch|
        invariant WriteAll(entries, batch[i..]) == WriteAll(old(entries), batch)
      {
        Put(batch[i].key, batch[i].bytes);
        i := i + 1;
      }
    }
  }

  /** What the caller is told. */
  function Reply(out: Outcome): Result<Option<TaskRecord>, string> {
    match out
    case Won(running) => Ok(Some(running))
    case Corrupt(error) => Err(error)
    case _ => Ok(None)
  }

  /** The key holds a record that is pending, or running past its deadline. */
  predicate DueIn(c: Codec, st: Store, key: TaskKey, now: u64) {
    && key in st && c.decode(st[key]).Ok?
    && var state := c.decode(st[key]).value.state;
       state.Pending? || (state.Running? && state.deadline < now)
  }

  /** The store and the reply after one atomic dispatch. */
  function Dispatching(c: Codec, st: Store, key: TaskKey, now: u64, deadline: u64)
    : (Store, Result<Option<TaskRecord>, string>)
  {
    var (after, out) := AtomicDispatch(c, st, key, now, deadline);
    (after, Reply(out))
  }

  method Claim(store: MemoryLedger, c: Codec, record: TaskRecord) returns (won: bool)
    modifies store
    ensures (store.entries, Claimed(won)) == Atomic(c, old(store.entries), TaskRecords.Claim(record))
  {
    won := store.CreateIfAbsent(record.key, c.encode(record));
  }

  lemma DispatchingIff(c: Codec, st: Store, key: TaskKey, now: u64, deadline: u64)
    ensures var r := Dispatching(c, st, key, now, deadline).1;
            r.Ok? && r.value.Some? <==> DueIn(c, st, key, now)
  {
  }

  /**
   * One turn of the retry loop: clock, read, decision, swap. It settles the
   * call at its read or at its swap, or was overtaken by a write of the key.
   */
  method TryOnce(store: MemoryLedger, c: Codec, key: TaskKey, deadline: u64, now: u64,
                 before: seq<Write>, between: seq<Write>)
    returns (r: Option<Result<Option<TaskRecord>, string>>)
    modifies store
    ensures var read := WriteAll(old(store.entries), before);
            var swap := WriteAll(read, between);
            match r
            case None => store.entries == swap && CountIn(between, key) > 0
            case Some(Ok(Some(_))) => (store.entries, r.value) == Dispatching(c, swap, key, now, deadline)
            case _ => (store.entries, r.value) == Dispatching(c, read, key, now, deadline)
  {
    store.Interfere(before);
    ghost var read := store.entries;
    var found := store.Get(key);
    if found.None? {
      return Some(Ok(None));
    }
    var decoded := c.decode(found.value);
    if decoded.Err? {
      return Some(Err(decoded.error));
    }
    if !NeedsDispatch(decoded.value, now) {
      return Some(Ok(None));
    }
    var running := Dispatched(decoded.value, now, deadline);
    store.Interfere(between);
    SameUnlessWritten(read, between, key);
    var swapped := store.CompareAndSwap(key, Some(found.value), c.encode(running));
    if swapped {
      return Some(Ok(Some(running)));
    }
    return None;
  }

  /**
   * The retry loop returns, after no more retries than others wrote the key,
   * and does what one atomic dispatch does at its last store call.
   */
  method ClaimForDispatch(store: MemoryLedger, c: Codec, key: TaskKey, deadline: u64,
                          clock: nat -> u64, others: seq<seq<Write>>)
    returns (r: Result<Option<TaskRecord>, string>, retries: nat)
    modifies store
    ensures var calls := 2 * retries + if r.Ok? && r.value.Some? then 2 else 1;
            var before := After(old(store.entries), others, calls);
            && retries <= CountOthers(others, calls, key)
            && (store.entries, r) == Dispatching(c, before, key, clock(retries), deadline)
            && (r.Ok? && r.value.Some? <==> DueIn(c, before, key, clock(retries)))
  {
    retries := 0;
    while true
      invariant retries <= CountOthers(others, 2 * retries, key)
      invariant store.entries == After(old(store.entries), others, 2 * retries)
      decreases if 2 * retries < |others| then |others| - 2 * retries else 0
    {
      var calls := 2 * retries;
      var settled := TryOnce(store, c, key, deadline, clock(retries), Batch(others, calls), Batch(others, calls + 1));
      if settled.Some? {
        DispatchingIff(c, After(old(store.entries), others, calls + 1), key, clock(retries), deadline);
        DispatchingIff(c, After(old(store.entries), others, calls + 2), key, clock(retries), deadline);
        return settled.value, retries;
      }
      retries := retries + 1;
    }
  }

  /** Read-modify-write: whatever others wrote to the key in between is lost. */
  method Update(store: MemoryLedger, c: Codec, key: TaskKey, mutate: TaskRecord -> TaskRecord,
                now: u64, between: seq<Write>)
    returns (r: Result<Option<TaskRecord>, string>)
    modifies store
    ensures key !in old(store.entries) ==> r == Ok(None) && store.entries == old(store.entries)
    ensures key in old(store.entries) ==>
              match c.decode(old(store.entries)[key])
              case Err(e) => r == Err(e) && store.entries == old(store.entries)
              case Ok(record) =>
                var updated := mutate(record).(updatedAt := now);
                && r == Ok(Some(updated))
                && store.entries == WriteAll(old(store.entries), between)[key := c.encode(updated)]
  {
    var found := store.Get(key);
    if found.None? {
      return Ok(None);
    }
    var decoded := c.decode(found.value);
    if decoded.Err? {
      return Err(decoded.error);
    }
    var updated := mutate(decoded.value).(updatedAt := now);
    store.Interfere(between);
    store.Put(key, c.encode(updated));
    return Ok(Some(updated));
  }
}
