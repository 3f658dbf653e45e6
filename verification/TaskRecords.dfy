/** Task records and the sequential (atomic) meaning of every ledger operation. */
module TaskRecords {
  import opened Common

  type TaskKey = string

  datatype TaskState =
    | Pending
    | Running(deadline: u64)
    | Done(executor: Bytes)
    | Failed(error: string)
  {
    predicate Terminal() { Done? || Failed? }
  }

  /** What to run; no ledger operation looks inside it. */
  datatype Job = Job(wasmHash: Bytes, entrypoint: string, taskClass: string,
                     limits: seq<u64>, input: Bytes, requiredModel: Option<string>)

  datatype TaskRecord = TaskRecord(key: TaskKey, job: Job, state: TaskState, attempts: u32,
                                   createdAt: u64, updatedAt: u64, result: Option<Bytes>)

  /** Due at `now`: pending, or running past its deadline. */
  predicate NeedsDispatch(r: TaskRecord, now: u64) {
    match r.state
    case Pending => true
    case Running(deadline) => deadline < now
    case Done(_) => false
    case Failed(_) => false
  }

  /** A 32-bit counter after `n` increments. */
  function Bump(a: u32, n: nat): u32 {
    (a + n) % U32_LIMIT
  }

  lemma BumpAgain(a: u32, n: nat)
    ensures Bump(Bump(a, n), 1) == Bump(a, n + 1)
    ensures 0 < n < U32_LIMIT ==> Bump(a, n) != a
  {
  }

  /** The record a winning dispatcher installs. The 32-bit counter wraps. */
  function Dispatched(r: TaskRecord, now: u64, deadline: u64): TaskRecord {
    r.(attempts := Bump(r.attempts, 1), state := Running(deadline), updatedAt := now)
  }

  /** The serializer: all that is used of it is that decoding undoes encoding. */
  datatype Codec = Codec(encode: TaskRecord -> Bytes, decode: Bytes -> Result<TaskRecord, string>) {
    ghost predicate Lawful() {
      forall r :: decode(encode(r)) == Ok(r)
    }
  }

  type Store = map<TaskKey, Bytes>

  datatype Op =
    | Claim(record: TaskRecord)
    | Dispatch(key: TaskKey, now: u64, deadline: u64)
    | Get(key: TaskKey)
    | Put(key: TaskKey, bytes: Bytes)
  {
    function Key(): TaskKey {
      if Claim? then record.key else key
    }
  }

  datatype Outcome =
    | Claimed(won: bool)
    | Won(running: TaskRecord)
    | Declined
    | Corrupt(error: string)
    | Fetched(found: Option<Bytes>)
    | Stored

  /** What dispatching does when read, decision and write happen in one instant. */
  function AtomicDispatch(c: Codec, s: Store, key: TaskKey, now: u64, deadline: u64): (Store, Outcome) {
    if key !in s then (s, Declined)
    else match c.decode(s[key])
      case Err(e) => (s, Corrupt(e))
      case Ok(r) =>
        if NeedsDispatch(r, now)
        then (s[key := c.encode(Dispatched(r, now, deadline))], Won(Dispatched(r, now, deadline)))
        else (s, Declined)
  }

  /** The sequential specification: each operation in one instant. */
  function Atomic(c: Codec, s: Store, op: Op): (Store, Outcome) {
    match op
    case Claim(r) => if r.key in s then (s, Claimed(false)) else (s[r.key := c.encode(r)], Claimed(true))
    case Dispatch(key, now, deadline) => AtomicDispatch(c, s, key, now, deadline)
    case Get(key) => (s, Fetched(Lookup(s, key)))
    case Put(key, bytes) => (s[key := bytes], Stored)
  }
}
