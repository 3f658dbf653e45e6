/**
 * The concurrent ledger as a step system. Every store call and every clock
 * reading is one step; any number of calls are in flight, each with its own
 * program counter. `history` lists the operations in the order in which they
 * took effect and `trace` the stores around them, so that theorems can speak
 * about whole runs.
 */
module LedgerSteps {
  import opened Common
  import opened TaskRecords

  type CallId = nat

  datatype Request =
    | ForClaim(record: TaskRecord)
    | ForDispatch(key: TaskKey, deadline: u64)
    | ForUpdate(key: TaskKey)
    | ForPut(key: TaskKey, bytes: Bytes)

  /** Where one `claim_for_dispatch` call is in its retry loop. */
  datatype Pc =
    | AtLoopHead
    | Timed(now: u64)
    | Holding(time: u64, snapshot: Bytes, seen: TaskRecord, at: nat) // `at`: length of the history when it was read

  datatype Call =
    | Claiming(record: TaskRecord)
    | Dispatching(key: TaskKey, deadline: u64, began: nat, fails: nat, steps: nat, pc: Pc)
    | Updating(key: TaskKey)
    | Mutating(key: TaskKey, record: TaskRecord, readAt: nat)
    | Returned(request: Request, outcome: Outcome, effect: nat) // `effect`: index of its last event

  datatype Event = Event(id: CallId, op: Op, out: Outcome)

  datatype State = State(store: Store, calls: map<CallId, Call>, history: seq<Event>, trace: seq<Store>)

  datatype Step =
    | InvokeClaim(id: CallId, record: TaskRecord)
    | InvokeDispatch(id: CallId, key: TaskKey, deadline: u64)
    | InvokeUpdate(id: CallId, key: TaskKey)
    | Create(id: CallId)
    | ReadClock(id: CallId, now: u64)
    | Read(id: CallId)
    | Swap(id: CallId)
    | UpdateGet(id: CallId)
    | UpdatePut(id: CallId, mutated: TaskRecord, now: u64)
    | EnvPut(id: CallId, key: TaskKey, bytes: Bytes)

  predicate Enabled(s: State, step: Step) {
    match step
    case InvokeClaim(id, _) => id !in s.calls
    case InvokeDispatch(id, _, _) => id !in s.calls
    case InvokeUpdate(id, _) => id !in s.calls
    case EnvPut(id, _, _) => id !in s.calls
    case Create(id) => id in s.calls && s.calls[id].Claiming?
    case ReadClock(id, _) => id in s.calls && s.calls[id].Dispatching? && s.calls[id].pc.AtLoopHead?
    case Read(id) => id in s.calls && s.calls[id].Dispatching? && s.calls[id].pc.Timed?
    case Swap(id) => id in s.calls && s.calls[id].Dispatching? && s.calls[id].pc.Holding?
    case UpdateGet(id) => id in s.calls && s.calls[id].Updating?
    case UpdatePut(id, _, _) => id in s.calls && s.calls[id].Mutating?
  }

  function SetCall(s: State, id: CallId, call: Call): State {
    s.(calls := s.calls[id := call])
  }

  /** One event takes effect: the store becomes `store` and the call returns. */
  function Finish(s: State, id: CallId, request: Request, store: Store, op: Op, out: Outcome): State {
    State(store, s.calls[id := Returned(request, out, |s.history|)],
          s.history + [Event(id, op, out)], s.trace + [store])
  }

  /** `store.get` of a dispatcher: it returns at once, or keeps the bytes it saw. */
  function DoRead(c: Codec, s: State, id: CallId): State
    requires Enabled(s, Read(id))
  {
    var call := s.calls[id];
    var request := ForDispatch(call.key, call.deadline);
    var op := Dispatch(call.key, call.pc.now, call.deadline);
    match Lookup(s.store, call.key)
    case None => Finish(s, id, request, s.store, op, Declined)
    case Some(bytes) =>
      match c.decode(bytes)
      case Err(e) => Finish(s, id, request, s.store, op, Corrupt(e))
      case Ok(r) =>
        if NeedsDispatch(r, call.pc.now)
        then SetCall(s, id, call.(steps := call.steps + 1, pc := Holding(call.pc.now, bytes, r, |s.history|)))
        else Finish(s, id, request, s.store, op, Declined)
  }

  /** `compare_and_swap` against the bytes read earlier; on failure, round the loop again. */
  function DoSwap(c: Codec, s: State, id: CallId): State
    requires Enabled(s, Swap(id))
  {
    var call := s.calls[id];
    if Lookup(s.store, call.key) == Some(call.pc.snapshot) then
      var running := Dispatched(call.pc.seen, call.pc.time, call.deadline);
      Finish(s, id, ForDispatch(call.key, call.deadline), s.store[call.key := c.encode(running)],
             Dispatch(call.key, call.pc.time, call.deadline), Won(running))
    else
      SetCall(s, id, call.(fails := call.fails + 1, steps := call.steps + 1, pc := AtLoopHead))
  }

  function DoUpdateGet(c: Codec, s: State, id: CallId): State
    requires Enabled(s, UpdateGet(id))
  {
    var key := s.calls[id].key;
    var found := Lookup(s.store, key);
    var returned := Finish(s, id, ForUpdate(key), s.store, Get(key), Fetched(found));
    if found.Some? && c.decode(found.value).Ok?
    then SetCall(returned, id, Mutating(key, c.decode(found.value).value, |s.history|))
    else returned
  }

  function Next(c: Codec, s: State, step: Step): State
    requires Enabled(s, step)
  {
    match step
    case InvokeClaim(id, record) => SetCall(s, id, Claiming(record))
    case InvokeDispatch(id, key, deadline) =>
      SetCall(s, id, Dispatching(key, deadline, |s.history|, 0, 0, AtLoopHead))
    case InvokeUpdate(id, key) => SetCall(s, id, Updating(key))
    case Create(id) =>
      var r := s.calls[id].record;
      if r.key in s.store
      then Finish(s, id, ForClaim(r), s.store, Claim(r), Claimed(false))
      else Finish(s, id, ForClaim(r), s.store[r.key := c.encode(r)], Claim(r), Claimed(true))
    case ReadClock(id, now) =>
      SetCall(s, id, s.calls[id].(steps := s.calls[id].steps + 1, pc := Timed(now)))
    case Read(id) => DoRead(c, s, id)
    case Swap(id) => DoSwap(c, s, id)
    case UpdateGet(id) => DoUpdateGet(c, s, id)
    case UpdatePut(id, mutated, now) =>
      var key := s.calls[id].key;
      var bytes := c.encode(mutated.(updatedAt := now));
      Finish(s, id, ForUpdate(key), s.store[key := bytes], Put(key, bytes), Stored)
    case EnvPut(id, key, bytes) =>
      Finish(s, id, ForPut(key, bytes), s.store[key := bytes], Put(key, bytes), Stored)
  }

  /** Every step of the sequence is enabled when its turn comes. */
  ghost predicate IsRun(c: Codec, s: State, run: seq<Step>)
    decreases |run|
  {
    run == [] || (Enabled(s, run[0]) && IsRun(c, Next(c, s, run[0]), run[1..]))
  }

  ghost function Exec(c: Codec, s: State, run: seq<Step>): State
    requires IsRun(c, s, run)
    decreases |run|
  {
    if run == [] then s else Exec(c, Next(c, s, run[0]), run[1..])
  }

  /** No call yet, over any stored bytes whatever. */
  predicate Initial(s: State) {
    s.calls == map[] && s.history == [] && s.trace == [s.store]
  }
}
