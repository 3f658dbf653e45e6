/** What holds of the concurrent ledger in every run, whatever the interleaving. */
module LedgerRuns {
  import opened Common
  import opened TaskRecords
  import opened LedgerSteps
  import opened LedgerHistory

  ghost predicate Silent(h: seq<Event>, id: CallId) {
    forall j :: 0 <= j < |h| ==> h[j].id != id
  }

  /** The operation that answers a request. */
  predicate Answers(request: Request, op: Op) {
    match request
    case ForClaim(record) => op == Claim(record)
    case ForDispatch(key, deadline) => op.Dispatch? && op.key == key && op.deadline == deadline
    case ForUpdate(key) => (op.Get? || op.Put?) && op.key == key
    case ForPut(key, bytes) => op == Put(key, bytes)
  }

  ghost predicate PcOk(c: Codec, t: seq<Store>, h: seq<Event>, call: Call)
    requires call.Dispatching? && |t| == |h| + 1
  {
    && call.began <= |h|
    && match call.pc
       case AtLoopHead => call.steps == 3 * call.fails && call.fails <= Writes(h, call.began, |h|, call.key)
       case Timed(_) => call.steps == 3 * call.fails + 1 && call.fails <= Writes(h, call.began, |h|, call.key)
       case Holding(now, snapshot, seen, at) =>
         && call.steps == 3 * call.fails + 2
         && call.began <= at <= |h| && call.fails <= Writes(h, call.began, at, call.key)
         && Lookup(t[at], call.key) == Some(snapshot)
         && c.decode(snapshot) == Ok(seen) && NeedsDispatch(seen, now)
  }

  ghost predicate CallOk(c: Codec, t: seq<Store>, h: seq<Event>, id: CallId, call: Call)
    requires |t| == |h| + 1
  {
    match call
    case Claiming(_) => Silent(h, id)
    case Updating(_) => Silent(h, id)
    case Dispatching(_, _, _, _, _, _) => Silent(h, id) && PcOk(c, t, h, call)
    case Mutating(key, record, readAt) =>
      readAt < |h| && key in t[readAt] && c.decode(t[readAt][key]) == Ok(record)
    case Returned(request, outcome, effect) =>
      && effect < |h| && h[effect].id == id && h[effect].out == outcome && Answers(request, h[effect].op)
      && (!request.ForUpdate? ==> forall j :: 0 <= j < |h| && h[j].id == id ==> j == effect)
  }

  ghost predicate Inv(c: Codec, init: Store, s: State) {
    && Legal(c, s.trace, s.history)
    && s.trace[0] == init && s.trace[|s.history|] == s.store
    && (forall j :: 0 <= j < |s.history| ==> s.history[j].id in s.calls)
    && (forall id :: id in s.calls ==> CallOk(c, s.trace, s.history, id, s.calls[id]))
  }

  /** A call is untouched by an event of another call. */
  lemma CallFrame(c: Codec, t: seq<Store>, h: seq<Event>, st: Store, e: Event, id: CallId, call: Call)
    requires |t| == |h| + 1 && CallOk(c, t, h, id, call) && e.id != id
    ensures CallOk(c, t + [st], h + [e], id, call)
  {
    if call.Dispatching? {
      var g := h + [e];
      CountsOfPrefix(h, g, call.began, |h|, call.key);
      if call.pc.Holding? {
        CountsOfPrefix(h, g, call.began, call.pc.at, call.key);
      }
    }
  }

  lemma SetCallKeeps(c: Codec, init: Store, s: State, id: CallId, call: Call)
    requires Inv(c, init, s) && CallOk(c, s.trace, s.history, id, call)
    ensures Inv(c, init, SetCall(s, id, call))
  {
  }

  /** Appending an event that has its atomic effect keeps the invariant. */
  lemma FinishKeeps(c: Codec, init: Store, s: State, id: CallId, request: Request, store: Store, op: Op, out: Outcome)
    requires Inv(c, init, s) && Atomic(c, s.store, op) == (store, out) && Answers(request, op)
    requires request.ForUpdate? || Silent(s.history, id)
    ensures Inv(c, init, Finish(s, id, request, store, op, out))
  {
    var s' := Finish(s, id, request, store, op, out);
    var e := Event(id, op, out);
    forall i | i in s'.calls ensures CallOk(c, s'.trace, s'.history, i, s'.calls[i]) {
      if i != id {
        CallFrame(c, s.trace, s.history, store, e, i, s.calls[i]);
      }
    }
    forall i | 0 <= i < |s'.history|
      ensures Atomic(c, s'.trace[i], s'.history[i].op) == (s'.trace[i + 1], s'.history[i].out)
    {
      if i < |s.history| {
        assert s'.trace[i] == s.trace[i] && s'.trace[i + 1] == s.trace[i + 1];
      }
    }
  }

  /** A swap fails only because the key was written since the snapshot, which pays for the retry. */
  lemma FailureIsPaidFor(c: Codec, t: seq<Store>, h: seq<Event>, call: Call)
    requires Legal(c, t, h) && call.Dispatching? && call.pc.Holding? && PcOk(c, t, h, call)
    requires Lookup(t[|h|], call.key) != Some(call.pc.snapshot)
    ensures call.fails + 1 <= Writes(h, call.began, |h|, call.key)
  {
    if Writes(h, call.pc.at, |h|, call.key) == 0 {
      QuietStretch(c, t, h, call.pc.at, |h|, call.key);
      assert false;
    }
    CountsAdd(h, call.began, call.pc.at, |h|, call.key);
  }

  lemma WonSwapKeeps(c: Codec, init: Store, s: State, id: CallId)
    requires Inv(c, init, s) && Enabled(s, Swap(id))
    requires Lookup(s.store, s.calls[id].key) == Some(s.calls[id].pc.snapshot)
    ensures Inv(c, init, DoSwap(c, s, id))
  {
    var call := s.calls[id];
    assert CallOk(c, s.trace, s.history, id, call);
    var running := Dispatched(call.pc.seen, call.pc.time, call.deadline);
    FinishKeeps(c, init, s, id, ForDispatch(call.key, call.deadline), s.store[call.key := c.encode(running)],
                Dispatch(call.key, call.pc.time, call.deadline), Won(running));
  }

  lemma SwapKeeps(c: Codec, init: Store, s: State, id: CallId)
    requires Inv(c, init, s) && Enabled(s, Swap(id))
    ensures Inv(c, init, DoSwap(c, s, id))
  {
    var call := s.calls[id];
    if Lookup(s.store, call.key) == Some(call.pc.snapshot) {
      WonSwapKeeps(c, init, s, id);
    } else {
      assert CallOk(c, s.trace, s.history, id, call);
      FailureIsPaidFor(c, s.trace, s.history, call);
      SetCallKeeps(c, init, s, id, call.(fails := call.fails + 1, steps := call.steps + 1, pc := AtLoopHead));
    }
  }

  lemma ReadKeeps(c: Codec, init: Store, s: State, id: CallId)
    requires Inv(c, init, s) && Enabled(s, Read(id))
    ensures Inv(c, init, DoRead(c, s, id))
  {
    var call := s.calls[id];
    var (store, out) := Atomic(c, s.store, Dispatch(call.key, call.pc.now, call.deadline));
    if out.Won? {
      SetCallKeeps(c, init, s, id, DoRead(c, s, id).calls[id]);
    } else {
      FinishKeeps(c, init, s, id, ForDispatch(call.key, call.deadline), store,
                  Dispatch(call.key, call.pc.now, call.deadline), out);
    }
  }

  lemma UpdateGetKeeps(c: Codec, init: Store, s: State, id: CallId)
    requires Inv(c, init, s) && Enabled(s, UpdateGet(id))
    ensures Inv(c, init, DoUpdateGet(c, s, id))
  {
    var key := s.calls[id].key;
    var found := Lookup(s.store, key);
    FinishKeeps(c, init, s, id, ForUpdate(key), s.store, Get(key), Fetched(found));
    if found.Some? && c.decode(found.value).Ok? {
      var returned := Finish(s, id, ForUpdate(key), s.store, Get(key), Fetched(found));
      assert returned.trace[|s.history|] == s.store;
      SetCallKeeps(c, init, returned, id, Mutating(key, c.decode(found.value).value, |s.history|));
    }
  }

  lemma StepKeeps(c: Codec, init: Store, s: State, step: Step)
    requires Inv(c, init, s) && Enabled(s, step)
    ensures Inv(c, init, Next(c, s, step))
  {
    match step
    case InvokeClaim(id, record) => SetCallKeeps(c, init, s, id, Claiming(record));
    case InvokeDispatch(id, key, deadline) =>
      SetCallKeeps(c, init, s, id, Dispatching(key, deadline, |s.history|, 0, 0, AtLoopHead));
    case InvokeUpdate(id, key) => SetCallKeeps(c, init, s, id, Updating(key));
    case Create(id) =>
      var r := s.calls[id].record;
      var (store, out) := Atomic(c, s.store, Claim(r));
      FinishKeeps(c, init, s, id, ForClaim(r), store, Claim(r), out);
    case ReadClock(id, now) => SetCallKeeps(c, init, s, id, Next(c, s, step).calls[id]);
    case Read(id) => ReadKeeps(c, init, s, id);
    case Swap(id) => SwapKeeps(c, init, s, id);
    case UpdateGet(id) => UpdateGetKeeps(c, init, s, id);
    case UpdatePut(id, mutated, now) =>
      var key := s.calls[id].key;
      var bytes := c.encode(mutated.(updatedAt := now));
      FinishKeeps(c, init, s, id, ForUpdate(key), s.store[key := bytes], Put(key, bytes), Stored);
    case EnvPut(id, key, bytes) =>
      FinishKeeps(c, init, s, id, ForPut(key, bytes), s.store[key := bytes], Put(key, bytes), Stored);
  }

  lemma {:induction false} RunKeeps(c: Codec, init: Store, s: State, run: seq<Step>)
    requires Inv(c, init, s) && IsRun(c, s, run)
    ensures Inv(c, init, Exec(c, s, run))
    decreases |run|
  {
    if run != [] {
      StepKeeps(c, init, s, run[0]);
      RunKeeps(c, init, Next(c, s, run[0]), run[1..]);
    }
  }

  // ------------------------------------------------------------ linearizability

  /**
   * Every run is linearizable: the store is what the events give when each is
   * performed in one instant, in order, on the initial store; and a call that
   * returned did so with the outcome of its own event, its only one unless it
   * is an `update` (which has a separate get and put).
   */
  lemma Linearizable(c: Codec, s0: State, run: seq<Step>)
    requires Initial(s0) && IsRun(c, s0, run)
    ensures var s := Exec(c, s0, run);
            Legal(c, s.trace, s.history) && s.trace[0] == s0.store && s.trace[|s.history|] == s.store
    ensures var s := Exec(c, s0, run);
            forall id :: id in s.calls && s.calls[id].Returned? ==>
              var call := s.calls[id];
              && call.effect < |s.history| && s.history[call.effect].id == id
              && s.history[call.effect].out == call.outcome && Answers(call.request, s.history[call.effect].op)
              && (!call.request.ForUpdate? ==>
                    forall j :: 0 <= j < |s.history| && s.history[j].id == id ==> j == call.effect)
  {
    RunKeeps(c, s0.store, s0, run);
  }

  lemma {:induction false} RunGrows(c: Codec, s: State, run: seq<Step>)
    requires IsRun(c, s, run)
    ensures s.history <= Exec(c, s, run).history
    ensures forall id :: id in s.calls && s.calls[id].Returned? ==>
              id in Exec(c, s, run).calls && Exec(c, s, run).calls[id] == s.calls[id]
    ensures var h := Exec(c, s, run).history;
            forall j :: |s.history| <= j < |h| ==> !(h[j].id in s.calls && s.calls[h[j].id].Returned?)
    decreases |run|
  {
    if run != [] {
      RunGrows(c, Next(c, s, run[0]), run[1..]);
    }
  }

  /** Events respect real time: those of a call that returned before another began all come before the other's. */
  lemma RealTimeOrder(c: Codec, s0: State, before: seq<Step>, after: seq<Step>, a: CallId, b: CallId)
    requires Initial(s0) && IsRun(c, s0, before) && IsRun(c, Exec(c, s0, before), after)
    requires a in Exec(c, s0, before).calls && Exec(c, s0, before).calls[a].Returned?
    requires b !in Exec(c, s0, before).calls
    ensures var h := Exec(c, Exec(c, s0, before), after).history;
            forall i, j :: 0 <= i < |h| && 0 <= j < |h| && h[i].id == a && h[j].id == b ==> i < j
  {
    var mid := Exec(c, s0, before);
    var s := Exec(c, mid, after);
    RunKeeps(c, s0.store, s0, before);
    RunKeeps(c, s0.store, mid, after);
    RunGrows(c, mid, after);
    assert forall j :: 0 <= j < |mid.history| ==> s.history[j] == mid.history[j] && s.history[j].id in mid.calls;
  }

  // ------------------------------------------------------------------ exclusion

  /**
   * Of two successive winners of a task the later read its clock after the
   * deadline of the earlier; with deadlines never before the clock that asked
   * for them, that holds of any two winners with no put between.
   */
  lemma WinnersAreSeparated(c: Codec, s0: State, run: seq<Step>, i: nat, j: nat, k: TaskKey)
    requires c.Lawful() && Initial(s0) && IsRun(c, s0, run)
    requires i < j < |Exec(c, s0, run).history|
    requires var h := Exec(c, s0, run).history;
             Win(h[i], k) && Win(h[j], k) && forall m :: i < m < j ==> !PutOn(h[m], k)
    ensures var h := Exec(c, s0, run).history;
            (forall m :: i < m < j ==> !Win(h[m], k)) ==> h[i].op.deadline < h[j].op.now
    ensures var h := Exec(c, s0, run).history;
            (forall m :: i < m < j && Win(h[m], k) ==> h[m].op.now <= h[m].op.deadline)
            ==> h[i].op.deadline < h[j].op.now
  {
    RunKeeps(c, s0.store, s0, run);
    var s := Exec(c, s0, run);
    if forall m :: i < m < j && Win(s.history[m], k) ==> s.history[m].op.now <= s.history[m].op.deadline {
      LaterWinnerIsLate(c, s.trace, s.history, i, j, k);
    }
  }

  /**
   * The stored attempt counter equals its value at any earlier point of the
   * run plus the number of dispatches won since (modulo 2^32), provided each
   * put since leaves the counter alone.
   */
  lemma AttemptsEqualWins(c: Codec, s0: State, run: seq<Step>, lo: nat, k: TaskKey)
    requires c.Lawful() && Initial(s0) && IsRun(c, s0, run)
    requires var s := Exec(c, s0, run);
             && lo <= |s.history| < |s.trace| && Decodes(c, s.trace[lo], k)
             && PutsNeutral(c, s.trace, s.history, lo, |s.history|, k)
    ensures var s := Exec(c, s0, run);
            Decodes(c, s.store, k) &&
            RecordIn(c, s.store, k).attempts
            == Bump(RecordIn(c, s.trace[lo], k).attempts, Wins(s.history, lo, |s.history|, k))
  {
    RunKeeps(c, s0.store, s0, run);
    var s := Exec(c, s0, run);
    AttemptsCountWins(c, s.trace, s.history, lo, |s.history|, k);
  }

  /** The whole life of a task the run claims: its counter is that of the claim plus all its wins. */
  lemma ClaimedAttemptsEqualWins(c: Codec, s0: State, run: seq<Step>, i: nat, k: TaskKey)
    requires c.Lawful() && Initial(s0) && IsRun(c, s0, run) && i < |Exec(c, s0, run).history|
    requires var s := Exec(c, s0, run);
             && s.history[i].op.Claim? && s.history[i].op.record.key == k && s.history[i].out == Claimed(true)
             && PutsNeutral(c, s.trace, s.history, i + 1, |s.history|, k)
    ensures var s := Exec(c, s0, run);
            Decodes(c, s.store, k) &&
            RecordIn(c, s.store, k).attempts
            == Bump(s.history[i].op.record.attempts, Wins(s.history, i + 1, |s.history|, k))
  {
    RunKeeps(c, s0.store, s0, run);
    var s := Exec(c, s0, run);
    assert Atomic(c, s.trace[i], s.history[i].op) == (s.trace[i + 1], s.history[i].out);
    AttemptsCountWins(c, s.trace, s.history, i + 1, |s.history|, k);
  }

  /**
   * A serialized `update` that leaves the counter alone is such a put: nothing
   * wrote the key between its get and its put.
   */
  lemma SerializedUpdateIsNeutral(c: Codec, s0: State, run: seq<Step>, id: CallId, mutated: TaskRecord, now: u64)
    requires c.Lawful() && Initial(s0) && IsRun(c, s0, run)
    requires Enabled(Exec(c, s0, run), UpdatePut(id, mutated, now))
    requires var s := Exec(c, s0, run);
             mutated.attempts == s.calls[id].record.attempts
             && Writes(s.history, s.calls[id].readAt, |s.history|, s.calls[id].key) == 0
    ensures var s := Exec(c, s0, run);
            var s' := Next(c, s, UpdatePut(id, mutated, now));
            |s'.history| == |s.history| + 1 && NeutralPut(c, s.store, s'.history[|s.history|], s.calls[id].key)
  {
    RunKeeps(c, s0.store, s0, run);
    var s := Exec(c, s0, run);
    var call := s.calls[id];
    assert CallOk(c, s.trace, s.history, id, call);
    QuietStretch(c, s.trace, s.history, call.readAt, |s.history|, call.key);
    assert c.decode(c.encode(mutated.(updatedAt := now))) == Ok(mutated.(updatedAt := now));
  }

  /**
   * Exactly when a swap succeeds, in every run: nothing wrote the key since
   * this call read it, or the last write left the very bytes it read.
   */
  lemma SwapSucceedsIff(c: Codec, s0: State, run: seq<Step>, id: CallId)
    requires Initial(s0) && IsRun(c, s0, run) && Enabled(Exec(c, s0, run), Swap(id))
    ensures var s := Exec(c, s0, run);
            var call := s.calls[id];
            Next(c, s, Swap(id)).calls[id].Returned?
            <==> || Writes(s.history, call.pc.at, |s.history|, call.key) == 0
                 || LastInstalled(c, s.history, call.pc.at, |s.history|, call.key, call.pc.snapshot)
  {
    RunKeeps(c, s0.store, s0, run);
    var s := Exec(c, s0, run);
    var call := s.calls[id];
    assert CallOk(c, s.trace, s.history, id, call);
    BytesRecurIff(c, s.trace, s.history, call.pc.at, |s.history|, call.key);
  }

  /**
   * Where puts leave the counter alone and it cannot have come round, only a
   * put of the very bytes this call read, with no write after it, can hide
   * the writes since; otherwise its read, decision and write were one atomic
   * action.
   */
  lemma SwapSeesNoInterference(c: Codec, s0: State, run: seq<Step>, id: CallId)
    requires c.Lawful() && Initial(s0) && IsRun(c, s0, run) && Enabled(Exec(c, s0, run), Swap(id))
    requires var s := Exec(c, s0, run);
             var call := s.calls[id];
             && PutsNeutral(c, s.trace, s.history, call.pc.at, |s.history|, call.key)
             && Wins(s.history, call.pc.at, |s.history|, call.key) < U32_LIMIT
    ensures var s := Exec(c, s0, run);
            var call := s.calls[id];
            Next(c, s, Swap(id)).calls[id].Returned?
            <==> || Writes(s.history, call.pc.at, |s.history|, call.key) == 0
                 || LastPut(s.history, call.pc.at, |s.history|, call.key, call.pc.snapshot)
  {
    RunKeeps(c, s0.store, s0, run);
    var s := Exec(c, s0, run);
    var call := s.calls[id];
    assert CallOk(c, s.trace, s.history, id, call);
    SwapSucceedsIff(c, s0, run, id);
    OnlyPutsRestore(c, s.trace, s.history, call.pc.at, |s.history|, call.key);
  }

  /**
   * Such a put can always come: in every run, whenever a call is about to
   * swap, a put of the bytes it read goes unnoticed.
   */
  lemma SameBytesHideWrite(c: Codec, s0: State, run: seq<Step>, id: CallId, other: CallId)
    requires Initial(s0) && IsRun(c, s0, run) && Enabled(Exec(c, s0, run), Swap(id))
    requires other !in Exec(c, s0, run).calls
    ensures var s := Exec(c, s0, run);
            var call := s.calls[id];
            var s' := Next(c, s, EnvPut(other, call.key, call.pc.snapshot));
            && Enabled(s', Swap(id)) && Next(c, s', Swap(id)).calls[id].Returned?
            && Writes(s'.history, call.pc.at, |s'.history|, call.key) > 0
  {
    RunKeeps(c, s0.store, s0, run);
    var s := Exec(c, s0, run);
    assert CallOk(c, s.trace, s.history, id, s.calls[id]);
  }

  // ------------------------------------------------------------- terminal states

  predicate TerminalIn(c: Codec, s: Store, k: TaskKey) {
    Decodes(c, s, k) && RecordIn(c, s, k).state.Terminal()
  }

  /**
   * With arbitrary puts and updates interleaved, no step of `claim` or
   * `claim_for_dispatch` changes a `Done` or `Failed` record, however old the
   * snapshot the call holds.
   */
  lemma ClaimsSpareTerminal(c: Codec, s0: State, run: seq<Step>, step: Step, k: TaskKey)
    requires Initial(s0) && IsRun(c, s0, run) && Enabled(Exec(c, s0, run), step)
    requires !step.UpdatePut? && !step.EnvPut?
    requires TerminalIn(c, Exec(c, s0, run).store, k)
    ensures k in Next(c, Exec(c, s0, run), step).store
    ensures Next(c, Exec(c, s0, run), step).store[k] == Exec(c, s0, run).store[k]
  {
    RunKeeps(c, s0.store, s0, run);
    var s := Exec(c, s0, run);
    if step.Swap? {
      assert CallOk(c, s.trace, s.history, step.id, s.calls[step.id]);
    }
  }

  // ------------------------------------------------------------------ lock-freedom

  /** Writes to `k` in `lo..hi` by calls other than `id`. */
  function WritesByOthers(h: seq<Event>, lo: nat, hi: nat, k: TaskKey, id: CallId): nat
    requires hi <= |h|
  {
    if hi <= lo then 0
    else WritesByOthers(h, lo, hi - 1, k, id) + if Wrote(h[hi - 1], k) && h[hi - 1].id != id then 1 else 0
  }

  lemma {:induction false} SilentWritesAreOthers(h: seq<Event>, lo: nat, hi: nat, k: TaskKey, id: CallId)
    requires hi <= |h| && Silent(h, id)
    ensures WritesByOthers(h, lo, hi, k, id) == Writes(h, lo, hi, k)
  {
    if lo < hi {
      SilentWritesAreOthers(h, lo, hi - 1, k, id);
    }
  }

  /**
   * Lock-freedom: a call still in its retry loop has failed at most as many
   * swaps as others wrote its key since it was invoked, and has taken at most
   * two steps more than three for each of those writes.
   */
  lemma RetriesAreBounded(c: Codec, s0: State, run: seq<Step>, id: CallId)
    requires Initial(s0) && IsRun(c, s0, run)
    requires id in Exec(c, s0, run).calls && Exec(c, s0, run).calls[id].Dispatching?
    ensures var s := Exec(c, s0, run);
            var call := s.calls[id];
            var others := WritesByOthers(s.history, call.began, |s.history|, call.key, id);
            call.fails <= others && call.steps <= 3 * others + 2
  {
    RunKeeps(c, s0.store, s0, run);
    var s := Exec(c, s0, run);
    var call := s.calls[id];
    assert CallOk(c, s.trace, s.history, id, call);
    SilentWritesAreOthers(s.history, call.began, |s.history|, call.key, id);
    if call.pc.Holding? {
      CountsAdd(s.history, call.began, call.pc.at, |s.history|, call.key);
    }
  }
}
