/** Which tasks are won: exactly the pending ones and those running past their deadline. */
module LedgerDue {
  import opened Common
  import opened TaskRecords
  import opened LedgerSteps
  import opened LedgerHistory
  import opened LedgerRuns

  /** The record after one more attempt, written out. */
  ghost predicate OneMoreAttempt(before: TaskRecord, after: TaskRecord, now: u64, deadline: u64) {
    && after.state == Running(deadline) && after.updatedAt == now
    && after.attempts == (before.attempts + 1) % 0x1_0000_0000
    && after.key == before.key && after.job == before.job
    && after.createdAt == before.createdAt && after.result == before.result
  }

  /** What a dispatch of a stored record does, for each state the record can be in. */
  lemma DispatchWinsIff(c: Codec, s: Store, k: TaskKey, r: TaskRecord, now: u64, deadline: u64)
    requires c.Lawful() && k in s && s[k] == c.encode(r)
    ensures var (after, out) := AtomicDispatch(c, s, k, now, deadline);
            && (out.Won? <==> r.state.Pending? || (r.state.Running? && r.state.deadline < now))
            && (out.Won? ==> OneMoreAttempt(r, out.running, now, deadline) && after == s[k := c.encode(out.running)])
            && (!out.Won? ==> out == Declined && after == s)
  {
    assert c.decode(s[k]) == Ok(r);
  }

  /** A task that is not stored is declined; stored bytes that are no record are an error. Nothing is written. */
  lemma DispatchRefuses(c: Codec, s: Store, k: TaskKey, now: u64, deadline: u64)
    ensures k !in s ==> AtomicDispatch(c, s, k, now, deadline) == (s, Declined)
    ensures k in s && c.decode(s[k]).Err? ==>
              AtomicDispatch(c, s, k, now, deadline) == (s, Corrupt(c.decode(s[k]).error))
  {
  }

  // ------------------------------------------------------------------------ runs

  /** In every run, a read keeps its snapshot exactly when the stored record is due at the clock reading. */
  lemma ReadHoldsIff(c: Codec, s0: State, run: seq<Step>, id: CallId, r: TaskRecord)
    requires c.Lawful() && Initial(s0) && IsRun(c, s0, run) && Enabled(Exec(c, s0, run), Read(id))
    requires var s := Exec(c, s0, run);
             Lookup(s.store, s.calls[id].key) == Some(c.encode(r))
    ensures var s := Exec(c, s0, run);
            var call, now := s.calls[id], s.calls[id].pc.now;
            var call' := Next(c, s, Read(id)).calls[id];
            && Next(c, s, Read(id)).store == s.store
            && (r.state.Pending? || (r.state.Running? && r.state.deadline < now) ==>
                  && call'.Dispatching? && call'.key == call.key && call'.deadline == call.deadline
                  && call'.pc == Holding(now, c.encode(r), r, |s.history|))
            && (!(r.state.Pending? || (r.state.Running? && r.state.deadline < now)) ==>
                  call' == Returned(ForDispatch(call.key, call.deadline), Declined, |s.history|))
  {
    assert c.decode(c.encode(r)) == Ok(r);
  }

  /** In every run, a swap with no write of the key since its read wins the record that was read. */
  lemma QuietSwapWins(c: Codec, s0: State, run: seq<Step>, id: CallId)
    requires Initial(s0) && IsRun(c, s0, run) && Enabled(Exec(c, s0, run), Swap(id))
    requires var s := Exec(c, s0, run);
             Writes(s.history, s.calls[id].pc.at, |s.history|, s.calls[id].key) == 0
    ensures var s := Exec(c, s0, run);
            var call := s.calls[id];
            var s' := Next(c, s, Swap(id));
            && s'.calls[id].Returned? && s'.calls[id].outcome.Won?
            && OneMoreAttempt(call.pc.seen, s'.calls[id].outcome.running, call.pc.time, call.deadline)
            && s'.store == s.store[call.key := c.encode(s'.calls[id].outcome.running)]
  {
    SwapSucceedsIff(c, s0, run, id);
  }

  function Attempt(id: CallId, k: TaskKey, now: u64, deadline: u64): seq<Step> {
    [InvokeDispatch(id, k, deadline), ReadClock(id, now), Read(id), Swap(id)]
  }

  lemma ExecStep(c: Codec, s: State, step: Step, rest: seq<Step>)
    requires Enabled(s, step) && IsRun(c, Next(c, s, step), rest)
    ensures IsRun(c, s, [step] + rest) && Exec(c, s, [step] + rest) == Exec(c, Next(c, s, step), rest)
  {
    ConsTail(step, rest);
  }

  /** From any state, a dispatcher that is left alone wins a task that is due. */
  lemma DueTaskIsWon(c: Codec, s: State, id: CallId, k: TaskKey, r: TaskRecord, now: u64, deadline: u64)
    requires c.Lawful() && id !in s.calls && Lookup(s.store, k) == Some(c.encode(r))
    requires r.state.Pending? || (r.state.Running? && r.state.deadline < now)
    ensures IsRun(c, s, Attempt(id, k, now, deadline))
    ensures var s' := Exec(c, s, Attempt(id, k, now, deadline));
            && id in s'.calls && s'.calls[id].Returned? && s'.calls[id].outcome.Won?
            && OneMoreAttempt(r, s'.calls[id].outcome.running, now, deadline)
            && s'.store == s.store[k := c.encode(s'.calls[id].outcome.running)]
  {
    assert c.decode(c.encode(r)) == Ok(r);
    var s1 := Next(c, s, InvokeDispatch(id, k, deadline));
    var s2 := Next(c, s1, ReadClock(id, now));
    var s3 := Next(c, s2, Read(id));
    ExecStep(c, s3, Swap(id), []);
    ExecStep(c, s2, Read(id), [Swap(id)]);
    ExecStep(c, s1, ReadClock(id, now), [Read(id)] + [Swap(id)]);
    ExecStep(c, s, InvokeDispatch(id, k, deadline), [ReadClock(id, now)] + ([Read(id)] + [Swap(id)]));
    assert Attempt(id, k, now, deadline)
        == [InvokeDispatch(id, k, deadline)] + ([ReadClock(id, now)] + ([Read(id)] + [Swap(id)]));
  }

  /** The put of an update stores the record it was given, stamped with the clock reading, and nothing else. */
  lemma UpdateStores(c: Codec, s: State, id: CallId, mutated: TaskRecord, now: u64)
    requires c.Lawful() && Enabled(s, UpdatePut(id, mutated, now))
    ensures var s', key := Next(c, s, UpdatePut(id, mutated, now)), s.calls[id].key;
            && key in s'.store && c.decode(s'.store[key]).Ok?
            && (forall k :: k != key ==> Lookup(s'.store, k) == Lookup(s.store, k))
            && var stored := c.decode(s'.store[key]).value;
               stored.updatedAt == now && stored.(updatedAt := mutated.updatedAt) == mutated
  {
    assert c.decode(c.encode(mutated.(updatedAt := now))) == Ok(mutated.(updatedAt := now));
  }
}
