/** What passes through a channel: messages and events, and what `connect` tells its caller. */
module ChannelFlow {
  import opened Channels

  /** How many messages a run takes from the stream of monitor `id`. */
  function MessagesTaken(run: seq<Step>, id: Id): nat {
    if run == [] then 0 else (if run[0] == PollStream(id, Message) then 1 else 0) + MessagesTaken(run[1..], id)
  }

  /** How many events monitor `id` emits in a run. */
  function EventsEmitted(run: seq<Step>, id: Id): nat {
    if run == [] then 0 else (if run[0] == Emit(id) then 1 else 0) + EventsEmitted(run[1..], id)
  }

  /** Messages a monitor has taken and not yet emitted. */
  function InHand(s: State, id: Id): nat {
    if MonitorAt(s, id, Handling) then 1 else 0
  }

  lemma {:induction false} FlowFrom(s: State, run: seq<Step>, id: Id)
    requires IsRun(s, run)
    ensures InHand(s, id) + MessagesTaken(run, id) == EventsEmitted(run, id) + InHand(Exec(s, run), id)
    decreases |run|
  {
    if run != [] {
      FlowFrom(Next(s, run[0]), run[1..], id);
    }
  }

  /** Conservation, in every run: each message taken is emitted once, but for the one in hand. */
  lemma MessagesAreEmitted(run: seq<Step>, id: Id)
    requires IsRun(START, run)
    ensures MessagesTaken(run, id) == EventsEmitted(run, id) + InHand(Exec(START, run), id)
  {
    FlowFrom(START, run, id);
  }

  /** A live monitor at its select can take a message and emit it, and is then where it was. */
  lemma LiveMonitorEmits(s: State, id: Id)
    requires !s.cancelled && MonitorAt(s, id, AtSelect)
    ensures var run := [PollToken(id), PollStream(id, Message), Emit(id)];
            IsRun(s, run) && Exec(s, run) == s
  {
    var s1 := Next(s, PollToken(id));
    var s2 := Next(s1, PollStream(id, Message));
    var s3 := Next(s2, Emit(id));
    assert s3.monitors == s.monitors;
    var run := [PollToken(id), PollStream(id, Message), Emit(id)];
    assert run[1..] == [PollStream(id, Message), Emit(id)] && run[1..][1..] == [Emit(id)] && run[1..][1..][1..] == [];
    ExecOne(s2, [Emit(id)]);
    ExecOne(s1, run[1..]);
    ExecOne(s, run);
  }

  /** A monitor whose stream could be opened gets there; one whose stream could not ends. */
  lemma MonitorStarts(s: State, id: Id, ok: bool)
    requires MonitorAt(s, id, Starting)
    ensures Enabled(s, Watch(id, ok))
    ensures MonitorAt(Next(s, Watch(id, ok)), id, if ok then AtSelect else Ending)
  {
  }

  /** In every run, `connect` reports success exactly when its peer is subscribed as it returns. */
  lemma ConnectTellsTheTruth(run: seq<Step>, step: Step, id: Id, ok: bool)
    requires IsRun(START, run) && Enabled(Exec(START, run), step)
    requires id in Exec(START, run).connects && !Exec(START, run).connects[id].pc.Returned?
    requires ConnectAt(Next(Exec(START, run), step), id, Returned(ok))
    ensures ok <==> Exec(START, run).connects[id].target in Next(Exec(START, run), step).subs
  {
    StartKeeps();
    RunKeeps(START, run);
    StepKeeps(Exec(START, run), step);
  }

  /** A connect left alone subscribes a new peer and starts its monitor. */
  lemma ConnectSubscribes(s: State, id: Id, monitor: Id, peer: Peer)
    requires id !in s.connects && monitor !in s.monitors && s.lock.None? && peer !in s.subs
    ensures var run := [Call(id, peer), Acquire(id), Subscribe(id, true), Spawn(id, monitor)];
            && IsRun(s, run) && ConnectAt(Exec(s, run), id, Returned(true))
            && Exec(s, run).subs == s.subs + {peer} && MonitorAt(Exec(s, run), monitor, Starting)
            && Exec(s, run).monitors[monitor].peer == peer && Exec(s, run).lock.None?
  {
    var run := [Call(id, peer), Acquire(id), Subscribe(id, true), Spawn(id, monitor)];
    var s1 := Next(s, run[0]);
    var s2 := Next(s1, run[1]);
    var s3 := Next(s2, run[2]);
    assert run[1..][1..] == run[2..] && run[2..][1..] == run[3..] && run[3..][1..] == [];
    ExecOne(s3, run[3..]);
    ExecOne(s2, run[2..]);
    ExecOne(s1, run[1..]);
    ExecOne(s, run);
  }

  /** A connect to a peer that is subscribed already changes nothing but its own return. */
  lemma ConnectAgain(s: State, id: Id, peer: Peer)
    requires id !in s.connects && s.lock.None? && peer in s.subs
    ensures var run := [Call(id, peer), Acquire(id)];
            && IsRun(s, run) && ConnectAt(Exec(s, run), id, Returned(true))
            && Exec(s, run) == s.(connects := Exec(s, run).connects)
  {
    var run := [Call(id, peer), Acquire(id)];
    assert run[1..] == [Acquire(id)] && run[1..][1..] == [];
    ExecOne(Next(s, run[0]), run[1..]);
    ExecOne(s, run);
  }

  /** While no message is there, a live monitor waits. */
  lemma LiveMonitorWaits(s: State, id: Id)
    requires !s.cancelled && MonitorAt(s, id, AtSelect)
    ensures var run := [PollToken(id), PollStream(id, Pending)];
            IsRun(s, run) && Exec(s, run) == s
  {
    var s1 := Next(s, PollToken(id));
    var s2 := Next(s1, PollStream(id, Pending));
    assert s2.monitors == s.monitors;
    var run := [PollToken(id), PollStream(id, Pending)];
    assert run[1..] == [PollStream(id, Pending)] && run[1..][1..] == [];
    ExecOne(s1, run[1..]);
    ExecOne(s, run);
  }

  /** When its stream ends, a live monitor takes its peer's subscription with it. */
  lemma EndedStreamUnsubscribes(s: State, id: Id)
    requires !s.cancelled && MonitorAt(s, id, AtSelect) && s.lock.None?
    ensures var run := [PollToken(id), PollStream(id, Finished), CleanUp(id)];
            && IsRun(s, run) && MonitorAt(Exec(s, run), id, Gone)
            && Exec(s, run).subs == s.subs - {s.monitors[id].peer}
  {
    var s1 := Next(s, PollToken(id));
    var s2 := Next(s1, PollStream(id, Finished));
    var run := [PollToken(id), PollStream(id, Finished), CleanUp(id)];
    assert run[1..] == [PollStream(id, Finished), CleanUp(id)];
    assert run[1..][1..] == [CleanUp(id)] && run[1..][1..][1..] == [];
    ExecOne(s2, [CleanUp(id)]);
    ExecOne(s1, run[1..]);
    ExecOne(s, run);
  }
}
