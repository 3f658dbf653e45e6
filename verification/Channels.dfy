/**
 * One-on-one channels: `connect`, `close` and the background monitors as a
 * step system over a shared subscription set, its write lock and a
 * cancellation token.
 */
module Channels {
  import opened Common
  import Keys
  import Cache

  type Peer = string
  type Id = nat

  /** Where a monitor task is. A select polls the token first, then the message stream. */
  datatype MonitorPc = Starting | AtSelect | TokenSeenLive | Handling | Ending | Gone

  /**
   * `atCancel`: where the monitor was when the token was cancelled, if it was
   * there then; `late`: events it emitted after that.
   */
  datatype Monitor = Monitor(peer: Peer, pc: MonitorPc, atCancel: Option<MonitorPc>, late: nat)

  datatype ConnectPc = Waiting | Subscribing | Inserted | Returned(ok: bool) {
    predicate HasLock() { Subscribing? || Inserted? }
  }

  datatype Connect = Connect(target: Peer, pc: ConnectPc)

  datatype State = State(subs: set<Peer>, lock: Option<Id>, cancelled: bool, clears: nat,
                         connects: map<Id, Connect>, monitors: map<Id, Monitor>)

  const START: State := State({}, None, false, 0, map[], map[])

  datatype Step =
    | Call(id: Id, target: Peer)            // connect is invoked
    | Acquire(id: Id)                       // it gets the write lock and looks the peer up
    | Subscribe(id: Id, ok: bool)           // it subscribes to the topic
    | Spawn(id: Id, monitor: Id)            // it starts the monitor and lets go of the lock
    | Watch(monitor: Id, ok: bool)          // a monitor asks for its message stream
    | PollToken(monitor: Id)
    | PollStream(monitor: Id, next: Poll)
    | Emit(monitor: Id)
    | CleanUp(monitor: Id)
    | Cancel                                // close: cancel the token ...
    | Clear                                 // ... and then clear the subscriptions

  datatype Poll = Message | Pending | Finished

  predicate ConnectAt(s: State, id: Id, pc: ConnectPc) {
    id in s.connects && s.connects[id].pc == pc
  }

  predicate MonitorAt(s: State, id: Id, pc: MonitorPc) {
    id in s.monitors && s.monitors[id].pc == pc
  }

  predicate Enabled(s: State, step: Step) {
    match step
    case Call(id, _) => id !in s.connects
    case Acquire(id) => ConnectAt(s, id, Waiting) && s.lock.None?
    case Subscribe(id, _) => ConnectAt(s, id, Subscribing)
    case Spawn(id, monitor) => ConnectAt(s, id, Inserted) && monitor !in s.monitors
    case Watch(monitor, _) => MonitorAt(s, monitor, Starting)
    case PollToken(monitor) => MonitorAt(s, monitor, AtSelect)
    case PollStream(monitor, _) => MonitorAt(s, monitor, TokenSeenLive)
    case Emit(monitor) => MonitorAt(s, monitor, Handling)
    case CleanUp(monitor) => MonitorAt(s, monitor, Ending) && s.lock.None?
    case Cancel => true
    case Clear => s.clears > 0 && s.lock.None?
  }

  function SetConnect(s: State, id: Id, pc: ConnectPc): State
    requires id in s.connects
  {
    s.(connects := s.connects[id := s.connects[id].(pc := pc)])
  }

  function SetMonitor(s: State, id: Id, pc: MonitorPc): State
    requires id in s.monitors
  {
    s.(monitors := s.monitors[id := s.monitors[id].(pc := pc)])
  }

  function Next(s: State, step: Step): State
    requires Enabled(s, step)
  {
    match step
    case Call(id, target) => s.(connects := s.connects[id := Connect(target, Waiting)])
    case Acquire(id) =>
      if s.connects[id].target in s.subs then SetConnect(s, id, Returned(true))
      else SetConnect(s, id, Subscribing).(lock := Some(id))
    case Subscribe(id, ok) =>
      if ok then SetConnect(s, id, Inserted).(subs := s.subs + {s.connects[id].target})
      else SetConnect(s, id, Returned(false)).(lock := None)
    case Spawn(id, monitor) =>
      SetConnect(s, id, Returned(true))
        .(lock := None, monitors := s.monitors[monitor := Monitor(s.connects[id].target, Starting, None, 0)])
    case Watch(monitor, ok) => SetMonitor(s, monitor, if ok then AtSelect else Ending)
    case PollToken(monitor) => SetMonitor(s, monitor, if s.cancelled then Ending else TokenSeenLive)
    case PollStream(monitor, next) =>
      SetMonitor(s, monitor, match next case Message => Handling case Pending => AtSelect case Finished => Ending)
    case Emit(monitor) =>
      var m := s.monitors[monitor];
      s.(monitors := s.monitors[monitor := m.(pc := AtSelect, late := if s.cancelled then m.late + 1 else m.late)])
    case CleanUp(monitor) => SetMonitor(s, monitor, Gone).(subs := s.subs - {s.monitors[monitor].peer})
    case Cancel =>
      s.(cancelled := true, clears := s.clears + 1,
         monitors := if s.cancelled then s.monitors
                     else map id | id in s.monitors :: s.monitors[id].(atCancel := Some(s.monitors[id].pc)))
    case Clear => s.(subs := {}, clears := s.clears - 1)
  }

  ghost predicate IsRun(s: State, run: seq<Step>)
    decreases |run|
  {
    run == [] || (Enabled(s, run[0]) && IsRun(Next(s, run[0]), run[1..]))
  }

  ghost function Exec(s: State, run: seq<Step>): State
    requires IsRun(s, run)
    decreases |run|
  {
    if run == [] then s else Exec(Next(s, run[0]), run[1..])
  }

  // ------------------------------------------------------------------- invariants

  /** Peers with a monitor that has not cleaned up. */
  ghost predicate Watched(s: State, peer: Peer) {
    exists id :: id in s.monitors && s.monitors[id].peer == peer && s.monitors[id].pc != Gone
  }

  /** Inside the critical section, between inserting the peer and starting its monitor. */
  predicate InsertedBy(s: State, peer: Peer) {
    s.lock.Some? && s.lock.value in s.connects
    && s.connects[s.lock.value] == Connect(peer, Inserted)
  }

  ghost predicate LockOk(s: State) {
    && (s.lock.Some? ==> s.lock.value in s.connects && s.connects[s.lock.value].pc.HasLock())
    && (forall id :: id in s.connects && s.connects[id].pc.HasLock() ==> s.lock == Some(id))
    && (forall id :: id in s.connects && s.connects[id].pc.Subscribing? ==> s.connects[id].target !in s.subs)
    && (forall id :: id in s.connects && s.connects[id].pc.Inserted? ==> s.connects[id].target in s.subs)
  }

  /** No subscription without a monitor to clean it up. */
  ghost predicate Covered(s: State) {
    forall peer :: peer in s.subs ==> Watched(s, peer) || InsertedBy(s, peer)
  }

  /** Holds in every state. */
  ghost predicate Shape(s: State) {
    LockOk(s) && Covered(s)
  }

  /** No monitor without its subscription, and one monitor for each peer. */
  ghost predicate Exact(s: State) {
    && (forall id :: id in s.monitors && s.monitors[id].pc != Gone ==>
          s.monitors[id].peer in s.subs && !InsertedBy(s, s.monitors[id].peer))
    && (forall i, j |
          && i in s.monitors && s.monitors[i].pc != Gone
          && j in s.monitors && s.monitors[j].pc != Gone
          && s.monitors[i].peer == s.monitors[j].peer
          :: i == j)
  }

  /** After close: which monitors may still emit, and how often. */
  ghost predicate Quieting(m: Monitor) {
    && m.late <= 1
    && (m.pc == TokenSeenLive || m.pc == Handling ==> m.late == 0)
    && (m.late == 1 || m.pc == TokenSeenLive || m.pc == Handling ==>
          m.atCancel == Some(TokenSeenLive) || m.atCancel == Some(Handling))
  }

  ghost predicate Quiet(s: State) {
    forall id :: id in s.monitors ==> if s.cancelled then Quieting(s.monitors[id]) else s.monitors[id].late == 0
  }

  ghost predicate Inv(s: State) {
    Shape(s) && Quiet(s) && (!s.cancelled ==> Exact(s) && s.clears == 0)
  }

  lemma CallKeeps(s: State, id: Id, target: Peer)
    requires Shape(s) && id !in s.connects
    ensures Shape(Next(s, Call(id, target))) && (Exact(s) ==> Exact(Next(s, Call(id, target))))
  {
    var s' := Next(s, Call(id, target));
    assert forall peer :: InsertedBy(s', peer) <==> InsertedBy(s, peer);
    assert forall peer :: Watched(s', peer) <==> Watched(s, peer);
  }

  lemma AcquireKeeps(s: State, id: Id)
    requires Shape(s) && Enabled(s, Acquire(id))
    ensures Shape(Next(s, Acquire(id))) && (Exact(s) ==> Exact(Next(s, Acquire(id))))
  {
    var s' := Next(s, Acquire(id));
    assert forall peer :: !InsertedBy(s', peer) && !InsertedBy(s, peer);
    assert forall peer :: Watched(s', peer) <==> Watched(s, peer);
  }

  lemma SubscribeKeeps(s: State, id: Id, ok: bool)
    requires Shape(s) && Enabled(s, Subscribe(id, ok))
    ensures Shape(Next(s, Subscribe(id, ok))) && (Exact(s) ==> Exact(Next(s, Subscribe(id, ok))))
  {
    var s' := Next(s, Subscribe(id, ok));
    assert forall peer :: !InsertedBy(s, peer);
    assert forall peer :: InsertedBy(s', peer) <==> ok && peer == s.connects[id].target;
    assert forall peer :: Watched(s', peer) <==> Watched(s, peer);
  }

  lemma SpawnKeeps(s: State, id: Id, monitor: Id)
    requires Shape(s) && Enabled(s, Spawn(id, monitor))
    ensures Shape(Next(s, Spawn(id, monitor))) && (Exact(s) ==> Exact(Next(s, Spawn(id, monitor))))
  {
    var s' := Next(s, Spawn(id, monitor));
    var target := s.connects[id].target;
    assert s.lock == Some(id);
    assert forall peer :: !InsertedBy(s', peer) && (InsertedBy(s, peer) ==> peer == target);
    assert Watched(s', target) by { assert s'.monitors[monitor].peer == target; }
    forall peer | Watched(s, peer) ensures Watched(s', peer) {
      var m :| m in s.monitors && s.monitors[m].peer == peer && s.monitors[m].pc != Gone;
      assert s'.monitors[m] == s.monitors[m];
    }
    assert InsertedBy(s, target);
  }

  /** A step of a monitor that has not cleaned up changes neither the set nor who is watched. */
  lemma MonitorStepKeeps(s: State, id: Id, m: Monitor)
    requires Shape(s) && id in s.monitors && s.monitors[id].pc != Gone && m.pc != Gone
    requires m.peer == s.monitors[id].peer
    ensures Shape(s.(monitors := s.monitors[id := m])) && (Exact(s) ==> Exact(s.(monitors := s.monitors[id := m])))
  {
    var s' := s.(monitors := s.monitors[id := m]);
    assert forall peer :: InsertedBy(s', peer) <==> InsertedBy(s, peer);
    forall peer | Watched(s, peer) ensures Watched(s', peer) {
      var i :| i in s.monitors && s.monitors[i].peer == peer && s.monitors[i].pc != Gone;
      assert s'.monitors[i].peer == peer && s'.monitors[i].pc != Gone;
    }
  }

  lemma CleanUpKeeps(s: State, id: Id)
    requires Shape(s) && Enabled(s, CleanUp(id))
    ensures Shape(Next(s, CleanUp(id))) && (Exact(s) ==> Exact(Next(s, CleanUp(id))))
  {
    var s' := Next(s, CleanUp(id));
    assert forall peer :: !InsertedBy(s', peer) && !InsertedBy(s, peer);
    forall peer | peer in s'.subs ensures Watched(s', peer) {
      assert Watched(s, peer);
      var i :| i in s.monitors && s.monitors[i].peer == peer && s.monitors[i].pc != Gone;
      assert s'.monitors[i] == s.monitors[i];
    }
  }

  lemma CancelKeeps(s: State)
    requires Shape(s)
    ensures Shape(Next(s, Cancel)) && (Exact(s) ==> Exact(Next(s, Cancel)))
  {
    var s' := Next(s, Cancel);
    assert forall peer :: InsertedBy(s', peer) <==> InsertedBy(s, peer);
    forall peer | Watched(s, peer) ensures Watched(s', peer) {
      var i :| i in s.monitors && s.monitors[i].peer == peer && s.monitors[i].pc != Gone;
      assert s'.monitors[i].peer == peer && s'.monitors[i].pc != Gone;
    }
  }

  predicate AllGone(s: State) {
    forall id :: id in s.monitors ==> s.monitors[id].pc == Gone
  }

  /** Every step keeps the shape. It keeps exactness too, except a clear that finds monitors running, which ends it. */
  lemma ShapeKeeps(s: State, step: Step)
    requires Shape(s) && Enabled(s, step)
    ensures Shape(Next(s, step))
    ensures Exact(s) ==> (Exact(Next(s, step)) <==> (step.Clear? ==> AllGone(s)))
  {
    match step
    case Call(id, target) => CallKeeps(s, id, target);
    case Acquire(id) => AcquireKeeps(s, id);
    case Subscribe(id, ok) => SubscribeKeeps(s, id, ok);
    case Spawn(id, monitor) => SpawnKeeps(s, id, monitor);
    case Watch(id, _) => MonitorStepKeeps(s, id, Next(s, step).monitors[id]);
    case PollToken(id) => MonitorStepKeeps(s, id, Next(s, step).monitors[id]);
    case PollStream(id, _) => MonitorStepKeeps(s, id, Next(s, step).monitors[id]);
    case Emit(id) => MonitorStepKeeps(s, id, Next(s, step).monitors[id]);
    case CleanUp(id) => CleanUpKeeps(s, id);
    case Cancel => CancelKeeps(s);
    case Clear =>
  }

  lemma QuietKeeps(s: State, step: Step)
    requires Quiet(s) && Enabled(s, step)
    ensures Quiet(Next(s, step))
  {
  }

  lemma StepKeeps(s: State, step: Step)
    requires Inv(s) && Enabled(s, step)
    ensures Inv(Next(s, step))
  {
    ShapeKeeps(s, step);
    QuietKeeps(s, step);
  }

  lemma {:induction false} RunKeeps(s: State, run: seq<Step>)
    requires Inv(s) && IsRun(s, run)
    ensures Inv(Exec(s, run))
    decreases |run|
  {
    if run != [] {
      StepKeeps(s, run[0]);
      RunKeeps(Next(s, run[0]), run[1..]);
    }
  }

  lemma StartKeeps()
    ensures Inv(START)
  {
  }

  // --------------------------------------------------------------------- theorems

  /**
   * After close, a monitor emits at most one more event, and only if it had
   * already passed its check of the token; one started later emits none.
   */
  lemma CloseSilences(run: seq<Step>, id: Id)
    requires IsRun(START, run) && Exec(START, run).cancelled && id in Exec(START, run).monitors
    ensures var m := Exec(START, run).monitors[id];
            && m.late <= 1
            && (m.late == 1 ==> m.atCancel == Some(TokenSeenLive) || m.atCancel == Some(Handling))
            && (m.atCancel.None? ==> m.late == 0 && m.pc != Handling)
  {
    StartKeeps();
    RunKeeps(START, run);
  }

  /** In every run, closed or not, no subscription outlives all its monitors. */
  lemma NoOrphans(run: seq<Step>)
    requires IsRun(START, run) && Exec(START, run).lock.None?
    requires forall id :: id in Exec(START, run).monitors ==> Exec(START, run).monitors[id].pc == Gone
    ensures Exec(START, run).subs == {}
  {
    StartKeeps();
    RunKeeps(START, run);
    var s := Exec(START, run);
    forall peer ensures peer !in s.subs {
      assert !Watched(s, peer) && !InsertedBy(s, peer);
    }
  }

  /** How many more steps a monitor can take once the token is cancelled. */
  function Remaining(pc: MonitorPc): nat {
    match pc
    case TokenSeenLive => 4
    case Handling => 3
    case Starting => 3
    case AtSelect => 2
    case Ending => 1
    case Gone => 0
  }

  /** After close every step of a monitor brings it closer to its end, and no other step sets it back. */
  lemma CancelledMonitorsFinish(s: State, step: Step, id: Id)
    requires s.cancelled && Enabled(s, step) && id in s.monitors
    ensures id in Next(s, step).monitors && Next(s, step).cancelled
    ensures Remaining(Next(s, step).monitors[id].pc) <= Remaining(s.monitors[id].pc)
    ensures (step.Watch? || step.PollToken? || step.PollStream? || step.Emit? || step.CleanUp?) && step.monitor == id
            ==> Remaining(Next(s, step).monitors[id].pc) < Remaining(s.monitors[id].pc)
  {
  }

  /** Subscriptions and monitors agree in this state and in every later one of the run. */
  ghost predicate ExactThroughout(s: State, run: seq<Step>)
    requires IsRun(s, run)
    decreases |run|
  {
    Exact(s) && (run != [] ==> ExactThroughout(Next(s, run[0]), run[1..]))
  }

  /** Whenever the run clears the subscriptions, all monitors have cleaned up before. */
  predicate ClearsComeLast(s: State, run: seq<Step>)
    requires IsRun(s, run)
    decreases |run|
  {
    run == [] || ((run[0].Clear? ==> AllGone(s)) && ClearsComeLast(Next(s, run[0]), run[1..]))
  }

  lemma {:induction false} ExactFromIff(s: State, run: seq<Step>)
    requires Shape(s) && Exact(s) && IsRun(s, run)
    ensures ExactThroughout(s, run) <==> ClearsComeLast(s, run)
    decreases |run|
  {
    if run != [] {
      ShapeKeeps(s, run[0]);
      if Exact(Next(s, run[0])) {
        ExactFromIff(Next(s, run[0]), run[1..]);
      }
    }
  }

  /**
   * Exactly when subscriptions and monitors agree all through a run: when no
   * close clears the subscriptions while a monitor is still to clean up.
   */
  lemma ExactThroughoutIff(run: seq<Step>)
    requires IsRun(START, run)
    ensures ExactThroughout(START, run) <==> ClearsComeLast(START, run)
  {
    StartKeeps();
    ExactFromIff(START, run);
  }

  lemma {:induction false} ExactAtEnd(s: State, run: seq<Step>)
    requires Shape(s) && Exact(s) && IsRun(s, run) && ClearsComeLast(s, run)
    ensures Exact(Exec(s, run))
    decreases |run|
  {
    if run != [] {
      ShapeKeeps(s, run[0]);
      ExactAtEnd(Next(s, run[0]), run[1..]);
    }
  }

  /**
   * Before close, or after one that cleared last, and outside the critical
   * section of `connect`, the subscribed peers are exactly those with a
   * monitor not yet cleaned up, one each.
   */
  lemma SubscriptionsAreMonitors(run: seq<Step>)
    requires IsRun(START, run) && (Exec(START, run).cancelled ==> ClearsComeLast(START, run))
    requires forall id :: !ConnectAt(Exec(START, run), id, Inserted)
    ensures forall peer :: peer in Exec(START, run).subs <==> Watched(Exec(START, run), peer)
    ensures Exact(Exec(START, run))
  {
    StartKeeps();
    RunKeeps(START, run);
    var s := Exec(START, run);
    if s.cancelled {
      ExactAtEnd(START, run);
    }
    if s.lock.Some? {
      assert !ConnectAt(s, s.lock.value, Inserted);
    }
  }

  /** One channel open: its peer is subscribed and its monitor has just started. */
  const ONE_OPEN: State :=
    State({"p"}, None, false, 0, map[0 := Connect("p", Returned(true))], map[0 := Monitor("p", Starting, None, 0)])

  const OPENING: seq<Step> := [Call(0, "p"), Acquire(0), Subscribe(0, true), Spawn(0, 0)]

  lemma OpeningThen(rest: seq<Step>)
    requires IsRun(ONE_OPEN, rest)
    ensures IsRun(START, OPENING + rest) && Exec(START, OPENING + rest) == Exec(ONE_OPEN, rest)
  {
    var s1 := Next(START, OPENING[0]);
    var s2 := Next(s1, OPENING[1]);
    var s3 := Next(s2, OPENING[2]);
    assert Next(s3, OPENING[3]) == ONE_OPEN;
    var run := OPENING + rest;
    assert run[4..] == rest;
    ExecOne(s3, run[3..]);
    ExecOne(s2, run[2..]);
    ExecOne(s1, run[1..]);
    ExecOne(START, run);
  }

  /** A close that clears first: a monitor is left without its subscription. */
  lemma CloseBreaksExactness()
    ensures var run := OPENING + [Cancel, Clear];
            && IsRun(START, run) && Exec(START, run).lock.None?
            && Watched(Exec(START, run), "p") && "p" !in Exec(START, run).subs
  {
    var closed := Next(ONE_OPEN, Cancel);
    var cleared := Next(closed, Clear);
    ExecOne(closed, [Clear]);
    ExecOne(ONE_OPEN, [Cancel, Clear]);
    OpeningThen([Cancel, Clear]);
    assert cleared.monitors[0].peer == "p" && cleared.monitors[0].pc == Starting;
  }

  lemma ExecOne(s: State, run: seq<Step>)
    requires run != [] && Enabled(s, run[0]) && IsRun(Next(s, run[0]), run[1..])
    ensures IsRun(s, run) && Exec(s, run) == Exec(Next(s, run[0]), run[1..])
  {
  }

  // ------------------------------------------------------------------ channel names

  const PROTOCOL: string := "/guardian-db/one-on-one-channel/1"

  function ChannelId(me: Peer, other: Peer): string {
    var (a, b) := if Cache.Less(other, me) then (other, me) else (me, other);
    PROTOCOL + "/" + (a + "/" + b)
  }

  /** Both ends compute the same name, and no other pair does. */
  lemma ChannelIdNamesPair(a: Peer, b: Peer, c: Peer, d: Peer)
    requires Keys.SLASH !in a && Keys.SLASH !in b && Keys.SLASH !in c && Keys.SLASH !in d
    ensures ChannelId(a, b) == ChannelId(c, d) <==> (a == c && b == d) || (a == d && b == c)
  {
    Cache.LessIsStrict(a, b);
    var x := if Cache.Less(b, a) then [b, a] else [a, b];
    var y := if Cache.Less(d, c) then [d, c] else [c, d];
    PairReadsBack(x[0], x[1]);
    PairReadsBack(y[0], y[1]);
    assert ChannelId(a, b) == PROTOCOL + "/" + (x[0] + "/" + x[1]);
    assert ChannelId(c, d) == PROTOCOL + "/" + (y[0] + "/" + y[1]);
    var n := |PROTOCOL| + 1;
    assert ChannelId(a, b)[n..] == x[0] + "/" + x[1] && ChannelId(c, d)[n..] == y[0] + "/" + y[1];
  }

  /** Which name it is: the two peers in ascending order. */
  lemma ChannelIdIsSorted(a: Peer, b: Peer)
    requires Cache.Before(a, b)
    ensures ChannelId(a, b) == ChannelId(b, a) == "/guardian-db/one-on-one-channel/1/" + a + "/" + b
  {
    Cache.LessIff(a, b);
    Cache.LessIsStrict(a, b);
    assert PROTOCOL + "/" == "/guardian-db/one-on-one-channel/1/";
  }

  lemma PairReadsBack(x: string, y: string)
    requires Keys.SLASH !in x && Keys.SLASH !in y
    ensures Keys.Split(x + "/" + y) == [x, y]
  {
    Keys.SplitFirst(x, y);
    Keys.SplitWhole(y);
  }
}
