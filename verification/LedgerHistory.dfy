/**
 * Facts about a legal history: a sequence of operations `h` with the stores
 * `t` around them, where each operation has exactly the effect and the outcome
 * that the sequential specification gives it.
 */
module LedgerHistory {
  import opened Common
  import opened TaskRecords
  import opened LedgerSteps

  ghost predicate Legal(c: Codec, t: seq<Store>, h: seq<Event>) {
    && |t| == |h| + 1
    && forall i :: 0 <= i < |h| ==> Atomic(c, t[i], h[i].op) == (t[i + 1], h[i].out)
  }

  predicate Wrote(e: Event, k: TaskKey) {
    e.op.Key() == k && (e.out == Claimed(true) || e.out.Won? || e.out.Stored?)
  }

  predicate Win(e: Event, k: TaskKey) {
    e.op.Dispatch? && e.op.key == k && e.out.Won?
  }

  predicate PutOn(e: Event, k: TaskKey) {
    e.op.Put? && e.op.key == k
  }

  /** How many of the events `lo..hi` wrote `k`. */
  function Writes(h: seq<Event>, lo: nat, hi: nat, k: TaskKey): nat
    requires hi <= |h|
  {
    if hi <= lo then 0 else Writes(h, lo, hi - 1, k) + if Wrote(h[hi - 1], k) then 1 else 0
  }

  /** How many of the events `lo..hi` were won dispatches of `k`. */
  function Wins(h: seq<Event>, lo: nat, hi: nat, k: TaskKey): nat
    requires hi <= |h|
  {
    if hi <= lo then 0 else Wins(h, lo, hi - 1, k) + if Win(h[hi - 1], k) then 1 else 0
  }

  /** An event changes no key it did not write; one it wrote holds the bytes it says. */
  lemma EventEffect(c: Codec, t: seq<Store>, h: seq<Event>, i: nat, k: TaskKey)
    requires Legal(c, t, h) && i < |h|
    ensures !Wrote(h[i], k) ==> Lookup(t[i + 1], k) == Lookup(t[i], k)
    ensures Wrote(h[i], k) ==> k in t[i + 1] && (k in t[i] ==> Win(h[i], k) || PutOn(h[i], k))
    ensures Win(h[i], k) ==> t[i + 1][k] == c.encode(h[i].out.running)
    ensures PutOn(h[i], k) ==> Wrote(h[i], k) && t[i + 1][k] == h[i].op.bytes
  {
    assert Atomic(c, t[i], h[i].op) == (t[i + 1], h[i].out);
  }

  /** A winner replaced, at the instant it took effect, a record due at its clock reading. */
  lemma WinEffect(c: Codec, t: seq<Store>, h: seq<Event>, i: nat, k: TaskKey)
    requires Legal(c, t, h) && i < |h| && Win(h[i], k)
    ensures k in t[i] && c.decode(t[i][k]).Ok?
    ensures var r := c.decode(t[i][k]).value;
            var running := h[i].out.running;
            && NeedsDispatch(r, h[i].op.now) && running == Dispatched(r, h[i].op.now, h[i].op.deadline)
            && running.state == Running(h[i].op.deadline) && running.updatedAt == h[i].op.now
            && running.(state := r.state, attempts := r.attempts, updatedAt := r.updatedAt) == r
  {
    assert Atomic(c, t[i], h[i].op) == (t[i + 1], h[i].out);
  }

  lemma {:induction false} CountsAdd(h: seq<Event>, lo: nat, mid: nat, hi: nat, k: TaskKey)
    requires lo <= mid <= hi <= |h|
    ensures Writes(h, lo, hi, k) == Writes(h, lo, mid, k) + Writes(h, mid, hi, k)
    ensures Wins(h, lo, hi, k) == Wins(h, lo, mid, k) + Wins(h, mid, hi, k)
  {
    if mid < hi {
      CountsAdd(h, lo, mid, hi - 1, k);
    }
  }

  /** Counts over a stretch of the history do not depend on what comes later. */
  lemma {:induction false} CountsOfPrefix(h: seq<Event>, g: seq<Event>, lo: nat, hi: nat, k: TaskKey)
    requires hi <= |h| && h <= g
    ensures Writes(g, lo, hi, k) == Writes(h, lo, hi, k) && Wins(g, lo, hi, k) == Wins(h, lo, hi, k)
  {
    if lo < hi {
      CountsOfPrefix(h, g, lo, hi - 1, k);
    }
  }

  lemma {:induction false} QuietStretch(c: Codec, t: seq<Store>, h: seq<Event>, lo: nat, hi: nat, k: TaskKey)
    requires Legal(c, t, h) && lo <= hi <= |h|
    requires Writes(h, lo, hi, k) == 0
    ensures Lookup(t[hi], k) == Lookup(t[lo], k)
  {
    if lo < hi {
      QuietStretch(c, t, h, lo, hi - 1, k);
      EventEffect(c, t, h, hi - 1, k);
    }
  }

  lemma {:induction false} StaysStored(c: Codec, t: seq<Store>, h: seq<Event>, lo: nat, hi: nat, k: TaskKey)
    requires Legal(c, t, h) && lo <= hi <= |h| && k in t[lo]
    ensures k in t[hi]
  {
    if lo < hi {
      StaysStored(c, t, h, lo, hi - 1, k);
      EventEffect(c, t, h, hi - 1, k);
    }
  }

  /** The last event before `hi` that wrote `k`. */
  lemma {:induction false} LastWrite(h: seq<Event>, lo: nat, hi: nat, k: TaskKey) returns (w: nat)
    requires hi <= |h| && Writes(h, lo, hi, k) > 0
    ensures lo <= w < hi && Wrote(h[w], k) && Writes(h, w + 1, hi, k) == 0
  {
    w := hi - 1;
    if !Wrote(h[w], k) {
      w := LastWrite(h, lo, hi - 1, k);
    }
  }

  // ---------------------------------------------------------------- exclusion

  /** The clock reading of a winner is past the deadline the winner before it installed. */
  lemma NextWinnerIsLate(c: Codec, t: seq<Store>, h: seq<Event>, i: nat, j: nat, k: TaskKey)
    requires c.Lawful() && Legal(c, t, h)
    requires i < j < |h| && Win(h[i], k) && Win(h[j], k) && Writes(h, i + 1, j, k) == 0
    ensures h[i].op.deadline < h[j].op.now
  {
    QuietStretch(c, t, h, i + 1, j, k);
    EventEffect(c, t, h, i, k);
    WinEffect(c, t, h, i, k);
    WinEffect(c, t, h, j, k);
    assert c.decode(c.encode(h[i].out.running)) == Ok(h[i].out.running);
  }

  /** When no caller asks for a deadline before its own clock reading, that holds of any two winners. */
  lemma {:induction false} LaterWinnerIsLate(c: Codec, t: seq<Store>, h: seq<Event>, i: nat, j: nat, k: TaskKey)
    requires c.Lawful() && Legal(c, t, h)
    requires i < j < |h| && Win(h[i], k) && Win(h[j], k)
    requires forall m :: i < m < j ==> !PutOn(h[m], k)
    requires forall m :: i < m < j && Win(h[m], k) ==> h[m].op.now <= h[m].op.deadline
    ensures h[i].op.deadline < h[j].op.now
    decreases j
  {
    if Writes(h, i + 1, j, k) == 0 {
      NextWinnerIsLate(c, t, h, i, j, k);
    } else {
      var m := LastWrite(h, i + 1, j, k);
      EventEffect(c, t, h, i, k);
      StaysStored(c, t, h, i + 1, m, k);
      EventEffect(c, t, h, m, k);
      LaterWinnerIsLate(c, t, h, i, m, k);
      NextWinnerIsLate(c, t, h, m, j, k);
    }
  }

  /** While no clock has passed a deadline, a task without puts is dispatched at most once. */
  lemma SingleWinner(c: Codec, t: seq<Store>, h: seq<Event>, i: nat, j: nat, k: TaskKey)
    requires c.Lawful() && Legal(c, t, h)
    requires i < |h| && j < |h| && Win(h[i], k) && Win(h[j], k)
    requires forall m :: 0 <= m < |h| ==> !PutOn(h[m], k)
    requires forall m, n :: 0 <= m < |h| && 0 <= n < |h| && Win(h[m], k) && Win(h[n], k)
                            ==> h[m].op.now <= h[n].op.deadline
    ensures i == j
  {
    if i < j {
      LaterWinnerIsLate(c, t, h, i, j, k);
    } else if j < i {
      LaterWinnerIsLate(c, t, h, j, i, k);
    }
  }

  // ----------------------------------------------------------------- counting

  predicate Decodes(c: Codec, s: Store, k: TaskKey) {
    k in s && c.decode(s[k]).Ok?
  }

  function RecordIn(c: Codec, s: Store, k: TaskKey): TaskRecord
    requires Decodes(c, s, k)
  {
    c.decode(s[k]).value
  }

  /** A put that leaves the attempt counter of the record it replaces alone. */
  predicate NeutralPut(c: Codec, before: Store, e: Event, k: TaskKey) {
    PutOn(e, k) && c.decode(e.op.bytes).Ok? &&
    (Decodes(c, before, k) ==> c.decode(e.op.bytes).value.attempts == RecordIn(c, before, k).attempts)
  }

  ghost predicate PutsNeutral(c: Codec, t: seq<Store>, h: seq<Event>, lo: nat, hi: nat, k: TaskKey)
  {
    forall i :: lo <= i < hi && i < |h| < |t| && PutOn(h[i], k) ==> NeutralPut(c, t[i], h[i], k)
  }

  /** Every put since `lo` brings bytes that `k` has not held since `lo`. */
  ghost predicate PutsFresh(t: seq<Store>, h: seq<Event>, lo: nat, hi: nat, k: TaskKey)
  {
    forall i, j :: lo <= j <= i < hi && i < |h| < |t| && PutOn(h[i], k) ==> Lookup(t[j], k) != Some(h[i].op.bytes)
  }

  /** The stored counter is its earlier value plus the number of wins since, modulo 2^32. */
  lemma {:induction false} AttemptsCountWins(c: Codec, t: seq<Store>, h: seq<Event>, lo: nat, hi: nat, k: TaskKey)
    requires c.Lawful() && Legal(c, t, h) && lo <= hi <= |h|
    requires Decodes(c, t[lo], k) && PutsNeutral(c, t, h, lo, hi, k)
    ensures Decodes(c, t[hi], k)
    ensures RecordIn(c, t[hi], k).attempts == Bump(RecordIn(c, t[lo], k).attempts, Wins(h, lo, hi, k))
  {
    if lo < hi {
      var n := hi - 1;
      AttemptsCountWins(c, t, h, lo, n, k);
      BumpAgain(RecordIn(c, t[lo], k).attempts, Wins(h, lo, n, k));
      EventEffect(c, t, h, n, k);
      if Win(h[n], k) {
        WinEffect(c, t, h, n, k);
        assert c.decode(c.encode(h[n].out.running)) == Ok(h[n].out.running);
      }
    }
  }

  /** The bytes a write of `k` left there. */
  function Installed(c: Codec, e: Event): Option<Bytes> {
    match e.out
    case Claimed(true) => if e.op.Claim? then Some(c.encode(e.op.record)) else None
    case Won(running) => Some(c.encode(running))
    case Stored => if e.op.Put? then Some(e.op.bytes) else None
    case _ => None
  }

  /** The last of the events `lo..hi` that wrote `k` left `bytes` there. */
  ghost predicate LastInstalled(c: Codec, h: seq<Event>, lo: nat, hi: nat, k: TaskKey, bytes: Bytes)
    requires hi <= |h|
  {
    exists w :: lo <= w < hi && Wrote(h[w], k) && Installed(c, h[w]) == Some(bytes) && Writes(h, w + 1, hi, k) == 0
  }

  /** The last of the events `lo..hi` that wrote `k` was a put of `bytes`. */
  ghost predicate LastPut(h: seq<Event>, lo: nat, hi: nat, k: TaskKey, bytes: Bytes)
    requires hi <= |h|
  {
    exists w :: lo <= w < hi && PutOn(h[w], k) && h[w].op.bytes == bytes && Writes(h, w + 1, hi, k) == 0
  }

  lemma WriteInstalls(c: Codec, t: seq<Store>, h: seq<Event>, w: nat, hi: nat, k: TaskKey)
    requires Legal(c, t, h) && w < hi <= |h| && Wrote(h[w], k) && Writes(h, w + 1, hi, k) == 0
    ensures Installed(c, h[w]).Some? && Lookup(t[hi], k) == Installed(c, h[w])
  {
    QuietStretch(c, t, h, w + 1, hi, k);
    assert Atomic(c, t[w], h[w].op) == (t[w + 1], h[w].out);
  }

  /** Exactly when a key holds the bytes it held at `lo`: nothing wrote it since, or the last write restored them. */
  lemma BytesRecurIff(c: Codec, t: seq<Store>, h: seq<Event>, lo: nat, hi: nat, k: TaskKey)
    requires Legal(c, t, h) && lo <= hi <= |h| && k in t[lo]
    ensures Lookup(t[hi], k) == Some(t[lo][k])
            <==> Writes(h, lo, hi, k) == 0 || LastInstalled(c, h, lo, hi, k, t[lo][k])
  {
    if Writes(h, lo, hi, k) == 0 {
      QuietStretch(c, t, h, lo, hi, k);
    } else {
      var w := LastWrite(h, lo, hi, k);
      WriteInstalls(c, t, h, w, hi, k);
      forall v | lo <= v < hi && Wrote(h[v], k) && Writes(h, v + 1, hi, k) == 0
        ensures Installed(c, h[v]) == Lookup(t[hi], k)
      {
        WriteInstalls(c, t, h, v, hi, k);
      }
    }
  }

  /** While the counter cannot have come round, after a win the bytes differ from those at `lo`. */
  lemma WinBringsNewBytes(c: Codec, t: seq<Store>, h: seq<Event>, lo: nat, w: nat, hi: nat, k: TaskKey)
    requires c.Lawful() && Legal(c, t, h) && lo <= w < hi <= |h|
    requires Decodes(c, t[lo], k) && PutsNeutral(c, t, h, lo, hi, k) && Wins(h, lo, hi, k) < U32_LIMIT
    requires Win(h[w], k)
    ensures Lookup(t[hi], k) != Lookup(t[lo], k)
  {
    WinIsCounted(h, lo, w, hi, k);
    AttemptsCountWins(c, t, h, lo, hi, k);
    BumpAgain(RecordIn(c, t[lo], k).attempts, Wins(h, lo, hi, k));
  }

  lemma {:induction false} WinIsCounted(h: seq<Event>, lo: nat, w: nat, hi: nat, k: TaskKey)
    requires lo <= w < hi <= |h| && Win(h[w], k)
    ensures Wins(h, lo, hi, k) > 0
  {
    if w < hi - 1 {
      WinIsCounted(h, lo, w, hi - 1, k);
    }
  }

  /** Then only a put can have restored the bytes. */
  lemma OnlyPutsRestore(c: Codec, t: seq<Store>, h: seq<Event>, lo: nat, hi: nat, k: TaskKey)
    requires c.Lawful() && Legal(c, t, h) && lo <= hi <= |h|
    requires Decodes(c, t[lo], k) && PutsNeutral(c, t, h, lo, hi, k) && Wins(h, lo, hi, k) < U32_LIMIT
    ensures LastInstalled(c, h, lo, hi, k, t[lo][k]) <==> LastPut(h, lo, hi, k, t[lo][k])
  {
    if LastPut(h, lo, hi, k, t[lo][k]) {
      var w :| lo <= w < hi && PutOn(h[w], k) && h[w].op.bytes == t[lo][k] && Writes(h, w + 1, hi, k) == 0;
      EventEffect(c, t, h, w, k);
      WriteInstalls(c, t, h, w, hi, k);
      assert Atomic(c, t[w], h[w].op) == (t[w + 1], h[w].out);
    }
    if LastInstalled(c, h, lo, hi, k, t[lo][k]) {
      var w :| lo <= w < hi && Wrote(h[w], k) && Installed(c, h[w]) == Some(t[lo][k]) && Writes(h, w + 1, hi, k) == 0;
      WriteInstalls(c, t, h, w, hi, k);
      StaysStored(c, t, h, lo, w, k);
      EventEffect(c, t, h, w, k);
      if Win(h[w], k) {
        WinBringsNewBytes(c, t, h, lo, w, hi, k);
      }
    }
  }

  /**
   * No ABA: while the counter cannot have come round and puts bring new bytes,
   * a key written since `lo` no longer holds the bytes it held then.
   */
  lemma BytesNeverRecur(c: Codec, t: seq<Store>, h: seq<Event>, lo: nat, hi: nat, k: TaskKey)
    requires c.Lawful() && Legal(c, t, h) && lo <= hi <= |h|
    requires Decodes(c, t[lo], k) && PutsNeutral(c, t, h, lo, hi, k) && PutsFresh(t, h, lo, hi, k)
    requires Writes(h, lo, hi, k) > 0 && Wins(h, lo, hi, k) < U32_LIMIT
    ensures Lookup(t[hi], k) != Lookup(t[lo], k)
  {
    BytesRecurIff(c, t, h, lo, hi, k);
    OnlyPutsRestore(c, t, h, lo, hi, k);
  }
}
