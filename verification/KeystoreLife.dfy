/** Key stores in use: which sessions open, what the next operation reads, and what the lifecycle records say. */
module KeystoreLife {
  import opened Common
  import opened Keystore

  // --------------------------------------------------------------- opening

  /** Exactly when a closed file opens for verbatim secrets; nothing is changed. */
  lemma PlainSessionIff(w: World)
    requires w.session.Closed?
    ensures Next(w, DoOpenPlain)
            == if "__guardian_encrypted__" in w.file.meta then w else w.(session := Open(None))
  {
  }

  /** Exactly when it opens for sealed secrets; it is then marked, and nothing else is changed. */
  lemma EncryptedSessionIff(w: World, master: MasterKey)
    requires w.session.Closed?
    ensures var marker := "__guardian_encrypted__";
            var opens := if marker in w.file.meta then w.file.meta[marker] == Format("xchacha20poly1305-v1")
                         else w.file.secrets == map[];
            var w' := Next(w, DoOpenEncrypted(master));
            && (!opens ==> w' == w)
            && (opens ==> && w'.session == Open(Some(master)) && w'.file.secrets == w.file.secrets
                          && w'.file.meta == w.file.meta[marker := Format("xchacha20poly1305-v1")]
                          && w'.ledger == w.ledger)
  {
  }

  // ------------------------------------------------------- one operation after another

  function Got(w: World, id: KeyId): Result<Option<Blob>, string>
    requires w.session.Open?
  {
    GetSecret(w.file, w.session.cipher, id)
  }

  /** In any open session: what was put is got, what was deleted is gone, and other secrets are as they were. */
  lemma NextGet(w: World, id: KeyId, other: KeyId, value: Bytes, nonce: Bytes, now: u64)
    requires w.session.Open? && other != id
    ensures var put := Next(w, DoPut(id, value, nonce));
            && put.session == w.session && put.file.meta == w.file.meta
            && Got(put, id) == Ok(Some(Raw(value))) && Got(put, other) == Got(w, other)
    ensures var gone := Next(w, DoDelete(id));
            && gone.session == w.session && gone.file.meta == w.file.meta
            && Got(gone, id) == Ok(None) && Got(gone, other) == Got(w, other)
    ensures var made := Next(w, DoGenerate(id, value, nonce, now));
            && made.session == w.session && id in made.file.meta && made.file.meta - {id} == w.file.meta - {id}
            && Got(made, id) == Ok(Some(Raw(value))) && Got(made, other) == Got(w, other)
  {
  }

  /** A secret put into a fresh encrypted file is there in the next session under the same master key only. */
  lemma SecretOutlivesSession(id: KeyId, value: Bytes, nonce: Bytes, master: MasterKey, later: MasterKey)
    ensures var empty := World(File(map[], map[]), Closed, map[]);
            var w1 := Next(empty, DoOpenEncrypted(master));
            var w2 := Next(w1, DoPut(id, value, nonce));
            var w4 := Next(Next(w2, DoClose), DoOpenEncrypted(later));
            && w1.session == Open(Some(master)) && w4.session == Open(Some(later))
            && (later == master ==> Got(w4, id) == Ok(Some(Raw(value))))
            && (later != master ==> Got(w4, id).Err?)
            && Next(Next(w2, DoClose), DoOpenPlain).session.Closed?
  {
  }

  // ------------------------------------------------------------- lifecycle records

  /** The times at which the steps generated a key under `id`. */
  function Generations(w: World, steps: seq<Step>, id: KeyId): seq<u64> {
    if steps == [] then []
    else
      var init, last := steps[..|steps| - 1], steps[|steps| - 1];
      Generations(w, init, id)
      + if Run(w, init).session.Open? && last.DoGenerate? && last.id == id then [last.now] else []
  }

  /** A 32-bit count that stops at its maximum. */
  function Capped(n: nat): u32 {
    if n <= 0xFFFF_FFFF then n else 0xFFFF_FFFF
  }

  /**
   * Over every sequence of sessions, a key's record tells when it was first
   * and last generated, and how often it was generated again.
   */
  lemma {:induction false} MetaTellsGenerations(w: World, steps: seq<Step>, id: KeyId)
    requires id != "__guardian_encrypted__" && id !in w.file.meta
    ensures var times, meta := Generations(w, steps, id), Run(w, steps).file.meta;
            && (times == [] ==> id !in meta)
            && (times != [] ==>
                  && id in meta
                  && meta[id] == Lifecycle(KeyMeta(times[0], times[|times| - 1], "ed25519", Capped(|times| - 1))))
  {
    if steps != [] {
      var init, last := steps[..|steps| - 1], steps[|steps| - 1];
      MetaTellsGenerations(w, init, id);
      var before := Run(w, init);
      assert MARKER_KEY == "__guardian_encrypted__";
      if before.session.Open? && last.DoGenerate? && last.id == id {
        NextRecord(Generations(w, init, id), Lookup(before.file.meta, id), last.now);
      }
    }
  }

  lemma NextRecord(times: seq<u64>, prior: Option<MetaCell>, now: u64)
    requires times == [] ==> prior == None
    requires times != [] ==>
               prior == Some(Lifecycle(KeyMeta(times[0], times[|times| - 1], "ed25519", Capped(|times| - 1))))
    ensures NextMeta(prior, now) == KeyMeta((times + [now])[0], now, "ed25519", Capped(|times|))
  {
  }

  // --------------------------------------------------------------------- binding

  /** A sealed value opens under its own identifier and master key only, wherever in the file it is put. */
  lemma SealIsBound(f: File, master: MasterKey, other: MasterKey, id: KeyId, place: KeyId, value: Bytes, nonce: Bytes)
    ensures var sealed := PutSecret(f, Some(master), id, value, nonce).secrets[id];
            var moved := f.(secrets := f.secrets[place := sealed]);
            && (place == id && other == master ==> GetSecret(moved, Some(other), place) == Ok(Some(Raw(value))))
            && (place != id || other != master ==> GetSecret(moved, Some(other), place).Err?)
  {
  }

  /** Bytes that were never sealed do not open in an encrypted session. */
  lemma VerbatimIsRefused(f: File, master: MasterKey, id: KeyId, value: Bytes, nonce: Bytes)
    ensures GetSecret(PutSecret(f, None, id, value, nonce), Some(master), id).Err?
  {
  }
}
