/**
 * The key store: one file, opened in turn by sessions that keep secrets
 * verbatim or sealed under a master key. Nothing in a stored value says which
 * it is; only the marker in the metadata table does. Sealing is ideal: a
 * sealed value opens under the key and identifier it was sealed for and under
 * no other, and bytes that were never sealed do not open.
 */
module Keystore {
  import opened Common

  type KeyId = string
  type MasterKey = Bytes

  const MARKER_KEY: KeyId := "__guardian_encrypted__"
  const MARKER_VALUE: string := "xchacha20poly1305-v1"

  datatype Blob = Raw(bytes: Bytes) | Sealed(master: MasterKey, aad: KeyId, nonce: Bytes, secret: Bytes)

  datatype KeyMeta = KeyMeta(created: u64, updated: u64, kind: string, rotated: u32)

  /** A metadata value: the format marker, or a key's lifecycle record. */
  datatype MetaCell = Format(version: string) | Lifecycle(meta: KeyMeta)

  datatype File = File(secrets: map<KeyId, Blob>, meta: map<KeyId, MetaCell>)

  /** The cipher of a session; none means verbatim. */
  type Cipher = Option<MasterKey>

  function SealValue(cipher: Cipher, id: KeyId, secret: Bytes, nonce: Bytes): Blob {
    if cipher.Some? then Sealed(cipher.value, id, nonce, secret) else Raw(secret)
  }

  /** What a session hands back for a stored value; without a cipher, whatever is there. */
  function OpenValue(cipher: Cipher, id: KeyId, stored: Blob): Result<Blob, string> {
    if cipher.None? then Ok(stored)
    else if stored.Sealed? && stored.master == cipher.value && stored.aad == id then Ok(Raw(stored.secret))
    else Err("authentication failed")
  }

  function OpenPlain(f: File): Result<File, string> {
    if MARKER_KEY in f.meta then Err("encrypted at rest") else Ok(f)
  }

  function OpenEncrypted(f: File): Result<File, string> {
    match Lookup(f.meta, MARKER_KEY)
    case Some(cell) => if cell == Format(MARKER_VALUE) then Ok(f) else Err("unsupported format")
    case None =>
      if f.secrets != map[] then Err("holds unencrypted secrets")
      else Ok(f.(meta := f.meta[MARKER_KEY := Format(MARKER_VALUE)]))
  }

  function PutSecret(f: File, cipher: Cipher, id: KeyId, value: Bytes, nonce: Bytes): File {
    f.(secrets := f.secrets[id := SealValue(cipher, id, value, nonce)])
  }

  function DeleteSecret(f: File, id: KeyId): File {
    f.(secrets := f.secrets - {id})
  }

  function GetSecret(f: File, cipher: Cipher, id: KeyId): Result<Option<Blob>, string> {
    if id !in f.secrets then Ok(None)
    else match OpenValue(cipher, id, f.secrets[id])
      case Ok(b) => Ok(Some(b))
      case Err(e) => Err(e)
  }

  /** The lifecycle record after (re)generating a key; a value that is not one counts as absent. */
  function NextMeta(prior: Option<MetaCell>, now: u64): KeyMeta {
    if prior.Some? && prior.value.Lifecycle? then
      var m := prior.value.meta;
      m.(rotated := if m.rotated + 1 < U32_LIMIT then m.rotated + 1 else m.rotated, updated := now)
    else KeyMeta(now, now, "ed25519", 0)
  }

  function GenerateSecret(f: File, cipher: Cipher, id: KeyId, secret: Bytes, nonce: Bytes, now: u64): File {
    PutSecret(f, cipher, id, secret, nonce)
      .(meta := f.meta[id := Lifecycle(NextMeta(Lookup(f.meta, id), now))])
  }

  // --------------------------------------------------------------- many sessions

  datatype Session = Closed | Open(cipher: Cipher)

  /** A value as a caller stored it, and the cipher of the session it was stored in. */
  datatype Entry = Entry(value: Bytes, cipher: Cipher)

  /** `ledger` is what a plain dictionary of all successful writes would hold. */
  datatype World = World(file: File, session: Session, ledger: map<KeyId, Entry>)

  datatype Step =
    | DoOpenPlain
    | DoOpenEncrypted(master: MasterKey)
    | DoClose
    | DoPut(id: KeyId, value: Bytes, nonce: Bytes)
    | DoDelete(id: KeyId)
    | DoGenerate(id: KeyId, secret: Bytes, nonce: Bytes, now: u64)

  /** One session at a time: opening an open file fails, as does using a closed one. */
  function Next(w: World, step: Step): World {
    match w.session
    case Closed =>
      (match step
       case DoOpenPlain => if OpenPlain(w.file).Ok? then w.(session := Open(None)) else w
       case DoOpenEncrypted(master) =>
         if OpenEncrypted(w.file).Ok?
         then w.(file := OpenEncrypted(w.file).value, session := Open(Some(master)))
         else w
       case _ => w)
    case Open(cipher) =>
      (match step
       case DoClose => w.(session := Closed)
       case DoPut(id, value, nonce) =>
         w.(file := PutSecret(w.file, cipher, id, value, nonce), ledger := w.ledger[id := Entry(value, cipher)])
       case DoDelete(id) => w.(file := DeleteSecret(w.file, id), ledger := w.ledger - {id})
       case DoGenerate(id, secret, nonce, now) =>
         w.(file := GenerateSecret(w.file, cipher, id, secret, nonce, now),
            ledger := w.ledger[id := Entry(secret, cipher)])
       case _ => w)
  }

  function Run(w: World, steps: seq<Step>): World {
    if steps == [] then w else Next(Run(w, steps[..|steps| - 1]), steps[|steps| - 1])
  }

  ghost predicate Holds(stored: Blob, id: KeyId, e: Entry) {
    match e.cipher
    case None => stored == Raw(e.value)
    case Some(master) => stored.Sealed? && stored.master == master && stored.aad == id && stored.secret == e.value
  }

  /** Every value is kept in the way of the given mode. */
  ghost predicate AllIn(w: World, encrypted: bool) {
    forall id :: id in w.ledger ==> (w.ledger[id].cipher.Some? <==> encrypted)
  }

  ghost predicate Inv(w: World) {
    && w.file.secrets.Keys == w.ledger.Keys
    && (forall id :: id in w.ledger ==> Holds(w.file.secrets[id], id, w.ledger[id]))
    && (MARKER_KEY !in w.file.meta ==> AllIn(w, false))
    && (Lookup(w.file.meta, MARKER_KEY) == Some(Format(MARKER_VALUE)) ==> AllIn(w, true))
    && (w.session.Open? ==> AllIn(w, w.session.cipher.Some?))
    && (w.session.Open? && MARKER_KEY !in w.file.meta ==> w.session.cipher.None?)
    && (w.session.Open? && Lookup(w.file.meta, MARKER_KEY) == Some(Format(MARKER_VALUE)) ==> w.session.cipher.Some?)
    && (MARKER_KEY in w.file.meta && w.file.meta[MARKER_KEY].Format? ==>
          w.file.meta[MARKER_KEY].version == MARKER_VALUE)
  }

  /** A file no session has touched, or one left by a version without encryption. */
  ghost predicate Legacy(w: World) {
    && w.session.Closed? && MARKER_KEY !in w.file.meta
    && w.file.secrets.Keys == w.ledger.Keys
    && forall id :: id in w.ledger ==> w.ledger[id].cipher.None? && w.file.secrets[id] == Raw(w.ledger[id].value)
  }

  lemma StepKeeps(w: World, step: Step)
    requires Inv(w)
    ensures Inv(Next(w, step))
  {
  }

  lemma {:induction false} RunKeeps(w: World, steps: seq<Step>)
    requires Inv(w)
    ensures Inv(Run(w, steps))
  {
    if steps != [] {
      RunKeeps(w, steps[..|steps| - 1]);
      StepKeeps(Run(w, steps[..|steps| - 1]), steps[|steps| - 1]);
    }
  }

  /** An unmarked file holds only verbatim secrets, one marked as encrypted only sealed ones. */
  lemma MarkerTellsTheMode(w: World, steps: seq<Step>, id: KeyId)
    requires Legacy(w) && id in Run(w, steps).file.secrets
    ensures var f := Run(w, steps).file;
            && (MARKER_KEY !in f.meta ==> f.secrets[id].Raw?)
            && (Lookup(f.meta, MARKER_KEY) == Some(Format(MARKER_VALUE)) ==> f.secrets[id].Sealed?)
  {
    RunKeeps(w, steps);
  }

  /**
   * In every session that opened, `get` gives the last value stored under the
   * identifier, nothing if there is none, or an error when it was sealed under
   * another master key; never ciphertext, never another identifier's secret.
   */
  lemma GetIsLastValue(w: World, steps: seq<Step>, id: KeyId)
    requires Legacy(w) && Run(w, steps).session.Open?
    ensures var v := Run(w, steps);
            && (id !in v.ledger ==> GetSecret(v.file, v.session.cipher, id) == Ok(None))
            && (id in v.ledger && v.ledger[id].cipher == v.session.cipher ==>
                  GetSecret(v.file, v.session.cipher, id) == Ok(Some(Raw(v.ledger[id].value))))
            && (id in v.ledger && v.ledger[id].cipher != v.session.cipher ==>
                  GetSecret(v.file, v.session.cipher, id).Err? && v.session.cipher.Some? && v.ledger[id].cipher.Some?)
  {
    RunKeeps(w, steps);
    var v := Run(w, steps);
    if id in v.ledger {
      assert Holds(v.file.secrets[id], id, v.ledger[id]);
    }
  }

  // ---------------------------------------------------------------- reopening

  /** A key was generated under the marker's own name, which overwrites the marker. */
  predicate Poisons(w: World, step: Step) {
    w.session.Open? && step.DoGenerate? && step.id == MARKER_KEY
  }

  predicate EverPoisoned(w: World, steps: seq<Step>) {
    steps != [] &&
    (EverPoisoned(w, steps[..|steps| - 1]) || Poisons(Run(w, steps[..|steps| - 1]), steps[|steps| - 1]))
  }

  lemma {:induction false} PoisonShows(w: World, steps: seq<Step>)
    requires Legacy(w)
    ensures var f := Run(w, steps).file;
            EverPoisoned(w, steps) <==> MARKER_KEY in f.meta && f.meta[MARKER_KEY].Lifecycle?
  {
    if steps != [] {
      PoisonShows(w, steps[..|steps| - 1]);
    }
  }

  /** A closed file can be opened again, in one mode or the other, exactly when that never happened. */
  lemma ReopensIff(w: World, steps: seq<Step>)
    requires Legacy(w) && Run(w, steps).session.Closed?
    ensures OpenPlain(Run(w, steps).file).Ok? || OpenEncrypted(Run(w, steps).file).Ok? <==> !EverPoisoned(w, steps)
  {
    RunKeeps(w, steps);
    PoisonShows(w, steps);
  }

  /** The shortest way to a file that opens in neither mode. */
  lemma MarkerNameLocksOut(secret: Bytes, nonce: Bytes, now: u64)
    ensures var w := World(File(map[], map[]), Closed, map[]);
            var steps := [DoOpenPlain, DoGenerate(MARKER_KEY, secret, nonce, now), DoClose];
            var f := Run(w, steps).file;
            Legacy(w) && Run(w, steps).session.Closed? && OpenPlain(f).Err? && OpenEncrypted(f).Err?
  {
    var w := World(File(map[], map[]), Closed, map[]);
    var steps := [DoOpenPlain, DoGenerate(MARKER_KEY, secret, nonce, now), DoClose];
    assert steps[..2][..1][..0] == [] && steps[..2][..1] == [DoOpenPlain];
    assert Run(w, steps[..2][..1]) == Next(w, DoOpenPlain);
    assert Run(w, steps[..2]) == Next(Next(w, DoOpenPlain), steps[1]);
    assert Run(w, steps) == Next(Run(w, steps[..2]), DoClose);
  }

  // -------------------------------------------------------------------- the code

  class KeystoreFile {
    var secrets: map<KeyId, Blob>
    var meta: map<KeyId, MetaCell>

    constructor ()
      ensures Contents() == File(map[], map[])
    {
      secrets, meta := map[], map[];
    }

    function Contents(): File
      reads this
    {
      File(secrets, meta)
    }
  }

  class RedbKeystore {
    const db: KeystoreFile
    const cipher: Cipher

    constructor (db: KeystoreFile, cipher: Cipher)
      ensures this.db == db && this.cipher == cipher
    {
      this.db, this.cipher := db, cipher;
    }

    method Put(id: KeyId, value: Bytes, nonce: Bytes)
      modifies db
      ensures db.Contents() == PutSecret(old(db.Contents()), cipher, id, value, nonce)
    {
      var stored := SealValue(cipher, id, value, nonce);
      db.secrets := db.secrets[id := stored];
    }

    method Get(id: KeyId) returns (r: Result<Option<Blob>, string>)
      ensures r == GetSecret(db.Contents(), cipher, id)
    {
      if id !in db.secrets {
        return Ok(None);
      }
      var value := OpenValue(cipher, id, db.secrets[id]);
      if value.Err? {
        return Err(value.error);
      }
      return Ok(Some(value.value));
    }

    method Delete(id: KeyId)
      modifies db
      ensures db.Contents() == DeleteSecret(old(db.Contents()), id)
    {
      db.secrets := db.secrets - {id};
    }

    method GenerateKey(id: KeyId, secret: Bytes, nonce: Bytes, now: u64)
      modifies db
      ensures db.Contents() == GenerateSecret(old(db.Contents()), cipher, id, secret, nonce, now)
    {
      db.secrets := db.secrets[id := SealValue(cipher, id, secret, nonce)];
      var meta := KeyMeta(now, now, "ed25519", 0);
      if id in db.meta && db.meta[id].Lifecycle? {
        meta := db.meta[id].meta;
        if meta.rotated < U32_LIMIT - 1 {
          meta := meta.(rotated := meta.rotated + 1);
        }
        meta := meta.(updated := now);
      }
      db.meta := db.meta[id := Lifecycle(meta)];
    }
  }

  method New(db: KeystoreFile) returns (r: Result<RedbKeystore, string>)
    ensures r.Ok? <==> OpenPlain(db.Contents()).Ok?
    ensures r.Ok? <==> "__guardian_encrypted__" !in db.meta
    ensures r.Ok? ==> r.value.db == db && r.value.cipher == None
  {
    if MARKER_KEY in db.meta {
      return Err("This keystore is encrypted at rest");
    }
    var store := new RedbKeystore(db, None);
    return Ok(store);
  }

  method NewEncrypted(db: KeystoreFile, master: MasterKey) returns (r: Result<RedbKeystore, string>)
    modifies db
    ensures r.Ok? <==> OpenEncrypted(old(db.Contents())).Ok?
    ensures r.Ok? <==> if "__guardian_encrypted__" in old(db.meta)
                       then old(db.meta)["__guardian_encrypted__"] == Format("xchacha20poly1305-v1")
                       else old(db.secrets) == map[]
    ensures r.Ok? ==> r.value.db == db && r.value.cipher == Some(master)
                      && db.Contents() == OpenEncrypted(old(db.Contents())).value
    ensures r.Err? ==> db.Contents() == old(db.Contents())
  {
    if MARKER_KEY in db.meta {
      if db.meta[MARKER_KEY] != Format(MARKER_VALUE) {
        return Err("unsupported at-rest encryption format");
      }
    } else {
      if db.secrets != map[] {
        return Err("This keystore holds unencrypted secrets");
      }
      db.meta := db.meta[MARKER_KEY := Format(MARKER_VALUE)];
    }
    var store := new RedbKeystore(db, Some(master));
    return Ok(store);
  }
}
