# GuardianDB: a verified model of its core protocols

This project models the parts of GuardianDB whose correctness is hard to see from
reading one function, and proves what they do for every input and every run.

| part | files |
|---|---|
| Task ledger: claims and dispatches racing over a compare-and-swap store | `TaskRecords`, `LedgerSteps`, `LedgerHistory`, `LedgerRuns`, `LedgerDue`, `TaskLedger` |
| `sync`: the walk from announced heads through missing log entries | `SyncWalk`, `SyncOrder`, `SyncRepeats`, `SyncWhole`, `SyncAgain` |
| Key-value adapter over the op log, down to the bytes it stores | `Utf8`, `Utf8Scalars`, `Operations`, `OpLogView`, `OpLogStore`, `OpLogTexts` |
| Access control kept in a key-value store, that store being the op log, and in memory | `GuardianAcl`, `AclLists`, `AclOverLog`, `SimpleAcl`, `SimpleAclRuns` |
| Key store: plaintext and encrypted sessions on one file | `Keystore`, `KeystoreLife` |
| Datastore keys, the ordered cache table and its queries | `Keys`, `KeyPaths`, `Cache`, `Paging`, `CacheQuery`, `CachePages` |
| One-on-one channels: connect, monitors, close | `Channels`, `ChannelFlow` |
| Identifier conventions of the derive macro; database addresses | `Words`, `Renaming`, `RenamingRules`, `Addresses`, `AddressForms` |

`Common` and `Lists` hold what several parts share. `dafny verify dfyconfig.toml` checks everything.

## How the code is modelled

- **Concurrency.** The ledger and the channels are step systems: each store call, clock
  reading, lock section or poll is one step, any number of calls are in flight, and the
  theorems are about every sequence of enabled steps. The ledger's retry loop is also
  given as a loop, with the writes of others landing between its store calls. Clock
  readings are arbitrary, except where a hypothesis relates them to deadlines.
- **Mutable objects** (`MemoryLedger`, `KeyValueAdapter`, `OpLog`, both access
  controllers, `KeystoreFile`/`RedbKeystore`, `WrappedCache`) are classes whose methods
  are proved equal to functions on values; the theorems are about those functions.
- **Serialization.** The ledger uses of postcard only that decoding undoes encoding. For
  log operations the encoding is written out (length-prefixed fields, base-128 lengths),
  because the adapter passes the bytes through `String::from_utf8_lossy`.
- **Encryption** is ideal: a sealed value opens only under the key and identifier it was
  sealed for.
- **Integers.** The attempt counter wraps at 2^32, as Rust does where overflow checks are
  off; counts of attempts are stated modulo 2^32. Rotation counts saturate, as in the code.
- **Text.** Strings are sequences of code points (bytes where the code looks at bytes).
  Order and prefixes of UTF-8 bytes agree with those of code points. In `Addresses`, the
  code compares a byte length with 64 where the model counts characters; both accept only
  64 hexadecimal digits.

## Where the code falls short of what it promises

Where a lemma name ends in `Iff`, the exact condition is proved for all inputs; most other
names are failing cases.

- A put through the op-log adapter takes effect exactly if the length prefixes of key and
  value and the value itself are well-formed UTF-8 (`PutVisibleIff`, `DeleteVisibleIff`).
  A value of 128 ASCII bytes is lost (`LongValueIsLost`).
- An access controller on that adapter keeps a grant exactly if the list it writes survives
  in this sense (`GrantKeptIff`, `RevokeKeptIff`). A grant to a second identity of 64 bytes
  is lost (`SecondKeyIsLost`), although it reports success.
- `sync` guards each append by the hash of the entry, but appending stores a new wrapper
  entry with another hash. An entry is appended once for each visit of the walk, and again
  on the next sync (`SyncRepeatsNothingIff`, `WholeSyncRepeatsNothingIff`, `DiamondRepeats`,
  `SyncTwice`).
- Revoking `admin` from a key that holds `write` leaves it an admin, and revoking `write`
  can leave `admin` behind (`RevokeAdminWorksIff`, `RevokeWriteWorksIff`).
- A query limit of zero returns one item if any is left (`LimitKeptIff`); a descending query reverses the
  page cut from the ascending list (`DescendingQueryIff`, `DescendingPageDiffers`); a prefix
  query also returns subtrees of siblings with longer names (`PrefixIsSubtreeIff`,
  `PrefixLeaks`).
- `Key::child` accepts names with a slash, which do not survive printing
  (`ChildRoundTripsIff`).
- Generating a key under the marker's name makes a key store file unopenable in both modes
  (`ReopensIff`, `MarkerNameLocksOut`).
- A lowercase snake-case name comes back from camel or Pascal case exactly if every word
  after the first starts with a letter and, after a one-letter word that was capitalized,
  the next word's second character is a letter too (`CamelRoundTripIff`,
  `PascalRoundTripIff`).
- `close` can leave monitors without a subscription (`CloseBreaksExactness`). Subscriptions
  and monitors agree all through a run exactly if no close clears the subscriptions while
  a monitor is still to clean up (`ExactThroughoutIff`).
- A compare-and-swap compares bytes, so it can succeed although the key was written in
  between (`SameBytesHideWrite`). It succeeds exactly if nothing wrote the key since the
  read or the last write left the bytes that were read (`SwapSucceedsIff`); where puts keep
  the counter and fewer than 2^32 dispatches were won since, that write can only be a put
  of those bytes (`SwapSeesNoInterference`). Runs are linearizable in any case
  (`Linearizable`).
- Batch grants and revocations differ from single ones on empty lists and empty names
  (`GrantBatchIff`, `RevokeBatchIff`).

## Model

| member | source | states |
|---|---|---|
| `LedgerRuns.Linearizable` | src/compute/ledger.rs:222-289 | every interleaving of claims, dispatches, updates and puts equals the atomic operations performed in the order of the history, and each finished call returned the outcome of its own operation, its only one; an update is two operations, a get and a put |
| `LedgerRuns.RealTimeOrder` | src/compute/ledger.rs:222-289 | that order respects real time: every operation of a call that returned before another began comes before every operation of the other, the get of an update included |
| `LedgerRuns.WinnersAreSeparated` | src/compute/ledger.rs:245-273 | of two successive winners of a task with no put between, the later read its clock after the deadline the earlier installed; with deadlines not before the clock that asked for them, so do any two winners with no put between |
| `LedgerHistory.LaterWinnerIsLate` | src/compute/ledger.rs:245-273 | the second half of that for any legal history, by induction over the winners between |
| `LedgerHistory.SingleWinner` | src/compute/ledger.rs:235-244 | a task without puts has at most one winner as long as no winner's clock is past a winner's deadline |
| `LedgerHistory.WinEffect` | src/compute/ledger.rs:254-267 | a winner replaced a record that was due at its clock reading, and changed only state, counter and time |
| `LedgerRuns.AttemptsEqualWins` | src/compute/ledger.rs:245-289 | the stored attempt counter is its value at any earlier point of the run plus the number of dispatches won since, modulo 2^32, provided every put on the key since then decodes and leaves the counter alone |
| `LedgerRuns.ClaimedAttemptsEqualWins` | src/compute/ledger.rs:222-273 | for a task the run itself claims, the counter is that of the claimed record plus all dispatches won, under the same proviso |
| `LedgerRuns.SerializedUpdateIsNeutral` | src/compute/ledger.rs:277-289 | an update that leaves the counter alone, with no write between its get and its put, is such a put |
| `LedgerRuns.SwapSucceedsIff` | src/compute/ledger.rs:261-269 | in every run, with no proviso: a swap succeeds exactly when nothing wrote the key since the read, or the last write left the bytes that were read |
| `LedgerHistory.BytesRecurIff` | src/compute/ledger.rs:178-191 | the same of any two points of any legal history |
| `LedgerHistory.WinBringsNewBytes` | src/compute/ledger.rs:258-267 | once a dispatch was won since some point, the bytes differ from those held then, where puts keep the counter and fewer than 2^32 dispatches were won since |
| `LedgerRuns.SwapSeesNoInterference` | src/compute/ledger.rs:261-269 | where puts keep the counter and fewer than 2^32 dispatches were won since the read, a swap succeeds exactly when nothing wrote the key since, or the last write was a put of the very bytes that were read |
| `LedgerRuns.SameBytesHideWrite` | src/compute/ledger.rs:261-269 | in every run, a put of the bytes a call has read goes unnoticed by its swap |
| `LedgerHistory.BytesNeverRecur` | src/compute/ledger.rs:178-191 | where puts keep the counter and bring bytes not held since some point, a key written since then no longer holds the bytes it held then |
| `LedgerRuns.ClaimsSpareTerminal` | src/compute/ledger.rs:112-118 | with arbitrary puts interleaved, no step of a claim or dispatch changes a done or failed record, however old its snapshot |
| `LedgerRuns.RetriesAreBounded` | src/compute/ledger.rs:250-272 | lock-freedom: a call still retrying has failed at most as often as others wrote its key, and taken at most 3 steps per such write plus 2 |
| `LedgerRuns.RunKeeps` | src/compute/ledger.rs:222-289 | the invariant behind these theorems holds in every run |
| `LedgerDue.DispatchWinsIff` | src/compute/ledger.rs:112-118 | a dispatch of a stored record wins exactly when it is pending, or running with a deadline before the clock; then one attempt is added and state and time are set, otherwise nothing changes |
| `LedgerDue.DispatchRefuses` | src/compute/ledger.rs:252-255 | an absent task is declined, undecodable bytes are an error, and nothing is written |
| `LedgerDue.ReadHoldsIff` | src/compute/ledger.rs:252-258 | in every run, a read goes on to the swap exactly when the stored record is pending or past its deadline, and returns nothing otherwise |
| `LedgerDue.QuietSwapWins` | src/compute/ledger.rs:259-269 | in every run, a swap with no write since its read wins the record that was read, with one more attempt |
| `LedgerDue.DueTaskIsWon` | src/compute/ledger.rs:245-273 | from any state, a dispatcher left alone wins a task that is due |
| `LedgerDue.UpdateStores` | src/compute/ledger.rs:284-287 | the put of an update stores the mutated record stamped with the clock, and nothing else |
| `TaskLedger.TryOnce` | src/compute/ledger.rs:250-272 | one turn of the loop settles the call at its read or its swap, or was overtaken by a write of the key |
| `TaskLedger.ClaimForDispatch` | src/compute/ledger.rs:245-273 | the retry loop ends, after no more retries than others wrote the key, does what one atomic dispatch does at its last store call, and returns a record exactly when one pending or past its deadline is stored there |
| `TaskLedger.Claim` | src/compute/ledger.rs:222-225 | a claim is the atomic create-if-absent |
| `TaskLedger.Update` | src/compute/ledger.rs:277-289 | what read-modify-write leaves: writes to the key in between are lost, the others stay |
| `TaskLedger.MemoryLedger.Get` | src/compute/ledger.rs:160-162 | returns the stored bytes |
| `TaskLedger.MemoryLedger.Put` | src/compute/ledger.rs:164-167 | overwrites one key and no other |
| `TaskLedger.MemoryLedger.CreateIfAbsent` | src/compute/ledger.rs:169-176 | writes exactly when the key is absent and says so |
| `TaskLedger.MemoryLedger.CompareAndSwap` | src/compute/ledger.rs:178-191 | writes exactly when the stored bytes are the expected ones and says so |
| `SyncWalk.Walk` | src/access_control/mod.rs:580-602 | on an acyclic graph the walk ends and visits exactly the depth-first sequence, parents by last link first |
| `SyncWalk.DrainTurn` | src/access_control/mod.rs:583-601 | one turn of the loop is one visit, the rest of the sequence being that of the new stack |
| `SyncOrder.VisitsAreReachable` | src/access_control/mod.rs:580-602 | an entry is collected exactly when it is the head or reachable from it through missing fetchable entries |
| `SyncOrder.ParentsComeFirst` | src/access_control/mod.rs:604-614 | topological order: in the sequence offered for appending, the first occurrence of a missing parent comes before that of any child |
| `SyncOrder.SyncedIsWanted` | src/access_control/mod.rs:580-614 | in terms of the blob store and the log alone: an entry is appended exactly when a chain of linked, fetchable entries that are not in the log leads to it from a head that is not in the log |
| `SyncOrder.LastLinkFirst` | src/access_control/mod.rs:583-601 | the order of the walk, link by link: what hangs off the last link comes first |
| `SyncRepeats.VisitsAreConserved` | src/access_control/mod.rs:580-602 | conservation: an entry is visited once if it is the head, plus once for each link out of a visit |
| `SyncRepeats.SyncRepeatsNothingIff` | src/access_control/mod.rs:604-614 | no entry is offered twice exactly when no reachable missing entry is the target of two links |
| `SyncWhole.WholeSyncRepeatsNothingIff` | src/access_control/mod.rs:570-614 | a sync of many heads appends no entry twice exactly when that holds of each unknown head and no two of them lead to the same missing entry |
| `SyncRepeats.DiamondRepeats` | src/access_control/mod.rs:604-614 | a merge of two branches has its common parent offered twice |
| `SyncOrder.SyncHead` | src/access_control/mod.rs:570-614 | one head: nothing if known, else its whole visit sequence reversed is appended |
| `SyncOrder.Sync` | src/access_control/mod.rs:561-618 | the log grows by the reversed visit sequences of the unknown heads, in order; its entries are those it had and those such a chain leads to; it knows the same exchanged entries as before |
| `SyncRepeats.SyncAddsNothingIff` | src/access_control/mod.rs:570-577 | a sync appends nothing exactly when every head was known |
| `SyncAgain.SameSynced` | src/access_control/mod.rs:570-614 | what a sync appends depends only on which of the exchanged entries the log knows |
| `SyncAgain.SyncTwice` | src/access_control/mod.rs:561-618 | syncing the same heads a second time appends the same entries a second time |
| `SyncOrder.OpLog.Append` | src/log/mod.rs:246-312 | appending records the wrapper's hash, not the entry's |
| `OpLogView.ScanIsFold` | src/access_control/mod.rs:836-917 | for every log, including undecodable, keyless and unknown payloads, the backward scan of a key equals its lookup in the forward fold |
| `OpLogView.ScanLog` | src/access_control/mod.rs:836-859 | the lookup loop computes the backward scan |
| `OpLogView.FoldLog` | src/access_control/mod.rs:889-917 | the listing loop computes the forward fold |
| `OpLogStore.PutVisibleIff` | src/access_control/mod.rs:807-834 | a put of a value the key does not already have is read back exactly when both length prefixes and the value are well-formed UTF-8 |
| `OpLogStore.DeleteVisibleIff` | src/access_control/mod.rs:861-887 | deleting a stored key takes effect exactly when the key's length prefix is well-formed UTF-8 |
| `OpLogStore.LongValueIsLost` | src/access_control/mod.rs:823-831 | a value of 128 ASCII bytes is not read back from a log that holds only its put |
| `OpLogStore.HistoryIsPlainMap` | src/access_control/mod.rs:807-917 | after any history of such puts and deletes on any log, both readings equal a plain map |
| `OpLogStore.KeyValueAdapter.Put` | src/access_control/mod.rs:807-834 | appends one payload: the operation's bytes made lossy text |
| `OpLogStore.KeyValueAdapter.Delete` | src/access_control/mod.rs:861-887 | appends one payload for the deletion |
| `OpLogStore.KeyValueAdapter.Get` | src/access_control/mod.rs:836-859 | reads by backward scan |
| `OpLogStore.KeyValueAdapter.All` | src/access_control/mod.rs:889-917 | lists by forward fold |
| `Operations.DecodeEncode` | src/stores/operation/mod.rs:36-52 | every operation, with its documents, is read back from its bytes |
| `Operations.LossyVarintDiffers` | src/access_control/mod.rs:823-826 | an ill-formed length prefix, once made lossy, reads as another length or as none |
| `Utf8.LossyKeepsOnlyValid` | src/access_control/mod.rs:823-826 | the lossy conversion leaves bytes unchanged exactly when they are well-formed |
| `Utf8Scalars.ValidIffText` | src/access_control/mod.rs:823-826 | well-formed bytes are exactly the encodings of sequences of Unicode scalar values, one to four bytes each, given by arithmetic |
| `Utf8Scalars.LossyKeepsText` | src/access_control/mod.rs:823-826 | the lossy conversion is the identity on every encoded text |
| `Utf8Scalars.FaultIsMaximal` | src/access_control/mod.rs:823-826 | one replacement character stands for the longest part that begins a character without completing it, or for one byte |
| `OpLogTexts.ShortTextIsKept` | src/access_control/mod.rs:807-859 | any key and value of fewer than 128 bytes of text are read back after a put |
| `OpLogTexts.NewestDecides` | src/access_control/mod.rs:842-856 | what one more payload does to the reading of a key, for everything it can decode to |
| `OpLogTexts.PutBytes` | src/stores/operation/mod.rs:36-52 | the bytes of a put of a short key and value, written out |
| `OpLogTexts.DeleteBytes` | src/stores/operation/mod.rs:36-52 | the bytes of a deletion of a short key, written out |
| `OpLogTexts.VarintDigit` | src/guardian/serializer.rs:33-44 | lengths are stored in base 128, low digit first, 128 added to every digit but the last |
| `GuardianAcl.OtherRolesArePlain` | src/access_control/acl_guardian.rs:212-292 | after every run each role but admin holds exactly the keys granted and not revoked since |
| `GuardianAcl.AdminsAreExactly` | src/access_control/acl_guardian.rs:133-172 | after every run a key is an admin exactly when it holds write, or was absorbed by an admin operation since its last admin revocation; writers are admins |
| `GuardianAcl.MayAppendIff` | src/access_control/acl_guardian.rs:187-203 | after every run, exactly the keys that hold write or were absorbed may append, and all if the wildcard is one of them |
| `GuardianAcl.CanAppendAfter` | src/access_control/acl_guardian.rs:181-206 | the controller accepts exactly those, if they verify |
| `GuardianAcl.StoredAdmins` | src/access_control/acl_guardian.rs:212-292 | the stored admin list is exactly the absorbed keys |
| `GuardianAcl.RevokeAdminWorksIff` | src/access_control/acl_guardian.rs:254-292 | revoking admin removes the admin exactly when the key does not hold write |
| `GuardianAcl.RevokeWriteWorksIff` | src/access_control/acl_guardian.rs:181-206 | revoking write ends the right to append exactly when neither the key nor the wildcard was absorbed, and the wildcard does not still hold write |
| `GuardianAcl.WriterOutlivesRevocation` | src/access_control/acl_guardian.rs:212-292 | for any two keys, a run of three operations after which the revoked writer keeps append rights |
| `GuardianAcl.Controller.GetAuthorizations` | src/access_control/acl_guardian.rs:133-172 | the derived view of every role, an error if any entry does not decode, nothing without a store |
| `GuardianAcl.Controller.GetAuthorizedByRole` | src/access_control/acl_guardian.rs:123-128 | the keys authorized for one role, under the same error conditions |
| `GuardianAcl.Controller.Grant` | src/access_control/acl_guardian.rs:212-247 | stores the derived keys and the new one, or fails and changes nothing |
| `GuardianAcl.Controller.Revoke` | src/access_control/acl_guardian.rs:254-292 | stores the derived keys without the one, deleting an empty entry, or fails and changes nothing |
| `GuardianAcl.Controller.CanAppend` | src/access_control/acl_guardian.rs:181-206 | accepts exactly a verified identity that, or whose wildcard, is a writer or an admin |
| `GuardianAcl.Perform` | src/access_control/acl_guardian.rs:212-292 | running grants and revocations on a fresh controller stores what the run specification says |
| `AclLists.ListReadBack` | src/access_control/acl_guardian.rs:233-234 | a stored list of identities is read back |
| `AclLists.IdsBytes` | src/access_control/acl_guardian.rs:231-233 | the bytes of a list with one more short identity |
| `AclLists.ListCameThrough` | src/access_control/mod.rs:823-826 | a list that can still be read from the lossy form of its bytes was well-formed text |
| `AclLists.ListKeptIff` | src/access_control/mod.rs:807-859 | a new list stored through the adapter is read back exactly when its bytes survive the text conversion |
| `AclOverLog.Grant` | src/access_control/acl_guardian.rs:212-247 | over the adapter: writes the derived identities and the new one, once each, or fails and writes nothing |
| `AclOverLog.Revoke` | src/access_control/acl_guardian.rs:254-292 | over the adapter: writes the identities left, or deletes the role, or fails and writes nothing |
| `AclOverLog.GrantKeptIff` | src/access_control/acl_guardian.rs:212-247 | a grant to a new identity reads back exactly when its list survives, and then is the grant of the specification |
| `AclOverLog.RevokeKeptIff` | src/access_control/acl_guardian.rs:254-292 | a revocation from a stored identity reads back exactly when the list left, or the deletion, survives, and then is the revocation of the specification |
| `AclOverLog.SecondKeyIsLost` | src/access_control/acl_guardian.rs:233-240 | granting a role to a second identity of 64 bytes never reads back |
| `Keystore.GetIsLastValue` | src/keystore.rs:494-510 | over every sequence of sessions, get returns the last value stored, nothing if absent, or an error for a value sealed under another master key; never ciphertext or another identifier's secret |
| `Keystore.MarkerTellsTheMode` | src/keystore.rs:154-248 | over every sequence of sessions from an unmarked file, an unmarked file holds only verbatim secrets and one marked with the known format only sealed ones |
| `Keystore.RunKeeps` | src/keystore.rs:211-248 | the marker discipline is kept by every session and operation |
| `Keystore.ReopensIff` | src/keystore.rs:578-634 | a closed file opens again in some mode exactly when no key was generated under the marker's name |
| `Keystore.MarkerNameLocksOut` | src/keystore.rs:578-634 | open, generate under the marker's name, close: the file opens in neither mode |
| `KeystoreLife.PlainSessionIff` | src/keystore.rs:154-174 | a closed file opens for verbatim secrets exactly without a marker, unchanged |
| `KeystoreLife.EncryptedSessionIff` | src/keystore.rs:211-248 | it opens for sealed secrets exactly with the known marker, or without marker and secrets, and is then marked |
| `KeystoreLife.NextGet` | src/keystore.rs:473-547 | in any open session, what was put or generated is got, what was deleted is gone, and all else is as it was |
| `KeystoreLife.SecretOutlivesSession` | src/keystore.rs:211-248 | a secret of a fresh encrypted file is there in the next session under the same master key and no other |
| `KeystoreLife.MetaTellsGenerations` | src/keystore.rs:578-634 | over all sessions, a key's record holds its first and last generation time and the number of further generations, which saturates |
| `KeystoreLife.SealIsBound` | src/keystore.rs:92-134 | a sealed value opens under its own identifier and master key only, wherever it is put |
| `KeystoreLife.VerbatimIsRefused` | src/keystore.rs:112-134 | bytes that were never sealed do not open in an encrypted session |
| `Keystore.New` | src/keystore.rs:154-174 | a plaintext open succeeds exactly without a marker |
| `Keystore.NewEncrypted` | src/keystore.rs:211-248 | an encrypted open succeeds exactly with the known marker, or without one on a file without secrets, which it then marks |
| `Keystore.RedbKeystore.Put` | src/keystore.rs:473-492 | stores the value, sealed in an encrypted session |
| `Keystore.RedbKeystore.Get` | src/keystore.rs:494-510 | opens the stored value in the session's mode |
| `Keystore.RedbKeystore.Delete` | src/keystore.rs:530-547 | removes one secret, no metadata |
| `Keystore.RedbKeystore.GenerateKey` | src/keystore.rs:578-634 | stores the secret and writes its lifecycle record in the same transaction, counting rotations |
| `Keys.RoundTrip` | src/data_store.rs:51-128 | every normal key is read back from its printed form |
| `Keys.PathsNormalize` | src/data_store.rs:51-60 | parsing is idempotent and the printed form identifies the key |
| `Keys.ChildRoundTripsIff` | src/data_store.rs:69-78 | a child survives printing exactly when its name has no slash |
| `Keys.TextPrefixIff` | src/data_store.rs:122-128 | which printed keys start with another: same leading segments, the last possibly cut short |
| `Keys.MatchesAreSubtreeOrSiblings` | src/data_store.rs:113-119 | a textual prefix matches the key, all its descendants, and otherwise only keys under a sibling with a longer name |
| `KeyPaths.WhiteIff` | src/data_store.rs:51-60 | trimming removes the characters with the Unicode White_Space property |
| `KeyPaths.TrimIs` | src/data_store.rs:51-60 | it cuts off all of them at both ends and nothing else |
| `KeyPaths.NormalIff` | src/data_store.rs:51-60 | segments left alone are not empty, have no slash and no white space at either end |
| `KeyPaths.ParsedAlone` | src/data_store.rs:51-60 | a text without a slash gives its trimmed text, or nothing |
| `KeyPaths.ParsedByPieces` | src/data_store.rs:51-60 | one more piece behind a slash adds its trimmed text, or nothing |
| `KeyPaths.ChildIs` | src/data_store.rs:69-78 | a child lies one segment below its parent and is its descendant; a blank name gives the parent |
| `KeyPaths.ChildIsPath` | src/data_store.rs:69-78 | a child named without a slash is what its parent's printed path and its name parse to |
| `KeyPaths.DescendantIff` | src/data_store.rs:113-119 | descendants are the keys with more segments behind those of their ancestor |
| `Cache.DatastoreIsPlainMap` | src/cache/level_down.rs:219-255 | after any history of puts and deletes by path, looking up a path is looking up its key in a plain map, and the table stays sorted and normal |
| `Cache.InsertRefines` | src/cache/level_down.rs:143-156 | inserting keeps the order, sets one key and no other |
| `Cache.RemoveRefines` | src/cache/level_down.rs:159-171 | removing keeps the order, clears one key and no other |
| `Cache.LessIff` | src/cache/level_down.rs:84-111 | the table is ordered by the first differing code point, a prefix coming first |
| `Cache.WrappedCache.Put` | src/cache/level_down.rs:143-156 | stores under the printed key, keeps the order, and for a normal key keeps the table normal |
| `Cache.WrappedCache.Delete` | src/cache/level_down.rs:159-171 | removes the printed key, keeps the order and normality |
| `Cache.WrappedCache.Get` | src/cache/level_down.rs:31-42 | the value, or an error naming the missing key |
| `Cache.Perform` | src/cache/level_down.rs:219-255 | running datastore commands on a fresh cache gives the specified table |
| `CacheQuery.ScanFindsMatches` | src/cache/level_down.rs:84-93 | on a sorted table, the scan from the prefix to the first mismatch sees exactly the matching rows |
| `Paging.Scan` | src/cache/level_down.rs:79-132 | the loop with its skip and push counters and early exits returns the offset and limit window of the rows before the first mismatch |
| `CacheQuery.RunQuery` | src/cache/level_down.rs:71-139 | every query returns the offset and limit window of the filtered table, reversed for descending order; on tables of normal keys, printed keys rise for ascending and fall for descending queries, and each item is a stored key with its value |
| `CacheQuery.AnswerIsExactly` | src/cache/level_down.rs:71-139 | without offset and limit, exactly the stored keys under the prefix are answered, with their values |
| `CachePages.QueryAfterHistory` | src/cache/level_down.rs:71-171 | after any history of puts and deletes, that is what a plain map of keys holds |
| `CachePages.AnswerIsWindow` | src/cache/level_down.rs:79-136 | which items of everything any query shows, by position, for every offset, limit and order |
| `CachePages.PagesConcatenate` | src/cache/level_down.rs:95-108 | the items of consecutive ascending queries concatenate to those of the query without a limit, with no gap or repeat |
| `Paging.LimitKeptIff` | src/cache/level_down.rs:101-108 | a limit is kept exactly when it is not zero or nothing is left after the offset |
| `Paging.DescendingPageIff` | src/cache/level_down.rs:134-136 | on any list without repeats, a condition on the number of matches, offset and limit alone: the reversed page is the page of the reversed list exactly when nothing is past the offset, everything fits, or the page is centred |
| `CachePages.DescendingQueryIff` | src/cache/level_down.rs:71-139 | the same condition decides when a descending query answers with a page of the descending list |
| `Paging.DescendingPageDiffers` | src/cache/level_down.rs:134-136 | two matches and a limit of one |
| `CacheQuery.PrefixIsSubtreeIff` | src/cache/level_down.rs:84-93 | a prefix query returns exactly a subtree exactly when no stored key runs through a sibling with a longer name |
| `CacheQuery.PrefixLeaks` | src/cache/level_down.rs:84-93 | a table with `/a` and `/ab`, where asking for `/a` returns both |
| `CacheQuery.SubtreeIsFound` | src/cache/level_down.rs:84-109 | neither the prefix key nor any descendant of it fails to match |
| `CacheQuery.RootPrefixTakesAll` | src/cache/level_down.rs:84-132 | the root prefix matches every row, as no prefix does |
| `Channels.SubscriptionsAreMonitors` | src/messaging.rs:36-72 | before close, or when no close cleared while a monitor was running, and outside the critical section of connect, the subscribed peers are exactly those with a monitor not yet cleaned up, one each |
| `Channels.ExactThroughoutIff` | src/messaging.rs:36-125 | every monitor has its subscription, one monitor for each peer, all through a run exactly when every clear finds all monitors gone |
| `Channels.ShapeKeeps` | src/messaging.rs:36-125 | each step keeps this agreement, except a clear that finds monitors running, which ends it |
| `Channels.CloseSilences` | src/messaging.rs:197-241 | after close a monitor emits at most one more event, only if it had passed its token check; one started later emits none |
| `Channels.NoOrphans` | src/messaging.rs:62-71 | in every run, closed or not, no subscription is left once all monitors are gone and no connect holds the lock |
| `ChannelFlow.MessagesAreEmitted` | src/messaging.rs:222-230 | conservation, in every run: each message taken from a stream is emitted once, but for the one in hand |
| `ChannelFlow.LiveMonitorEmits` | src/messaging.rs:212-240 | a live monitor can take a message and emit it, and is then where it was |
| `ChannelFlow.LiveMonitorWaits` | src/messaging.rs:212-240 | without a message it waits |
| `ChannelFlow.EndedStreamUnsubscribes` | src/messaging.rs:62-71 | when its stream ends it removes its peer's subscription |
| `ChannelFlow.MonitorStarts` | src/messaging.rs:203-210 | a monitor whose stream cannot be opened ends |
| `ChannelFlow.ConnectTellsTheTruth` | src/messaging.rs:36-83 | in every run, connect reports a subscription exactly when its peer is subscribed as it returns |
| `ChannelFlow.ConnectSubscribes` | src/messaging.rs:36-72 | a connect left alone subscribes a new peer and starts its monitor |
| `ChannelFlow.ConnectAgain` | src/messaging.rs:41-72 | a connect to a subscribed peer changes nothing |
| `Channels.CancelledMonitorsFinish` | src/messaging.rs:212-240 | after close every step of a monitor brings it closer to its end, and no other step sets it back |
| `Channels.CloseBreaksExactness` | src/messaging.rs:109-125 | a run of six steps after which close has left a monitor without its subscription |
| `Channels.RunKeeps` | src/messaging.rs:36-125 | the invariant behind these theorems holds in every run |
| `Channels.ChannelIdNamesPair` | src/messaging.rs:189-194 | for peer names without a slash, both ends compute the same channel name and no other pair does |
| `Channels.ChannelIdIsSorted` | src/messaging.rs:189-194 | it is the protocol name and the two peers in ascending order |
| `Words.IdentifierWords` | guardian-db-derive/src/lib.rs:445-479 | the one-pass splitter returns the words read off the text by local decisions |
| `Renaming.WordsSpellIdentifier` | guardian-db-derive/src/lib.rs:445-479 | words are non-empty, hold no separator, and spell the identifier without its separators |
| `Renaming.SnakeCaseIsIdempotent` | guardian-db-derive/src/lib.rs:481-483 | converting to snake case twice is converting once |
| `Renaming.RulesKeepWords` | guardian-db-derive/src/lib.rs:407-435 | snake and kebab case keep the words, and the capital rules differ from the others only in case |
| `Renaming.CamelRoundTripIff` | guardian-db-derive/src/lib.rs:417-428 | which lowercase snake names come back from camel case |
| `Renaming.PascalRoundTripIff` | guardian-db-derive/src/lib.rs:412-416 | which come back from Pascal case |
| `Renaming.LongWordsFit` | guardian-db-derive/src/lib.rs:437-443 | the condition of both holds when every word has two characters or more and each after the first starts with a letter |
| `Renaming.OneLetterWordsMerge` | guardian-db-derive/src/lib.rs:458-468 | the name `a_b_c` does not come back from camel case |
| `RenamingRules.CutIff` | guardian-db-derive/src/lib.rs:450-472 | exactly where words are cut between two neighbouring characters, by their letter case |
| `RenamingRules.SeparatorEndsWord` | guardian-db-derive/src/lib.rs:451-456 | a separator ends a word and belongs to none |
| `RenamingRules.CapitalRules` | guardian-db-derive/src/lib.rs:407-435 | the capital rules are the small ones raised, and an unknown rule changes nothing |
| `RenamingRules.KebabIsSnake` | guardian-db-derive/src/lib.rs:429-432 | kebab case is snake case with its separator exchanged |
| `RenamingRules.CamelKeepsLetters` | guardian-db-derive/src/lib.rs:412-428 | camel and Pascal case change letters in case only and drop the separators |
| `RenamingRules.CapitalizedIs` | guardian-db-derive/src/lib.rs:437-443 | a capitalized word has its first letter raised and all others lowered |
| `RenamingRules.WordsInCase` | guardian-db-derive/src/lib.rs:412-428 | one more word adds its capitalized form, the first word of camel case its lowered one |
| `Addresses.ParseDisplay` | src/address.rs:107-116 | every address, whatever its root and path, is read back from its printed form |
| `Addresses.ValidIffParses` | src/address.rs:119-212 | the validity test accepts exactly what parses |
| `Addresses.DisplayIsCanonical` | src/address.rs:169-212 | printing what was parsed gives a text that parses to the same address |
| `Addresses.PrintsBackIff` | src/address.rs:107-212 | a text prints back unchanged exactly when it has the prefix, lowercase digits and no trailing slash |
| `AddressForms.ParsesIff` | src/address.rs:119-212 | exactly the texts of an optional prefix, 64 hexadecimal digits, and nothing or a path behind a slash parse |
| `AddressForms.ParsesTo` | src/address.rs:169-212 | they parse to the hash the digits spell and that path |
| `AddressForms.HexAt` | src/address.rs:107-116 | each byte is printed as two lowercase digits, the high one first |
| `SimpleAcl.RunsStayClean` | src/access_control/acl_simple.rs:329-430 | every run of single and batch operations keeps the lists free of duplicates |
| `SimpleAclRuns.HoldsIff` | src/access_control/acl_simple.rs:168-430 | after any run of single and batch operations, exactly the keys given and not taken since, or there at the start and never taken, hold a capability |
| `SimpleAclRuns.Perform` | src/access_control/acl_simple.rs:168-430 | running operations on a controller gives the state the run specification says |
| `SimpleAclRuns.CanAppendAfter` | src/access_control/acl_simple.rs:500-594 | after any run, an append is accepted exactly from verified identities that hold write or admin, or that the wildcard covers |
| `SimpleAcl.GrantBatchIff` | src/access_control/acl_simple.rs:168-199 | a batch grant leaves the same list as its single grants, and the same state exactly when the capability existed or some name is not empty |
| `SimpleAcl.RevokeBatchIff` | src/access_control/acl_simple.rs:203-240 | a batch revocation leaves the same state as its single revocations exactly when the capability is absent, or its list is not empty and does not lose an empty name |
| `SimpleAcl.DropKeysIsKeep` | src/access_control/acl_simple.rs:217-219 | successive removals keep, in order, the keys none of them names |
| `SimpleAcl.Controller.Grant` | src/access_control/acl_simple.rs:329-372 | adds a key once, refuses empty names |
| `SimpleAcl.Controller.Revoke` | src/access_control/acl_simple.rs:376-430 | removes a key, and the capability with its last key |
| `SimpleAcl.Controller.GrantMultiple` | src/access_control/acl_simple.rs:168-199 | the loop adds the non-empty new keys in order |
| `SimpleAcl.Controller.RevokeMultiple` | src/access_control/acl_simple.rs:203-240 | the loop removes all named keys, and the capability if none is left |
| `SimpleAcl.Controller.CanAppend` | src/access_control/acl_simple.rs:500-594 | accepts exactly a verified identity held, or covered by the wildcard, under write or admin |

## Left out

- Ledger listing (`all`, `needing_dispatch`) and the typed `get` on its own: reads that would only add easy members.
- Ledger stores other than the in-memory one, whose compare-and-swap may be weaker, and store or encoding errors.
- Retry budget, executor selection and scheduling of compute tasks.
- Concurrent `update` calls keeping counts or terminal states: get-then-put can lose a write, so only the serialized form is claimed.
- SyncOrder.OpLog.Append: the traversal, clock and signing inside the log are not modelled; the log is the entries appended and the hashes it knows, and wrapper hashes are taken to differ from those of the exchanged entries.
- SyncWalk.Walk: fetch errors and undecodable blobs are links that lead nowhere, and the log does not change during one walk.
- Operations.DecodeEncode: lengths beyond 64 bits, which the real decoder refuses, are not modelled.
- OpLogView: the log's `values()` is taken to list payloads in append order.
- GuardianAcl: store write errors, replacing the store with `load`, manifests and update events.
- Keystore: real cryptography and key derivation, database errors, two sessions on one file at a time, and runs that start from a file marked by another format version.
- Cache: opening, closing and destroying cache files; only the table is modelled.
- Channels: waiting for the peer to become visible at the end of connect, `send`, topic discovery and the emitter's own shutdown.
- Words: identifiers outside ASCII, and agreement of the rename rules with serde's own.
- SimpleAcl: the statistics, import, export and cloning helpers.
