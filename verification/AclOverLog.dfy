/** The stored access controller on top of the op-log adapter: when what it writes is kept. */
module AclOverLog {
  import opened Common
  import opened Utf8
  import opened Operations
  import opened OpLogView
  import opened OpLogStore
  import opened AclLists
  import Acl = GuardianAcl

  /** What the controller finds in its store: each role's list, or bytes that are none. */
  function Cells(m: map<Text, Bytes>): map<Text, Acl.Cell> {
    map role | role in m :: match DecodeList(m[role]) case Some(ids) => Acl.Keys(ids) case None => Acl.Garbage
  }

  function Stored(log: seq<Bytes>): map<Text, Acl.Cell> {
    Cells(Fold(Decode, log))
  }

  ghost predicate TextIds(s: set<Text>) {
    forall x :: x in s ==> Valid(x)
  }

  /** Everything the controller reads is text. */
  lemma StoredIdsAreText(log: seq<Bytes>, role: Text)
    requires Acl.Readable(Stored(log))
    ensures TextIds(Acl.Held(Acl.View(Stored(log)), role))
  {
    var m := Fold(Decode, log);
    if role in m {
      assert Stored(log)[role].Keys?;
      var n := ReadVarint(m[role]).value;
      DecodedIsText(n.1, n.0);
    }
  }

  /**
   * A grant through the adapter: read all roles, add the identity to the role's
   * derived identities, store the list. It reports success even if the list is lost.
   */
  method Grant(store: KeyValueAdapter, role: Str, id: Str) returns (r: Result<seq<Text>, string>)
    modifies store
    ensures r.Ok? <==> Acl.Readable(Stored(old(store.log)))
    ensures r.Err? ==> store.log == old(store.log)
    ensures r.Ok? ==>
              && store.log == old(store.log) + [Payload(PutOp(role, EncodeList(r.value)))]
              && Acl.IdsOf(r.value) == Acl.Effective(Acl.View(Stored(old(store.log))), role) + {id}
              && AllText(r.value) && NoRepeats(r.value)
  {
    var all := store.All();
    var reader := new Acl.Controller();
    reader.store := Some(Cells(all));
    var current := reader.GetAuthorizedByRole(role);
    if current.Err? {
      return Err(current.error);
    }
    StoredIdsAreText(store.log, role);
    StoredIdsAreText(store.log, Acl.WRITE);
    var ids := Acl.ListOf(current.value + {id});
    forall i | 0 <= i < |ids| ensures Valid(ids[i]) {
      assert ids[i] in Acl.IdsOf(ids);
    }
    var _ := store.Put(role, EncodeList(ids));
    return Ok(ids);
  }

  /** A revocation through the adapter: the identities left are stored, or the role is deleted. */
  method Revoke(store: KeyValueAdapter, role: Str, id: Str) returns (r: Result<seq<Text>, string>)
    modifies store
    ensures r.Ok? <==> Acl.Readable(Stored(old(store.log)))
    ensures r.Err? ==> store.log == old(store.log)
    ensures r.Ok? ==>
              && store.log == old(store.log) + [Revocation(role, r.value)]
              && Acl.IdsOf(r.value) == Acl.Effective(Acl.View(Stored(old(store.log))), role) - {id}
              && AllText(r.value) && NoRepeats(r.value)
  {
    var all := store.All();
    var reader := new Acl.Controller();
    reader.store := Some(Cells(all));
    var current := reader.GetAuthorizedByRole(role);
    if current.Err? {
      return Err(current.error);
    }
    StoredIdsAreText(store.log, role);
    StoredIdsAreText(store.log, Acl.WRITE);
    var ids := Acl.ListOf(current.value - {id});
    forall i | 0 <= i < |ids| ensures Valid(ids[i]) {
      assert ids[i] in Acl.IdsOf(ids);
    }
    if ids != [] {
      var _ := store.Put(role, EncodeList(ids));
    } else {
      var _ := store.Delete(role);
    }
    return Ok(ids);
  }

  /** The payload that leaves a role with `ids`. */
  function Revocation(role: Str, ids: seq<Text>): Bytes {
    if ids == [] then Payload(DeleteOp(role)) else Payload(PutOp(role, EncodeList(ids)))
  }

  /** The role's cell is its list. */
  lemma CellIsList(log: seq<Bytes>, role: Text, ids: seq<Text>)
    ensures role in Stored(log) && Stored(log)[role] == Acl.Keys(ids) <==> ListIn(log, role) == Some(ids)
  {
    ScanIsFold(Decode, log, role);
  }

  lemma FoldNext(log: seq<Bytes>, command: Command)
    requires CommandSurvives(command)
    ensures Fold(Decode, log + [CommandPayload(command)])
            == if command.DoPut? then Fold(Decode, log)[command.key := command.value]
               else Fold(Decode, log) - {command.key}
  {
    assert (log + [CommandPayload(command)])[..|log|] == log;
    CommandIsApplied(Fold(Decode, log), command);
  }

  lemma CellsWithout(m: map<Text, Bytes>, role: Text)
    ensures Cells(m - {role}) == Cells(m) - {role}
  {
  }

  /** A put of a surviving list changes the cell of its role and no other. */
  lemma KeptListIsStored(log: seq<Bytes>, role: Str, ids: seq<Text>)
    requires AllText(ids) && Survives(role, EncodeList(ids))
    ensures Stored(log + [Payload(PutOp(role, EncodeList(ids)))]) == Stored(log)[role := Acl.Keys(ids)]
  {
    FoldNext(log, DoPut(role, EncodeList(ids)));
    ListReadBack(ids);
  }

  lemma NewListDiffers(log: seq<Bytes>, role: Text, id: Text, ids: seq<Text>)
    requires Acl.Readable(Stored(log)) && id in Acl.IdsOf(ids)
    requires id !in Acl.Effective(Acl.View(Stored(log)), role)
    ensures ListIn(log, role) != Some(ids)
  {
    CellIsList(log, role, ids);
  }

  lemma KeptGrantIsGrant(log: seq<Bytes>, role: Str, id: Text, ids: seq<Text>)
    requires Acl.Readable(Stored(log))
    requires Acl.IdsOf(ids) == Acl.Effective(Acl.View(Stored(log)), role) + {id}
    ensures var after := Stored(log)[role := Acl.Keys(ids)];
            Acl.Readable(after) && Acl.View(after) == Acl.GrantTo(Acl.View(Stored(log)), role, id)
  {
  }

  /** A list of which the role's cell is to be the new value, read back or not. */
  lemma CellKeptIff(log: seq<Bytes>, role: Str, id: Text, ids: seq<Text>)
    requires Acl.Readable(Stored(log)) && AllText(ids) && id in Acl.IdsOf(ids)
    requires id !in Acl.Effective(Acl.View(Stored(log)), role)
    ensures var after := Stored(log + [Payload(PutOp(role, EncodeList(ids)))]);
            role in after && after[role] == Acl.Keys(ids) <==> Survives(role, EncodeList(ids))
  {
    NewListDiffers(log, role, id, ids);
    ListKeptIff(log, role, ids);
    CellIsList(log + [Payload(PutOp(role, EncodeList(ids)))], role, ids);
  }

  /**
   * Exactly when granting a role to a new identity is kept: when the list it
   * writes survives the text conversion. Then it is the grant of the
   * controller's own specification; otherwise the role does not read as that list.
   */
  lemma GrantKeptIff(log: seq<Bytes>, role: Str, id: Text, ids: seq<Text>)
    requires Acl.Readable(Stored(log)) && AllText(ids)
    requires Acl.IdsOf(ids) == Acl.Effective(Acl.View(Stored(log)), role) + {id}
    requires id !in Acl.Effective(Acl.View(Stored(log)), role)
    ensures var after := Stored(log + [Payload(PutOp(role, EncodeList(ids)))]);
            && (role in after && after[role] == Acl.Keys(ids) <==> Survives(role, EncodeList(ids)))
            && (Survives(role, EncodeList(ids)) ==>
                  Acl.Readable(after) && Acl.View(after) == Acl.GrantTo(Acl.View(Stored(log)), role, id))
  {
    CellKeptIff(log, role, id, ids);
    if Survives(role, EncodeList(ids)) {
      KeptListIsStored(log, role, ids);
      KeptGrantIsGrant(log, role, id, ids);
    }
  }

  lemma KeptRevocationIsRevocation(log: seq<Bytes>, role: Str, id: Text, ids: seq<Text>)
    requires Acl.Readable(Stored(log))
    requires Acl.IdsOf(ids) == Acl.Effective(Acl.View(Stored(log)), role) - {id}
    ensures var after := if ids == [] then Stored(log) - {role} else Stored(log)[role := Acl.Keys(ids)];
            Acl.Readable(after) && Acl.View(after) == Acl.RevokeFrom(Acl.View(Stored(log)), role, id)
  {
    if ids != [] {
      assert ids[0] in Acl.IdsOf(ids);
    }
  }

  lemma KeptDeleteIsStored(log: seq<Bytes>, role: Str)
    requires Valid(Varint(|role|))
    ensures Stored(log + [Payload(DeleteOp(role))]) == Stored(log) - {role}
  {
    FoldNext(log, DoDelete(role));
    CellsWithout(Fold(Decode, log), role);
  }

  /** Whether a revocation that leaves `ids` can be kept. */
  predicate RevocationSurvives(role: Str, ids: seq<Text>) {
    if ids == [] then Valid(Varint(|role|)) else Survives(role, EncodeList(ids))
  }

  /** After a revocation the role holds exactly `ids`, or is gone if that is nobody. */
  predicate Left(cells: map<Text, Acl.Cell>, role: Text, ids: seq<Text>) {
    if ids == [] then role !in cells else role in cells && cells[role] == Acl.Keys(ids)
  }

  /** Exactly when revoking a role from an identity stored under it is kept. */
  lemma RevokeKeptIff(log: seq<Bytes>, role: Str, id: Text, ids: seq<Text>)
    requires Acl.Readable(Stored(log)) && AllText(ids) && id in Acl.Held(Acl.View(Stored(log)), role)
    requires Acl.IdsOf(ids) == Acl.Effective(Acl.View(Stored(log)), role) - {id}
    ensures var after := Stored(log + [Revocation(role, ids)]);
            && (Left(after, role, ids) <==> RevocationSurvives(role, ids))
            && (RevocationSurvives(role, ids) ==>
                  Acl.Readable(after) && Acl.View(after) == Acl.RevokeFrom(Acl.View(Stored(log)), role, id))
  {
    RevocationLeavesIff(log, role, id, ids);
    if RevocationSurvives(role, ids) {
      KeptRevocationIsRevocation(log, role, id, ids);
      if ids == [] {
        KeptDeleteIsStored(log, role);
      } else {
        KeptListIsStored(log, role, ids);
      }
    }
  }

  lemma RevocationLeavesIff(log: seq<Bytes>, role: Str, id: Text, ids: seq<Text>)
    requires Acl.Readable(Stored(log)) && AllText(ids) && id in Acl.Held(Acl.View(Stored(log)), role)
    requires id !in Acl.IdsOf(ids)
    ensures Left(Stored(log + [Revocation(role, ids)]), role, ids) <==> RevocationSurvives(role, ids)
  {
    var after := log + [Revocation(role, ids)];
    ScanIsFold(Decode, log, role);
    ScanIsFold(Decode, after, role);
    if ids == [] {
      DeleteVisibleIff(log, role);
    } else {
      CellIsList(log, role, ids);
      ListKeptIff(log, role, ids);
      CellIsList(after, role, ids);
    }
  }

  lemma {:induction false} DistinctCount(ids: seq<Text>)
    requires NoRepeats(ids)
    ensures |Acl.IdsOf(ids)| == |ids|
  {
    if ids != [] {
      var init, last := ids[..|ids| - 1], ids[|ids| - 1];
      DistinctCount(init);
      assert Acl.IdsOf(ids) == Acl.IdsOf(init) + {last};
    }
  }

  /** Granting a role to a second identity of 64 bytes is never kept. */
  lemma SecondKeyIsLost(log: seq<Bytes>, role: Str, first: Text, id: Text, ids: seq<Text>)
    requires Acl.Readable(Stored(log)) && AllText(ids) && NoRepeats(ids)
    requires |first| == 64 && |id| == 64 && first != id
    requires Acl.Effective(Acl.View(Stored(log)), role) == {first} && Acl.IdsOf(ids) == {first} + {id}
    ensures var after := Stored(log + [Payload(PutOp(role, EncodeList(ids)))]);
            !(role in after && after[role] == Acl.Keys(ids))
  {
    DistinctCount(ids);
    assert ids == [ids[0], ids[1]] && ids[0] in Acl.IdsOf(ids) && ids[1] in Acl.IdsOf(ids);
    TwoKeysAreLost(role, ids[0], ids[1]);
    CellKeptIff(log, role, id, ids);
  }
}
