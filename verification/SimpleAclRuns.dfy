/** Who holds what in the in-memory access controller after any run of single and batch operations. */
module SimpleAclRuns {
  import opened Common
  import opened SimpleAcl

  /** The operation names `id` among those who get `capability`. */
  predicate Gives(op: Op, capability: string, id: Id) {
    && op.capability == capability && capability != "" && id != ""
    && ((op.Grant? && op.id == id) || (op.GrantBatch? && id in op.ids))
  }

  /** The operation names `id` among those who lose `capability`; only a batch may name the empty identity. */
  predicate Takes(op: Op, capability: string, id: Id) {
    && op.capability == capability && capability != ""
    && ((op.Revoke? && op.id == id && id != "") || (op.RevokeBatch? && id in op.ids))
  }

  /** Given and not taken since, or there at the start and never taken. */
  ghost predicate Holds(m: Allowed, ops: seq<Op>, capability: string, id: Id) {
    || (id in KeysOf(m, capability) && forall j :: 0 <= j < |ops| ==> !Takes(ops[j], capability, id))
    || exists i :: 0 <= i < |ops| && Gives(ops[i], capability, id)
                   && forall j :: i < j < |ops| ==> !Takes(ops[j], capability, id)
  }

  lemma HoldsStep(m: Allowed, ops: seq<Op>, op: Op, capability: string, id: Id)
    ensures Holds(m, ops + [op], capability, id)
            <==> Gives(op, capability, id) || (Holds(m, ops, capability, id) && !Takes(op, capability, id))
  {
    var all := ops + [op];
    assert forall i :: 0 <= i < |ops| ==> all[i] == ops[i];
    assert all[|ops|] == op;
    if Gives(op, capability, id) {
      assert Gives(all[|ops|], capability, id);
    } else if Holds(m, ops, capability, id) && !Takes(op, capability, id) {
      if i :| 0 <= i < |ops| && Gives(ops[i], capability, id)
              && forall j :: i < j < |ops| ==> !Takes(ops[j], capability, id) {
        assert Gives(all[i], capability, id);
      }
    }
    if Holds(m, all, capability, id) && !Gives(op, capability, id) {
      assert !Takes(all[|ops|], capability, id);
      if i :| 0 <= i < |all| && Gives(all[i], capability, id)
              && forall j :: i < j < |all| ==> !Takes(all[j], capability, id) {
        assert Gives(ops[i], capability, id);
      }
    }
  }

  /** Whether the step keeps exactly what it should. */
  ghost predicate StepsRight(m: Allowed, op: Op, capability: string, id: Id) {
    id in KeysOf(Apply(m, op), capability)
    <==> Gives(op, capability, id) || (id in KeysOf(m, capability) && !Takes(op, capability, id))
  }

  lemma GrantStep(m: Allowed, c: string, gets: Id, capability: string, id: Id)
    ensures StepsRight(m, Grant(c, gets), capability, id)
  {
  }

  lemma GrantBatchStep(m: Allowed, c: string, ids: seq<Id>, capability: string, id: Id)
    ensures StepsRight(m, GrantBatch(c, ids), capability, id)
  {
    AddKeysFacts(KeysOf(m, capability), ids);
  }

  lemma RevokeStep(m: Allowed, c: string, gone: Id, capability: string, id: Id)
    ensures StepsRight(m, Revoke(c, gone), capability, id)
  {
    KeepMembers(KeysOf(m, capability), {gone});
  }

  lemma RevokeBatchStep(m: Allowed, c: string, ids: seq<Id>, capability: string, id: Id)
    ensures StepsRight(m, RevokeBatch(c, ids), capability, id)
  {
    if c == capability && c in m {
      var rest := DropKeys(m[c], ids);
      DropKeysIsKeep(m[c], ids);
      KeepMembers(m[c], Named(ids));
      assert id in rest <==> id in m[c] && id !in ids;
    }
  }

  lemma KeysStep(m: Allowed, op: Op, capability: string, id: Id)
    ensures StepsRight(m, op, capability, id)
  {
    match op
    case Grant(c, gets) => GrantStep(m, c, gets, capability, id);
    case GrantBatch(c, ids) => GrantBatchStep(m, c, ids, capability, id);
    case Revoke(c, gone) => RevokeStep(m, c, gone, capability, id);
    case RevokeBatch(c, ids) => RevokeBatchStep(m, c, ids, capability, id);
  }

  /** Exactly who holds a capability after any run. */
  lemma {:induction false} HoldsIff(m: Allowed, ops: seq<Op>, capability: string, id: Id)
    ensures id in KeysOf(Run(m, ops), capability) <==> Holds(m, ops, capability, id)
  {
    if ops != [] {
      var init, last := ops[..|ops| - 1], ops[|ops| - 1];
      HoldsIff(m, init, capability, id);
      KeysStep(Run(m, init), last, capability, id);
      HoldsStep(m, init, last, capability, id);
      assert ops == init + [last];
    }
  }

  /** A controller on which a run of operations is performed holds what `Run` says. */
  method Perform(allowed: Allowed, ops: seq<Op>) returns (c: Controller)
    ensures fresh(c) && c.allowed == Run(allowed, ops)
  {
    c := new Controller(allowed);
    for i := 0 to |ops|
      invariant fresh(c) && c.allowed == Run(allowed, ops[..i])
    {
      assert ops[..i + 1][..i] == ops[..i];
      match ops[i] {
        case Grant(capability, id) => var _ := c.Grant(capability, id);
        case Revoke(capability, id) => var _ := c.Revoke(capability, id);
        case GrantBatch(capability, ids) => var _ := c.GrantMultiple(capability, ids);
        case RevokeBatch(capability, ids) => var _ := c.RevokeMultiple(capability, ids);
      }
    }
    assert ops[..|ops|] == ops;
  }

  /** After any run, an append is accepted exactly from those who hold write or admin, or whom the wildcard covers. */
  method CanAppendAfter(allowed: Allowed, ops: seq<Op>, id: Id, verified: bool) returns (ok: bool)
    ensures ok <==> && verified
                    && (|| Holds(allowed, ops, "write", id) || Holds(allowed, ops, "write", "*")
                        || Holds(allowed, ops, "admin", id) || Holds(allowed, ops, "admin", "*"))
  {
    var c := Perform(allowed, ops);
    ok := c.CanAppend(id, verified);
    HoldsIff(allowed, ops, "write", id);
    HoldsIff(allowed, ops, "write", "*");
    HoldsIff(allowed, ops, "admin", id);
    HoldsIff(allowed, ops, "admin", "*");
  }
}
