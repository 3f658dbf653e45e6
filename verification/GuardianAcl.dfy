/**
 * The access controller kept in a key-value store. Reading derives a view in
 * which every writer is also an admin; granting and revoking read that view
 * and write it back, so what is derived can become stored.
 */
module GuardianAcl {
  import opened Common

  /** Names of roles and identities, held as their UTF-8 bytes. */
  type Role = Bytes
  type Id = Bytes

  const WRITE: Role := [119, 114, 105, 116, 101]
  const ADMIN: Role := [97, 100, 109, 105, 110]
  const ANYONE: Id := [42]

  /** Who is stored under each role. */
  type Roles = map<Role, set<Id>>

  function Held(m: Roles, role: Role): set<Id> {
    if role in m then m[role] else {}
  }

  /** Who is authorized for a role once writers count as admins. */
  function Effective(m: Roles, role: Role): set<Id> {
    if role == ADMIN then Held(m, ADMIN) + Held(m, WRITE) else Held(m, role)
  }

  function GrantTo(m: Roles, role: Role, id: Id): Roles {
    m[role := Effective(m, role) + {id}]
  }

  function RevokeFrom(m: Roles, role: Role, id: Id): Roles {
    var rest := Effective(m, role) - {id};
    if rest == {} then m - {role} else m[role := rest]
  }

  datatype Op = Grant(role: Role, id: Id) | Revoke(role: Role, id: Id)

  function Apply(m: Roles, op: Op): Roles {
    match op
    case Grant(role, id) => GrantTo(m, role, id)
    case Revoke(role, id) => RevokeFrom(m, role, id)
  }

  /** The stored roles after a run of operations on an empty store. */
  function Run(ops: seq<Op>): Roles {
    if ops == [] then map[] else Apply(Run(ops[..|ops| - 1]), ops[|ops| - 1])
  }

  // ------------------------------------------------------- what a history means

  /** Granted `role`, and not revoked since. */
  ghost predicate Granted(ops: seq<Op>, role: Role, id: Id) {
    exists i :: 0 <= i < |ops| && ops[i] == Grant(role, id)
                && forall j :: i < j < |ops| ==> ops[j] != Revoke(role, id)
  }

  /**
   * Since its last admin revocation, an admin grant named `id`, or an admin
   * grant or revocation of someone else ran while `id` held write.
   */
  ghost predicate Absorbed(ops: seq<Op>, id: Id) {
    exists i :: 0 <= i < |ops| && AbsorbedAt(ops, i, id)
                && forall j :: i < j < |ops| ==> ops[j] != Revoke(ADMIN, id)
  }

  ghost predicate AbsorbedAt(ops: seq<Op>, i: nat, id: Id)
    requires i < |ops|
  {
    ops[i] == Grant(ADMIN, id)
    || (ops[i].role == ADMIN && ops[i].id != id && Granted(ops[..i], WRITE, id))
  }

  lemma GrantedStep(ops: seq<Op>, op: Op, role: Role, id: Id)
    ensures Granted(ops + [op], role, id)
            <==> op == Grant(role, id) || (Granted(ops, role, id) && op != Revoke(role, id))
  {
    var all := ops + [op];
    if op == Grant(role, id) {
      assert all[|ops|] == op;
    } else if Granted(ops, role, id) && op != Revoke(role, id) {
      var i :| 0 <= i < |ops| && ops[i] == Grant(role, id) && forall j :: i < j < |ops| ==> ops[j] != Revoke(role, id);
      assert all[i] == ops[i];
    }
    if Granted(all, role, id) && op != Grant(role, id) {
      var i :| 0 <= i < |all| && all[i] == Grant(role, id) && forall j :: i < j < |all| ==> all[j] != Revoke(role, id);
      assert all[|ops|] == op;
      assert forall j :: i < j < |ops| ==> all[j] == ops[j];
      assert ops[i] == Grant(role, id);
    }
  }

  lemma AbsorbedStep(ops: seq<Op>, op: Op, id: Id)
    ensures Absorbed(ops + [op], id)
            <==> op == Grant(ADMIN, id)
                 || (op.role == ADMIN && op.id != id && Granted(ops, WRITE, id))
                 || (Absorbed(ops, id) && op != Revoke(ADMIN, id))
  {
    var all := ops + [op];
    assert all[..|ops|] == ops && all[|ops|] == op;
    assert forall i :: 0 <= i < |ops| ==> all[..i] == ops[..i];
    assert forall i :: 0 <= i < |ops| ==> (AbsorbedAt(all, i, id) <==> AbsorbedAt(ops, i, id));
    if AbsorbedAt(all, |ops|, id) {
      assert Absorbed(all, id);
    }
    if Absorbed(ops, id) && op != Revoke(ADMIN, id) {
      var i :| 0 <= i < |ops| && AbsorbedAt(ops, i, id) && forall j :: i < j < |ops| ==> ops[j] != Revoke(ADMIN, id);
      assert AbsorbedAt(all, i, id);
    }
    if Absorbed(all, id) && !AbsorbedAt(all, |ops|, id) {
      var i :| 0 <= i < |all| && AbsorbedAt(all, i, id) && forall j :: i < j < |all| ==> all[j] != Revoke(ADMIN, id);
      assert AbsorbedAt(ops, i, id);
      assert forall j :: i < j < |ops| ==> all[j] == ops[j];
    }
  }

  /** Every role but admin is the plain replay of its own grants and revocations. */
  lemma {:induction false} OtherRolesArePlain(ops: seq<Op>, role: Role, id: Id)
    requires role != ADMIN
    ensures id in Held(Run(ops), role) <==> Granted(ops, role, id)
  {
    if ops != [] {
      var init, last := ops[..|ops| - 1], ops[|ops| - 1];
      OtherRolesArePlain(init, role, id);
      GrantedStep(init, last, role, id);
      assert ops == init + [last];
    }
  }

  lemma {:induction false} StoredAdmins(ops: seq<Op>, id: Id)
    ensures id in Held(Run(ops), ADMIN) <==> Absorbed(ops, id)
  {
    if ops != [] {
      var init, last := ops[..|ops| - 1], ops[|ops| - 1];
      StoredAdmins(init, id);
      OtherRolesArePlain(init, WRITE, id);
      AbsorbedStep(init, last, id);
      assert ops == init + [last];
    }
  }

  /** Exactly who is an admin after any run. */
  lemma AdminsAreExactly(ops: seq<Op>, id: Id)
    ensures id in Effective(Run(ops), ADMIN) <==> Granted(ops, WRITE, id) || Absorbed(ops, id)
    ensures Effective(Run(ops), WRITE) <= Effective(Run(ops), ADMIN)
  {
    StoredAdmins(ops, id);
    OtherRolesArePlain(ops, WRITE, id);
  }

  /** Revoking admin does remove the admin, exactly when the key does not hold write. */
  lemma RevokeAdminWorksIff(ops: seq<Op>, id: Id)
    ensures id !in Effective(Run(ops + [Revoke(ADMIN, id)]), ADMIN) <==> !Granted(ops, WRITE, id)
  {
    var all := ops + [Revoke(ADMIN, id)];
    AdminsAreExactly(all, id);
    GrantedStep(ops, Revoke(ADMIN, id), WRITE, id);
    AbsorbedStep(ops, Revoke(ADMIN, id), id);
  }

  predicate MayAppend(m: Roles, id: Id) {
    id in Effective(m, WRITE) + Effective(m, ADMIN) || ANYONE in Effective(m, WRITE) + Effective(m, ADMIN)
  }

  /** Exactly who may append after any run. */
  lemma MayAppendIff(ops: seq<Op>, id: Id)
    ensures MayAppend(Run(ops), id)
            <==> || Granted(ops, WRITE, id) || Absorbed(ops, id)
                 || Granted(ops, WRITE, ANYONE) || Absorbed(ops, ANYONE)
  {
    AdminsAreExactly(ops, id);
    AdminsAreExactly(ops, ANYONE);
    OtherRolesArePlain(ops, WRITE, id);
    OtherRolesArePlain(ops, WRITE, ANYONE);
  }

  /**
   * Revoking write ends the right to append, exactly when no admin operation
   * absorbed the key or the wildcard, and the wildcard does not still hold write.
   */
  lemma RevokeWriteWorksIff(ops: seq<Op>, id: Id)
    ensures !MayAppend(Run(ops + [Revoke(WRITE, id)]), id)
            <==> !Absorbed(ops, id) && !Absorbed(ops, ANYONE) && (id == ANYONE || !Granted(ops, WRITE, ANYONE))
  {
    AdminAfterRevokeWrite(ops, id, id);
    AdminAfterRevokeWrite(ops, id, ANYONE);
  }

  lemma AdminAfterRevokeWrite(ops: seq<Op>, id: Id, x: Id)
    ensures var m := Run(ops + [Revoke(WRITE, id)]);
            x in Effective(m, WRITE) + Effective(m, ADMIN)
            <==> (x != id && Granted(ops, WRITE, x)) || Absorbed(ops, x)
  {
    var op := Revoke(WRITE, id);
    AdminsAreExactly(ops + [op], x);
    GrantedStep(ops, op, WRITE, x);
    AbsorbedStep(ops, op, x);
  }

  /** A writer `a` who was in office while an unrelated admin `b` was added keeps append rights after a revocation. */
  lemma WriterOutlivesRevocation(a: Id, b: Id)
    requires a != b
    ensures MayAppend(Run([Grant(WRITE, a), Grant(ADMIN, b), Revoke(WRITE, a)]), a)
  {
    var first := [Grant(WRITE, a)];
    GrantedStep([], Grant(WRITE, a), WRITE, a);
    assert [] + [Grant(WRITE, a)] == first;
    AbsorbedStep(first, Grant(ADMIN, b), a);
    var ops := first + [Grant(ADMIN, b)];
    AbsorbedStep(ops, Revoke(WRITE, a), a);
    AdminsAreExactly(ops + [Revoke(WRITE, a)], a);
    assert ops + [Revoke(WRITE, a)] == [Grant(WRITE, a), Grant(ADMIN, b), Revoke(WRITE, a)];
  }

  // ------------------------------------------------------------------ the code

  /** A stored value: a serialized list of identities, or bytes that do not decode. */
  datatype Cell = Keys(ids: seq<Id>) | Garbage

  function IdsOf(l: seq<Id>): set<Id> {
    set x | x in l
  }

  predicate Readable(store: map<Role, Cell>) {
    forall role :: role in store ==> store[role].Keys?
  }

  function View(store: map<Role, Cell>): Roles
    requires Readable(store)
  {
    map role | role in store :: IdsOf(store[role].ids)
  }

  method ListOf(s: set<Id>) returns (l: seq<Id>)
    ensures IdsOf(l) == s && NoRepeats(l)
  {
    l := [];
    var todo := s;
    while todo != {}
      invariant todo <= s && IdsOf(l) == s - todo && NoRepeats(l)
    {
      var x :| x in todo;
      assert IdsOf(l + [x]) == IdsOf(l) + {x};
      assert forall i :: 0 <= i < |l| ==> l[i] in IdsOf(l);
      l, todo := l + [x], todo - {x};
    }
  }

  class Controller {
    var store: Option<map<Role, Cell>>

    constructor ()
      ensures store == Some(map[])
    {
      store := Some(map[]);
    }

    /** Every stored role, with writers added to the admins; an undecodable entry fails the whole read. */
    method GetAuthorizations() returns (r: Result<Roles, string>)
      ensures store.None? ==> r == Ok(map[])
      ensures store.Some? ==> (r.Ok? <==> Readable(store.value))
      ensures store.Some? && r.Ok? ==> forall role :: Held(r.value, role) == Effective(View(store.value), role)
    {
      if store.None? {
        return Ok(map[]);
      }
      var data := store.value;
      var sets: Roles := map[];
      var todo := data.Keys;
      while todo != {}
        invariant todo <= data.Keys && sets.Keys == data.Keys - todo
        invariant forall role :: role in sets ==> data[role].Keys? && sets[role] == IdsOf(data[role].ids)
      {
        var role :| role in todo;
        if data[role].Garbage? {
          return Err("deserialization failed");
        }
        sets := sets[role := IdsOf(data[role].ids)];
        todo := todo - {role};
      }
      if WRITE in sets {
        sets := sets[ADMIN := Held(sets, ADMIN) + sets[WRITE]];
      }
      return Ok(sets);
    }

    method GetAuthorizedByRole(role: Role) returns (r: Result<set<Id>, string>)
      ensures r.Ok? <==> store.None? || Readable(store.value)
      ensures r.Ok? && store.Some? ==> r.value == Effective(View(store.value), role)
      ensures store.None? ==> r == Ok({})
    {
      var all := GetAuthorizations();
      if all.Err? {
        return Err(all.error);
      }
      return Ok(if role in all.value then all.value[role] else {});
    }

    method Grant(role: Role, id: Id) returns (r: Result<(), string>)
      modifies this
      ensures r.Ok? <==> old(store).Some? && Readable(old(store).value)
      ensures r.Err? ==> store == old(store)
      ensures r.Ok? ==> store.Some? && Readable(store.value)
                        && View(store.value) == GrantTo(View(old(store).value), role, id)
    {
      if store.None? {
        return Err("kv_store not initialized");
      }
      var current := GetAuthorizedByRole(role);
      if current.Err? {
        return Err(current.error);
      }
      var ids := ListOf(current.value + {id});
      store := Some(store.value[role := Keys(ids)]);
      return Ok(());
    }

    method Revoke(role: Role, id: Id) returns (r: Result<(), string>)
      modifies this
      ensures r.Ok? <==> old(store).Some? && Readable(old(store).value)
      ensures r.Err? ==> store == old(store)
      ensures r.Ok? ==> store.Some? && Readable(store.value)
                        && View(store.value) == RevokeFrom(View(old(store).value), role, id)
    {
      if store.None? {
        return Err("kv_store not initialized");
      }
      var current := GetAuthorizedByRole(role);
      if current.Err? {
        return Err(current.error);
      }
      var ids := ListOf(current.value - {id});
      if ids != [] {
        assert ids[0] in IdsOf(ids);
        store := Some(store.value[role := Keys(ids)]);
      } else {
        store := Some(store.value - {role});
      }
      return Ok(());
    }

    method CanAppend(id: Id, verified: bool) returns (ok: bool)
      ensures ok <==> verified && store.Some? && Readable(store.value) && MayAppend(View(store.value), id)
    {
      var writers := GetAuthorizedByRole(WRITE);
      var admins := GetAuthorizedByRole(ADMIN);
      if writers.Err? || admins.Err? {
        return false;
      }
      var access := writers.value + admins.value;
      return (id in access || ANYONE in access) && verified;
    }
  }

  /** A fresh controller on which a run of operations is performed stores what `Run` says. */
  method Perform(ops: seq<Op>) returns (c: Controller)
    ensures fresh(c) && c.store.Some? && Readable(c.store.value) && View(c.store.value) == Run(ops)
  {
    c := new Controller();
    for i := 0 to |ops|
      invariant fresh(c) && c.store.Some? && Readable(c.store.value) && View(c.store.value) == Run(ops[..i])
    {
      assert ops[..i + 1][..i] == ops[..i];
      match ops[i] {
        case Grant(role, id) => var _ := c.Grant(role, id);
        case Revoke(role, id) => var _ := c.Revoke(role, id);
      }
    }
    assert ops[..|ops|] == ops;
  }

  /** After any run on a fresh controller, an append is accepted exactly from those who may, if they verify. */
  method CanAppendAfter(ops: seq<Op>, id: Id, verified: bool) returns (ok: bool)
    ensures ok <==> && verified
                    && (|| Granted(ops, WRITE, id) || Absorbed(ops, id)
                        || Granted(ops, WRITE, ANYONE) || Absorbed(ops, ANYONE))
  {
    var c := Perform(ops);
    ok := c.CanAppend(id, verified);
    MayAppendIff(ops, id);
  }
}
