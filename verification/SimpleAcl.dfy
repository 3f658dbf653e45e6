/** The in-memory access controller: lists of keys per capability, changed singly or in batches. */
module SimpleAcl {
  import opened Common

  type Id = string
  type Allowed = map<string, seq<Id>>

  /** Every list is free of duplicates. */
  ghost predicate Clean(m: Allowed) {
    forall c :: c in m ==> NoRepeats(m[c])
  }

  function KeysOf(m: Allowed, capability: string): seq<Id> {
    if capability in m then m[capability] else []
  }

  function AddKey(l: seq<Id>, id: Id): seq<Id> {
    if id in l then l else l + [id]
  }

  /** The list without some keys, the others in order. */
  function Keep(l: seq<Id>, out: set<Id>): seq<Id> {
    if l == [] then [] else Keep(l[..|l| - 1], out) + if l[|l| - 1] in out then [] else [l[|l| - 1]]
  }

  /** One `grant`; refused for an empty name. */
  function GrantOne(m: Allowed, capability: string, id: Id): Allowed {
    if capability == "" || id == "" then m else m[capability := AddKey(KeysOf(m, capability), id)]
  }

  /** One `revoke`: the capability goes with its last key. */
  function RevokeOne(m: Allowed, capability: string, id: Id): Allowed {
    if capability == "" || id == "" || capability !in m then m
    else
      var rest := Keep(m[capability], {id});
      if |rest| < |m[capability]| && rest == [] then m - {capability} else m[capability := rest]
  }

  function AddKeys(l: seq<Id>, ids: seq<Id>): seq<Id> {
    if ids == [] then l
    else
      var before := AddKeys(l, ids[..|ids| - 1]);
      if ids[|ids| - 1] == "" then before else AddKey(before, ids[|ids| - 1])
  }

  function DropKeys(l: seq<Id>, ids: seq<Id>): seq<Id> {
    if ids == [] then l else Keep(DropKeys(l, ids[..|ids| - 1]), {ids[|ids| - 1]})
  }

  function GrantMany(m: Allowed, capability: string, ids: seq<Id>): Allowed {
    if capability == "" then m else m[capability := AddKeys(KeysOf(m, capability), ids)]
  }

  function RevokeMany(m: Allowed, capability: string, ids: seq<Id>): Allowed {
    if capability == "" || capability !in m then m
    else
      var rest := DropKeys(m[capability], ids);
      if rest == [] then m - {capability} else m[capability := rest]
  }

  // ------------------------------------------------------------- no duplicates, ever

  lemma {:induction false} KeepMembers(l: seq<Id>, out: set<Id>)
    ensures forall x :: x in Keep(l, out) <==> x in l && x !in out
    ensures |Keep(l, out)| <= |l|
  {
    if l != [] {
      KeepMembers(l[..|l| - 1], out);
      assert l == l[..|l| - 1] + [l[|l| - 1]];
    }
  }

  lemma {:induction false} KeepNoRepeats(l: seq<Id>, out: set<Id>)
    requires NoRepeats(l)
    ensures NoRepeats(Keep(l, out))
  {
    if l != [] {
      var init, last := l[..|l| - 1], l[|l| - 1];
      KeepNoRepeats(init, out);
      KeepMembers(init, out);
    }
  }

  /** Only the keys in the list matter. */
  lemma {:induction false} KeepSame(l: seq<Id>, a: set<Id>, b: set<Id>)
    requires forall x :: x in l ==> (x in a <==> x in b)
    ensures Keep(l, a) == Keep(l, b)
  {
    if l != [] {
      assert l == l[..|l| - 1] + [l[|l| - 1]];
      KeepSame(l[..|l| - 1], a, b);
    }
  }

  lemma {:induction false} KeepAll(l: seq<Id>)
    ensures Keep(l, {}) == l
  {
    if l != [] {
      KeepAll(l[..|l| - 1]);
    }
  }

  lemma {:induction false} KeepTwice(l: seq<Id>, a: set<Id>, b: set<Id>)
    ensures Keep(Keep(l, a), b) == Keep(l, a + b)
  {
    if l != [] {
      var init, last := l[..|l| - 1], l[|l| - 1];
      KeepTwice(init, a, b);
      if last in a {
        assert Keep(l, a) == Keep(init, a) && Keep(l, a + b) == Keep(init, a + b);
      } else {
        assert (Keep(init, a) + [last])[..|Keep(init, a)|] == Keep(init, a);
      }
    }
  }

  function Named(ids: seq<Id>): set<Id> {
    set x | x in ids
  }

  /** Revoking keys one after another keeps, in order, the keys that none of them names. */
  lemma {:induction false} DropKeysIsKeep(l: seq<Id>, ids: seq<Id>)
    ensures DropKeys(l, ids) == Keep(l, Named(ids))
  {
    if ids == [] {
      KeepAll(l);
      assert Named(ids) == {};
    } else {
      var init, last := ids[..|ids| - 1], ids[|ids| - 1];
      DropKeysIsKeep(l, init);
      KeepTwice(l, Named(init), {last});
      assert Named(ids) == Named(init) + {last} by { assert ids == init + [last]; }
    }
  }

  lemma {:induction false} AddKeysFacts(l: seq<Id>, ids: seq<Id>)
    ensures forall x :: x in AddKeys(l, ids) <==> x in l || (x in ids && x != "")
    ensures NoRepeats(l) ==> NoRepeats(AddKeys(l, ids))
  {
    if ids != [] {
      var init, last := ids[..|ids| - 1], ids[|ids| - 1];
      AddKeysFacts(l, init);
      assert ids == init + [last];
      var before := AddKeys(l, init);
      assert forall x :: x in before + [last] <==> x in before || x == last;
    }
  }

  datatype Op =
    | Grant(capability: string, id: Id)
    | Revoke(capability: string, id: Id)
    | GrantBatch(capability: string, ids: seq<Id>)
    | RevokeBatch(capability: string, ids: seq<Id>)

  function Apply(m: Allowed, op: Op): Allowed {
    match op
    case Grant(capability, id) => GrantOne(m, capability, id)
    case Revoke(capability, id) => RevokeOne(m, capability, id)
    case GrantBatch(capability, ids) => GrantMany(m, capability, ids)
    case RevokeBatch(capability, ids) => RevokeMany(m, capability, ids)
  }

  function Run(m: Allowed, ops: seq<Op>): Allowed {
    if ops == [] then m else Apply(Run(m, ops[..|ops| - 1]), ops[|ops| - 1])
  }

  lemma {:induction false} RunsStayClean(m: Allowed, ops: seq<Op>)
    requires Clean(m)
    ensures Clean(Run(m, ops))
  {
    if ops != [] {
      var before, op := Run(m, ops[..|ops| - 1]), ops[|ops| - 1];
      RunsStayClean(m, ops[..|ops| - 1]);
      match op {
        case Grant(capability, id) =>
        case Revoke(capability, id) => KeepNoRepeats(KeysOf(before, capability), {id});
        case GrantBatch(capability, ids) => AddKeysFacts(KeysOf(before, capability), ids);
        case RevokeBatch(capability, ids) =>
          DropKeysIsKeep(KeysOf(before, capability), ids);
          KeepNoRepeats(KeysOf(before, capability), Named(ids));
      }
    }
  }

  // ----------------------------------------------------------- batches against singles

  function GrantEach(m: Allowed, capability: string, ids: seq<Id>): Allowed {
    if ids == [] then m else GrantOne(GrantEach(m, capability, ids[..|ids| - 1]), capability, ids[|ids| - 1])
  }

  function RevokeEach(m: Allowed, capability: string, ids: seq<Id>): Allowed {
    if ids == [] then m else RevokeOne(RevokeEach(m, capability, ids[..|ids| - 1]), capability, ids[|ids| - 1])
  }

  predicate AllEmpty(ids: seq<Id>) {
    forall i :: 0 <= i < |ids| ==> ids[i] == ""
  }

  /** One by one, a capability appears with its first key; in a batch, even with none. */
  lemma {:induction false} GrantEachIs(m: Allowed, capability: string, ids: seq<Id>)
    requires capability != ""
    ensures GrantEach(m, capability, ids)
            == if capability !in m && AllEmpty(ids) then m else m[capability := AddKeys(KeysOf(m, capability), ids)]
  {
    if ids != [] {
      var n := |ids| - 1;
      GrantEachIs(m, capability, ids[..n]);
      AddNothing(KeysOf(m, capability), ids[..n]);
      assert AllEmpty(ids) <==> AllEmpty(ids[..n]) && ids[n] == "";
    }
  }

  lemma {:induction false} AddNothing(l: seq<Id>, ids: seq<Id>)
    ensures AllEmpty(ids) ==> AddKeys(l, ids) == l
  {
    if ids != [] {
      AddNothing(l, ids[..|ids| - 1]);
    }
  }

  /** A batch grant equals its single grants, except that it creates a capability for no key at all. */
  lemma GrantBatchIff(m: Allowed, capability: string, ids: seq<Id>)
    requires capability != ""
    ensures KeysOf(GrantMany(m, capability, ids), capability) == KeysOf(GrantEach(m, capability, ids), capability)
    ensures GrantMany(m, capability, ids) == GrantEach(m, capability, ids) <==> capability in m || !AllEmpty(ids)
  {
    GrantEachIs(m, capability, ids);
    AddNothing(KeysOf(m, capability), ids);
  }

  /** One by one, empty names are refused, and an empty list stays. */
  lemma {:induction false} RevokeEachIs(m: Allowed, capability: string, ids: seq<Id>)
    requires capability != "" && capability in m
    ensures var rest := Keep(m[capability], Named(ids) - {""});
            RevokeEach(m, capability, ids)
            == if rest == [] && m[capability] != [] then m - {capability} else m[capability := rest]
  {
    var l := m[capability];
    if ids == [] {
      KeepAll(l);
      assert Named(ids) - {""} == {};
    } else {
      var init, last := ids[..|ids| - 1], ids[|ids| - 1];
      RevokeEachIs(m, capability, init);
      assert Named(ids) == Named(init) + {last} by { assert ids == init + [last]; }
      var some := Named(init) - {""};
      if last == "" {
        assert Named(ids) - {""} == some;
      } else {
        assert Named(ids) - {""} == some + {last};
        KeepTwice(l, some, {last});
        RevokeTwice(m, capability, Keep(l, some), last);
      }
    }
  }

  /** A single revocation after others have left `before` of the list. */
  lemma RevokeTwice(m: Allowed, capability: string, before: seq<Id>, id: Id)
    requires capability != "" && capability in m && id != ""
    ensures var rest := Keep(before, {id});
            var m' := if before == [] && m[capability] != [] then m - {capability} else m[capability := before];
            RevokeOne(m', capability, id)
            == if rest == [] && (m[capability] != [] || before != []) then m - {capability} else m[capability := rest]
  {
    KeepMembers(before, {id});
  }

  /**
   * A batch revocation equals its single revocations, except that it also
   * drops a capability whose list was empty before, and honours an empty name.
   */
  lemma RevokeBatchIff(m: Allowed, capability: string, ids: seq<Id>)
    requires capability != ""
    ensures RevokeMany(m, capability, ids) == RevokeEach(m, capability, ids)
            <==> capability !in m || (m[capability] != [] && !("" in ids && "" in m[capability]))
  {
    if capability !in m {
      RevokeAbsent(m, capability, ids);
    } else {
      var l := m[capability];
      RevokeEachIs(m, capability, ids);
      DropKeysIsKeep(l, ids);
      KeepMembers(l, Named(ids));
      KeepMembers(l, Named(ids) - {""});
      if "" in ids && "" in l {
        DifferBy(m, capability, Keep(l, Named(ids)), Keep(l, Named(ids) - {""}), "");
      } else {
        KeepSame(l, Named(ids), Named(ids) - {""});
      }
    }
  }

  lemma DifferBy(m: Allowed, capability: string, a: seq<Id>, b: seq<Id>, id: Id)
    requires capability in m && id !in a && id in b
    ensures (if a == [] then m - {capability} else m[capability := a])
            != if b == [] && m[capability] != [] then m - {capability} else m[capability := b]
  {
    var x := if a == [] then m - {capability} else m[capability := a];
    assert KeysOf(x, capability) == a;
    assert KeysOf(m[capability := b], capability) == b;
  }

  lemma {:induction false} RevokeAbsent(m: Allowed, capability: string, ids: seq<Id>)
    requires capability !in m
    ensures RevokeEach(m, capability, ids) == m
  {
    if ids != [] {
      RevokeAbsent(m, capability, ids[..|ids| - 1]);
    }
  }

  predicate HasCapability(m: Allowed, capability: string, id: Id) {
    "*" in KeysOf(m, capability) || id in KeysOf(m, capability)
  }

  // --------------------------------------------------------------------- the code

  class Controller {
    var allowed: Allowed

    constructor (allowed: Allowed)
      ensures this.allowed == allowed
    {
      this.allowed := allowed;
    }

    method Grant(capability: string, id: Id) returns (r: Result<(), string>)
      modifies this
      ensures r.Ok? <==> capability != "" && id != ""
      ensures allowed == GrantOne(old(allowed), capability, id)
    {
      if capability == "" {
        return Err("Capability cannot be empty");
      }
      if id == "" {
        return Err("Key ID cannot be empty");
      }
      var entry := if capability in allowed then allowed[capability] else [];
      if id !in entry {
        entry := entry + [id];
      }
      allowed := allowed[capability := entry];
      return Ok(());
    }

    method GrantMultiple(capability: string, ids: seq<Id>) returns (r: Result<(), string>)
      modifies this
      ensures r.Ok? <==> capability != ""
      ensures allowed == GrantMany(old(allowed), capability, ids)
    {
      if capability == "" {
        return Err("Capability cannot be empty");
      }
      var keys := if capability in allowed then allowed[capability] else [];
      for i := 0 to |ids|
        invariant keys == AddKeys(KeysOf(allowed, capability), ids[..i])
        invariant allowed == old(allowed)
      {
        assert ids[..i + 1][..i] == ids[..i];
        if ids[i] != "" && ids[i] !in keys {
          keys := keys + [ids[i]];
        }
      }
      assert ids[..|ids|] == ids;
      allowed := allowed[capability := keys];
      return Ok(());
    }

    method Revoke(capability: string, id: Id) returns (r: Result<(), string>)
      modifies this
      ensures r.Ok? <==> capability != "" && id != ""
      ensures allowed == RevokeOne(old(allowed), capability, id)
    {
      if capability == "" {
        return Err("Capability cannot be empty");
      }
      if id == "" {
        return Err("Key ID cannot be empty");
      }
      if capability in allowed {
        var keys := Keep(allowed[capability], {id});
        if |keys| < |allowed[capability]| && keys == [] {
          allowed := allowed - {capability};
        } else {
          allowed := allowed[capability := keys];
        }
      }
      return Ok(());
    }

    method RevokeMultiple(capability: string, ids: seq<Id>) returns (r: Result<(), string>)
      modifies this
      ensures r.Ok? <==> capability != ""
      ensures allowed == RevokeMany(old(allowed), capability, ids)
    {
      if capability == "" {
        return Err("Capability cannot be empty");
      }
      if capability in allowed {
        var keys := allowed[capability];
        for i := 0 to |ids|
          invariant keys == DropKeys(old(allowed)[capability], ids[..i])
          invariant allowed == old(allowed)
        {
          assert ids[..i + 1][..i] == ids[..i];
          keys := Keep(keys, {ids[i]});
        }
        assert ids[..|ids|] == ids;
        allowed := if keys == [] then allowed - {capability} else allowed[capability := keys];
      }
      return Ok(());
    }

    /** Write is looked at first, then admin; every acceptance also needs the signature. */
    method CanAppend(id: Id, verified: bool) returns (ok: bool)
      ensures ok <==> verified && (HasCapability(allowed, "write", id) || HasCapability(allowed, "admin", id))
    {
      if "write" in allowed {
        var writers := allowed["write"];
        if "*" in writers {
          return verified;
        }
        if id in writers {
          return verified;
        }
      }
      if "admin" in allowed && ("*" in allowed["admin"] || id in allowed["admin"]) {
        return verified;
      }
      return false;
    }
  }
}
