/** The consistency invariants of the store and their preservation by every
    operation.

    `Valid` is what every reachable state satisfies: unique role names,
    strictly increasing permission ids below the counter, no slot naming a
    missing permission, and every permission's ref at least 1 plus the slots
    holding it. `Exact` is the stronger balance ref == 1 + slots; every
    operation keeps it except `rbac_remove_role` on a role with bound slots. */
module Invariants {
  import opened RbacState
  import opened Lookup
  import opened Counting
  import opened RoleStore
  import opened PermStore
  import opened Binding

  /** Permission ids strictly increase along the list. */
  predicate IdsIncreasing(perms: seq<Permission>) {
    forall i, j :: 0 <= i < j < |perms| ==> perms[i].id < perms[j].id
  }

  /** Every stored id was issued: it lies below the counter and is not negative. */
  predicate IdsIssued(db: Db) {
    forall i :: 0 <= i < |db.perms| ==> 0 <= db.perms[i].id < db.nextPermId
  }

  /** Every occupied slot names a permission still in the store. */
  predicate NoDangling(db: Db) {
    forall k, j :: 0 <= k < |db.roles| && 0 <= j < RoleMaxPerms && db.roles[k].perms[j].Some? ==>
      HasPerm(db.perms, db.roles[k].perms[j].value)
  }

  /** Each permission's ref covers its own holding plus every slot naming it. */
  predicate RefsCover(db: Db) {
    forall i :: 0 <= i < |db.perms| ==> db.perms[i].ref >= 1 + RoleCount(db.roles, db.perms[i].id)
  }

  /** Each permission's ref is exactly its own holding plus its slots. */
  predicate Exact(db: Db) {
    forall i :: 0 <= i < |db.perms| ==> db.perms[i].ref == 1 + RoleCount(db.roles, db.perms[i].id)
  }

  /** Nothing in this store takes a reference on a role. */
  predicate RolesUnshared(roles: seq<Role>) {
    forall k :: 0 <= k < |roles| ==> roles[k].ref == 1
  }

  predicate Valid(db: Db) {
    && db.nextPermId >= 0
    && UniqueNames(db.roles)
    && RolesUnshared(db.roles)
    && IdsIncreasing(db.perms)
    && IdsIssued(db)
    && NoDangling(db)
    && RefsCover(db)
  }

  lemma InitValid()
    ensures Valid(Init) && Exact(Init)
  {
  }

  /** In a valid store the lookup by id finds the one permission with that id. */
  lemma FindPermValid(db: Db, id: PermId, i: int)
    requires Valid(db)
    requires 0 <= i < |db.perms| && db.perms[i].id == id
    ensures FirstWithId(db.perms, id, i)
    ensures FindPerm(db.perms, id) == Some(i)
  {
  }

  /** An id no permission carries is held by no slot. */
  lemma AbsentIdUnheld(db: Db, id: PermId)
    requires NoDangling(db)
    requires !HasPerm(db.perms, id)
    ensures RoleCount(db.roles, id) == 0
  {
    RoleCountZero(db.roles, id);
  }

  lemma AddRolePreserves(db: Db, name: string, allocFails: bool)
    requires Valid(db)
    ensures Valid(AddRole(db, name, allocFails).db)
    ensures Exact(db) ==> Exact(AddRole(db, name, allocFails).db)
  {
    var r := AddRole(db, name, allocFails);
    if r.status == Ok {
      var role := r.db.roles[|db.roles|];
      assert r.db.roles == db.roles + [role];
      CountInZero(role.perms, 0);
      forall x: PermId
        ensures RoleCount(r.db.roles, x) == RoleCount(db.roles, x)
      {
        RoleCountAppend(db.roles, role, x);
        CountInZero(role.perms, x);
      }
      assert NoDangling(r.db) by {
        forall k, j | 0 <= k < |r.db.roles| && 0 <= j < RoleMaxPerms && r.db.roles[k].perms[j].Some?
          ensures HasPerm(r.db.perms, r.db.roles[k].perms[j].value)
        {
          assert k < |db.roles|;
          assert r.db.roles[k] == db.roles[k];
        }
      }
    }
  }

  lemma RemoveRolePreserves(db: Db, name: string)
    requires Valid(db)
    ensures Valid(RemoveRole(db, name).db)
  {
    var r := RemoveRole(db, name);
    if r.status == Ok {
      var k := FindRole(db.roles, name).value;
      assert r.db.roles == Unlink(db.roles, k);
      forall x: PermId
        ensures RoleCount(r.db.roles, x) <= RoleCount(db.roles, x)
      {
        RoleCountUnlink(db.roles, k, x);
      }
      assert NoDangling(r.db) by {
        forall k', j | 0 <= k' < |r.db.roles| && 0 <= j < RoleMaxPerms && r.db.roles[k'].perms[j].Some?
          ensures HasPerm(r.db.perms, r.db.roles[k'].perms[j].value)
        {
          if k' < k {
            assert r.db.roles[k'] == db.roles[k'];
          } else {
            assert r.db.roles[k'] == db.roles[k' + 1];
          }
        }
      }
    }
  }

  /** Removing a role whose slots are all empty keeps the balance exact. */
  lemma RemoveUnboundRoleKeepsExact(db: Db, name: string)
    requires Valid(db) && Exact(db)
    requires forall k :: FirstNamed(db.roles, name, k) ==>
      forall j :: 0 <= j < RoleMaxPerms ==> db.roles[k].perms[j].None?
    ensures Exact(RemoveRole(db, name).db)
  {
    var r := RemoveRole(db, name);
    if r.status == Ok {
      var k := FindRole(db.roles, name).value;
      forall x: PermId
        ensures RoleCount(r.db.roles, x) == RoleCount(db.roles, x)
      {
        RoleCountUnlink(db.roles, k, x);
        CountInZero(db.roles[k].perms, x);
      }
    }
  }

  /** Removing a role that holds permission `id` in a slot leaves that
      permission with more references than slots naming it: the balance is
      lost. */
  lemma RemoveBoundRoleLeaks(db: Db, name: string, k: int, j: int, i: int)
    requires Valid(db) && Exact(db)
    requires FirstNamed(db.roles, name, k) && 0 <= j < RoleMaxPerms && db.roles[k].perms[j].Some?
    requires 0 <= i < |db.perms| && db.perms[i].id == db.roles[k].perms[j].value
    ensures RemoveRole(db, name).status == Ok
    ensures Leaking(RemoveRole(db, name).db, db.perms[i].id)
    ensures !Exact(RemoveRole(db, name).db)
  {
    var id := db.perms[i].id;
    var r := RemoveRole(db, name);
    RoleCountUnlink(db.roles, k, id);
    CountInZero(db.roles[k].perms, id);
    assert r.db.perms[i].ref > 1 + RoleCount(r.db.roles, id);
  }

  /** A permission whose ref exceeds 1 plus the slots naming it. */
  predicate Leaking(db: Db, id: PermId) {
    exists i :: 0 <= i < |db.perms| && db.perms[i].id == id && db.perms[i].ref > 1 + RoleCount(db.roles, id)
  }

  lemma AddPermissionPreserves(db: Db, acc: Acceptability, op: Operation, obj: Object, allocFails: bool)
    requires Valid(db)
    ensures Valid(AddPermission(db, acc, op, obj, allocFails).db)
    ensures Exact(db) ==> Exact(AddPermission(db, acc, op, obj, allocFails).db)
    ensures !allocFails ==> !HasPerm(db.perms, db.nextPermId)
  {
    var r := AddPermission(db, acc, op, obj, allocFails);
    if !allocFails {
      assert !HasPerm(db.perms, db.nextPermId);
      AbsentIdUnheld(db, db.nextPermId);
      assert forall i :: 0 <= i < |db.perms| ==> r.db.perms[i] == db.perms[i];
      assert NoDangling(r.db) by {
        forall k, j | 0 <= k < |r.db.roles| && 0 <= j < RoleMaxPerms && r.db.roles[k].perms[j].Some?
          ensures HasPerm(r.db.perms, r.db.roles[k].perms[j].value)
        {
          var x := db.roles[k].perms[j].value;
          var i :| 0 <= i < |db.perms| && db.perms[i].id == x;
          assert r.db.perms[i].id == x;
        }
      }
    }
  }

  lemma RemovePermissionPreserves(db: Db, id: PermId)
    requires Valid(db)
    ensures Valid(RemovePermission(db, id).db)
    ensures Exact(db) ==> Exact(RemovePermission(db, id).db)
  {
    var r := RemovePermission(db, id);
    if r.status == Ok {
      var i := FindPerm(db.perms, id).value;
      assert r.db.perms == Unlink(db.perms, i);
      RoleCountZero(db.roles, id);
      assert NoDangling(r.db) by {
        forall k, j | 0 <= k < |r.db.roles| && 0 <= j < RoleMaxPerms && r.db.roles[k].perms[j].Some?
          ensures HasPerm(r.db.perms, r.db.roles[k].perms[j].value)
        {
          var x := db.roles[k].perms[j].value;
          var m :| 0 <= m < |db.perms| && db.perms[m].id == x;
          assert m != i;
          if m < i {
            assert r.db.perms[m].id == x;
          } else {
            assert r.db.perms[m - 1].id == x;
          }
        }
      }
    }
  }

  /** A bind adds one slot naming `id` and one reference to it, nothing else. */
  lemma BindCounts(db: Db, id: PermId, name: string, k: int, j: int, x: PermId)
    requires 0 <= k < |db.roles| && FirstEmptyAt(db.roles[k].perms, j)
    ensures RoleCount(db.roles[k := SetSlot(db.roles[k], j, Some(id))], x) ==
      RoleCount(db.roles, x) + (if x == id then 1 else 0)
  {
    RoleCountUpdate(db.roles, k, SetSlot(db.roles[k], j, Some(id)), x);
    CountInUpdate(db.roles[k].perms, j, Some(id), x);
  }

  lemma BindPreserves(db: Db, id: PermId, name: string)
    requires Valid(db)
    ensures Valid(Bind(db, id, name).db)
    ensures Exact(db) ==> Exact(Bind(db, id, name).db)
  {
    var r := Bind(db, id, name);
    if r.status == Ok {
      var i := FindPerm(db.perms, id).value;
      var k := FindRole(db.roles, name).value;
      var j := FirstEmpty(db.roles[k].perms).value;
      assert r.db.roles == db.roles[k := SetSlot(db.roles[k], j, Some(id))];
      assert r.db.perms == db.perms[i := AdjustRef(db.perms[i], 1)];
      forall x: PermId
        ensures RoleCount(r.db.roles, x) == RoleCount(db.roles, x) + (if x == id then 1 else 0)
      {
        BindCounts(db, id, name, k, j, x);
      }
      assert NoDangling(r.db) by {
        forall k', j' | 0 <= k' < |r.db.roles| && 0 <= j' < RoleMaxPerms && r.db.roles[k'].perms[j'].Some?
          ensures HasPerm(r.db.perms, r.db.roles[k'].perms[j'].value)
        {
          var x := r.db.roles[k'].perms[j'].value;
          if k' == k && j' == j {
            assert r.db.perms[i].id == x;
          } else {
            assert r.db.roles[k'].perms[j'] == db.roles[k'].perms[j'];
            var m :| 0 <= m < |db.perms| && db.perms[m].id == x;
            assert r.db.perms[m].id == x;
          }
        }
      }
    }
  }

  /** An unbind drops one slot naming `id` and, when `id` is stored, one
      reference to it. */
  lemma UnbindCounts(db: Db, rid: int, k: int, x: PermId)
    requires 0 <= rid < RoleMaxPerms && 0 <= k < |db.roles| && db.roles[k].perms[rid].Some?
    ensures RoleCount(db.roles[k := SetSlot(db.roles[k], rid, None)], x) ==
      RoleCount(db.roles, x) - (if x == db.roles[k].perms[rid].value then 1 else 0)
  {
    RoleCountUpdate(db.roles, k, SetSlot(db.roles[k], rid, None), x);
    CountInUpdate(db.roles[k].perms, rid, None, x);
  }

  lemma UnbindPreserves(db: Db, rid: int, name: string)
    requires HasRole(db.roles, name) ==> 0 <= rid < RoleMaxPerms
    requires Valid(db)
    ensures Valid(Unbind(db, rid, name).db)
    ensures Exact(db) ==> Exact(Unbind(db, rid, name).db)
  {
    var r := Unbind(db, rid, name);
    if r.status == Ok {
      var k := FindRole(db.roles, name).value;
      var id := db.roles[k].perms[rid].value;
      var i := IndexOfPerm(db.perms, id).value;
      assert r.db.roles == db.roles[k := SetSlot(db.roles[k], rid, None)];
      assert r.db.perms == db.perms[i := AdjustRef(db.perms[i], -1)];
      forall x: PermId
        ensures RoleCount(r.db.roles, x) == RoleCount(db.roles, x) - (if x == id then 1 else 0)
      {
        UnbindCounts(db, rid, k, x);
      }
      assert NoDangling(r.db) by {
        forall k', j' | 0 <= k' < |r.db.roles| && 0 <= j' < RoleMaxPerms && r.db.roles[k'].perms[j'].Some?
          ensures HasPerm(r.db.perms, r.db.roles[k'].perms[j'].value)
        {
          var x := r.db.roles[k'].perms[j'].value;
          assert r.db.roles[k'].perms[j'] == db.roles[k'].perms[j'];
          var m :| 0 <= m < |db.perms| && db.perms[m].id == x;
          assert r.db.perms[m].id == x;
        }
      }
    }
  }

  /** A leaking permission cannot be removed: its ref is above 1. */
  lemma LeakingNotRemovable(db: Db, id: PermId)
    requires Valid(db) && Leaking(db, id)
    ensures RemovePermission(db, id).status == Err(EINVAL)
  {
    var i :| 0 <= i < |db.perms| && db.perms[i].id == id && db.perms[i].ref > 1 + RoleCount(db.roles, id);
    FindPermValid(db, id, i);
  }

  lemma AddRoleKeepsLeak(db: Db, name: string, allocFails: bool, id: PermId)
    requires Valid(db) && Leaking(db, id)
    ensures Leaking(AddRole(db, name, allocFails).db, id)
  {
    var r := AddRole(db, name, allocFails);
    if r.status == Ok {
      var role := r.db.roles[|db.roles|];
      assert r.db.roles == db.roles + [role];
      RoleCountAppend(db.roles, role, id);
      CountInZero(role.perms, id);
    }
  }

  lemma RemoveRoleKeepsLeak(db: Db, name: string, id: PermId)
    requires Valid(db) && Leaking(db, id)
    ensures Leaking(RemoveRole(db, name).db, id)
  {
    var r := RemoveRole(db, name);
    if r.status == Ok {
      RoleCountUnlink(db.roles, FindRole(db.roles, name).value, id);
    }
  }

  lemma AddPermissionKeepsLeak(db: Db, acc: Acceptability, op: Operation, obj: Object, allocFails: bool, id: PermId)
    requires Valid(db) && Leaking(db, id)
    ensures Leaking(AddPermission(db, acc, op, obj, allocFails).db, id)
  {
    var r := AddPermission(db, acc, op, obj, allocFails);
    var i :| 0 <= i < |db.perms| && db.perms[i].id == id && db.perms[i].ref > 1 + RoleCount(db.roles, id);
    if !allocFails {
      assert r.db.perms[i] == db.perms[i];
    }
  }

  lemma RemovePermissionKeepsLeak(db: Db, x: PermId, id: PermId)
    requires Valid(db) && Leaking(db, id)
    ensures Leaking(RemovePermission(db, x).db, id)
  {
    var r := RemovePermission(db, x);
    var i :| 0 <= i < |db.perms| && db.perms[i].id == id && db.perms[i].ref > 1 + RoleCount(db.roles, id);
    if r.status == Ok {
      var m := FindPerm(db.perms, x).value;
      assert m != i;
      if i < m {
        assert r.db.perms[i] == db.perms[i];
      } else {
        assert r.db.perms[i - 1] == db.perms[i];
      }
    }
  }

  lemma BindKeepsLeak(db: Db, x: PermId, name: string, id: PermId)
    requires Valid(db) && Leaking(db, id)
    ensures Leaking(Bind(db, x, name).db, id)
  {
    var r := Bind(db, x, name);
    var i :| 0 <= i < |db.perms| && db.perms[i].id == id && db.perms[i].ref > 1 + RoleCount(db.roles, id);
    if r.status == Ok {
      var m := FindPerm(db.perms, x).value;
      var k := FindRole(db.roles, name).value;
      var j := FirstEmpty(db.roles[k].perms).value;
      BindCounts(db, x, name, k, j, id);
      assert r.db.perms[i].ref == db.perms[i].ref + (if id == x then 1 else 0);
    }
  }

  lemma UnbindKeepsLeak(db: Db, rid: int, name: string, id: PermId)
    requires HasRole(db.roles, name) ==> 0 <= rid < RoleMaxPerms
    requires Valid(db) && Leaking(db, id)
    ensures Leaking(Unbind(db, rid, name).db, id)
  {
    var r := Unbind(db, rid, name);
    var i :| 0 <= i < |db.perms| && db.perms[i].id == id && db.perms[i].ref > 1 + RoleCount(db.roles, id);
    if r.status == Ok {
      var k := FindRole(db.roles, name).value;
      var x := db.roles[k].perms[rid].value;
      var m := IndexOfPerm(db.perms, x).value;
      UnbindCounts(db, rid, k, id);
      assert r.db.perms[i].ref == db.perms[i].ref - (if id == x then 1 else 0);
    }
  }

  /** In a valid store every role has ref 1, so removing a role succeeds
      exactly when a role has the name. */
  lemma RemoveRoleValid(db: Db, name: string)
    requires Valid(db)
    ensures RemoveRole(db, name).status == Ok <==> HasRole(db.roles, name)
  {
    if HasRole(db.roles, name) {
      var k := FindRole(db.roles, name).value;
      assert FirstNamed(db.roles, name, k) && db.roles[k].ref == 1;
    }
  }

  /** With exact counts, a permission can be removed exactly when it is
      stored and no slot of any role holds it. */
  lemma RemovePermissionExact(db: Db, id: PermId)
    requires Valid(db) && Exact(db)
    ensures RemovePermission(db, id).status == Ok <==> HasPerm(db.perms, id) && RoleCount(db.roles, id) == 0
  {
    if HasPerm(db.perms, id) {
      var i :| 0 <= i < |db.perms| && db.perms[i].id == id;
      FindPermValid(db, id, i);
    }
  }
}
