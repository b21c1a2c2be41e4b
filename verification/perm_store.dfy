/** The permission store: `rbac_add_permission` and `rbac_remove_permission`,
    with the global `next_perm_id` counter. */
module PermStore {
  import opened RbacState
  import opened Lookup

  /** `rbac_add_permission`. On success the new permission takes the current
      counter value as its id, starts with ref 1, is appended at the tail, and
      the counter moves on by one. `allocFails` stands for `kzalloc` returning
      NULL: then nothing changes, not even the counter. The C function returns
      0, not the id. */
  function AddPermission(db: Db, acc: Acceptability, op: Operation, obj: Object, allocFails: bool): (r: Outcome)
    ensures allocFails ==> r == Outcome(db, Err(ENOMEM))
    ensures !allocFails ==>
      && r.status == Ok
      && r.db.roles == db.roles
      && r.db.nextPermId == db.nextPermId + 1
      && |r.db.perms| == |db.perms| + 1
      && r.db.perms[..|db.perms|] == db.perms
      && r.db.perms[|db.perms|] == Permission(db.nextPermId, acc, op, obj, 1)
  {
    if allocFails then Outcome(db, Err(ENOMEM))
    else
      var perms' := db.perms + [Permission(db.nextPermId, acc, op, obj, 1)];
      assert perms'[..|db.perms|] == db.perms;
      Outcome(db.(perms := perms', nextPermId := db.nextPermId + 1), Ok)
  }

  /** `rbac_remove_permission`. Fails with -EINVAL when the id is negative or
      absent, or when the permission's ref is not 1; otherwise unlinks exactly
      that permission. The counter is never touched, so its id is not issued
      again. */
  function RemovePermission(db: Db, id: PermId): (r: Outcome)
    ensures r.status.Err? ==> r == Outcome(db, Err(EINVAL))
    ensures id < 0 || !HasPerm(db.perms, id) ==> r.status.Err?
    ensures r.status == Ok <==> id >= 0 && exists i :: FirstWithId(db.perms, id, i) && db.perms[i].ref == 1
    ensures forall i :: id >= 0 && FirstWithId(db.perms, id, i) && db.perms[i].ref == 1 ==>
      r == Outcome(db.(perms := Unlink(db.perms, i)), Ok)
    ensures r.db.roles == db.roles && r.db.nextPermId == db.nextPermId
  {
    match FindPerm(db.perms, id)
    case None => Outcome(db, Err(EINVAL))
    case Some(i) =>
      if db.perms[i].ref != 1 then Outcome(db, Err(EINVAL))
      else Outcome(db.(perms := Unlink(db.perms, i)), Ok)
  }
}
