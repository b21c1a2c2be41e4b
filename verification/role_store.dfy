/** The role store: `rbac_add_role` and `rbac_remove_role`. */
module RoleStore {
  import opened RbacState
  import opened Lookup

  /** A role as `rbac_add_role` initialises it: all slots NULL, ref 1. */
  function NewRole(name: string): (r: Role)
    ensures r.name == name && r.ref == 1
    ensures forall j :: 0 <= j < |r.perms| ==> r.perms[j].None?
  {
    Role(name, EmptySlots(), 1)
  }

  /** `rbac_add_role`. A name already present fails with -EINVAL before any
      allocation is attempted; `allocFails` stands for `kzalloc` returning
      NULL. There is no length check on the name. */
  function AddRole(db: Db, name: string, allocFails: bool): (r: Outcome)
    ensures HasRole(db.roles, name) ==> r == Outcome(db, Err(EINVAL))
    ensures !HasRole(db.roles, name) && allocFails ==> r == Outcome(db, Err(ENOMEM))
    ensures r.status == Ok <==> !HasRole(db.roles, name) && !allocFails
    ensures r.status == Ok ==>
      && r.db.perms == db.perms
      && r.db.nextPermId == db.nextPermId
      && |r.db.roles| == |db.roles| + 1
      && r.db.roles[..|db.roles|] == db.roles
      && r.db.roles[|db.roles|].name == name
      && r.db.roles[|db.roles|].ref == 1
      && (forall j :: 0 <= j < RoleMaxPerms ==> r.db.roles[|db.roles|].perms[j].None?)
    ensures UniqueNames(db.roles) ==> UniqueNames(r.db.roles)
  {
    if FindRole(db.roles, name).Some? then Outcome(db, Err(EINVAL))
    else if allocFails then Outcome(db, Err(ENOMEM))
    else
      var roles' := db.roles + [NewRole(name)];
      assert roles'[..|db.roles|] == db.roles;
      Outcome(db.(roles := roles'), Ok)
  }

  /** Role names are pairwise distinct. */
  predicate UniqueNames(roles: seq<Role>) {
    forall i, j :: 0 <= i < j < |roles| ==> roles[i].name != roles[j].name
  }

  /** `rbac_remove_role`. Fails with -EINVAL when no role has the name or the
      role's ref is not 1; otherwise unlinks exactly that role. The
      permissions held in its slots keep their reference counts. */
  function RemoveRole(db: Db, name: string): (r: Outcome)
    ensures r.status.Err? ==> r == Outcome(db, Err(EINVAL))
    ensures !HasRole(db.roles, name) ==> r.status.Err?
    ensures r.status == Ok <==> exists k :: FirstNamed(db.roles, name, k) && db.roles[k].ref == 1
    ensures forall k :: FirstNamed(db.roles, name, k) && db.roles[k].ref == 1 ==>
      r == Outcome(db.(roles := Unlink(db.roles, k)), Ok)
    ensures UniqueNames(db.roles) && r.status == Ok ==> !HasRole(r.db.roles, name)
    ensures UniqueNames(db.roles) ==> UniqueNames(r.db.roles)
  {
    match FindRole(db.roles, name)
    case None => Outcome(db, Err(EINVAL))
    case Some(k) =>
      if db.roles[k].ref != 1 then Outcome(db, Err(EINVAL))
      else Outcome(db.(roles := Unlink(db.roles, k)), Ok)
  }
}
