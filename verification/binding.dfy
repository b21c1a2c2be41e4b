/** The binding engine: `rbac_bind_permission` and `rbac_unbind_permission`.
    Bind addresses a permission by id; unbind addresses a slot by its index. */
module Binding {
  import opened RbacState
  import opened Lookup

  /** The role with slot `j` set to `s`. */
  function SetSlot(role: Role, j: SlotIndex, s: Slot): (r: Role)
    ensures r.name == role.name && r.ref == role.ref
    ensures r.perms[j] == s
    ensures forall i :: 0 <= i < RoleMaxPerms && i != j ==> r.perms[i] == role.perms[i]
  {
    role.(perms := role.perms[j := s])
  }

  /** The permission with its reference count moved by `delta`. */
  function AdjustRef(p: Permission, delta: int): (r: Permission)
    ensures r.id == p.id && r.acc == p.acc && r.op == p.op && r.obj == p.obj
    ensures r.ref - p.ref == delta
  {
    p.(ref := p.ref + delta)
  }

  /** `rbac_bind_permission`. Fails with -EINVAL and no change when the
      permission id is negative or absent, when no role has the name, or when
      every slot of that role is occupied. Otherwise the permission goes into
      the lowest empty slot and its ref grows by one; nothing else changes. No
      check is made that the role already holds the permission. */
  function Bind(db: Db, id: PermId, name: string): (r: Outcome)
    ensures r.status.Err? ==> r == Outcome(db, Err(EINVAL))
    ensures id < 0 || !HasPerm(db.perms, id) ==> r.status.Err?
    ensures !HasRole(db.roles, name) ==> r.status.Err?
    ensures r.status == Ok <==>
      && id >= 0 && HasPerm(db.perms, id)
      && exists k :: FirstNamed(db.roles, name, k) && HasEmpty(db.roles[k].perms)
    ensures forall i, k, j ::
      && id >= 0 && FirstWithId(db.perms, id, i)
      && FirstNamed(db.roles, name, k) && FirstEmptyAt(db.roles[k].perms, j) ==>
      r == Outcome(Db(db.roles[k := SetSlot(db.roles[k], j, Some(id))],
                      db.perms[i := AdjustRef(db.perms[i], 1)],
                      db.nextPermId), Ok)
  {
    match FindPerm(db.perms, id)
    case None => Outcome(db, Err(EINVAL))
    case Some(i) =>
      match FindRole(db.roles, name)
      case None => Outcome(db, Err(EINVAL))
      case Some(k) =>
        match FirstEmpty(db.roles[k].perms)
        case None => Outcome(db, Err(EINVAL))
        case Some(j) =>
          Outcome(Db(db.roles[k := SetSlot(db.roles[k], j, Some(id))],
                     db.perms[i := AdjustRef(db.perms[i], 1)],
                     db.nextPermId), Ok)
  }

  /** `rbac_unbind_permission`. `rid` is a slot index, not a permission id.
      The role lookup comes first, so a missing role fails with -EINVAL and
      no change whatever `rid` is; once a role is found the C code indexes
      its table without a bounds check, hence the precondition. Fails with
      -EINVAL and no change when the slot is empty. Otherwise exactly that
      slot is cleared and the permission it pointed to loses one reference.
      A slot whose id matches no stored permission (a dangling pointer in C)
      is just cleared. */
  function Unbind(db: Db, rid: int, name: string): (r: Outcome)
    requires HasRole(db.roles, name) ==> 0 <= rid < RoleMaxPerms
    ensures r.status.Err? ==> r == Outcome(db, Err(EINVAL))
    ensures !HasRole(db.roles, name) ==> r == Outcome(db, Err(EINVAL))
    ensures r.status == Ok <==>
      exists k :: FirstNamed(db.roles, name, k) && 0 <= rid < RoleMaxPerms && db.roles[k].perms[rid].Some?
    ensures forall k :: FirstNamed(db.roles, name, k) && 0 <= rid < RoleMaxPerms && db.roles[k].perms[rid].Some? ==>
      && r.status == Ok
      && r.db.roles == db.roles[k := SetSlot(db.roles[k], rid, None)]
      && r.db.nextPermId == db.nextPermId
      && (forall i :: FirstWithId(db.perms, db.roles[k].perms[rid].value, i) ==>
            r.db.perms == db.perms[i := AdjustRef(db.perms[i], -1)])
      && (!HasPerm(db.perms, db.roles[k].perms[rid].value) ==> r.db.perms == db.perms)
  {
    match FindRole(db.roles, name)
    case None => Outcome(db, Err(EINVAL))
    case Some(k) =>
      match db.roles[k].perms[rid]
      case None => Outcome(db, Err(EINVAL))
      case Some(pid) =>
        var roles' := db.roles[k := SetSlot(db.roles[k], rid, None)];
        match IndexOfPerm(db.perms, pid)
        case None => Outcome(db.(roles := roles'), Ok)
        case Some(i) => Outcome(db.(roles := roles', perms := db.perms[i := AdjustRef(db.perms[i], -1)]), Ok)
  }
}
