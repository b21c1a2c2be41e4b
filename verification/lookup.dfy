/** The linear list walks of the store: `rbac_get_role_by_name`,
    `rbac_get_perm_by_id`, and the first-fit scan over a role's slot table. */
module Lookup {
  import opened RbacState

  /** The walk shared by every lookup: the first position at or after `from`
      whose element satisfies `p`. */
  function FirstIndex<T>(s: seq<T>, p: T -> bool, from: nat): (r: Option<nat>)
    requires from <= |s|
    ensures r.Some? ==> from <= r.value < |s| && p(s[r.value])
    ensures r.Some? ==> forall j :: from <= j < r.value ==> !p(s[j])
    ensures r.None? ==> forall j :: from <= j < |s| ==> !p(s[j])
    decreases |s| - from
  {
    if from == |s| then None
    else if p(s[from]) then Some(from)
    else FirstIndex(s, p, from + 1)
  }

  /** `rbac_get_role_by_name`: the first role whose name matches exactly. */
  function FindRole(roles: seq<Role>, name: string): (r: Option<nat>)
    ensures r.Some? ==> FirstNamed(roles, name, r.value)
    ensures r.None? <==> !HasRole(roles, name)
  {
    FirstIndex(roles, (role: Role) => role.name == name, 0)
  }

  /** The first permission with this id, without any guard on the id. */
  function IndexOfPerm(perms: seq<Permission>, id: PermId): (r: Option<nat>)
    ensures r.Some? ==> FirstWithId(perms, id, r.value)
    ensures r.None? <==> !HasPerm(perms, id)
  {
    FirstIndex(perms, (p: Permission) => p.id == id, 0)
  }

  /** `rbac_get_perm_by_id`: negative ids are rejected before the walk. */
  function FindPerm(perms: seq<Permission>, id: PermId): (r: Option<nat>)
    ensures id < 0 ==> r.None?
    ensures r.Some? ==> FirstWithId(perms, id, r.value)
    ensures r.None? <==> (id < 0 || !HasPerm(perms, id))
  {
    if id < 0 then None else IndexOfPerm(perms, id)
  }

  /** The first-fit scan of `rbac_bind_permission`: the lowest empty slot. */
  function FirstEmpty(slots: seq<Slot>): (r: Option<nat>)
    ensures r.Some? ==> FirstEmptyAt(slots, r.value)
    ensures r.None? <==> !HasEmpty(slots)
  {
    FirstIndex(slots, (s: Slot) => s.None?, 0)
  }

  /** The first match of a walk is unique: any two first matches coincide. */
  lemma FirstNamedUnique(roles: seq<Role>, name: string, k1: int, k2: int)
    requires FirstNamed(roles, name, k1) && FirstNamed(roles, name, k2)
    ensures k1 == k2
  {
  }
}
