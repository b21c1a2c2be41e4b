/** The in-memory state of the RBAC policy store: permissions, roles with their
    fixed table of permission slots, and the global permission id counter.

    The intrusive `list_head` lists become sequences kept in list order, and a
    slot's pointer to a permission becomes that permission's id. */
module RbacState {

  datatype Option<+T> = None | Some(value: T)

  type Pos = n: nat | n > 0 witness 1

  /** `ROLE_MAX_PERMS`: the capacity of a role's slot table. Its value lives in
      rbac.h, which is not part of this model, so it is left abstract: every
      result holds for any positive capacity. */
  const RoleMaxPerms: Pos

  /** A permission id, the C `int` of `struct rbac_permission`. */
  type PermId = int

  /** A slot either holds (the id of) a bound permission or is empty (NULL). */
  type Slot = Option<PermId>

  /** A role's slot table always has exactly `RoleMaxPerms` entries. */
  type Slots = s: seq<Slot> | |s| == RoleMaxPerms witness seq(RoleMaxPerms, _ => None)

  /** A slot index that the C code may dereference without overrunning the table. */
  type SlotIndex = i: int | 0 <= i < RoleMaxPerms witness 0

  datatype Acceptability = Accept | Deny

  datatype Operation = Read | Write

  /** `rbac_obj_t`: an object path, or None for "all objects". */
  type Object = Option<string>

  datatype Permission = Permission(id: PermId, acc: Acceptability, op: Operation, obj: Object, ref: int)

  datatype Role = Role(name: string, perms: Slots, ref: int)

  /** The whole store: `rbac_roles`, `rbac_perms` and `next_perm_id`. */
  datatype Db = Db(roles: seq<Role>, perms: seq<Permission>, nextPermId: int)

  /** The store as it is before any administrative command. */
  const Init: Db := Db([], [], 0)

  /** The kernel error numbers the store returns (values of errno-base.h). */
  datatype Errno = EINVAL | ENOMEM {
    function Value(): int {
      match this
      case EINVAL => 22
      case ENOMEM => 12
    }
  }

  /** What the C function returns: 0, or the negated error number. */
  datatype Status = Ok | Err(errno: Errno)

  /** The state after an operation together with the operation's status. */
  datatype Outcome = Outcome(db: Db, status: Status)

  /** A fresh slot table: every slot NULL. */
  function EmptySlots(): (s: Slots)
    ensures forall j :: 0 <= j < |s| ==> s[j].None?
  {
    seq(RoleMaxPerms, (_: int) => None)
  }

  predicate HasRole(roles: seq<Role>, name: string) {
    exists k :: 0 <= k < |roles| && roles[k].name == name
  }

  predicate HasPerm(perms: seq<Permission>, id: PermId) {
    exists i :: 0 <= i < |perms| && perms[i].id == id
  }

  /** `k` is the position the list walk of `rbac_get_role_by_name` stops at. */
  predicate FirstNamed(roles: seq<Role>, name: string, k: int) {
    && 0 <= k < |roles|
    && roles[k].name == name
    && forall j :: 0 <= j < k ==> roles[j].name != name
  }

  /** `i` is the position the list walk of `rbac_get_perm_by_id` stops at. */
  predicate FirstWithId(perms: seq<Permission>, id: PermId, i: int) {
    && 0 <= i < |perms|
    && perms[i].id == id
    && forall j :: 0 <= j < i ==> perms[j].id != id
  }

  /** `j` is the lowest-index empty slot. */
  predicate FirstEmptyAt(slots: seq<Slot>, j: int) {
    && 0 <= j < |slots|
    && slots[j].None?
    && forall i :: 0 <= i < j ==> slots[i].Some?
  }

  predicate HasEmpty(slots: seq<Slot>) {
    exists j :: 0 <= j < |slots| && slots[j].None?
  }

  /** The sequence with the element at `k` unlinked (`list_del`). */
  function Unlink<T>(s: seq<T>, k: int): (r: seq<T>)
    requires 0 <= k < |s|
    ensures |r| == |s| - 1
    ensures forall j :: 0 <= j < k ==> r[j] == s[j]
    ensures forall j :: k <= j < |r| ==> r[j] == s[j + 1]
  {
    s[..k] + s[k + 1..]
  }
}
