# RBAC database of the Linux role-based access control LSM, in Dafny

This project models the in-kernel database behind the role-based access
control security module, `security/rbac/rbacdb.c`. The database keeps:

- a list of **roles**, each with a name, a fixed array of `ROLE_MAX_PERMS`
  permission slots and a reference count;
- a list of **permissions**, each with an id, an acceptability (accept or
  deny), an operation (read or write), an optional object path and a
  reference count;
- the counter `next_perm_id`, which hands out permission ids.

The model covers the two lookups, adding and removing roles and permissions,
binding a permission into a role's first free slot, unbinding a slot by
index, and the two text reports. The state is an immutable `Db` value and
each operation is a pure function from a `Db` to an `Outcome`: the new
database plus a status, either success or an errno.

- A slot holds the id of the permission it points at. The database
  invariant `Valid` makes that id resolve to exactly one listed permission.
- Reference counts are accounted for by `Counting.RoleCount`, the number of
  slots over all roles that hold a given id. `Valid` includes
  `ref >= 1 + RoleCount` for every permission. The stronger `Exact` says
  `ref == 1 + RoleCount`.
- Every operation except role removal keeps `Exact`. `rbac_remove_role`
  frees a role whatever its slots hold and does not drop the counts of the
  permissions it held. After that, those permissions are `Leaking`
  (`ref > 1 + RoleCount`), and no later sequence of commands can remove
  them. The model keeps this behaviour as written and proves its
  consequences.
- The reports are strings, and each comes with a reader:
  - The permission reader reads the whole report back. It recovers each
    permission's id, acceptability, operation and object text, in list
    order, provided no object contains a newline.
  - The role reader works one role block at a time. It recovers the role
    name and the ascending indices of the occupied slots, provided the name
    has no newline.
  - The roles report as a whole cannot be read back. A role name may itself
    contain the " with no permission bind" suffix or a `\tperm[` slot line,
    so different role lists can print the same report
    (`Reading.RoleNameIsAmbiguous`).
- A worked run (`Scenario`) goes through one small session:
  1. add a deny-write permission on `/etc/shadow`;
  2. add a role "auditor" and bind the permission to it;
  3. print both reports;
  4. try to remove the bound permission and fail;
  5. unbind the slot and remove the permission.

The model follows the code as written, including these points where it
departs from what the module's interface might suggest:

- `rbac_add_role` checks no name length.
- `rbac_add_permission` returns 0 rather than the new id.
- The roles report appends " with no permission bind" to every role. The
  slot loop never breaks, so the test that guards the suffix always passes.
- Every failure is `-EINVAL`, except `-ENOMEM` when allocation fails.

## Model

| member | source | states |
|---|---|---|
| Lookup.FindRole | Linux/security/rbac/rbacdb.c:58-67 | the result is the index of the first role with that name in list order; None exactly when no role has the name |
| Lookup.FindPerm | Linux/security/rbac/rbacdb.c:69-81 | a negative id finds nothing; otherwise the result is the first permission with that id, and None exactly when none has it |
| Lookup.FirstNamedUnique | Linux/security/rbac/rbacdb.c:58-67 | the first role with a given name is unique, so the lookup names one role |
| RoleStore.AddRole | Linux/security/rbac/rbacdb.c:83-112 | an existing name fails with -EINVAL and changes nothing, before any allocation; allocation failure gives -ENOMEM and no change; otherwise it succeeds iff neither happened, appends one role with that name, ref 1 and all slots empty, leaves permissions and the id counter alone, and keeps names unique |
| RoleStore.RemoveRole | Linux/security/rbac/rbacdb.c:114-137 | succeeds iff a role with that name exists and the first such role has ref 1; success removes exactly that role and keeps the others in order; failure is -EINVAL with nothing changed; with unique names the name is gone afterwards |
| PermStore.AddPermission | Linux/security/rbac/rbacdb.c:159-181 | allocation failure gives -ENOMEM with nothing changed and no id used; otherwise it returns 0, appends a permission with id `next_perm_id` and ref 1, and bumps the counter by one |
| PermStore.RemovePermission | Linux/security/rbac/rbacdb.c:183-204 | succeeds iff the id is non-negative, some permission has it and the first such one has ref 1; success unlinks exactly that permission and keeps the rest in order; failure is -EINVAL with nothing changed; roles and the id counter are untouched |
| Binding.Bind | Linux/security/rbac/rbacdb.c:220-249 | fails with -EINVAL and no change when the permission is missing, the role is missing or the role has no free slot; otherwise puts the id into the role's first empty slot and adds one to the permission's count, with no check for an existing binding |
| Binding.Unbind | Linux/security/rbac/rbacdb.c:251-272 | a missing role fails with -EINVAL and no change, whatever the slot index; for a present role and an in-range index, an empty slot fails with -EINVAL and no change, and otherwise that slot is emptied and the count of the permission it held drops by one |
| Info.GetPermsInfo | Linux/security/rbac/rbacdb.c:206-218 | the list walk produces one `[id]: acc op on obj` line per permission in list order, with a missing object printed as "all" |
| Info.GetRolesInfo | Linux/security/rbac/rbacdb.c:139-157 | the list walk produces, per role in list order, its name, one `\n\tperm[i]` per occupied slot in index order, the " with no permission bind" suffix and a newline |
| Decimal.ParseIntToString | Linux/security/rbac/rbacdb.c:212 | the `%d` text of an id reads back as that id |
| Decimal.IntToStringInjective | Linux/security/rbac/rbacdb.c:212 | distinct ids print differently |
| Reading.ParsePermLineOf | Linux/security/rbac/rbacdb.c:212-214 | one report line reads back as the permission's id, acceptability, operation and printed object |
| Reading.ParsePermsInfoOf | Linux/security/rbac/rbacdb.c:206-218 | the permission report reads back as the entries of all permissions in list order, when no object contains a newline |
| Reading.AllObjectIsAmbiguous | Linux/security/rbac/rbacdb.c:214 | a permission with no object and one whose object is the text "all" print identical lines |
| Reading.RoleNameIsAmbiguous | Linux/security/rbac/rbacdb.c:144-154 | two unbound roles, the second named `\tperm[0]`, print the same report as one role whose name ends in the suffix and whose slot 0 is bound |
| Reading.SlotLinesAsOccupied | Linux/security/rbac/rbacdb.c:146-149 | the slot part of a role block lists exactly the occupied slot indices, ascending |
| Reading.RoleBlockRoundTrip | Linux/security/rbac/rbacdb.c:144-154 | a role block reads back as the role's name and its occupied slot indices, when the name has no newline |
| Reading.RolesInfoAt | Linux/security/rbac/rbacdb.c:144-154 | in the roles report each role's block sits between the blocks of the roles before and after it |
| Reading.UnboundRoleBlock | Linux/security/rbac/rbacdb.c:150-153 | a role with no bound slot prints as its name, the suffix and a newline |
| Invariants.InitValid | Linux/security/rbac/rbacdb.c:28 | the empty database with the counter at 0 satisfies the invariant and exact counts |
| Invariants.AddRolePreserves | Linux/security/rbac/rbacdb.c:83-112 | adding a role keeps unique names, increasing ids, no dangling slot and the count bound, and keeps exact counts |
| Invariants.RemoveRolePreserves | Linux/security/rbac/rbacdb.c:114-137 | removing a role keeps the invariant |
| Invariants.RemoveUnboundRoleKeepsExact | Linux/security/rbac/rbacdb.c:114-137 | removing a role with no bound slot keeps exact counts |
| Invariants.RemoveBoundRoleLeaks | Linux/security/rbac/rbacdb.c:124-133 | removing a role that holds a permission succeeds and leaves that permission's count above 1 plus its remaining bindings |
| Invariants.AddPermissionPreserves | Linux/security/rbac/rbacdb.c:159-181 | adding a permission keeps the invariant and exact counts, and the id handed out is not in use |
| Invariants.RemovePermissionPreserves | Linux/security/rbac/rbacdb.c:183-204 | removing a permission keeps the invariant and exact counts, so no slot is left pointing at it |
| Invariants.BindPreserves | Linux/security/rbac/rbacdb.c:220-249 | binding keeps the invariant and exact counts |
| Invariants.UnbindPreserves | Linux/security/rbac/rbacdb.c:251-272 | unbinding keeps the invariant and exact counts |
| Invariants.BindCounts | Linux/security/rbac/rbacdb.c:235-238 | filling one slot with an id adds one to that id's slot count and changes no other id's count |
| Invariants.UnbindCounts | Linux/security/rbac/rbacdb.c:262-268 | emptying one slot takes one from the count of the id it held and changes no other id's count |
| Invariants.RemoveRoleValid | Linux/security/rbac/rbacdb.c:114-137 | in a valid database role removal succeeds iff the role exists, since no role's count ever moves from 1 |
| Invariants.RemovePermissionExact | Linux/security/rbac/rbacdb.c:183-204 | with exact counts, permission removal succeeds iff the permission exists and no slot holds it |
| Invariants.LeakingNotRemovable | Linux/security/rbac/rbacdb.c:193-196 | a leaking permission cannot be removed |
| Traces.ApplyCounter | Linux/security/rbac/rbacdb.c:170 | only a successful permission add moves the id counter, by exactly one |
| Traces.ReachableValid | Linux/security/rbac/rbacdb.c:28 | every database reached from the empty one by any commands satisfies the invariant |
| Traces.ExactWithoutRoleRemoval | Linux/security/rbac/rbacdb.c:83-272 | from exact counts, any run without role removal keeps exact counts |
| Traces.IssuedIncreasing | Linux/security/rbac/rbacdb.c:170 | the ids handed out along a run are strictly increasing and lie between the counter's start and end values |
| Traces.IdsNeverReused | Linux/security/rbac/rbacdb.c:170 | no id handed out along a run equals the id of a permission already present, and no id is handed out twice |
| Traces.LeakIsPermanent | Linux/security/rbac/rbacdb.c:124-133 | once a permission leaks, it stays leaking and unremovable after any sequence of commands |
| Traces.BindSeqFills | Linux/security/rbac/rbacdb.c:235-245 | successful binds of any ids, repeats allowed, into a role whose slots start empty fill slot j with the j-th id and leave the rest empty; so at most `ROLE_MAX_PERMS` of them succeed |
| Traces.BindSeqAccepted | Linux/security/rbac/rbacdb.c:226-245 | into a role whose slots start empty, binds of stored permissions all succeed iff there are at most `ROLE_MAX_PERMS` of them, repeated ids included |
| Traces.BindIntoFirstEmpty | Linux/security/rbac/rbacdb.c:235-241 | with the permission and role present, bind succeeds and fills exactly the first empty slot |
| Traces.CapacityBound | Linux/security/rbac/rbacdb.c:242-245 | after `ROLE_MAX_PERMS` successful binds of any permissions into a role whose slots started empty, any further bind to it fails with -EINVAL and changes nothing |
| Scenario.AuditorScenario | Linux/security/rbac/rbacdb.c:139-272 | the worked session: each step's status, both reports while bound, refusal to remove a bound permission, the report after unbinding, and removal afterwards |

## Left out

- `ROLE_MAX_PERMS` and the types `rbac_acc_t`, `rbac_op_t` and `rbac_obj_t` come from `rbac.h`, which is not part of this model. The capacity is an unspecified positive constant, and the two enumerations have the two values the name tables list.
- `kzalloc` failure is not decided by the model: `AddRole` and `AddPermission` take it as a boolean parameter.
- `ROLE_NAME_LEN` and the `strcpy` into the fixed name array are left out. Names are unbounded strings, so an overlong name does not overflow.
- The callers' buffers are left out. The reports are returned as strings, and the `sprintf` offsets are not checked against a buffer size.
- `refcount_t` saturation and warnings are left out: reference counts are unbounded integers.
- `next_perm_id` overflow is left out: ids are unbounded integers.
- Binding.Unbind: requires the slot index to be in range when the role exists, because the C code then indexes `perms[rid]` unchecked. It looks up the permission a slot holds by id, where the C code follows a pointer; the invariant makes the two agree.
- Traces.Command: an unbind command carries an in-range slot index. An out-of-range index on an existing role reads past the array in the C code, and no model of that is given.
- `rbac_add_permission` stores the caller's `obj` pointer without copying the string. The model stores the object text as a value, so later changes to the caller's string do not show.
- Memory release (`kfree`) and list linkage are replaced by removing an element from a sequence.
- Locking is left out, because the file takes no locks. So is concurrent access.
- `struct rbac_user` and the LSM hooks are left out, because nothing in this file uses them. The same goes for the securityfs front end that parses user commands.
