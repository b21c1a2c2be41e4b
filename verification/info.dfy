/** The two text renderers, `rbac_get_perms_info` and `rbac_get_roles_info`,
    with the readers that show what each report determines.

    The report is returned as a string rather than written into a caller's
    buffer. */
module Info {
  import opened RbacState
  import opened Lookup
  import opened Decimal

  function AccName(a: Acceptability): string {
    match a
    case Accept => "accept"
    case Deny => "deny"
  }

  function OpName(o: Operation): string {
    match o
    case Read => "read"
    case Write => "write"
  }

  /** `perm->obj ?: "all"`: a missing object prints as "all". */
  function ObjText(obj: Object): string {
    match obj
    case None => "all"
    case Some(s) => s
  }

  /** One `"[%d]: %s %s on %s\n"` line of the permission report. */
  function PermLine(p: Permission): string {
    "[" + IntToString(p.id) + "]: " + AccName(p.acc) + " " + OpName(p.op) + " on " + ObjText(p.obj) + "\n"
  }

  /** The permission report: one line per permission, in list order. */
  function PermsInfo(perms: seq<Permission>): string {
    if |perms| == 0 then ""
    else PermsInfo(perms[..|perms| - 1]) + PermLine(perms[|perms| - 1])
  }

  /** `rbac_get_perms_info`: the list walk appending one line per permission. */
  method GetPermsInfo(perms: seq<Permission>) returns (buf: string)
    ensures buf == PermsInfo(perms)
  {
    buf := "";
    var k := 0;
    while k < |perms|
      invariant 0 <= k <= |perms|
      invariant buf == PermsInfo(perms[..k])
    {
      buf := buf + PermLine(perms[k]);
      assert perms[..k + 1][..k] == perms[..k];
      k := k + 1;
    }
    assert perms[..k] == perms;
  }

  const NoBindSuffix: string := " with no permission bind"

  /** The `"\n\tperm[%d]"` text for an occupied slot. */
  function SlotLine(i: nat): string {
    "\n\tperm[" + NatToString(i) + "]"
  }

  /** The slot lines for the occupied slots among the first `n`. */
  function SlotLines(slots: seq<Slot>, n: nat): string
    requires n <= |slots|
  {
    if n == 0 then ""
    else SlotLines(slots, n - 1) + (if slots[n - 1].Some? then SlotLine(n - 1) else "")
  }

  /** One role's part of the report. The "no permission bind" suffix is
      there whatever the slots hold. */
  function RoleBlock(r: Role): string {
    r.name + SlotLines(r.perms, RoleMaxPerms) + NoBindSuffix + "\n"
  }

  /** The role report: one block per role, in list order. */
  function RolesInfo(roles: seq<Role>): string {
    if |roles| == 0 then ""
    else RolesInfo(roles[..|roles| - 1]) + RoleBlock(roles[|roles| - 1])
  }

  /** `rbac_get_roles_info`. The slot loop never breaks, so on leaving it the
      index always equals the capacity and the test guarding the suffix
      always passes. */
  method GetRolesInfo(roles: seq<Role>) returns (buf: string)
    ensures buf == RolesInfo(roles)
  {
    buf := "";
    var k := 0;
    while k < |roles|
      invariant 0 <= k <= |roles|
      invariant buf == RolesInfo(roles[..k])
    {
      var role := roles[k];
      var line := role.name;
      var i := 0;
      while i < RoleMaxPerms
        invariant 0 <= i <= RoleMaxPerms
        invariant line == role.name + SlotLines(role.perms, i)
      {
        if role.perms[i].Some? {
          line := line + SlotLine(i);
        }
        i := i + 1;
      }
      if i == RoleMaxPerms {
        line := line + NoBindSuffix;
      }
      line := line + "\n";
      assert line == RoleBlock(role);
      buf := buf + line;
      assert roles[..k + 1][..k] == roles[..k];
      k := k + 1;
    }
    assert roles[..k] == roles;
  }
}
