/** Sequences of administrative commands against the store, and what holds
    along every such sequence: the invariants, the never-reused permission
    ids, the permanence of a reference leak, the capacity bound of a role. */
module Traces {
  import opened RbacState
  import opened Lookup
  import opened Counting
  import opened RoleStore
  import opened PermStore
  import opened Binding
  import opened Invariants

  /** One call into the store. Unbind's slot index is in range by type. */
  datatype Command =
    | AddRoleCmd(name: string, allocFails: bool)
    | RemoveRoleCmd(name: string)
    | AddPermCmd(acc: Acceptability, op: Operation, obj: Object, allocFails: bool)
    | RemovePermCmd(id: PermId)
    | BindCmd(id: PermId, name: string)
    | UnbindCmd(slot: SlotIndex, name: string)

  function Apply(db: Db, c: Command): Outcome {
    match c
    case AddRoleCmd(name, allocFails) => AddRole(db, name, allocFails)
    case RemoveRoleCmd(name) => RemoveRole(db, name)
    case AddPermCmd(acc, op, obj, allocFails) => AddPermission(db, acc, op, obj, allocFails)
    case RemovePermCmd(id) => RemovePermission(db, id)
    case BindCmd(id, name) => Bind(db, id, name)
    case UnbindCmd(slot, name) => Unbind(db, slot, name)
  }

  /** The store after running the commands in order. */
  function Run(db: Db, cmds: seq<Command>): Db
    decreases |cmds|
  {
    if |cmds| == 0 then db else Run(Apply(db, cmds[0]).db, cmds[1..])
  }

  /** Does the command issue a permission id, and if so, does allocation succeed? */
  predicate IssuesId(c: Command) {
    c.AddPermCmd? && !c.allocFails
  }

  /** The ids issued along the run, in the order they were handed out. */
  function Issued(db: Db, cmds: seq<Command>): seq<PermId>
    decreases |cmds|
  {
    if |cmds| == 0 then []
    else (if IssuesId(cmds[0]) then [db.nextPermId] else []) + Issued(Apply(db, cmds[0]).db, cmds[1..])
  }

  /** Only a successful add moves the counter, and by exactly one. */
  lemma ApplyCounter(db: Db, c: Command)
    ensures Apply(db, c).db.nextPermId == db.nextPermId + (if IssuesId(c) then 1 else 0)
  {
  }

  lemma ApplyPreservesValid(db: Db, c: Command)
    requires Valid(db)
    ensures Valid(Apply(db, c).db)
    ensures Exact(db) && !c.RemoveRoleCmd? ==> Exact(Apply(db, c).db)
  {
    match c
    case AddRoleCmd(name, allocFails) => AddRolePreserves(db, name, allocFails);
    case RemoveRoleCmd(name) => RemoveRolePreserves(db, name);
    case AddPermCmd(acc, op, obj, allocFails) => AddPermissionPreserves(db, acc, op, obj, allocFails);
    case RemovePermCmd(id) => RemovePermissionPreserves(db, id);
    case BindCmd(id, name) => BindPreserves(db, id, name);
    case UnbindCmd(slot, name) => UnbindPreserves(db, slot, name);
  }

  lemma {:induction false} RunPreservesValid(db: Db, cmds: seq<Command>)
    requires Valid(db)
    ensures Valid(Run(db, cmds))
    decreases |cmds|
  {
    if |cmds| > 0 {
      ApplyPreservesValid(db, cmds[0]);
      RunPreservesValid(Apply(db, cmds[0]).db, cmds[1..]);
    }
  }

  /** Every state reachable from the empty store satisfies the invariants:
      unique role names, increasing issued ids, no dangling slot, and
      reference counts covering every binding. */
  lemma ReachableValid(cmds: seq<Command>)
    ensures Valid(Run(Init, cmds))
  {
    InitValid();
    RunPreservesValid(Init, cmds);
  }

  /** Without role removals, reference counts stay exactly 1 plus the slots
      naming each permission. */
  lemma {:induction false} ExactWithoutRoleRemoval(db: Db, cmds: seq<Command>)
    requires Valid(db) && Exact(db)
    requires forall n :: 0 <= n < |cmds| ==> !cmds[n].RemoveRoleCmd?
    ensures Exact(Run(db, cmds))
    decreases |cmds|
  {
    if |cmds| > 0 {
      ApplyPreservesValid(db, cmds[0]);
      ExactWithoutRoleRemoval(Apply(db, cmds[0]).db, cmds[1..]);
    }
  }

  /** Issued ids strictly increase along a run, start at the counter's value
      and stay below its final value; the counter never goes back. */
  lemma {:induction false} IssuedIncreasing(db: Db, cmds: seq<Command>)
    ensures Run(db, cmds).nextPermId >= db.nextPermId
    ensures forall a :: 0 <= a < |Issued(db, cmds)| ==>
      db.nextPermId <= Issued(db, cmds)[a] < Run(db, cmds).nextPermId
    ensures forall a, b :: 0 <= a < b < |Issued(db, cmds)| ==> Issued(db, cmds)[a] < Issued(db, cmds)[b]
    decreases |cmds|
  {
    if |cmds| > 0 {
      var next := Apply(db, cmds[0]).db;
      ApplyCounter(db, cmds[0]);
      IssuedIncreasing(next, cmds[1..]);
    }
  }

  /** No id is handed out twice, and none that a stored permission already
      carries, even after that permission has been removed. */
  lemma IdsNeverReused(db: Db, cmds: seq<Command>)
    requires Valid(db)
    ensures forall i :: 0 <= i < |db.perms| ==> db.perms[i].id !in Issued(db, cmds)
    ensures forall a, b :: 0 <= a < |Issued(db, cmds)| && 0 <= b < |Issued(db, cmds)| && a != b ==>
      Issued(db, cmds)[a] != Issued(db, cmds)[b]
  {
    IssuedIncreasing(db, cmds);
    var ids := Issued(db, cmds);
    forall a, b | 0 <= a < |ids| && 0 <= b < |ids| && a != b
      ensures ids[a] != ids[b]
    {
      if a < b { assert ids[a] < ids[b]; } else { assert ids[b] < ids[a]; }
    }
  }

  lemma ApplyKeepsLeak(db: Db, c: Command, id: PermId)
    requires Valid(db) && Leaking(db, id)
    ensures Leaking(Apply(db, c).db, id)
  {
    match c
    case AddRoleCmd(name, allocFails) => AddRoleKeepsLeak(db, name, allocFails, id);
    case RemoveRoleCmd(name) => RemoveRoleKeepsLeak(db, name, id);
    case AddPermCmd(acc, op, obj, allocFails) => AddPermissionKeepsLeak(db, acc, op, obj, allocFails, id);
    case RemovePermCmd(x) => RemovePermissionKeepsLeak(db, x, id);
    case BindCmd(x, name) => BindKeepsLeak(db, x, name, id);
    case UnbindCmd(slot, name) => UnbindKeepsLeak(db, slot, name, id);
  }

  /** Once a permission holds more references than its bindings account for
      (as after removing a role that held it), no later command sequence
      brings it back: the permission can never be removed again. */
  lemma {:induction false} LeakIsPermanent(db: Db, cmds: seq<Command>, id: PermId)
    requires Valid(db) && Leaking(db, id)
    ensures Leaking(Run(db, cmds), id)
    ensures RemovePermission(Run(db, cmds), id).status == Err(EINVAL)
    decreases |cmds|
  {
    if |cmds| > 0 {
      ApplyKeepsLeak(db, cmds[0], id);
      ApplyPreservesValid(db, cmds[0]);
      LeakIsPermanent(Apply(db, cmds[0]).db, cmds[1..], id);
    } else {
      LeakingNotRemovable(db, id);
    }
  }

  /** Successive binds of the permissions `ids`, in order, to the role
      `name`. The ids may repeat. */
  function BindSeq(db: Db, ids: seq<PermId>, name: string): Db
    decreases |ids|
  {
    if |ids| == 0 then db
    else Bind(BindSeq(db, ids[..|ids| - 1], name), ids[|ids| - 1], name).db
  }

  /** Every bind of the sequence succeeded. */
  predicate AllBound(db: Db, ids: seq<PermId>, name: string)
    decreases |ids|
  {
    || |ids| == 0
    || (&& AllBound(db, ids[..|ids| - 1], name)
        && Bind(BindSeq(db, ids[..|ids| - 1], name), ids[|ids| - 1], name).status == Ok)
  }

  /** A bind into a role whose lowest empty slot is `j` fills exactly `j`. */
  lemma BindIntoFirstEmpty(db: Db, id: PermId, name: string, k: int, j: int)
    requires id >= 0 && HasPerm(db.perms, id)
    requires FirstNamed(db.roles, name, k) && FirstEmptyAt(db.roles[k].perms, j)
    ensures Bind(db, id, name).status == Ok
    ensures Bind(db, id, name).db.roles == db.roles[k := SetSlot(db.roles[k], j, Some(id))]
    ensures HasPerm(Bind(db, id, name).db.perms, id)
  {
    var i := FindPerm(db.perms, id).value;
    assert Bind(db, id, name).db.perms[i].id == id;
  }

  /** A bind never changes which ids the permission list holds, position by
      position; only a reference count moves. */
  lemma BindKeepsPermIds(db: Db, id: PermId, name: string)
    ensures |Bind(db, id, name).db.perms| == |db.perms|
    ensures forall i :: 0 <= i < |db.perms| ==> Bind(db, id, name).db.perms[i].id == db.perms[i].id
  {
    var r := Bind(db, id, name);
    if r.status == Ok {
      var i := FindPerm(db.perms, id).value;
      var k := FindRole(db.roles, name).value;
      var j := FirstEmpty(db.roles[k].perms).value;
      assert r.db.perms == db.perms[i := AdjustRef(db.perms[i], 1)];
    }
  }

  /** One successful bind into a role whose first `|ids| - 1` slots hold the
      earlier ids, and the rest nothing, puts the last id into the next
      slot. */
  lemma BindFillsNext(prev: Db, ids: seq<PermId>, name: string, k: int)
    requires |ids| > 0
    requires FirstNamed(prev.roles, name, k)
    requires forall j :: 0 <= j < RoleMaxPerms ==>
      prev.roles[k].perms[j] == (if j < |ids| - 1 then Some(ids[j]) else None)
    requires Bind(prev, ids[|ids| - 1], name).status == Ok
    ensures |ids| <= RoleMaxPerms
    ensures FirstNamed(Bind(prev, ids[|ids| - 1], name).db.roles, name, k)
    ensures forall j :: 0 <= j < RoleMaxPerms ==>
      Bind(prev, ids[|ids| - 1], name).db.roles[k].perms[j] == (if j < |ids| then Some(ids[j]) else None)
  {
    var n := |ids| - 1;
    var last := ids[n];
    var slots := prev.roles[k].perms;
    var k' :| FirstNamed(prev.roles, name, k') && HasEmpty(prev.roles[k'].perms);
    FirstNamedUnique(prev.roles, name, k, k');
    var e :| 0 <= e < RoleMaxPerms && slots[e].None?;
    assert n <= e;
    assert FirstEmptyAt(slots, n);
    BindIntoFirstEmpty(prev, last, name, k, n);
    var cur := Bind(prev, last, name).db;
    var role := SetSlot(prev.roles[k], n, Some(last));
    assert cur.roles == prev.roles[k := role];
    assert cur.roles[k] == role;
    assert FirstNamed(cur.roles, name, k) by {
      forall j | 0 <= j < k
        ensures cur.roles[j].name != name
      {
        assert cur.roles[j] == prev.roles[j];
      }
    }
  }

  /** Successful binds into a role whose slots start empty fill its slots in
      index order, one per bind, whatever the ids; so at most
      `ROLE_MAX_PERMS` of them can succeed. */
  lemma {:induction false} BindSeqFills(db: Db, ids: seq<PermId>, name: string, k: int)
    requires FirstNamed(db.roles, name, k)
    requires forall j :: 0 <= j < RoleMaxPerms ==> db.roles[k].perms[j].None?
    requires AllBound(db, ids, name)
    ensures |ids| <= RoleMaxPerms
    ensures FirstNamed(BindSeq(db, ids, name).roles, name, k)
    ensures forall j :: 0 <= j < RoleMaxPerms ==>
      BindSeq(db, ids, name).roles[k].perms[j] == (if j < |ids| then Some(ids[j]) else None)
    decreases |ids|
  {
    if |ids| > 0 {
      var init := ids[..|ids| - 1];
      BindSeqFills(db, init, name, k);
      var prev := BindSeq(db, init, name);
      assert forall j :: 0 <= j < RoleMaxPerms ==>
        prev.roles[k].perms[j] == (if j < |ids| - 1 then Some(ids[j]) else None);
      BindFillsNext(prev, ids, name, k);
    }
  }

  /** Binds keep every stored id stored. */
  lemma {:induction false} BindSeqKeepsPerms(db: Db, ids: seq<PermId>, name: string, x: PermId)
    requires HasPerm(db.perms, x)
    ensures HasPerm(BindSeq(db, ids, name).perms, x)
    decreases |ids|
  {
    if |ids| > 0 {
      var prev := BindSeq(db, ids[..|ids| - 1], name);
      BindSeqKeepsPerms(db, ids[..|ids| - 1], name, x);
      BindKeepsPermIds(prev, ids[|ids| - 1], name);
      var i :| 0 <= i < |prev.perms| && prev.perms[i].id == x;
      assert BindSeq(db, ids, name).perms[i].id == x;
    }
  }

  /** Into a role whose slots start empty, binds of up to `ROLE_MAX_PERMS`
      stored permissions all succeed, repeated ids included. */
  lemma {:induction false} BindSeqSucceeds(db: Db, ids: seq<PermId>, name: string, k: int)
    requires FirstNamed(db.roles, name, k)
    requires forall j :: 0 <= j < RoleMaxPerms ==> db.roles[k].perms[j].None?
    requires forall a :: 0 <= a < |ids| ==> ids[a] >= 0 && HasPerm(db.perms, ids[a])
    requires |ids| <= RoleMaxPerms
    ensures AllBound(db, ids, name)
    decreases |ids|
  {
    if |ids| > 0 {
      var n := |ids| - 1;
      var init, last := ids[..n], ids[n];
      assert forall a :: 0 <= a < |init| ==> init[a] == ids[a];
      BindSeqSucceeds(db, init, name, k);
      BindSeqFills(db, init, name, k);
      var prev := BindSeq(db, init, name);
      assert FirstEmptyAt(prev.roles[k].perms, n);
      BindSeqKeepsPerms(db, init, name, last);
      BindIntoFirstEmpty(prev, last, name, k, n);
    }
  }

  /** So, into a role whose slots start empty, binds of stored permissions
      all succeed exactly when there are at most `ROLE_MAX_PERMS` of them.
      No bind checks for an existing binding. */
  lemma BindSeqAccepted(db: Db, ids: seq<PermId>, name: string, k: int)
    requires FirstNamed(db.roles, name, k)
    requires forall j :: 0 <= j < RoleMaxPerms ==> db.roles[k].perms[j].None?
    requires forall a :: 0 <= a < |ids| ==> ids[a] >= 0 && HasPerm(db.perms, ids[a])
    ensures AllBound(db, ids, name) <==> |ids| <= RoleMaxPerms
  {
    if AllBound(db, ids, name) {
      BindSeqFills(db, ids, name, k);
    }
    if |ids| <= RoleMaxPerms {
      BindSeqSucceeds(db, ids, name, k);
    }
  }

  /** After `ROLE_MAX_PERMS` successful binds of any permissions into a role
      whose slots started empty, binding any permission to it fails with
      -EINVAL and changes nothing. */
  lemma CapacityBound(db: Db, ids: seq<PermId>, name: string, k: int, other: PermId)
    requires FirstNamed(db.roles, name, k)
    requires forall j :: 0 <= j < RoleMaxPerms ==> db.roles[k].perms[j].None?
    requires AllBound(db, ids, name) && |ids| == RoleMaxPerms
    ensures Bind(BindSeq(db, ids, name), other, name) == Outcome(BindSeq(db, ids, name), Err(EINVAL))
  {
    BindSeqFills(db, ids, name, k);
    var full := BindSeq(db, ids, name);
    assert FirstEmpty(full.roles[k].perms) == None;
    FirstNamedUnique(full.roles, name, k, FindRole(full.roles, name).value);
    assert FindRole(full.roles, name) == Some(k);
  }
}
