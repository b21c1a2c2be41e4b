/** How many slots, across all roles, hold a given permission id: the part of
    a permission's reference count that bindings account for. */
module Counting {
  import opened RbacState

  /** The number of slots of one table holding `id`. */
  function CountIn(slots: seq<Slot>, id: PermId): nat
  {
    if |slots| == 0 then 0
    else CountIn(slots[..|slots| - 1], id) + (if slots[|slots| - 1] == Some(id) then 1 else 0)
  }

  /** The number of slots, over every role, holding `id`. */
  function RoleCount(roles: seq<Role>, id: PermId): nat
  {
    if |roles| == 0 then 0
    else RoleCount(roles[..|roles| - 1], id) + CountIn(roles[|roles| - 1].perms, id)
  }

  lemma {:induction false} CountInConcat(a: seq<Slot>, b: seq<Slot>, id: PermId)
    ensures CountIn(a + b, id) == CountIn(a, id) + CountIn(b, id)
    decreases |b|
  {
    if |b| == 0 {
      assert a + b == a;
    } else {
      assert (a + b)[..|a + b| - 1] == a + b[..|b| - 1];
      CountInConcat(a, b[..|b| - 1], id);
    }
  }

  /** A table holds `id` nowhere exactly when its count is zero. */
  lemma {:induction false} CountInZero(slots: seq<Slot>, id: PermId)
    ensures CountIn(slots, id) == 0 <==> forall j :: 0 <= j < |slots| ==> slots[j] != Some(id)
    decreases |slots|
  {
    if |slots| > 0 {
      var init := slots[..|slots| - 1];
      CountInZero(init, id);
      assert forall j :: 0 <= j < |init| ==> init[j] == slots[j];
    }
  }

  /** Overwriting one slot moves the count by what left and what arrived. */
  lemma CountInUpdate(slots: seq<Slot>, j: int, s: Slot, id: PermId)
    requires 0 <= j < |slots|
    ensures CountIn(slots[j := s], id) ==
      CountIn(slots, id) - (if slots[j] == Some(id) then 1 else 0) + (if s == Some(id) then 1 else 0)
  {
    var pre, post := slots[..j], slots[j + 1..];
    assert slots == pre + [slots[j]] + post;
    assert slots[j := s] == pre + [s] + post;
    CountInConcat(pre + [slots[j]], post, id);
    CountInConcat(pre + [s], post, id);
    CountInConcat(pre, [slots[j]], id);
    CountInConcat(pre, [s], id);
    assert CountIn([s], id) == (if s == Some(id) then 1 else 0) by {
      assert [s][..0] == [];
    }
    assert CountIn([slots[j]], id) == (if slots[j] == Some(id) then 1 else 0) by {
      assert [slots[j]][..0] == [];
    }
  }

  lemma {:induction false} RoleCountConcat(a: seq<Role>, b: seq<Role>, id: PermId)
    ensures RoleCount(a + b, id) == RoleCount(a, id) + RoleCount(b, id)
    decreases |b|
  {
    if |b| == 0 {
      assert a + b == a;
    } else {
      assert (a + b)[..|a + b| - 1] == a + b[..|b| - 1];
      RoleCountConcat(a, b[..|b| - 1], id);
    }
  }

  lemma RoleCountSingle(r: Role, id: PermId)
    ensures RoleCount([r], id) == CountIn(r.perms, id)
  {
    assert [r][..0] == [];
  }

  /** Replacing one role moves the count by the difference of the two tables. */
  lemma RoleCountUpdate(roles: seq<Role>, k: int, r: Role, id: PermId)
    requires 0 <= k < |roles|
    ensures RoleCount(roles[k := r], id) ==
      RoleCount(roles, id) - CountIn(roles[k].perms, id) + CountIn(r.perms, id)
  {
    var pre, post := roles[..k], roles[k + 1..];
    assert roles == pre + [roles[k]] + post;
    assert roles[k := r] == pre + [r] + post;
    RoleCountConcat(pre + [roles[k]], post, id);
    RoleCountConcat(pre + [r], post, id);
    RoleCountConcat(pre, [roles[k]], id);
    RoleCountConcat(pre, [r], id);
    RoleCountSingle(roles[k], id);
    RoleCountSingle(r, id);
  }

  /** Unlinking one role drops exactly the slots it held. */
  lemma RoleCountUnlink(roles: seq<Role>, k: int, id: PermId)
    requires 0 <= k < |roles|
    ensures RoleCount(Unlink(roles, k), id) == RoleCount(roles, id) - CountIn(roles[k].perms, id)
  {
    var pre, post := roles[..k], roles[k + 1..];
    assert roles == pre + [roles[k]] + post;
    assert Unlink(roles, k) == pre + post;
    RoleCountConcat(pre + [roles[k]], post, id);
    RoleCountConcat(pre, post, id);
    RoleCountConcat(pre, [roles[k]], id);
    RoleCountSingle(roles[k], id);
  }

  /** Appending a role adds exactly the slots it holds. */
  lemma RoleCountAppend(roles: seq<Role>, r: Role, id: PermId)
    ensures RoleCount(roles + [r], id) == RoleCount(roles, id) + CountIn(r.perms, id)
  {
    assert (roles + [r])[..|roles|] == roles;
  }

  /** No slot of any role holds `id` exactly when the count is zero. */
  lemma {:induction false} RoleCountZero(roles: seq<Role>, id: PermId)
    ensures RoleCount(roles, id) == 0 <==>
      forall k, j :: 0 <= k < |roles| && 0 <= j < RoleMaxPerms ==> roles[k].perms[j] != Some(id)
    decreases |roles|
  {
    if |roles| > 0 {
      var init := roles[..|roles| - 1];
      RoleCountZero(init, id);
      CountInZero(roles[|roles| - 1].perms, id);
      assert forall k :: 0 <= k < |init| ==> init[k] == roles[k];
    }
  }
}
