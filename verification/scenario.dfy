/** A worked run of the store: a deny-write permission on /etc/shadow bound
    to an "auditor" role, listed, refused removal while bound, unbound by slot
    index, then removed. */
module Scenario {
  import opened RbacState
  import opened Lookup
  import opened Decimal
  import opened RoleStore
  import opened PermStore
  import opened Binding
  import opened Info
  import opened Reading

  /** The permission of the run, with reference count `ref`. */
  function Shadow(ref: int): Permission {
    Permission(0, Deny, Write, Some("/etc/shadow"), ref)
  }

  /** The "auditor" role before and after permission 0 is bound to it. */
  function Fresh(): Role {
    NewRole("auditor")
  }

  function Bound(): Role {
    SetSlot(Fresh(), 0, Some(0))
  }

  lemma Step1()
    ensures AddPermission(Init, Deny, Write, Some("/etc/shadow"), false) == Outcome(Db([], [Shadow(1)], 1), Ok)
  {
  }

  lemma Step2()
    ensures AddRole(Db([], [Shadow(1)], 1), "auditor", false) == Outcome(Db([Fresh()], [Shadow(1)], 1), Ok)
  {
  }

  /** Permission 0 lands in slot 0 and gains a reference. */
  lemma Step3()
    ensures Bind(Db([Fresh()], [Shadow(1)], 1), 0, "auditor") == Outcome(Db([Bound()], [Shadow(2)], 1), Ok)
  {
    assert FirstEmptyAt(Fresh().perms, 0);
    assert FindPerm([Shadow(1)], 0) == Some(0);
    assert FindRole([Fresh()], "auditor") == Some(0);
  }

  /** While bound, the permission cannot be removed. */
  lemma Step4()
    ensures RemovePermission(Db([Bound()], [Shadow(2)], 1), 0) == Outcome(Db([Bound()], [Shadow(2)], 1), Err(EINVAL))
  {
    assert FindPerm([Shadow(2)], 0) == Some(0);
  }

  /** Unbinding slot 0 clears it and drops the reference again. */
  lemma Step5()
    ensures Unbind(Db([Bound()], [Shadow(2)], 1), 0, "auditor") ==
      Outcome(Db([SetSlot(Bound(), 0, None)], [Shadow(1)], 1), Ok)
  {
    assert FindRole([Bound()], "auditor") == Some(0);
    assert IndexOfPerm([Shadow(2)], 0) == Some(0);
  }

  /** Now the permission can be removed; its id stays used up. */
  lemma Step6()
    ensures RemovePermission(Db([SetSlot(Bound(), 0, None)], [Shadow(1)], 1), 0) ==
      Outcome(Db([SetSlot(Bound(), 0, None)], [], 1), Ok)
  {
    assert FindPerm([Shadow(1)], 0) == Some(0);
  }

  lemma ZeroText()
    ensures IntToString(0) == "0" && NatToString(0) == "0"
  {
    assert NatToString(0) == [DigitChar(0)];
  }

  lemma ShadowLine(ref: int)
    ensures PermLine(Shadow(ref)) == "[" + "0" + "]: " + "deny" + " " + "write" + " on " + "/etc/shadow" + "\n"
  {
    ZeroText();
  }

  lemma ShadowText()
    ensures "[" + "0" + "]: " + "deny" + " " + "write" + " on " + "/etc/shadow" + "\n" == "[0]: deny write on /etc/shadow\n"
  {
  }

  lemma ShadowListing(ref: int)
    ensures PermsInfo([Shadow(ref)]) == "[0]: deny write on /etc/shadow\n"
  {
    PermsInfoSingle(Shadow(ref));
    ShadowLine(ref);
    ShadowText();
  }

  lemma BoundSlots()
    ensures SlotLines(Bound().perms, RoleMaxPerms) == "\n\tperm[" + "0" + "]"
  {
    var r := Bound();
    SlotLinesTailNone(r.perms, 1, RoleMaxPerms);
    ZeroText();
    assert SlotLines(r.perms, 1) == "" + SlotLine(0);
    assert "" + SlotLine(0) == SlotLine(0);
  }

  lemma BoundText()
    ensures "auditor" + ("\n\tperm[" + "0" + "]") + " with no permission bind" + "\n" == "auditor\n\tperm[0] with no permission bind\n"
  {
  }

  /** The bound role lists its slot and still carries the suffix. */
  lemma BoundListing()
    ensures RolesInfo([Bound()]) == "auditor\n\tperm[0] with no permission bind\n"
  {
    RolesInfoSingle(Bound());
    BoundSlots();
    BoundText();
  }

  lemma UnboundText()
    ensures "auditor" + " with no permission bind" + "\n" == "auditor with no permission bind\n"
  {
  }

  lemma UnboundListing()
    ensures RolesInfo([SetSlot(Bound(), 0, None)]) == "auditor with no permission bind\n"
  {
    var r := SetSlot(Bound(), 0, None);
    RolesInfoSingle(r);
    UnboundRoleBlock(r);
    UnboundText();
  }

  /** The whole run from the empty store: each step's status, both reports
      while bound, and the final report after unbinding. */
  lemma AuditorScenario()
    ensures var s1 := AddPermission(Init, Deny, Write, Some("/etc/shadow"), false);
      var s2 := AddRole(s1.db, "auditor", false);
      var s3 := Bind(s2.db, 0, "auditor");
      var s4 := RemovePermission(s3.db, 0);
      var s5 := Unbind(s4.db, 0, "auditor");
      var s6 := RemovePermission(s5.db, 0);
      && s1.status == Ok && s2.status == Ok && s3.status == Ok
      && PermsInfo(s3.db.perms) == "[0]: deny write on /etc/shadow\n"
      && RolesInfo(s3.db.roles) == "auditor\n\tperm[0] with no permission bind\n"
      && s4 == Outcome(s3.db, Err(EINVAL))
      && s5.status == Ok
      && RolesInfo(s5.db.roles) == "auditor with no permission bind\n"
      && s6.status == Ok && s6.db.perms == [] && s6.db.nextPermId == 1
  {
    Step1();
    Step2();
    Step3();
    Step4();
    Step5();
    Step6();
    ShadowListing(2);
    BoundListing();
    UnboundListing();
  }
}
