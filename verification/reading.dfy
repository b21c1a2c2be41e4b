/** Readers for the two reports, and the round trips showing what each report
    determines: the permission report gives back every permission's id,
    acceptability, operation and object text in list order; a role's block
    gives back its name and the ascending indices of its occupied slots. */
module Reading {
  import opened RbacState
  import opened Lookup
  import opened Decimal
  import opened Info
  import opened SeqFacts

  predicate NoNewline(s: string) {
    forall i :: 0 <= i < |s| ==> s[i] != '\n'
  }

  function StripPrefix(s: string, pre: string): (r: Option<string>)
    ensures r.Some? ==> s == pre + r.value
  {
    if |pre| <= |s| && s[..|pre|] == pre then Some(s[|pre|..]) else None
  }

  lemma StripPrefixOf(pre: string, rest: string)
    ensures StripPrefix(pre + rest, pre) == Some(rest)
  {
    assert (pre + rest)[..|pre|] == pre;
    assert (pre + rest)[|pre|..] == rest;
  }

  /** The position of the first `c` in `s`. */
  function Find(s: string, c: char): (r: Option<nat>)
    ensures r.Some? ==> r.value < |s| && s[r.value] == c
    ensures r.Some? ==> forall j :: 0 <= j < r.value ==> s[j] != c
    ensures r.None? ==> forall j :: 0 <= j < |s| ==> s[j] != c
  {
    FirstIndex(s, (x: char) => x == c, 0)
  }

  lemma FindAt(s: string, c: char, k: int)
    requires 0 <= k < |s| && s[k] == c
    requires forall j :: 0 <= j < k ==> s[j] != c
    ensures Find(s, c) == Some(k)
  {
  }

  /** What the report shows of a permission: the object as printed. */
  datatype PermEntry = PermEntry(id: int, acc: Acceptability, op: Operation, obj: string)

  function Entry(p: Permission): PermEntry {
    PermEntry(p.id, p.acc, p.op, ObjText(p.obj))
  }

  function Entries(perms: seq<Permission>): (r: seq<PermEntry>)
    ensures |r| == |perms|
  {
    if |perms| == 0 then [] else [Entry(perms[0])] + Entries(perms[1..])
  }

  predicate IsIntText(s: string) {
    1 <= |s| && (if s[0] == '-' then AllDigits(s[1..]) else AllDigits(s))
  }

  function ParseAcc(s: string): Option<(Acceptability, string)> {
    match StripPrefix(s, "accept")
    case Some(rest) => Some((Accept, rest))
    case None =>
      match StripPrefix(s, "deny")
      case Some(rest) => Some((Deny, rest))
      case None => None
  }

  function ParseOp(s: string): Option<(Operation, string)> {
    match StripPrefix(s, "read")
    case Some(rest) => Some((Read, rest))
    case None =>
      match StripPrefix(s, "write")
      case Some(rest) => Some((Write, rest))
      case None => None
  }

  /** Reads the `"]: %s %s on %s"` part of a permission line. */
  function ParseFields(s: string): Option<(Acceptability, Operation, string)> {
    match StripPrefix(s, "]: ")
    case None => None
    case Some(r1) =>
      match ParseAcc(r1)
      case None => None
      case Some((acc, r2)) =>
        match StripPrefix(r2, " ")
        case None => None
        case Some(r3) =>
          match ParseOp(r3)
          case None => None
          case Some((op, r4)) =>
            match StripPrefix(r4, " on ")
            case None => None
            case Some(obj) => Some((acc, op, obj))
  }

  /** Reads one permission line, without its newline. */
  function ParsePermLine(line: string): Option<PermEntry> {
    if |line| == 0 || line[0] != '[' then None
    else
      var body := line[1..];
      match Find(body, ']')
      case None => None
      case Some(e) =>
        var idText := body[..e];
        if !IsIntText(idText) then None
        else
          match ParseFields(body[e..])
          case None => None
          case Some((acc, op, obj)) => Some(PermEntry(ParseInt(idText), acc, op, obj))
  }

  /** Reads a whole permission report, line by line. */
  function ParsePermsInfo(s: string): Option<seq<PermEntry>>
    decreases |s|
  {
    if |s| == 0 then Some([])
    else
      match Find(s, '\n')
      case None => None
      case Some(n) =>
        match ParsePermLine(s[..n])
        case None => None
        case Some(e) =>
          match ParsePermsInfo(s[n + 1..])
          case None => None
          case Some(es) => Some([e] + es)
  }

  lemma IntTextOf(i: int)
    ensures IsIntText(IntToString(i))
    ensures forall j :: 0 <= j < |IntToString(i)| ==> IntToString(i)[j] != ']' && IntToString(i)[j] != '\n'
  {
    var s := IntToString(i);
    forall j | 0 <= j < |s|
      ensures s[j] != ']' && s[j] != '\n'
    {
      if i < 0 && j > 0 {
        assert s[j] == s[1..][j - 1];
      }
    }
  }

  lemma ParseAccOf(a: Acceptability, rest: string)
    ensures ParseAcc(AccName(a) + rest) == Some((a, rest))
  {
    StripPrefixOf(AccName(a), rest);
    if a == Deny {
      var s := AccName(a) + rest;
      assert s[0] == 'd';
    }
  }

  lemma ParseOpOf(o: Operation, rest: string)
    ensures ParseOp(OpName(o) + rest) == Some((o, rest))
  {
    StripPrefixOf(OpName(o), rest);
    if o == Write {
      var s := OpName(o) + rest;
      assert s[0] == 'w';
    }
  }

  /** The text of a permission line before its newline. */
  function PermLineText(p: Permission): string {
    "[" + IntToString(p.id) + "]: " + AccName(p.acc) + " " + OpName(p.op) + " on " + ObjText(p.obj)
  }

  lemma PermLineSplit(p: Permission)
    ensures PermLine(p) == PermLineText(p) + "\n"
    ensures NoNewline(ObjText(p.obj)) ==> NoNewline(PermLineText(p))
  {
    IntTextOf(p.id);
  }

  lemma ParseFieldsOf(a: Acceptability, o: Operation, obj: string)
    ensures ParseFields("]: " + AccName(a) + " " + OpName(o) + " on " + obj) == Some((a, o, obj))
  {
    var r4 := " on " + obj;
    var r3 := OpName(o) + r4;
    var r2 := " " + r3;
    var r1 := AccName(a) + r2;
    assert "]: " + AccName(a) + " " + OpName(o) + " on " + obj == "]: " + r1;
    StripPrefixOf("]: ", r1);
    ParseAccOf(a, r2);
    StripPrefixOf(" ", r3);
    ParseOpOf(o, r4);
    StripPrefixOf(" on ", obj);
  }

  /** A line made of `[`, an id text free of `]`, and a remainder starting
      at the `]` reads as the id followed by the remainder's fields. */
  lemma ParseLineParts(id: string, tail: string)
    requires IsIntText(id)
    requires forall j :: 0 <= j < |id| ==> id[j] != ']'
    requires |tail| > 0 && tail[0] == ']'
    ensures ParsePermLine("[" + id + tail) ==
      match ParseFields(tail)
      case None => None
      case Some((acc, op, obj)) => Some(PermEntry(ParseInt(id), acc, op, obj))
  {
    var body := id + tail;
    assert "[" + id + tail == "[" + body;
    assert ("[" + body)[1..] == body;
    FindAt(body, ']', |id|);
    assert body[..|id|] == id;
    assert body[|id|..] == tail;
  }

  /** A permission line reads back as the permission's entry. */
  lemma ParsePermLineOf(p: Permission)
    ensures ParsePermLine(PermLineText(p)) == Some(Entry(p))
  {
    var id := IntToString(p.id);
    var tail := "]: " + AccName(p.acc) + " " + OpName(p.op) + " on " + ObjText(p.obj);
    assert PermLineText(p) == "[" + id + tail;
    IntTextOf(p.id);
    ParseLineParts(id, tail);
    ParseFieldsOf(p.acc, p.op, ObjText(p.obj));
    ParseIntToString(p.id);
  }

  lemma {:induction false} PermsInfoConcat(a: seq<Permission>, b: seq<Permission>)
    ensures PermsInfo(a + b) == PermsInfo(a) + PermsInfo(b)
    decreases |b|
  {
    if |b| == 0 {
      ConcatEmpty(a);
      ConcatEmpty(PermsInfo(a));
    } else {
      var init, last := b[..|b| - 1], b[|b| - 1];
      DropLastConcat(a, b);
      PermsInfoConcat(a, init);
      ConcatAssoc(PermsInfo(a), PermsInfo(init), PermLine(last));
    }
  }

  lemma PermsInfoFront(p: Permission, rest: seq<Permission>)
    ensures PermsInfo([p] + rest) == PermLineText(p) + "\n" + PermsInfo(rest)
  {
    calc {
      PermsInfo([p] + rest);
      { PermsInfoConcat([p], rest); }
      PermsInfo([p]) + PermsInfo(rest);
      { PermsInfoSingle(p); }
      PermLine(p) + PermsInfo(rest);
      { PermLineSplit(p); }
      PermLineText(p) + "\n" + PermsInfo(rest);
    }
  }

  lemma PermsInfoSingle(p: Permission)
    ensures PermsInfo([p]) == PermLine(p)
  {
    assert [p][..0] == [];
  }

  /** A report starting with a newline-free line reads as that line
      followed by the rest. */
  lemma ParseReportFront(line: string, rest: string)
    requires NoNewline(line)
    ensures ParsePermsInfo(line + "\n" + rest) ==
      match ParsePermLine(line)
      case None => None
      case Some(e) =>
        match ParsePermsInfo(rest)
        case None => None
        case Some(es) => Some([e] + es)
  {
    var s := line + "\n" + rest;
    SplitAround(line, '\n', rest);
    FindAt(s, '\n', |line|);
  }

  /** The permission report reads back, in list order, as the entries of the
      permissions, provided no object text contains a newline. */
  lemma {:induction false} ParsePermsInfoOf(perms: seq<Permission>)
    requires forall i :: 0 <= i < |perms| ==> NoNewline(ObjText(perms[i].obj))
    ensures ParsePermsInfo(PermsInfo(perms)) == Some(Entries(perms))
    decreases |perms|
  {
    if |perms| > 0 {
      var p, rest := perms[0], perms[1..];
      assert perms == [p] + rest;
      PermsInfoFront(p, rest);
      PermLineSplit(p);
      ParseReportFront(PermLineText(p), PermsInfo(rest));
      ParsePermLineOf(p);
      ParsePermsInfoOf(rest);
    }
  }

  /** A permission with no object and one whose object is the text "all"
      print the same line, so the report cannot tell them apart. */
  lemma AllObjectIsAmbiguous(p: Permission)
    ensures PermLine(p.(obj := None)) == PermLine(p.(obj := Some("all")))
    ensures Entry(p.(obj := None)) == Entry(p.(obj := Some("all")))
  {
  }

  /** Role names are printed as they are, so a name may itself contain the
      suffix or a slot line: two unbound roles, the second named `\tperm[0]`,
      print the same report as one role whose name ends in the suffix and
      whose slot 0 is bound. The roles report can only be read back block by
      block, for names without such text. */
  lemma RoleNameIsAmbiguous(n: string, id: PermId, a: int, b: int, c: int)
    ensures RolesInfo([Role(n, EmptySlots(), a), Role("\tperm[0]", EmptySlots(), b)]) ==
      RolesInfo([Role(n + NoBindSuffix, EmptySlots()[0 := Some(id)], c)])
  {
    var r1, r2 := Role(n, EmptySlots(), a), Role("\tperm[0]", EmptySlots(), b);
    var r3 := Role(n + NoBindSuffix, EmptySlots()[0 := Some(id)], c);
    var S, slot := NoBindSuffix, "\tperm[" + "0" + "]";
    RolesInfoConcat([r1], [r2]);
    assert [r1] + [r2] == [r1, r2];
    RolesInfoSingle(r1);
    RolesInfoSingle(r2);
    RolesInfoSingle(r3);
    UnboundRoleBlock(r1);
    UnboundRoleBlock(r2);
    SlotLinesTailNone(r3.perms, 1, RoleMaxPerms);
    assert NatToString(0) == [DigitChar(0)];
    assert SlotLines(r3.perms, 1) == "" + SlotLine(0);
    assert "" + SlotLine(0) == "\n" + slot;
    assert RoleBlock(r3) == (n + S) + ("\n" + slot) + S + "\n";
    assert "\tperm[0]" == slot;
    calc {
      RoleBlock(r1) + RoleBlock(r2);
      (n + S + "\n") + (slot + S + "\n");
      { ConcatAssoc(n + S, "\n", slot + S + "\n"); }
      (n + S) + ("\n" + (slot + S + "\n"));
      { ConcatAssoc("\n", slot + S, "\n"); ConcatAssoc("\n", slot, S); }
      (n + S) + ("\n" + slot + S + "\n");
      { ConcatAssoc(n + S, "\n" + slot + S, "\n"); ConcatAssoc(n + S, "\n" + slot, S); }
      RoleBlock(r3);
    }
  }

  /** The occupied slot indices among the first `n`, ascending. */
  function Occupied(slots: seq<Slot>, n: nat): (r: seq<nat>)
    requires n <= |slots|
    ensures forall a :: 0 <= a < |r| ==> r[a] < n && slots[r[a]].Some?
    ensures forall k :: 0 <= k < n && slots[k].Some? ==> k in r
    ensures forall a, b :: 0 <= a < b < |r| ==> r[a] < r[b]
  {
    if n == 0 then []
    else Occupied(slots, n - 1) + (if slots[n - 1].Some? then [n - 1] else [])
  }

  /** The slot lines for a list of slot indices. */
  function IndexLines(idx: seq<nat>): string {
    if |idx| == 0 then "" else SlotLine(idx[0]) + IndexLines(idx[1..])
  }

  lemma {:induction false} IndexLinesSnoc(idx: seq<nat>, k: nat)
    ensures IndexLines(idx + [k]) == IndexLines(idx) + SlotLine(k)
    decreases |idx|
  {
    if |idx| == 0 {
      assert idx + [k] == [k];
    } else {
      assert (idx + [k])[1..] == idx[1..] + [k];
      IndexLinesSnoc(idx[1..], k);
    }
  }

  /** One more slot adds its line exactly when it adds its index. */
  lemma SlotLinesStep(slots: seq<Slot>, n: nat, prev: seq<nat>)
    requires 0 < n <= |slots|
    requires prev == Occupied(slots, n - 1)
    requires SlotLines(slots, n - 1) == IndexLines(prev)
    ensures SlotLines(slots, n) == IndexLines(Occupied(slots, n))
  {
    if slots[n - 1].Some? {
      assert Occupied(slots, n) == prev + [n - 1];
      IndexLinesSnoc(prev, n - 1);
    } else {
      ConcatEmpty(prev);
      assert Occupied(slots, n) == prev;
      ConcatEmpty(SlotLines(slots, n - 1));
    }
  }

  /** The slot part of a role block lists exactly the occupied slots, in
      ascending index order. */
  lemma {:induction false} SlotLinesAsOccupied(slots: seq<Slot>, n: nat)
    requires n <= |slots|
    ensures SlotLines(slots, n) == IndexLines(Occupied(slots, n))
  {
    if n > 0 {
      SlotLinesAsOccupied(slots, n - 1);
      SlotLinesStep(slots, n, Occupied(slots, n - 1));
    } else {
      assert Occupied(slots, 0) == [];
    }
  }

  /** Reads the slot lines back into slot indices. */
  function ParseSlotLines(s: string): Option<seq<nat>>
    decreases |s|
  {
    if |s| == 0 then Some([])
    else
      match StripPrefix(s, "\n\tperm[")
      case None => None
      case Some(r) =>
        match Find(r, ']')
        case None => None
        case Some(e) =>
          var digits := r[..e];
          if |digits| == 0 || !AllDigits(digits) then None
          else
            match ParseSlotLines(r[e + 1..])
            case None => None
            case Some(rest) => Some([ParseNat(digits)] + rest)
  }

  lemma {:induction false} ParseSlotLinesOf(idx: seq<nat>)
    ensures ParseSlotLines(IndexLines(idx)) == Some(idx)
    decreases |idx|
  {
    if |idx| > 0 {
      var digits := NatToString(idx[0]);
      var rest := IndexLines(idx[1..]);
      var r := digits + ("]" + rest);
      assert IndexLines(idx) == "\n\tperm[" + r;
      StripPrefixOf("\n\tperm[", r);
      FindAt(r, ']', |digits|);
      assert r[..|digits|] == digits;
      assert r[|digits| + 1..] == rest;
      ParseNatToString(idx[0]);
      ParseSlotLinesOf(idx[1..]);
      assert idx == [idx[0]] + idx[1..];
    }
  }

  /** Reads one role block: the name and the occupied slot indices. */
  function ParseRoleBlock(text: string): Option<(string, seq<nat>)> {
    var suffix := NoBindSuffix + "\n";
    if |text| < |suffix| || text[|text| - |suffix|..] != suffix then None
    else
      var head := text[..|text| - |suffix|];
      match Find(head, '\n')
      case None => Some((head, []))
      case Some(n) =>
        match ParseSlotLines(head[n..])
        case None => None
        case Some(idx) => Some((head[..n], idx))
  }

  /** A role's block reads back as its name and its occupied slot indices,
      provided the name has no newline. */
  lemma RoleBlockRoundTrip(r: Role)
    requires NoNewline(r.name)
    ensures ParseRoleBlock(RoleBlock(r)) == Some((r.name, Occupied(r.perms, RoleMaxPerms)))
  {
    var occ := Occupied(r.perms, RoleMaxPerms);
    SlotLinesAsOccupied(r.perms, RoleMaxPerms);
    var lines := IndexLines(occ);
    var head := r.name + lines;
    var suffix := NoBindSuffix + "\n";
    var text := head + suffix;
    assert RoleBlock(r) == text;
    assert text[|text| - |suffix|..] == suffix;
    assert text[..|text| - |suffix|] == head;
    if |occ| == 0 {
      assert head == r.name;
    } else {
      assert lines[0] == '\n';
      FindAt(head, '\n', |r.name|);
      assert head[..|r.name|] == r.name;
      assert head[|r.name|..] == lines;
      ParseSlotLinesOf(occ);
    }
  }

  lemma {:induction false} RolesInfoConcat(a: seq<Role>, b: seq<Role>)
    ensures RolesInfo(a + b) == RolesInfo(a) + RolesInfo(b)
    decreases |b|
  {
    if |b| == 0 {
      ConcatEmpty(a);
      ConcatEmpty(RolesInfo(a));
    } else {
      var init, last := b[..|b| - 1], b[|b| - 1];
      DropLastConcat(a, b);
      RolesInfoConcat(a, init);
      ConcatAssoc(RolesInfo(a), RolesInfo(init), RoleBlock(last));
    }
  }

  /** The role report is the blocks of the roles, in list order: a role's
      block sits between the blocks of the roles before and after it. */
  lemma RolesInfoAt(pre: seq<Role>, r: Role, post: seq<Role>)
    ensures RolesInfo(pre + [r] + post) == RolesInfo(pre) + RoleBlock(r) + RolesInfo(post)
  {
    RolesInfoConcat(pre + [r], post);
    RolesInfoConcat(pre, [r]);
    RolesInfoSingle(r);
  }

  lemma RolesInfoSingle(r: Role)
    ensures RolesInfo([r]) == RoleBlock(r)
  {
    assert [r][..0] == [];
  }

  /** Empty slots past index `m` add nothing to the slot lines. */
  lemma {:induction false} SlotLinesTailNone(slots: seq<Slot>, m: nat, n: nat)
    requires m <= n <= |slots|
    requires forall j :: m <= j < n ==> slots[j].None?
    ensures SlotLines(slots, n) == SlotLines(slots, m)
    decreases n
  {
    if n > m {
      SlotLinesTailNone(slots, m, n - 1);
    }
  }

  /** A role with every slot empty prints as its name and the suffix. */
  lemma UnboundRoleBlock(r: Role)
    requires forall j :: 0 <= j < RoleMaxPerms ==> r.perms[j].None?
    ensures RoleBlock(r) == r.name + NoBindSuffix + "\n"
  {
    SlotLinesTailNone(r.perms, 0, RoleMaxPerms);
    assert r.name + "" == r.name;
  }
}
