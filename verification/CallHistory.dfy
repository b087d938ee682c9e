/**
 What the group manager's state and results say about the calls it has had, deletes included, for
 every sequence of calls from any pool of addresses.
 */
module CallHistory {
  import opened CStrings
  import opened GroupRegistry

  function After(pool: seq<CString>, ops: seq<GroupOp>): Registry {
    Calls(Initial(pool), ops)
  }

  /** What call `i` returned. */
  function ResultAt(pool: seq<CString>, ops: seq<GroupOp>, i: nat): GroupMngResult
    requires i < |ops|
  {
    Apply(After(pool, ops[..i]), ops[i]).1
  }

  lemma ResultPrefix(pool: seq<CString>, ops: seq<GroupOp>, n: nat, i: nat)
    requires i < n <= |ops|
    ensures ResultAt(pool, ops[..n], i) == ResultAt(pool, ops, i)
    ensures ops[..n][..i] == ops[..i]
  {
    assert ops[..n][..i] == ops[..i];
  }

  // ------------------------------------------------------------------------ live groups

  /** Call `i` created `g`, with the address then at the front of the queue. */
  ghost predicate AddedAt(pool: seq<CString>, ops: seq<GroupOp>, i: int, g: CString) {
    0 <= i < |ops| && ops[i] == AddGroup(g) && ResultAt(pool, ops, i) == GroupMngSuccess
  }

  /** Call `i` created `g` and no delete of it has followed. */
  ghost predicate StillLive(pool: seq<CString>, ops: seq<GroupOp>, i: int, g: CString) {
    AddedAt(pool, ops, i, g) && forall j :: i < j < |ops| ==> ops[j] != DeleteGroup(g)
  }

  lemma StillLiveBefore(pool: seq<CString>, ops: seq<GroupOp>, i: int, g: CString)
    requires ops != []
    ensures var n := |ops| - 1;
      StillLive(pool, ops, i, g) <==>
        if i == n then AddedAt(pool, ops, n, g)
        else StillLive(pool, ops[..n], i, g) && ops[n] != DeleteGroup(g)
  {
    hide After, Apply;
    var n := |ops| - 1;
    if 0 <= i < n {
      ResultPrefix(pool, ops, n, i);
    }
  }

  lemma LiveAfter(r: Registry, op: GroupOp, g: CString)
    ensures g in Apply(r, op).0.groups <==>
            || (op == AddGroup(g) && Apply(r, op).1 == GroupMngSuccess)
            || (g in r.groups && op != DeleteGroup(g))
  {
  }

  /** A group is live exactly when some successful create of it has no later delete. */
  lemma {:induction false} LiveByCalls(pool: seq<CString>, ops: seq<GroupOp>, g: CString)
    ensures g in After(pool, ops).groups <==> exists i :: StillLive(pool, ops, i, g)
  {
    if ops != [] {
      var before, n := ops[..|ops| - 1], |ops| - 1;
      LiveByCalls(pool, before, g);
      LiveAfter(After(pool, before), ops[n], g);
      assert After(pool, ops) == Apply(After(pool, before), ops[n]).0;
      var added, gone := AddedAt(pool, ops, n, g), ops[n] == DeleteGroup(g);
      assert g in After(pool, ops).groups <==> added || (g in After(pool, before).groups && !gone);
      assert !StillLive(pool, before, n, g);
      hide *;
      forall i ensures StillLive(pool, ops, i, g) <==>
                       if i == n then added else StillLive(pool, before, i, g) && !gone {
        StillLiveBefore(pool, ops, i, g);
      }
      assert added ==> StillLive(pool, ops, n, g);
    }
  }

  // -------------------------------------------------------------------------- addresses

  /** Call `i` created `g`, which is still live, with address `a` from the front of the queue. */
  ghost predicate LiveAt(pool: seq<CString>, ops: seq<GroupOp>, i: int, g: CString, a: CString) {
    StillLive(pool, ops, i, g) && After(pool, ops[..i]).free != [] && After(pool, ops[..i]).free[0] == a
  }

  lemma HoldsAfter(r: Registry, op: GroupOp, g: CString, a: CString)
    ensures Holds(Apply(r, op).0, g, a) <==>
            || (op == AddGroup(g) && Apply(r, op).1 == GroupMngSuccess && r.free != [] && r.free[0] == a)
            || (Holds(r, g, a) && op != DeleteGroup(g))
  {
  }

  /** A live group's address is the one at the front of the queue when it was created. */
  lemma {:induction false} AddressByCalls(pool: seq<CString>, ops: seq<GroupOp>, g: CString, a: CString)
    ensures Holds(After(pool, ops), g, a) <==> exists i :: LiveAt(pool, ops, i, g, a)
  {
    if ops != [] {
      var before, n := ops[..|ops| - 1], |ops| - 1;
      AddressByCalls(pool, before, g, a);
      HoldsAfter(After(pool, before), ops[n], g, a);
      assert After(pool, ops) == Apply(After(pool, before), ops[n]).0;
      var r := After(pool, before);
      var added := AddedAt(pool, ops, n, g) && r.free != [] && r.free[0] == a;
      var gone := ops[n] == DeleteGroup(g);
      assert Holds(After(pool, ops), g, a) <==> added || (Holds(r, g, a) && !gone);
      forall i ensures LiveAt(pool, ops, i, g, a) <==>
                       if i == n then added else LiveAt(pool, before, i, g, a) && !gone {
        hide After, Apply, Holds;
        StillLiveBefore(pool, ops, i, g);
        if 0 <= i < n {
          ResultPrefix(pool, ops, n, i);
        }
      }
      assert !LiveAt(pool, before, n, g, a);
      hide *;
      assert added ==> LiveAt(pool, ops, n, g, a);
    }
  }

  /** How many creates have taken an address. */
  function Taken(pool: seq<CString>, ops: seq<GroupOp>): nat {
    if ops == [] then 0
    else
      var before, last := ops[..|ops| - 1], ops[|ops| - 1];
      Taken(pool, before)
      + if last.AddGroup? && Apply(After(pool, before), last).1 != GroupMngGeneralError then 1 else 0
  }

  /** The addresses of the groups deleted, in the order of the deletes. */
  function Returned(pool: seq<CString>, ops: seq<GroupOp>): seq<CString> {
    if ops == [] then []
    else
      var before, last := ops[..|ops| - 1], ops[|ops| - 1];
      var r := After(pool, before);
      Returned(pool, before)
      + if last.DeleteGroup? && last.group in r.groups then [r.groups[last.group].address] else []
  }

  /**
   First in, first out: the queue is the pool followed by the addresses returned, less as many
   from the front as creates have taken.
   */
  lemma {:induction false} QueueByCalls(pool: seq<CString>, ops: seq<GroupOp>)
    ensures var all := pool + Returned(pool, ops);
      Taken(pool, ops) <= |all| && After(pool, ops).free == all[Taken(pool, ops)..]
  {
    if ops != [] {
      var before, last := ops[..|ops| - 1], ops[|ops| - 1];
      QueueByCalls(pool, before);
      var r := After(pool, before);
      var all, k := pool + Returned(pool, before), Taken(pool, before);
      if last.DeleteGroup? && last.group in r.groups {
        var a := r.groups[last.group].address;
        assert pool + (Returned(pool, before) + [a]) == all + [a];
        assert (all + [a])[k..] == all[k..] + [a];
      } else {
        assert Returned(pool, ops) == Returned(pool, before);
        if last.AddGroup? && r.free != [] {
          assert all[k..][1..] == all[k + 1..];
        }
      }
    }
  }

  // ------------------------------------------------------------------------- membership

  ghost predicate JoinedAt(pool: seq<CString>, ops: seq<GroupOp>, i: int, u: CString, g: CString) {
    0 <= i < |ops| && ops[i] == AddUser(u, g) && ResultAt(pool, ops, i) == GroupMngSuccess
  }

  /** Calls that end a membership of `u` in `g`. */
  predicate Ends(op: GroupOp, u: CString, g: CString) {
    op == RemoveUser(u, g) || op == RemoveUserFromAll(u) || op == DeleteGroup(g)
  }

  ghost predicate StillMember(pool: seq<CString>, ops: seq<GroupOp>, i: int, u: CString, g: CString) {
    JoinedAt(pool, ops, i, u, g) && forall j :: i < j < |ops| ==> !Ends(ops[j], u, g)
  }

  ghost predicate InGroup(r: Registry, u: CString, g: CString) {
    g in r.groups && u in r.groups[g].members
  }

  lemma StillMemberBefore(pool: seq<CString>, ops: seq<GroupOp>, i: int, u: CString, g: CString)
    requires ops != []
    ensures var n := |ops| - 1;
      StillMember(pool, ops, i, u, g) <==>
        if i == n then JoinedAt(pool, ops, n, u, g)
        else StillMember(pool, ops[..n], i, u, g) && !Ends(ops[n], u, g)
  {
    hide After, Apply;
    var n := |ops| - 1;
    if 0 <= i < n {
      ResultPrefix(pool, ops, n, i);
    }
  }

  lemma InGroupAfter(r: Registry, op: GroupOp, u: CString, g: CString)
    ensures InGroup(Apply(r, op).0, u, g) <==>
            || (op == AddUser(u, g) && Apply(r, op).1 == GroupMngSuccess)
            || (InGroup(r, u, g) && !Ends(op, u, g))
  {
  }

  /** A user is in a group exactly when some successful join has had no call since that ends it. */
  lemma {:induction false} MemberByCalls(pool: seq<CString>, ops: seq<GroupOp>, u: CString, g: CString)
    ensures InGroup(After(pool, ops), u, g) <==> exists i :: StillMember(pool, ops, i, u, g)
  {
    if ops != [] {
      var before, n := ops[..|ops| - 1], |ops| - 1;
      MemberByCalls(pool, before, u, g);
      InGroupAfter(After(pool, before), ops[n], u, g);
      assert After(pool, ops) == Apply(After(pool, before), ops[n]).0;
      var joined, ended := JoinedAt(pool, ops, n, u, g), Ends(ops[n], u, g);
      assert InGroup(After(pool, ops), u, g) <==> joined || (InGroup(After(pool, before), u, g) && !ended);
      assert !StillMember(pool, before, n, u, g);
      hide *;
      forall i ensures StillMember(pool, ops, i, u, g) <==>
                       if i == n then joined else StillMember(pool, before, i, u, g) && !ended {
        StillMemberBefore(pool, ops, i, u, g);
      }
      assert joined ==> StillMember(pool, ops, n, u, g);
    }
  }

  // ---------------------------------------------------------------------------- results

  ghost predicate Live(pool: seq<CString>, ops: seq<GroupOp>, g: CString) {
    exists i :: StillLive(pool, ops, i, g)
  }

  ghost predicate Joined(pool: seq<CString>, ops: seq<GroupOp>, u: CString, g: CString) {
    exists i :: StillMember(pool, ops, i, u, g)
  }

  /** What a call is to return, in terms of the calls before it. */
  ghost function Expected(pool: seq<CString>, ops: seq<GroupOp>, op: GroupOp): GroupMngResult {
    match op
    case AddGroup(g) =>
      if Taken(pool, ops) == |pool| + |Returned(pool, ops)| then GroupMngGeneralError
      else if Live(pool, ops, g) then GroupMngDuplicate
      else GroupMngSuccess
    case DeleteGroup(g) =>
      if Live(pool, ops, g) then GroupMngSuccess else GroupDoesNotExist
    case AddUser(u, g) =>
      if !Live(pool, ops, g) then GroupDoesNotExist
      else if Joined(pool, ops, u, g) then GroupMngDuplicate
      else GroupMngSuccess
    case RemoveUser(u, g) =>
      if !Live(pool, ops, g) then GroupDoesNotExist
      else if Joined(pool, ops, u, g) then GroupMngSuccess
      else UserDoesNotExist
    case RemoveUserFromAll(_) => GroupMngSuccess
  }

  lemma ResultByCalls(pool: seq<CString>, ops: seq<GroupOp>, op: GroupOp)
    ensures Apply(After(pool, ops), op).1 == Expected(pool, ops, op)
  {
    hide StillLive, StillMember, After, Taken, Returned;
    match op
    case AddGroup(g) =>
      QueueByCalls(pool, ops);
      LiveByCalls(pool, ops, g);
    case DeleteGroup(g) =>
      LiveByCalls(pool, ops, g);
    case AddUser(u, g) =>
      LiveByCalls(pool, ops, g);
      MemberByCalls(pool, ops, u, g);
    case RemoveUser(u, g) =>
      LiveByCalls(pool, ops, g);
      MemberByCalls(pool, ops, u, g);
    case RemoveUserFromAll(_) =>
  }
}
