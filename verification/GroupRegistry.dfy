/**
 What the group manager keeps, as a value: the live groups, the free addresses in the order
 they will be issued, and the addresses that refused duplicate creates took and never gave back.
 */
module GroupRegistry {
  import opened CStrings
  import opened Decimal

  datatype GroupState = GroupState(address: CString, members: set<CString>)

  datatype Registry = Registry(groups: map<CString, GroupState>, free: seq<CString>, leaked: seq<CString>)

  datatype GroupMngResult =
    | GroupMngSuccess
    | GroupMngDuplicate
    | GroupDoesNotExist
    | UserDoesNotExist
    | GroupMngGeneralError

  datatype GroupOp =
    | AddGroup(group: CString)
    | DeleteGroup(group: CString)
    | AddUser(user: CString, group: CString)
    | RemoveUser(user: CString, group: CString)
    | RemoveUserFromAll(user: CString)

  /** Every group with `user` no longer in it. */
  function WithoutUser(groups: map<CString, GroupState>, user: CString): map<CString, GroupState> {
    map n | n in groups :: groups[n].(members := groups[n].members - {user})
  }

  /** One call of the group manager. */
  function Apply(r: Registry, op: GroupOp): (Registry, GroupMngResult) {
    match op
    case AddGroup(g) =>
      if r.free == [] then (r, GroupMngGeneralError)
      else if g in r.groups then
        (r.(free := r.free[1..], leaked := r.leaked + [r.free[0]]), GroupMngDuplicate)
      else
        (r.(groups := r.groups[g := GroupState(r.free[0], {})], free := r.free[1..]), GroupMngSuccess)
    case DeleteGroup(g) =>
      if g !in r.groups then (r, GroupDoesNotExist)
      else (r.(groups := r.groups - {g}, free := r.free + [r.groups[g].address]), GroupMngSuccess)
    case AddUser(u, g) =>
      if g !in r.groups then (r, GroupDoesNotExist)
      else if u in r.groups[g].members then (r, GroupMngDuplicate)
      else
        (r.(groups := r.groups[g := r.groups[g].(members := r.groups[g].members + {u})]), GroupMngSuccess)
    case RemoveUser(u, g) =>
      if g !in r.groups then (r, GroupDoesNotExist)
      else if u !in r.groups[g].members then (r, UserDoesNotExist)
      else
        (r.(groups := r.groups[g := r.groups[g].(members := r.groups[g].members - {u})]), GroupMngSuccess)
    case RemoveUserFromAll(u) =>
      (r.(groups := WithoutUser(r.groups, u)), GroupMngSuccess)
  }

  /** The three ways a create can go. */
  lemma AddGroupCases(r: Registry, g: CString)
    ensures Apply(r, AddGroup(g)) ==
            if r.free == [] then (r, GroupMngGeneralError)
            else if g in r.groups then
              (r.(free := r.free[1..]).(leaked := r.leaked + [r.free[0]]), GroupMngDuplicate)
            else
              (r.(free := r.free[1..]).(groups := r.groups[g := GroupState(r.free[0], {})]), GroupMngSuccess)
  {
  }

  function Initial(pool: seq<CString>): Registry {
    Registry(map[], pool, [])
  }

  function Calls(r: Registry, ops: seq<GroupOp>): Registry {
    if ops == [] then r else Apply(Calls(r, ops[..|ops| - 1]), ops[|ops| - 1]).0
  }

  /** How many creates of a run were refused as duplicates. */
  function DuplicateCreates(r: Registry, ops: seq<GroupOp>): nat {
    if ops == [] then 0
    else
      var before, last := ops[..|ops| - 1], ops[|ops| - 1];
      DuplicateCreates(r, before)
      + if last.AddGroup? && Apply(Calls(r, before), last).1 == GroupMngDuplicate then 1 else 0
  }

  // ------------------------------------------------------------------- repeated creates

  /** Creating an existing group `n` times over loses the next `n` addresses, and nothing else. */
  lemma {:induction false} RepeatedCreatesDrain(r: Registry, g: CString, n: nat)
    requires g in r.groups
    ensures var k := Min(n, |r.free|);
      Calls(r, seq(n, _ => AddGroup(g))) == r.(free := r.free[k..], leaked := r.leaked + r.free[..k])
  {
    var ops := seq(n, _ => AddGroup(g));
    if n == 0 {
      assert r.free[0..] == r.free && r.leaked + r.free[..0] == r.leaked;
    } else {
      RepeatedCreatesDrain(r, g, n - 1);
      assert ops[..n - 1] == seq(n - 1, _ => AddGroup(g));
      var k := Min(n - 1, |r.free|);
      if k < |r.free| {
        assert r.free[k..][1..] == r.free[k + 1..];
        assert r.leaked + r.free[..k] + [r.free[k]] == r.leaked + r.free[..k + 1];
      }
    }
  }

  // --------------------------------------------------------------- address conservation

  /** No address is in use twice, whether free, leaked or held by a live group. */
  ghost predicate NoSharing(r: Registry) {
    && Distinct(r.free)
    && Distinct(r.leaked)
    && (forall a :: a in r.free ==> a !in r.leaked)
    && (forall m, n :: m in r.groups && n in r.groups && m != n ==>
          r.groups[m].address != r.groups[n].address)
    && (forall n :: n in r.groups ==>
          r.groups[n].address !in r.free && r.groups[n].address !in r.leaked)
  }

  ghost predicate Holds(r: Registry, n: CString, a: CString) {
    n in r.groups && r.groups[n].address == a
  }

  ghost predicate Accounted(r: Registry, a: CString) {
    a in r.free || a in r.leaked || exists n :: Holds(r, n, a)
  }

  /** Free, live and leaked addresses partition the pool. */
  ghost predicate Conserved(r: Registry, pool: seq<CString>) {
    && NoSharing(r)
    && |r.free| + |r.groups| + |r.leaked| == |pool|
    && (forall a :: a in pool <==> Accounted(r, a))
  }

  lemma InitialConserved(pool: seq<CString>)
    requires Distinct(pool)
    ensures Conserved(Initial(pool), pool)
  {
  }

  lemma IssueConserves(r: Registry, g: CString, pool: seq<CString>)
    requires Conserved(r, pool)
    ensures Conserved(Apply(r, AddGroup(g)).0, pool)
  {
    var s := Apply(r, AddGroup(g)).0;
    if r.free != [] {
      var head, tail := r.free[0], r.free[1..];
      assert forall a :: a in r.free <==> a == head || a in tail;
      assert head in r.free && s.free == tail && head !in tail;
      assert NoSharing(s);
      forall a ensures Accounted(r, a) <==> Accounted(s, a) {
        if g !in r.groups {
          assert Holds(s, g, head);
          assert forall n :: n != g ==> (Holds(s, n, a) <==> Holds(r, n, a));
        } else {
          assert forall n :: Holds(s, n, a) <==> Holds(r, n, a);
        }
      }
    }
  }

  lemma ReturnConserves(r: Registry, g: CString, pool: seq<CString>)
    requires Conserved(r, pool)
    ensures Conserved(Apply(r, DeleteGroup(g)).0, pool)
  {
    var s := Apply(r, DeleteGroup(g)).0;
    if g in r.groups {
      var back := r.groups[g].address;
      assert s.groups.Keys == r.groups.Keys - {g};
      assert |s.groups| == |s.groups.Keys| == |r.groups.Keys| - 1 == |r.groups| - 1;
      assert Holds(r, g, back);
      assert forall n, a :: n != g ==> (Holds(s, n, a) <==> Holds(r, n, a));
      assert forall a :: a in s.free <==> a in r.free || a == back;
      assert NoSharing(s);
    }
  }

  lemma SameAddressesConserve(r: Registry, s: Registry, pool: seq<CString>)
    requires Conserved(r, pool)
    requires s.free == r.free && s.leaked == r.leaked
    requires s.groups.Keys == r.groups.Keys
    requires forall n :: n in r.groups ==> s.groups[n].address == r.groups[n].address
    ensures Conserved(s, pool)
  {
    assert |s.groups| == |s.groups.Keys| && |r.groups| == |r.groups.Keys|;
    assert forall n, a :: Holds(s, n, a) <==> Holds(r, n, a);
  }

  /** Membership changes move no address and no group. */
  lemma MembershipConserves(r: Registry, op: GroupOp, pool: seq<CString>)
    requires !op.AddGroup? && !op.DeleteGroup?
    requires Conserved(r, pool)
    ensures Conserved(Apply(r, op).0, pool)
  {
    hide Conserved;
    var s := Apply(r, op).0;
    assert s.groups.Keys == r.groups.Keys;
    SameAddressesConserve(r, s, pool);
  }

  lemma ApplyConserves(r: Registry, op: GroupOp, pool: seq<CString>)
    requires Conserved(r, pool)
    ensures Conserved(Apply(r, op).0, pool)
  {
    match op
    case AddGroup(g) => IssueConserves(r, g, pool);
    case DeleteGroup(g) => ReturnConserves(r, g, pool);
    case _ => MembershipConserves(r, op, pool);
  }

  /**
   Over every run, from any pool of distinct addresses: the partition holds, and the addresses
   lost are exactly one for each create refused as a duplicate.
   */
  lemma {:induction false} RunConserves(pool: seq<CString>, ops: seq<GroupOp>)
    requires Distinct(pool)
    ensures Conserved(Calls(Initial(pool), ops), pool)
    ensures |Calls(Initial(pool), ops).leaked| == DuplicateCreates(Initial(pool), ops)
  {
    if ops == [] {
      InitialConserved(pool);
    } else {
      var before := ops[..|ops| - 1];
      RunConserves(pool, before);
      ApplyConserves(Calls(Initial(pool), before), ops[|ops| - 1], pool);
    }
  }

  /** A live group's address always finds room in the queue it is returned to. */
  lemma ReturnHasRoom(r: Registry, g: CString, pool: seq<CString>)
    requires Conserved(r, pool)
    requires g in r.groups
    ensures |r.free| < |pool|
  {
    assert |r.groups.Keys| > 0;
  }

  const QUEUE_SIZE := 100

  /**
   The server's own pool: in every reachable state each live group has an address of its own,
   "224.0.0." and the decimal text of a number from 1 to 100, which is not waiting in the queue;
   and duplicate creates have cut the number of groups there can be, one for one.
   */
  lemma LiveAddresses(ops: seq<GroupOp>, m: CString, n: CString)
    requires m in Calls(Initial(Pool(QUEUE_SIZE)), ops).groups
    requires n in Calls(Initial(Pool(QUEUE_SIZE)), ops).groups
    ensures var r := Calls(Initial(Pool(QUEUE_SIZE)), ops);
      && (r.groups[m].address == r.groups[n].address ==> m == n)
      && r.groups[m].address !in r.free
      && (exists i :: 1 <= i <= QUEUE_SIZE && r.groups[m].address == Address(i))
      && |r.groups| + |r.free| == QUEUE_SIZE - DuplicateCreates(Initial(Pool(QUEUE_SIZE)), ops)
  {
    PoolDistinct(QUEUE_SIZE);
    RunConserves(Pool(QUEUE_SIZE), ops);
    var r := Calls(Initial(Pool(QUEUE_SIZE)), ops);
    assert Holds(r, m, r.groups[m].address);
    PoolAddress(QUEUE_SIZE, r.groups[m].address);
  }

  /** Deleting a group just created restores the groups, but its address goes to the back. */
  lemma CreateThenDelete(r: Registry, g: CString)
    requires g !in r.groups && r.free != []
    ensures var s := Apply(Apply(r, AddGroup(g)).0, DeleteGroup(g)).0;
      s == r.(free := r.free[1..] + [r.free[0]])
  {
    var s := Apply(Apply(r, AddGroup(g)).0, DeleteGroup(g)).0;
    assert s.groups == r.groups;
  }
}
