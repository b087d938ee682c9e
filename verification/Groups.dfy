/**
 The group object and the group manager, updated in place. Hash maps keyed by strings are
 finite maps here; a hash map whose values repeat its keys is a set.
 */
module Groups {
  import opened CStrings
  import opened Decimal
  import opened Containers
  import opened GroupRegistry
  import L = Listing

  datatype GroupResult = GroupSuccess | UserAlreadyExists | GroupUserNotFound

  class Group {
    const groupName: CString
    const groupIP: CString
    var users: set<CString>

    constructor (name: CString, ip: CString)
      ensures groupName == name && groupIP == ip && users == {}
    {
      groupName, groupIP, users := name, ip, {};
    }

    /** Leaves the address out-parameter unset on a duplicate, like the original. */
    method AddUser(user: CString) returns (result: GroupResult, ip: Option<CString>)
      modifies this
      ensures users == old(users) + {user}
      ensures if user in old(users) then result == UserAlreadyExists && ip == None
              else result == GroupSuccess && ip == Some(groupIP)
    {
      if user in users {
        return UserAlreadyExists, None;
      }
      users := users + {user};
      return GroupSuccess, Some(groupIP);
    }

    method RemoveUser(user: CString) returns (result: GroupResult)
      modifies this
      ensures users == old(users) - {user}
      ensures result == if user in old(users) then GroupSuccess else GroupUserNotFound
    {
      if user !in users {
        return GroupUserNotFound;
      }
      users := users - {user};
      return GroupSuccess;
    }
  }

  const IP_STRING_SIZE := 30

  class GrpMng {
    var groupMap: map<CString, Group>
    const groupsID: Queue<CString>
    ghost var leaked: seq<CString>
    ghost var Repr: set<object>

    /** The objects are where they should be; nothing yet about addresses. */
    ghost predicate Shape()
      reads this, Repr
    {
      && this in Repr
      && groupsID in Repr
      && groupsID.capacity == QUEUE_SIZE
      && (forall n :: n in groupMap ==>
            groupMap[n] in Repr && groupMap[n].groupName == n && |n| < L.MAX_SIZE)
    }

    /** The registry these objects stand for. */
    ghost function View(): Registry
      requires Shape()
      reads this, Repr
    {
      Registry(map n | n in groupMap :: GroupState(groupMap[n].groupIP, groupMap[n].users),
               groupsID.items, leaked)
    }

    ghost predicate Valid()
      reads this, Repr
      ensures Valid() ==> Shape() && this in Repr
    {
      Shape() && Conserved(View(), Pool(QUEUE_SIZE))
    }

    lemma ViewIs(r: Registry)
      requires Shape()
      requires r.free == groupsID.items && r.leaked == leaked
      requires r.groups.Keys == groupMap.Keys
      requires forall n :: n in groupMap ==>
          r.groups[n].address == groupMap[n].groupIP && r.groups[n].members == groupMap[n].users
      ensures View() == r
    {
      assert View().groups == r.groups;
    }

    /** What the methods need of a valid manager, without its definition. */
    lemma Opened()
      requires Valid()
      ensures this in Repr && groupsID in Repr && groupsID.Valid() && groupsID.capacity == QUEUE_SIZE
      ensures View().free == groupsID.items && View().groups.Keys == groupMap.Keys
    {
    }

    lemma Revalidated()
      requires Shape() && Conserved(View(), Pool(QUEUE_SIZE))
      ensures Valid()
    {
    }

    lemma KeysOfView()
      requires Valid()
      ensures View().groups.Keys == groupMap.Keys
    {
    }

    lemma AtMostCapacity()
      requires Valid()
      ensures |groupMap.Keys| <= QUEUE_SIZE
    {
      assert View().groups.Keys == groupMap.Keys;
    }

    /** The pool is filled in a loop, each address spelled into a buffer of its own. */
    constructor ()
      ensures Valid() && fresh(Repr)
      ensures View() == Initial(Pool(QUEUE_SIZE))
    {
      groupMap := map[];
      var queue := new Queue<CString>(QUEUE_SIZE);
      groupsID := queue;
      leaked := [];
      Repr := {this, queue};
      new;
      FillPool(groupsID);
      PoolDistinct(QUEUE_SIZE);
      InitialConserved(Pool(QUEUE_SIZE));
    }

    static method FillPool(queue: Queue<CString>)
      requires queue.Valid() && queue.items == [] && queue.capacity == QUEUE_SIZE
      modifies queue
      ensures queue.Valid() && queue.items == Pool(QUEUE_SIZE)
    {
      var uniqueIP := new byte[5](_ => 0);
      for i := 1 to QUEUE_SIZE + 1
        invariant queue.Valid()
        invariant queue.items == Pool(QUEUE_SIZE)[..i - 1]
      {
        var multiCastIP := new byte[IP_STRING_SIZE](_ => 0);
        DigitsLength(i);
        var _ := MyItoA(i, uniqueIP);
        Strcpy(multiCastIP, PREFIX);
        Strcat(multiCastIP, TextOf(uniqueIP[..]));
        var _ := queue.Insert(TextOf(multiCastIP[..]));
      }
    }

    method AddNewGroup(name: CString) returns (result: GroupMngResult, ip: Option<CString>)
      requires Valid()
      requires |name| < L.MAX_SIZE
      modifies Repr
      ensures Valid() && fresh(Repr - old(Repr))
      ensures (View(), result) == Apply(old(View()), AddGroup(name))
      ensures ip == if result == GroupMngSuccess then Some(old(View()).free[0]) else None
    {
      hide Conserved, Shape, View, Apply;
      ghost var was := View();
      Opened();
      IssueConserves(was, name, Pool(QUEUE_SIZE));
      AddGroupCases(was, name);
      var status, groupIP := TakeAddress();
      if status != QueueSuccess {
        Revalidated();
        return GroupMngGeneralError, None;
      }
      var group := new Group(name, groupIP.value);
      assert View() == was.(free := was.free[1..]);
      if name in groupMap {
        // The address taken from the queue is not put back.
        Leak(groupIP.value);
        Revalidated();
        return GroupMngDuplicate, None;
      }
      InsertGroup(name, group);
      Revalidated();
      return GroupMngSuccess, groupIP;
    }

    /** The queue removal. */
    method TakeAddress() returns (status: QueueResult, groupIP: Option<CString>)
      requires Shape() && groupsID.Valid()
      modifies groupsID
      ensures Shape()
      ensures var was := old(View());
        if was.free == [] then status != QueueSuccess && groupIP == None && View() == was
        else status == QueueSuccess && groupIP == Some(was.free[0]) && View() == was.(free := was.free[1..])
    {
      ghost var was := View();
      status, groupIP := groupsID.Remove();
      ViewIs(if was.free == [] then was else was.(free := was.free[1..]));
    }

    /** Keeps account of an address that no group and no queue holds any more. */
    ghost method Leak(groupIP: CString)
      requires Shape()
      modifies `leaked
      ensures Shape()
      ensures View() == old(View()).(leaked := old(View()).leaked + [groupIP])
    {
      leaked := leaked + [groupIP];
    }

    /** The hash map insertion, for a name not yet in the map. */
    method InsertGroup(name: CString, group: Group)
      requires Shape()
      requires name !in groupMap && |name| < L.MAX_SIZE
      requires group.groupName == name && group.users == {}
      modifies this
      ensures Shape() && Repr == old(Repr) + {group}
      ensures View() == old(View()).(groups := old(View()).groups[name := GroupState(group.groupIP, {})])
    {
      ghost var was := View();
      groupMap := groupMap[name := group];
      Repr := Repr + {group};
      ViewIs(was.(groups := was.groups[name := GroupState(group.groupIP, {})]));
    }

    /** The queue insertion cannot fail, so GroupMngGeneralError is never returned. */
    method DeleteGroup(name: CString) returns (result: GroupMngResult)
      requires Valid()
      modifies Repr
      ensures Valid() && fresh(Repr - old(Repr))
      ensures (View(), result) == Apply(old(View()), GroupOp.DeleteGroup(name))
      ensures result != GroupMngGeneralError
    {
      hide Conserved, Shape, View;
      ghost var was := View();
      Opened();
      ReturnConserves(was, name, Pool(QUEUE_SIZE));
      if name !in groupMap {
        return GroupDoesNotExist;
      }
      ReturnHasRoom(was, name, Pool(QUEUE_SIZE));
      var groupIP := TakeGroup(name);
      var status := ReturnAddress(groupIP);
      if status != QueueSuccess {
        return GroupMngGeneralError;
      }
      Revalidated();
      return GroupMngSuccess;
    }

    /** The queue insertion. */
    method ReturnAddress(groupIP: CString) returns (status: QueueResult)
      requires Shape() && groupsID.Valid()
      modifies groupsID
      ensures Shape()
      ensures if |old(View()).free| < QUEUE_SIZE
              then status == QueueSuccess && View() == old(View()).(free := old(View()).free + [groupIP])
              else status == QueueOverflow && View() == old(View())
    {
      ghost var was := View();
      status := groupsID.Insert(groupIP);
      ViewIs(if |was.free| < QUEUE_SIZE then was.(free := was.free + [groupIP]) else was);
    }

    /** The hash map removal, for a name in the map, and the address its group leaves behind. */
    method TakeGroup(name: CString) returns (groupIP: CString)
      requires Shape()
      requires name in groupMap
      modifies this
      ensures Shape() && Repr == old(Repr)
      ensures groupIP == old(View()).groups[name].address
      ensures View() == old(View()).(groups := old(View()).groups - {name})
    {
      ghost var was := View();
      groupIP := groupMap[name].groupIP;
      groupMap := groupMap - {name};
      ViewIs(was.(groups := was.groups - {name}));
    }

    method AddUserToGroup(user: CString, name: CString) returns (result: GroupMngResult, ip: Option<CString>)
      requires Valid()
      modifies Repr
      ensures Valid() && Repr == old(Repr)
      ensures (View(), result) == Apply(old(View()), GroupOp.AddUser(user, name))
      ensures ip == if result == GroupMngSuccess then Some(old(View()).groups[name].address) else None
    {
      hide Conserved;
      ghost var was := View();
      MembershipConserves(was, GroupOp.AddUser(user, name), Pool(QUEUE_SIZE));
      if name !in groupMap {
        return GroupDoesNotExist, None;
      }
      var status, groupIP := groupMap[name].AddUser(user);
      if status == UserAlreadyExists {
        assert groupMap[name].users == was.groups[name].members;
        assert View().groups == was.groups;
        return GroupMngDuplicate, None;
      }
      assert View().groups ==
             was.groups[name := was.groups[name].(members := was.groups[name].members + {user})];
      return GroupMngSuccess, groupIP;
    }

    method RemoveUserFromGroup(user: CString, name: CString) returns (result: GroupMngResult)
      requires Valid()
      modifies Repr
      ensures Valid() && Repr == old(Repr)
      ensures (View(), result) == Apply(old(View()), GroupOp.RemoveUser(user, name))
    {
      hide Conserved;
      ghost var was := View();
      MembershipConserves(was, GroupOp.RemoveUser(user, name), Pool(QUEUE_SIZE));
      if name !in groupMap {
        return GroupDoesNotExist;
      }
      var status := groupMap[name].RemoveUser(user);
      if status == GroupUserNotFound {
        assert groupMap[name].users == was.groups[name].members;
        assert View().groups == was.groups;
        return UserDoesNotExist;
      }
      assert View().groups ==
             was.groups[name := was.groups[name].(members := was.groups[name].members - {user})];
      return GroupMngSuccess;
    }

    method RemoveUserFromAllGroups(user: CString) returns (result: GroupMngResult)
      requires Valid()
      modifies Repr
      ensures Valid() && Repr == old(Repr)
      ensures (View(), result) == Apply(old(View()), RemoveUserFromAll(user))
      ensures result == GroupMngSuccess
    {
      hide Conserved;
      ghost var was := View();
      MembershipConserves(was, RemoveUserFromAll(user), Pool(QUEUE_SIZE));
      RemoveFromEach(groupMap, user);
      ViewIs(was.(groups := WithoutUser(was.groups, user)));
      return GroupMngSuccess;
    }

    /** Visits the groups in an unspecified order; the callback never stops the iteration. */
    static method RemoveFromEach(groups: map<CString, Group>, user: CString)
      requires forall n :: n in groups ==> groups[n].groupName == n
      modifies groups.Values
      ensures forall n :: n in groups ==> groups[n].users == old(groups[n].users) - {user}
    {
      var pending := groups.Keys;
      while pending != {}
        invariant pending <= groups.Keys
        invariant forall n :: n in groups ==>
            groups[n].users == if n in pending then old(groups[n].users)
                               else old(groups[n].users) - {user}
        decreases |pending|
      {
        var n :| n in pending;
        var _ := groups[n].RemoveUser(user);
        pending := pending - {n};
      }
    }

    /**
     Collects the names into a vector of fixed capacity, then appends each to the text already
     in `text`. `order` is the order in which the map was visited; `within` is false if an append
     would have left the buffer.
     */
    method GetAllGroupNames(text: array<byte>)
      returns (result: GroupMngResult, within: bool, ghost order: seq<CString>)
      requires Valid()
      requires text !in Repr
      requires Terminated(text[..])
      modifies text
      ensures result == GroupMngSuccess
      ensures L.Orders(order, groupMap.Keys)
      ensures within <==> |old(TextOf(text[..]))| + L.ListedLength(groupMap.Keys) < text.Length
      ensures within ==>
                TextOf(text[..]) == old(TextOf(text[..])) + L.Text(order) && Terminated(text[..])
    {
      AtMostCapacity();
      hide *;
      var names := CollectNames(groupMap.Keys);
      order := names;
      L.TextLength(names, groupMap.Keys);
      within := AppendNames(names, text);
      return GroupMngSuccess, within, order;
    }

    /** With no more than 100 keys, the vector refuses none of them. */
    static method CollectNames(keys: set<CString>) returns (names: seq<CString>)
      requires |keys| <= 100
      ensures L.Orders(names, keys)
    {
      var vector := new Vector<CString>(100);
      var pending := keys;
      while pending != {}
        invariant vector.Valid() && vector.capacity == 100 && fresh(vector)
        invariant pending <= keys
        invariant |vector.items| + |pending| == |keys|
        invariant L.Orders(vector.items, keys - pending)
        decreases |pending|
      {
        var n :| n in pending;
        var _ := vector.Append(n);
        pending := pending - {n};
      }
      names := vector.items;
      assert keys - pending == keys;
    }

    /**
     Appends the names one by one. Nothing in the original stops it at the end of the buffer: where
     the next name would not end inside, the behaviour of the C code is undefined from there on,
     and the model stops with `within` false.
     */
    static method AppendNames(names: seq<CString>, text: array<byte>) returns (within: bool)
      requires Terminated(text[..])
      modifies text
      ensures within <==> |old(TextOf(text[..]))| + |L.Text(names)| < text.Length
      ensures within ==>
                TextOf(text[..]) == old(TextOf(text[..])) + L.Text(names) && Terminated(text[..])
    {
      ghost var was := TextOf(text[..]);
      var i := 0;
      assert L.Text(names[..0]) == [];
      assert names[..|names|] == names;
      hide L.Text, TextOf;
      while i < |names|
        invariant 0 <= i <= |names|
        invariant Terminated(text[..])
        invariant TextOf(text[..]) == was + L.Text(names[..i])
      {
        assert names[..i + 1] == names[..i] + [names[i]];
        L.TextAppend(names[..i], names[i]);
        L.TextPrefix(names, i + 1);
        var length := Strlen(text);
        if length + |names[i]| + |L.SEPARATOR| >= text.Length {
          return false;
        }
        Strcat(text, names[i]);
        Strcat(text, L.SEPARATOR);
        Reassociate(was, L.Text(names[..i]), names[i], L.SEPARATOR);
        i := i + 1;
      }
      return true;
    }
  }
}
