/**
 What a server's state says about the requests it has seen, for every sequence of requests,
 in terms of those requests and the replies their senders were given.
 */
module History {
  import opened CStrings
  import opened Decimal
  import opened GroupRegistry
  import opened Chat

  // ------------------------------------------------------------------------- membership

  ghost predicate JoinedAt(h: seq<Request>, i: int, u: CString, g: CString) {
    0 <= i < |h| && h[i] == Join(u, g) && OutcomeAt(Start(), h, i).Success()
  }

  /** Request `j` took `u` out of `g`: it left, or was logged out. */
  ghost predicate RemovedAt(h: seq<Request>, j: int, u: CString, g: CString) {
    && 0 <= j < |h|
    && (h[j] == Leave(u, g) || (h[j] == LogOut(u) && OutcomeAt(Start(), h, j).Success()))
  }

  ghost predicate StillJoined(h: seq<Request>, i: int, u: CString, g: CString) {
    JoinedAt(h, i, u, g) && forall j :: i < j < |h| ==> !RemovedAt(h, j, u, g)
  }

  lemma JoinsAndRemovalsBefore(h: seq<Request>, u: CString, g: CString)
    requires h != []
    ensures forall i :: 0 <= i < |h| - 1 ==>
              (JoinedAt(h[..|h| - 1], i, u, g) <==> JoinedAt(h, i, u, g))
    ensures forall i :: 0 <= i < |h| - 1 ==>
              (RemovedAt(h[..|h| - 1], i, u, g) <==> RemovedAt(h, i, u, g))
  {
    forall i | 0 <= i < |h| - 1
      ensures OutcomeAt(Start(), h[..|h| - 1], i) == OutcomeAt(Start(), h, i)
    {
      OutcomePrefix(Start(), h, |h| - 1, i);
    }
  }

  /** One step: who is in a group afterwards. */
  lemma MemberAfter(s: State, r: Request, u: CString, g: CString)
    ensures Member(Step(s, r).0, u, g) <==>
            || (r == Join(u, g) && Step(s, r).1.Success())
            || (Member(s, u, g) && r != Leave(u, g) && !(r == LogOut(u) && Step(s, r).1.Success()))
  {
  }

  lemma StillJoinedBefore(h: seq<Request>, i: int, u: CString, g: CString)
    requires h != []
    ensures var n := |h| - 1;
      StillJoined(h, i, u, g) <==>
        if i == n then JoinedAt(h, n, u, g)
        else StillJoined(h[..n], i, u, g) && !RemovedAt(h, n, u, g)
  {
    JoinsAndRemovalsBefore(h, u, g);
    var before, n := h[..|h| - 1], |h| - 1;
    if i != n && StillJoined(h, i, u, g) {
      assert !RemovedAt(h, n, u, g);
      forall j | i < j < n ensures !RemovedAt(before, j, u, g) {
        assert !RemovedAt(h, j, u, g);
      }
    }
    if i != n && StillJoined(before, i, u, g) && !RemovedAt(h, n, u, g) {
      forall j | i < j < |h| ensures !RemovedAt(h, j, u, g) {
        assert j < n ==> !RemovedAt(before, j, u, g);
      }
    }
  }

  /**
   A user is in a group exactly when some successful join of that user to it has been followed
   by no leave and no successful logout.
   */
  lemma {:induction false} MembershipByHistory(h: seq<Request>, u: CString, g: CString)
    ensures Member(Run(Start(), h), u, g) <==> exists i :: StillJoined(h, i, u, g)
  {
    if h != [] {
      var before, n := h[..|h| - 1], |h| - 1;
      MembershipByHistory(before, u, g);
      MemberAfter(Run(Start(), before), h[n], u, g);
      assert OutcomeAt(Start(), h, n) == Step(Run(Start(), before), h[n]).1;
      var joined, removed := JoinedAt(h, n, u, g), RemovedAt(h, n, u, g);
      assert Member(Run(Start(), h), u, g) <==> joined || (Member(Run(Start(), before), u, g) && !removed);
      assert !StillJoined(before, n, u, g);
      hide *;
      forall i ensures StillJoined(h, i, u, g) <==>
                       if i == n then joined else StillJoined(before, i, u, g) && !removed {
        StillJoinedBefore(h, i, u, g);
      }
      assert joined ==> StillJoined(h, n, u, g);
    }
  }

  // ------------------------------------------------------------------------- credentials

  predicate Registers(r: Request, u: CString) {
    r.Register? && r.user == u
  }

  /** The earliest registration of `u` is request `i`. */
  ghost predicate FirstRegister(h: seq<Request>, i: int, u: CString) {
    0 <= i < |h| && Registers(h[i], u) && forall j :: 0 <= j < i ==> !Registers(h[j], u)
  }

  ghost predicate FirstPassword(h: seq<Request>, i: int, u: CString, p: CString) {
    FirstRegister(h, i, u) && h[i] == Register(u, p)
  }

  /** If `u` ever registered, there is an earliest registration. */
  lemma {:induction false} FirstExists(h: seq<Request>, j: int, u: CString)
    requires 0 <= j < |h| && Registers(h[j], u)
    ensures exists i :: FirstRegister(h, i, u)
  {
    if k :| 0 <= k < j && Registers(h[k], u) {
      FirstExists(h, k, u);
    } else {
      assert FirstRegister(h, j, u);
    }
  }

  lemma {:induction false} RegisteredByHistory(h: seq<Request>, u: CString)
    ensures u in Run(Start(), h).users <==> exists i :: FirstRegister(h, i, u)
  {
    if h != [] {
      var before, n := h[..|h| - 1], |h| - 1;
      RegisteredByHistory(before, u);
      assert forall i :: i != n ==> (FirstRegister(h, i, u) <==> FirstRegister(before, i, u));
      if Registers(h[n], u) {
        FirstExists(h, n, u);
      }
    }
  }

  lemma {:induction false} PasswordByHistory(h: seq<Request>, u: CString, p: CString)
    ensures (u in Run(Start(), h).users && Run(Start(), h).users[u].password == p)
            <==> exists i :: FirstPassword(h, i, u, p)
  {
    if h != [] {
      var before, n := h[..|h| - 1], |h| - 1;
      PasswordByHistory(before, u, p);
      RegisteredByHistory(before, u);
      assert forall i :: i != n ==> (FirstPassword(h, i, u, p) <==> FirstPassword(before, i, u, p));
      if u in Run(Start(), before).users {
        var i :| FirstRegister(before, i, u);
        assert Registers(h[i], u) && i < n;
        assert !FirstPassword(h, n, u, p);
      } else {
        forall j | 0 <= j < n ensures !Registers(h[j], u) {
          if Registers(h[j], u) {
            assert before[j] == h[j];
            FirstExists(before, j, u);
          }
        }
        assert h[n] == Register(u, p) <==> FirstPassword(h, n, u, p);
      }
    }
  }

  /** A login is accepted exactly when its password is the one the user first registered with. */
  lemma LogInByHistory(h: seq<Request>, u: CString, p: CString)
    ensures Step(Run(Start(), h), LogIn(u, p)).1 == Accepted <==> exists i :: FirstPassword(h, i, u, p)
  {
    PasswordByHistory(h, u, p);
  }

  ghost predicate LoggedAt(h: seq<Request>, i: int, u: CString) {
    && 0 <= i < |h|
    && (h[i].LogIn? || h[i].LogOut?) && h[i].user == u
    && OutcomeAt(Start(), h, i) == Accepted
  }

  /** Request `i` is the latest successful login or logout of `u`, and it is a login. */
  ghost predicate LastLogIn(h: seq<Request>, i: int, u: CString) {
    LoggedAt(h, i, u) && h[i].LogIn? && forall j :: i < j < |h| ==> !LoggedAt(h, j, u)
  }

  /** Latest-login positions, one request earlier. */
  lemma LoggedBefore(h: seq<Request>, u: CString)
    requires h != []
    ensures forall i :: 0 <= i < |h| - 1 ==> (LoggedAt(h[..|h| - 1], i, u) <==> LoggedAt(h, i, u))
  {
    forall i | 0 <= i < |h| - 1
      ensures OutcomeAt(Start(), h[..|h| - 1], i) == OutcomeAt(Start(), h, i)
    {
      OutcomePrefix(Start(), h, |h| - 1, i);
    }
  }

  ghost predicate Active(s: State, u: CString) {
    u in s.users && s.users[u].active
  }

  lemma ActiveAfter(s: State, r: Request, u: CString)
    ensures Active(Step(s, r).0, u) <==>
            if (r.LogIn? || r.LogOut?) && r.user == u && Step(s, r).1 == Accepted then r.LogIn?
            else Active(s, u)
  {
  }

  lemma LastLogInBefore(h: seq<Request>, i: int, u: CString)
    requires h != []
    ensures var n := |h| - 1;
      LastLogIn(h, i, u) <==>
        if i == n then LoggedAt(h, n, u) && h[n].LogIn?
        else LastLogIn(h[..n], i, u) && !LoggedAt(h, n, u)
  {
    LoggedBefore(h, u);
    var before, n := h[..|h| - 1], |h| - 1;
    if i != n && LastLogIn(h, i, u) {
      assert !LoggedAt(h, n, u);
      forall j | i < j < n ensures !LoggedAt(before, j, u) {
        assert !LoggedAt(h, j, u);
      }
    }
    if i != n && LastLogIn(before, i, u) && !LoggedAt(h, n, u) {
      forall j | i < j < |h| ensures !LoggedAt(h, j, u) {
        assert j < n ==> !LoggedAt(before, j, u);
      }
    }
  }

  /** A user is active exactly when its latest successful login or logout was a login. */
  lemma {:induction false} ActiveByHistory(h: seq<Request>, u: CString)
    ensures Active(Run(Start(), h), u) <==> exists i :: LastLogIn(h, i, u)
  {
    if h != [] {
      var before, n := h[..|h| - 1], |h| - 1;
      ActiveByHistory(before, u);
      ActiveAfter(Run(Start(), before), h[n], u);
      assert OutcomeAt(Start(), h, n) == Step(Run(Start(), before), h[n]).1;
      var logged := LoggedAt(h, n, u);
      assert Active(Run(Start(), h), u) <==> if logged then h[n].LogIn? else Active(Run(Start(), before), u);
      assert !LastLogIn(before, n, u);
      hide *;
      forall i ensures LastLogIn(h, i, u) <==>
                       if i == n then logged && h[n].LogIn? else LastLogIn(before, i, u) && !logged {
        LastLogInBefore(h, i, u);
      }
      assert logged && h[n].LogIn? ==> LastLogIn(h, n, u);
    }
  }

  // ---------------------------------------------------------------- two sides of membership

  /** The two sides of membership agree: an account lists the groups that list it. */
  ghost predicate TwoSided(s: State) {
    forall u, g :: u in s.users ==> (g in s.users[u].groups <==> Member(s, u, g))
  }

  /** A request registered `u`, and a join of `u` to `g` still stands. */
  ghost predicate RegisteredAndJoined(h: seq<Request>, j: int, i: int, u: CString, g: CString) {
    FirstRegister(h, j, u) && StillJoined(h, i, u, g)
  }

  lemma StandingJoin(h: seq<Request>, u: CString, g: CString)
    ensures u in Run(Start(), h).users && Member(Run(Start(), h), u, g) <==>
            exists j, i :: RegisteredAndJoined(h, j, i, u, g)
  {
    hide Run, FirstRegister, StillJoined, Member;
    RegisteredByHistory(h, u);
    MembershipByHistory(h, u, g);
    if j, i :| FirstRegister(h, j, u) && StillJoined(h, i, u, g) {
      assert RegisteredAndJoined(h, j, i, u, g);
    }
  }

  /**
   The two sides agree after a run exactly when no name that some request registered has made a
   successful join that no leave and no successful logout has followed.
   */
  lemma TwoSidedExactly(h: seq<Request>)
    ensures TwoSided(Run(Start(), h)) <==> !exists j, i, u, g :: RegisteredAndJoined(h, j, i, u, g)
  {
    hide Run, Step, RegisteredAndJoined, Member;
    var s := Run(Start(), h);
    RunIsSound(h);
    if j, i, u, g :| RegisteredAndJoined(h, j, i, u, g) {
      StandingJoin(h, u, g);
      assert g in s.users[u].groups <==> !Member(s, u, g);
    } else {
      forall u, g | u in s.users ensures !Member(s, u, g) {
        StandingJoin(h, u, g);
      }
    }
  }

  /** The smallest run after which they do not. */
  lemma TwoSidedFails(u: CString, p: CString, g: CString)
    ensures !TwoSided(Run(Start(), [Register(u, p), Create(u, g), Join(u, g)]))
  {
    var h := [Register(u, p), Create(u, g), Join(u, g)];
    assert h[..2][..1] == [Register(u, p)] && h[..1][..0] == [];
    assert h[..2] == [Register(u, p), Create(u, g)];
    assert Run(Start(), h[..1]) == Step(Start(), h[0]).0;
    assert Run(Start(), h[..2]) == Step(Run(Start(), h[..1]), h[1]).0;
    assert Run(Start(), h[..2]).registry.free == Pool(QUEUE_SIZE)[1..];
    RunIsSound(h);
    assert Member(Run(Start(), h), u, g);
  }

  // --------------------------------------------------------------------------- addresses

  ghost predicate CreatedAt(h: seq<Request>, i: int, g: CString, a: CString) {
    && 0 <= i < |h|
    && h[i].Create? && h[i].group == g
    && OutcomeAt(Start(), h, i) == Assigned(a)
  }

  /** A group is live, at an address, exactly when a creation of it was told that address. */
  lemma {:induction false} GroupByHistory(h: seq<Request>, g: CString, a: CString)
    ensures Holds(Run(Start(), h).registry, g, a) <==> exists i :: CreatedAt(h, i, g, a)
  {
    if h != [] {
      var before, n := h[..|h| - 1], |h| - 1;
      GroupByHistory(before, g, a);
      HoldsAfter(Run(Start(), before), h[n], g, a);
      assert OutcomeAt(Start(), h, n) == Step(Run(Start(), before), h[n]).1;
      forall i | i != n ensures CreatedAt(h, i, g, a) <==> CreatedAt(before, i, g, a) {
        if 0 <= i < n {
          OutcomePrefix(Start(), h, n, i);
        }
      }
      assert Holds(Run(Start(), h).registry, g, a) <==>
             Holds(Run(Start(), before).registry, g, a) || CreatedAt(h, n, g, a);
    }
  }

  lemma HoldsAfter(s: State, r: Request, g: CString, a: CString)
    ensures Holds(Step(s, r).0.registry, g, a) <==>
            Holds(s.registry, g, a) || (r.Create? && r.group == g && Step(s, r).1 == Assigned(a))
  {
  }

  /** A successful join tells the address that the creation of the same group told. */
  lemma JoinTellsCreatedAddress(h: seq<Request>, n: nat, a: CString)
    requires n < |h| && h[n].Join? && OutcomeAt(Start(), h, n) == Assigned(a)
    ensures exists i :: i < n && CreatedAt(h, i, h[n].group, a)
  {
    GroupByHistory(h[..n], h[n].group, a);
    assert Holds(Run(Start(), h[..n]).registry, h[n].group, a);
    var i :| CreatedAt(h[..n], i, h[n].group, a);
    OutcomePrefix(Start(), h, n, i);
    assert CreatedAt(h, i, h[n].group, a);
  }

  /** In a whole run of the server, no address is told to two successful creations. */
  lemma CreatedAddressesDiffer(h: seq<Request>, i: nat, j: nat, g: CString, k: CString, a: CString)
    requires CreatedAt(h, i, g, a) && CreatedAt(h, j, k, a)
    ensures i == j
  {
    if i < j {
      CreatedAddressGone(h, i, j, g, a);
    } else if j < i {
      CreatedAddressGone(h, j, i, k, a);
    }
  }

  /** An address told to a creation is never again at the front of the queue. */
  lemma CreatedAddressGone(h: seq<Request>, i: nat, j: nat, g: CString, a: CString)
    requires CreatedAt(h, i, g, a)
    requires i < j <= |h|
    ensures a !in Run(Start(), h[..j]).registry.free
  {
    OutcomePrefix(Start(), h, j, i);
    assert CreatedAt(h[..j], i, g, a);
    GroupByHistory(h[..j], g, a);
    RunIsSound(h[..j]);
  }

  /** Each such address is "224.0.0." and the decimal text of a number from 1 to 100. */
  lemma CreatedAddressForm(h: seq<Request>, i: nat, g: CString, a: CString)
    requires CreatedAt(h, i, g, a)
    ensures exists k :: 1 <= k <= QUEUE_SIZE && a == Address(k)
    ensures |a| <= 11
  {
    GroupByHistory(h, g, a);
    RunIsSound(h);
    var r := Run(Start(), h).registry;
    assert Holds(r, g, a) && Accounted(r, a);
    PoolAddress(QUEUE_SIZE, a);
  }

  /** How many creates of a run were refused while an address was free. */
  function RefusedCreates(h: seq<Request>): nat {
    if h == [] then 0
    else
      var before, last := h[..|h| - 1], h[|h| - 1];
      var s := Run(Start(), before);
      RefusedCreates(before)
      + if last.Create? && Step(s, last).1 == Refused && s.registry.free != [] then 1 else 0
  }

  lemma {:induction false} LeakedByHistory(h: seq<Request>)
    ensures |Run(Start(), h).registry.leaked| == RefusedCreates(h)
  {
    if h != [] {
      LeakedByHistory(h[..|h| - 1]);
    }
  }

  /** Live groups and free addresses number a hundred less one for each create so refused. */
  lemma CapacityByHistory(h: seq<Request>)
    ensures var r := Run(Start(), h).registry;
      |r.groups| + |r.free| == QUEUE_SIZE - RefusedCreates(h)
  {
    RunIsSound(h);
    LeakedByHistory(h);
  }

  /** No request gives an address back: once the queue is empty, the groups are final. */
  lemma {:induction false} ExhaustedForever(s: State, h: seq<Request>)
    requires s.registry.free == []
    ensures Run(s, h).registry.free == []
    ensures Run(s, h).registry.groups.Keys == s.registry.groups.Keys
  {
    if h != [] {
      ExhaustedForever(s, h[..|h| - 1]);
    }
  }

  // ----------------------------------------------------------------- what clients are told

  /** The queue is the pool less its first addresses, one for each create, while there are any. */
  lemma {:induction false} FreeByHistory(h: seq<Request>)
    ensures Run(Start(), h).registry.free == Pool(QUEUE_SIZE)[Min(QUEUE_SIZE, Creates(h))..]
  {
    if h != [] {
      var before, r := h[..|h| - 1], h[|h| - 1];
      FreeByHistory(before);
      var free := Run(Start(), before).registry.free;
      if r.Create? && free != [] {
        var k := Creates(before);
        assert Pool(QUEUE_SIZE)[k..][1..] == Pool(QUEUE_SIZE)[k + 1..];
      }
    }
  }

  ghost predicate Registered(h: seq<Request>, u: CString) {
    exists j :: 0 <= j < |h| && Registers(h[j], u)
  }

  ghost predicate CreatedEarlier(h: seq<Request>, g: CString) {
    exists i, a :: CreatedAt(h, i, g, a)
  }

  ghost predicate Joined(h: seq<Request>, u: CString, g: CString) {
    exists i :: StillJoined(h, i, u, g)
  }

  lemma RegisteredExactly(h: seq<Request>, u: CString)
    ensures u in Run(Start(), h).users <==> Registered(h, u)
  {
    hide Run;
    RegisteredByHistory(h, u);
    if j :| 0 <= j < |h| && Registers(h[j], u) {
      FirstExists(h, j, u);
    }
    if i :| FirstRegister(h, i, u) {
      assert Registers(h[i], u);
    }
  }

  lemma LiveExactly(h: seq<Request>, g: CString)
    ensures g in Run(Start(), h).registry.groups <==> CreatedEarlier(h, g)
  {
    hide Run, CreatedAt;
    var groups := Run(Start(), h).registry.groups;
    if g in groups {
      assert Holds(Run(Start(), h).registry, g, groups[g].address);
      GroupByHistory(h, g, groups[g].address);
    }
    if i, a :| CreatedAt(h, i, g, a) {
      GroupByHistory(h, g, a);
    }
  }

  /** A registration is accepted exactly when no request before it registers the name. */
  lemma RegisterTold(h: seq<Request>, u: CString, p: CString)
    ensures Step(Run(Start(), h), Register(u, p)).1 == if Registered(h, u) then Refused else Accepted
  {
    RegisteredExactly(h, u);
  }

  /** A login is accepted exactly with the password of the first registration. */
  lemma LogInTold(h: seq<Request>, u: CString, p: CString)
    ensures Step(Run(Start(), h), LogIn(u, p)).1 ==
            if exists i :: FirstPassword(h, i, u, p) then Accepted else Refused
  {
    LogInByHistory(h, u, p);
  }

  /** A logout is accepted exactly when some request before it registers the name. */
  lemma LogOutTold(h: seq<Request>, u: CString)
    ensures Step(Run(Start(), h), LogOut(u)).1 == if Registered(h, u) then Accepted else Refused
  {
    RegisteredExactly(h, u);
  }

  /** A leave is accepted exactly when a join of that user to that group still stands. */
  lemma LeaveTold(h: seq<Request>, u: CString, g: CString)
    ensures Step(Run(Start(), h), Leave(u, g)).1 == if Joined(h, u, g) then Accepted else Refused
  {
    MembershipByHistory(h, u, g);
  }

  /**
   A join succeeds exactly when the group has been created and no join of that user to it still
   stands; it then tells the address that the creation told.
   */
  lemma JoinTold(h: seq<Request>, u: CString, g: CString)
    ensures var told := Step(Run(Start(), h), Join(u, g)).1;
      && (told.Success() <==> CreatedEarlier(h, g) && !Joined(h, u, g))
      && (told.Success() ==> told.Assigned? && exists i :: CreatedAt(h, i, g, told.address))
      && (!told.Success() ==> told == Refused)
  {
    MembershipByHistory(h, u, g);
    LiveExactly(h, g);
    var told := Step(Run(Start(), h), Join(u, g)).1;
    if told.Success() {
      assert Holds(Run(Start(), h).registry, g, told.address);
      GroupByHistory(h, g, told.address);
    }
  }

  /**
   A create succeeds exactly when fewer than a hundred creates came before it, whatever became
   of them, and none of them of the same group succeeded; it is then told the address numbered
   by its place among them.
   */
  lemma CreateTold(h: seq<Request>, u: CString, g: CString)
    ensures Step(Run(Start(), h), Create(u, g)).1 ==
            if Creates(h) < QUEUE_SIZE && !CreatedEarlier(h, g) then Assigned(Address(Creates(h) + 1))
            else Refused
  {
    FreeByHistory(h);
    LiveExactly(h, g);
    if Creates(h) < QUEUE_SIZE {
      assert Run(Start(), h).registry.free[0] == Pool(QUEUE_SIZE)[Creates(h)];
    }
  }

  /** Request `i` asks for `g`, and fewer than a hundred creates came before it. */
  ghost predicate AsksInTime(h: seq<Request>, i: int, g: CString) {
    0 <= i < |h| && h[i].Create? && h[i].group == g && Creates(h[..i]) < QUEUE_SIZE
  }

  lemma ToldAt(h: seq<Request>, i: nat)
    requires i < |h| && h[i].Create?
    ensures OutcomeAt(Start(), h, i) ==
            if Creates(h[..i]) < QUEUE_SIZE && !CreatedEarlier(h[..i], h[i].group)
            then Assigned(Address(Creates(h[..i]) + 1)) else Refused
  {
    hide Step, Run, CreatedEarlier;
    CreateTold(h[..i], h[i].user, h[i].group);
  }

  lemma CreatedEarlierStill(h: seq<Request>, n: nat, g: CString)
    requires n <= |h| && CreatedEarlier(h[..n], g)
    ensures CreatedEarlier(h, g)
  {
    var i, a :| CreatedAt(h[..n], i, g, a);
    OutcomePrefix(Start(), h, n, i);
    assert CreatedAt(h, i, g, a);
  }

  /** In terms of the requests alone: a group exists when one of the first hundred creates names it. */
  lemma LiveByRequests(h: seq<Request>, g: CString)
    ensures g in Run(Start(), h).registry.groups <==> exists i :: AsksInTime(h, i, g)
  {
    hide Run, Step;
    LiveExactly(h, g);
    if i, a :| CreatedAt(h, i, g, a) {
      ToldAt(h, i);
      assert AsksInTime(h, i, g);
    }
    if i :| AsksInTime(h, i, g) {
      ToldAt(h, i);
      if CreatedEarlier(h[..i], g) {
        CreatedEarlierStill(h, i, g);
      } else {
        assert CreatedAt(h, i, g, Address(Creates(h[..i]) + 1));
      }
    }
  }

  // ------------------------------------------------------------------------------ replay

  /** Two states a client cannot tell apart except by creating groups. */
  ghost predicate SameButFree(s: State, t: State) {
    s.users == t.users && s.registry.groups == t.registry.groups
  }

  lemma WithoutTwice(groups: map<CString, GroupState>, u: CString)
    ensures WithoutUser(WithoutUser(groups, u), u) == WithoutUser(groups, u)
  {
    forall n | n in groups
      ensures WithoutUser(WithoutUser(groups, u), u)[n] == WithoutUser(groups, u)[n]
    {
      assert groups[n].members - {u} - {u} == groups[n].members - {u};
    }
  }

  /**
   Handling a packet a second time changes no account, group, address or membership; and it
   changes nothing at all unless it is a create that finds the queue not empty, which costs
   the address at the front.
   */
  lemma ReplayIsIdempotent(s: State, r: Request)
    ensures var once := Step(s, r).0;
      var twice := Step(once, r).0;
      && SameButFree(once, twice)
      && (twice == once <==> !(r.Create? && once.registry.free != []))
      && (r.Create? && once.registry.free != [] ==>
            twice.registry.free == once.registry.free[1..]
            && twice.registry.leaked == once.registry.leaked + [once.registry.free[0]])
  {
    var once := Step(s, r).0;
    var twice := Step(once, r).0;
    match r
    case LogOut(u) =>
      if u in s.users {
        assert twice.users == once.users;
        WithoutTwice(s.registry.groups, u);
      }
    case LogIn(u, p) => assert twice.users == once.users;
    case Create(_, g) => assert once.registry.free != [] ==> g in once.registry.groups;
    case _ =>
  }

  /** A replay of any packet but a create, anywhere in a run, is never noticed afterwards. */
  lemma ReplayUnnoticed(s: State, h: seq<Request>, r: Request, later: seq<Request>)
    requires !r.Create?
    ensures Run(s, h + [r] + [r] + later) == Run(s, h + [r] + later)
  {
    ReplayIsIdempotent(Run(s, h), r);
    RunExtends(s, h, r);
    RunExtends(s, h + [r], r);
    RunAppend(s, h + [r] + [r], later);
    RunAppend(s, h + [r], later);
  }

  // ------------------------------------------------------------------------------ logout

  /**
   A logout of a registered user takes that user out of every group, and leaves other
   members, all groups and addresses, and all other accounts as they were; a logout of an
   unregistered name changes nothing.
   */
  lemma LogOutFrame(s: State, u: CString)
    ensures var t := Step(s, LogOut(u)).0;
      && (u !in s.users ==> t == s)
      && (u in s.users ==>
            && t.registry.groups.Keys == s.registry.groups.Keys
            && t.registry.free == s.registry.free
            && t.registry.leaked == s.registry.leaked
            && (forall g :: g in s.registry.groups ==>
                  t.registry.groups[g].address == s.registry.groups[g].address)
            && (forall v, g :: Member(t, v, g) <==> Member(s, v, g) && v != u)
            && t.users.Keys == s.users.Keys
            && (forall v :: v in s.users && v != u ==> t.users[v] == s.users[v])
            && t.users[u].password == s.users[u].password && !Active(t, u))
  {
    if u in s.users {
      var t := Step(s, LogOut(u)).0;
      forall v, g ensures Member(t, v, g) <==> Member(s, v, g) && v != u {
        MemberAfter(s, LogOut(u), v, g);
      }
    }
  }
}
