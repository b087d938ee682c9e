/**
 The chat server as a value: accounts and groups, one request at a time. What a run of requests
 amounts to is in module History.
 */
module Chat {
  import opened CStrings
  import opened Decimal
  import opened GroupRegistry
  import opened Users

  datatype Request =
    | Register(user: CString, password: CString)
    | LogIn(user: CString, password: CString)
    | LogOut(user: CString)
    | Create(user: CString, group: CString)
    | Join(user: CString, group: CString)
    | Leave(user: CString, group: CString)
    | SeeAll
    | Ignored

  datatype Outcome =
    | Accepted
    | Refused
    | Assigned(address: CString)
    | Listed
    | Silent
  {
    predicate Success() {
      Accepted? || Assigned?
    }
  }

  datatype State = State(users: map<CString, Account>, registry: Registry)

  function Start(): State {
    State(map[], Initial(Pool(QUEUE_SIZE)))
  }

  function Judge(result: GroupMngResult): Outcome {
    if result == GroupMngSuccess then Accepted else Refused
  }

  /** One request, and what the client is told. Joining and leaving ask nothing of the accounts. */
  function Step(s: State, r: Request): (State, Outcome) {
    match r
    case Register(u, p) =>
      if u in s.users then (s, Refused)
      else (s.(users := s.users[u := Account(p, false, {})]), Accepted)
    case LogIn(u, p) =>
      if u in s.users && s.users[u].password == p
      then (s.(users := s.users[u := s.users[u].(active := true)]), Accepted)
      else (s, Refused)
    case LogOut(u) =>
      if u !in s.users then (s, Refused)
      else
        (State(s.users[u := s.users[u].(active := false, groups := {})],
               Apply(s.registry, RemoveUserFromAll(u)).0),
         Accepted)
    case Create(_, g) =>
      var (registry, result) := Apply(s.registry, AddGroup(g));
      (s.(registry := registry),
       if result == GroupMngSuccess then Assigned(s.registry.free[0]) else Refused)
    case Join(u, g) =>
      var (registry, result) := Apply(s.registry, AddUser(u, g));
      (s.(registry := registry),
       if result == GroupMngSuccess then Assigned(s.registry.groups[g].address) else Refused)
    case Leave(u, g) =>
      var (registry, result) := Apply(s.registry, RemoveUser(u, g));
      (s.(registry := registry), Judge(result))
    case SeeAll => (s, Listed)
    case Ignored => (s, Silent)
  }

  function Run(s: State, h: seq<Request>): State {
    if h == [] then s else Step(Run(s, h[..|h| - 1]), h[|h| - 1]).0
  }

  /** What the client who sent request `i` was told. */
  function OutcomeAt(s: State, h: seq<Request>, i: nat): Outcome
    requires i < |h|
  {
    Step(Run(s, h[..i]), h[i]).1
  }

  ghost predicate Member(s: State, u: CString, g: CString) {
    g in s.registry.groups && u in s.registry.groups[g].members
  }

  // ------------------------------------------------------------------- runs in general

  lemma RunExtends(s: State, h: seq<Request>, r: Request)
    ensures Run(s, h + [r]) == Step(Run(s, h), r).0
    ensures OutcomeAt(s, h + [r], |h|) == Step(Run(s, h), r).1
  {
    assert (h + [r])[..|h|] == h;
  }

  lemma {:induction false} RunAppend(s: State, h: seq<Request>, k: seq<Request>)
    ensures Run(s, h + k) == Run(Run(s, h), k)
  {
    if k == [] {
      assert h + k == h;
    } else {
      var front := k[..|k| - 1];
      RunAppend(s, h, front);
      assert (h + k)[..|h + k| - 1] == h + front;
    }
  }

  lemma OutcomePrefix(s: State, h: seq<Request>, n: nat, i: nat)
    requires i < n <= |h|
    ensures OutcomeAt(s, h[..n], i) == OutcomeAt(s, h, i)
  {
    assert h[..n][..i] == h[..i];
  }

  /** How many creates a run holds, whatever became of them. */
  function Creates(h: seq<Request>): nat {
    if h == [] then 0
    else Creates(h[..|h| - 1]) + if h[|h| - 1].Create? then 1 else 0
  }

  lemma {:induction false} CreatesPrefix(h: seq<Request>, n: nat)
    requires n <= |h|
    ensures Creates(h[..n]) <= Creates(h)
  {
    if n < |h| {
      CreatesPrefix(h[..|h| - 1], n);
      assert h[..|h| - 1][..n] == h[..n];
    } else {
      assert h[..n] == h;
    }
  }

  // ------------------------------------------------------------------------- invariants

  /** Every address is accounted for, and no account carries groups of its own. */
  ghost predicate Sound(s: State) {
    && Conserved(s.registry, Pool(QUEUE_SIZE))
    && (forall u :: u in s.users ==> s.users[u].groups == {})
  }

  lemma StepKeepsSound(s: State, r: Request)
    requires Sound(s)
    ensures Sound(Step(s, r).0)
  {
    match r
    case LogOut(u) => ApplyConserves(s.registry, RemoveUserFromAll(u), Pool(QUEUE_SIZE));
    case Create(_, g) => ApplyConserves(s.registry, AddGroup(g), Pool(QUEUE_SIZE));
    case Join(u, g) => ApplyConserves(s.registry, AddUser(u, g), Pool(QUEUE_SIZE));
    case Leave(u, g) => ApplyConserves(s.registry, RemoveUser(u, g), Pool(QUEUE_SIZE));
    case _ =>
  }

  lemma {:induction false} RunIsSound(h: seq<Request>)
    ensures Sound(Run(Start(), h))
  {
    if h == [] {
      PoolDistinct(QUEUE_SIZE);
      InitialConserved(Pool(QUEUE_SIZE));
    } else {
      RunIsSound(h[..|h| - 1]);
      StepKeepsSound(Run(Start(), h[..|h| - 1]), h[|h| - 1]);
    }
  }
}
