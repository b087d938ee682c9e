/**
 What every client is sent, byte for byte, in terms of the requests the server has had.
 */
module Transcript {
  import opened CStrings
  import opened Chat
  import opened GroupRegistry
  import opened Handler
  import opened History
  import D = Decimal
  import L = Listing

  /** Request `i` is the first of the run's first hundred creates that names `g`. */
  ghost predicate FirstAsk(h: seq<Request>, i: int, g: CString) {
    AsksInTime(h, i, g) && forall j :: 0 <= j < i ==> !AsksInTime(h, j, g)
  }

  ghost predicate Exists(h: seq<Request>, g: CString) {
    exists i :: AsksInTime(h, i, g)
  }

  ghost predicate Knows(h: seq<Request>, u: CString, p: CString) {
    exists i :: FirstPassword(h, i, u, p)
  }

  /** `sent` is the address reply that tells the address issued to the first create of `g`. */
  ghost predicate TellsAddress(h: seq<Request>, tag: byte, g: CString, sent: seq<byte>) {
    exists i, a: CString :: FirstAsk(h, i, g) && a == D.Address(Creates(h[..i]) + 1) && |a| <= 11
                   && sent == Granted(tag, a)
  }

  /** `sent` lists, in some order, exactly the groups that exist. */
  ghost predicate ListsAll(h: seq<Request>, sent: seq<byte>) {
    && 4 <= |sent|
    && sent[0] == 14 && sent[1] == |sent| % 256 && sent[2] == 1 && sent[3] == 1
    && exists order: seq<CString> ::
         && D.Distinct(order) && (forall g :: g in order <==> Exists(h, g))
         && sent[4..] == L.Text(order)
  }

  /** What the sender of `r` is to be sent after the requests of `h`. */
  ghost predicate Due(h: seq<Request>, r: Request, sent: seq<byte>) {
    match r
    case Register(u, _) => sent == Plain(2, !Registered(h, u))
    case LogIn(u, p) => sent == Plain(4, Knows(h, u, p))
    case LogOut(u) => sent == Plain(6, Registered(h, u))
    case Leave(u, g) => sent == Plain(12, Joined(h, u, g))
    case Create(u, g) =>
      if Creates(h) < 100 && !Exists(h, g)
      then TellsAddress(h + [r], 8, g, sent)
      else sent == NotGranted(8)
    case Join(u, g) =>
      if Exists(h, g) && !Joined(h, u, g)
      then TellsAddress(h, 10, g, sent)
      else sent == NotGranted(10)
    case SeeAll => ListsAll(h, sent)
    case Ignored => sent == []
  }

  // --------------------------------------------------------------------- group addresses

  lemma ExistsExactly(h: seq<Request>, g: CString)
    ensures Exists(h, g) <==> CreatedEarlier(h, g)
  {
    LiveByRequests(h, g);
    LiveExactly(h, g);
  }

  /** The creation that succeeds is the first one in time, and is told the address of its place. */
  lemma FirstAskTold(h: seq<Request>, i: nat, g: CString, a: CString)
    requires CreatedAt(h, i, g, a)
    ensures FirstAsk(h, i, g) && a == D.Address(Creates(h[..i]) + 1) && |a| <= 11
  {
    hide Step, Run;
    ToldAt(h, i);
    CreatedAddressForm(h, i, g, a);
    assert AsksInTime(h, i, g);
    forall j | 0 <= j < i ensures !AsksInTime(h, j, g) {
      if AsksInTime(h, j, g) {
        assert h[..i][..j] == h[..j];
        assert AsksInTime(h[..i], j, g);
        ExistsExactly(h[..i], g);
      }
    }
  }

  // ----------------------------------------------------------------- request by request

  lemma CreateDue(h: seq<Request>, u: CString, g: CString, sent: seq<byte>)
    requires Answers(Run(Start(), h), Create(u, g), sent)
    ensures Due(h, Create(u, g), sent)
  {
    hide Run, Step, Answers, Granted, NotGranted, FirstAsk;
    var r := Create(u, g);
    RunIsSound(h);
    AnswerBytes(Run(Start(), h), r, sent);
    CreateTold(h, u, g);
    ExistsExactly(h, g);
    if Creates(h) < 100 && !Exists(h, g) {
      var a := D.Address(Creates(h) + 1);
      RunExtends(Start(), h, r);
      assert CreatedAt(h + [r], |h|, g, a);
      FirstAskTold(h + [r], |h|, g, a);
    }
  }

  lemma JoinDue(h: seq<Request>, u: CString, g: CString, sent: seq<byte>)
    requires Answers(Run(Start(), h), Join(u, g), sent)
    ensures Due(h, Join(u, g), sent)
  {
    hide Run, Step, Answers, Granted, NotGranted, FirstAsk, CreatedAt;
    RunIsSound(h);
    AnswerBytes(Run(Start(), h), Join(u, g), sent);
    JoinTold(h, u, g);
    ExistsExactly(h, g);
    if Exists(h, g) && !Joined(h, u, g) {
      var a := Step(Run(Start(), h), Join(u, g)).1.address;
      var i :| CreatedAt(h, i, g, a);
      assert 0 <= i by { CreatedInRange(h, i, g, a); }
      FirstAskTold(h, i, g, a);
    }
  }

  lemma CreatedInRange(h: seq<Request>, i: int, g: CString, a: CString)
    requires CreatedAt(h, i, g, a)
    ensures 0 <= i < |h|
  {
  }

  lemma ListingDue(h: seq<Request>, sent: seq<byte>)
    requires Answers(Run(Start(), h), SeeAll, sent)
    ensures Due(h, SeeAll, sent)
  {
    hide Run, Step, Answers, L.Text, Exists, D.Distinct;
    var keys := Run(Start(), h).registry.groups.Keys;
    ListingBytes(Run(Start(), h), sent);
    var order :| L.Orders(order, keys) && sent[4..] == L.Text(order);
    forall g ensures g in order <==> Exists(h, g) {
      ExistsExactly(h, g);
      LiveExactly(h, g);
    }
  }

  lemma AnswerDue(h: seq<Request>, r: Request, sent: seq<byte>)
    requires Answers(Run(Start(), h), r, sent)
    ensures Due(h, r, sent)
  {
    hide Run, Step, Answers, Granted, NotGranted, Registered, Joined, FirstPassword;
    RunIsSound(h);
    match r
    case Create(u, g) => CreateDue(h, u, g, sent);
    case Join(u, g) => JoinDue(h, u, g, sent);
    case SeeAll => ListingDue(h, sent);
    case Register(u, p) =>
      AnswerBytes(Run(Start(), h), r, sent);
      RegisterTold(h, u, p);
    case LogIn(u, p) =>
      AnswerBytes(Run(Start(), h), r, sent);
      LogInTold(h, u, p);
    case LogOut(u) =>
      AnswerBytes(Run(Start(), h), r, sent);
      LogOutTold(h, u);
    case Leave(u, g) =>
      AnswerBytes(Run(Start(), h), r, sent);
      LeaveTold(h, u, g);
    case Ignored => AnswerBytes(Run(Start(), h), r, sent);
  }

  ghost predicate AllSent(h: seq<Request>, replies: seq<seq<byte>>) {
    |replies| <= |h| && forall i :: 0 <= i < |replies| ==> Due(h[..i], h[i], replies[i])
  }

  /** Over every run, every reply is the bytes that the requests before it make due. */
  lemma AllDue(h: seq<Request>, replies: seq<seq<byte>>)
    requires |replies| <= |h| && AllAnswered(Start(), h[..|replies|], replies)
    ensures AllSent(h, replies)
  {
    hide Answers, Due;
    var done := h[..|replies|];
    forall i | 0 <= i < |replies| ensures Due(h[..i], h[i], replies[i]) {
      assert done[..i] == h[..i] && done[i] == h[i];
      AnswerDue(h[..i], h[i], replies[i]);
    }
  }
}
