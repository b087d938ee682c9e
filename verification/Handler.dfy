/**
 The request handler: bytes in, manager calls, bytes out; and its refinement of the chat
 server of module Chat, packet by packet and over whole runs.
 */
module Handler {
  import opened CStrings
  import opened Chat
  import opened GroupRegistry
  import opened Protocol
  import opened Wire
  import D = Decimal
  import G = Groups
  import L = Listing
  import U = Users

  /** "2021", "port" and "ip" */
  const PORT_TEXT: CString := [50, 48, 50, 49]
  const NO_PORT: CString := [112, 111, 114, 116]
  const NO_IP: CString := [105, 112]

  // ---------------------------------------------------------------- packets and requests

  /**
   A received buffer the handler can take: if its tag is a request that is unpacked, the lengths
   inside stay within the buffer and the struct's fields. Any other tag goes.
   */
  predicate Acceptable(b: seq<byte>) {
    && b != []
    && (LayoutOf(b[0]) == PairLayout ==> Readable(PairLayout, b))
    && (b[0] == LOGOUT_REQUEST ==> Readable(SingleLayout, b))
  }

  /** The strings a buffer carries, as far as its tag has any that are unpacked. */
  function StringsOf(b: seq<byte>): (t: (CString, CString))
    requires Acceptable(b)
    ensures |t.0| < L.MAX_SIZE && |t.1| < L.MAX_SIZE
  {
    if LayoutOf(b[0]) == PairLayout then
      var m := Decode(PairLayout, b);
      (m.user, m.second)
    else if b[0] == LOGOUT_REQUEST then (Decode(SingleLayout, b).user, [])
    else ([], [])
  }

  /** What a tag asks for. */
  function RequestFrom(tag: byte, user: CString, second: CString): Request {
    if tag == REGISTER_REQUEST then Register(user, second)
    else if tag == LOGIN_REQUEST then LogIn(user, second)
    else if tag == LOGOUT_REQUEST then LogOut(user)
    else if tag == GROUP_CREATE_REQUEST then Create(user, second)
    else if tag == GROUP_JOIN_REQUEST then Join(user, second)
    else if tag == GROUP_LEAVE_REQUEST then Leave(user, second)
    else if tag == GROUP_ALL_AVAILABLE_REQUEST then SeeAll
    else Ignored
  }

  /** The request a buffer carries; bytes after its end are of no account. */
  function RequestOf(b: seq<byte>): Request
    requires Acceptable(b)
  {
    RequestFrom(b[0], StringsOf(b).0, StringsOf(b).1)
  }

  /** How a client puts a request on the wire; `user` is who asks for a listing. */
  function RequestMessage(r: Request, user: CString): Message
    requires r != Ignored
  {
    match r
    case Register(u, p) => Pair(REGISTER_REQUEST, u, p)
    case LogIn(u, p) => Pair(LOGIN_REQUEST, u, p)
    case Create(u, g) => Pair(GROUP_CREATE_REQUEST, u, g)
    case Join(u, g) => Pair(GROUP_JOIN_REQUEST, u, g)
    case Leave(u, g) => Pair(GROUP_LEAVE_REQUEST, u, g)
    case LogOut(u) => Single(LOGOUT_REQUEST, u)
    case SeeAll => Single(GROUP_ALL_AVAILABLE_REQUEST, user)
  }

  /** Every request gets through to the server, whatever is left in the buffer behind it. */
  lemma RequestArrives(r: Request, user: CString, tail: seq<byte>)
    requires r != Ignored && RequestMessage(r, user).FitsFields()
    ensures var b := Encode(RequestMessage(r, user)) + tail;
      Acceptable(b) && RequestOf(b) == r
  {
    var m := RequestMessage(r, user);
    RoundTripAs(m, tail);
    assert (Encode(m) + tail)[0] == m.tag;
    hide Encode, Decode, Readable;
  }

  /** The bytes a client sends for a request. */
  lemma RequestBytes(r: Request, user: CString)
    requires r != Ignored && RequestMessage(r, user).FitsFields()
    ensures var b := Encode(RequestMessage(r, user));
      match r
      case Register(u, p) => b == [1, 4 + |u| + |p|, |u|] + u + [|p|] + p
      case LogIn(u, p) => b == [3, 4 + |u| + |p|, |u|] + u + [|p|] + p
      case LogOut(u) => b == [5, 3 + |u|, |u|] + u
      case Create(u, g) => b == [7, 4 + |u| + |g|, |u|] + u + [|g|] + g
      case Join(u, g) => b == [9, 4 + |u| + |g|, |u|] + u + [|g|] + g
      case Leave(u, g) => b == [11, 4 + |u| + |g|, |u|] + u + [|g|] + g
      case SeeAll => b == [13, 3 + |user|, |user|] + user
  {
    match RequestMessage(r, user)
    case Pair(t, u, s) => PairWhole(t, u, s);
    case Single(t, u) => SingleWhole(t, u);
    hide Encode;
  }

  lemma PairWhole(t: byte, u: CString, s: CString)
    requires |u| + |s| < 252
    ensures Encode(Pair(t, u, s)) == [t, 4 + |u| + |s|, |u|] + u + [|s|] + s
  {
    assert Byte(|u| + |s| + 4) == |u| + |s| + 4;
    assert [t, 4 + |u| + |s|] + [|u|] == [t, 4 + |u| + |s|, |u|];
  }

  lemma SingleWhole(t: byte, u: CString)
    requires |u| < 253
    ensures Encode(Single(t, u)) == [t, 3 + |u|, |u|] + u
  {
    assert [t, 3 + |u|] + [|u|] == [t, 3 + |u|, |u|];
  }

  /** Which buffers the handler can take, and what it takes them for, by tag and place. */
  lemma RequestRead(b: seq<byte>)
    requires b != []
    ensures Acceptable(b) <==> (b[0] in [1, 3, 7, 9, 11] ==> HoldsTwo(b)) && (b[0] == 5 ==> HoldsOne(b))
    ensures Acceptable(b) ==>
              RequestOf(b) ==
              if b[0] == 1 then Register(FirstText(b), SecondText(b))
              else if b[0] == 3 then LogIn(FirstText(b), SecondText(b))
              else if b[0] == 5 then LogOut(FirstText(b))
              else if b[0] == 7 then Create(FirstText(b), SecondText(b))
              else if b[0] == 9 then Join(FirstText(b), SecondText(b))
              else if b[0] == 11 then Leave(FirstText(b), SecondText(b))
              else if b[0] == 13 then SeeAll
              else Ignored
  {
    hide TextOf;
    LayoutsByTag(b[0]);
    RequestsByPlace(b);
  }

  // ------------------------------------------------------------------ replies and packets

  /** The reply to a request other than a listing. */
  function ReplyMessage(r: Request, o: Outcome): Message
    requires r != Ignored && r != SeeAll
  {
    var code: byte := if o.Success() then 1 else 0;
    match r
    case Register(_, _) => Status(REGISTER_REPLY, code)
    case LogIn(_, _) => Status(LOGIN_REPLY, code)
    case LogOut(_) => Status(LOGOUT_REPLY, code)
    case Leave(_, _) => Status(GROUP_LEAVE_REPLY, code)
    case Create(_, _) => AddressReply(GROUP_CREATE_REPLY, o)
    case Join(_, _) => AddressReply(GROUP_JOIN_REPLY, o)
  }

  function AddressReply(tag: byte, o: Outcome): Message {
    if o.Assigned? then Address(tag, 1, o.address, PORT_TEXT) else Address(tag, 0, NO_IP, NO_PORT)
  }

  /** The reply to a listing request, for one order of the groups. */
  function NamesMessage(order: seq<CString>): Message {
    Names(GROUP_ALL_AVAILABLE_REPLY, 1, L.Text(order))
  }

  /** `sent` is what the chat server of module Chat would have told the sender of `r`. */
  ghost predicate Answers(s: State, r: Request, sent: seq<byte>) {
    match r
    case Ignored => sent == []
    case SeeAll =>
      exists order :: L.Orders(order, s.registry.groups.Keys) && sent == Encode(NamesMessage(order))
    case _ => sent == Encode(ReplyMessage(r, Step(s, r).1))
  }

  lemma AccountedIsShort(r: Registry, a: CString)
    requires Conserved(r, D.Pool(QUEUE_SIZE)) && Accounted(r, a)
    ensures |a| < IP_SIZE
  {
    D.PoolAddress(QUEUE_SIZE, a);
  }

  lemma AddressFits(s: State, r: Request)
    requires Sound(s) && r != Ignored && r != SeeAll
    ensures ReplyMessage(r, Step(s, r).1).WellFormed()
  {
    hide Conserved;
    var o := Step(s, r).1;
    if o.Assigned? {
      if r.Join? {
        assert Holds(s.registry, r.group, o.address);
      }
      AccountedIsShort(s.registry, o.address);
    }
  }

  lemma TextsSpelled()
    ensures Spells(PORT_TEXT, "2021") && Spells(NO_PORT, "port") && Spells(NO_IP, "ip")
  {
  }

  /** A reply that grants an address: code 1, the address, and port "2021". */
  function Granted(tag: byte, a: CString): seq<byte>
    requires |a| < IP_SIZE
  {
    [tag, 10 + |a|, 1, 1, |a|] + a + [4, 50, 48, 50, 49]
  }

  /** A reply that does not: code 0, and the texts "ip" and "port". */
  function NotGranted(tag: byte): seq<byte> {
    [tag, 12, 1, 0, 2, 105, 112, 4, 112, 111, 114, 116]
  }

  /** The bytes of a plain reply: its code is 1 for success and 0 for failure. */
  function Plain(tag: byte, success: bool): seq<byte> {
    [tag, 4, 1, if success then 1 else 0]
  }

  lemma AddressReplyBytes(tag: byte, o: Outcome)
    requires o.Assigned? ==> |o.address| < IP_SIZE
    ensures Encode(AddressReply(tag, o)) == if o.Assigned? then Granted(tag, o.address) else NotGranted(tag)
  {
    if o.Assigned? {
      AddressWhole(tag, 1, o.address, PORT_TEXT);
      hide Encode;
      assert o.address + [4] + PORT_TEXT == o.address + [4, 50, 48, 50, 49];
    } else {
      AddressWhole(tag, 0, NO_IP, NO_PORT);
      hide Encode;
      assert [tag, 12, 1, 0, 2] + NO_IP + [4] + NO_PORT == NotGranted(tag);
    }
  }

  lemma AddressWhole(t: byte, r: byte, i: CString, p: CString)
    requires |i| < IP_SIZE && |p| < PORT_SIZE
    ensures Encode(Address(t, r, i, p)) == [t, 6 + |i| + |p|, 1, r, |i|] + i + [|p|] + p
  {
    assert Byte(6 + |i| + |p|) == 6 + |i| + |p|;
    assert [t, 6 + |i| + |p|, 1, r] + [|i|] == [t, 6 + |i| + |p|, 1, r, |i|];
  }

  /** Every byte of every answer but a listing. */
  lemma AnswerBytes(s: State, r: Request, sent: seq<byte>)
    requires Sound(s) && Answers(s, r, sent) && r != SeeAll
    ensures var o := Step(s, r).1;
      && (r.Register? ==> sent == Plain(2, o.Success()))
      && (r.LogIn? ==> sent == Plain(4, o.Success()))
      && (r.LogOut? ==> sent == Plain(6, o.Success()))
      && (r.Leave? ==> sent == Plain(12, o.Success()))
      && (r.Create? || r.Join? ==>
            var tag := if r.Create? then 8 else 10;
            if o.Assigned? then |o.address| < IP_SIZE && sent == Granted(tag, o.address)
            else sent == NotGranted(tag))
      && (r == Ignored ==> sent == [])
  {
    hide Sound, Step;
    if r != Ignored {
      AddressFits(s, r);
      if r.Create? || r.Join? {
        AddressReplyBytes(if r.Create? then 8 else 10, Step(s, r).1);
        hide Encode, Granted, NotGranted;
      }
    }
  }

  /** Every byte of a listing. */
  lemma ListingBytes(s: State, sent: seq<byte>)
    requires Answers(s, SeeAll, sent)
    ensures 4 <= |sent|
    ensures sent[0] == 14 && sent[1] == |sent| % 256 && sent[2] == 1 && sent[3] == 1
    ensures exists order :: L.Orders(order, s.registry.groups.Keys) && sent[4..] == L.Text(order)
  {
    hide L.Orders, L.Text;
    var order :| L.Orders(order, s.registry.groups.Keys) && sent == Encode(NamesMessage(order));
    NamesBytes(14, 1, L.Text(order));
  }

  /** The client reads back exactly what the server decided, whatever follows in its buffer. */
  lemma ReplyArrives(s: State, r: Request, sent: seq<byte>, tail: seq<byte>)
    requires Sound(s) && r != Ignored && r != SeeAll
    requires Answers(s, r, sent)
    ensures var b := sent + tail;
      && Readable(LayoutOf(b[0]), b)
      && Decode(LayoutOf(b[0]), b) == ReplyMessage(r, Step(s, r).1)
  {
    AddressFits(s, r);
    RoundTrip(ReplyMessage(r, Step(s, r).1), tail);
  }

  /** `m` carries the part of `text`, of the given length, that its first byte's code admits. */
  ghost predicate CutTo(m: Message, text: CString, length: nat) {
    && m.Names?
    && m.names == text[..Min(|text|, MistakenLength(text))]
    && (m.names == text <==> length <= MistakenLength(text))
  }

  /**
   A listing, though, is read back cut to the code of its first byte: the client sees all the
   names exactly when their text is no longer than that.
   */
  lemma ListingArrivesCut(s: State, sent: seq<byte>, spare: nat)
    requires Answers(s, SeeAll, sent) && 256 <= spare
    ensures Readable(ListingLayout, sent + Zeros(spare))
    ensures exists order :: L.Orders(order, s.registry.groups.Keys) &&
              CutTo(Decode(ListingLayout, sent + Zeros(spare)), L.Text(order), L.ListedLength(s.registry.groups.Keys))
  {
    var order :| L.Orders(order, s.registry.groups.Keys) && sent == Encode(NamesMessage(order));
    L.TextLength(order, s.registry.groups.Keys);
    ListingAsWritten(GROUP_ALL_AVAILABLE_REPLY, 1, L.Text(order), spare);
  }

  lemma {:induction false} SomeOrder(names: set<CString>) returns (order: seq<CString>)
    ensures L.Orders(order, names)
  {
    if names == {} {
      order := [];
    } else {
      var n :| n in names;
      order := SomeOrder(names - {n});
      order := OrderFrom(n, names, order);
    }
  }

  lemma OrderFrom(n: CString, names: set<CString>, rest: seq<CString>) returns (order: seq<CString>)
    requires n in names && L.Orders(rest, names - {n})
    ensures order == [n] + rest && L.Orders(order, names)
  {
    order := [n] + rest;
    assert n !in rest;
    forall x ensures x in order <==> x in names {
      assert x in order <==> x == n || x in rest;
    }
  }

  /** The code of the first byte of a listing that begins with `n`. */
  function FirstCode(n: CString): byte {
    if n == [] then L.COMMA else n[0]
  }

  lemma FirstByte(order: seq<CString>)
    requires order != []
    ensures MistakenLength(L.Text(order)) == FirstCode(order[0])
  {
    assert L.Text(order) == order[0] + L.SEPARATOR + L.Text(order[1..]);
  }

  /** What the client makes of a listing, received into a zeroed buffer, is all of its text. */
  ghost predicate ArrivesWhole(sent: seq<byte>)
    requires 4 <= |sent|
  {
    var b := sent + Zeros(256);
    Readable(ListingLayout, b) && Decode(ListingLayout, b).names == sent[4..]
  }

  lemma WholeExactly(order: seq<CString>, names: set<CString>)
    requires L.Orders(order, names)
    ensures ArrivesWhole(Encode(NamesMessage(order))) <==>
            L.ListedLength(names) <= MistakenLength(L.Text(order))
  {
    L.TextLength(order, names);
    ListingAsWritten(GROUP_ALL_AVAILABLE_REPLY, 1, L.Text(order), 256);
    assert Encode(NamesMessage(order))[4..] == L.Text(order);
  }

  /** Every listing the server can send in a state arrives whole. */
  ghost predicate ListingsArriveWhole(s: State) {
    forall sent :: Answers(s, SeeAll, sent) ==> 4 <= |sent| && ArrivesWhole(sent)
  }

  /**
   Whatever order the groups are visited in, the client sees the listing whole, exactly when no
   group is live or the listing is no longer than the code of any live name's first byte.
   */
  lemma ListingsArriveWholeExactly(s: State)
    ensures var names := s.registry.groups.Keys;
      ListingsArriveWhole(s) <==>
        (names == {} || forall n :: n in names ==> L.ListedLength(names) <= FirstCode(n))
  {
    hide ArrivesWhole, Encode, L.Text, L.ListedLength, MistakenLength, FirstCode;
    var names := s.registry.groups.Keys;
    if ListingsArriveWhole(s) {
      forall n | n in names ensures L.ListedLength(names) <= FirstCode(n) {
        var rest := SomeOrder(names - {n});
        var order := OrderFrom(n, names, rest);
        assert Answers(s, SeeAll, Encode(NamesMessage(order)));
        WholeExactly(order, names);
        FirstByte(order);
      }
    }
    if names == {} || forall n :: n in names ==> L.ListedLength(names) <= FirstCode(n) {
      forall sent | Answers(s, SeeAll, sent) ensures 4 <= |sent| && ArrivesWhole(sent) {
        var order :| L.Orders(order, names) && sent == Encode(NamesMessage(order));
        WholeExactly(order, names);
        if order == [] {
          NothingListed();
        } else {
          assert order[0] in names;
          FirstByte(order);
        }
      }
    }
  }

  lemma NothingListed()
    ensures ArrivesWhole(Encode(NamesMessage([])))
  {
    WholeExactly([], {});
  }

  /**
   With one live group the client sees its name, and the separator, exactly when the two are no
   longer than the code of the first byte.
   */
  lemma ListingOfOne(u: CString, g: CString, spare: nat)
    requires 256 <= spare
    ensures var s, sent := Run(Start(), [Create(u, g)]), Encode(NamesMessage([g]));
      && Answers(s, SeeAll, sent)
      && Readable(ListingLayout, sent + Zeros(spare))
      && (Decode(ListingLayout, sent + Zeros(spare)).names == L.Text([g]) <==>
            g == [] || |g| + 2 <= g[0])
  {
    var s := Run(Start(), [Create(u, g)]);
    RunExtends(Start(), [], Create(u, g));
    assert [] + [Create(u, g)] == [Create(u, g)];
    assert s.registry.groups.Keys == {g};
    assert L.Orders([g], s.registry.groups.Keys);
    assert L.Text([g]) == g + L.SEPARATOR;
    ListingAsWritten(GROUP_ALL_AVAILABLE_REPLY, 1, L.Text([g]), spare);
  }

  /** A listing the server can come to send, and the client does not see whole. */
  lemma OneNameCut(u: CString)
    ensures var s, sent := Run(Start(), [Create(u, [1])]), Encode(NamesMessage([[1]]));
      && Answers(s, SeeAll, sent)
      && Readable(ListingLayout, sent + Zeros(256))
      && Decode(ListingLayout, sent + Zeros(256)).names != L.Text([[1]])
  {
    ListingOfOne(u, [1], 256);
  }

  // -------------------------------------------------------------------------- whole runs

  ghost predicate AllAcceptable(packets: seq<seq<byte>>) {
    forall i :: 0 <= i < |packets| ==> Acceptable(packets[i])
  }

  ghost function Requests(packets: seq<seq<byte>>): (h: seq<Request>)
    requires AllAcceptable(packets)
    ensures |h| == |packets|
  {
    seq(|packets|, i requires 0 <= i < |packets| => RequestOf(packets[i]))
  }

  /** `packets` carry the requests of `h`, with anything at all behind each in its buffer. */
  ghost predicate Carry(packets: seq<seq<byte>>, h: seq<Request>) {
    && |packets| == |h|
    && (forall i :: 0 <= i < |h| ==> CarriesOne(packets[i], h[i]))
  }

  ghost predicate CarriesOne(packet: seq<byte>, r: Request) {
    && r != Ignored
    && (exists user: CString, tail: seq<byte> ::
          RequestMessage(r, user).FitsFields() && packet == Encode(RequestMessage(r, user)) + tail)
  }

  /** A run sent as packed requests is handled as exactly those requests. */
  lemma RunArrives(packets: seq<seq<byte>>, h: seq<Request>)
    requires Carry(packets, h)
    ensures AllAcceptable(packets) && Requests(packets) == h
  {
    forall i | 0 <= i < |h| ensures Acceptable(packets[i]) && RequestOf(packets[i]) == h[i] {
      assert CarriesOne(packets[i], h[i]);
      var user: CString, tail: seq<byte> :|
        RequestMessage(h[i], user).FitsFields() && packets[i] == Encode(RequestMessage(h[i], user)) + tail;
      RequestArrives(h[i], user, tail);
    }
  }

  /** Every answer of a whole run but the listings decodes to what the run decided at that point. */
  lemma AnswersArrive(h: seq<Request>, replies: seq<seq<byte>>, i: nat, tail: seq<byte>)
    requires AllAnswered(Start(), h, replies)
    requires i < |h| && h[i] != Ignored && h[i] != SeeAll
    ensures var b := replies[i] + tail;
      && b != [] && Readable(LayoutOf(b[0]), b)
      && Decode(LayoutOf(b[0]), b) == ReplyMessage(h[i], OutcomeAt(Start(), h, i))
  {
    RunIsSound(h[..i]);
    assert Answers(Run(Start(), h[..i]), h[i], replies[i]);
    ReplyArrives(Run(Start(), h[..i]), h[i], replies[i], tail);
  }

  /** A listing requested now fits the text field it is collected in. */
  ghost predicate ListingFits(s: State, r: Request) {
    r == SeeAll ==> L.ListedLength(s.registry.groups.Keys) < L.MAX_SIZE_GROUPS
  }

  /** That is, its text is at most 999 bytes long, in whatever order. */
  lemma ListingFitsExactly(s: State, order: seq<CString>)
    requires L.Orders(order, s.registry.groups.Keys)
    ensures ListingFits(s, SeeAll) <==> |L.Text(order)| <= 999
  {
    L.TextLength(order, s.registry.groups.Keys);
  }

  ghost predicate ListingsFit(s: State, h: seq<Request>) {
    forall i :: 0 <= i < |h| ==> ListingFits(Run(s, h[..i]), h[i])
  }

  ghost predicate ShortNames(s: State) {
    forall g :: g in s.registry.groups ==> |g| < L.MAX_SIZE
  }

  lemma {:induction false} GroupsWithinCreates(h: seq<Request>)
    requires forall i :: 0 <= i < |h| && h[i].Create? ==> |h[i].group| < L.MAX_SIZE
    ensures ShortNames(Run(Start(), h)) && |Run(Start(), h).registry.groups| <= Creates(h)
  {
    if h != [] {
      var before, r := h[..|h| - 1], h[|h| - 1];
      GroupsWithinCreates(before);
      GroupsAfter(Run(Start(), before), r);
    }
  }

  lemma KeysAfter(s: State, r: Request)
    ensures var after := Step(s, r).0.registry.groups.Keys;
      || after == s.registry.groups.Keys
      || (r.Create? && after == s.registry.groups.Keys + {r.group})
  {
  }

  lemma GroupsAfter(s: State, r: Request)
    ensures Step(s, r).0.registry.groups.Keys <=
            if r.Create? then s.registry.groups.Keys + {r.group} else s.registry.groups.Keys
    ensures |Step(s, r).0.registry.groups| <= |s.registry.groups| + if r.Create? then 1 else 0
  {
    KeysAfter(s, r);
    hide *;
    var before, after := s.registry.groups, Step(s, r).0.registry.groups;
    assert |before| == |before.Keys| && |after| == |after.Keys|;
  }

  /** Every group a run creates has a name that fits its field. */
  ghost predicate ShortCreates(h: seq<Request>) {
    forall i :: 0 <= i < |h| && h[i].Create? ==> |h[i].group| < L.MAX_SIZE
  }

  lemma FewCreatesFit(h: seq<Request>)
    requires ShortCreates(h) && Creates(h) <= 32
    ensures ListingsFit(Start(), h)
  {
    forall i | 0 <= i < |h| ensures ListingFits(Run(Start(), h[..i]), h[i]) {
      GroupsWithinCreates(h[..i]);
      CreatesPrefix(h, i);
      ThirtyTwo(Run(Start(), h[..i]));
    }
  }

  /** In any run with at most 32 creates, every listing fits. */
  lemma ThirtyTwoCreates(packets: seq<seq<byte>>)
    requires AllAcceptable(packets)
    requires Creates(Requests(packets)) <= 32
    ensures ListingsFit(Start(), Requests(packets))
  {
    FewCreatesFit(Requests(packets));
  }

  /** Creates of `k` groups with distinct names of the greatest length. */
  function LongCreates(k: nat): (h: seq<Request>)
    requires k < 256
    ensures |h| == k
  {
    seq(k, i requires 0 <= i < k => Create([], L.LongName(i + 1)))
  }

  lemma {:induction false} LongCreatesRun(k: nat)
    requires k <= QUEUE_SIZE
    ensures Creates(LongCreates(k)) == k
    ensures var r := Run(Start(), LongCreates(k)).registry;
      r.groups.Keys == L.LongNames(k) && |r.free| == QUEUE_SIZE - k
  {
    if k == 0 {
      assert L.LongNames(0) == {};
    } else {
      var h, before := LongCreates(k), LongCreates(k - 1);
      LongCreatesRun(k - 1);
      assert h[..k - 1] == before;
      L.OneLongNameMore(k);
      assert L.LongNames(k) == L.LongNames(k - 1) + {L.LongName(k)};
    }
  }

  /** A run the server takes, and whose listing leaves the buffer: 33 creates of long names. */
  lemma ThirtyThreeCreatesOverrun()
    ensures var h := LongCreates(33) + [SeeAll];
      ShortCreates(h) && Creates(h) == 33 && !ListingsFit(Start(), h)
  {
    var before := LongCreates(33);
    var h := before + [SeeAll];
    LongCreatesRun(33);
    L.LongNamesLength(33);
    assert h[..33] == before && h[33] == SeeAll;
    assert !ListingFits(Run(Start(), h[..33]), h[33]);
  }

  /** Runs of up to `k` creates never leave the listing buffer exactly when `k` is at most 32. */
  lemma ThirtyTwoCreatesExactly(k: nat)
    ensures (forall h :: ShortCreates(h) && Creates(h) <= k ==> ListingsFit(Start(), h)) <==> k <= 32
  {
    hide ShortCreates, Creates, ListingsFit;
    if k <= 32 {
      forall h | ShortCreates(h) && Creates(h) <= k ensures ListingsFit(Start(), h) {
        FewCreatesFit(h);
      }
    } else {
      ThirtyThreeCreatesOverrun();
    }
  }

  lemma ThirtyTwo(s: State)
    requires ShortNames(s) && |s.registry.groups| <= 32
    ensures L.ListedLength(s.registry.groups.Keys) < L.MAX_SIZE_GROUPS
  {
    L.ListedLengthBound(s.registry.groups.Keys);
  }

  lemma NextRequest(packets: seq<seq<byte>>, k: nat)
    requires k < |packets| && AllAcceptable(packets)
    ensures Acceptable(packets[k])
    ensures var h := Requests(packets);
      h[k] == RequestOf(packets[k]) && h[..k + 1] == h[..k] + [RequestOf(packets[k])]
  {
    hide Acceptable, RequestOf;
    var h := Requests(packets);
    assert h[k] == RequestOf(packets[k]);
  }

  lemma OneMoreFits(s: State, h: seq<Request>, r: Request)
    ensures ListingsFit(s, h + [r]) <==> ListingsFit(s, h) && ListingFits(Run(s, h), r)
  {
    hide ListingFits, Run;
    var k := h + [r];
    assert k[..|h|] == h;
    assert forall i :: 0 <= i < |h| ==> k[..i] == h[..i];
    if ListingsFit(s, k) {
      assert ListingFits(Run(s, k[..|h|]), k[|h|]);
      assert forall i :: 0 <= i < |h| ==> k[i] == h[i];
    }
  }

  /** `replies` answer the requests of `h` one by one, each in the state it was handled in. */
  ghost predicate AllAnswered(s: State, h: seq<Request>, replies: seq<seq<byte>>) {
    |replies| == |h| && forall i :: 0 <= i < |h| ==> Answers(Run(s, h[..i]), h[i], replies[i])
  }

  lemma OneMoreAnswer(s: State, h: seq<Request>, r: Request, replies: seq<seq<byte>>, sent: seq<byte>)
    requires AllAnswered(s, h, replies)
    requires Answers(Run(s, h), r, sent)
    ensures AllAnswered(s, h + [r], replies + [sent])
  {
    hide Answers, Run;
    var k := h + [r];
    forall i | 0 <= i < |k| ensures Answers(Run(s, k[..i]), k[i], (replies + [sent])[i]) {
      if i < |h| {
        assert k[..i] == h[..i];
      } else {
        assert k[..i] == h;
      }
    }
  }

  /** Logging out in two calls on the accounts, as the handler does it. */
  lemma LogOutInTwo(s: State, u: CString)
    requires u in s.users
    ensures var once := s.users[u := s.users[u].(active := false)];
      Step(s, LogOut(u)) ==
        (State(once[u := once[u].(groups := {})], Apply(s.registry, RemoveUserFromAll(u)).0), Accepted)
  {
    var once := s.users[u := s.users[u].(active := false)];
    assert once[u := once[u].(groups := {})] == s.users[u := s.users[u].(active := false, groups := {})];
  }

  /** The cases of the handler's switch. */
  lemma FromTag(s: State, tag: byte, user: CString, second: CString)
    ensures var r := RequestFrom(tag, user, second);
      if tag == REGISTER_REQUEST then r == Register(user, second)
      else if tag == LOGIN_REQUEST then r == LogIn(user, second)
      else if tag == LOGOUT_REQUEST then r == LogOut(user)
      else if tag == GROUP_CREATE_REQUEST then r == Create(user, second)
      else if tag == GROUP_JOIN_REQUEST then r == Join(user, second)
      else if tag == GROUP_LEAVE_REQUEST then r == Leave(user, second)
      else if tag == GROUP_ALL_AVAILABLE_REQUEST then r == SeeAll && Step(s, r).0 == s
      else r == Ignored && Answers(s, r, []) && Step(s, r).0 == s
    ensures RequestFrom(tag, user, second) != SeeAll ==> ListingFits(s, RequestFrom(tag, user, second))
  {
  }

  lemma ListingAnswers(s: State, order: seq<CString>, sent: seq<byte>)
    requires L.Orders(order, s.registry.groups.Keys)
    requires sent == Encode(Names(GROUP_ALL_AVAILABLE_REPLY, 1, L.Text(order)))
    ensures Answers(s, SeeAll, sent)
  {
  }

  // ----------------------------------------------------------------- structs on their way

  const INTERNAL_BUFFER := 4096

  /** Unpacks a two-string request into a struct from calloc. */
  method UnpackPair(buffer: array<byte>, tag: int) returns (user: CString, second: CString)
    requires LayoutOf(tag) == PairLayout && Readable(PairLayout, buffer[..])
    ensures Pair(buffer[..][0], user, second) == Decode(PairLayout, buffer[..])
  {
    var unpackedData := new PairStruct.Calloc();
    var _ := ProtocolUnpack(PairPtr(unpackedData), buffer, tag);
    user, second := TextOf(unpackedData.username[..]), TextOf(unpackedData.second[..]);
  }

  method UnpackSingle(buffer: array<byte>, tag: int) returns (user: CString)
    requires LayoutOf(tag) == SingleLayout && Readable(SingleLayout, buffer[..])
    ensures Single(buffer[..][0], user) == Decode(SingleLayout, buffer[..])
  {
    var unpackedData := new SingleStruct.Calloc();
    var _ := ProtocolUnpack(SinglePtr(unpackedData), buffer, tag);
    user := TextOf(unpackedData.username[..]);
  }

  /** Reads the tag, and the strings if the tag has a case that unpacks them. */
  method Unpack(buffer: array<byte>) returns (tag: byte, user: CString, second: CString)
    requires Acceptable(buffer[..])
    ensures tag == buffer[..][0] && (user, second) == StringsOf(buffer[..])
  {
    user, second := [], [];
    var received := ProtocolGetTag(buffer);
    tag := buffer[0];
    if received == REGISTER_REQUEST || received == LOGIN_REQUEST || received == GROUP_CREATE_REQUEST
       || received == GROUP_JOIN_REQUEST || received == GROUP_LEAVE_REQUEST {
      user, second := UnpackPair(buffer, received);
    } else if received == LOGOUT_REQUEST {
      user := UnpackSingle(buffer, received);
    }
  }

  /** Packs a plain reply under its own tag; `sent` is what goes out on the socket. */
  method SendStatus(tag: byte, ok: bool) returns (sent: seq<byte>)
    requires LayoutOf(tag) == StatusLayout
    ensures sent == Encode(Status(tag, if ok then 1 else 0))
  {
    var dataToSend := new StatusStruct(tag, if ok then 1 else 0);
    var internalBuffer := new byte[INTERNAL_BUFFER](_ => 0);
    var size := ProtocolPack(StatusPtr(dataToSend), internalBuffer, tag);
    sent := internalBuffer[..size];
  }

  /** Packs an address reply under the create tag, whichever of the two tags it carries itself. */
  method SendAddress(tag: byte, ok: bool, ip: CString, port: CString) returns (sent: seq<byte>)
    requires |ip| < IP_SIZE && |port| < PORT_SIZE
    ensures sent == Encode(Address(tag, if ok then 1 else 0, ip, port))
  {
    hide Encode, TextOf;
    var dataToSendGroup := new AddressStruct.Calloc();
    dataToSendGroup.reply := if ok then 1 else 0;
    Strcpy(dataToSendGroup.port, port);
    Strcpy(dataToSendGroup.ip, ip);
    dataToSendGroup.tag := tag;
    assert dataToSendGroup.Value() == Address(tag, if ok then 1 else 0, ip, port);
    var internalBuffer := new byte[INTERNAL_BUFFER](_ => 0);
    var size := ProtocolPack(AddressPtr(dataToSendGroup), internalBuffer, GROUP_CREATE_REPLY);
    sent := internalBuffer[..size];
  }

  method SendNames(names: CString) returns (sent: seq<byte>)
    requires |names| < L.MAX_SIZE_GROUPS
    ensures sent == Encode(Names(GROUP_ALL_AVAILABLE_REPLY, 1, names))
  {
    var dataToSendSeeGrps := new NamesStruct.Calloc();
    dataToSendSeeGrps.reply := 1;
    Strcpy(dataToSendSeeGrps.names, names);
    dataToSendSeeGrps.tag := GROUP_ALL_AVAILABLE_REPLY;
    var internalBuffer := new byte[INTERNAL_BUFFER](_ => 0);
    var size := ProtocolPack(NamesPtr(dataToSendSeeGrps), internalBuffer, GROUP_ALL_AVAILABLE_REPLY);
    sent := internalBuffer[..size];
  }

  /** `ok` and `ip` are what the sender of `r` is told, apart from listings. */
  ghost predicate Told(s: State, r: Request, ok: bool, ip: CString) {
    var o := Step(s, r).1;
    (r == SeeAll || r == Ignored || ok == o.Success()) && (o.Assigned? ==> o == Assigned(ip))
  }

  /** The reply for a tag, with the address or with placeholder texts where one is due. */
  method SendReply(ghost s: State, ghost r: Request, tag: byte, user: CString, second: CString,
                   ok: bool, ip: CString)
    returns (sent: seq<byte>)
    requires Sound(s)
    requires r == RequestFrom(tag, user, second) && r != SeeAll
    requires Told(s, r, ok, ip)
    ensures Answers(s, r, sent)
  {
    if r != Ignored {
      AddressFits(s, r);
    }
    hide Sound;
    sent := [];
    if tag == REGISTER_REQUEST {
      sent := SendStatus(REGISTER_REPLY, ok);
    } else if tag == LOGIN_REQUEST {
      sent := SendStatus(LOGIN_REPLY, ok);
    } else if tag == LOGOUT_REQUEST {
      sent := SendStatus(LOGOUT_REPLY, ok);
    } else if tag == GROUP_CREATE_REQUEST {
      sent := SendAddress(GROUP_CREATE_REPLY, ok, if ok then ip else NO_IP, if ok then PORT_TEXT else NO_PORT);
    } else if tag == GROUP_JOIN_REQUEST {
      sent := SendAddress(GROUP_JOIN_REPLY, ok, if ok then ip else NO_IP, if ok then PORT_TEXT else NO_PORT);
    } else if tag == GROUP_LEAVE_REQUEST {
      sent := SendStatus(GROUP_LEAVE_REPLY, ok);
    }
  }

  // ------------------------------------------------------------------------- the handler

  class SrvMng {
    const userManager: U.UsrMng
    const groupManager: G.GrpMng
    ghost var Repr: set<object>

    ghost predicate Shape()
      reads this, Repr
    {
      && this in Repr && userManager in Repr && groupManager in Repr
      && userManager.Repr <= Repr && groupManager.Repr <= Repr
      && this !in userManager.Repr && this !in groupManager.Repr
      && userManager.Repr !! groupManager.Repr
      && userManager.Valid() && groupManager.Valid()
    }

    ghost function View(): State
      requires Shape()
      reads this, Repr
    {
      State(userManager.View(), groupManager.View())
    }

    ghost predicate Valid()
      reads this, Repr
      ensures Valid() ==> Shape() && this in Repr
    {
      Shape() && Sound(View())
    }

    lemma ViewIsSound()
      requires Valid()
      ensures Sound(View())
    {
    }

    lemma Revalidated()
      requires Shape() && Sound(View())
      ensures Valid()
    {
    }

    constructor ()
      ensures Valid() && View() == Start()
      ensures fresh(Repr)
    {
      userManager := new U.UsrMng();
      groupManager := new G.GrpMng();
      new;
      hide Sound, G.GrpMng.Valid, G.GrpMng.View, U.UsrMng.Valid, U.UsrMng.View;
      RunIsSound([]);
      Repr := {this, userManager, groupManager} + userManager.Repr + groupManager.Repr;
    }

    method OnRegister(user: CString, pass: CString) returns (ok: bool)
      requires Shape()
      requires |user| < L.MAX_SIZE && |pass| < L.MAX_SIZE
      modifies Repr
      ensures Shape() && fresh(Repr - old(Repr))
      ensures View() == Step(old(View()), Register(user, pass)).0
      ensures Told(old(View()), Register(user, pass), ok, NO_IP)
    {
      hide G.GrpMng.Valid, G.GrpMng.View, G.GrpMng.Shape, U.UsrMng.View;
      var result := userManager.RegisterNewUser(user, pass);
      Repr := Repr + userManager.Repr;
      ok := result == U.UserMngSuccess;
    }

    method OnLogIn(user: CString, pass: CString) returns (ok: bool)
      requires Shape()
      modifies Repr
      ensures Shape() && Repr == old(Repr)
      ensures View() == Step(old(View()), LogIn(user, pass)).0
      ensures Told(old(View()), LogIn(user, pass), ok, NO_IP)
    {
      hide G.GrpMng.Valid, G.GrpMng.View, G.GrpMng.Shape, U.UsrMng.View;
      var result := userManager.LogInUser(user, pass);
      ok := result == U.UserMngSuccess;
    }

    method OnLogOut(user: CString) returns (ok: bool)
      requires Shape()
      modifies Repr
      ensures Shape() && Repr == old(Repr)
      ensures View() == Step(old(View()), LogOut(user)).0
      ensures Told(old(View()), LogOut(user), ok, NO_IP)
    {
      hide G.GrpMng.Valid, G.GrpMng.View, G.GrpMng.Shape, U.UsrMng.View;
      ghost var s := View();
      var result := userManager.LogOutUser(user);
      if result == U.UserMngSuccess {
        LogOutInTwo(s, user);
        var _ := userManager.RemoveAllGroupsFromUser(user);
        var _ := groupManager.RemoveUserFromAllGroups(user);
      }
      ok := result == U.UserMngSuccess;
    }

    method OnCreate(user: CString, group: CString) returns (ok: bool, ip: CString)
      requires Shape()
      requires |group| < L.MAX_SIZE
      modifies Repr
      ensures Shape() && fresh(Repr - old(Repr))
      ensures View() == Step(old(View()), Create(user, group)).0
      ensures Told(old(View()), Create(user, group), ok, ip)
    {
      hide G.GrpMng.Valid, G.GrpMng.View, G.GrpMng.Shape, U.UsrMng.View;
      var result, groupIP := groupManager.AddNewGroup(group);
      Repr := Repr + groupManager.Repr;
      ok := result == GroupMngSuccess;
      ip := if ok then groupIP.value else NO_IP;
    }

    method OnJoin(user: CString, group: CString) returns (ok: bool, ip: CString)
      requires Shape()
      modifies Repr
      ensures Shape() && Repr == old(Repr)
      ensures View() == Step(old(View()), Join(user, group)).0
      ensures Told(old(View()), Join(user, group), ok, ip)
    {
      hide G.GrpMng.Valid, G.GrpMng.View, G.GrpMng.Shape, U.UsrMng.View;
      var result, groupIP := groupManager.AddUserToGroup(user, group);
      ok := result == GroupMngSuccess;
      ip := if ok then groupIP.value else NO_IP;
    }

    method OnLeave(user: CString, group: CString) returns (ok: bool)
      requires Shape()
      modifies Repr
      ensures Shape() && Repr == old(Repr)
      ensures View() == Step(old(View()), Leave(user, group)).0
      ensures Told(old(View()), Leave(user, group), ok, NO_IP)
    {
      hide G.GrpMng.Valid, G.GrpMng.View, G.GrpMng.Shape, U.UsrMng.View;
      var result := groupManager.RemoveUserFromGroup(user, group);
      ok := result == GroupMngSuccess;
    }

    /**
     The names are collected in a zeroed buffer of the width of the reply's own field; if they
     leave it, the behaviour of the original is undefined and the model stops.
     */
    method OnSeeAll() returns (sent: seq<byte>, within: bool)
      requires Shape()
      ensures within <==> ListingFits(old(View()), SeeAll)
      ensures within ==> Answers(old(View()), SeeAll, sent)
    {
      ghost var s := View();
      ghost var keys := s.registry.groups.Keys;
      groupManager.KeysOfView();
      assert groupManager.Valid() && keys == groupManager.groupMap.Keys;
      assert ListingFits(s, SeeAll) <==> L.ListedLength(keys) < L.MAX_SIZE_GROUPS;
      var emptyStrForGroups := new byte[L.MAX_SIZE_GROUPS](_ => 0);
      TextOfPrefix(emptyStrForGroups[..], []);
      hide *;
      sent := [];
      var _, inside, order := groupManager.GetAllGroupNames(emptyStrForGroups);
      within := inside;
      if within {
        L.TextLength(order, keys);
        ghost var text := L.Text(order);
        assert TextOf(emptyStrForGroups[..]) == text by {
          assert [] + text == text;
        }
        sent := SendNames(TextOf(emptyStrForGroups[..]));
        ListingAnswers(s, order, sent);
      }
    }

    /** Calls the managers as the tag asks. */
    method Act(tag: byte, user: CString, second: CString) returns (ok: bool, ip: CString)
      requires Valid()
      requires |user| < L.MAX_SIZE && |second| < L.MAX_SIZE
      modifies Repr
      ensures Valid() && fresh(Repr - old(Repr))
      ensures View() == Step(old(View()), RequestFrom(tag, user, second)).0
      ensures Told(old(View()), RequestFrom(tag, user, second), ok, ip)
    {
      StepKeepsSound(View(), RequestFrom(tag, user, second));
      FromTag(View(), tag, user, second);
      hide *;
      ok, ip := false, NO_IP;
      if tag == REGISTER_REQUEST {
        ok := OnRegister(user, second);
      } else if tag == LOGIN_REQUEST {
        ok := OnLogIn(user, second);
      } else if tag == LOGOUT_REQUEST {
        ok := OnLogOut(user);
      } else if tag == GROUP_CREATE_REQUEST {
        ok, ip := OnCreate(user, second);
      } else if tag == GROUP_JOIN_REQUEST {
        ok, ip := OnJoin(user, second);
      } else if tag == GROUP_LEAVE_REQUEST {
        ok := OnLeave(user, second);
      }
      Revalidated();
    }

    /** Acts on the tag and packs the reply. */
    method Respond(tag: byte, user: CString, second: CString) returns (sent: seq<byte>, within: bool)
      requires Valid()
      requires |user| < L.MAX_SIZE && |second| < L.MAX_SIZE
      modifies Repr
      ensures within <==> ListingFits(old(View()), RequestFrom(tag, user, second))
      ensures within ==> Valid() && fresh(Repr - old(Repr))
      ensures within ==> View() == Step(old(View()), RequestFrom(tag, user, second)).0
      ensures within ==> Answers(old(View()), RequestFrom(tag, user, second), sent)
    {
      hide Shape, View, Sound, Answers, Step, ListingFits;
      ghost var s, r := View(), RequestFrom(tag, user, second);
      ViewIsSound();
      FromTag(s, tag, user, second);
      if tag == GROUP_ALL_AVAILABLE_REQUEST {
        sent, within := OnSeeAll();
      } else {
        var ok, ip := Act(tag, user, second);
        ghost var t := View();
        sent := SendReply(s, r, tag, user, second, ok, ip);
        within := true;
        assert View() == t;
      }
    }

    /**
     One packet: a step of the chat server of module Chat, and its answer in bytes. Unpacking,
     the manager calls and the reply, which the original writes out for each tag in turn, are
     calls of their own here. A listing that leaves its buffer is where the model stops.
     */
    method GotMessage(buffer: array<byte>) returns (sent: seq<byte>, within: bool)
      requires Valid() && buffer !in Repr
      requires Acceptable(buffer[..])
      modifies Repr
      ensures within <==> ListingFits(old(View()), RequestOf(old(buffer[..])))
      ensures within ==> Valid() && fresh(Repr - old(Repr))
      ensures within ==> View() == Step(old(View()), RequestOf(old(buffer[..]))).0
      ensures within ==> Answers(old(View()), RequestOf(old(buffer[..])), sent)
    {
      ghost var s, r := View(), RequestOf(buffer[..]);
      var tag, user, second := Unpack(buffer);
      assert RequestFrom(tag, user, second) == r;
      hide *;
      assert View() == s;
      sent, within := Respond(tag, user, second);
    }

    /**
     A whole run: the packets the network layer delivers, one after another, each in the receive
     buffer. The managers end in the state of the chat server of module Chat after the same
     requests, and every answer on the way is the one that server gives at that point; a run in
     which some listing leaves its buffer is followed exactly as far as the first such listing.
     */
    method HandleAll(packets: seq<seq<byte>>) returns (replies: seq<seq<byte>>, within: bool)
      requires Valid()
      requires AllAcceptable(packets)
      modifies Repr
      ensures |replies| <= |packets|
      ensures AllAnswered(old(View()), Requests(packets)[..|replies|], replies)
      ensures within <==> ListingsFit(old(View()), Requests(packets))
      ensures within ==> |replies| == |packets|
      ensures within ==> Valid() && View() == Run(old(View()), Requests(packets))
      ensures !within ==> |replies| < |packets|
      ensures !within ==>
                !ListingFits(Run(old(View()), Requests(packets)[..|replies|]), Requests(packets)[|replies|])
    {
      hide Shape, View, Sound, Answers, ListingFits, RequestOf, Acceptable, Step;
      ghost var s := View();
      ghost var done: seq<Request> := [];
      replies := [];
      var k := 0;
      while k < |packets|
        invariant 0 <= k <= |packets|
        invariant Valid() && fresh(Repr - old(Repr))
        invariant done == Requests(packets)[..k]
        invariant View() == Run(s, done)
        invariant AllAnswered(s, done, replies) && |replies| == k
        invariant ListingsFit(s, done)
      {
        ghost var r := RequestOf(packets[k]);
        NextRequest(packets, k);
        OneMoreFits(s, done, r);
        var sent, inside := Deliver(packets[k]);
        if !inside {
          assert !ListingFits(Run(s, done), Requests(packets)[k]);
          return replies, false;
        }
        hide *;
        RunExtends(s, done, r);
        OneMoreAnswer(s, done, r, replies, sent);
        done := done + [r];
        replies := replies + [sent];
        k := k + 1;
      }
      assert done == Requests(packets);
      return replies, true;
    }

    /** Hands one received packet to the handler. */
    method Deliver(packet: seq<byte>) returns (sent: seq<byte>, within: bool)
      requires Valid()
      requires Acceptable(packet)
      modifies Repr
      ensures within <==> ListingFits(old(View()), RequestOf(packet))
      ensures within ==> Valid() && fresh(Repr - old(Repr))
      ensures within ==> View() == Step(old(View()), RequestOf(packet)).0
      ensures within ==> Answers(old(View()), RequestOf(packet), sent)
    {
      hide Shape, View, Sound, Answers, ListingFits, RequestOf, Step;
      var buffer := new byte[|packet|](i requires 0 <= i < |packet| => packet[i]);
      assert buffer[..] == packet;
      hide *;
      sent, within := GotMessage(buffer);
    }
  }
}
