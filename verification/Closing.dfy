/**
 A closing connection: the select loop calls the handler with a buffer nothing was received into,
 so the handler sees the latest packet a second time.
 */
module Closing {
  import opened CStrings
  import opened Chat
  import opened History
  import opened ServerNet
  import opened Service
  import D = Decimal
  import H = Handler
  import W = Wire

  /** The deliveries for which something was received. */
  function WithData(log: seq<Delivery>): seq<Delivery> {
    if log == [] then []
    else
      WithData(log[..|log| - 1]) + if log[|log| - 1].size > 0 then [log[|log| - 1]] else []
  }

  lemma {:induction false} WithDataHandled(log: seq<Delivery>)
    requires Handled(log)
    ensures Handled(WithData(log))
  {
    hide Asks, H.Acceptable;
    if log != [] {
      AllButLast(log);
      WithDataHandled(log[..|log| - 1]);
      OneMore(WithData(log[..|log| - 1]), log[|log| - 1]);
    }
  }

  // ------------------------------------------------------------------------ one close

  /**
   What makes a call without data cost something: it repeats a create while an address is free; or,
   as the first call of all, with a buffer no client has written to, it registers or creates.
   */
  ghost predicate CostlyAt(log: seq<Delivery>, k: nat)
    requires Handled(log) && k < |log|
  {
    AcceptableAt(log, k);
    PrefixHandled(log, k);
    var r := Asks(log[k]);
    if k == 0 then r.Register? || r.Create?
    else r.Create? && StateAfter(log[..k]).registry.free != []
  }

  lemma RepeatOfLatest(log: seq<Delivery>)
    requires Handled(log) && |log| > 1
    requires log[|log| - 1].bytes == log[|log| - 2].bytes
    ensures Handled(log[..|log| - 1]) && H.Acceptable(log[|log| - 1].bytes)
    ensures var before, after := StateAfter(log[..|log| - 1]), StateAfter(log);
      && SameButFree(before, after)
      && (after == before <==> !(Asks(log[|log| - 1]).Create? && before.registry.free != []))
  {
    hide H.Acceptable, H.RequestOf, Step, SameButFree;
    var before := log[..|log| - 1];
    AllButLast(log);
    AllButLast(before);
    ReplayIsIdempotent(StateAfter(before[..|before| - 1]), Asks(log[|log| - 1]));
  }

  /** The first call of all changes nothing exactly when it neither registers nor creates. */
  lemma FirstCall(d: Delivery)
    requires H.Acceptable(d.bytes)
    ensures Handled([d])
    ensures StateAfter([d]) == Start() <==> !(Asks(d).Register? || Asks(d).Create?)
  {
    hide H.Acceptable, H.RequestOf;
    assert Handled([]) && StateAfter([]) == Start();
    OneMore([], d);
    assert [] + [d] == [d];
    FirstStep(Asks(d));
  }

  lemma FirstStep(r: Request)
    ensures Step(Start(), r).0 == Start() <==> !(r.Register? || r.Create?)
  {
    assert Start().registry.free != [];
  }

  /**
   In a run of the loop, a call for which nothing was received changes nothing at all exactly when
   it is not costly; and past the first call it never changes an account, a group, an address or
   a membership.
   */
  lemma CloseIsHarmless(listenSD: nat, net: Net, k: nat)
    requires Good(listenSD, net) && Handled(net.log)
    requires k < |net.log| && net.log[k].size <= 0
    ensures Handled(net.log[..k]) && Handled(net.log[..k + 1])
    ensures var before, after := StateAfter(net.log[..k]), StateAfter(net.log[..k + 1]);
      && (k > 0 ==> SameButFree(before, after))
      && (after == before <==> !CostlyAt(net.log, k))
  {
    StaleCall(net.log, k);
  }

  lemma StaleCall(log: seq<Delivery>, k: nat)
    requires Handled(log) && StaleRepeat(log)
    requires k < |log| && log[k].size <= 0
    ensures Handled(log[..k]) && Handled(log[..k + 1])
    ensures var before, after := StateAfter(log[..k]), StateAfter(log[..k + 1]);
      && (k > 0 ==> SameButFree(before, after))
      && (after == before <==> !CostlyAt(log, k))
  {
    hide H.Acceptable, H.RequestOf, Step, SameButFree;
    PrefixHandled(log, k);
    PrefixHandled(log, k + 1);
    AcceptableAt(log, k);
    assert log[..k + 1][..k] == log[..k];
    if k == 0 {
      assert log[..1] == [log[0]];
      FirstCall(log[0]);
    } else {
      RepeatOfLatest(log[..k + 1]);
    }
  }

  // ------------------------------------------------------------------------- whole runs

  /** No call without data is costly. */
  ghost predicate NoCostlyClose(log: seq<Delivery>)
    requires Handled(log)
  {
    forall k :: 0 <= k < |log| && log[k].size <= 0 ==> !CostlyAt(log, k)
  }

  /** After `n` calls the server is where the received packets alone would have taken it. */
  ghost predicate Unnoticed(log: seq<Delivery>, n: nat)
    requires Handled(log) && n <= |log|
  {
    PrefixHandled(log, n);
    WithDataHandled(log[..n]);
    StateAfter(log[..n]) == StateAfter(WithData(log[..n]))
  }

  lemma WithDataStep(log: seq<Delivery>, n: nat)
    requires Handled(log) && n < |log|
    ensures WithData(log[..n + 1]) == WithData(log[..n]) + if log[n].size > 0 then [log[n]] else []
  {
    assert log[..n + 1][..n] == log[..n];
  }

  lemma {:induction false} PrefixUnnoticed(log: seq<Delivery>, n: nat)
    requires Handled(log) && StaleRepeat(log) && NoCostlyClose(log)
    requires n <= |log|
    ensures Unnoticed(log, n)
  {
    hide H.Acceptable, Asks, CostlyAt, StateAfter, Step;
    PrefixHandled(log, n);
    if n == 0 {
      assert log[..0] == [] && WithData([]) == [];
    } else {
      var m := n - 1;
      PrefixUnnoticed(log, m);
      PrefixHandled(log, m);
      WithDataHandled(log[..m]);
      WithDataStep(log, m);
      AcceptableAt(log, m);
      if log[m].size > 0 {
        OneMore(log[..m], log[m]);
        OneMore(WithData(log[..m]), log[m]);
        assert log[..n] == log[..m] + [log[m]];
      } else {
        StaleCall(log, m);
        assert WithData(log[..n]) == WithData(log[..m]);
      }
    }
  }

  /**
   Over a whole run of the loop, however many connections close and however often recv fails, the
   server ends exactly where the received packets alone would have taken it, as long as none of
   the calls without data is costly.
   */
  lemma ClosesUnnoticed(log: seq<Delivery>)
    requires Handled(log) && StaleRepeat(log) && NoCostlyClose(log)
    ensures Handled(WithData(log)) && StateAfter(log) == StateAfter(WithData(log))
  {
    hide H.Acceptable, Asks, NoCostlyClose;
    WithDataHandled(log);
    PrefixUnnoticed(log, |log|);
    assert log[..|log|] == log;
  }

  /** At every point of the run the calls without data are unnoticed exactly when none is costly. */
  lemma ClosesUnnoticedExactly(log: seq<Delivery>)
    requires Handled(log) && StaleRepeat(log)
    ensures (forall n :: 0 <= n <= |log| ==> Unnoticed(log, n)) <==> NoCostlyClose(log)
  {
    hide H.Acceptable, Asks, CostlyAt, StateAfter;
    if NoCostlyClose(log) {
      forall n | 0 <= n <= |log| ensures Unnoticed(log, n) {
        PrefixUnnoticed(log, n);
      }
    } else {
      var k :| 0 <= k < |log| && log[k].size <= 0 && CostlyAt(log, k);
      StaleCall(log, k);
      WithDataStep(log, k);
      assert WithData(log[..k + 1]) == WithData(log[..k]);
      assert !(Unnoticed(log, k) && Unnoticed(log, k + 1));
    }
  }

  // ------------------------------------------------------------------- a close that costs

  /** Accepts a client on descriptor 4, receives a packet from it, and sees it close. */
  function CreateAndClose(packet: seq<byte>): seq<Round> {
    [Ready({3}, 4, false, map[]), Ready({4}, -1, false, map[4 := Bytes(packet)]),
     Ready({4}, -1, false, map[4 := Closed])]
  }

  /** What the loop delivers in those three rounds. */
  lemma ThreeRounds(packet: seq<byte>)
    requires 0 < |packet| <= BUFFER_SIZE
    ensures var start := Started(3, {}, Zeros(BUFFER_SIZE));
      var b := Overwritten(Zeros(BUFFER_SIZE), packet);
      && LegalRun(3, start, CreateAndClose(packet))
      && RunNet(3, start, CreateAndClose(packet)).log ==
           [Delivery(4, b, |packet|), Delivery(4, b, 0)]
  {
    var start, rounds := Started(3, {}, Zeros(BUFFER_SIZE)), CreateAndClose(packet);
    var b := Overwritten(Zeros(BUFFER_SIZE), packet);
    hide FullScan, RunNet, LegalRun;
    ScanOne(3, start.(working := {3}), 0, rounds[0], 3);
    var accepted := Pass(3, start, rounds[0]);
    assert accepted == Net({3, 4}, {3}, Zeros(BUFFER_SIZE), [], false);
    ScanOne(3, accepted.(working := {4}), 0, rounds[1], 4);
    var received := Pass(3, accepted, rounds[1]);
    assert received == Net({3, 4}, {4}, b, [Delivery(4, b, |packet|)], false);
    ScanOne(3, received.(working := {4}), 0, rounds[2], 4);
    var closed := Pass(3, received, rounds[2]);
    assert closed.log == [Delivery(4, b, |packet|), Delivery(4, b, 0)] && !closed.ended;
    RoundByRound(3, start, rounds, accepted);
    RoundByRound(3, accepted, rounds[1..], received);
    RoundByRound(3, received, rounds[2..], closed);
    Over(3, closed, rounds[3..]);
  }

  /**
   A client creates a group and closes its connection, and an address is lost: the second one of
   the pool, which the create alone leaves free.
   */
  lemma CloseCostsAnAddress(u: CString, g: CString)
    requires H.RequestMessage(Create(u, g), []).FitsFields()
    ensures var packet := W.Encode(H.RequestMessage(Create(u, g), []));
      var start := Started(3, {}, Zeros(BUFFER_SIZE));
      && LegalRun(3, start, CreateAndClose(packet))
      && var log := RunNet(3, start, CreateAndClose(packet)).log;
         && Handled(log) && Handled(WithData(log))
         && StateAfter(WithData(log)).registry.leaked == []
         && StateAfter(log).registry.leaked == [D.Address(2)]
  {
    var m := H.RequestMessage(Create(u, g), []);
    var packet := W.Encode(m);
    ThreeRounds(packet);
    var b := Overwritten(Zeros(BUFFER_SIZE), packet);
    var first, second := Delivery(4, b, |packet|), Delivery(4, b, 0);
    H.RequestArrives(Create(u, g), [], Zeros(BUFFER_SIZE)[|packet|..]);
    hide H.Acceptable, H.RequestOf, LegalRun, RunNet, Run, Step, W.Encode, H.RequestMessage;
    assert Handled([]) && StateAfter([]) == Start() by {
      NothingHandled();
    }
    OneMore([], first);
    OneMore([first], second);
    assert [] + [first] == [first] && [first] + [second] == [first, second];
    OneOfTwo(first, second);
    CreateTwice(u, g);
  }

  lemma OneOfTwo(first: Delivery, second: Delivery)
    requires first.size > 0 && second.size <= 0
    ensures WithData([first, second]) == [first]
  {
    assert [first, second][..1] == [first] && [first][..0] == [];
    assert WithData([first]) == WithData([]) + [first] == [first];
  }

  lemma NothingHandled()
    ensures Handled([]) && StateAfter([]) == Start()
  {
  }

  lemma CreateTwice(u: CString, g: CString)
    ensures var once := Step(Start(), Create(u, g)).0;
      once.registry.leaked == [] && Step(once, Create(u, g)).0.registry.leaked == [D.Address(2)]
  {
    var once := Step(Start(), Create(u, g)).0;
    assert once.registry.free[0] == D.Pool(100)[1] == D.Address(2);
  }
}
