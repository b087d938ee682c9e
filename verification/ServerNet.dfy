/**
 The select loop: which descriptors are watched, served and closed. The operating system's part
 (what select, accept and recv return) is a script of rounds that the loop is run against.
 */
module ServerNet {
  import opened CStrings

  const BUFFER_SIZE := 100
  /** The number of descriptors an fd_set has room for. */
  const FD_SETSIZE := 1024
  /** The descriptors whose bits lie in the first sizeof(fd_set*) bytes of an fd_set. */
  const COPIED := 64

  datatype Received = Bytes(data: seq<byte>) | Closed | Failed

  /**
   One select call and what follows it: the ready descriptors, the result of the accept on the
   listening socket if that is one of them, and of the recv on each other one.
   */
  datatype Round =
    | SelectFails
    | Ready(ready: set<nat>, newSD: int, wouldBlock: bool, received: map<nat, Received>)

  /** A call of the handler: the client's descriptor, the whole receive buffer, and what recv returned. */
  datatype Delivery = Delivery(fd: nat, bytes: seq<byte>, size: int)

  datatype Net = Net(master: set<nat>, working: set<nat>, buffer: seq<byte>, log: seq<Delivery>, ended: bool)

  // ------------------------------------------------------------------ the loop as values

  /** The set handed to select: only its first COPIED descriptors are copied from the master set. */
  function Watched(working: set<nat>, master: set<nat>): set<nat> {
    (set fd | fd in master && fd < COPIED) + (set fd | fd in working && fd >= COPIED)
  }

  /** What the system can answer: select reports open watched descriptors; accept returns a new one. */
  ghost predicate Legal(listenSD: nat, net: Net, round: Round) {
    round.Ready? ==>
      && round.ready != {}
      && round.ready <= Watched(net.working, net.master) * net.master
      && (0 <= round.newSD ==> round.newSD < FD_SETSIZE && round.newSD !in net.master)
      && (forall fd :: fd in round.ready && fd != listenSD ==>
            && fd in round.received
            && (round.received[fd].Bytes? ==> 0 < |round.received[fd].data| <= BUFFER_SIZE))
  }

  /** The return value of recv. */
  function Size(received: Received): int {
    match received
    case Bytes(data) => |data|
    case Closed => 0
    case Failed => -1
  }

  function Overwritten(buffer: seq<byte>, data: seq<byte>): seq<byte>
    requires |data| <= |buffer|
  {
    data + buffer[|data|..]
  }

  /**
   Serving one ready descriptor, and whether the scan stops there. The handler is called even
   when nothing was received, with whatever the buffer still holds.
   */
  function Serve(listenSD: nat, net: Net, fd: nat, round: Round): (r: (Net, bool))
    requires round.Ready? && fd in round.ready && |net.buffer| == BUFFER_SIZE
    requires fd != listenSD ==>
               fd in round.received &&
               (round.received[fd].Bytes? ==> 0 < |round.received[fd].data| <= BUFFER_SIZE)
    ensures |r.0.buffer| == BUFFER_SIZE
  {
    if fd == listenSD then
      if round.newSD < 0 then (net.(ended := net.ended || !round.wouldBlock), true)
      else (net.(master := net.master + {round.newSD}), false)
    else
      match round.received[fd]
      case Bytes(data) =>
        var buffer := Overwritten(net.buffer, data);
        (net.(buffer := buffer, log := net.log + [Delivery(fd, buffer, |data|)]), false)
      case nothing =>
        (net.(master := net.master - {fd}, log := net.log + [Delivery(fd, net.buffer, Size(nothing))]), true)
  }

  ghost predicate Servable(listenSD: nat, net: Net, round: Round) {
    && round.Ready? && |net.buffer| == BUFFER_SIZE
    && (forall fd :: fd in round.ready && fd != listenSD ==>
          && fd in round.received
          && (round.received[fd].Bytes? ==> 0 < |round.received[fd].data| <= BUFFER_SIZE))
  }

  /**
   The plain scan: every descriptor there can be, from `fd` up, with no countdown and no upper
   bound kept. Its second result is where it stopped.
   */
  ghost function FullScan(listenSD: nat, net: Net, fd: nat, round: Round): (r: (Net, nat))
    requires Servable(listenSD, net, round)
    ensures fd < FD_SETSIZE ==> fd <= r.1 <= FD_SETSIZE
    decreases FD_SETSIZE - fd
  {
    if fd >= FD_SETSIZE then (net, FD_SETSIZE)
    else if fd !in round.ready then FullScan(listenSD, net, fd + 1, round)
    else
      var (served, stop) := Serve(listenSD, net, fd, round);
      if stop then (served, fd) else FullScan(listenSD, served, fd + 1, round)
  }

  /** One pass of the outer loop. */
  ghost function Pass(listenSD: nat, net: Net, round: Round): Net
    requires |net.buffer| == BUFFER_SIZE && Legal(listenSD, net, round)
  {
    if round.SelectFails? then net.(ended := true)
    else FullScan(listenSD, net.(working := round.ready), 0, round).0
  }

  /** A delivery for which nothing was received repeats the bytes of the one before it. */
  ghost predicate StaleRepeat(log: seq<Delivery>) {
    forall k :: 0 < k < |log| && log[k].size <= 0 ==> log[k].bytes == log[k - 1].bytes
  }

  /** What holds between passes. */
  ghost predicate Good(listenSD: nat, net: Net) {
    && listenSD in net.master
    && (forall fd :: fd in net.master ==> fd < FD_SETSIZE)
    && |net.buffer| == BUFFER_SIZE
    && (net.log != [] ==> net.log[|net.log| - 1].bytes == net.buffer)
    && StaleRepeat(net.log)
  }

  lemma {:induction false} ScanKeepsGood(listenSD: nat, net: Net, fd: nat, round: Round)
    requires Good(listenSD, net) && Servable(listenSD, net, round)
    requires round.newSD < FD_SETSIZE
    ensures Good(listenSD, FullScan(listenSD, net, fd, round).0)
    ensures FullScan(listenSD, net, fd, round).0.working == net.working
    decreases FD_SETSIZE - fd
  {
    if fd < FD_SETSIZE {
      if fd !in round.ready {
        ScanKeepsGood(listenSD, net, fd + 1, round);
      } else {
        var (served, stop) := Serve(listenSD, net, fd, round);
        if !stop {
          ScanKeepsGood(listenSD, served, fd + 1, round);
        }
      }
    }
  }

  lemma PassKeepsGood(listenSD: nat, net: Net, round: Round)
    requires Good(listenSD, net) && Legal(listenSD, net, round)
    ensures Good(listenSD, Pass(listenSD, net, round))
    ensures round.Ready? ==> Pass(listenSD, net, round).working == round.ready
  {
    if round.Ready? {
      ScanKeepsGood(listenSD, net.(working := round.ready), 0, round);
    }
  }

  /** The system behaves over a whole run of the loop. */
  ghost predicate LegalRun(listenSD: nat, net: Net, rounds: seq<Round>)
    requires Good(listenSD, net)
    decreases |rounds|
  {
    rounds == [] || net.ended ||
    (Legal(listenSD, net, rounds[0]) &&
     (PassKeepsGood(listenSD, net, rounds[0]);
      LegalRun(listenSD, Pass(listenSD, net, rounds[0]), rounds[1..])))
  }

  ghost function RunNet(listenSD: nat, net: Net, rounds: seq<Round>): (after: Net)
    requires Good(listenSD, net) && LegalRun(listenSD, net, rounds)
    ensures Good(listenSD, after)
    decreases |rounds|
  {
    if rounds == [] || net.ended then net
    else
      PassKeepsGood(listenSD, net, rounds[0]);
      RunNet(listenSD, Pass(listenSD, net, rounds[0]), rounds[1..])
  }

  /** The loop before its first pass; the working set and the buffer are uninitialised. */
  function Started(listenSD: nat, working: set<nat>, buffer: seq<byte>): Net {
    Net({listenSD}, working, buffer, [], false)
  }

  // ------------------------------------------------------------------- what a scan serves

  /** `log` goes on from `before` with deliveries to strictly rising descriptors, from `lo` up. */
  ghost predicate Rising(before: seq<Delivery>, log: seq<Delivery>, lo: nat) {
    && |before| <= |log|
    && log[..|before|] == before
    && (forall k :: |before| <= k < |log| ==> lo <= log[k].fd)
    && (forall j, k :: |before| <= j < k < |log| ==> log[j].fd < log[k].fd)
  }

  ghost predicate DeliveredTo(before: seq<Delivery>, log: seq<Delivery>, fd: nat) {
    exists k :: |before| <= k < |log| && log[k].fd == fd
  }

  /**
   A scan serves exactly the ready client descriptors up to where it stops, each once, in rising
   order; if it stops nowhere, that is all of them.
   */
  lemma {:induction false} ScanServes(listenSD: nat, net: Net, fd: nat, round: Round)
    requires Servable(listenSD, net, round)
    ensures var (after, stop) := FullScan(listenSD, net, fd, round);
      && Rising(net.log, after.log, fd)
      && (forall x: nat :: DeliveredTo(net.log, after.log, x) <==>
            x in round.ready && x != listenSD && fd <= x <= stop && x < FD_SETSIZE)
    decreases FD_SETSIZE - fd
  {
    if fd < FD_SETSIZE {
      if fd !in round.ready {
        ScanServes(listenSD, net, fd + 1, round);
      } else {
        var (served, stop) := Serve(listenSD, net, fd, round);
        assert fd != listenSD ==> served.log == net.log + [served.log[|net.log|]];
        if !stop {
          ScanServes(listenSD, served, fd + 1, round);
          ServedOneMore(listenSD, net, served, FullScan(listenSD, served, fd + 1, round).0.log, fd);
        } else {
          ServedOneMore(listenSD, net, served, served.log, fd);
        }
      }
    }
  }

  /** One more delivery in front of rising ones from higher descriptors. */
  lemma ServedOneMore(listenSD: nat, net: Net, served: Net, log: seq<Delivery>, fd: nat)
    requires if fd == listenSD then served.log == net.log
             else |served.log| == |net.log| + 1 && served.log[..|net.log|] == net.log
                  && served.log[|net.log|].fd == fd
    requires Rising(served.log, log, fd + 1)
    ensures Rising(net.log, log, fd)
    ensures forall x: nat :: DeliveredTo(net.log, log, x) <==>
                        DeliveredTo(served.log, log, x) || (x == fd && fd != listenSD)
  {
    var n := |net.log|;
    assert log[..n] == log[..|served.log|][..n];
    if fd != listenSD {
      assert log[n] == log[..n + 1][n] == served.log[n];
      assert forall x: nat :: DeliveredTo(net.log, log, x) ==> DeliveredTo(served.log, log, x) || x == fd;
    }
  }

  /** What the handler is given of a client is what recv returned for it, at the front of the buffer. */
  ghost predicate HandsOver(d: Delivery, round: Round) {
    && round.Ready? && d.fd in round.received && d.size == Size(round.received[d.fd])
    && (round.received[d.fd].Bytes? ==>
          d.size <= |d.bytes| && d.bytes[..d.size] == round.received[d.fd].data)
  }

  /** `log` goes on from `before` with deliveries of what the round's recv calls returned. */
  ghost predicate AllHandOver(before: seq<Delivery>, log: seq<Delivery>, round: Round) {
    && |before| <= |log|
    && log[..|before|] == before
    && (forall k :: |before| <= k < |log| ==> HandsOver(log[k], round))
  }

  lemma HandOverOn(before: seq<Delivery>, middle: seq<Delivery>, log: seq<Delivery>, round: Round)
    requires AllHandOver(before, middle, round) && AllHandOver(middle, log, round)
    ensures AllHandOver(before, log, round)
  {
    hide HandsOver;
    assert log[..|before|] == log[..|middle|][..|before|];
    forall k | |before| <= k < |log| ensures HandsOver(log[k], round) {
      if k < |middle| {
        assert log[k] == log[..|middle|][k];
      }
    }
  }

  /** Each handler call of a scan is given what recv returned for that client. */
  lemma {:induction false} ScanHandsOver(listenSD: nat, net: Net, fd: nat, round: Round)
    requires Servable(listenSD, net, round)
    ensures AllHandOver(net.log, FullScan(listenSD, net, fd, round).0.log, round)
    decreases FD_SETSIZE - fd
  {
    hide HandsOver, AllHandOver;
    if fd >= FD_SETSIZE {
      NothingHandedOver(net.log, round);
    } else if fd !in round.ready {
      ScanHandsOver(listenSD, net, fd + 1, round);
    } else {
      var (served, stop) := Serve(listenSD, net, fd, round);
      ServeHandsOver(listenSD, net, fd, round);
      if !stop {
        ScanHandsOver(listenSD, served, fd + 1, round);
        HandOverOn(net.log, served.log, FullScan(listenSD, served, fd + 1, round).0.log, round);
      }
    }
  }

  lemma NothingHandedOver(log: seq<Delivery>, round: Round)
    ensures AllHandOver(log, log, round)
  {
  }

  lemma ServeHandsOver(listenSD: nat, net: Net, fd: nat, round: Round)
    requires Servable(listenSD, net, round) && fd in round.ready
    ensures AllHandOver(net.log, Serve(listenSD, net, fd, round).0.log, round)
  {
    var served := Serve(listenSD, net, fd, round).0;
    if fd != listenSD {
      assert HandsOver(served.log[|net.log|], round);
    }
  }

  /** Serving `fd` ends the scan: an accept that gives nothing, or a recv that does. */
  predicate Stops(listenSD: nat, round: Round, fd: nat) {
    && round.Ready? && fd in round.ready
    && if fd == listenSD then round.newSD < 0 else fd in round.received && !round.received[fd].Bytes?
  }

  /** A scan from `fd` up comes as far as the listening socket, and that one is ready. */
  ghost predicate Reaches(listenSD: nat, round: Round, fd: nat) {
    && round.Ready? && listenSD in round.ready && fd <= listenSD
    && forall e: nat :: fd <= e < listenSD ==> !Stops(listenSD, round, e)
  }

  /** A scan stops at the first descriptor from which nothing comes, and nowhere else. */
  lemma {:induction false} ScanStops(listenSD: nat, net: Net, fd: nat, round: Round)
    requires Servable(listenSD, net, round) && fd <= FD_SETSIZE
    ensures var stop := FullScan(listenSD, net, fd, round).1;
      && (stop < FD_SETSIZE ==> Stops(listenSD, round, stop))
      && (forall e: nat :: fd <= e < stop ==> !Stops(listenSD, round, e))
    decreases FD_SETSIZE - fd
  {
    if fd < FD_SETSIZE {
      if fd !in round.ready {
        ScanStops(listenSD, net, fd + 1, round);
      } else {
        var (served, stop) := Serve(listenSD, net, fd, round);
        if !stop {
          ScanStops(listenSD, served, fd + 1, round);
        }
      }
    }
  }

  // ------------------------------------------------------------------------ who is open

  /** In the part of `log` after `before`, nothing was received from `x`. */
  ghost predicate ClosedIn(before: seq<Delivery>, log: seq<Delivery>, x: nat) {
    exists k :: |before| <= k < |log| && log[k].fd == x && log[k].size <= 0
  }

  ghost predicate AcceptedFrom(listenSD: nat, round: Round, fd: nat, x: nat) {
    Reaches(listenSD, round, fd) && x == round.newSD
  }

  /** The round's accept returned `x`, and the scan came to it. */
  ghost predicate AcceptedIn(listenSD: nat, round: Round, x: nat) {
    AcceptedFrom(listenSD, round, 0, x)
  }

  /** The round ends the loop: select fails, or an accept does and would not just block. */
  ghost predicate EndsIn(listenSD: nat, round: Round) {
    round.SelectFails? || (Reaches(listenSD, round, 0) && round.newSD < 0 && !round.wouldBlock)
  }

  ghost predicate Extends(before: seq<Delivery>, log: seq<Delivery>) {
    |before| <= |log| && log[..|before|] == before
  }

  lemma ClosedInTwoParts(before: seq<Delivery>, middle: seq<Delivery>, log: seq<Delivery>, x: nat)
    requires Extends(before, middle) && Extends(middle, log)
    ensures Extends(before, log)
    ensures ClosedIn(before, log, x) <==> ClosedIn(before, middle, x) || ClosedIn(middle, log, x)
  {
    assert log[..|before|] == log[..|middle|][..|before|];
    assert forall k :: 0 <= k < |middle| ==> log[k] == middle[k];
  }

  lemma ServeOpens(listenSD: nat, net: Net, fd: nat, round: Round, x: nat)
    requires Servable(listenSD, net, round) && fd in round.ready
    ensures var (served, stop) := Serve(listenSD, net, fd, round);
      && Extends(net.log, served.log)
      && stop == Stops(listenSD, round, fd)
      && (x in served.master <==>
            (x in net.master || (fd == listenSD && x == round.newSD)) && !ClosedIn(net.log, served.log, x))
      && (ClosedIn(net.log, served.log, x) ==> x == fd)
  {
    var (served, stop) := Serve(listenSD, net, fd, round);
    if fd != listenSD {
      assert served.log[|net.log|].fd == fd;
    }
  }

  /** After a scan, open are those that were, or were accepted on the way, and did not close. */
  lemma {:induction false} ScanOpens(listenSD: nat, net: Net, fd: nat, round: Round, x: nat)
    requires Servable(listenSD, net, round) && listenSD < FD_SETSIZE && fd <= FD_SETSIZE
    requires x == round.newSD ==> x !in round.ready
    ensures var after := FullScan(listenSD, net, fd, round).0;
      && Extends(net.log, after.log)
      && (x in after.master <==>
            (x in net.master || AcceptedFrom(listenSD, round, fd, x)) && !ClosedIn(net.log, after.log, x))
      && (x == round.newSD ==> !ClosedIn(net.log, after.log, x))
    decreases FD_SETSIZE - fd
  {
    if fd < FD_SETSIZE {
      ReachesStep(listenSD, round, fd);
      if fd !in round.ready {
        ScanOpens(listenSD, net, fd + 1, round, x);
      } else {
        ServeOpens(listenSD, net, fd, round, x);
        var (served, stop) := Serve(listenSD, net, fd, round);
        if !stop {
          ScanOpens(listenSD, served, fd + 1, round, x);
          ClosedInTwoParts(net.log, served.log, FullScan(listenSD, served, fd + 1, round).0.log, x);
        }
      }
    }
  }

  lemma ReachesStep(listenSD: nat, round: Round, fd: nat)
    ensures Reaches(listenSD, round, fd) <==>
            || (fd == listenSD && round.Ready? && fd in round.ready)
            || (fd != listenSD && !Stops(listenSD, round, fd) && Reaches(listenSD, round, fd + 1))
  {
  }

  lemma {:induction false} ScanEnds(listenSD: nat, net: Net, fd: nat, round: Round)
    requires Servable(listenSD, net, round) && listenSD < FD_SETSIZE && fd <= FD_SETSIZE
    ensures FullScan(listenSD, net, fd, round).0.ended <==>
            net.ended || (Reaches(listenSD, round, fd) && round.newSD < 0 && !round.wouldBlock)
    decreases FD_SETSIZE - fd
  {
    if fd < FD_SETSIZE {
      ReachesStep(listenSD, round, fd);
      if fd !in round.ready {
        ScanEnds(listenSD, net, fd + 1, round);
      } else {
        var (served, stop) := Serve(listenSD, net, fd, round);
        if !stop {
          ScanEnds(listenSD, served, fd + 1, round);
        }
      }
    }
  }

  /** One pass: who is open after it, and whether it ends the loop. */
  lemma PassOpens(listenSD: nat, net: Net, round: Round, x: nat)
    requires Good(listenSD, net) && Legal(listenSD, net, round)
    ensures var after := Pass(listenSD, net, round);
      && Extends(net.log, after.log)
      && (x in after.master <==>
            (x in net.master || AcceptedIn(listenSD, round, x)) && !ClosedIn(net.log, after.log, x))
      && (after.ended <==> net.ended || EndsIn(listenSD, round))
  {
    if round.Ready? {
      ScanOpens(listenSD, net.(working := round.ready), 0, round, x);
      ScanEnds(listenSD, net.(working := round.ready), 0, round);
    }
  }

  /** The loop as it stands before round `k`. */
  ghost function NetAt(listenSD: nat, net: Net, rounds: seq<Round>, k: nat): Net
    requires Good(listenSD, net) && LegalRun(listenSD, net, rounds)
    decreases |rounds|
  {
    if k == 0 || rounds == [] || net.ended then net
    else
      PassKeepsGood(listenSD, net, rounds[0]);
      NetAt(listenSD, Pass(listenSD, net, rounds[0]), rounds[1..], k - 1)
  }

  /** Round `k` took place and its accept returned `x`, from which only data has come since. */
  ghost predicate OpenedAt(listenSD: nat, net: Net, rounds: seq<Round>, k: int, x: nat)
    requires Good(listenSD, net) && LegalRun(listenSD, net, rounds)
  {
    && 0 <= k < |rounds|
    && var before := NetAt(listenSD, net, rounds, k);
    && !before.ended
    && AcceptedIn(listenSD, rounds[k], x)
    && !ClosedIn(before.log, RunNet(listenSD, net, rounds).log, x)
  }

  ghost predicate EndedAt(listenSD: nat, net: Net, rounds: seq<Round>, k: int)
    requires Good(listenSD, net) && LegalRun(listenSD, net, rounds)
  {
    && 0 <= k < |rounds|
    && !NetAt(listenSD, net, rounds, k).ended
    && EndsIn(listenSD, rounds[k])
  }

  lemma OneRoundOn(listenSD: nat, net: Net, rounds: seq<Round>, next: Net, k: nat, x: nat)
    requires Good(listenSD, net) && LegalRun(listenSD, net, rounds) && rounds != [] && !net.ended
    requires next == Pass(listenSD, net, rounds[0]) && Good(listenSD, next)
    requires LegalRun(listenSD, next, rounds[1..])
    ensures OpenedAt(listenSD, net, rounds, k + 1, x) <==> OpenedAt(listenSD, next, rounds[1..], k, x)
    ensures EndedAt(listenSD, net, rounds, k + 1) <==> EndedAt(listenSD, next, rounds[1..], k)
  {
    hide Good, LegalRun, Legal, Pass, Servable, AcceptedIn, ClosedIn, EndsIn;
  }

  lemma {:induction false} RunOpens(listenSD: nat, net: Net, rounds: seq<Round>, x: nat)
    requires Good(listenSD, net) && LegalRun(listenSD, net, rounds)
    ensures var after := RunNet(listenSD, net, rounds);
      && Extends(net.log, after.log)
      && (x in after.master <==>
            || (x in net.master && !ClosedIn(net.log, after.log, x))
            || exists k :: OpenedAt(listenSD, net, rounds, k, x))
      && (after.ended <==> net.ended || exists k :: EndedAt(listenSD, net, rounds, k))
    decreases |rounds|
  {
    if rounds != [] && !net.ended {
      var next := Pass(listenSD, net, rounds[0]);
      PassOpens(listenSD, net, rounds[0], x);
      RoundByRound(listenSD, net, rounds, next);
      RunOpens(listenSD, next, rounds[1..], x);
      RunOpensStep(listenSD, net, rounds, next, x);
    }
  }

  lemma RunOpensStep(listenSD: nat, net: Net, rounds: seq<Round>, next: Net, x: nat)
    requires Good(listenSD, net) && LegalRun(listenSD, net, rounds) && rounds != [] && !net.ended
    requires next == Pass(listenSD, net, rounds[0]) && Good(listenSD, next)
    requires LegalRun(listenSD, next, rounds[1..])
    requires RunNet(listenSD, net, rounds) == RunNet(listenSD, next, rounds[1..])
    requires Extends(net.log, next.log) && Extends(next.log, RunNet(listenSD, next, rounds[1..]).log)
    ensures var log := RunNet(listenSD, net, rounds).log;
      && Extends(net.log, log)
      && (ClosedIn(net.log, log, x) <==> ClosedIn(net.log, next.log, x) || ClosedIn(next.log, log, x))
      && ((exists k :: OpenedAt(listenSD, net, rounds, k, x)) <==>
            || (AcceptedIn(listenSD, rounds[0], x) && !ClosedIn(net.log, log, x))
            || exists k :: OpenedAt(listenSD, next, rounds[1..], k, x))
      && ((exists k :: EndedAt(listenSD, net, rounds, k)) <==>
            EndsIn(listenSD, rounds[0]) || exists k :: EndedAt(listenSD, next, rounds[1..], k))
  {
    hide Good, LegalRun, Legal, Pass, Servable, AcceptedIn, ClosedIn, EndsIn, RunNet;
    var log := RunNet(listenSD, net, rounds).log;
    ClosedInTwoParts(net.log, next.log, log, x);
    assert NetAt(listenSD, net, rounds, 0) == net;
    assert OpenedAt(listenSD, net, rounds, 0, x) <==>
           AcceptedIn(listenSD, rounds[0], x) && !ClosedIn(net.log, log, x);
    assert EndedAt(listenSD, net, rounds, 0) <==> EndsIn(listenSD, rounds[0]);
    forall k: nat
      ensures OpenedAt(listenSD, net, rounds, k, x) <==>
              if k == 0 then AcceptedIn(listenSD, rounds[0], x) && !ClosedIn(net.log, log, x)
              else OpenedAt(listenSD, next, rounds[1..], k - 1, x)
      ensures EndedAt(listenSD, net, rounds, k) <==>
              if k == 0 then EndsIn(listenSD, rounds[0])
              else EndedAt(listenSD, next, rounds[1..], k - 1)
    {
      if 0 < k {
        OneRoundOn(listenSD, net, rounds, next, k - 1, x);
      }
    }
    if k :| OpenedAt(listenSD, next, rounds[1..], k, x) {
      assert OpenedAt(listenSD, net, rounds, k + 1, x);
    }
    if k :| EndedAt(listenSD, next, rounds[1..], k) {
      assert EndedAt(listenSD, net, rounds, k + 1);
    }
  }

  /**
   After any run, open are exactly the listening socket and the descriptors that some accept
   returned and whose every later recv, if any, brought data; and the loop has ended exactly
   when a select failed, or an accept did and would not just block.
   */
  lemma OpenExactly(listenSD: nat, working: set<nat>, buffer: seq<byte>, rounds: seq<Round>, x: nat)
    requires listenSD < FD_SETSIZE && |buffer| == BUFFER_SIZE
    requires LegalRun(listenSD, Started(listenSD, working, buffer), rounds)
    ensures var start := Started(listenSD, working, buffer);
      var after := RunNet(listenSD, start, rounds);
      && (x in after.master <==> x == listenSD || exists k :: OpenedAt(listenSD, start, rounds, k, x))
      && (after.ended <==> exists k :: EndedAt(listenSD, start, rounds, k))
  {
    RunOpens(listenSD, Started(listenSD, working, buffer), rounds, x);
  }

  // ------------------------------------------------------------------- what stays behind

  /** The receive buffer before delivery `k`; `first` is what it held before the first one. */
  ghost function BufferBefore(first: seq<byte>, log: seq<Delivery>, k: nat): seq<byte>
    requires k <= |log|
  {
    if k == 0 then first else log[k - 1].bytes
  }

  /** Beyond what was received, a delivery's bytes are those already in the buffer. */
  ghost predicate KeepsRest(before: seq<byte>, d: Delivery) {
    && |d.bytes| == |before| && d.size <= |before|
    && forall j :: 0 <= j < |before| && d.size <= j ==> d.bytes[j] == before[j]
  }

  /** The log accounts for the buffer, from `first` on. */
  ghost predicate BufferByLog(first: seq<byte>, net: Net) {
    && net.buffer == BufferBefore(first, net.log, |net.log|)
    && forall k :: 0 <= k < |net.log| ==> KeepsRest(BufferBefore(first, net.log, k), net.log[k])
  }

  lemma ServeKeepsRest(listenSD: nat, net: Net, fd: nat, round: Round, first: seq<byte>)
    requires Servable(listenSD, net, round) && fd in round.ready
    requires BufferByLog(first, net)
    ensures BufferByLog(first, Serve(listenSD, net, fd, round).0)
  {
    var served := Serve(listenSD, net, fd, round).0;
    if fd != listenSD {
      assert KeepsRest(net.buffer, served.log[|net.log|]);
    }
    hide KeepsRest;
    forall k | 0 <= k < |served.log| ensures KeepsRest(BufferBefore(first, served.log, k), served.log[k]) {
      if k < |net.log| {
        assert BufferBefore(first, served.log, k) == BufferBefore(first, net.log, k);
      }
    }
  }

  lemma {:induction false} ScanKeepsRest(listenSD: nat, net: Net, fd: nat, round: Round, first: seq<byte>)
    requires Servable(listenSD, net, round) && BufferByLog(first, net)
    ensures BufferByLog(first, FullScan(listenSD, net, fd, round).0)
    decreases FD_SETSIZE - fd
  {
    hide BufferByLog;
    if fd < FD_SETSIZE {
      if fd !in round.ready {
        ScanKeepsRest(listenSD, net, fd + 1, round, first);
      } else {
        ServeKeepsRest(listenSD, net, fd, round, first);
        var (served, stop) := Serve(listenSD, net, fd, round);
        if !stop {
          ScanKeepsRest(listenSD, served, fd + 1, round, first);
        }
      }
    }
  }

  /** Over any run, each handler call finds in the buffer, behind what was received, what was there. */
  lemma {:induction false} RunKeepsRest(listenSD: nat, net: Net, rounds: seq<Round>, first: seq<byte>)
    requires Good(listenSD, net) && LegalRun(listenSD, net, rounds) && BufferByLog(first, net)
    ensures BufferByLog(first, RunNet(listenSD, net, rounds))
    decreases |rounds|
  {
    hide BufferByLog;
    if rounds != [] && !net.ended {
      var next := Pass(listenSD, net, rounds[0]);
      if rounds[0].Ready? {
        SameBuffer(net, net.(working := rounds[0].ready), first);
        ScanKeepsRest(listenSD, net.(working := rounds[0].ready), 0, rounds[0], first);
      } else {
        SameBuffer(net, next, first);
      }
      RoundByRound(listenSD, net, rounds, next);
      RunKeepsRest(listenSD, next, rounds[1..], first);
    }
  }

  lemma SameBuffer(net: Net, other: Net, first: seq<byte>)
    requires BufferByLog(first, net) && other.buffer == net.buffer && other.log == net.log
    ensures BufferByLog(first, other)
  {
  }

  /** With one descriptor ready, a pass is that one service. */
  lemma {:induction false} ScanOne(listenSD: nat, net: Net, fd: nat, round: Round, only: nat)
    requires Servable(listenSD, net, round)
    requires round.ready == {only} && fd <= only < FD_SETSIZE
    ensures FullScan(listenSD, net, fd, round).0 == Serve(listenSD, net, only, round).0
    decreases FD_SETSIZE - fd
  {
    if fd < only {
      ScanOne(listenSD, net, fd + 1, round, only);
    } else {
      var (served, stop) := Serve(listenSD, net, only, round);
      if !stop {
        NothingRemains(listenSD, served, fd + 1, round);
      }
    }
  }

  // ---------------------------------------------------------------------- round by round

  /** A run goes on as the run after its first round. */
  lemma RoundByRound(listenSD: nat, net: Net, rounds: seq<Round>, next: Net)
    requires Good(listenSD, net) && !net.ended && rounds != []
    requires Legal(listenSD, net, rounds[0]) && next == Pass(listenSD, net, rounds[0])
    ensures Good(listenSD, next)
    ensures LegalRun(listenSD, net, rounds) <==> LegalRun(listenSD, next, rounds[1..])
    ensures LegalRun(listenSD, next, rounds[1..]) ==>
              RunNet(listenSD, net, rounds) == RunNet(listenSD, next, rounds[1..])
  {
    PassKeepsGood(listenSD, net, rounds[0]);
  }

  lemma Over(listenSD: nat, net: Net, rounds: seq<Round>)
    requires Good(listenSD, net) && rounds == []
    ensures LegalRun(listenSD, net, rounds) && RunNet(listenSD, net, rounds) == net
  {
  }

  // -------------------------------------------------------------------- who is watched

  ghost predicate AllLow(fds: set<nat>) {
    forall fd :: fd in fds ==> fd < COPIED
  }

  /** Which bits are copied: the low 64 come from the master set, the others are left as they were. */
  lemma WatchedBit(working: set<nat>, master: set<nat>, fd: nat)
    ensures fd in Watched(working, master) <==> if fd < 64 then fd in master else fd in working
  {
  }

  /** The copy before select is the master set exactly when the two agree beyond the copied part. */
  lemma WatchedIsMaster(working: set<nat>, master: set<nat>)
    ensures Watched(working, master) == master <==>
            (forall fd :: fd >= COPIED ==> (fd in working <==> fd in master))
  {
    if Watched(working, master) == master {
      forall fd | fd >= COPIED ensures fd in working <==> fd in master {
        assert fd in Watched(working, master) <==> fd in working;
      }
    }
  }

  /** From a zeroed working set, every open descriptor is watched exactly while all are below 64. */
  lemma WatchedFromZero(working: set<nat>, master: set<nat>)
    requires AllLow(working)
    ensures Watched(working, master) == master <==> AllLow(master)
  {
    WatchedIsMaster(working, master);
  }

  lemma {:induction false} ScanSpares(listenSD: nat, net: Net, fd: nat, round: Round, client: nat)
    requires Servable(listenSD, net, round)
    requires client !in round.ready && client in net.master
    ensures client in FullScan(listenSD, net, fd, round).0.master
    decreases FD_SETSIZE - fd
  {
    if fd < FD_SETSIZE {
      if fd !in round.ready {
        ScanSpares(listenSD, net, fd + 1, round, client);
      } else {
        var (served, stop) := Serve(listenSD, net, fd, round);
        if !stop {
          ScanSpares(listenSD, served, fd + 1, round, client);
        }
      }
    }
  }

  /** `log` goes on from `before` with deliveries to descriptors below 64 or in `bits` only. */
  ghost predicate OnlyLowOr(bits: set<nat>, before: seq<Delivery>, log: seq<Delivery>) {
    && |before| <= |log|
    && log[..|before|] == before
    && (forall k :: |before| <= k < |log| ==> log[k].fd < COPIED || log[k].fd in bits)
  }

  /** The descriptors from 64 up whose bit was not in the working set to begin with stay open. */
  ghost predicate UnwatchedStay(bits: set<nat>, master: set<nat>, after: set<nat>) {
    forall fd :: fd in master && COPIED <= fd && fd !in bits ==> fd in after
  }

  /**
   Over every run, whatever bits the uninitialised working set holds: a client on descriptor 64 or
   above whose bit is not among them, once accepted, stays open, and nothing it sends ever reaches
   the handler. No pass ever sets such a bit, because the copy does not reach it and select only
   clears bits; that is also so where the system leaves the words beyond the highest descriptor
   asked for as they were, which the model, clearing them, does not show.
   */
  lemma {:induction false} HighClientsStarve(listenSD: nat, net: Net, rounds: seq<Round>)
    requires Good(listenSD, net) && LegalRun(listenSD, net, rounds)
    ensures var after := RunNet(listenSD, net, rounds);
      && OnlyLowOr(net.working, net.log, after.log)
      && UnwatchedStay(net.working, net.master, after.master)
    decreases |rounds|
  {
    if rounds != [] && !net.ended {
      var round := rounds[0];
      PassKeepsGood(listenSD, net, round);
      var next := Pass(listenSD, net, round);
      PassStarves(listenSD, net, round);
      HighClientsStarve(listenSD, next, rounds[1..]);
      StarveOn(net, next, RunNet(listenSD, next, rounds[1..]));
    }
  }

  lemma StarveOn(net: Net, next: Net, after: Net)
    requires forall fd :: fd in next.working && COPIED <= fd ==> fd in net.working
    requires OnlyLowOr(net.working, net.log, next.log) && OnlyLowOr(next.working, next.log, after.log)
    requires UnwatchedStay(net.working, net.master, next.master)
    requires UnwatchedStay(next.working, next.master, after.master)
    ensures OnlyLowOr(net.working, net.log, after.log)
    ensures UnwatchedStay(net.working, net.master, after.master)
  {
    assert after.log[..|net.log|] == after.log[..|next.log|][..|net.log|];
    forall k | |net.log| <= k < |after.log|
      ensures after.log[k].fd < COPIED || after.log[k].fd in net.working
    {
      if k < |next.log| {
        assert after.log[k] == after.log[..|next.log|][k];
      }
    }
  }

  lemma PassStarves(listenSD: nat, net: Net, round: Round)
    requires Good(listenSD, net) && Legal(listenSD, net, round)
    ensures var after := Pass(listenSD, net, round);
      && (forall fd :: fd in after.working && COPIED <= fd ==> fd in net.working)
      && OnlyLowOr(net.working, net.log, after.log)
      && UnwatchedStay(net.working, net.master, after.master)
  {
    if round.Ready? {
      var start := net.(working := round.ready);
      var after := Pass(listenSD, net, round);
      PassKeepsGood(listenSD, net, round);
      ScanServes(listenSD, start, 0, round);
      forall k | |net.log| <= k < |after.log|
        ensures after.log[k].fd < COPIED || after.log[k].fd in net.working
      {
        assert DeliveredTo(net.log, after.log, after.log[k].fd);
      }
      forall fd | fd in net.master && COPIED <= fd && fd !in net.working ensures fd in after.master {
        ScanSpares(listenSD, start, 0, round, fd);
      }
    }
  }

  lemma {:induction false} StaysLow(listenSD: nat, net: Net, rounds: seq<Round>)
    requires Good(listenSD, net) && LegalRun(listenSD, net, rounds)
    requires AllLow(net.working)
    ensures AllLow(RunNet(listenSD, net, rounds).working)
    decreases |rounds|
  {
    if rounds != [] && !net.ended {
      PassKeepsGood(listenSD, net, rounds[0]);
      PassStarves(listenSD, net, rounds[0]);
      StaysLow(listenSD, Pass(listenSD, net, rounds[0]), rounds[1..]);
    }
  }

  /**
   After every run from a zeroed working set, the next select watches every open descriptor
   exactly when all of them are below 64.
   */
  lemma AllWatchedExactly(listenSD: nat, buffer: seq<byte>, rounds: seq<Round>)
    requires listenSD < FD_SETSIZE && |buffer| == BUFFER_SIZE
    requires LegalRun(listenSD, Started(listenSD, {}, buffer), rounds)
    ensures var net := RunNet(listenSD, Started(listenSD, {}, buffer), rounds);
      Watched(net.working, net.master) == net.master <==> AllLow(net.master)
  {
    StaysLow(listenSD, Started(listenSD, {}, buffer), rounds);
    var net := RunNet(listenSD, Started(listenSD, {}, buffer), rounds);
    WatchedFromZero(net.working, net.master);
  }

  /** Whatever comes before, accepting one client from 64 up is enough, and for good. */
  lemma NeverAllWatchedAgain(listenSD: nat, net: Net, rounds: seq<Round>, client: nat)
    requires Good(listenSD, net) && LegalRun(listenSD, net, rounds)
    requires AllLow(net.working) && client in net.master && COPIED <= client
    ensures var after := RunNet(listenSD, net, rounds);
      client in after.master && client !in Watched(after.working, after.master)
  {
    HighClientsStarve(listenSD, net, rounds);
    StaysLow(listenSD, net, rounds);
  }

  /** A run of the loop that accepts a client no later select watches. */
  lemma UnwatchedClientAccepted(buffer: seq<byte>)
    requires |buffer| == BUFFER_SIZE
    ensures var start, rounds := Started(3, {}, buffer), [Ready({3}, COPIED, false, map[])];
      && LegalRun(3, start, rounds)
      && var net := RunNet(3, start, rounds);
         COPIED in net.master && COPIED !in Watched(net.working, net.master)
  {
    var start, rounds := Started(3, {}, buffer), [Ready({3}, COPIED, false, map[])];
    ScanOne(3, start.(working := {3}), 0, rounds[0], 3);
    var accepted := Pass(3, start, rounds[0]);
    assert accepted == Net({3, COPIED}, {3}, buffer, [], false);
    RoundByRound(3, start, rounds, accepted);
    Over(3, accepted, rounds[1..]);
  }

  /** In particular a working set that starts zeroed keeps every client from 64 up waiting. */
  lemma HighClientsStarveFromZero(listenSD: nat, buffer: seq<byte>, rounds: seq<Round>)
    requires listenSD < FD_SETSIZE && |buffer| == BUFFER_SIZE
    requires LegalRun(listenSD, Started(listenSD, {}, buffer), rounds)
    ensures forall k :: 0 <= k < |RunNet(listenSD, Started(listenSD, {}, buffer), rounds).log| ==>
        RunNet(listenSD, Started(listenSD, {}, buffer), rounds).log[k].fd < COPIED
  {
    HighClientsStarve(listenSD, Started(listenSD, {}, buffer), rounds);
  }

  // ------------------------------------------------------------------ the loop in place

  /** The descriptors of `ready` a scan has not reached yet. */
  ghost function Remaining(ready: set<nat>, fd: nat): set<nat> {
    set x | x in ready && fd <= x
  }

  lemma RemainingStep(ready: set<nat>, fd: nat)
    ensures |Remaining(ready, fd)| == |Remaining(ready, fd + 1)| + if fd in ready then 1 else 0
  {
    if fd in ready {
      assert Remaining(ready, fd) == Remaining(ready, fd + 1) + {fd};
    } else {
      assert Remaining(ready, fd) == Remaining(ready, fd + 1);
    }
  }

  /** With nothing left to reach, the plain scan changes nothing. */
  lemma {:induction false} NothingRemains(listenSD: nat, net: Net, fd: nat, round: Round)
    requires Servable(listenSD, net, round)
    requires Remaining(round.ready, fd) == {}
    ensures FullScan(listenSD, net, fd, round) == (net, FD_SETSIZE)
    decreases FD_SETSIZE - fd
  {
    if fd < FD_SETSIZE {
      assert fd in round.ready <==> fd in Remaining(round.ready, fd);
      RemainingStep(round.ready, fd);
      NothingRemains(listenSD, net, fd + 1, round);
    }
  }

  ghost predicate IsMax(m: nat, s: set<nat>) {
    m in s && forall x :: x in s ==> x <= m
  }

  /** The search for the new highest descriptor, downwards from the one just closed. */
  method HighestBelow(from: nat, masterSet: set<nat>) returns (maxSD: nat)
    requires masterSet != {}
    requires forall fd :: fd in masterSet ==> fd <= from
    ensures IsMax(maxSD, masterSet)
  {
    maxSD := from;
    while maxSD !in masterSet
      invariant forall fd :: fd in masterSet ==> fd <= maxSD
      decreases maxSD
    {
      var fd :| fd in masterSet;
      assert 0 < maxSD;
      maxSD := maxSD - 1;
    }
  }

  /** recv: the bytes received overwrite the front of the buffer. */
  method Receive(buffer: array<byte>, data: seq<byte>)
    requires |data| <= buffer.Length
    modifies buffer
    ensures buffer[..] == Overwritten(old(buffer[..]), data)
  {
    forall j | 0 <= j < |data| {
      buffer[j] := data[j];
    }
  }

  /** The counters agree with the set: the highest descriptor, and the clients besides the listener. */
  ghost predicate Booked(listenSD: nat, masterSet: set<nat>, maxSD: nat, clientCounter: int) {
    listenSD in masterSet && IsMax(maxSD, masterSet) && clientCounter == |masterSet| - 1
  }

  /** A client that is not listening: receive, call the handler, and close if nothing came. */
  method ServeClient(listenSD: nat, i: nat, round: Round, masterSet: set<nat>, maxSD: nat,
                     clientCounter: int, buffer: array<byte>, ghost net: Net)
    returns (masterLeft: set<nat>, maxLeft: nat, clientsLeft: int, delivered: Delivery, closed: bool)
    requires buffer.Length == BUFFER_SIZE && Servable(listenSD, net, round)
    requires i in round.ready && i != listenSD && i in masterSet
    requires net.master == masterSet && net.buffer == buffer[..]
    requires Booked(listenSD, masterSet, maxSD, clientCounter)
    modifies buffer
    ensures Booked(listenSD, masterLeft, maxLeft, clientsLeft)
    ensures !closed ==> masterLeft == masterSet && maxLeft == maxSD
    ensures Serve(listenSD, net, i, round) ==
            (net.(master := masterLeft, buffer := buffer[..], log := net.log + [delivered]), closed)
  {
    masterLeft, maxLeft, clientsLeft := masterSet, maxSD, clientCounter;
    closed := false;
    var rc := Size(round.received[i]);
    if round.received[i].Bytes? {
      Receive(buffer, round.received[i].data);
    }
    if rc <= 0 {
      closed := true;
    }
    delivered := Delivery(i, buffer[..], rc);
    if closed {
      masterLeft := masterLeft - {i};
      clientsLeft := clientsLeft - 1;
      assert listenSD in masterLeft;
      if i == maxLeft {
        maxLeft := HighestBelow(maxLeft, masterLeft);
      }
    }
  }

  /**
   Copies the master set, as far as the copy goes, and waits. The result is the number of ready
   descriptors left in the working set, or -1 for an error or a timeout.
   */
  method SelectOperation(workingSet: set<nat>, masterSet: set<nat>, ghost listenSD: nat, ghost net: Net,
                         round: Round)
    returns (rc: int, working: set<nat>)
    requires net.working == workingSet && net.master == masterSet && Legal(listenSD, net, round)
    ensures rc == -1 <==> round.SelectFails?
    ensures rc != -1 ==> rc == |round.ready| > 0 && working == round.ready
    ensures rc != -1 ==> forall fd :: fd in working ==>
        fd in masterSet && (fd >= COPIED ==> fd in workingSet)
  {
    working := Watched(workingSet, masterSet);
    if round.SelectFails? {
      return -1, working;
    }
    working := working * round.ready;
    rc := |working|;
    assert working == round.ready;
  }

  /**
   The scan with a countdown, bounded by the highest descriptor, which an accept may raise on the
   way: it does what the plain scan of every descriptor does.
   */
  method ScanReady(listenSD: nat, rc: int, workingSet: set<nat>, round: Round, masterSet: set<nat>,
                   maxSD: nat, clientCounter: int, buffer: array<byte>, log: seq<Delivery>, ghost net: Net)
    returns (master: set<nat>, highest: nat, clients: int, logged: seq<Delivery>, endServer: bool)
    requires round.Ready? && workingSet == round.ready && rc == |workingSet|
    requires buffer.Length == BUFFER_SIZE
    requires net.master == masterSet && net.buffer == buffer[..] && net.log == log && !net.ended
    requires Good(listenSD, net) && Legal(listenSD, net, round)
    requires Booked(listenSD, masterSet, maxSD, clientCounter)
    modifies buffer
    ensures Booked(listenSD, master, highest, clients)
    ensures Pass(listenSD, net, round) == Net(master, round.ready, buffer[..], logged, endServer)
  {
    ghost var cur := net.(working := round.ready);
    master, highest, clients, logged, endServer := masterSet, maxSD, clientCounter, log, false;
    var descReady := rc;
    assert Remaining(round.ready, 0) == round.ready;
    var i := 0;
    while i <= highest && descReady > 0
      invariant 0 <= i <= FD_SETSIZE && maxSD <= highest < FD_SETSIZE
      invariant cur == Net(master, round.ready, buffer[..], logged, false)
      invariant Servable(listenSD, cur, round)
      invariant FullScan(listenSD, cur, i, round) == FullScan(listenSD, net.(working := round.ready), 0, round)
      invariant descReady == |Remaining(round.ready, i)|
      invariant Booked(listenSD, master, highest, clients)
      invariant masterSet <= master && (i <= listenSD ==> master == masterSet)
      decreases FD_SETSIZE - i
    {
      RemainingStep(round.ready, i);
      if i in workingSet {
        descReady := descReady - 1;
        if i == listenSD {
          if round.newSD < 0 {
            endServer := !round.wouldBlock;
            return;
          }
          master := master + {round.newSD};
          clients := clients + 1;
          if round.newSD > highest {
            highest := round.newSD;
          }
          cur := cur.(master := master);
        } else {
          var delivered, closed;
          master, highest, clients, delivered, closed :=
            ServeClient(listenSD, i, round, master, highest, clients, buffer, cur);
          logged := logged + [delivered];
          cur := Net(master, round.ready, buffer[..], logged, false);
          if closed {
            return;
          }
        }
      }
      i := i + 1;
    }
    assert Remaining(round.ready, i) == {};
    NothingRemains(listenSD, cur, i, round);
  }

  /**
   The whole loop, run against what the system does. At the end every descriptor that is still
   open is closed.
   */
  method RunServer(listenSD: nat, rounds: seq<Round>, uninitialised: set<nat>, buffer: array<byte>)
    returns (masterSet: set<nat>, maxSD: nat, clientCounter: int, log: seq<Delivery>, closed: set<nat>)
    requires listenSD < FD_SETSIZE && buffer.Length == BUFFER_SIZE
    requires LegalRun(listenSD, Started(listenSD, uninitialised, buffer[..]), rounds)
    modifies buffer
    ensures Booked(listenSD, masterSet, maxSD, clientCounter)
    ensures var after := RunNet(listenSD, old(Started(listenSD, uninitialised, buffer[..])), rounds);
      masterSet == after.master && log == after.log && buffer[..] == after.buffer
    ensures closed == masterSet
  {
    ghost var start := Started(listenSD, uninitialised, buffer[..]);
    ghost var net := start;
    masterSet, maxSD, clientCounter, log := {listenSD}, listenSD, 0, [];
    var endServer := false;
    var workingSet := uninitialised;
    var k := 0;
    while !endServer && k < |rounds|
      invariant 0 <= k <= |rounds|
      invariant net == Net(masterSet, workingSet, buffer[..], log, endServer)
      invariant Good(listenSD, net) && LegalRun(listenSD, net, rounds[k..])
      invariant RunNet(listenSD, net, rounds[k..]) == RunNet(listenSD, start, rounds)
      invariant Booked(listenSD, masterSet, maxSD, clientCounter)
    {
      var round := rounds[k];
      assert rounds[k..][0] == round && rounds[k..][1..] == rounds[k + 1..];
      PassKeepsGood(listenSD, net, round);
      ghost var next := Pass(listenSD, net, round);
      var rc, working := SelectOperation(workingSet, masterSet, listenSD, net, round);
      if rc < 0 {
        endServer := true;
      } else {
        masterSet, maxSD, clientCounter, log, endServer :=
          ScanReady(listenSD, rc, working, round, masterSet, maxSD, clientCounter, buffer, log, net);
        workingSet := working;
      }
      net := next;
      k := k + 1;
    }
    closed := CloseAll(masterSet, maxSD);
  }

  method CloseAll(masterSet: set<nat>, maxSD: nat) returns (closed: set<nat>)
    requires IsMax(maxSD, masterSet)
    ensures closed == masterSet
  {
    closed := {};
    var i := 0;
    while i <= maxSD
      invariant 0 <= i <= maxSD + 1
      invariant forall fd :: fd in closed <==> fd in masterSet && fd < i
    {
      if i in masterSet {
        closed := closed + {i};
      }
      i := i + 1;
    }
  }
}
