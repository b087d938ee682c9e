/**
 The select loop and the handler together: what the loop delivers is what the clients sent, the
 handler can take all of it, and the run of the one is a run of the other.
 */
module Service {
  import opened CStrings
  import opened Chat
  import opened ServerNet
  import H = Handler
  import T = Transcript
  import W = Wire

  /** The packets of a log, as the handler takes them. */
  function Packets(log: seq<Delivery>): (packets: seq<seq<byte>>)
    ensures |packets| == |log|
    ensures forall i :: 0 <= i < |log| ==> packets[i] == log[i].bytes
  {
    seq(|log|, i requires 0 <= i < |log| => log[i].bytes)
  }

  /** The handler can take every packet delivered. */
  ghost predicate Handled(log: seq<Delivery>) {
    H.AllAcceptable(Packets(log))
  }

  ghost function StateAfter(log: seq<Delivery>): State
    requires Handled(log)
  {
    Run(Start(), H.Requests(Packets(log)))
  }

  ghost function Asks(d: Delivery): Request
    requires H.Acceptable(d.bytes)
  {
    H.RequestOf(d.bytes)
  }

  lemma OneMore(log: seq<Delivery>, d: Delivery)
    requires Handled(log) && H.Acceptable(d.bytes)
    ensures Handled(log + [d])
    ensures StateAfter(log + [d]) == Step(StateAfter(log), Asks(d)).0
  {
    hide H.Acceptable, H.RequestOf, Step;
    var packets := Packets(log);
    assert Packets(log + [d]) == packets + [d.bytes];
    assert H.Requests(packets + [d.bytes]) == H.Requests(packets) + [Asks(d)];
    RunExtends(Start(), H.Requests(packets), Asks(d));
  }

  lemma AllButLast(log: seq<Delivery>)
    requires Handled(log) && log != []
    ensures Handled(log[..|log| - 1]) && H.Acceptable(log[|log| - 1].bytes)
    ensures StateAfter(log) == Step(StateAfter(log[..|log| - 1]), Asks(log[|log| - 1])).0
  {
    hide H.Acceptable, H.RequestOf, Step;
    var before, d := log[..|log| - 1], log[|log| - 1];
    assert Packets(log)[|log| - 1] == d.bytes;
    forall i | 0 <= i < |before| ensures H.Acceptable(Packets(before)[i]) {
      assert Packets(log)[i] == before[i].bytes;
    }
    assert log == before + [d];
    OneMore(before, d);
  }

  lemma PrefixHandled(log: seq<Delivery>, k: nat)
    requires Handled(log) && k <= |log|
    ensures Handled(log[..k])
  {
    hide H.Acceptable;
    forall i | 0 <= i < k ensures H.Acceptable(Packets(log[..k])[i]) {
      assert Packets(log)[i] == log[..k][i].bytes;
    }
  }

  lemma AcceptableAt(log: seq<Delivery>, k: nat)
    requires Handled(log) && k < |log|
    ensures H.Acceptable(log[k].bytes)
  {
    hide H.Acceptable;
    assert Packets(log)[k] == log[k].bytes;
  }

  // ------------------------------------------------------------------- what clients send

  /** Whatever a recv of the round returns begins with a packed request. */
  ghost predicate Carrying(round: Round) {
    round.Ready? ==>
      forall fd :: fd in round.received && round.received[fd].Bytes? ==> Carries(round.received[fd].data)
  }

  ghost predicate Carries(data: seq<byte>) {
    exists r :: H.CarriesOne(data, r)
  }

  /** The handler is asked the request that was received, if anything was. */
  ghost predicate AsSent(d: Delivery) {
    && H.Acceptable(d.bytes)
    && (d.size > 0 ==>
          d.size <= |d.bytes| && exists r :: H.CarriesOne(d.bytes[..d.size], r) && Asks(d) == r)
  }

  ghost predicate Serving(net: Net) {
    H.Acceptable(net.buffer) && forall k :: 0 <= k < |net.log| ==> AsSent(net.log[k])
  }

  lemma CarriedAlong(data: seq<byte>, tail: seq<byte>, r: Request)
    requires H.CarriesOne(data, r)
    ensures H.Acceptable(data + tail) && H.RequestOf(data + tail) == r
  {
    hide H.Acceptable, H.RequestOf, H.RequestMessage;
    var user: CString, rest: seq<byte> :|
      H.RequestMessage(r, user).FitsFields() && data == W.Encode(H.RequestMessage(r, user)) + rest;
    H.RequestArrives(r, user, rest + tail);
    assert data + tail == W.Encode(H.RequestMessage(r, user)) + (rest + tail);
  }

  lemma ServeServing(listenSD: nat, net: Net, fd: nat, round: Round)
    requires Servable(listenSD, net, round) && fd in round.ready
    requires Serving(net) && Carrying(round)
    ensures Serving(Serve(listenSD, net, fd, round).0)
  {
    hide H.Acceptable, H.RequestOf, H.CarriesOne;
    var served := Serve(listenSD, net, fd, round).0;
    if fd != listenSD {
      if round.received[fd].Bytes? {
        var data := round.received[fd].data;
        assert Carries(data);
        var r :| H.CarriesOne(data, r);
        CarriedAlong(data, net.buffer[|data|..], r);
        var d := served.log[|net.log|];
        assert d.bytes[..d.size] == data && H.CarriesOne(d.bytes[..d.size], r) && Asks(d) == r;
      }
      assert AsSent(served.log[|net.log|]);
    }
  }

  lemma {:induction false} ScanServing(listenSD: nat, net: Net, fd: nat, round: Round)
    requires Servable(listenSD, net, round)
    requires Serving(net) && Carrying(round)
    ensures Serving(FullScan(listenSD, net, fd, round).0)
    decreases FD_SETSIZE - fd
  {
    hide Serving, Carrying, Serve;
    if fd < FD_SETSIZE {
      if fd !in round.ready {
        ScanServing(listenSD, net, fd + 1, round);
      } else {
        var (served, stop) := Serve(listenSD, net, fd, round);
        ServeServing(listenSD, net, fd, round);
        if !stop {
          ScanServing(listenSD, served, fd + 1, round);
        }
      }
    }
  }

  /**
   Over every run of the loop in which each receive begins with a packed request, the handler can
   take every delivery, and each one for which something was received asks exactly the request
   that was received.
   */
  lemma {:induction false} RunServing(listenSD: nat, net: Net, rounds: seq<Round>)
    requires Good(listenSD, net) && LegalRun(listenSD, net, rounds)
    requires Serving(net)
    requires forall k :: 0 <= k < |rounds| ==> Carrying(rounds[k])
    ensures Serving(RunNet(listenSD, net, rounds))
    ensures Handled(RunNet(listenSD, net, rounds).log)
    decreases |rounds|
  {
    hide Carrying, H.Acceptable;
    if rounds == [] || net.ended {
      assert forall k :: 0 <= k < |net.log| ==> AsSent(net.log[k]);
    } else {
      var round := rounds[0];
      PassKeepsGood(listenSD, net, round);
      if round.Ready? {
        ScanServing(listenSD, net.(working := round.ready), 0, round);
      }
      RunServing(listenSD, Pass(listenSD, net, round), rounds[1..]);
    }
  }

  // ---------------------------------------------------------------------------- the server

  /**
   The server from its start: the loop, and the handler on what the loop delivers. The managers
   end where the chat server of module Chat does after the same requests, as far as no listing
   leaves its buffer.
   */
  method Activate(srv: H.SrvMng, listenSD: nat, rounds: seq<Round>, uninitialised: set<nat>, buffer: array<byte>)
    returns (log: seq<Delivery>, replies: seq<seq<byte>>, within: bool)
    requires srv.Valid() && srv.View() == Start() && buffer !in srv.Repr
    requires listenSD < FD_SETSIZE && buffer.Length == BUFFER_SIZE
    requires H.Acceptable(buffer[..])
    requires LegalRun(listenSD, Started(listenSD, uninitialised, buffer[..]), rounds)
    requires forall k :: 0 <= k < |rounds| ==> Carrying(rounds[k])
    modifies buffer, srv.Repr
    ensures log == RunNet(listenSD, old(Started(listenSD, uninitialised, buffer[..])), rounds).log
    ensures Handled(log)
    ensures within <==> H.ListingsFit(Start(), H.Requests(Packets(log)))
    ensures within ==> srv.Valid() && srv.View() == StateAfter(log)
    ensures within ==> |replies| == |log|
    ensures |replies| <= |log|
    ensures H.AllAnswered(Start(), H.Requests(Packets(log))[..|replies|], replies)
    ensures T.AllSent(H.Requests(Packets(log)), replies)
  {
    hide H.SrvMng.Valid, H.SrvMng.View, H.SrvMng.Shape, H.Acceptable, H.ListingsFit, H.AllAnswered, RunNet, LegalRun, T.AllSent;
    RunServing(listenSD, Started(listenSD, uninitialised, buffer[..]), rounds);
    var master, highest, clients, closed;
    master, highest, clients, log, closed := RunServer(listenSD, rounds, uninitialised, buffer);
    replies, within := srv.HandleAll(Packets(log));
    T.AllDue(H.Requests(Packets(log)), replies);
  }
}
