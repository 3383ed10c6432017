/** Packet acceptance (deserialize_pkt): the decoded row is always written;
    only a packet from a live neighbor triggers Bellman-Ford, counts as
    received and clears its sender's skip count. */
module Receiver {
  import opened Types
  import opened Routing
  import opened Codec
  import opened Liveness
  import opened Commands

  /** The packet's sender is alive and a neighbor. process_pkt does not touch
      the table, so the flags read before and after the row write agree. */
  predicate Accepted(s: State, b: seq<byte>)
    requires Processable(s, b)
  {
    var sender := s.servers[SenderOf(s, b) - 1];
    sender.isAlive && sender.isNeighbor
  }

  /** deserialize_pkt. Whatever the sender, its row is written and the
      addresses and liveness flags of the table stay as they were; the
      counter counts the packet only when it is accepted. */
  function Receive(s: State, b: seq<byte>): (r: State)
    requires Processable(s, b)
    ensures Valid(r) && |r.servers| == |s.servers| && r.myId == s.myId
    ensures r.pktsReceived == s.pktsReceived + (if Accepted(s, b) then 1 else 0)
    ensures !Accepted(s, b) ==> r == ProcessPkt(s, b)
    ensures forall j | 0 <= j < |s.servers| ::
      && r.servers[j].id == s.servers[j].id && r.servers[j].ip == s.servers[j].ip
      && r.servers[j].isNeighbor == s.servers[j].isNeighbor && r.servers[j].isAlive == s.servers[j].isAlive
  {
    var t := ProcessPkt(s, b);
    var id := SenderOf(s, b);
    if t.servers[id - 1].isAlive && t.servers[id - 1].isNeighbor then Accept(t, id) else t
  }

  /** The accepting branch: recompute, count the packet, clear the sender's
      skip count. Addresses and liveness flags are kept. */
  function Accept(t: State, id: int): (r: State)
    requires Valid(t) && 1 <= id <= |t.servers|
    ensures Valid(r) && |r.servers| == |t.servers| && r.myId == t.myId
    ensures r.pktsReceived == t.pktsReceived + 1
    ensures forall j | 0 <= j < |t.servers| ::
      && r.servers[j].id == t.servers[j].id && r.servers[j].ip == t.servers[j].ip
      && r.servers[j].isNeighbor == t.servers[j].isNeighbor && r.servers[j].isAlive == t.servers[j].isAlive
  {
    var u := BellmanFord(t);
    ResetSkipFlag(u.(pktsReceived := u.pktsReceived + 1), id)
  }

  /** An accepted packet: the table and matrix are what Bellman-Ford computes
      from the state with the sender's row freshly written, except that the
      sender's skip count is cleared; nobody else's count moves. */
  lemma ReceiveAccepted(s: State, b: seq<byte>)
    requires Processable(s, b) && Accepted(s, b)
    ensures var u := BellmanFord(ProcessPkt(s, b));
      var r := Receive(s, b);
      && r.matrix == u.matrix
      && (forall j | 0 <= j < |s.servers| :: r.servers[j] == u.servers[j].(skips := r.servers[j].skips))
      && r.servers[SenderOf(s, b) - 1].skips == 0
      && (forall j | 0 <= j < |s.servers| && j != SenderOf(s, b) - 1 :: r.servers[j].skips == s.servers[j].skips)
  {
    var t := ProcessPkt(s, b);
    var u := BellmanFord(t);
    assert forall j | 0 <= j < |s.servers| :: SameButRoute(u.servers[j], t.servers[j]);
  }

  /** Consequences for the routes after an accepted packet: only self's row
      of the matrix differs from the row-written state, self's own entry is
      kept, and every other route's cost is the row's entry. */
  lemma ReceiveAcceptedRoutes(s: State, b: seq<byte>)
    requires Processable(s, b) && Accepted(s, b)
    ensures var r := Receive(s, b);
      && (forall i | 0 <= i < |s.servers| && i != s.myId - 1 :: r.matrix[i] == ProcessPkt(s, b).matrix[i])
      && (forall d | 0 <= d < |s.servers| && d != s.myId - 1 :: r.servers[d].cost == OwnRow(r)[d])
      && OwnRow(r)[s.myId - 1] == OwnRow(ProcessPkt(s, b))[s.myId - 1]
  {
    var t := ProcessPkt(s, b);
    var u := BellmanFord(t);
    var r := Receive(s, b);
    ReceiveAccepted(s, b);
    assert r.matrix == u.matrix;
    forall d | 0 <= d < |s.servers| && d != s.myId - 1
      ensures r.servers[d].cost == OwnRow(r)[d]
    {
      assert r.servers[d] == u.servers[d].(skips := r.servers[d].skips);
    }
  }

  // ---------------------------------------------------------------------
  // Counting accepted packets

  /** The sender lookup depends only on the servers' addresses. */
  lemma SenderIndexByIps(a: seq<Server>, c: seq<Server>, ip: u32)
    requires |a| == |c| && forall j | 0 <= j < |a| :: a[j].ip == c[j].ip
    ensures SenderIndex(a, ip) == SenderIndex(c, ip)
  {
  }

  /** Two tables with the same addresses and flags process and accept the
      same packets from the same senders. */
  lemma SameFlagsSameAcceptance(s: State, s': State, b: seq<byte>)
    requires Valid(s) && Valid(s') && |s'.servers| == |s.servers|
    requires forall j | 0 <= j < |s.servers| ::
      s'.servers[j].ip == s.servers[j].ip
      && s'.servers[j].isNeighbor == s.servers[j].isNeighbor && s'.servers[j].isAlive == s.servers[j].isAlive
    requires Processable(s, b)
    ensures Processable(s', b) && SenderOf(s', b) == SenderOf(s, b) && Accepted(s', b) == Accepted(s, b)
  {
    SenderIndexByIps(s.servers, s'.servers, Parse(b).senderIp);
  }

  predicate AllProcessable(s: State, bs: seq<seq<byte>>) {
    forall k | 0 <= k < |bs| :: Processable(s, bs[k])
  }

  /** One datagram after another, in arrival order. */
  function ReceiveAll(s: State, bs: seq<seq<byte>>): (r: State)
    requires Valid(s) && AllProcessable(s, bs)
    ensures Valid(r) && |r.servers| == |s.servers| && r.myId == s.myId
    ensures forall j | 0 <= j < |s.servers| ::
      r.servers[j].ip == s.servers[j].ip
      && r.servers[j].isNeighbor == s.servers[j].isNeighbor && r.servers[j].isAlive == s.servers[j].isAlive
    decreases |bs|
  {
    if |bs| == 0 then s
    else
      var s1 := Receive(s, bs[0]);
      assert forall k | 1 <= k < |bs| :: Processable(s, bs[k]);
      forall k | 1 <= k < |bs|
        ensures Processable(s1, bs[k])
      {
        SameFlagsSameAcceptance(s, s1, bs[k]);
      }
      ReceiveAll(s1, bs[1..])
  }

  /** How many of the datagrams come from a server that is, in `s`, alive and
      a neighbor. */
  function CountAccepted(s: State, bs: seq<seq<byte>>): nat
    requires AllProcessable(s, bs)
    decreases |bs|
  {
    if |bs| == 0 then 0
    else (if Accepted(s, bs[0]) then 1 else 0) + CountAccepted(s, bs[1..])
  }

  lemma {:induction false} CountAcceptedSameFlags(s: State, s': State, bs: seq<seq<byte>>)
    requires Valid(s) && Valid(s') && |s'.servers| == |s.servers|
    requires forall j | 0 <= j < |s.servers| ::
      s'.servers[j].ip == s.servers[j].ip
      && s'.servers[j].isNeighbor == s.servers[j].isNeighbor && s'.servers[j].isAlive == s.servers[j].isAlive
    requires AllProcessable(s, bs)
    ensures AllProcessable(s', bs) && CountAccepted(s', bs) == CountAccepted(s, bs)
    decreases |bs|
  {
    forall k | 0 <= k < |bs|
      ensures Processable(s', bs[k])
    {
      SameFlagsSameAcceptance(s, s', bs[k]);
    }
    if |bs| > 0 {
      SameFlagsSameAcceptance(s, s', bs[0]);
      assert AllProcessable(s, bs[1..]);
      CountAcceptedSameFlags(s, s', bs[1..]);
    }
  }

  /** The counter grows by one per datagram from a live neighbor and by
      nothing for any other datagram. */
  lemma {:induction false} ReceiveAllCounts(s: State, bs: seq<seq<byte>>)
    requires Valid(s) && AllProcessable(s, bs)
    ensures ReceiveAll(s, bs).pktsReceived == s.pktsReceived + CountAccepted(s, bs)
    decreases |bs|
  {
    if |bs| > 0 {
      var s1 := Receive(s, bs[0]);
      assert AllProcessable(s, bs[1..]);
      CountAcceptedSameFlags(s, s1, bs[1..]);
      ReceiveAllCounts(s1, bs[1..]);
    }
  }

  /** `packets` reports exactly the datagrams accepted since the previous
      `packets`. */
  lemma PacketsReportsAccepted(s: State, bs: seq<seq<byte>>)
    requires Valid(s) && AllProcessable(s, bs)
    ensures var s0 := Packets(s).1;
      AllProcessable(s0, bs) && Packets(ReceiveAll(s0, bs)).0 == CountAccepted(s, bs)
  {
    var s0 := Packets(s).1;
    CountAcceptedSameFlags(s, s0, bs);
    ReceiveAllCounts(s0, bs);
  }

  /** A live neighbor heard from is safe from the next two ticks. */
  lemma HeardNeighborSurvivesTicks(s: State, b: seq<byte>)
    requires Processable(s, b) && Accepted(s, b)
    ensures var k := SenderOf(s, b) - 1;
      var t2 := Tick(Tick(Receive(s, b)));
      t2.servers[k].isNeighbor && t2.servers[k].isAlive
  {
    var k := SenderOf(s, b) - 1;
    var r := Receive(s, b);
    SilentNeighborDemotedOnThirdTick(r, k);
  }
}
