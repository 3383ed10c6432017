/** Neighbor liveness: the skip counter a received packet clears, and the
    periodic timeout that counts silent intervals and demotes a neighbor at
    the third one. The timeout path does not recompute routes. */
module Liveness {
  import opened Types

  /** reset_skip_flag: the sender's silent-interval count goes back to 0. */
  function ResetSkipFlag(s: State, id: int): (r: State)
    requires Valid(s) && 1 <= id <= |s.servers|
    ensures Valid(r) && r.matrix == s.matrix && r.myId == s.myId && r.pktsReceived == s.pktsReceived
    ensures |r.servers| == |s.servers|
    ensures r.servers[id - 1] == s.servers[id - 1].(skips := 0)
    ensures forall j | 0 <= j < |s.servers| && j != id - 1 :: r.servers[j] == s.servers[j]
  {
    s.(servers := s.servers[id - 1 := s.servers[id - 1].(skips := 0)])
  }

  /** The skip limit: a neighbor silent for this many intervals is dead. */
  const MAX_SKIPS: nat := 3

  /** First loop of the timeout branch: every neighbor misses one more interval. */
  function Bump(sv: Server): Server {
    if sv.isNeighbor then sv.(skips := sv.skips + 1) else sv
  }

  function BumpSkips(s: State): (r: State)
    requires Valid(s)
    ensures Valid(r) && r.matrix == s.matrix && r.myId == s.myId && r.pktsReceived == s.pktsReceived
    ensures |r.servers| == |s.servers|
    ensures forall j | 0 <= j < |s.servers| :: r.servers[j] == Bump(s.servers[j])
  {
    s.(servers := seq(|s.servers|, j requires 0 <= j < |s.servers| => Bump(s.servers[j])))
  }

  /** A demoted neighbor: dead, no longer a neighbor, unreachable. */
  function Demoted(sv: Server): Server {
    sv.(isAlive := false, isNeighbor := false, cost := INF, nextHop := NO_HOP)
  }

  /** The inner loop of a demotion: every route whose next hop is `id` is
      made unreachable. */
  function ClearVia(servers: seq<Server>, id: int): (r: seq<Server>)
    ensures |r| == |servers|
    ensures forall j | 0 <= j < |servers| ::
      r[j] == if servers[j].nextHop == id then Unreachable(servers[j]) else servers[j]
  {
    seq(|servers|, j requires 0 <= j < |servers| =>
      if servers[j].nextHop == id then Unreachable(servers[j]) else servers[j])
  }

  /** One iteration of the second loop: server i is demoted when it is a
      neighbor whose count is exactly the limit. */
  function Demote(s: State, i: nat): (r: State)
    requires Valid(s) && i < |s.servers|
    ensures Valid(r) && |r.servers| == |s.servers| && r.myId == s.myId && r.pktsReceived == s.pktsReceived
  {
    var sv := s.servers[i];
    if sv.isNeighbor && sv.skips == MAX_SKIPS then
      var m := SetCell(SetCell(s.matrix, s.myId - 1, sv.id as int - 1, INF), sv.id as int - 1, s.myId - 1, INF);
      s.(servers := ClearVia(s.servers[i := Demoted(sv)], sv.id as int), matrix := m)
    else
      s
  }

  function DemoteFrom(s: State, i: nat): (r: State)
    requires Valid(s) && i <= |s.servers|
    ensures Valid(r) && |r.servers| == |s.servers| && r.myId == s.myId && r.pktsReceived == s.pktsReceived
    decreases |s.servers| - i
  {
    if i == |s.servers| then s else DemoteFrom(Demote(s, i), i + 1)
  }

  /** The timeout branch of the event loop, without the broadcast that ends it. */
  function Tick(s: State): (r: State)
    requires Valid(s)
    ensures Valid(r) && |r.servers| == |s.servers| && r.myId == s.myId && r.pktsReceived == s.pktsReceived
  {
    DemoteFrom(BumpSkips(s), 0)
  }

  // ---------------------------------------------------------------------
  // Reference definition: which servers a tick demotes and which routes it
  // clears depend only on the state before the tick.

  /** Server i is a neighbor that reaches the limit with this tick. */
  predicate Expired(s: State, i: nat)
    requires Valid(s) && i < |s.servers|
  {
    s.servers[i].isNeighbor && s.servers[i].skips + 1 == MAX_SKIPS
  }

  /** Server j after a tick whose demotions have reached index `upto`. */
  function TickedServer(s: State, upto: nat, j: nat): Server
    requires Valid(s) && j < |s.servers|
  {
    var sv := Bump(s.servers[j]);
    var nh := s.servers[j].nextHop;
    if j < upto && Expired(s, j) then Demoted(sv)
    else if 1 <= nh <= upto && nh <= |s.servers| && Expired(s, nh - 1) then Unreachable(sv)
    else sv
  }

  /** Cell (r, c) after a tick whose demotions have reached index `upto`:
      the two cells between self and each demoted neighbor are INF. */
  function TickedCell(s: State, upto: nat, r: nat, c: nat): u16
    requires Valid(s) && r < |s.servers| && c < |s.servers|
  {
    if (r == s.myId - 1 && c < upto && Expired(s, c)) || (c == s.myId - 1 && r < upto && Expired(s, r)) then INF
    else s.matrix[r][c]
  }

  predicate TickedUpTo(s: State, t: State, upto: nat)
    requires Valid(s)
  {
    && Valid(t) && |t.servers| == |s.servers| && t.myId == s.myId && t.pktsReceived == s.pktsReceived
    && (forall j | 0 <= j < |s.servers| :: t.servers[j] == TickedServer(s, upto, j))
    && (forall r, c | 0 <= r < |s.servers| && 0 <= c < |s.servers| :: t.matrix[r][c] == TickedCell(s, upto, r, c))
  }

  lemma DemoteStep(s: State, t: State, i: nat)
    requires Valid(s) && i < |s.servers| && TickedUpTo(s, t, i)
    ensures TickedUpTo(s, Demote(t, i), i + 1)
  {
    var n := |s.servers|;
    assert t.servers[i] == TickedServer(s, i, i);
    assert t.servers[i].id as int == i + 1;
    var d := Demote(t, i);
    if Expired(s, i) {
      assert t.servers[i].isNeighbor && t.servers[i].skips == MAX_SKIPS;
      forall j | 0 <= j < n
        ensures d.servers[j] == TickedServer(s, i + 1, j)
      {
        assert t.servers[j] == TickedServer(s, i, j);
      }
      forall r, c | 0 <= r < n && 0 <= c < n
        ensures d.matrix[r][c] == TickedCell(s, i + 1, r, c)
      {
        assert t.matrix[r][c] == TickedCell(s, i, r, c);
      }
    } else {
      assert !(t.servers[i].isNeighbor && t.servers[i].skips == MAX_SKIPS);
      forall j | 0 <= j < n
        ensures d.servers[j] == TickedServer(s, i + 1, j)
      {
        assert t.servers[j] == TickedServer(s, i, j);
      }
      forall r, c | 0 <= r < n && 0 <= c < n
        ensures d.matrix[r][c] == TickedCell(s, i + 1, r, c)
      {
        assert t.matrix[r][c] == TickedCell(s, i, r, c);
      }
    }
  }

  lemma {:induction false} DemoteFromSpec(s: State, t: State, i: nat)
    requires Valid(s) && i <= |s.servers| && TickedUpTo(s, t, i)
    ensures TickedUpTo(s, DemoteFrom(t, i), |s.servers|)
    decreases |s.servers| - i
  {
    if i < |s.servers| {
      DemoteStep(s, t, i);
      DemoteFromSpec(s, Demote(t, i), i + 1);
    }
  }

  /** The tick, server by server and cell by cell: every neighbor's count goes
      up by one; a neighbor reaching 3 is demoted (dead, not a neighbor, INF,
      no next hop) and the cells between it and self become INF; every other
      route through a demoted server becomes unreachable; nothing else
      changes, in particular no route is recomputed. */
  lemma TickSpec(s: State)
    requires Valid(s)
    ensures forall j | 0 <= j < |s.servers| :: Tick(s).servers[j] == TickedServer(s, |s.servers|, j)
    ensures forall r, c | 0 <= r < |s.servers| && 0 <= c < |s.servers| ::
      Tick(s).matrix[r][c] == TickedCell(s, |s.servers|, r, c)
  {
    var b := BumpSkips(s);
    assert TickedUpTo(s, b, 0);
    DemoteFromSpec(s, b, 0);
  }

  /** After a tick no route runs through a server the tick demoted. */
  lemma TickClearsRoutesViaDemoted(s: State, k: nat)
    requires Valid(s) && k < |s.servers| && Expired(s, k)
    ensures forall j | 0 <= j < |s.servers| :: Tick(s).servers[j].nextHop != k + 1
    ensures !Tick(s).servers[k].isNeighbor && !Tick(s).servers[k].isAlive && Tick(s).servers[k].cost == INF
    ensures OwnRow(Tick(s))[k] == INF && Tick(s).matrix[k][s.myId - 1] == INF
  {
    TickSpec(s);
    forall j | 0 <= j < |s.servers|
      ensures Tick(s).servers[j].nextHop != k + 1
    {
      assert Tick(s).servers[j] == TickedServer(s, |s.servers|, j);
    }
  }

  /** A server that is not a neighbor and does not route through a demoted
      server comes out of a tick exactly as it went in. */
  lemma TickKeepsNonNeighbors(s: State, j: nat)
    requires Valid(s) && j < |s.servers| && !s.servers[j].isNeighbor
    requires var nh := s.servers[j].nextHop; !(1 <= nh <= |s.servers| && Expired(s, nh - 1))
    ensures Tick(s).servers[j] == s.servers[j]
  {
    TickSpec(s);
  }

  /** A neighbor whose count was just cleared survives two silent intervals
      and is demoted by the third. */
  lemma SilentNeighborDemotedOnThirdTick(s: State, k: nat)
    requires Valid(s) && k < |s.servers| && s.servers[k].isNeighbor && s.servers[k].skips == 0
    ensures var t1 := Tick(s); t1.servers[k].isNeighbor && t1.servers[k].skips == 1
    ensures var t2 := Tick(Tick(s)); t2.servers[k].isNeighbor && t2.servers[k].isAlive == s.servers[k].isAlive
    ensures var t3 := Tick(Tick(Tick(s)));
      !t3.servers[k].isNeighbor && !t3.servers[k].isAlive && t3.servers[k].cost == INF && t3.servers[k].nextHop == NO_HOP
  {
    var t1 := Tick(s);
    TickSpec(s);
    assert t1.servers[k] == TickedServer(s, |s.servers|, k);
    var t2 := Tick(t1);
    TickSpec(t1);
    assert t2.servers[k] == TickedServer(t1, |s.servers|, k);
    assert t2.servers[k].skips == 2;
    TickSpec(t2);
    assert Expired(t2, k);
  }
}
