/** Initialisation of the routing state from an already-parsed topology
    description: the server lines become the table, the link lines are applied
    to the matrix and to the table in file order, and self gets cost 0. */
module Topology {
  import opened Types

  /** One server line of the topology file: `id ip port`. */
  datatype ServerEntry = ServerEntry(id: u16, ip: u32, port: u16)

  /** One link line of the topology file: `from to cost`. */
  datatype Link = Link(from: int, to: int, cost: u16)

  /** What loading needs: the i-th server line carries id i+1, self was
      identified, and every link names servers of the table. */
  predicate WellFormed(entries: seq<ServerEntry>, links: seq<Link>, myId: int) {
    && 0 < |entries|
    && (forall i | 0 <= i < |entries| :: entries[i].id == i + 1)
    && 1 <= myId <= |entries|
    && LinksFit(links, |entries|)
  }

  /** Every link names servers 1..n. */
  predicate LinksFit(links: seq<Link>, n: nat) {
    forall k | 0 <= k < |links| :: 1 <= links[k].from <= n && 1 <= links[k].to <= n
  }

  /** Whether link `l` writes matrix cell (r, c): a link writes both of its
      cells, [from-1][to-1] and [to-1][from-1]. */
  predicate Covers(l: Link, r: int, c: int) {
    (l.from - 1 == r && l.to - 1 == c) || (l.to - 1 == r && l.from - 1 == c)
  }

  /** The cost of the last link that writes cell (r, c), if any. */
  function LastCellCost(links: seq<Link>, r: int, c: int): (o: Option<u16>)
    ensures o.None? <==> forall k | 0 <= k < |links| :: !Covers(links[k], r, c)
    ensures o.Some? ==> exists k | 0 <= k < |links| ::
      Covers(links[k], r, c) && links[k].cost == o.value
      && forall k' | k < k' < |links| :: !Covers(links[k'], r, c)
  {
    if |links| == 0 then None
    else
      var l := links[|links| - 1];
      if Covers(l, r, c) then Some(l.cost)
      else
        var o := LastCellCost(links[..|links| - 1], r, c);
        assert forall k | 0 <= k < |links| - 1 :: links[..|links| - 1][k] == links[k];
        o
  }

  /** The cost of the last link whose `to` end is server t+1, if any. */
  function LastLinkTo(links: seq<Link>, t: int): (o: Option<u16>)
    ensures o.None? <==> forall k | 0 <= k < |links| :: links[k].to - 1 != t
    ensures o.Some? ==> exists k | 0 <= k < |links| ::
      links[k].to - 1 == t && links[k].cost == o.value
      && forall k' | k < k' < |links| :: links[k'].to - 1 != t
  {
    if |links| == 0 then None
    else
      var l := links[|links| - 1];
      if l.to - 1 == t then
        assert links[|links| - 1].to - 1 == t;
        Some(l.cost)
      else
        var front := links[..|links| - 1];
        var o := LastLinkTo(front, t);
        assert forall k | 0 <= k < |front| :: front[k] == links[k];
        assert o.Some? ==> exists k | 0 <= k < |front| ::
          front[k].to - 1 == t && front[k].cost == o.value
          && forall k' | k < k' < |front| :: front[k'].to - 1 != t;
        o
  }

  /** A server as the loader first records it: alive, not yet a neighbor,
      unreachable, no skipped intervals. */
  function InitialServer(e: ServerEntry): Server {
    Server(e.id, e.ip, e.port, INF, NO_HOP, false, true, 0)
  }

  /** 0 on the diagonal, USHRT_MAX everywhere else. */
  function InitialMatrix(n: nat): (m: Matrix)
    ensures IsSquare(m, n)
  {
    seq(n, i => seq(n, j => if i == j then 0 as u16 else INF))
  }

  /** One link line: both matrix cells get the cost, and the `to` end becomes
      a neighbor reached directly from self. */
  function ApplyLink(s: State, l: Link): (r: State)
    requires Valid(s)
    requires 1 <= l.from <= |s.servers| && 1 <= l.to <= |s.servers|
    ensures Valid(r)
  {
    var m := SetCell(SetCell(s.matrix, l.from - 1, l.to - 1, l.cost), l.to - 1, l.from - 1, l.cost);
    var t := s.servers[l.to - 1].(isNeighbor := true, nextHop := s.myId, cost := l.cost);
    s.(matrix := m, servers := s.servers[l.to - 1 := t])
  }

  /** The link lines in file order; a later line overrides an earlier one. */
  function ApplyLinks(s: State, links: seq<Link>): (r: State)
    requires Valid(s) && LinksFit(links, |s.servers|)
    ensures Valid(r) && |r.servers| == |s.servers|
    ensures r.myId == s.myId && r.pktsReceived == s.pktsReceived
    ensures forall r0, c | 0 <= r0 < |s.servers| && 0 <= c < |s.servers| ::
      r.matrix[r0][c] == match LastCellCost(links, r0, c)
                         case Some(v) => v
                         case None => s.matrix[r0][c]
    ensures forall t | 0 <= t < |s.servers| ::
      r.servers[t] == match LastLinkTo(links, t)
                      case Some(v) => s.servers[t].(isNeighbor := true, nextHop := s.myId, cost := v)
                      case None => s.servers[t]
    decreases |links|
  {
    if |links| == 0 then s
    else
      var front := links[..|links| - 1];
      assert forall k | 0 <= k < |front| :: front[k] == links[k];
      ApplyLink(ApplyLinks(s, front), links[|links| - 1])
  }

  /** The cell value the loader leaves in (r, c): the last configured link
      through it, otherwise 0 on the diagonal and USHRT_MAX elsewhere. */
  function ConfiguredCell(links: seq<Link>, r: int, c: int): u16 {
    match LastCellCost(links, r, c)
    case Some(v) => v
    case None => if r == c then 0 else INF
  }

  /** The whole load: server table, matrix set-up, links, then self's route. */
  function Init(entries: seq<ServerEntry>, links: seq<Link>, myId: int): (s: State)
    requires WellFormed(entries, links, myId)
    ensures Valid(s) && |s.servers| == |entries|
    ensures s.myId == myId && s.pktsReceived == 0
  {
    var s0 := State(LoadedServers(entries), InitialMatrix(|entries|), myId, 0);
    var s1 := ApplyLinks(s0, links);
    s1.(servers := s1.servers[myId - 1 := s1.servers[myId - 1].(cost := 0, nextHop := myId)])
  }

  /** What loading leaves behind: every cell holds its last configured link's
      cost (0 on the diagonal, USHRT_MAX elsewhere when no link names it);
      every server keeps its line's identity, starts alive with no skips, and
      is a neighbor reached directly at the last link's cost exactly when a
      link names it as `to`; self has cost 0 and itself as next hop. */
  lemma InitLoads(entries: seq<ServerEntry>, links: seq<Link>, myId: int)
    requires WellFormed(entries, links, myId)
    ensures var s := Init(entries, links, myId);
      && (forall r, c | 0 <= r < |entries| && 0 <= c < |entries| ::
            s.matrix[r][c] == ConfiguredCell(links, r, c))
      && ((forall k | 0 <= k < |links| :: links[k].from != links[k].to) ==>
            forall i | 0 <= i < |entries| :: s.matrix[i][i] == 0)
      && (forall t | 0 <= t < |entries| :: LoadedAs(entries[t], links, t, s.servers[t]))
      && s.servers[myId - 1].cost == 0 && s.servers[myId - 1].nextHop == myId
      && (forall t | 0 <= t < |entries| && t != myId - 1 ::
            InitialRoute(links, myId, s.servers[t]))
  {
    var n := |entries|;
    var s0 := State(LoadedServers(entries), InitialMatrix(n), myId, 0);
    var s1 := ApplyLinks(s0, links);
    InitCells(entries, links, myId, s0, s1);
    InitServers(entries, links, myId, s0, s1);
    NoSelfLinkKeepsDiagonal(links, n);
    var s2 := s1.(servers := s1.servers[myId - 1 := s1.servers[myId - 1].(cost := 0, nextHop := myId)]);
    assert s2 == Init(entries, links, myId);
    SelfRouteKeepsLoad(entries, links, myId, s1, s2);
  }

  lemma SelfRouteKeepsLoad(entries: seq<ServerEntry>, links: seq<Link>, myId: int, s1: State, s2: State)
    requires WellFormed(entries, links, myId)
    requires |s1.servers| == |entries|
    requires forall t | 0 <= t < |entries| ::
      LoadedAs(entries[t], links, t, s1.servers[t]) && InitialRoute(links, myId, s1.servers[t])
    requires s2 == s1.(servers := s1.servers[myId - 1 := s1.servers[myId - 1].(cost := 0, nextHop := myId)])
    ensures forall t | 0 <= t < |entries| :: LoadedAs(entries[t], links, t, s2.servers[t])
    ensures forall t | 0 <= t < |entries| && t != myId - 1 :: InitialRoute(links, myId, s2.servers[t])
  {
    forall t | 0 <= t < |entries|
      ensures LoadedAs(entries[t], links, t, s2.servers[t])
    {
      if t == myId - 1 {
        assert LoadedAs(entries[t], links, t, s1.servers[t]);
      }
    }
  }

  /** The identity and liveness fields the loader gives server t+1: those of
      its server line, alive, no skips, and a neighbor exactly when some link
      line names it as its `to` end. */
  predicate LoadedAs(e: ServerEntry, links: seq<Link>, t: int, sv: Server) {
    && sv.id == e.id && sv.ip == e.ip && sv.port == e.port
    && sv.isAlive && sv.skips == 0
    && (sv.isNeighbor <==> LastLinkTo(links, t).Some?)
  }

  /** The route the loader gives a server other than self: the last link to it,
      reached directly from self, or unreachable when no link names it. */
  predicate InitialRoute(links: seq<Link>, myId: int, sv: Server) {
    match LastLinkTo(links, sv.id as int - 1)
    case Some(v) => sv.cost == v && sv.nextHop == myId
    case None => sv.cost == INF && sv.nextHop == NO_HOP
  }

  /** The server table before any link line is applied. */
  function LoadedServers(entries: seq<ServerEntry>): (sv: seq<Server>)
    ensures |sv| == |entries|
    ensures forall i | 0 <= i < |entries| :: sv[i] == InitialServer(entries[i])
  {
    seq(|entries|, i requires 0 <= i < |entries| => InitialServer(entries[i]))
  }

  lemma InitCells(entries: seq<ServerEntry>, links: seq<Link>, myId: int, s0: State, s1: State)
    requires WellFormed(entries, links, myId)
    requires s0 == State(LoadedServers(entries), InitialMatrix(|entries|), myId, 0)
    requires Valid(s0) && s1 == ApplyLinks(s0, links)
    ensures forall r, c | 0 <= r < |entries| && 0 <= c < |entries| ::
      s1.matrix[r][c] == ConfiguredCell(links, r, c)
  {
    forall r, c | 0 <= r < |entries| && 0 <= c < |entries|
      ensures s1.matrix[r][c] == ConfiguredCell(links, r, c)
    {
      assert s0.matrix[r][c] == if r == c then 0 else INF;
    }
  }

  lemma InitServers(entries: seq<ServerEntry>, links: seq<Link>, myId: int, s0: State, s1: State)
    requires WellFormed(entries, links, myId)
    requires s0 == State(LoadedServers(entries), InitialMatrix(|entries|), myId, 0)
    requires Valid(s0) && s1 == ApplyLinks(s0, links)
    ensures forall t | 0 <= t < |entries| ::
      LoadedAs(entries[t], links, t, s1.servers[t]) && InitialRoute(links, myId, s1.servers[t])
  {
    forall t | 0 <= t < |entries|
      ensures s1.servers[t].id == entries[t].id
      ensures s1.servers[t].isNeighbor <==> LastLinkTo(links, t).Some?
      ensures InitialRoute(links, myId, s1.servers[t])
      ensures LoadedAs(entries[t], links, t, s1.servers[t])
    {
      assert s0.servers[t] == InitialServer(entries[t]);
    }
  }

  /** Without a link from a server to itself, no diagonal cell is written. */
  lemma NoSelfLinkKeepsDiagonal(links: seq<Link>, n: nat)
    ensures (forall k | 0 <= k < |links| :: links[k].from != links[k].to) ==>
      forall i | 0 <= i < n :: ConfiguredCell(links, i, i) == 0
  {
    if forall k | 0 <= k < |links| :: links[k].from != links[k].to {
      forall i | 0 <= i < n
        ensures ConfiguredCell(links, i, i) == 0
      {
        assert LastCellCost(links, i, i).None?;
      }
    }
  }
}
