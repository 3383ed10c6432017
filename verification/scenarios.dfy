/** Consequences that span several transitions. */
module Scenarios {
  import opened Types
  import opened Routing
  import opened Commands

  /** `update self k inf` leaves k a live neighbor with route cost USHRT_MAX,
      so the next Bellman-Ford still treats k as an intermediate, and the
      16-bit sum v + USHRT_MAX wraps to v - 1: a destination k advertises at
      cost v looks one cheaper through the cut link than k's own advert. */
  lemma InfLinkUndercutsByWrap(s: State, to: int, d: nat)
    requires Valid(s) && 1 <= to && Refusal(s, s.myId, to).None?
    requires s.servers[to - 1].isAlive
    requires d < |s.servers| && d != s.myId - 1
    requires 1 <= s.matrix[to - 1][d] < INF
    ensures var t := UpdateLinkCost(s, s.myId, to, Infinite).after;
      && t.servers[to - 1].cost == INF
      && Candidate(t, d, to - 1)
      && Dist(t, d, to - 1) == s.matrix[to - 1][d] - 1
  {
    var t := UpdateLinkCost(s, s.myId, to, Infinite).after;
    var n := |s.servers|;
    UpdateSpec(s, s.myId, to, Infinite);
    assert t.servers[to - 1] == UpdatedServer(s, s.myId, to, Infinite, n, to - 1);
    assert t.matrix[to - 1][d] == UpdatedCell(s, s.myId, to, Infinite, n, to - 1, d);
  }
}
