/** The Bellman-Ford recomputation of this router's own distance vector.

    For each destination d other than self, in index order, the scan starts
    from the row's current value matrix[self][d] and the current next hop of d,
    and walks every intermediate k in index order:
      - if matrix[k][d] is USHRT_MAX and d's next hop is k's id, the running
        minimum is poisoned (USHRT_MAX, no next hop);
      - otherwise a live neighbor k with a finite matrix[k][d] offers the
        16-bit wrapping sum matrix[k][d] + cost(k), taken when strictly below
        the running minimum.
    The result is written to d's cost and next hop and to matrix[self][d], so a
    later destination's scan sees the costs already recomputed in this pass. */
module Routing {
  import opened Types

  /** Intermediate k may carry a route to d: finite entry, live neighbor. */
  predicate Candidate(s: State, d: nat, k: nat)
    requires Valid(s) && d < |s.servers| && k < |s.servers|
  {
    s.matrix[k][d] != INF && s.servers[k].isNeighbor && s.servers[k].isAlive
  }

  /** The uint16_t sum of the source: it wraps modulo 2^16. */
  function Dist(s: State, d: nat, k: nat): u16
    requires Valid(s) && d < |s.servers| && k < |s.servers|
  {
    (s.matrix[k][d] + s.servers[k].cost) % 0x1_0000
  }

  /** The running minimum and the next hop of the destination being scanned. */
  datatype Best = Best(minDist: u16, nextHop: int)

  /** One iteration of the inner loop: intermediate k for destination d. */
  function Step(s: State, d: nat, k: nat, acc: Best): Best
    requires Valid(s) && d < |s.servers| && k < |s.servers|
  {
    if s.matrix[k][d] == INF then
      if acc.nextHop == s.servers[k].id as int then Best(INF, NO_HOP) else acc
    else if !s.servers[k].isNeighbor then acc
    else if !s.servers[k].isAlive then acc
    else
      var dist := Dist(s, d, k);
      if dist < acc.minDist then Best(dist, s.servers[k].id as int) else acc
  }

  /** The inner loop from intermediate k onwards. */
  function Scan(s: State, d: nat, k: nat, acc: Best): Best
    requires Valid(s) && d < |s.servers| && k <= |s.servers|
    decreases |s.servers| - k
  {
    if k == |s.servers| then acc
    else Scan(s, d, k + 1, Step(s, d, k, acc))
  }

  /** Where the scan of d starts: the row's value and d's next hop. */
  function Start(s: State, d: nat): Best
    requires Valid(s) && d < |s.servers|
  {
    Best(OwnRow(s)[d], s.servers[d].nextHop)
  }

  /** Reference definition of a poison-free scan over intermediates lo..N-1
      from `acc`: the result is no worse than `acc` and than every candidate;
      it is either `acc` itself, or the FIRST candidate whose wrapped sum is
      the minimum, strictly below `acc` (ties keep the earlier hop). */
  predicate Relaxed(s: State, d: nat, lo: nat, acc: Best, r: Best)
    requires Valid(s) && d < |s.servers|
  {
    && r.minDist <= acc.minDist
    && (forall j | lo <= j < |s.servers| && Candidate(s, d, j) :: r.minDist <= Dist(s, d, j))
    && (|| r == acc
        || exists j | lo <= j < |s.servers| ::
             && Candidate(s, d, j)
             && r.minDist == Dist(s, d, j) < acc.minDist
             && r.nextHop == j + 1
             && forall i | lo <= i < j && Candidate(s, d, i) :: r.minDist < Dist(s, d, i))
  }

  /** The poison fires during a scan from lo exactly when the current next hop
      names an intermediate p at or after lo with matrix[p][d] == USHRT_MAX and
      no candidate before p has improved on the running minimum (an
      improvement replaces the next hop, and a newly chosen hop lies behind
      the scan position, so it can never be poisoned in the same scan). */
  predicate PoisonPending(s: State, d: nat, lo: nat, acc: Best)
    requires Valid(s) && d < |s.servers|
  {
    && lo < acc.nextHop <= |s.servers|
    && s.matrix[acc.nextHop - 1][d] == INF
    && forall j | lo <= j < acc.nextHop - 1 && Candidate(s, d, j) :: acc.minDist <= Dist(s, d, j)
  }

  /** Without a pending poison the code's scan is the reference relaxation. */
  lemma {:induction false} ScanRelaxes(s: State, d: nat, lo: nat, acc: Best)
    requires Valid(s) && d < |s.servers| && lo <= |s.servers|
    requires !PoisonPending(s, d, lo, acc)
    ensures Relaxed(s, d, lo, acc, Scan(s, d, lo, acc))
    decreases |s.servers| - lo
  {
    if lo < |s.servers| {
      var acc' := Step(s, d, lo, acc);
      if acc' == acc {
        StepKeeps(s, d, lo, acc);
        ScanRelaxes(s, d, lo + 1, acc);
        RelaxedExtend(s, d, lo, acc, acc, Scan(s, d, lo + 1, acc));
      } else {
        StepImproves(s, d, lo, acc);
        ScanRelaxes(s, d, lo + 1, acc');
        RelaxedExtend(s, d, lo, acc, acc', Scan(s, d, lo + 1, acc'));
      }
    }
  }

  /** An intermediate that leaves the running pair alone keeps the poison
      question open exactly as before. */
  lemma StepKeeps(s: State, d: nat, lo: nat, acc: Best)
    requires Valid(s) && d < |s.servers| && lo < |s.servers|
    requires !PoisonPending(s, d, lo, acc) && Step(s, d, lo, acc) == acc
    ensures !PoisonPending(s, d, lo + 1, acc)
    ensures Candidate(s, d, lo) ==> acc.minDist <= Dist(s, d, lo)
  {
  }

  /** An intermediate that changes the running pair without a pending poison
      is an improving candidate, whose hop lies behind the scan. */
  lemma StepImproves(s: State, d: nat, lo: nat, acc: Best)
    requires Valid(s) && d < |s.servers| && lo < |s.servers|
    requires !PoisonPending(s, d, lo, acc) && Step(s, d, lo, acc) != acc
    ensures Candidate(s, d, lo) && Dist(s, d, lo) < acc.minDist
    ensures Step(s, d, lo, acc) == Best(Dist(s, d, lo), lo + 1)
    ensures !PoisonPending(s, d, lo + 1, Step(s, d, lo, acc))
  {
  }

  /** Relaxation from lo+1 after step lo is relaxation from lo. */
  lemma RelaxedExtend(s: State, d: nat, lo: nat, acc: Best, acc': Best, r: Best)
    requires Valid(s) && d < |s.servers| && lo < |s.servers|
    requires acc' == acc || (Candidate(s, d, lo) && acc' == Best(Dist(s, d, lo), lo + 1) && Dist(s, d, lo) < acc.minDist)
    requires acc' == acc ==> (Candidate(s, d, lo) ==> acc.minDist <= Dist(s, d, lo))
    requires Relaxed(s, d, lo + 1, acc', r)
    ensures Relaxed(s, d, lo, acc, r)
  {
    if r != acc' {
      var j :| lo + 1 <= j < |s.servers| && Candidate(s, d, j)
               && r.minDist == Dist(s, d, j) < acc'.minDist && r.nextHop == j + 1
               && forall i | lo + 1 <= i < j && Candidate(s, d, i) :: r.minDist < Dist(s, d, i);
      assert forall i | lo <= i < j && Candidate(s, d, i) :: r.minDist < Dist(s, d, i);
    } else if acc' != acc {
      assert Candidate(s, d, lo) && r.minDist == Dist(s, d, lo) < acc.minDist && r.nextHop == lo + 1;
    }
  }

  /** A pending poison resets the scan to (USHRT_MAX, no hop) just after the
      poisoned intermediate, and the earlier intermediates change nothing. */
  lemma {:induction false} ScanPoisons(s: State, d: nat, lo: nat, acc: Best)
    requires Valid(s) && d < |s.servers| && lo <= |s.servers|
    requires PoisonPending(s, d, lo, acc)
    ensures Scan(s, d, lo, acc) == Scan(s, d, acc.nextHop, Best(INF, NO_HOP))
    decreases |s.servers| - lo
  {
    if lo == acc.nextHop - 1 {
      assert Step(s, d, lo, acc) == Best(INF, NO_HOP);
    } else {
      assert Step(s, d, lo, acc) == acc;
      ScanPoisons(s, d, lo + 1, acc);
    }
  }

  /** The outcome of the whole scan of d against the reference definition. */
  lemma ScanOutcome(s: State, d: nat)
    requires Valid(s) && d < |s.servers|
    ensures var r := Scan(s, d, 0, Start(s, d));
      && (PoisonPending(s, d, 0, Start(s, d)) ==>
            Relaxed(s, d, s.servers[d].nextHop, Best(INF, NO_HOP), r))
      && (!PoisonPending(s, d, 0, Start(s, d)) ==> Relaxed(s, d, 0, Start(s, d), r))
  {
    if PoisonPending(s, d, 0, Start(s, d)) {
      ScanPoisons(s, d, 0, Start(s, d));
      ScanRelaxes(s, d, s.servers[d].nextHop, Best(INF, NO_HOP));
    } else {
      ScanRelaxes(s, d, 0, Start(s, d));
    }
  }

  /** The outer loop body for destination d. */
  function RecomputeDest(s: State, d: nat): (r: State)
    requires Valid(s) && d < |s.servers|
    ensures Valid(r)
  {
    if d == s.myId - 1 then s
    else
      var b := Scan(s, d, 0, Start(s, d));
      s.(servers := s.servers[d := s.servers[d].(cost := b.minDist, nextHop := b.nextHop)],
         matrix := SetCell(s.matrix, s.myId - 1, d, b.minDist))
  }

  /** The state after the outer loop has handled destinations 0..d-1. */
  function Prefix(s: State, d: nat): (r: State)
    requires Valid(s) && d <= |s.servers|
    ensures Valid(r) && |r.servers| == |s.servers|
    ensures r.myId == s.myId && r.pktsReceived == s.pktsReceived
    ensures forall i | 0 <= i < |s.servers| :: SameButRoute(r.servers[i], s.servers[i])
    ensures forall i | 0 <= i < |s.servers| && (d <= i || i == s.myId - 1) ::
      r.servers[i] == s.servers[i]
    ensures forall i | 0 <= i < |s.servers| && i != s.myId - 1 :: r.matrix[i] == s.matrix[i]
    ensures forall c | 0 <= c < |s.servers| && (d <= c || c == s.myId - 1) ::
      OwnRow(r)[c] == OwnRow(s)[c]
    ensures forall c | 0 <= c < d && c != s.myId - 1 :: r.servers[c].cost == OwnRow(r)[c]
    decreases d
  {
    if d == 0 then s else RecomputeDest(Prefix(s, d - 1), d - 1)
  }

  /** bellman_ford(): only row self changes, never its diagonal; afterwards
      every other server's cost is the row's entry; the table's identity and
      liveness fields, self's row entry and every other row are untouched; an
      entry can only rise when d's old next hop k+1 has matrix[k][d] at
      USHRT_MAX (the poison). */
  function BellmanFord(s: State): (r: State)
    requires Valid(s)
    ensures Valid(r) && |r.servers| == |s.servers|
    ensures r.myId == s.myId && r.pktsReceived == s.pktsReceived
    ensures forall i | 0 <= i < |s.servers| && i != s.myId - 1 :: r.matrix[i] == s.matrix[i]
    ensures OwnRow(r)[s.myId - 1] == OwnRow(s)[s.myId - 1]
    ensures r.servers[s.myId - 1] == s.servers[s.myId - 1]
    ensures forall i | 0 <= i < |s.servers| :: SameButRoute(r.servers[i], s.servers[i])
    ensures forall d | 0 <= d < |s.servers| && d != s.myId - 1 :: r.servers[d].cost == OwnRow(r)[d]
  {
    Prefix(s, |s.servers|)
  }

  /** Destinations handled after d leave d's route and row entry alone. */
  lemma {:induction false} PrefixStable(s: State, d: nat, e: nat, i: nat)
    requires Valid(s) && i < d <= e <= |s.servers|
    ensures Prefix(s, e).servers[i] == Prefix(s, d).servers[i]
    ensures OwnRow(Prefix(s, e))[i] == OwnRow(Prefix(s, d))[i]
    decreases e
  {
    if e > d {
      PrefixStable(s, d, e - 1, i);
    }
  }

  /** What the scan of d sees: column d as it was before the call (no row but
      self's changes, and self's entry for d is written only at d's own step),
      the identity and liveness fields as before, and for an intermediate k the
      cost already recomputed in this pass when k < d, the old one otherwise. */
  lemma ScanSees(s: State, d: nat, k: nat)
    requires Valid(s) && d < |s.servers| && k < |s.servers|
    ensures Start(Prefix(s, d), d) == Start(s, d)
    ensures Prefix(s, d).matrix[k][d] == s.matrix[k][d]
    ensures Candidate(Prefix(s, d), d, k) <==> Candidate(s, d, k)
    ensures Prefix(s, d).servers[k].cost ==
      if k < d then BellmanFord(s).servers[k].cost else s.servers[k].cost
  {
    if k < d {
      PrefixStable(s, d, |s.servers|, k);
    }
  }

  /** The state the scan of d reads, described by the pass's input and its
      result alone: s, except that an intermediate k before d already carries
      its cost from BellmanFord(s). */
  function PassView(s: State, d: nat): (v: State)
    requires Valid(s) && d < |s.servers|
    ensures Valid(v) && |v.servers| == |s.servers| && v.matrix == s.matrix && v.myId == s.myId
    ensures forall k | 0 <= k < |s.servers| ::
      v.servers[k] == if k < d then s.servers[k].(cost := BellmanFord(s).servers[k].cost) else s.servers[k]
  {
    var r := BellmanFord(s);
    s.(servers := seq(|s.servers|, k requires 0 <= k < |s.servers| =>
         if k < d then s.servers[k].(cost := r.servers[k].cost) else s.servers[k]))
  }

  /** Two states that agree on column d, on the candidates for d and on their
      wrapped sums relax and poison the scan of d alike. */
  lemma ColumnAgreement(a: State, b: State, d: nat, lo: nat, acc: Best, r: Best)
    requires Valid(a) && Valid(b) && |a.servers| == |b.servers| && d < |a.servers|
    requires forall k | 0 <= k < |a.servers| ::
      a.matrix[k][d] == b.matrix[k][d] && Candidate(a, d, k) == Candidate(b, d, k) && Dist(a, d, k) == Dist(b, d, k)
    ensures PoisonPending(a, d, lo, acc) == PoisonPending(b, d, lo, acc)
    ensures Relaxed(a, d, lo, acc, r) == Relaxed(b, d, lo, acc, r)
  {
  }

  /** What the scan of d sees in the code's intermediate state is the view. */
  lemma PassViewIsPrefix(s: State, d: nat)
    requires Valid(s) && d < |s.servers|
    ensures forall k | 0 <= k < |s.servers| ::
      && PassView(s, d).matrix[k][d] == Prefix(s, d).matrix[k][d]
      && Candidate(PassView(s, d), d, k) == Candidate(Prefix(s, d), d, k)
      && Dist(PassView(s, d), d, k) == Dist(Prefix(s, d), d, k)
  {
    forall k | 0 <= k < |s.servers|
      ensures PassView(s, d).matrix[k][d] == Prefix(s, d).matrix[k][d]
      ensures Candidate(PassView(s, d), d, k) == Candidate(Prefix(s, d), d, k)
      ensures Dist(PassView(s, d), d, k) == Dist(Prefix(s, d), d, k)
    {
      PassViewAt(s, d, k);
    }
  }

  /** The view and the intermediate state agree on intermediate k. */
  lemma PassViewAt(s: State, d: nat, k: nat)
    requires Valid(s) && d < |s.servers| && k < |s.servers|
    ensures PassView(s, d).matrix[k][d] == Prefix(s, d).matrix[k][d]
    ensures Candidate(PassView(s, d), d, k) == Candidate(Prefix(s, d), d, k)
    ensures Dist(PassView(s, d), d, k) == Dist(Prefix(s, d), d, k)
  {
    var v := PassView(s, d);
    var mid := Prefix(s, d);
    ScanSees(s, d, k);
    assert SameButRoute(mid.servers[k], s.servers[k]);
    IntermediateAgreement(v, mid, d, k);
  }

  /** Intermediate k is judged only by its column-d entry, its flags and its
      route cost. */
  lemma IntermediateAgreement(a: State, b: State, d: nat, k: nat)
    requires Valid(a) && Valid(b) && |a.servers| == |b.servers| && d < |a.servers| && k < |a.servers|
    requires a.matrix[k][d] == b.matrix[k][d] && a.servers[k].cost == b.servers[k].cost
    requires a.servers[k].isNeighbor == b.servers[k].isNeighbor && a.servers[k].isAlive == b.servers[k].isAlive
    ensures Candidate(a, d, k) == Candidate(b, d, k) && Dist(a, d, k) == Dist(b, d, k)
  {
  }

  /** The route bellman_ford() leaves for destination d is the reference
      relaxation over the pass view (column d and flags as in s, intermediates
      before d at their new cost): from the old route, or from (USHRT_MAX, no
      hop) just past the old next hop when the poison fires. */
  lemma BellmanFordRoute(s: State, d: nat)
    requires Valid(s) && d < |s.servers| && d != s.myId - 1
    ensures var r := BellmanFord(s);
      var v := PassView(s, d);
      var got := Best(r.servers[d].cost, r.servers[d].nextHop);
      && (PoisonPending(v, d, 0, Start(s, d)) ==>
            Relaxed(v, d, s.servers[d].nextHop, Best(INF, NO_HOP), got))
      && (!PoisonPending(v, d, 0, Start(s, d)) ==> Relaxed(v, d, 0, Start(s, d), got))
  {
    var r := BellmanFord(s);
    var got := Best(r.servers[d].cost, r.servers[d].nextHop);
    RouteOverPrefix(s, d);
    ViewMatchesPrefix(s, d, got);
  }

  /** The same outcome over the code's own intermediate state. */
  lemma RouteOverPrefix(s: State, d: nat)
    requires Valid(s) && d < |s.servers| && d != s.myId - 1
    ensures var r := BellmanFord(s);
      var mid := Prefix(s, d);
      var got := Best(r.servers[d].cost, r.servers[d].nextHop);
      && (PoisonPending(mid, d, 0, Start(s, d)) ==>
            Relaxed(mid, d, s.servers[d].nextHop, Best(INF, NO_HOP), got))
      && (!PoisonPending(mid, d, 0, Start(s, d)) ==> Relaxed(mid, d, 0, Start(s, d), got))
  {
    RouteIsScan(s, d);
    ScanSees(s, d, d);
    ScanOutcome(Prefix(s, d), d);
  }

  /** The view and the intermediate state answer both questions alike. */
  lemma ViewMatchesPrefix(s: State, d: nat, got: Best)
    requires Valid(s) && d < |s.servers|
    ensures var v := PassView(s, d);
      var mid := Prefix(s, d);
      && PoisonPending(v, d, 0, Start(s, d)) == PoisonPending(mid, d, 0, Start(s, d))
      && Relaxed(v, d, 0, Start(s, d), got) == Relaxed(mid, d, 0, Start(s, d), got)
      && (0 <= s.servers[d].nextHop ==>
            Relaxed(v, d, s.servers[d].nextHop, Best(INF, NO_HOP), got)
            == Relaxed(mid, d, s.servers[d].nextHop, Best(INF, NO_HOP), got))
  {
    PassViewIsPrefix(s, d);
    var v := PassView(s, d);
    var mid := Prefix(s, d);
    ColumnAgreement(v, mid, d, 0, Start(s, d), got);
    if 0 <= s.servers[d].nextHop {
      ColumnAgreement(v, mid, d, s.servers[d].nextHop, Best(INF, NO_HOP), got);
    }
  }

  /** d's final route is the one its own scan produced. */
  lemma RouteIsScan(s: State, d: nat)
    requires Valid(s) && d < |s.servers| && d != s.myId - 1
    ensures var b := Scan(Prefix(s, d), d, 0, Start(s, d));
      BellmanFord(s).servers[d].cost == b.minDist && BellmanFord(s).servers[d].nextHop == b.nextHop
  {
    PrefixStable(s, d + 1, |s.servers|, d);
    DestRoute(s, d);
  }

  /** Step d of the outer loop writes d's route from its scan. */
  lemma DestRoute(s: State, d: nat)
    requires Valid(s) && d < |s.servers| && d != s.myId - 1
    ensures var b := Scan(Prefix(s, d), d, 0, Start(s, d));
      Prefix(s, d + 1).servers[d].cost == b.minDist && Prefix(s, d + 1).servers[d].nextHop == b.nextHop
  {
    var mid := Prefix(s, d);
    assert OwnRow(mid)[d] == OwnRow(s)[d] && mid.servers[d] == s.servers[d];
  }

  /** The pass lowers (or keeps) each entry of self's row unless the poison
      fires for it. */
  lemma BellmanFordLowersUnlessPoisoned(s: State, d: nat)
    requires Valid(s) && d < |s.servers| && d != s.myId - 1
    ensures var r := BellmanFord(s);
      || r.matrix[s.myId - 1][d] <= s.matrix[s.myId - 1][d]
      || PoisonPending(PassView(s, d), d, 0, Start(s, d))
  {
    BellmanFordRoute(s, d);
  }
}
