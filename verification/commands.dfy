/** The admin commands that change the routing state: `disable`,
    `update <from> <to> <cost>` (up to, not including, the broadcast that
    follows a successful update) and `packets`. Commands arrive already
    tokenised; the response message is a value instead of text. */
module Commands {
  import opened Types

  /** The outcome written to response_message. */
  datatype Response =
    | Success
    | InvalidServer(id: int)      // "Server %d is invalid"
    | NotNeighbor(id: int)        // "Server %d is not a neighbor"
    | NotOwnLink                  // "You can only change link cost of neighbors"
    | SelfLink                    // "Self links are always 0. ..."

  datatype Reply = Reply(response: Response, after: State)

  // ---------------------------------------------------------------------
  // disable <id>

  /** disable: a neighbor stops being one and the link to it becomes INF in
      both directions; its liveness flag and skip count are left as they are.
      An id beyond the table or a non-neighbor is refused with no change. */
  function Disable(s: State, id: int): (r: Reply)
    requires Valid(s) && 1 <= id
    ensures r.response.Success? <==> id <= |s.servers| && s.servers[id - 1].isNeighbor
    ensures id > |s.servers| ==> r == Reply(InvalidServer(id), s)
    ensures id <= |s.servers| && !s.servers[id - 1].isNeighbor ==> r == Reply(NotNeighbor(id), s)
    ensures r.response.Success? ==>
      && Valid(r.after) && |r.after.servers| == |s.servers|
      && r.after.myId == s.myId && r.after.pktsReceived == s.pktsReceived
      && r.after.servers[id - 1] == s.servers[id - 1].(isNeighbor := false, cost := INF, nextHop := NO_HOP)
      && (forall j | 0 <= j < |s.servers| && j != id - 1 :: r.after.servers[j] == s.servers[j])
      && (forall i, c | 0 <= i < |s.servers| && 0 <= c < |s.servers| ::
            r.after.matrix[i][c] ==
              if (i == s.myId - 1 && c == id - 1) || (i == id - 1 && c == s.myId - 1) then INF else s.matrix[i][c])
  {
    if id > |s.servers| then Reply(InvalidServer(id), s)
    else if !s.servers[id - 1].isNeighbor then Reply(NotNeighbor(id), s)
    else
      var sv := s.servers[id - 1].(isNeighbor := false, cost := INF, nextHop := NO_HOP);
      var m := SetCell(SetCell(s.matrix, s.myId - 1, id - 1, INF), id - 1, s.myId - 1, INF);
      Reply(Success, s.(servers := s.servers[id - 1 := sv], matrix := m))
  }

  /** A second disable of the same server is refused and changes nothing. */
  lemma DisableTwice(s: State, id: int)
    requires Valid(s) && 1 <= id
    requires Disable(s, id).response.Success?
    ensures Disable(Disable(s, id).after, id) == Reply(NotNeighbor(id), Disable(s, id).after)
  {
  }

  /** Disabling a neighbor does not declare it dead: is_alive and the skip
      count survive, and only the link between self and it changes. */
  lemma DisableKeepsLiveness(s: State, id: int)
    requires Valid(s) && 1 <= id <= |s.servers| && s.servers[id - 1].isNeighbor
    ensures var t := Disable(s, id).after;
      t.servers[id - 1].isAlive == s.servers[id - 1].isAlive && t.servers[id - 1].skips == s.servers[id - 1].skips
      && !t.servers[id - 1].isNeighbor
      && OwnRow(t)[id - 1] == INF && t.matrix[id - 1][s.myId - 1] == INF
  {
  }

  // ---------------------------------------------------------------------
  // update <from> <to> <cost>

  /** The cost argument: a number, or the word inf / INF. */
  datatype CostArg = Finite(value: u16) | Infinite

  function CostOf(a: CostArg): u16 {
    match a
    case Finite(v) => v
    case Infinite => INF
  }

  /** The refusal update_link_cost gives, in the order it checks:
      either id past the table, neither end is self, a self link, or `to`
      is not a neighbor. None means the update goes ahead. No check reads
      `servers[from-1]`, so any `from` is refused or let through safely; a
      `to` of 0 or below is reached by the neighbor check, which reads
      out of bounds, only when `from` is self. */
  function Refusal(s: State, from: int, to: int): (o: Option<Response>)
    requires Valid(s) && (1 <= to || from != s.myId)
    ensures o.None? <==>
      from <= |s.servers| && to <= |s.servers| && (from == s.myId || to == s.myId) && from != to
      && s.servers[to - 1].isNeighbor
    ensures o.Some? ==> !o.value.Success?
    ensures from > |s.servers| ==> o == Some(InvalidServer(from))
    ensures from <= |s.servers| < to ==> o == Some(InvalidServer(to))
    ensures from <= |s.servers| && to <= |s.servers| && from != s.myId && to != s.myId ==>
      o == Some(NotOwnLink)
    ensures from <= |s.servers| && to <= |s.servers| && (from == s.myId || to == s.myId) && from == to ==>
      o == Some(SelfLink)
    ensures (from <= |s.servers| && to <= |s.servers| && (from == s.myId || to == s.myId) && from != to
             && !s.servers[to - 1].isNeighbor) ==> o == Some(NotNeighbor(to))
  {
    if from > |s.servers| then Some(InvalidServer(from))
    else if to > |s.servers| then Some(InvalidServer(to))
    else if from != s.myId && to != s.myId then Some(NotOwnLink)
    else if from == to then Some(SelfLink)
    else if !s.servers[to - 1].isNeighbor then Some(NotNeighbor(to))
    else None
  }

  /** The direct writes of a successful update: both cells of the link and
      `to`'s route get the new cost, with `from` as next hop (none for inf). */
  function SetLink(s: State, from: int, to: int, a: CostArg): (r: State)
    requires Valid(s) && 1 <= from <= |s.servers| && 1 <= to <= |s.servers|
    ensures Valid(r) && |r.servers| == |s.servers| && r.myId == s.myId && r.pktsReceived == s.pktsReceived
  {
    var c := CostOf(a);
    var m := SetCell(SetCell(s.matrix, from - 1, to - 1, c), to - 1, from - 1, c);
    var sv := s.servers[to - 1].(cost := c, nextHop := from);
    var sv' := if a.Infinite? then sv.(nextHop := NO_HOP) else sv;
    s.(servers := s.servers[to - 1 := sv'], matrix := m)
  }

  /** One iteration of the clearing loop after an inf update: a route through
      `to` becomes unreachable and the cells between `from` and it become INF. */
  function ClearOne(s: State, from: int, to: int, i: nat): (r: State)
    requires Valid(s) && 1 <= from <= |s.servers| && i < |s.servers|
    ensures Valid(r) && |r.servers| == |s.servers| && r.myId == s.myId && r.pktsReceived == s.pktsReceived
  {
    if s.servers[i].nextHop == to then
      var m := SetCell(SetCell(s.matrix, from - 1, i, INF), i, from - 1, INF);
      s.(servers := s.servers[i := Unreachable(s.servers[i])], matrix := m)
    else s
  }

  function ClearFrom(s: State, from: int, to: int, i: nat): (r: State)
    requires Valid(s) && 1 <= from <= |s.servers| && i <= |s.servers|
    ensures Valid(r) && |r.servers| == |s.servers| && r.myId == s.myId && r.pktsReceived == s.pktsReceived
    decreases |s.servers| - i
  {
    if i == |s.servers| then s else ClearFrom(ClearOne(s, from, to, i), from, to, i + 1)
  }

  /** update_link_cost, without the broadcast it ends with. The writes that
      follow the checks index by `from`, so an update the checks let through
      needs `from` in range. */
  function UpdateLinkCost(s: State, from: int, to: int, a: CostArg): (r: Reply)
    requires Valid(s) && (1 <= to || from != s.myId)
    requires Refusal(s, from, to).None? ==> 1 <= from
    ensures r.response.Success? <==> Refusal(s, from, to).None?
    ensures Refusal(s, from, to).Some? ==> r == Reply(Refusal(s, from, to).value, s)
    ensures Valid(r.after) && |r.after.servers| == |s.servers|
    ensures r.after.myId == s.myId && r.after.pktsReceived == s.pktsReceived
  {
    match Refusal(s, from, to)
    case Some(e) => Reply(e, s)
    case None =>
      var t := SetLink(s, from, to, a);
      if a.Infinite? then Reply(Success, ClearFrom(t, from, to, 0)) else Reply(Success, t)
  }

  // ---------------------------------------------------------------------
  // Reference definition of a successful update.

  /** Whether server j's route is cleared by an inf update of from--to. */
  predicate Cleared(s: State, to: int, a: CostArg, j: nat)
    requires Valid(s) && j < |s.servers|
  {
    a.Infinite? && j != to - 1 && s.servers[j].nextHop == to
  }

  /** Server j after a successful update whose clearing loop has reached
      index `upto`: `to` carries the new cost (next hop `from`, or none for
      inf); after inf every other route through `to` is unreachable; every
      other server is as it was. */
  function UpdatedServer(s: State, from: int, to: int, a: CostArg, upto: nat, j: nat): Server
    requires Valid(s) && 1 <= from <= |s.servers| && 1 <= to <= |s.servers| && j < |s.servers|
  {
    if j == to - 1 then
      s.servers[j].(cost := CostOf(a), nextHop := if a.Infinite? then NO_HOP else from)
    else if j < upto && Cleared(s, to, a, j) then Unreachable(s.servers[j])
    else s.servers[j]
  }

  /** Cell (r, c) after a successful update whose clearing loop has reached
      index `upto`: the two cells of the link hold the new cost; after inf,
      the cells between `from` and every server whose route ran through `to`
      hold INF. */
  function UpdatedCell(s: State, from: int, to: int, a: CostArg, upto: nat, r: nat, c: nat): u16
    requires Valid(s) && 1 <= from <= |s.servers| && 1 <= to <= |s.servers|
    requires r < |s.servers| && c < |s.servers|
  {
    if (r == from - 1 && c < upto && Cleared(s, to, a, c)) || (c == from - 1 && r < upto && Cleared(s, to, a, r)) then INF
    else if (r == from - 1 && c == to - 1) || (r == to - 1 && c == from - 1) then CostOf(a)
    else s.matrix[r][c]
  }

  predicate UpdatedUpTo(s: State, from: int, to: int, a: CostArg, t: State, upto: nat)
    requires Valid(s) && 1 <= from <= |s.servers| && 1 <= to <= |s.servers|
  {
    && Valid(t) && |t.servers| == |s.servers| && t.myId == s.myId && t.pktsReceived == s.pktsReceived
    && (forall j | 0 <= j < |s.servers| :: t.servers[j] == UpdatedServer(s, from, to, a, upto, j))
    && (forall r, c | 0 <= r < |s.servers| && 0 <= c < |s.servers| ::
          t.matrix[r][c] == UpdatedCell(s, from, to, a, upto, r, c))
  }

  lemma SetLinkSpec(s: State, from: int, to: int, a: CostArg)
    requires Valid(s) && 1 <= from <= |s.servers| && 1 <= to <= |s.servers|
    ensures UpdatedUpTo(s, from, to, a, SetLink(s, from, to, a), 0)
  {
  }

  lemma ClearStep(s: State, from: int, to: int, a: CostArg, t: State, i: nat)
    requires Valid(s) && 1 <= from <= |s.servers| && 1 <= to <= |s.servers| && a.Infinite? && i < |s.servers|
    requires UpdatedUpTo(s, from, to, a, t, i)
    ensures UpdatedUpTo(s, from, to, a, ClearOne(t, from, to, i), i + 1)
  {
    var n := |s.servers|;
    assert t.servers[i] == UpdatedServer(s, from, to, a, i, i);
    assert t.servers[i].nextHop == to <==> Cleared(s, to, a, i);
    var d := ClearOne(t, from, to, i);
    forall j | 0 <= j < n
      ensures d.servers[j] == UpdatedServer(s, from, to, a, i + 1, j)
    {
      assert t.servers[j] == UpdatedServer(s, from, to, a, i, j);
    }
    forall r, c | 0 <= r < n && 0 <= c < n
      ensures d.matrix[r][c] == UpdatedCell(s, from, to, a, i + 1, r, c)
    {
      assert t.matrix[r][c] == UpdatedCell(s, from, to, a, i, r, c);
    }
  }

  lemma {:induction false} ClearFromSpec(s: State, from: int, to: int, a: CostArg, t: State, i: nat)
    requires Valid(s) && 1 <= from <= |s.servers| && 1 <= to <= |s.servers| && a.Infinite? && i <= |s.servers|
    requires UpdatedUpTo(s, from, to, a, t, i)
    ensures UpdatedUpTo(s, from, to, a, ClearFrom(t, from, to, i), |s.servers|)
    decreases |s.servers| - i
  {
    if i < |s.servers| {
      ClearStep(s, from, to, a, t, i);
      ClearFromSpec(s, from, to, a, ClearOne(t, from, to, i), i + 1);
    }
  }

  /** A successful update, server by server and cell by cell, against the
      reference definition. */
  lemma UpdateSpec(s: State, from: int, to: int, a: CostArg)
    requires Valid(s) && 1 <= from && 1 <= to && Refusal(s, from, to).None?
    ensures UpdatedUpTo(s, from, to, a, UpdateLinkCost(s, from, to, a).after, |s.servers|)
  {
    var t1 := SetLink(s, from, to, a);
    SetLinkSpec(s, from, to, a);
    if a.Infinite? {
      ClearFromSpec(s, from, to, a, t1, 0);
    } else {
      assert forall j | 0 <= j < |s.servers| :: !Cleared(s, to, a, j);
    }
  }

  /** After `update from to inf` no route runs through `to`, and `to` itself
      is unreachable. */
  lemma InfUpdateCutsRoutes(s: State, from: int, to: int)
    requires Valid(s) && 1 <= from && 1 <= to && Refusal(s, from, to).None?
    ensures var t := UpdateLinkCost(s, from, to, Infinite).after;
      && t.servers[to - 1].cost == INF && t.servers[to - 1].nextHop == NO_HOP
      && (forall j | 0 <= j < |s.servers| :: t.servers[j].nextHop != to)
      && t.matrix[from - 1][to - 1] == INF && t.matrix[to - 1][from - 1] == INF
  {
    UpdateSpec(s, from, to, Infinite);
    var t := UpdateLinkCost(s, from, to, Infinite).after;
    forall j | 0 <= j < |s.servers|
      ensures t.servers[j].nextHop != to
    {
      assert t.servers[j] == UpdatedServer(s, from, to, Infinite, |s.servers|, j);
    }
    assert t.matrix[from - 1][to - 1] == UpdatedCell(s, from, to, Infinite, |s.servers|, from - 1, to - 1);
    assert t.matrix[to - 1][from - 1] == UpdatedCell(s, from, to, Infinite, |s.servers|, to - 1, from - 1);
  }

  /** Repeating a successful update changes nothing more. */
  lemma UpdateIdempotent(s: State, from: int, to: int, a: CostArg)
    requires Valid(s) && 1 <= from && 1 <= to && Refusal(s, from, to).None?
    ensures var t := UpdateLinkCost(s, from, to, a).after;
      UpdateLinkCost(t, from, to, a) == Reply(Success, t)
  {
    var t := UpdateLinkCost(s, from, to, a).after;
    var n := |s.servers|;
    UpdateSpec(s, from, to, a);
    assert t.servers[to - 1] == UpdatedServer(s, from, to, a, n, to - 1);
    assert Refusal(t, from, to).None?;
    var u := UpdateLinkCost(t, from, to, a).after;
    UpdateSpec(t, from, to, a);
    forall j | 0 <= j < n
      ensures u.servers[j] == t.servers[j]
    {
      assert u.servers[j] == UpdatedServer(t, from, to, a, n, j);
      assert t.servers[j] == UpdatedServer(s, from, to, a, n, j);
    }
    forall r, c | 0 <= r < n && 0 <= c < n
      ensures u.matrix[r][c] == t.matrix[r][c]
    {
      assert u.matrix[r][c] == UpdatedCell(t, from, to, a, n, r, c);
      assert t.matrix[r][c] == UpdatedCell(s, from, to, a, n, r, c);
      if a.Infinite? && r == from - 1 && c != to - 1 {
        assert t.servers[c] == UpdatedServer(s, from, to, a, n, c);
      }
      if a.Infinite? && c == from - 1 && r != to - 1 {
        assert t.servers[r] == UpdatedServer(s, from, to, a, n, r);
      }
    }
    MatrixExt(u.matrix, t.matrix, n);
    assert u.servers == t.servers;
  }

  // ---------------------------------------------------------------------
  // packets

  /** The `packets` command: reports the number of packets accepted since the
      last report and starts counting again from zero; nothing else changes. */
  function Packets(s: State): (r: (nat, State))
    ensures r.0 == s.pktsReceived
    ensures r.1.pktsReceived == 0
    ensures r.1 == s.(pktsReceived := r.1.pktsReceived)
  {
    (s.pktsReceived, s.(pktsReceived := 0))
  }
}
