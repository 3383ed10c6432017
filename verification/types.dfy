/** Shared vocabulary of the routing-state engine: fixed-width unsigned values,
    the server table, the N x N cost matrix and the state record that every
    transition of the router reads and returns. */
module Types {

  /** The C fields are uint16_t / uint32_t; bytes are octets of a datagram. */
  type u16 = x: int | 0 <= x < 0x1_0000
  type u32 = x: int | 0 <= x < 0x1_0000_0000
  type byte = x: int | 0 <= x < 0x100

  /** USHRT_MAX, the cost that means "unreachable". */
  const INF: u16 := 0xFFFF

  /** The next-hop value that means "no next hop". */
  const NO_HOP: int := -1

  datatype Option<T> = None | Some(value: T)

  /** One row of the routing table. `cost` and `nextHop` are this router's
      current route to the server; `skips` counts the periodic intervals in
      which the neighbor stayed silent. */
  datatype Server = Server(
    id: u16,
    ip: u32,
    port: u16,
    cost: u16,
    nextHop: int,
    isNeighbor: bool,
    isAlive: bool,
    skips: nat)

  /** matrix[i][j]: server i+1's advertised cost to server j+1 (row myId-1
      holds this router's own distance vector). */
  type Matrix = seq<seq<u16>>

  datatype State = State(
    servers: seq<Server>,
    matrix: Matrix,
    myId: int,
    pktsReceived: nat)

  predicate IsSquare(m: Matrix, n: nat) {
    |m| == n && forall r | 0 <= r < n :: |m[r]| == n
  }

  /** The shape every transition keeps: N servers, an N x N matrix, ids that
      are 1-based positions (the code indexes by id-1 and compares next hops
      against ids), and a self id inside the table. */
  predicate Valid(s: State) {
    && 0 < |s.servers|
    && IsSquare(s.matrix, |s.servers|)
    && (forall i | 0 <= i < |s.servers| :: s.servers[i].id == i + 1)
    && 1 <= s.myId <= |s.servers|
  }

  /** This router's own distance vector, row myId-1 of the matrix. */
  function OwnRow(s: State): seq<u16>
    requires Valid(s)
  {
    s.matrix[s.myId - 1]
  }

  /** Two rows agree on everything except the route (cost and next hop). */
  predicate SameButRoute(a: Server, b: Server) {
    a == b.(cost := a.cost, nextHop := a.nextHop)
  }

  /** A route that has been poisoned: unreachable, no next hop. */
  function Unreachable(sv: Server): (r: Server)
    ensures r.cost == INF && r.nextHop == NO_HOP && SameButRoute(r, sv)
  {
    sv.(cost := INF, nextHop := NO_HOP)
  }

  /** Writes one cell of a matrix, leaving every other cell as it was. */
  function SetCell(m: Matrix, r: nat, c: nat, v: u16): (m': Matrix)
    requires r < |m| && c < |m[r]|
    ensures |m'| == |m|
    ensures forall i | 0 <= i < |m| :: |m'[i]| == |m[i]|
    ensures forall i, j | 0 <= i < |m| && 0 <= j < |m[i]| ::
      m'[i][j] == if i == r && j == c then v else m[i][j]
  {
    var row: seq<u16> := m[r][c := v];
    m[r := row]
  }

  /** Two square matrices with the same cells are the same matrix. */
  lemma {:induction false} MatrixExt(a: Matrix, b: Matrix, n: nat)
    requires IsSquare(a, n) && IsSquare(b, n)
    requires forall r, c | 0 <= r < n && 0 <= c < n :: a[r][c] == b[r][c]
    ensures a == b
  {
    forall r | 0 <= r < n
      ensures a[r] == b[r]
    {
      assert forall c | 0 <= c < n :: a[r][c] == b[r][c];
    }
  }
}
