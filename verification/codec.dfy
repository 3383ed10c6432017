/** The advertisement datagram: prepare_update_pkt fills a packet from the
    state, serialize_packet lays it out in a zeroed 1000-byte buffer, and
    process_pkt reads a received buffer back and writes the sender's row.

    Layout, every field big-endian (network order):
      0..1   number of entries        2..3  sender port     4..7  sender ip
      then per entry, 12 bytes:
      +0..3  ip   +4..5  port   +6..7  padding (zero)   +8..9  id   +10..11  cost
    and zero bytes up to the end of the buffer. */
module Codec {
  import opened Types

  const BUF_SIZE: nat := 1000
  const HEADER_SIZE: nat := 8
  const ENTRY_SIZE: nat := 12

  /** One entry of a distance vector. The padding field of the C struct is not
      kept: it is always zero on the wire and skipped on reading. */
  datatype Entry = Entry(ip: u32, port: u16, id: u16, cost: u16)

  datatype Packet = Packet(count: u16, senderPort: u16, senderIp: u32, entries: seq<Entry>)

  /** htons / htonl followed by a byte copy. */
  function BE16(v: u16): (b: seq<byte>)
    ensures |b| == 2
  {
    [v / 0x100, v % 0x100]
  }

  function BE32(v: u32): (b: seq<byte>)
    ensures |b| == 4
  {
    [v / 0x100_0000, (v / 0x1_0000) % 0x100, (v / 0x100) % 0x100, v % 0x100]
  }

  /** A byte copy followed by ntohs / ntohl. */
  function Read16(b: seq<byte>, off: nat): u16
    requires off + 2 <= |b|
  {
    (b[off] as int) * 0x100 + b[off + 1] as int
  }

  function Read32(b: seq<byte>, off: nat): u32
    requires off + 4 <= |b|
  {
    (b[off] as int) * 0x100_0000 + (b[off + 1] as int) * 0x1_0000 + (b[off + 2] as int) * 0x100 + b[off + 3] as int
  }

  lemma Read16Is(b: seq<byte>, off: nat, v: u16)
    requires off + 2 <= |b| && b[off] == v / 0x100 && b[off + 1] == v % 0x100
    ensures Read16(b, off) == v
  {
  }

  lemma Read32Is(b: seq<byte>, off: nat, v: u32)
    requires off + 4 <= |b|
    requires b[off] == v / 0x100_0000 && b[off + 1] == (v / 0x1_0000) % 0x100
    requires b[off + 2] == (v / 0x100) % 0x100 && b[off + 3] == v % 0x100
    ensures Read32(b, off) == v
  {
  }

  /** The 12 bytes of one entry; the two padding bytes stay zero. */
  function EncodeEntry(e: Entry): (b: seq<byte>)
    ensures |b| == ENTRY_SIZE
  {
    BE32(e.ip) + BE16(e.port) + [0, 0] + BE16(e.id) + BE16(e.cost)
  }

  function EncodeEntries(es: seq<Entry>): (b: seq<byte>)
    ensures |b| == ENTRY_SIZE * |es|
  {
    if |es| == 0 then [] else EncodeEntry(es[0]) + EncodeEntries(es[1..])
  }

  function Zeros(n: nat): (b: seq<byte>)
    ensures |b| == n && forall i | 0 <= i < n :: b[i] == 0
  {
    seq(n, _ => 0)
  }

  /** serialize_packet: header, the entries in order, zero to the end. */
  function Serialize(p: Packet): (b: seq<byte>)
    requires HEADER_SIZE + ENTRY_SIZE * |p.entries| <= BUF_SIZE
    ensures |b| == BUF_SIZE
  {
    var used := HEADER_SIZE + ENTRY_SIZE * |p.entries|;
    BE16(p.count) + BE16(p.senderPort) + BE32(p.senderIp) + EncodeEntries(p.entries) + Zeros(BUF_SIZE - used)
  }

  /** What process_pkt can read without running off the buffer: the header
      and as many entries as the count field announces. */
  predicate Parsable(b: seq<byte>) {
    |b| == BUF_SIZE && HEADER_SIZE + ENTRY_SIZE * Read16(b, 0) <= BUF_SIZE
  }

  function ParseEntry(b: seq<byte>, off: nat): Entry
    requires off + ENTRY_SIZE <= |b|
  {
    Entry(Read32(b, off), Read16(b, off + 4), Read16(b, off + 8), Read16(b, off + 10))
  }

  function ParseEntries(b: seq<byte>, count: nat): (es: seq<Entry>)
    requires HEADER_SIZE + ENTRY_SIZE * count <= |b|
    ensures |es| == count
  {
    seq(count, i requires 0 <= i < count => ParseEntry(b, HEADER_SIZE + ENTRY_SIZE * i))
  }

  /** The reading half of process_pkt: header, then `count` entries. */
  function Parse(b: seq<byte>): (p: Packet)
    requires Parsable(b)
    ensures |p.entries| == p.count
  {
    Packet(Read16(b, 0), Read16(b, 2), Read32(b, 4), ParseEntries(b, Read16(b, 0)))
  }

  /** Entry i of an encoded sequence sits at byte 12*i. */
  lemma {:induction false} EncodeEntriesAt(es: seq<Entry>, i: nat)
    requires i < |es|
    ensures EncodeEntries(es)[ENTRY_SIZE * i .. ENTRY_SIZE * i + ENTRY_SIZE] == EncodeEntry(es[i])
  {
    if i > 0 {
      EncodeEntriesAt(es[1..], i - 1);
      assert EncodeEntries(es) == EncodeEntry(es[0]) + EncodeEntries(es[1..]);
    }
  }

  /** Reading 12 bytes that are an encoded entry gives the entry back. */
  lemma ParseEncodedEntry(b: seq<byte>, off: nat, e: Entry)
    requires off + ENTRY_SIZE <= |b| && b[off .. off + ENTRY_SIZE] == EncodeEntry(e)
    ensures ParseEntry(b, off) == e
  {
    var E := EncodeEntry(e);
    assert forall k | 0 <= k < ENTRY_SIZE :: b[off + k] == E[k];
    assert E[0] == e.ip / 0x100_0000 && E[1] == (e.ip / 0x1_0000) % 0x100;
    assert E[2] == (e.ip / 0x100) % 0x100 && E[3] == e.ip % 0x100;
    assert E[4] == e.port / 0x100 && E[5] == e.port % 0x100;
    assert E[8] == e.id / 0x100 && E[9] == e.id % 0x100;
    assert E[10] == e.cost / 0x100 && E[11] == e.cost % 0x100;
    Read32Is(b, off, e.ip);
    Read16Is(b, off + 4, e.port);
    Read16Is(b, off + 8, e.id);
    Read16Is(b, off + 10, e.cost);
  }

  /** Round trip of the wire format: a packet whose count field matches its
      entries reads back as itself. */
  lemma SerializeParse(p: Packet)
    requires HEADER_SIZE + ENTRY_SIZE * |p.entries| <= BUF_SIZE
    requires p.count as int == |p.entries|
    ensures Parsable(Serialize(p)) && Parse(Serialize(p)) == p
  {
    var b := Serialize(p);
    var head := BE16(p.count) + BE16(p.senderPort) + BE32(p.senderIp);
    assert b[..HEADER_SIZE] == head;
    assert forall k | 0 <= k < HEADER_SIZE :: b[k] == head[k];
    Read16Is(b, 0, p.count);
    Read16Is(b, 2, p.senderPort);
    Read32Is(b, 4, p.senderIp);
    assert Parsable(b);
    var es := ParseEntries(b, p.count as int);
    forall i | 0 <= i < |p.entries|
      ensures es[i] == p.entries[i]
    {
      var off := HEADER_SIZE + ENTRY_SIZE * i;
      EncodeEntriesAt(p.entries, i);
      assert b[off .. off + ENTRY_SIZE] == EncodeEntries(p.entries)[ENTRY_SIZE * i .. ENTRY_SIZE * i + ENTRY_SIZE];
      ParseEncodedEntry(b, off, p.entries[i]);
    }
  }

  /** prepare_update_pkt: the header names this router, and there is one entry
      per server in table order carrying its address, id and this router's
      current cost to it (its own row of the matrix). */
  function Prepare(s: State): (p: Packet)
    requires Valid(s)
    ensures p.count as int == |s.servers| == |p.entries|
    ensures p.senderIp == s.servers[s.myId - 1].ip && p.senderPort == s.servers[s.myId - 1].port
    ensures forall j | 0 <= j < |s.servers| ::
      p.entries[j] == Entry(s.servers[j].ip, s.servers[j].port, s.servers[j].id, OwnRow(s)[j])
  {
    var me := s.servers[s.myId - 1];
    assert s.servers[|s.servers| - 1].id as int == |s.servers|;
    Packet(|s.servers|, me.port, me.ip,
           seq(|s.servers|, j requires 0 <= j < |s.servers| =>
             Entry(s.servers[j].ip, s.servers[j].port, s.servers[j].id, OwnRow(s)[j])))
  }

  /** A table small enough for its advertisement to fit the 1000-byte buffer. */
  predicate FitsBuffer(s: State) {
    HEADER_SIZE + ENTRY_SIZE * |s.servers| <= BUF_SIZE
  }

  /** The buffer send_update_pkt transmits. Read back field by field it holds
      the table size, this router's port and ip, then for each server j its ip,
      port, zero padding, id j+1 and the cost OwnRow[j]; every byte after the
      last entry is zero. */
  function Encode(s: State): (b: seq<byte>)
    requires Valid(s) && FitsBuffer(s)
    ensures |b| == BUF_SIZE && Parsable(b)
    ensures Read16(b, 0) as int == |s.servers|
    ensures Read16(b, 2) == s.servers[s.myId - 1].port && Read32(b, 4) == s.servers[s.myId - 1].ip
    ensures forall j | 0 <= j < |s.servers| ::
      && Read32(b, HEADER_SIZE + ENTRY_SIZE * j) == s.servers[j].ip
      && Read16(b, HEADER_SIZE + ENTRY_SIZE * j + 4) == s.servers[j].port
      && b[HEADER_SIZE + ENTRY_SIZE * j + 6] == 0 && b[HEADER_SIZE + ENTRY_SIZE * j + 7] == 0
      && Read16(b, HEADER_SIZE + ENTRY_SIZE * j + 8) as int == j + 1
      && Read16(b, HEADER_SIZE + ENTRY_SIZE * j + 10) == OwnRow(s)[j]
    ensures forall i | HEADER_SIZE + ENTRY_SIZE * |s.servers| <= i < BUF_SIZE :: b[i] == 0
  {
    var p := Prepare(s);
    EncodeFacts(p);
    SerializeParse(p);
    Serialize(p)
  }

  /** The padding bytes and the tail of a serialized packet are zero, and the
      parsed entries are the packet's. */
  lemma EncodeFacts(p: Packet)
    requires HEADER_SIZE + ENTRY_SIZE * |p.entries| <= BUF_SIZE
    requires p.count as int == |p.entries|
    ensures forall j | 0 <= j < |p.entries| ::
      Serialize(p)[HEADER_SIZE + ENTRY_SIZE * j + 6] == 0 && Serialize(p)[HEADER_SIZE + ENTRY_SIZE * j + 7] == 0
    ensures forall i | HEADER_SIZE + ENTRY_SIZE * |p.entries| <= i < BUF_SIZE :: Serialize(p)[i] == 0
  {
    var b := Serialize(p);
    var used := HEADER_SIZE + ENTRY_SIZE * |p.entries|;
    var head := BE16(p.count) + BE16(p.senderPort) + BE32(p.senderIp) + EncodeEntries(p.entries);
    assert b == head + Zeros(BUF_SIZE - used);
    forall j | 0 <= j < |p.entries|
      ensures b[HEADER_SIZE + ENTRY_SIZE * j + 6] == 0 && b[HEADER_SIZE + ENTRY_SIZE * j + 7] == 0
    {
      EncodeEntriesAt(p.entries, j);
      var off := HEADER_SIZE + ENTRY_SIZE * j;
      assert b[off .. off + ENTRY_SIZE] == EncodeEntry(p.entries[j]);
      assert EncodeEntry(p.entries[j])[6] == 0 && EncodeEntry(p.entries[j])[7] == 0;
    }
  }

  /** The last server whose ip is `ip` (the lookup loop of process_pkt does not
      stop at the first match), or -1 when none has it. */
  function SenderIndex(servers: seq<Server>, ip: u32): (i: int)
    ensures -1 <= i < |servers|
    ensures i == -1 <==> forall j | 0 <= j < |servers| :: servers[j].ip != ip
    ensures 0 <= i ==> servers[i].ip == ip && forall j | i < j < |servers| :: servers[j].ip != ip
  {
    if |servers| == 0 then -1
    else if servers[|servers| - 1].ip == ip then |servers| - 1
    else SenderIndex(servers[..|servers| - 1], ip)
  }

  /** The cost of the last entry for column c, if any (a later entry for the
      same id overwrites an earlier one). */
  function LastEntryCost(es: seq<Entry>, c: int): (o: Option<u16>)
    ensures o.None? <==> forall k | 0 <= k < |es| :: es[k].id as int - 1 != c
    ensures o.Some? ==> exists k | 0 <= k < |es| ::
      es[k].id as int - 1 == c && es[k].cost == o.value
      && forall k' | k < k' < |es| :: es[k'].id as int - 1 != c
  {
    if |es| == 0 then None
    else if es[|es| - 1].id as int - 1 == c then
      assert es[|es| - 1].id as int - 1 == c;
      Some(es[|es| - 1].cost)
    else
      var front := es[..|es| - 1];
      var o := LastEntryCost(front, c);
      assert forall k | 0 <= k < |front| :: front[k] == es[k];
      assert o.Some? ==> exists k | 0 <= k < |front| ::
        front[k].id as int - 1 == c && front[k].cost == o.value
        && forall k' | k < k' < |front| :: front[k'].id as int - 1 != c;
      o
  }

  lemma LastEntryCostSnoc(es: seq<Entry>)
    requires |es| > 0
    ensures forall c :: (LastEntryCost(es, c) ==
      if es[|es| - 1].id as int - 1 == c then Some(es[|es| - 1].cost) else LastEntryCost(es[..|es| - 1], c))
  {
  }

  predicate IdsIn(es: seq<Entry>, n: nat) {
    forall k | 0 <= k < |es| :: 1 <= es[k].id as int <= n
  }

  /** The writing loop of process_pkt: adj_matrix[row][id-1] := cost, entry
      by entry. Only row `row` changes; a column gets the last entry's cost for
      it and keeps its value when no entry names it. */
  function WriteRow(m: Matrix, n: nat, row: nat, es: seq<Entry>): (m': Matrix)
    requires IsSquare(m, n) && row < n && IdsIn(es, n)
    ensures IsSquare(m', n)
    ensures forall r | 0 <= r < n && r != row :: m'[r] == m[r]
    ensures forall c | 0 <= c < n ::
      m'[row][c] == if LastEntryCost(es, c).Some? then LastEntryCost(es, c).value else m[row][c]
    decreases |es|
  {
    if |es| == 0 then m
    else
      var front := es[..|es| - 1];
      assert forall k | 0 <= k < |front| :: front[k] == es[k];
      var e := es[|es| - 1];
      LastEntryCostSnoc(es);
      var w := WriteRow(m, n, row, front);
      var row': seq<u16> := w[row][e.id as int - 1 := e.cost];
      w[row := row']
  }

  /** What process_pkt needs to stay in bounds: a readable buffer whose sender
      ip is in the table and whose ids are all 1..N. */
  predicate Processable(s: State, b: seq<byte>) {
    && Valid(s)
    && Parsable(b)
    && SenderIndex(s.servers, Parse(b).senderIp) >= 0
    && IdsIn(Parse(b).entries, |s.servers|)
  }

  /** The sender's id: the id of the last server whose ip is the header's. */
  function SenderOf(s: State, b: seq<byte>): (id: int)
    requires Processable(s, b)
    ensures 1 <= id <= |s.servers|
    ensures s.servers[id - 1].ip == Parse(b).senderIp
    ensures forall j | id <= j < |s.servers| :: s.servers[j].ip != Parse(b).senderIp
  {
    s.servers[SenderIndex(s.servers, Parse(b).senderIp)].id as int
  }

  /** process_pkt: row sender-1 of the matrix is overwritten by the entries;
      the table, the counter and every other row are untouched. */
  function ProcessPkt(s: State, b: seq<byte>): (r: State)
    requires Processable(s, b)
    ensures Valid(r)
    ensures r.servers == s.servers && r.myId == s.myId && r.pktsReceived == s.pktsReceived
    ensures forall i | 0 <= i < |s.servers| && i != SenderOf(s, b) - 1 :: r.matrix[i] == s.matrix[i]
    ensures forall c | 0 <= c < |s.servers| ::
      r.matrix[SenderOf(s, b) - 1][c] ==
        match LastEntryCost(Parse(b).entries, c)
        case Some(v) => v
        case None => s.matrix[SenderOf(s, b) - 1][c]
  {
    s.(matrix := WriteRow(s.matrix, |s.servers|, SenderOf(s, b) - 1, Parse(b).entries))
  }

  /** Decoding the same buffer twice leaves what decoding it once left. */
  lemma ProcessPktIdempotent(s: State, b: seq<byte>)
    requires Processable(s, b)
    ensures Processable(ProcessPkt(s, b), b)
    ensures ProcessPkt(ProcessPkt(s, b), b) == ProcessPkt(s, b)
  {
    var s1 := ProcessPkt(s, b);
    var s2 := ProcessPkt(s1, b);
    var n := |s.servers|;
    var row := SenderOf(s, b) - 1;
    assert SenderOf(s1, b) - 1 == row;
    forall r, c | 0 <= r < n && 0 <= c < n
      ensures s2.matrix[r][c] == s1.matrix[r][c]
    {
      if r != row {
        assert s2.matrix[r] == s1.matrix[r];
      } else {
        assert s2.matrix[row][c] == s1.matrix[row][c];
      }
    }
    MatrixExt(s2.matrix, s1.matrix, n);
  }

  /** The receiver lists the same ips in the same order (process_pkt reads
      no port), and no server after the sender shares its ip. */
  predicate SameTable(sender: State, receiver: State) {
    && Valid(sender) && Valid(receiver)
    && |sender.servers| == |receiver.servers|
    && (forall j | 0 <= j < |sender.servers| ::
          receiver.servers[j].ip == sender.servers[j].ip)
    && (forall j | sender.myId <= j < |receiver.servers| ::
          receiver.servers[j].ip != sender.servers[sender.myId - 1].ip)
  }

  /** With ids that are 1-based positions, column c is named by entry c alone. */
  lemma PositionalEntryCost(es: seq<Entry>, c: int)
    requires forall k | 0 <= k < |es| :: es[k].id as int == k + 1
    requires 0 <= c < |es|
    ensures LastEntryCost(es, c) == Some(es[c].cost)
  {
    assert es[c].id as int - 1 == c;
  }

  /** The receiver finds the sender's ip at the sender's own position. */
  lemma SenderFound(sender: State, receiver: State)
    requires SameTable(sender, receiver)
    ensures SenderIndex(receiver.servers, sender.servers[sender.myId - 1].ip) == sender.myId - 1
  {
    var ip := sender.servers[sender.myId - 1].ip;
    assert receiver.servers[sender.myId - 1].ip == ip;
  }

  /** A matrix that differs from `m` only in row `row`, where it holds `v`. */
  lemma RowReplaced(m: Matrix, m': Matrix, n: nat, row: nat, v: seq<u16>)
    requires IsSquare(m, n) && IsSquare(m', n) && row < n && |v| == n
    requires forall i | 0 <= i < n && i != row :: m'[i] == m[i]
    requires forall c | 0 <= c < n :: m'[row][c] == v[c]
    ensures m' == m[row := v]
  {
    assert m'[row] == v;
  }

  /** End to end: a router with the same table that processes this router's
      advertisement identifies this router as the sender and ends up holding
      this router's own row as row myId-1, every other row unchanged. */
  lemma AdvertisementRoundTrip(sender: State, receiver: State)
    requires SameTable(sender, receiver) && FitsBuffer(sender)
    ensures Processable(receiver, Encode(sender))
    ensures SenderOf(receiver, Encode(sender)) == sender.myId
    ensures ProcessPkt(receiver, Encode(sender)) ==
      receiver.(matrix := receiver.matrix[sender.myId - 1 := OwnRow(sender)])
  {
    SerializeParse(Prepare(sender));
    ReceivePrepared(sender, receiver, Encode(sender));
  }

  /** Processing any buffer that parses to this router's prepared packet. */
  lemma ReceivePrepared(sender: State, receiver: State, b: seq<byte>)
    requires SameTable(sender, receiver) && Parsable(b) && Parse(b) == Prepare(sender)
    ensures Processable(receiver, b)
    ensures SenderOf(receiver, b) == sender.myId
    ensures ProcessPkt(receiver, b) == receiver.(matrix := receiver.matrix[sender.myId - 1 := OwnRow(sender)])
  {
    PreparedSender(sender, receiver, b);
    PreparedRow(sender, receiver, b);
    InstallsRow(receiver, b, sender.myId, OwnRow(sender));
  }

  /** A packet whose decoded row for its sender is `v` leaves the state with
      row id-1 replaced by `v` and nothing else changed. */
  lemma InstallsRow(s: State, b: seq<byte>, id: int, v: seq<u16>)
    requires Processable(s, b) && SenderOf(s, b) == id && |v| == |s.servers|
    requires forall c | 0 <= c < |s.servers| :: ProcessPkt(s, b).matrix[id - 1][c] == v[c]
    ensures ProcessPkt(s, b) == s.(matrix := s.matrix[id - 1 := v])
  {
    var r := ProcessPkt(s, b);
    RowReplaced(s.matrix, r.matrix, |s.servers|, id - 1, v);
  }

  /** The prepared packet is processable at the receiver, which finds its
      sender at the sender's own position. */
  lemma PreparedSender(sender: State, receiver: State, b: seq<byte>)
    requires SameTable(sender, receiver) && Parsable(b) && Parse(b) == Prepare(sender)
    ensures Processable(receiver, b) && SenderOf(receiver, b) == sender.myId
  {
    var p := Prepare(sender);
    assert forall k | 0 <= k < |p.entries| :: p.entries[k].id as int == k + 1;
    SenderFound(sender, receiver);
  }

  /** The sender's row, as the receiver writes it, is the sender's own row. */
  lemma PreparedRow(sender: State, receiver: State, b: seq<byte>)
    requires SameTable(sender, receiver) && Parsable(b) && Parse(b) == Prepare(sender)
    requires Processable(receiver, b) && SenderOf(receiver, b) == sender.myId
    ensures forall c | 0 <= c < |receiver.servers| ::
      ProcessPkt(receiver, b).matrix[sender.myId - 1][c] == OwnRow(sender)[c]
  {
    var p := Prepare(sender);
    assert forall k | 0 <= k < |p.entries| :: p.entries[k].id as int == k + 1;
    forall c | 0 <= c < |receiver.servers|
      ensures ProcessPkt(receiver, b).matrix[sender.myId - 1][c] == OwnRow(sender)[c]
    {
      PositionalEntryCost(p.entries, c);
    }
  }
}
