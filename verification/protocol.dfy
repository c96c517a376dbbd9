/** `PalProtocol`: the connection state of the Palringo engine -- the frame
    decoder that turns received bytes into packets, the message counter
    that stamps outgoing packets, the outbox drained once per tick, the
    ping counter, the MESG fragmenter and reassembler, and the dispatch of
    received packets to their handlers.

    Every transport write is recorded as the packet written, in order, in
    `wire` (its bytes are `ToData` of it). Calls into the delegate become
    `Event`s, returned in the order the source makes them; a connection
    without a delegate produces none.
 */
module Protocol {
  import opened Common
  import opened Text
  import opened Headers
  import opened PalPacket
  import opened Reassembly
  import opened Profile
  import opened WeirdData

  /** A call the engine makes on its delegate. */
  datatype Event =
    | OnProtocolConnected
    | OnAuth(packet: Packet)
    | OnBalanceQueryResult(packet: Packet)
    | OnGroupAdmin(packet: Packet)
    | OnLogonFailed(packet: Packet)
    | OnMesg(packet: Packet)
    | OnGroupMesg(mesg: Mesg)
    | OnPrivateMesg(mesg: Mesg)
    | OnSubProfile(headers: Headers, kvMap: Tree)
    | OnResponse(rtype: Option<string>, what: Option<string>, mesgId: Option<string>, packet: Packet)

  datatype Conn = Conn(
    login: string,
    password: string,
    hasDelegate: bool,
    pending: Option<Packet>,  // `self.packet`: a packet waiting for the rest of its payload
    clen: int,                // `self.clen`: the content-length it waits for
    mesg: Option<Mesg>,       // `self.mesg`: the message being reassembled
    mesgId: nat,              // `self.mesgId`: the next message id
    pings: nat,               // `self.pings`: pings answered
    outbox: seq<Packet>,
    wire: seq<Packet>,        // packets written to the transport, oldest first
    host: Option<string>      // the factory's host
  )

  /** A connection's result and the delegate calls it made. */
  datatype Step = Step(conn: Conn, events: seq<Event>)

  /** The foreign functions the handlers call. */
  datatype Foreign = Foreign(
    md5: string -> string,
    salsa20: (string, string, string) -> string,
    inflate: string -> Option<string>
  )

  /** Every packet the connection holds has a header dict, and the message
      being reassembled has one chunk per key. */
  predicate Inv(c: Conn) {
    && (c.pending.Some? ==> PalPacket.Valid(c.pending.value))
    && (forall i :: 0 <= i < |c.outbox| ==> PalPacket.Valid(c.outbox[i]))
    && (c.mesg.Some? ==> Reassembly.Valid(c.mesg.value))
  }

  /** `PalProtocol(factory, login, password, delegate)`. The counters exist
      only once `connectionMade` runs; they start here at the values it
      gives them. */
  function New(login: string, password: string, hasDelegate: bool, host: Option<string>): (r: Conn)
    ensures Inv(r) && r.pending.None? && r.mesg.None? && r.outbox == [] && r.wire == []
  {
    Conn(login, password, hasDelegate, None, 0, None, 1, 0, [], [], host)
  }

  // ---------------------------------------------------------------------------
  // Sending
  // ---------------------------------------------------------------------------

  /** `packet.setValueI('mesg-id', id)` */
  function Stamp(p: Packet, id: nat): (r: Packet)
    requires PalPacket.Valid(p)
    ensures PalPacket.Valid(r)
    ensures r.command == p.command && r.payload == p.payload
    ensures r.compressed == p.compressed && r.needsMid == p.needsMid
    ensures GetValueI(r.headers, "mesg-id") == Some(Decimal(id))
    ensures forall k :: !EqualI(k, "mesg-id") ==> GetValueI(r.headers, k) == GetValueI(p.headers, k)
  {
    SetValueIFrame(p.headers, "mesg-id", Decimal(id));
    p.(headers := SetValueI(p.headers, "mesg-id", Decimal(id)))
  }

  /** `sendPacket`: a packet that needs a message id gets the counter's
      value as its `mesg-id`, the counter moves on and the id is returned;
      any other packet is written as it is and `None` is returned. */
  function SendPacket(c: Conn, p: Packet): (r: (Conn, Option<nat>))
    requires PalPacket.Valid(p)
    ensures r.0 == c.(mesgId := r.0.mesgId, wire := r.0.wire)
    ensures |r.0.wire| == |c.wire| + 1 && r.0.wire[..|c.wire|] == c.wire
    ensures r.1.Some? <==> p.needsMid
    ensures p.needsMid ==>
      && r.1 == Some(c.mesgId) && r.0.mesgId == c.mesgId + 1
      && r.0.wire[|c.wire|] == Stamp(p, c.mesgId)
    ensures !p.needsMid ==> r.0.mesgId == c.mesgId && r.0.wire[|c.wire|] == p
  {
    if p.needsMid then
      (c.(mesgId := c.mesgId + 1, wire := c.wire + [Stamp(p, c.mesgId)]), Some(c.mesgId))
    else
      (c.(wire := c.wire + [p]), None)
  }

  /** Two packets that need ids, sent one after the other, carry the
      counter's value and the next as their `mesg-id`s, which differ. */
  lemma {:induction false} SendPacketFreshIds(c: Conn, p: Packet, q: Packet)
    requires PalPacket.Valid(p) && PalPacket.Valid(q) && p.needsMid && q.needsMid
    ensures var r1 := SendPacket(c, p);
      var r2 := SendPacket(r1.0, q);
      && r1.1 == Some(c.mesgId) && r2.1 == Some(c.mesgId + 1)
      && GetValueI(r2.0.wire[|c.wire|].headers, "mesg-id") == Some(Decimal(c.mesgId))
      && GetValueI(r2.0.wire[|c.wire| + 1].headers, "mesg-id") == Some(Decimal(c.mesgId + 1))
      && Decimal(c.mesgId) != Decimal(c.mesgId + 1)
  {
    SendTwice(c, p, q);
    DecimalSuccessor(c.mesgId);
  }

  /** Helper: one id-needing send, as a state change. */
  lemma {:induction false} SendStep(c: Conn, p: Packet)
    requires PalPacket.Valid(p) && p.needsMid
    ensures SendPacket(c, p).0.wire == c.wire + [Stamp(p, c.mesgId)]
    ensures SendPacket(c, p).0.mesgId == c.mesgId + 1
    ensures SendPacket(c, p).1 == Some(c.mesgId)
  {
  }

  /** Helper: the wire after two id-needing sends ends in the two stamped packets. */
  lemma {:induction false} SendTwice(c: Conn, p: Packet, q: Packet)
    requires PalPacket.Valid(p) && PalPacket.Valid(q) && p.needsMid && q.needsMid
    ensures var r1 := SendPacket(c, p);
      var r2 := SendPacket(r1.0, q);
      && r1.1 == Some(c.mesgId) && r2.1 == Some(c.mesgId + 1)
      && r2.0.wire[|c.wire|] == Stamp(p, c.mesgId)
      && r2.0.wire[|c.wire| + 1] == Stamp(q, c.mesgId + 1)
  {
    var c1 := SendPacket(c, p).0;
    SendStep(c, p);
    SendStep(c1, q);
    var w := c.wire;
    var a := Stamp(p, c.mesgId);
    var b := Stamp(q, c.mesgId + 1);
    assert SendPacket(c1, q).0.wire == w + [a] + [b];
  }

  /** `sendFromOutbox`, run once per tick: write and drop the oldest queued
      packet; nothing when the outbox is empty. */
  function SendFromOutbox(c: Conn): (r: Conn)
    requires Inv(c)
    ensures Inv(r)
    ensures c.outbox == [] ==> r == c
    ensures c.outbox != [] ==>
      && r.outbox == c.outbox[1..]
      && r == c.(outbox := r.outbox, mesgId := r.mesgId, wire := r.wire)
      && r.wire == c.wire + [if c.outbox[0].needsMid then Stamp(c.outbox[0], c.mesgId) else c.outbox[0]]
  {
    if c.outbox == [] then c
    else
      var (c1, _) := SendPacket(c, c.outbox[0]);
      assert c1.wire == c.wire + [c1.wire[|c.wire|]];
      c1.(outbox := c.outbox[1..])
  }

  /** Ticks that need no ids write the queued packets in the order they
      were queued. */
  lemma {:induction false} DrainOutbox(c: Conn, n: nat)
    requires Inv(c) && n <= |c.outbox|
    requires forall i :: 0 <= i < n ==> !c.outbox[i].needsMid
    ensures Inv(Ticks(c, n))
    ensures Ticks(c, n).wire == c.wire + c.outbox[..n]
    ensures Ticks(c, n).outbox == c.outbox[n..]
    decreases n
  {
    if n > 0 {
      var c1 := SendFromOutbox(c);
      TickPlain(c, n);
      DrainOutbox(c1, n - 1);
      QueueSplit(c.wire, c.outbox, n);
    }
  }

  /** One tick whose packet needs no id writes it as it is. */
  lemma {:induction false} TickPlain(c: Conn, n: nat)
    requires Inv(c) && 0 < n <= |c.outbox|
    requires forall i :: 0 <= i < n ==> !c.outbox[i].needsMid
    ensures var c1 := SendFromOutbox(c);
      && Inv(c1) && Ticks(c, n) == Ticks(c1, n - 1)
      && c1.wire == c.wire + [c.outbox[0]] && c1.outbox == c.outbox[1..]
      && n - 1 <= |c1.outbox|
      && (forall i :: 0 <= i < n - 1 ==> !c1.outbox[i].needsMid)
  { }

  /** Writing the head, then the next `n - 1`, writes the first `n`. */
  lemma {:induction false} QueueSplit(w: seq<Packet>, q: seq<Packet>, n: nat)
    requires 0 < n <= |q|
    ensures (w + [q[0]]) + q[1..][..n - 1] == w + q[..n]
    ensures q[1..][n - 1..] == q[n..]
  {
    assert q[..n] == [q[0]] + q[1..][..n - 1];
  }

  /** `n` runs of the outbox tick. */
  function Ticks(c: Conn, n: nat): (r: Conn)
    requires Inv(c)
    ensures Inv(r)
    decreases n
  {
    if n == 0 then c else Ticks(SendFromOutbox(c), n - 1)
  }

  /** `connectionMade`: send LOGON (with the delegate's redirect count),
      restart both counters, tell the delegate. */
  function ConnectionMade(c: Conn, redirectCount: int): (r: Step)
    ensures r.conn.pings == 0 && r.conn.mesgId == 1
    ensures r.conn.wire == c.wire + [Logon(c.login, if c.hasDelegate then redirectCount else 0)]
    ensures r.conn == c.(pings := 0, mesgId := 1, wire := r.conn.wire)
    ensures r.events == if c.hasDelegate then [OnProtocolConnected] else []
  {
    var (c1, _) := SendPacket(c, Logon(c.login, if c.hasDelegate then redirectCount else 0));
    assert c1.wire == c.wire + [c1.wire[|c.wire|]];
    Step(c1.(pings := 0, mesgId := 1), if c.hasDelegate then [OnProtocolConnected] else [])
  }

  /** `doPing`: answer with the number of pings answered so far. */
  function DoPing(c: Conn): (r: Conn)
    ensures r == c.(pings := c.pings + 1, wire := r.wire)
    ensures r.wire == c.wire + [Ping(c.pings)]
    ensures GetValueI(r.wire[|c.wire|].headers, "ps") == Some(Decimal(c.pings))
  {
    var (c1, _) := SendPacket(c, Ping(c.pings));
    assert c1.wire == c.wire + [c1.wire[|c.wire|]];
    c1.(pings := c.pings + 1)
  }

  /** Successive pings count 0, 1, 2, ... from `connectionMade`. */
  lemma {:induction false} PingsCount(c: Conn)
    ensures var c2 := DoPing(DoPing(c));
      && GetValueI(c2.wire[|c.wire|].headers, "ps") == Some(Decimal(c.pings))
      && GetValueI(c2.wire[|c.wire| + 1].headers, "ps") == Some(Decimal(c.pings + 1))
      && c2.pings == c.pings + 2
  {
    var c1 := DoPing(c);
    var c2 := DoPing(c1);
    assert c2.wire[|c.wire|] == c1.wire[|c.wire|];
  }

  // ---------------------------------------------------------------------------
  // Fragmenting: `sendMesg`
  // ---------------------------------------------------------------------------

  const FragmentSize: nat := 512

  /** A payload of `n` bytes goes out in `n / 512 + 1` fragments: the loop
      stops once the offset passes the end, so a payload whose length is a
      multiple of 512 ends with an empty fragment. */
  function FragmentCount(n: nat): nat {
    n / FragmentSize + 1
  }

  /** Where fragment `k` starts and ends in the payload. */
  function FragmentStart(k: nat): nat {
    FragmentSize * k
  }

  function FragmentEnd(n: nat, k: nat): (r: nat)
    ensures r <= n
  {
    if FragmentStart(k) + FragmentSize <= n then FragmentStart(k) + FragmentSize else n
  }

  lemma {:induction false} FragmentBounds(n: nat, k: nat)
    requires k < FragmentCount(n)
    ensures FragmentStart(k) <= FragmentEnd(n, k) <= n
    ensures FragmentEnd(n, k) - FragmentStart(k) <= FragmentSize
    ensures k + 1 < FragmentCount(n) ==> FragmentEnd(n, k) == FragmentStart(k + 1)
    ensures k + 1 == FragmentCount(n) <==> FragmentStart(k) + FragmentSize > n
  {
  }

  /** Fragment `k` of `sendMesg(target, to, payload, mime)` when the counter
      stood at `first`: its `Mesg-Id` is `first + k`, its `Correlation-Id`
      the previous fragment's id, and only the last one says `Last`. */
  function Fragment(target: string, to: string, payload: string, mime: Option<string>,
                    first: nat, k: nat): (r: Packet)
    requires k < FragmentCount(|payload|)
    ensures PalPacket.Valid(r) && r.command == "MESG" && !r.needsMid && !r.compressed
    ensures FragmentStart(k) <= FragmentEnd(|payload|, k) <= |payload|
    ensures r.payload == payload[FragmentStart(k)..FragmentEnd(|payload|, k)]
    ensures |r.payload| <= FragmentSize
    ensures GetValueI(r.headers, "Mesg-Id") == Some(Decimal(first + k))
    ensures GetValueI(r.headers, "Correlation-Id") == if k == 0 then None else Some(Decimal(first + k - 1))
    ensures HasKeyI(r.headers, "Last") <==> k == FragmentCount(|payload|) - 1
    ensures GetValueI(r.headers, "Target-Id") == Some(to)
    ensures GetValueI(r.headers, "Mesg-Target") == Some(target)
  {
    var n := |payload|;
    FragmentBounds(n, k);
    var corr := if k == 0 then None else Some(Decimal(first + k - 1));
    var last := k == FragmentCount(n) - 1;
    var m := Message(target, to, payload[FragmentStart(k)..FragmentEnd(n, k)], mime, corr, last);
    var id := ("Mesg-Id", Decimal(first + k));
    LookupAppend(m.headers, id, "Correlation-Id");
    LookupAppend(m.headers, id, "Last");
    LookupAppend(m.headers, id, "Target-Id");
    LookupAppend(m.headers, id, "Mesg-Target");
    assert SetValueI(m.headers, "Mesg-Id", Decimal(first + k)) == m.headers + [id];
    m.(headers := m.headers + [id])
  }

  /** `[f(0), ..., f(m - 1)]` */
  function Tabulate(f: nat --> Packet, m: nat): (r: seq<Packet>)
    requires forall i: nat :: i < m ==> f.requires(i)
    ensures |r| == m
  {
    if m == 0 then [] else Tabulate(f, m - 1) + [f(m - 1)]
  }

  lemma {:induction false} TabulateIndex(f: nat --> Packet, m: nat, k: nat)
    requires forall i: nat :: i < m ==> f.requires(i)
    requires k < m
    ensures Tabulate(f, m)[k] == f(k)
    decreases m
  {
    if k < m - 1 {
      TabulateIndex(f, m - 1, k);
    }
  }

  /** Fragment number `k`, as a function of `k`. */
  function FragmentOf(target: string, to: string, payload: string, mime: Option<string>,
                      first: nat): (f: nat --> Packet)
    ensures forall k: nat :: k < FragmentCount(|payload|) ==> f.requires(k)
  {
    (k: nat) requires k < FragmentCount(|payload|) => Fragment(target, to, payload, mime, first, k)
  }

  /** All fragments of a payload, in the order they are queued. */
  function Fragments(target: string, to: string, payload: string, mime: Option<string>,
                     first: nat): (r: seq<Packet>)
    ensures |r| == FragmentCount(|payload|)
  {
    Tabulate(FragmentOf(target, to, payload, mime, first), FragmentCount(|payload|))
  }

  /** Fragment `k` of the sequence is `Fragment(..., k)`. */
  lemma {:induction false} FragmentsIndex(target: string, to: string, payload: string, mime: Option<string>,
                       first: nat, k: nat)
    requires k < FragmentCount(|payload|)
    ensures Fragments(target, to, payload, mime, first)[k] == Fragment(target, to, payload, mime, first, k)
  {
    TabulateIndex(FragmentOf(target, to, payload, mime, first), FragmentCount(|payload|), k);
  }

  /** The payloads of a packet sequence, concatenated. */
  function Payloads(ps: seq<Packet>): string {
    if ps == [] then "" else Payloads(ps[..|ps| - 1]) + ps[|ps| - 1].payload
  }

  /** The fragments' payloads put back together give the payload. */
  lemma {:induction false} FragmentsJoin(target: string, to: string, payload: string, mime: Option<string>, first: nat)
    ensures Payloads(Fragments(target, to, payload, mime, first)) == payload
  {
    var fs := Fragments(target, to, payload, mime, first);
    var n := |payload|;
    forall i | 0 <= i < |fs|
      ensures FragmentStart(i) <= FragmentEnd(n, i)
      ensures fs[i].payload == payload[FragmentStart(i)..FragmentEnd(n, i)]
    {
      FragmentBounds(n, i);
      FragmentsIndex(target, to, payload, mime, first, i);
    }
    PiecesJoin(fs, payload);
  }

  /** One packet per 512-byte piece, in order, carries the whole payload. */
  lemma {:induction false} PiecesJoin(ps: seq<Packet>, payload: string)
    requires |ps| == FragmentCount(|payload|)
    requires forall i :: 0 <= i < |ps| ==> FragmentStart(i) <= FragmentEnd(|payload|, i)
    requires forall i :: 0 <= i < |ps| ==> ps[i].payload == payload[FragmentStart(i)..FragmentEnd(|payload|, i)]
    ensures Payloads(ps) == payload
  {
    var n := |payload|;
    PiecesPrefix(ps, payload, |ps|);
    assert ps[..|ps|] == ps;
    FragmentBounds(n, |ps| - 1);
    assert payload[..n] == payload;
  }

  /** Packets carrying the consecutive 512-byte pieces of `payload` carry,
      together, its first bytes. */
  lemma {:induction false} PiecesPrefix(ps: seq<Packet>, payload: string, k: nat)
    requires 0 < k <= |ps| <= FragmentCount(|payload|)
    requires forall i :: 0 <= i < |ps| ==> FragmentStart(i) <= FragmentEnd(|payload|, i)
    requires forall i :: 0 <= i < |ps| ==> ps[i].payload == payload[FragmentStart(i)..FragmentEnd(|payload|, i)]
    ensures Payloads(ps[..k]) == payload[..FragmentEnd(|payload|, k - 1)]
    decreases k
  {
    var n := |payload|;
    assert ps[..k][..k - 1] == ps[..k - 1];
    assert ps[..k][k - 1] == ps[k - 1];
    if k == 1 {
      assert ps[..0] == [];
      assert Payloads(ps[..0]) == "";
    } else {
      PiecesPrefix(ps, payload, k - 1);
      FragmentBounds(n, k - 2);
      assert payload[..FragmentEnd(n, k - 1)]
        == payload[..FragmentEnd(n, k - 2)] + payload[FragmentStart(k - 1)..FragmentEnd(n, k - 1)];
    }
  }

  /** One more fragment queued behind the first `k`. */
  lemma {:induction false} TabulateStep(f: nat --> Packet, k: nat, before: seq<Packet>, outbox: seq<Packet>, p: Packet)
    requires forall i: nat :: i <= k ==> f.requires(i)
    requires outbox == before + Tabulate(f, k) && p == f(k)
    ensures outbox + [p] == before + Tabulate(f, k + 1)
  {
    assert Tabulate(f, k + 1) == Tabulate(f, k) + [p];
  }

  /** The last fragment carries the id `sendMesg` returns. */
  lemma {:induction false} LastFragmentId(target: string, to: string, payload: string, mime: Option<string>, first: nat, k: nat)
    requires k + 1 == FragmentCount(|payload|)
    ensures GetValueI(Fragments(target, to, payload, mime, first)[k].headers, "Mesg-Id") == Some(Decimal(first + k))
    ensures HasKeyI(Fragments(target, to, payload, mime, first)[k].headers, "Last")
  {
    FragmentsIndex(target, to, payload, mime, first, k);
  }

  /** The loop of `sendMesg` over a payload of `n` bytes: step the offset
      by 512 until it passes the end, queueing `fragment(k)` on round `k`. */
  method QueueFragments(outbox0: seq<Packet>, n: nat, fragment: nat --> Packet)
    returns (outbox: seq<Packet>, count: nat)
    requires forall i: nat :: i < FragmentCount(n) ==> fragment.requires(i)
    ensures count == FragmentCount(n)
    ensures outbox == outbox0 + Tabulate(fragment, count)
  {
    var ofs := 0;
    var last := false;
    count := 0;
    outbox := outbox0;
    while !last
      invariant 0 <= count <= FragmentCount(n)
      invariant ofs == FragmentStart(count)
      invariant last <==> count == FragmentCount(n)
      invariant outbox == outbox0 + Tabulate(fragment, count)
      decreases FragmentCount(n) - count
    {
      FragmentBounds(n, count);
      var p := fragment(count);
      TabulateStep(fragment, count, outbox0, outbox, p);
      ofs := ofs + FragmentSize;
      last := ofs > n;
      outbox := outbox + [p];
      count := count + 1;
    }
  }

  /** `sendMesg(target, to, payload, mime)`: queue the payload in 512-byte
      fragments chained by their ids and return the last fragment's id. */
  method SendMesg(c: Conn, target: string, to: string, payload: string, mime: Option<string>)
    returns (r: Conn, lastId: nat)
    ensures r == c.(outbox := r.outbox, mesgId := r.mesgId)
    ensures r.outbox == c.outbox + Fragments(target, to, payload, mime, c.mesgId)
    ensures r.mesgId == c.mesgId + FragmentCount(|payload|)
    ensures lastId + 1 == r.mesgId
  {
    var outbox, count := QueueFragments(c.outbox, |payload|, FragmentOf(target, to, payload, mime, c.mesgId));
    r := c.(outbox := outbox, mesgId := c.mesgId + count);
    lastId := c.mesgId + (count - 1);
  }

  // ---------------------------------------------------------------------------
  // Frame decoding: `parseData`
  // ---------------------------------------------------------------------------

  /** `int(s)` on a header value: ValueError unless it is integer text
      (`IntText`), whose value it returns. */
  function Int(s: string): (r: Result<int>)
    ensures r.Ok? <==> exists n :: IntText(s, n)
    ensures r.Ok? ==> IntText(s, r.value)
    ensures r.Err? ==> r.fault == ValueError
  {
    ParseIntSound(s);
    ParseIntRejects(s);
    match ParseInt(s)
    case Some(n) => Ok(n)
    case None => Err(ValueError)
  }

  /** `parseData(data)`: with no packet waiting, parse `data`; a packet
      whose `content-length` is missing or matches its payload is complete,
      any other one waits for the rest of its payload. A waiting packet
      takes `data` as more payload and is complete once it holds
      `content-length` bytes, cut to that length. ValueError when the
      `content-length` is not an integer. */
  function ParseData(c: Conn, data: string): (r: Result<(Conn, Option<Packet>)>)
    requires Inv(c)
    ensures r.Ok? ==> Inv(r.value.0)
    ensures r.Ok? ==> r.value.0 == c.(pending := r.value.0.pending, clen := r.value.0.clen)
    ensures r.Ok? && r.value.1.Some? ==> r.value.0.pending.None? && PalPacket.Valid(r.value.1.value)
    ensures c.pending.Some? ==> r.Ok?
    ensures c.pending.Some? && |c.pending.value.payload + data| >= c.clen ==>
      var p := c.pending.value;
      && r.value.0.pending.None? && r.value.0.clen == 0 && r.value.1.Some?
      && r.value.1.value.command == p.command && r.value.1.value.headers == p.headers
      && r.value.1.value.compressed == p.compressed && r.value.1.value.needsMid == p.needsMid
      && r.value.1.value.payload == SliceTo(p.payload + data, c.clen)
    ensures c.pending.Some? && |c.pending.value.payload + data| < c.clen ==>
      && r.value.1.None? && r.value.0.clen == c.clen
      && r.value.0.pending == Some(c.pending.value.(payload := c.pending.value.payload + data))
    ensures c.pending.None? && Parse(data).None? ==> r == Ok((c, None))
    ensures c.pending.None? && Parse(data).Some? ==>
      var p := Parse(data).value;
      match GetValueI(p.headers, "content-length")
      case None => r == Ok((c, Some(p)))
      case Some(l) =>
        && (r.Ok? <==> ParseInt(l).Some?)
        && (r.Ok? && |p.payload| == ParseInt(l).value ==> r.value == (c, Some(p)))
        && (r.Ok? && |p.payload| != ParseInt(l).value ==>
              r.value == (c.(pending := Some(p), clen := ParseInt(l).value), None))
  {
    if c.pending.None? then
      match Parse(data)
      case None => Ok((c, None))
      case Some(p) =>
        match GetValueI(p.headers, "content-length")
        case None => Ok((c, Some(p)))
        case Some(l) =>
          var n :- Int(l);
          if |p.payload| == n then Ok((c, Some(p)))
          else Ok((c.(pending := Some(p), clen := n), None))
    else
      var p := c.pending.value;
      var payload := p.payload + data;
      if |payload| >= c.clen then
        Ok((c.(pending := None, clen := 0), Some(p.(payload := SliceTo(payload, c.clen)))))
      else
        Ok((c.(pending := Some(p.(payload := payload))), None))
  }

  /** A packet whose payload arrives in two reads: the header read leaves it
      waiting, and the read that reaches `content-length` bytes completes it
      with exactly that many bytes, leaving the decoder idle again. */
  lemma {:induction false} SplitFrame(c: Conn, head: string, rest: string, l: string, n: int)
    requires Inv(c) && c.pending.None? && c.clen == 0
    requires Parse(head).Some?
    requires GetValueI(Parse(head).value.headers, "content-length") == Some(l) && ParseInt(l) == Some(n)
    requires |Parse(head).value.payload| < n <= |Parse(head).value.payload| + |rest|
    ensures var p := Parse(head).value;
      && ParseData(c, head) == Ok((c.(pending := Some(p), clen := n), None))
      && ParseData(c.(pending := Some(p), clen := n), rest)
         == Ok((c, Some(p.(payload := (p.payload + rest)[..n]))))
  {
  }

  /** A waiting packet keeps every byte of a read that does not complete
      it, so reads can be split anywhere. */
  lemma {:induction false} SplitRead(c: Conn, a: string, b: string)
    requires Inv(c) && c.pending.Some?
    requires |c.pending.value.payload + a| < c.clen
    ensures var c1 := ParseData(c, a).value.0;
      && ParseData(c, a) == Ok((c1, None))
      && ParseData(c1, b) == ParseData(c, a + b)
  {
    var p := c.pending.value;
    assert p.payload + a + b == p.payload + (a + b);
  }

  // ---------------------------------------------------------------------------
  // Reassembly: `doMesg`
  // ---------------------------------------------------------------------------

  /** How `doMesg` reads `total-length`: a missing or non-integer value
      counts as absent (`int()` failing is caught), an empty one is kept as
      it is, anything else is the integer. */
  datatype TotalLength = Absent | Empty | Total(n: int)

  function TotalLengthOf(p: Packet): TotalLength
  {
    match GetValueI(p.headers, "total-length")
    case None => Absent
    case Some(v) =>
      if v == "" then Empty
      else match ParseInt(v)
        case Some(n) => Total(n)
        case None => Absent
  }

  /** The chunk a packet adds to the message in flight. */
  function ChunkOf(p: Packet): Chunk {
    Chunk(GetValueI(p.headers, "mesg-id"), GetValueI(p.headers, "correlation-id"), p.payload)
  }

  /** The message a packet starts: named by `name` when it carries no
      total length, by `nick` when it does. */
  function Start(p: Packet, name: string, length: Length): (r: Mesg)
    ensures Reassembly.Valid(r) && r.groupId.None?
    ensures r.chunks == [Chunk(GetValueI(p.headers, "mesg-id"), None, p.payload)]
    ensures r.sourceId == GetValueI(p.headers, "source-id") && r.name == GetValueI(p.headers, name)
    ensures r.totalLength == length && r.mime == GetValueI(p.headers, "content-type")
  {
    NewMesg(GetValueI(p.headers, "source-id"), GetValueI(p.headers, name), GetValueI(p.headers, "mesg-id"),
            length, p.payload, GetValueI(p.headers, "content-type"))
  }

  /** A finished message goes to the group named by `target-id` when that
      header is present and differs from `source-id`; otherwise it is
      private. */
  function Route(p: Packet, m: Mesg): (r: Event)
    ensures r.OnGroupMesg? || r.OnPrivateMesg?
    ensures r.OnGroupMesg? <==>
      HasKeyI(p.headers, "target-id") && GetValueI(p.headers, "target-id") != GetValueI(p.headers, "source-id")
    ensures r.OnGroupMesg? ==> r.mesg == m.(groupId := GetValueI(p.headers, "target-id"))
    ensures r.OnPrivateMesg? ==> r.mesg == m
  {
    if HasKeyI(p.headers, "target-id") && GetValueI(p.headers, "target-id") != GetValueI(p.headers, "source-id") then
      OnGroupMesg(m.(groupId := GetValueI(p.headers, "target-id")))
    else OnPrivateMesg(m)
  }

  /** The reassembly step of `doMesg`: the message left in flight after
      packet `p`, and the message it finishes, if any. A packet with a
      total length starts a new message, finished unless its payload is
      shorter than that length (an empty total length never finishes it); a
      packet without one continues the message in flight, which it
      finishes when it says `last`, or with nothing in flight is a message
      of its own. */
  function Reassemble(m: Option<Mesg>, p: Packet): (r: (Option<Mesg>, Option<Mesg>))
    requires m.Some? ==> Reassembly.Valid(m.value)
    ensures r.0.Some? ==> Reassembly.Valid(r.0.value)
    ensures r.1.Some? ==> Reassembly.Valid(r.1.value)
    ensures r.0.None? <==> r.1.Some?
    ensures TotalLengthOf(p).Absent? && m.Some? ==> (r.0.None? <==> HasKeyI(p.headers, "last"))
    ensures TotalLengthOf(p).Empty? ==> r.0.Some?
    ensures TotalLengthOf(p).Total? ==> (r.0.None? <==> |p.payload| >= TotalLengthOf(p).n)
  {
    match TotalLengthOf(p)
    case Absent =>
      if m.Some? then
        var m1 := AddChunk(m.value, ChunkOf(p).key, ChunkOf(p).cid, p.payload);
        if HasKeyI(p.headers, "last") then (None, Some(m1)) else (Some(m1), None)
      else
        (None, Some(Start(p, "name", Count(|p.payload|))))
    case Empty =>
      (Some(Start(p, "nick", Blank)), None)
    case Total(n) =>
      var m1 := Start(p, "nick", Count(n));
      if |p.payload| < n then (Some(m1), None) else (None, Some(m1))
  }

  /** The delegate calls for one packet: `onMesg`, then the finished
      message, routed, if there is one. */
  function Calls(p: Packet, finished: Option<Mesg>): (r: seq<Event>)
    ensures |r| == if finished.Some? then 2 else 1
    ensures r[0] == OnMesg(p) && (finished.Some? ==> r[1] == Route(p, finished.value))
  {
    [OnMesg(p)] + if finished.Some? then [Route(p, finished.value)] else []
  }

  /** `doMesg`: with a delegate, announce the packet and reassemble it;
      without one, nothing happens. */
  function DoMesg(c: Conn, p: Packet): (r: Step)
    requires Inv(c)
    ensures Inv(r.conn) && r.conn == c.(mesg := r.conn.mesg)
    ensures !c.hasDelegate ==> r == Step(c, [])
    ensures c.hasDelegate ==>
      && r.conn.mesg == Reassemble(c.mesg, p).0
      && r.events == Calls(p, Reassemble(c.mesg, p).1)
  {
    if !c.hasDelegate then Step(c, [])
    else
      var (m, finished) := Reassemble(c.mesg, p);
      Step(c.(mesg := m), Calls(p, finished))
  }

  /** `doMesg`'s reassembly over a run of packets: the message left in
      flight and the messages finished, in order. */
  function ReassembleAll(m: Option<Mesg>, ps: seq<Packet>): (r: (Option<Mesg>, seq<Mesg>))
    requires m.Some? ==> Reassembly.Valid(m.value)
    ensures r.0.Some? ==> Reassembly.Valid(r.0.value)
    decreases |ps|
  {
    if ps == [] then (m, [])
    else
      var (m1, finished) := Reassemble(m, ps[0]);
      var (m2, rest) := ReassembleAll(m1, ps[1..]);
      (m2, (if finished.Some? then [finished.value] else []) + rest)
  }

  /** The chunks a run of packets adds, in order. */
  function ChunksOf(ps: seq<Packet>): (r: seq<Chunk>)
    ensures |r| == |ps|
  {
    if ps == [] then [] else [ChunkOf(ps[0])] + ChunksOf(ps[1..])
  }

  /** A chunk whose key is new is added at the end. */
  lemma {:induction false} AddFresh(m: Mesg, x: Chunk)
    requires Reassembly.Valid(m) && DistinctKeys(m.chunks + [x])
    ensures AddChunk(m, x.key, x.cid, x.text).chunks == m.chunks + [x]
  {
    var cs := m.chunks + [x];
    assert cs[|m.chunks|] == x;
    assert forall i :: 0 <= i < |m.chunks| ==> m.chunks[i].key == cs[i].key;
  }

  /** Packets that continue the message in flight, the last of them saying
      `last`: each adds its chunk, and the whole message is finished with
      the last. */
  lemma {:induction false} Finish(m: Mesg, ps: seq<Packet>)
    requires Reassembly.Valid(m) && |ps| > 0
    requires forall i :: 0 <= i < |ps| ==> TotalLengthOf(ps[i]).Absent?
    requires forall i :: 0 <= i < |ps| - 1 ==> !HasKeyI(ps[i].headers, "last")
    requires HasKeyI(ps[|ps| - 1].headers, "last")
    requires DistinctKeys(m.chunks + ChunksOf(ps))
    ensures ReassembleAll(Some(m), ps) == (None, [m.(chunks := m.chunks + ChunksOf(ps))])
    decreases |ps|
  {
    if |ps| == 1 {
      FinishLast(m, ps[0]);
      assert ps == [ps[0]];
    } else {
      var m1 := m.(chunks := m.chunks + [ChunkOf(ps[0])]);
      FinishStep(m, ps);
      Finish(m1, ps[1..]);
    }
  }

  /** The packet saying `last` finishes the message with its chunk. */
  lemma {:induction false} FinishLast(m: Mesg, p: Packet)
    requires Reassembly.Valid(m) && TotalLengthOf(p).Absent? && HasKeyI(p.headers, "last")
    requires DistinctKeys(m.chunks + ChunksOf([p]))
    ensures ReassembleAll(Some(m), [p]) == (None, [m.(chunks := m.chunks + ChunksOf([p]))])
  {
    DistinctSplit(m.chunks, [p]);
    ContinueOne(m, p);
    ReassembleAllCons(Some(m), [p]);
    assert [p][1..] == [];
    var m1 := m.(chunks := m.chunks + [ChunkOf(p)]);
    assert [m1] + [] == [m1];
  }

  /** A packet not saying `last` adds its chunk and leaves the rest of the
      run to the message in flight. */
  lemma {:induction false} FinishStep(m: Mesg, ps: seq<Packet>)
    requires Reassembly.Valid(m) && |ps| > 1
    requires forall i :: 0 <= i < |ps| ==> TotalLengthOf(ps[i]).Absent?
    requires forall i :: 0 <= i < |ps| - 1 ==> !HasKeyI(ps[i].headers, "last")
    requires HasKeyI(ps[|ps| - 1].headers, "last")
    requires DistinctKeys(m.chunks + ChunksOf(ps))
    ensures var m1 := m.(chunks := m.chunks + [ChunkOf(ps[0])]);
      && Reassembly.Valid(m1)
      && ReassembleAll(Some(m), ps) == ReassembleAll(Some(m1), ps[1..])
      && (forall i :: 0 <= i < |ps[1..]| ==> TotalLengthOf(ps[1..][i]).Absent?)
      && (forall i :: 0 <= i < |ps[1..]| - 1 ==> !HasKeyI(ps[1..][i].headers, "last"))
      && HasKeyI(ps[1..][|ps[1..]| - 1].headers, "last")
      && DistinctKeys(m1.chunks + ChunksOf(ps[1..]))
      && m1.(chunks := m1.chunks + ChunksOf(ps[1..])) == m.(chunks := m.chunks + ChunksOf(ps))
  {
    var p := ps[0];
    DistinctSplit(m.chunks, ps);
    ContinueOne(m, p);
    ReassembleAllCons(Some(m), ps);
    var m1 := m.(chunks := m.chunks + [ChunkOf(p)]);
    var rest := ReassembleAll(Some(m1), ps[1..]);
    assert [] + rest.1 == rest.1;
  }

  /** One step of `ReassembleAll`: the first packet, then the rest. */
  lemma {:induction false} ReassembleAllCons(m: Option<Mesg>, ps: seq<Packet>)
    requires m.Some? ==> Reassembly.Valid(m.value)
    requires |ps| > 0
    ensures var (m1, finished) := Reassemble(m, ps[0]);
      ReassembleAll(m, ps) == (ReassembleAll(m1, ps[1..]).0,
        (if finished.Some? then [finished.value] else []) + ReassembleAll(m1, ps[1..]).1)
  { }

  /** Splitting off the first packet's chunk keeps the keys distinct. */
  lemma {:induction false} DistinctSplit(cs: seq<Chunk>, ps: seq<Packet>)
    requires |ps| > 0 && DistinctKeys(cs + ChunksOf(ps))
    ensures DistinctKeys(cs + [ChunkOf(ps[0])])
    ensures DistinctKeys((cs + [ChunkOf(ps[0])]) + ChunksOf(ps[1..]))
    ensures (cs + [ChunkOf(ps[0])]) + ChunksOf(ps[1..]) == cs + ChunksOf(ps)
    ensures |ps| == 1 ==> cs + [ChunkOf(ps[0])] == cs + ChunksOf(ps)
  {
    var all := cs + ChunksOf(ps);
    assert cs + [ChunkOf(ps[0])] == all[..|cs| + 1];
    assert all == cs + [ChunkOf(ps[0])] + ChunksOf(ps[1..]);
  }

  /** One packet continuing the message in flight with a new key. */
  lemma {:induction false} ContinueOne(m: Mesg, p: Packet)
    requires Reassembly.Valid(m) && TotalLengthOf(p).Absent?
    requires DistinctKeys(m.chunks + [ChunkOf(p)])
    ensures var m1 := m.(chunks := m.chunks + [ChunkOf(p)]);
      Reassemble(Some(m), p) == if HasKeyI(p.headers, "last") then (None, Some(m1)) else (Some(m1), None)
  {
    AddFresh(m, ChunkOf(p));
  }

  /** The message a run of server packets assembles. */
  function Assembled(first: Packet, rest: seq<Packet>, n: int): (r: Mesg) {
    Start(first, "nick", Count(n)).(chunks := [Chunk(GetValueI(first.headers, "mesg-id"), None, first.payload)] + ChunksOf(rest))
  }

  /** A message the server sends in pieces: the first packet carries a
      total length its payload falls short of, the following ones carry
      none, and the last of them says `last`. Exactly one message is
      finished, holding every piece's chunk, and nothing is left in flight;
      when the ids ascend, its text is the pieces' payloads in order. */
  lemma {:induction false} ServerMessage(m: Option<Mesg>, first: Packet, rest: seq<Packet>)
    requires m.Some? ==> Reassembly.Valid(m.value)
    requires |rest| > 0
    requires TotalLengthOf(first).Total? && |first.payload| < TotalLengthOf(first).n
    requires forall i :: 0 <= i < |rest| ==> TotalLengthOf(rest[i]).Absent?
    requires forall i :: 0 <= i < |rest| - 1 ==> !HasKeyI(rest[i].headers, "last")
    requires HasKeyI(rest[|rest| - 1].headers, "last")
    requires DistinctKeys([Chunk(GetValueI(first.headers, "mesg-id"), None, first.payload)] + ChunksOf(rest))
    ensures var a := Assembled(first, rest, TotalLengthOf(first).n);
      && ReassembleAll(m, [first] + rest) == (None, [a])
      && (Ascending(a.chunks) ==> MesgText(a) == first.payload + Payloads(rest))
  {
    var n := TotalLengthOf(first).n;
    var m0 := Start(first, "nick", Count(n));
    assert Reassemble(m, first) == (Some(m0), None);
    var all := [first] + rest;
    assert all[0] == first && all[1..] == rest;
    Finish(m0, rest);
    var tail := ReassembleAll(Some(m0), rest);
    assert ReassembleAll(m, all) == (tail.0, [] + tail.1);
    assert [] + tail.1 == tail.1;
    if Ascending(Assembled(first, rest, n).chunks) {
      AssembledText(first, rest, n);
    }
  }

  /** The assembled text, when the ids ascend. */
  lemma {:induction false} AssembledText(first: Packet, rest: seq<Packet>, n: int)
    requires Ascending(Assembled(first, rest, n).chunks)
    ensures Reassembly.Valid(Assembled(first, rest, n))
    ensures MesgText(Assembled(first, rest, n)) == first.payload + Payloads(rest)
  {
    var a := Assembled(first, rest, n);
    AscendingDistinct(a.chunks);
    ConcatCons(a.chunks[0], ChunksOf(rest));
    ConcatChunks(rest);
  }

  /** A packet with no total length, arriving with nothing in flight, is a
      whole message: finished at once, its text the payload. */
  lemma {:induction false} SinglePacket(p: Packet)
    requires TotalLengthOf(p).Absent?
    ensures var r := Reassemble(None, p);
      && r.0.None? && r.1.Some?
      && r.1.value.chunks == [Chunk(GetValueI(p.headers, "mesg-id"), None, p.payload)]
      && MesgText(r.1.value) == p.payload
      && r.1.value.totalLength == Count(|p.payload|)
  {
    var r := Reassemble(None, p);
    assert Ascending(r.1.value.chunks);
    assert Concat([Chunk(GetValueI(p.headers, "mesg-id"), None, p.payload)]) == p.payload;
  }

  /** An empty total length starts a message that packets without a total
      length never finish, however many follow, until one says `last`. */
  lemma {:induction false} BlankLengthWaits(m: Option<Mesg>, first: Packet, rest: seq<Packet>)
    requires m.Some? ==> Reassembly.Valid(m.value)
    requires TotalLengthOf(first).Empty?
    requires forall i :: 0 <= i < |rest| ==> TotalLengthOf(rest[i]).Absent? && !HasKeyI(rest[i].headers, "last")
    ensures ReassembleAll(m, [first] + rest).0.Some?
    ensures ReassembleAll(m, [first] + rest).0.value.totalLength == Blank
    ensures ReassembleAll(m, [first] + rest).1 == []
  {
    var all := [first] + rest;
    assert all[0] == first && all[1..] == rest;
    StaysInFlight(Start(first, "nick", Blank), rest);
  }

  /** Packets without a total length and without `last` keep the message in
      flight, finish nothing, and change only its chunks. */
  lemma {:induction false} StaysInFlight(m: Mesg, ps: seq<Packet>)
    requires Reassembly.Valid(m)
    requires forall i :: 0 <= i < |ps| ==> TotalLengthOf(ps[i]).Absent? && !HasKeyI(ps[i].headers, "last")
    ensures ReassembleAll(Some(m), ps).0.Some? && ReassembleAll(Some(m), ps).1 == []
    ensures ReassembleAll(Some(m), ps).0.value == m.(chunks := ReassembleAll(Some(m), ps).0.value.chunks)
    decreases |ps|
  {
    if ps != [] {
      var m1 := AddChunk(m, ChunkOf(ps[0]).key, ChunkOf(ps[0]).cid, ps[0].payload);
      StaysInFlight(m1, ps[1..]);
    }
  }

  lemma {:induction false} ConcatCons(x: Chunk, cs: seq<Chunk>)
    ensures Concat([x] + cs) == x.text + Concat(cs)
    decreases |cs|
  {
    if cs != [] {
      var all := [x] + cs;
      assert all[..|all| - 1] == [x] + cs[..|cs| - 1];
      ConcatCons(x, cs[..|cs| - 1]);
    } else {
      assert [x][..0] == [];
    }
  }

  lemma {:induction false} ConcatChunks(ps: seq<Packet>)
    ensures Concat(ChunksOf(ps)) == Payloads(ps)
    decreases |ps|
  {
    if ps != [] {
      var init := ps[..|ps| - 1];
      ChunksSnoc(init, ps[|ps| - 1]);
      assert init + [ps[|ps| - 1]] == ps;
      var cs := ChunksOf(ps);
      assert cs[..|cs| - 1] == ChunksOf(init);
      ConcatChunks(init);
    }
  }

  lemma {:induction false} ChunksSnoc(ps: seq<Packet>, p: Packet)
    ensures ChunksOf(ps + [p]) == ChunksOf(ps) + [ChunkOf(p)]
    decreases |ps|
  {
    if ps == [] {
      assert [p][1..] == [];
    } else {
      assert (ps + [p])[1..] == ps[1..] + [p];
      ChunksSnoc(ps[1..], p);
    }
  }

  // ---------------------------------------------------------------------------
  // The other handlers
  // ---------------------------------------------------------------------------

  /** `doAuth`: answer the challenge and tell the delegate. The answer is
      the Salsa20 encryption, under `md5(md5(password) + iv)` with `iv` the
      challenge payload's bytes 16..24, of its bytes 0..16 and the first 16
      characters of the dot-free `TIMESTAMP` header; it takes no message id.
      Fails, sending nothing, without that header or on a payload or
      timestamp too short. */
  function DoAuth(c: Conn, p: Packet, f: Foreign): (r: Result<Step>)
    ensures r.Ok? <==>
      && Get(p.headers, "TIMESTAMP").Some? && |p.payload| >= 24
      && |RemoveDots(Get(p.headers, "TIMESTAMP").value)| >= 16
    ensures r.Ok? ==>
      && r.value.conn == c.(wire := r.value.conn.wire)
      && |r.value.conn.wire| == |c.wire| + 1 && r.value.conn.wire[..|c.wire|] == c.wire
      && var answer := r.value.conn.wire[|c.wire|];
         var iv := p.payload[16..24];
         && answer.command == "AUTH"
         && answer.payload == f.salsa20(f.md5(f.md5(c.password) + iv), iv,
                                        p.payload[..16] + RemoveDots(Get(p.headers, "TIMESTAMP").value)[..16])
    ensures r.Ok? ==> r.value.events == if c.hasDelegate then [OnAuth(p)] else []
  {
    var answer :- Auth(c.password, p, f.md5, f.salsa20);
    var a := AuthLayout(c.password, p, f.md5).value;
    assert a.block == a.block[..16] + a.block[16..];
    var (c1, _) := SendPacket(c, answer);
    Ok(Step(c1, if c.hasDelegate then [OnAuth(p)] else []))
  }

  /** `doBalanceQueryResult`: hand the delegate the packet, inflated if it
      was compressed. A compressed payload that does not inflate raises
      before the delegate is asked for, delegate or not. */
  function DoBalanceQueryResult(c: Conn, p: Packet, f: Foreign): (r: Result<Step>)
    ensures r.Ok? <==> !p.compressed || f.inflate(p.payload).Some?
    ensures r.Err? ==> r.fault == ZlibError
    ensures r.Ok? ==> r.value.conn == c
    ensures r.Ok? && !c.hasDelegate ==> r.value.events == []
    ensures r.Ok? && c.hasDelegate ==> |r.value.events| == 1 && r.value.events[0].OnBalanceQueryResult?
    ensures r.Ok? && c.hasDelegate ==>
      var q := r.value.events[0].packet;
      && !q.compressed && q.command == p.command && q.headers == p.headers
      && q.payload == if p.compressed then f.inflate(p.payload).value else p.payload
  {
    var q :- Decompress(p, f.inflate);
    Ok(Step(c, if c.hasDelegate then [OnBalanceQueryResult(q)] else []))
  }

  /** `doGroupAdmin`: hand the delegate the packet. */
  function DoGroupAdmin(c: Conn, p: Packet): (r: Step)
    ensures r.conn == c
    ensures r.events == if c.hasDelegate then [OnGroupAdmin(p)] else []
  {
    Step(c, if c.hasDelegate then [OnGroupAdmin(p)] else [])
  }

  /** `doLogonFailed`: reason 32 is a redirect -- the payload becomes the
      factory's host for the next connection; any other reason keeps the
      host. The delegate is told either way. */
  function DoLogonFailed(c: Conn, p: Packet): (r: Step)
    ensures r.conn == c.(host := r.conn.host)
    ensures HasValueI(p.headers, "reason", "32") ==> r.conn.host == Some(p.payload)
    ensures !HasValueI(p.headers, "reason", "32") ==> r.conn.host == c.host
    ensures r.events == if c.hasDelegate then [OnLogonFailed(p)] else []
  {
    var c1 := if HasValueI(p.headers, "reason", "32") then c.(host := Some(p.payload)) else c;
    Step(c1, if c.hasDelegate then [OnLogonFailed(p)] else [])
  }

  /** `doResponse`: hand the delegate the `type`, `what` and `mesg-id`
      headers and the packet. */
  function DoResponse(c: Conn, p: Packet): (r: Step)
    ensures r.conn == c
    ensures !c.hasDelegate ==> r.events == []
    ensures c.hasDelegate ==> |r.events| == 1 && r.events[0].OnResponse? && r.events[0].packet == p
    ensures c.hasDelegate ==>
      && r.events[0].rtype == GetValueI(p.headers, "type")
      && r.events[0].what == GetValueI(p.headers, "what")
      && r.events[0].mesgId == GetValueI(p.headers, "mesg-id")
  {
    Step(c, if c.hasDelegate then
      [OnResponse(GetValueI(p.headers, "type"), GetValueI(p.headers, "what"), GetValueI(p.headers, "mesg-id"), p)]
      else [])
  }

  /** The bytes `doSubProfile` decodes: the payload, inflated if it was
      compressed, from offset `int(iv)` on when an `iv` header is present
      (with Python's slicing, so a negative offset counts from the end).
      ZlibError when the payload does not inflate, then ValueError when
      `iv` is not integer text. */
  function SubProfileData(p: Packet, inflate: string -> Option<string>): (r: Result<string>)
    ensures Decompress(p, inflate).Err? ==> r == Err(ZlibError)
    ensures Decompress(p, inflate).Ok? && !HasKeyI(p.headers, "iv") ==> r == Ok(Decompress(p, inflate).value.payload)
    ensures Decompress(p, inflate).Ok? && HasKeyI(p.headers, "iv") ==>
      (r.Ok? <==> ParseInt(GetValueI(p.headers, "iv").value).Some?)
    ensures r.Err? ==> r.fault == ZlibError || r.fault == ValueError
    ensures HasKeyI(p.headers, "iv") && r.Ok? ==>
      var n := ParseInt(GetValueI(p.headers, "iv").value).value;
      var data := Decompress(p, inflate).value.payload;
      0 <= n <= |data| ==> r.value == data[n..]
    ensures r.Ok? ==>
      && Decompress(p, inflate).Ok?
      && var data := Decompress(p, inflate).value.payload;
         |r.value| <= |data| && r.value == data[|data| - |r.value|..]
  {
    var q :- Decompress(p, inflate);
    var data := q.payload;
    if HasKeyI(p.headers, "iv") then
      var n :- Int(GetValueI(p.headers, "iv").value);
      Ok(SliceFrom(data, n))
    else Ok(data)
  }

  /** `doSubProfile`: decode the profile data and hand the delegate the
      headers and the decoded dict. Fails, telling nobody, when the payload
      does not inflate, `iv` is not an integer or the data does not decode. */
  function DoSubProfile(c: Conn, p: Packet, f: Foreign): (r: Result<Step>)
    ensures r.Ok? <==> SubProfileData(p, f.inflate).Ok? && ParseWeirdData(SubProfileData(p, f.inflate).value).Ok?
    ensures r.Ok? ==> r.value.conn == c
    ensures r.Ok? ==>
      r.value.events == if c.hasDelegate
        then [OnSubProfile(p.headers, ParseWeirdData(SubProfileData(p, f.inflate).value).value)] else []
  {
    var data :- SubProfileData(p, f.inflate);
    var kvMap :- ParseWeirdData(data);
    Ok(Step(c, if c.hasDelegate then [OnSubProfile(p.headers, kvMap)] else []))
  }

  /** A profile the server encodes behind an `iv`-byte prefix reaches the
      delegate as the dict it encodes, whether or not the payload was
      compressed on the way. */
  lemma {:induction false} SubProfileRoundTrip(c: Conn, p: Packet, f: Foreign, prefix: string, es: EntryList)
    requires WellFormedEntries(es)
    requires Decompress(p, f.inflate).Ok? && Decompress(p, f.inflate).value.payload == prefix + EncEntries(es)
    requires GetValueI(p.headers, "iv") == Some(Decimal(|prefix|))
    ensures DoSubProfile(c, p, f)
      == Ok(Step(c, if c.hasDelegate then [OnSubProfile(p.headers, Node(ToMap(es)))] else []))
  {
    ParseDecimal(|prefix|);
    var data := Decompress(p, f.inflate).value.payload;
    assert data[|prefix|..] == EncEntries(es);
    ParseEncoded(es);
  }

  // ---------------------------------------------------------------------------
  // Dispatch: `parsePacket` and `dataReceived`
  // ---------------------------------------------------------------------------

  /** The commands `parsePacket` handles; the lookup is exact, case and all. */
  const Commands: set<string> :=
    {"AUTH", "BALANCE QUERY RESULT", "GROUP ADMIN", "LOGON FAILED", "MESG", "P", "RESPONSE", "SUB PROFILE"}

  /** `parsePacket`: run the handler of the packet's command; a command
      without one is ignored. */
  function ParsePacket(c: Conn, p: Packet, f: Foreign): (r: Result<Step>)
    requires Inv(c)
    ensures r.Ok? ==> Inv(r.value.conn)
    ensures p.command !in Commands ==> r == Ok(Step(c, []))
    ensures p.command == "MESG" ==> r == Ok(DoMesg(c, p))
    ensures p.command == "P" ==> r == Ok(Step(DoPing(c), []))
    ensures p.command == "AUTH" ==> r == DoAuth(c, p, f)
    ensures p.command == "SUB PROFILE" ==> r == DoSubProfile(c, p, f)
    ensures p.command == "BALANCE QUERY RESULT" ==> r == DoBalanceQueryResult(c, p, f)
    ensures p.command == "LOGON FAILED" ==> r == Ok(DoLogonFailed(c, p))
    ensures p.command == "GROUP ADMIN" ==> r == Ok(DoGroupAdmin(c, p))
    ensures p.command == "RESPONSE" ==> r == Ok(DoResponse(c, p))
    ensures r.Err? ==> p.command in {"AUTH", "BALANCE QUERY RESULT", "SUB PROFILE"}
  {
    match p.command
    case "AUTH" =>
      var s :- DoAuth(c, p, f);
      assert s.conn.outbox == c.outbox;
      Ok(s)
    case "BALANCE QUERY RESULT" => DoBalanceQueryResult(c, p, f)
    case "GROUP ADMIN" => Ok(DoGroupAdmin(c, p))
    case "LOGON FAILED" => Ok(DoLogonFailed(c, p))
    case "MESG" => Ok(DoMesg(c, p))
    case "P" => Ok(Step(DoPing(c), []))
    case "RESPONSE" => Ok(DoResponse(c, p))
    case "SUB PROFILE" => DoSubProfile(c, p, f)
    case _ => Ok(Step(c, []))
  }

  /** `dataReceived`: feed the frame decoder and dispatch the packet it
      completes, if any. */
  function DataReceived(c: Conn, data: string, f: Foreign): (r: Result<Step>)
    requires Inv(c)
    ensures r.Ok? ==> Inv(r.value.conn)
    ensures ParseData(c, data).Err? ==> r == Err(ValueError)
    ensures ParseData(c, data).Ok? && ParseData(c, data).value.1.None? ==>
      r == Ok(Step(ParseData(c, data).value.0, []))
    ensures ParseData(c, data).Ok? && ParseData(c, data).value.1.Some? ==>
      r == ParsePacket(ParseData(c, data).value.0, ParseData(c, data).value.1.value, f)
  {
    var (c1, p) :- ParseData(c, data);
    if p.None? then Ok(Step(c1, [])) else ParsePacket(c1, p.value, f)
  }

  /** A ping frame as `toData` writes it, arriving whole at an idle
      connection, is answered with the next ping count. */
  lemma {:induction false} PingFrame(c: Conn, p: Packet, f: Foreign)
    requires Inv(c) && c.pending.None?
    requires p.command == "P" && p.headers == [] && p.payload == []
    ensures DataReceived(c, ToData(p), f) == Ok(Step(DoPing(c), []))
  {
    ParseToData(p);
  }
}
