/** The receive path of kernel/net/net.c: one connection's state, its ring of received bytes, and what the peer sent. */
module TcpReceive {
  import opened Bits
  import opened Bitmap

  const SEQ := 0x1_0000_0000
  const SIZE := 32768

  datatype State = Closed | SynSent | Established | FinWait1 | FinWait2 | CloseWait

  // ---------- the ring ----------

  /** The bytes from rd up to wr, around the end of the buffer. One slot stays empty. */
  function Ring(buf: seq<byte>, rd: nat, wr: nat): (s: seq<byte>)
    requires |buf| == SIZE && rd < SIZE && wr < SIZE
    ensures |s| == (wr - rd) % 32768
  {
    if rd <= wr then buf[rd..wr] else buf[rd..] + buf[..wr]
  }

  lemma RingPush(buf: seq<byte>, rd: nat, wr: nat, x: byte)
    requires |buf| == SIZE && rd < SIZE && wr < SIZE && (wr + 1) % 32768 != rd
    ensures Ring(buf[wr := x], rd, (wr + 1) % 32768) == Ring(buf, rd, wr) + [x]
  {}

  lemma RingPop(buf: seq<byte>, rd: nat, wr: nat)
    requires |buf| == SIZE && rd < SIZE && wr < SIZE && rd != wr
    ensures Ring(buf, rd, wr) == [buf[rd]] + Ring(buf, (rd + 1) % 32768, wr)
  {
    var n := (rd + 1) % 32768;
    assert n == if rd + 1 < SIZE then rd + 1 else 0;
    if rd < wr {
      Front(buf, rd, wr, []);
    } else {
      Front(buf, rd, SIZE, buf[..wr]);
    }
  }

  lemma Front(buf: seq<byte>, a: nat, b: nat, tail: seq<byte>)
    requires a < b <= |buf|
    ensures buf[a..b] + tail == [buf[a]] + (buf[a + 1..b] + tail)
  {}

  /** The ring is full exactly if it holds one byte less than its size. */
  lemma RingFull(buf: seq<byte>, rd: nat, wr: nat)
    requires |buf| == SIZE && rd < SIZE && wr < SIZE
    ensures (wr + 1) % 32768 == rd <==> |Ring(buf, rd, wr)| == SIZE - 1
  {}

  // ---------- segments ----------

  datatype Segment = Segment(flags: byte, seq_: nat, ack: nat, payload: seq<byte>)

  predicate Fin(g: Segment) { BitOf(g.flags, 0) }
  predicate Syn(g: Segment) { BitOf(g.flags, 1) }
  predicate Rst(g: Segment) { BitOf(g.flags, 2) }
  predicate Ack(g: Segment) { BitOf(g.flags, 4) }

  /** The flags by their values: FIN 1, SYN 2, RST 4 and ACK 16. */
  lemma Flags(g: Segment)
    ensures (Fin(g) <==> And(g.flags, 1) != 0) && (Syn(g) <==> And(g.flags, 2) != 0)
    ensures (Rst(g) <==> And(g.flags, 4) != 0) && (Ack(g) <==> And(g.flags, 16) != 0)
  {
    assert Pow2(0) == 1 && Pow2(1) == 2 && Pow2(2) == 4 && Pow2(4) == 16;
    AndBit(g.flags, 0);
    AndBit(g.flags, 1);
    AndBit(g.flags, 2);
    AndBit(g.flags, 4);
  }

  /** What the network may deliver once the peer's byte 0 has number base: a reset, the peer's SYN, or bytes off onwards of
      its stream, with a FIN only at its end, however often and in whatever order, if less than 2^32 away from what was
      received. */
  ghost predicate Genuine(g: Segment, stream: seq<byte>, base: nat, off: nat, received: nat)
  {
    || Rst(g)
    || (Syn(g) && !Fin(g) && g.seq_ == (base - 1) % SEQ && g.payload == [])
    || (!Syn(g) && off + |g.payload| < received + SEQ && received < off + SEQ && off + |g.payload| <= |stream|
        && g.seq_ == (base + off) % SEQ && g.payload == stream[off..off + |g.payload|] && (Fin(g) ==> off + |g.payload| == |stream|))
  }

  /** The state after a segment. */
  function NextState(s: State, g: Segment): State
  {
    if Rst(g) then Closed
    else if s == SynSent && Syn(g) && Ack(g) then Established
    else if s == Established && Fin(g) then CloseWait
    else s
  }

  /** The number of a FIN comes behind its payload; it is the next one exactly if nothing before it is missing. */
  lemma FinNumber(g: Segment, stream: seq<byte>, base: nat, off: nat, was: nat, received: nat)
    requires Genuine(g, stream, base, off, was) && !Rst(g) && Fin(g) && was <= received <= |stream|
    requires received == was || received == was + |g.payload|
    ensures (g.seq_ + |g.payload|) % SEQ == (base + received) % SEQ <==> received == |stream|
  {
    NextNumber(base, off, |g.payload|);
    SameNumber(base, |stream|, received);
  }

  /** Numbers modulo 2^32 that are less than 2^32 apart are told apart. */
  lemma SameNumber(base: nat, off: nat, received: nat)
    requires off < received + SEQ && received < off + SEQ
    ensures (base + off) % SEQ == (base + received) % SEQ <==> off == received
  {
    var x, y := base + off, base + received;
    if x % SEQ == y % SEQ {
      assert (x / SEQ - y / SEQ) * SEQ == x - y;
      SmallMultiple(x / SEQ - y / SEQ, SEQ);
    }
  }

  lemma NextNumber(base: nat, n: nat, k: nat)
    ensures ((base + n) % SEQ + k) % SEQ == (base + n + k) % SEQ
  {
    var x := base + n;
    var q := x / SEQ + (x % SEQ + k) / SEQ;
    assert x + k == SEQ * q + (x % SEQ + k) % SEQ;
    DivMod(x + k, SEQ, q, (x % SEQ + k) % SEQ);
  }

  class Connection {
    var state: State
    var rcvNxt: nat
    var sndUna: nat
    var sndNxt: nat
    var finRcvd: bool
    var rxRd: nat
    var rxWr: nat
    const rxBuf: array<byte>

    /** What the peer sends, the number of its first byte, how much was accepted, and what was handed out. */
    ghost const stream: seq<byte>
    ghost const base: nat
    ghost var received: nat
    ghost var given: seq<byte>

    /** A FIN was taken that had the number rcv_nxt. */
    ghost var whole: bool

    /** net_tcp_connect, up to the SYN: the numbers of the peer are known once its SYN arrives. */
    constructor (peer: seq<byte>, first: nat, snd: nat)
      ensures Valid() && state == SynSent && stream == peer && base == first && given == [] && received == 0 && fresh(rxBuf)
    {
      state, rcvNxt, sndUna, sndNxt, finRcvd, rxRd, rxWr := SynSent, 0, 0, snd, false, 0, 0;
      rxBuf := new byte[32768](_ => 0);
      stream, base, received, given, whole := peer, first, 0, [], false;
    }

    ghost function Now(): Mark
      reads this
    {
      Mark(state, received)
    }

    ghost predicate Shape()
      reads this
    {
      rxBuf.Length == SIZE && rxRd < SIZE && rxWr < SIZE && received <= |stream| && state != FinWait1 && state != FinWait2
    }

    ghost function Held(): seq<byte>
      requires Shape()
      reads this, rxBuf
    {
      Ring(rxBuf[..], rxRd, rxWr)
    }

    /** rcv_nxt is the number of the next byte, or one more after a FIN; a FIN ended the stream exactly if it had the number
        rcv_nxt. */
    ghost predicate Numbered()
      reads this
    {
      (finRcvd ==> (whole <==> received == |stream|)) &&
      match state
      case Established => rcvNxt == (base + received) % SEQ && !finRcvd
      case CloseWait => rcvNxt == (base + received + 1) % SEQ && finRcvd
      case SynSent => received == 0 && !finRcvd
      case _ => true
    }

    /** What was handed out and what is still held is the peer's stream, up to what rcv_nxt counts. */
    ghost predicate InStep()
      requires Shape()
      reads this, rxBuf
    {
      given + Held() == stream[..received]
    }

    ghost predicate Valid()
      reads this, rxBuf
    {
      Shape() && Numbered() && InStep()
    }

    /** One byte into the ring, unless it is full. */
    method Push(x: byte) returns (ok: bool)
      requires Shape()
      modifies this`rxWr, rxBuf
      ensures Shape() && (ok <==> old(|Held()|) < SIZE - 1) && Held() == old(Held()) + if ok then [x] else []
    {
      var next := (rxWr + 1) % 32768;
      ghost var was := rxBuf[..];
      RingFull(was, rxRd, rxWr);
      if next == rxRd { return false; }
      RingPush(was, rxRd, rxWr, x);
      rxBuf[rxWr] := x;
      assert rxBuf[..] == was[rxWr := x];
      rxWr := next;
      ok := true;
    }

    /** The bytes that still fit the ring. */
    method Room() returns (n: nat)
      requires Shape()
      ensures n == SIZE - 1 - |Held()|
    {
      n := (rxRd - rxWr - 1) % 32768;
    }

    /** The in-order branch of tcp_rx_conn: as many bytes as fit go into the ring. */
    method Store(payload: seq<byte>) returns (n: nat)
      requires Shape()
      modifies this`rxWr, rxBuf
      ensures Shape() && n == Fit(old(|Held()|), |payload|) && Held() == old(Held()) + payload[..n]
    {
      n := 0;
      ghost var h := Held();
      while n < |payload|
        invariant n <= |payload| && Shape() && Held() == h + payload[..n] && |h| + n <= SIZE - 1
      {
        var ok := Push(payload[n]);
        if !ok { break; }
        Extend(h, payload, n);
        n := n + 1;
      }
    }

    /** The segment is the next one. */
    predicate Next(g: Segment)
      reads this
    {
      state == Established && !Rst(g) && g.payload != [] && g.seq_ == rcvNxt
    }

    /** The data part of tcp_rx_conn: in step exactly if the bytes fit. */
    method Accept(g: Segment, ghost off: nat)
      requires Valid() && Genuine(g, stream, base, off, received) && Next(g)
      modifies this`rxWr, this`rcvNxt, this`received, rxBuf
      ensures Shape() && Numbered() && received == old(received) + |g.payload|
      ensures InStep() <==> old(|Held()|) + |g.payload| <= SIZE - 1
    {
      SameNumber(base, off, received);
      assert off == received;
      NextNumber(base, received, |g.payload|);
      ghost var h, r := Held(), received;
      var n := Store(g.payload);
      rcvNxt := (rcvNxt + |g.payload|) % SEQ;
      received := received + |g.payload|;
      StepIs(given, h, stream, r, g.payload, n);
    }

    /** The case of tcp_rx_conn for an established connection. */
    method OnEstablished(g: Segment, ghost off: nat)
      requires Valid() && Genuine(g, stream, base, off, received) && state == Established && !Rst(g)
      modifies this`state, this`rcvNxt, this`sndUna, this`finRcvd, this`rxWr, this`received, this`whole, rxBuf
      ensures Shape() && Numbered() && state == if Fin(g) then CloseWait else Established
      ensures sndUna == if Ack(g) then g.ack else old(sndUna)
      ensures if Fin(g) then finRcvd && (whole <==> (g.seq_ + |g.payload| + 1) % SEQ == rcvNxt) else finRcvd == old(finRcvd) && whole == old(whole)
      ensures received == old(received) + if old(Next(g)) then |g.payload| else 0
      ensures InStep() <==> (old(Next(g)) ==> old(|Held()|) + |g.payload| <= SIZE - 1)
    {
      if Ack(g) { sndUna := g.ack; }
      ghost var was := received;
      if g.payload != [] && g.seq_ == rcvNxt { Accept(g, off); }
      if Fin(g) { TakeFin(g, off, was); }
    }

    /** A FIN, whatever its number. */
    method TakeFin(g: Segment, ghost off: nat, ghost was: nat)
      requires Shape() && Numbered() && state == Established && Genuine(g, stream, base, off, was) && !Rst(g) && Fin(g)
      requires was <= received && (received == was || received == was + |g.payload|)
      modifies this`state, this`rcvNxt, this`finRcvd, this`whole
      ensures Shape() && Numbered() && state == CloseWait && finRcvd && (whole <==> (g.seq_ + |g.payload| + 1) % SEQ == rcvNxt)
    {
      whole := (g.seq_ + |g.payload|) % SEQ == rcvNxt;
      FinNumber(g, stream, base, off, was, received);
      FinNext(g.seq_ + |g.payload|, rcvNxt);
      NextNumber(base, received, 1);
      rcvNxt := (rcvNxt + 1) % SEQ;
      finRcvd := true;
      state := CloseWait;
    }

    /** tcp_rx_conn, until the local close: still in step with the peer exactly if the bytes of a segment in order fit. */
    method Receive(g: Segment, ghost off: nat)
      requires Valid() && Genuine(g, stream, base, off, received)
      modifies this`state, this`rcvNxt, this`sndUna, this`finRcvd, this`rxWr, this`received, this`whole, rxBuf
      ensures Shape() && Numbered() && state == NextState(old(state), g)
      ensures state == Closed <==> old(state) == Closed || Rst(g)
      ensures sndUna == if !Rst(g) && Ack(g) && (old(state) == Established || (old(state) == SynSent && Syn(g))) then g.ack else old(sndUna)
      ensures state == Established <==> !Rst(g) && ((old(state) == Established && !Fin(g)) || (old(state) == SynSent && Syn(g) && Ack(g)))
      ensures state == CloseWait <==> !Rst(g) && (old(state) == CloseWait || (old(state) == Established && Fin(g)))
      ensures old(state) == Established && Fin(g) && !Rst(g) ==> finRcvd && (whole <==> (g.seq_ + |g.payload| + 1) % SEQ == rcvNxt)
      ensures !(old(state) == Established && Fin(g) && !Rst(g)) ==> finRcvd == old(finRcvd) && whole == old(whole)
      ensures old(Next(g)) <==> old(state) == Established && !Rst(g) && g.payload != [] && off == old(received)
      ensures received == old(received) + if old(Next(g)) then |g.payload| else 0
      ensures InStep() <==> (old(Next(g)) ==> old(|Held()|) + |g.payload| <= SIZE - 1)
    {
      if state == Established && !Rst(g) && !Syn(g) { SameNumber(base, off, received); }
      if Rst(g) {
        state := Closed;
      } else if state == SynSent {
        if Syn(g) && Ack(g) {
          SynNumber(base);
          rcvNxt := (g.seq_ + 1) % SEQ;
          sndUna := g.ack;
          state := Established;
        }
      } else if state == Established {
        OnEstablished(g, off);
      }
    }

    /** net_tcp_recv, after any waiting: the next cap bytes of the peer's stream, or those that are there. End of file, which
        is nothing left after a FIN, means that all of the stream was handed out exactly if that FIN was the next in order. */
    method Recv(cap: nat) returns (out: seq<byte>)
      requires Valid()
      modifies this`rxRd, this`given
      ensures Valid() && given == old(given) + out
      ensures out == if cap <= old(|Held()|) then old(Held())[..cap] else old(Held())
      ensures out == stream[old(|given|)..old(|given|) + |out|]
      ensures out == [] && cap > 0 ==> given == stream[..received]
      ensures out == [] && cap > 0 && finRcvd ==> (given == stream <==> whole)
    {
      ghost var h := Held();
      out := Drain(cap);
      HandedOut(given, h, out, Held(), stream, received);
      given := given + out;
    }

    /** The loop of net_tcp_recv. */
    method Drain(cap: nat) returns (out: seq<byte>)
      requires Shape()
      modifies this`rxRd
      ensures Shape() && |out| == (if cap <= old(|Held()|) then cap else old(|Held()|)) && out + Held() == old(Held())
    {
      out := [];
      ghost var h := Held();
      while |out| < cap && rxRd != rxWr
        invariant Shape() && |out| <= cap && out + Held() == h
        decreases |Held()|
      {
        ghost var was := Held();
        var x := Pop();
        ShiftOut(out, x, was, Held());
        out := out + [x];
      }
    }

    /** One byte out of a ring that is not empty. */
    method Pop() returns (x: byte)
      requires Shape() && rxRd != rxWr
      modifies this`rxRd
      ensures Shape() && old(Held()) == [x] + Held()
    {
      RingPop(rxBuf[..], rxRd, rxWr);
      x := rxBuf[rxRd];
      rxRd := (rxRd + 1) % 32768;
    }
  }

  lemma FinNext(x: nat, r: nat)
    requires r < SEQ
    ensures x % SEQ == r <==> (x + 1) % SEQ == (r + 1) % SEQ
  {}

  lemma ShiftOut(out: seq<byte>, x: byte, was: seq<byte>, now: seq<byte>)
    requires was == [x] + now
    ensures out + was == out + [x] + now
  {}

  lemma HandedOut(given: seq<byte>, h: seq<byte>, out: seq<byte>, rest: seq<byte>, stream: seq<byte>, r: nat)
    requires r <= |stream| && given + h == stream[..r] && out + rest == h
    ensures given + out + rest == stream[..r] && out == h[..|out|]
    ensures |given| + |out| <= |stream| && out == stream[|given|..|given| + |out|]
  {
    assert given + out + rest == given + h;
    var n := |given|;
    assert stream[..r][n..n + |out|] == (given + h)[n..n + |out|] == h[..|out|];
    assert stream[n..n + |out|] == stream[..r][n..n + |out|];
  }

  /** The SYN takes the number before the first byte. */
  lemma SynNumber(base: nat)
    ensures ((base - 1) % SEQ + 1) % SEQ == (base + 0) % SEQ
  {}

  lemma StepIs(given: seq<byte>, h: seq<byte>, stream: seq<byte>, r: nat, p: seq<byte>, n: nat)
    requires r + |p| <= |stream| && given + h == stream[..r] && p == stream[r..r + |p|] && n <= |p|
    ensures given + (h + p[..n]) == stream[..r + |p|] <==> n == |p|
  {
    if n == |p| {
      assert p[..n] == p;
      assert stream[..r] + p == stream[..r + |p|];
      assert given + (h + p) == given + h + p;
    } else {
      assert |given + (h + p[..n])| == r + n;
    }
  }

  /** How many of n bytes a ring that holds used takes. */
  function Fit(used: nat, n: nat): nat
    requires used < SIZE
  {
    if used + n <= SIZE - 1 then n else SIZE - 1 - used
  }

  lemma Extend(h: seq<byte>, p: seq<byte>, n: nat)
    requires n < |p|
    ensures h + p[..n] + [p[n]] == h + p[..n + 1]
  {}

  // ---------- whole sessions ----------

  /** A segment arrives, which carries the peer's bytes from off on, or the program asks for up to cap bytes. */
  datatype Event = Arrives(g: Segment, off: nat) | Asks(cap: nat)

  /** State and number of accepted bytes. */
  datatype Mark = Mark(state: State, received: nat)

  ghost function MarkNext(m: Mark, e: Event): Mark
  {
    match e
    case Asks(_) => m
    case Arrives(g, off) =>
      var more := m.state == Established && !Rst(g) && g.payload != [] && off == m.received;
      Mark(NextState(m.state, g), if more then m.received + |g.payload| else m.received)
  }

  /** After the first k events, as long as the ring takes all segments in order. */
  ghost function Track(events: seq<Event>, k: nat): Mark
    requires k <= |events|
  {
    if k == 0 then Mark(SynSent, 0) else MarkNext(Track(events, k - 1), events[k - 1])
  }

  ghost predicate Resets(e: Event) { e.Arrives? && Rst(e.g) }

  /** After a reset nothing changes any more. */
  lemma {:induction false} ResetEnds(events: seq<Event>, k: nat, j: nat)
    requires k < j <= |events| && Resets(events[k])
    ensures Track(events, j) == Mark(Closed, Track(events, k).received)
    decreases j
  {
    if j > k + 1 { ResetEnds(events, k, j - 1); }
  }

  /** Whatever the network drops, repeats or reorders, and whenever the program reads: the bytes handed out are a prefix of
      the peer's stream, until a segment in order does not fit the ring. The session ends with n events done, at the
      first such segment or after the last event; marks are the states it passes through. After a reset they stay the same. */
  method Session(c: Connection, events: seq<Event>) returns (out: seq<byte>, n: nat, ghost marks: seq<Mark>)
    requires c.Valid() && c.Now() == Mark(SynSent, 0) && c.given == []
    requires forall k | 0 <= k < |events| && events[k].Arrives? ::
      Genuine(events[k].g, c.stream, c.base, events[k].off, Track(events, k).received)
    modifies c, c.rxBuf
    ensures c.Valid() && c.given == out && out <= c.stream && out + c.Held() == c.stream[..c.received]
    ensures n <= |events| && |marks| == n + 1 && marks[0] == old(c.Now()) && marks[n] == c.Now()
    ensures forall j: nat {:trigger marks[j]} | j <= n :: marks[j] == Track(events, j)
    ensures forall k: nat, j: nat {:trigger Resets(events[k]), marks[j]} | k < j <= n && Resets(events[k]) ::
      marks[j].state == Closed && marks[j].received == marks[k].received
    ensures n < |events| ==> events[n].Arrives? && c.Next(events[n].g) && |c.Held()| + |events[n].g.payload| > SIZE - 1
  {
    out, n, marks := [], 0, [c.Now()];
    while n < |events|
      invariant 0 <= n <= |events| && c.Valid() && c.given == out && c.Now() == Track(events, n)
      invariant |marks| == n + 1 && marks[0] == old(c.Now()) && marks[n] == c.Now()
      invariant forall j: nat {:trigger marks[j]} | j <= n :: marks[j] == Track(events, j)
      decreases |events| - n
    {
      var ok, more := Turn(c, events[n]);
      if !ok { break; }
      out := out + more;
      n := n + 1;
      marks := marks + [c.Now()];
    }
    Prefixes(c.given, c.Held(), c.stream, c.received);
    forall k: nat, j: nat {:trigger Resets(events[k]), marks[j]} | k < j <= n && Resets(events[k])
      ensures marks[j].state == Closed && marks[j].received == marks[k].received
    {
      ResetEnds(events, k, j);
    }
  }

  /** One event, unless it is a segment in order that does not fit. */
  method Turn(c: Connection, e: Event) returns (ok: bool, out: seq<byte>)
    requires c.Valid() && (e.Arrives? ==> Genuine(e.g, c.stream, c.base, e.off, c.received))
    modifies c, c.rxBuf
    ensures c.Valid() && c.given == old(c.given) + out
    ensures !ok ==> out == [] && e.Arrives? && c.Next(e.g) && |c.Held()| + |e.g.payload| > SIZE - 1
    ensures c.Now() == if ok then MarkNext(old(c.Now()), e) else old(c.Now())
  {
    ok, out := true, [];
    match e {
      case Arrives(g, off) =>
        var room := c.Room();
        ok := !(c.Next(g) && |g.payload| > room);
        if ok { c.Receive(g, off); }
      case Asks(cap) =>
        out := c.Recv(cap);
    }
  }

  lemma Prefixes(given: seq<byte>, h: seq<byte>, stream: seq<byte>, r: nat)
    requires r <= |stream| && given + h == stream[..r]
    ensures given <= stream
  {
    assert given == stream[..r][..|given|];
  }

  /** End of file without a byte of a stream that has some: all data segments are lost, and the FIN is taken. */
  method EarlyEnd(peer: seq<byte>, first: nat, cap: nat) returns (c: Connection, out: seq<byte>)
    requires 0 < |peer| < SEQ && cap > 0
    ensures fresh(c) && c.Valid() && c.stream == peer && c.finRcvd && out == [] && c.given == [] != peer
  {
    c := new Connection(peer, first, 0);
    var syn := Segment(18, (first - 1) % SEQ, 0, []);
    var fin := Segment(1, (first + |peer|) % SEQ, 0, []);
    assert Syn(syn) && Ack(syn) && !Fin(syn) && !Rst(syn) by { Flags18(); }
    assert Fin(fin) && !Syn(fin) && !Rst(fin);
    c.Receive(syn, 0);
    c.Receive(fin, |peer|);
    out := c.Recv(cap);
  }

  lemma Flags18()
    ensures !BitOf(18, 0) && BitOf(18, 1) && !BitOf(18, 2) && BitOf(18, 4)
  {}
}
