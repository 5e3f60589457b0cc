/** The protocol between the client and the session, over whole runs: for every sequence of requests and every
    way of splitting their bytes into reads, the session has handled exactly the packets received whole. */
module SessionProtocol {
  import opened Records
  import opened Serialization
  import opened MappedStorage
  import opened NetworkClient
  import opened MemDbSession

  // ---- Runs of the session ----

  ghost function RunSession(chunks: seq<seq<Byte>>): SessionState {
    if chunks == [] then START else Deliver(RunSession(chunks[..|chunks| - 1]), chunks[|chunks| - 1])
  }

  /** Every completed read brought at least the bytes asked for. */
  ghost predicate Legal(chunks: seq<seq<Byte>>) {
    chunks == [] ||
    var prior := chunks[..|chunks| - 1];
    && Legal(prior)
    && RunSession(prior).at.Reading?
    && |chunks[|chunks| - 1]| >= RunSession(prior).at.size
  }

  // ---- What should have happened ----

  /** A client's first request asks for a new storage. */
  ghost predicate ClientStart(rs: seq<NetRequest>) {
    rs != [] ==> rs[0].kind == REQ_NEW_STORAGE
  }

  /** The store after handling the requests one by one, with no network in between. */
  ghost function Replay(rs: seq<NetRequest>): Option<StoreState> {
    if rs == [] then None else
    match Handle(Replay(rs[..|rs| - 1]), rs[|rs| - 1])
    case Handled(st) => Some(st)
    case _ => Replay(rs[..|rs| - 1])
  }

  /** How many of the packets lie wholly in the first `n` bytes. */
  ghost function WholePackets(ps: seq<seq<Byte>>, n: nat): (k: nat)
    ensures k <= |ps|
  {
    if ps == [] then 0
    else if |Join(ps)| <= n then |ps|
    else WholePackets(ps[..|ps| - 1], n)
  }

  /** How many requests precede the first one the server has no case for. */
  ghost function HandledPrefix(rs: seq<NetRequest>): (u: nat)
    ensures u <= |rs|
    ensures forall i :: 0 <= i < u ==> Handles(rs[i].kind)
    ensures u < |rs| ==> !Handles(rs[u].kind)
  {
    if rs == [] || !Handles(rs[0].kind) then 0 else 1 + HandledPrefix(rs[1..])
  }

  lemma {:induction false} ReplayIsDefined(rs: seq<NetRequest>, h: nat)
    requires ClientStart(rs) && h < |rs| && h < HandledPrefix(rs)
    ensures Handle(Replay(rs[..h]), rs[h]).Handled?
    ensures Replay(rs[..h + 1]) == Some(Handle(Replay(rs[..h]), rs[h]).store)
  {
    assert rs[..h + 1][..h] == rs[..h];
    if h > 0 {
      ReplayIsDefined(rs, h - 1);
    }
  }

  // ---- Packets and the two parsers ----

  ghost predicate PacketIs(rs: seq<NetRequest>, ps: seq<seq<Byte>>, i: nat)
    requires i < |rs| && i < |ps|
  {
    Sendable(rs[i]) && ps[i] == Packet(rs[i])
  }

  /** `ps` are the packets of `rs`. */
  ghost predicate Framed(rs: seq<NetRequest>, ps: seq<seq<Byte>>) {
    |rs| == |ps| && forall i: nat {:trigger PacketIs(rs, ps, i)} :: i < |rs| ==> PacketIs(rs, ps, i)
  }

  lemma FramedSize(rs: seq<NetRequest>, ps: seq<seq<Byte>>, h: nat)
    requires Framed(rs, ps) && h < |ps|
    ensures |ps[h]| >= HEADER
  {
    assert PacketIs(rs, ps, h);
    PacketWhole(rs[h]);
  }

  lemma HeaderParses(rs: seq<NetRequest>, ps: seq<seq<Byte>>, h: nat, sbuf: seq<Byte>)
    requires Framed(rs, ps) && h < |ps| && |ps[h]| >= HEADER
    requires ps[h][..HEADER] <= sbuf
    ensures ParseWord(sbuf) == Parsed(|ps[h]| - HEADER, sbuf[HEADER..])
  {
    var body, rest := EncodeRequest(rs[h]), sbuf[HEADER..];
    assert ps[h] == EncodeWord(|body|) + body && |body| < TWO64 by {
      assert PacketIs(rs, ps, h);
      PacketWhole(rs[h]);
    }
    assert sbuf == EncodeWord(|body|) + rest;
    WordRoundTrip(|body|, rest);
  }

  /** With a packet's header in front, `ParseOutbound` waits for the body or goes on to parse it. */
  lemma OutboundStep(rs: seq<NetRequest>, ps: seq<seq<Byte>>, h: nat, sbuf: seq<Byte>, store: Option<StoreState>)
    requires Framed(rs, ps) && h < |ps| && |ps[h]| >= HEADER
    requires ps[h][..HEADER] <= sbuf
    ensures Outbound(sbuf, store) ==
            if |sbuf| < |ps[h]| then SessionState(sbuf[HEADER..], store, Reading(|ps[h]| - |sbuf|, ParseInboundNext))
            else Inbound(sbuf[HEADER..], store)
  {
    HeaderParses(rs, ps, h, sbuf);
  }

  /** With a packet's body in front, `ParseInbound` decodes that request and consumes exactly the body. */
  lemma InboundStep(rs: seq<NetRequest>, ps: seq<seq<Byte>>, h: nat, sbuf: seq<Byte>, store: Option<StoreState>)
    requires Framed(rs, ps) && h < |ps| && |ps[h]| >= HEADER
    requires ps[h][HEADER..] <= sbuf
    ensures var tail := sbuf[|ps[h]| - HEADER..];
            Inbound(sbuf, store) ==
            match Handle(store, rs[h])
            case Unhandled => SessionState(sbuf, store, Reading(0, NoCallback))
            case NullStorage => SessionState(sbuf, store, Faulted)
            case Handled(st) => Outbound(tail, Some(st))
  {
    BodyParses(rs, ps, h, sbuf);
  }

  lemma BodyParses(rs: seq<NetRequest>, ps: seq<seq<Byte>>, h: nat, sbuf: seq<Byte>)
    requires Framed(rs, ps) && h < |ps| && |ps[h]| >= HEADER
    requires ps[h][HEADER..] <= sbuf
    ensures ParseRequest(sbuf) == Parsed(rs[h], sbuf[|ps[h]| - HEADER..])
  {
    assert PacketIs(rs, ps, h);
    PacketWhole(rs[h]);
    var body, tail := EncodeRequest(rs[h]), sbuf[|ps[h]| - HEADER..];
    assert ps[h][HEADER..] == body;
    assert sbuf == body + tail;
    RequestRoundTrip(rs[h], tail);
  }

  // ---- The invariant at each suspension ----

  /** Packet `h` was received whole and is of a type the server has no case for. */
  ghost predicate RefusedAt(rs: seq<NetRequest>, ps: seq<seq<Byte>>, received: seq<Byte>, h: nat) {
    h < |rs| == |ps| && !Handles(rs[h].kind) && Join(ps[..h + 1]) <= received
  }

  /** The session has handled `rs[..h]` and keeps, of what it received, exactly the bytes after those packets
      (and after the next header, once that is read). */
  ghost predicate SyncedAt(s: SessionState, rs: seq<NetRequest>, ps: seq<seq<Byte>>, received: seq<Byte>, h: nat) {
    && h <= |rs| == |ps| && h <= HandledPrefix(rs)
    && s.store == Replay(rs[..h])
    && match s.at
       case Reading(size, ParseOutboundNext) =>
         received == Join(ps[..h]) + s.sbuf && |s.sbuf| < HEADER && size == HEADER - |s.sbuf|
       case Reading(size, ParseInboundNext) =>
         && h < |rs| && |ps[h]| >= HEADER
         && received == Join(ps[..h]) + (ps[h][..HEADER] + s.sbuf)
         && HEADER + |s.sbuf| < |ps[h]| && size == |ps[h]| - HEADER - |s.sbuf|
       case Reading(size, NoCallback) => size == 0 && RefusedAt(rs, ps, received, h)
       case Closed => RefusedAt(rs, ps, received, h)
       case Faulted => false
  }

  /** Of two continuations of `before` inside one stream, the shorter is a prefix of the longer. */
  lemma SameStream(before: seq<Byte>, x: seq<Byte>, y: seq<Byte>, all: seq<Byte>)
    requires before + x <= all && before + y <= all && |x| <= |y|
    ensures x <= y
  {
    forall i | 0 <= i < |x|
      ensures x[i] == y[i]
    {
      assert (before + x)[|before| + i] == all[|before| + i] == (before + y)[|before| + i];
    }
  }

  /** Whatever follows the first `h` packets begins with packet `h`, as far as it reaches. */
  lemma NextPacket(ps: seq<seq<Byte>>, h: nat, sbuf: seq<Byte>)
    requires h <= |ps|
    requires Join(ps[..h]) + sbuf <= Join(ps)
    ensures h == |ps| ==> sbuf == []
    ensures h < |ps| && |sbuf| <= |ps[h]| ==> sbuf <= ps[h]
    ensures h < |ps| && |ps[h]| <= |sbuf| ==> ps[h] <= sbuf
    ensures h < |ps| && |ps[h]| <= |sbuf| ==> Join(ps[..h + 1]) + sbuf[|ps[h]|..] == Join(ps[..h]) + sbuf
  {
    JoinSplit(ps, h);
    var before := Join(ps[..h]);
    if h == |ps| {
      assert ps[..h] == ps;
    } else if |sbuf| <= |ps[h]| {
      SameStream(before, sbuf, ps[h], Join(ps));
    } else {
      SameStream(before, ps[h], sbuf, Join(ps));
    }
    if h < |ps| && |ps[h]| <= |sbuf| {
      assert sbuf == ps[h] + sbuf[|ps[h]|..];
      assert before + ps[h] + sbuf[|ps[h]|..] == before + (ps[h] + sbuf[|ps[h]|..]);
    }
  }

  /** Running the cascade from a packet boundary reaches a synced suspension. */
  lemma {:induction false} OutboundCascade(rs: seq<NetRequest>, ps: seq<seq<Byte>>, h: nat, sbuf: seq<Byte>)
    returns (k: nat)
    requires ClientStart(rs) && Framed(rs, ps) && h <= |rs| && h <= HandledPrefix(rs)
    requires Join(ps[..h]) + sbuf <= Join(ps)
    ensures SyncedAt(Outbound(sbuf, Replay(rs[..h])), rs, ps, Join(ps[..h]) + sbuf, k)
    decreases |rs| - h, 1
  {
    NextPacket(ps, h, sbuf);
    if |sbuf| < HEADER {
      k := h;
    } else {
      FramedSize(rs, ps, h);
      OutboundStep(rs, ps, h, sbuf, Replay(rs[..h]));
      assert sbuf == ps[h][..HEADER] + sbuf[HEADER..];
      if |sbuf| < |ps[h]| {
        k := h;
      } else {
        k := InboundCascade(rs, ps, h, sbuf);
      }
    }
  }

  /** Once a whole packet is there, it is decoded, handled and consumed to its last byte. */
  lemma {:induction false} InboundCascade(rs: seq<NetRequest>, ps: seq<seq<Byte>>, h: nat, sbuf: seq<Byte>)
    returns (k: nat)
    requires ClientStart(rs) && Framed(rs, ps) && h < |rs| && h <= HandledPrefix(rs)
    requires Join(ps[..h]) + sbuf <= Join(ps)
    requires HEADER <= |ps[h]| <= |sbuf|
    ensures SyncedAt(Inbound(sbuf[HEADER..], Replay(rs[..h])), rs, ps, Join(ps[..h]) + sbuf, k)
    decreases |rs| - h, 0
  {
    NextPacket(ps, h, sbuf);
    var tail := sbuf[|ps[h]|..];
    assert sbuf[HEADER..][|ps[h]| - HEADER..] == tail;
    InboundStep(rs, ps, h, sbuf[HEADER..], Replay(rs[..h]));
    if !Handles(rs[h].kind) {
      k := h;
    } else {
      ReplayIsDefined(rs, h);
      k := OutboundCascade(rs, ps, h + 1, tail);
    }
  }

  lemma DeliverKeepsSync(s: SessionState, rs: seq<NetRequest>, ps: seq<seq<Byte>>, received: seq<Byte>,
                         bytes: seq<Byte>, h: nat)
    returns (k: nat)
    requires ClientStart(rs) && Framed(rs, ps) && SyncedAt(s, rs, ps, received, h)
    requires s.at.Reading? && s.at.callback != NoCallback && |bytes| >= s.at.size
    requires received + bytes <= Join(ps)
    ensures SyncedAt(Deliver(s, bytes), rs, ps, received + bytes, k)
    ensures Deliver(s, bytes).at.Reading? ==> Deliver(s, bytes).at.callback != NoCallback
  {
    var before := Join(ps[..h]);
    if s.at.callback == ParseOutboundNext {
      assert received + bytes == before + (s.sbuf + bytes);
      k := OutboundCascade(rs, ps, h, s.sbuf + bytes);
    } else {
      var sbuf := ps[h][..HEADER] + (s.sbuf + bytes);
      assert received + bytes == before + sbuf;
      assert sbuf[HEADER..] == s.sbuf + bytes;
      k := InboundCascade(rs, ps, h, sbuf);
    }
  }

  /** The invariant holds at every suspension of every legal run. */
  lemma {:induction false} RunsStaySynced(rs: seq<NetRequest>, ps: seq<seq<Byte>>, chunks: seq<seq<Byte>>)
    returns (h: nat)
    requires ClientStart(rs) && Framed(rs, ps) && Legal(chunks) && Join(chunks) <= Join(ps)
    ensures SyncedAt(RunSession(chunks), rs, ps, Join(chunks), h)
    ensures RunSession(chunks).at.Reading? ==> RunSession(chunks).at.callback != NoCallback
  {
    if chunks == [] {
      h := 0;
    } else {
      var prior, bytes := chunks[..|chunks| - 1], chunks[|chunks| - 1];
      var g := RunsStaySynced(rs, ps, prior);
      h := DeliverKeepsSync(RunSession(prior), rs, ps, Join(prior), bytes, g);
    }
  }

  // ---- The theorems ----

  lemma {:induction false} WholePacketsIs(ps: seq<seq<Byte>>, n: nat, h: nat)
    requires h <= |ps| && |Join(ps[..h])| <= n
    requires h < |ps| ==> n < |Join(ps[..h + 1])|
    ensures WholePackets(ps, n) == h
  {
    if h < |ps| {
      JoinSplit(ps, h);
      var prior := ps[..|ps| - 1];
      assert prior[..h] == ps[..h];
      if h < |prior| {
        assert prior[..h + 1] == ps[..h + 1];
      }
      WholePacketsIs(prior, n, h);
    } else {
      assert ps[..h] == ps;
    }
  }

  lemma {:induction false} WholePacketsAtLeast(ps: seq<seq<Byte>>, n: nat, h: nat)
    requires h <= |ps| && |Join(ps[..h])| <= n
    ensures WholePackets(ps, n) >= h
  {
    assert ps[..|ps|] == ps;
    if ps != [] && |Join(ps)| > n {
      assert ps[..|ps| - 1][..h] == ps[..h];
      WholePacketsAtLeast(ps[..|ps| - 1], n, h);
    }
  }

  lemma FramedPackets(rs: seq<NetRequest>)
    requires AllSendable(rs)
    ensures Framed(rs, Packets(rs))
  {
    var ps := Packets(rs);
    forall i: nat | i < |rs|
      ensures PacketIs(rs, ps, i)
    {
    }
  }

  /** For every client stream, every split of its bytes into reads and every suspension: the session has handled
      exactly the requests whose packets it received whole, in order, unless one of them is of a type the server
      has no case for, which closes the session. It never faults. */
  lemma SessionHandlesWholePackets(rs: seq<NetRequest>, chunks: seq<seq<Byte>>)
    requires AllSendable(rs) && ClientStart(rs)
    requires Legal(chunks) && Join(chunks) <= Join(Packets(rs))
    ensures var s := RunSession(chunks);
            var whole := WholePackets(Packets(rs), |Join(chunks)|);
            var known := HandledPrefix(rs);
            if whole <= known then s.at.Reading? && s.at.size > 0 && s.store == Replay(rs[..whole])
            else s.at == Closed && s.store == Replay(rs[..known])
  {
    var ps := Packets(rs);
    FramedPackets(rs);
    var h := RunsStaySynced(rs, ps, chunks);
    var s, received := RunSession(chunks), Join(chunks);
    if s.at.Reading? {
      if h < |ps| {
        JoinSplit(ps, h);
        FramedSize(rs, ps, h);
      }
      WholePacketsIs(ps, |received|, h);
    } else {
      WholePacketsAtLeast(ps, |received|, h + 1);
    }
  }

  // ---- Client calls against a local store ----

  /** `NewStorage`, then any calls but `Clear`, which the server does not implement. */
  ghost predicate Supported(ops: seq<StoreOp>) {
    forall i :: 0 <= i < |ops| ==> !ops[i].ClearOp?
  }

  /** Handling a client's request is the local call. */
  lemma HandleIsLocalCall(st: StoreState, op: StoreOp)
    requires !op.ClearOp?
    ensures Handle(Some(st), RequestOf(op)) == Handled(ApplyOp(st, op))
  {
    var r := RequestOf(op);
    match op
    case AddOp(_, _, _, _) => assert r.kind == REQ_ADD;
    case RemoveOp(_) => assert r.kind == REQ_REMOVE;
    case UpdateSizeOp(_, _) => assert r.kind == REQ_UPDATE_SIZE;
  }

  lemma ReplaySnoc(rs: seq<NetRequest>, r: NetRequest)
    requires Handle(Replay(rs), r).Handled?
    ensures Replay(rs + [r]) == Some(Handle(Replay(rs), r).store)
  {
    assert (rs + [r])[..|rs|] == rs;
  }

  lemma {:induction false} ReplayIsLocal(pid: Uint32, now: Tick, ops: seq<StoreOp>)
    requires Supported(ops)
    ensures Replay(ClientRequests(pid, now, ops)) == Some(RunOps(ops))
  {
    if ops == [] {
      assert [] + [NewStorageRequest(pid, now)] == [NewStorageRequest(pid, now)];
      ReplaySnoc([], NewStorageRequest(pid, now));
    } else {
      var prior, op := ops[..|ops| - 1], ops[|ops| - 1];
      ReplayIsLocal(pid, now, prior);
      HandleIsLocalCall(RunOps(prior), op);
      ReplaySnoc(ClientRequests(pid, now, prior), RequestOf(op));
    }
  }

  lemma {:induction false} ClientRequestsPrefix(pid: Uint32, now: Tick, ops: seq<StoreOp>, k: nat)
    requires k <= |ops|
    ensures ClientRequests(pid, now, ops)[..k + 1] == ClientRequests(pid, now, ops[..k])
  {
    if k == |ops| {
      assert ops[..k] == ops;
    } else {
      assert ops[..|ops| - 1][..k] == ops[..k];
      ClientRequestsPrefix(pid, now, ops[..|ops| - 1], k);
    }
  }

  lemma SupportedAreHandled(pid: Uint32, now: Tick, ops: seq<StoreOp>)
    requires Supported(ops)
    ensures var rs := ClientRequests(pid, now, ops);
            ClientStart(rs) && HandledPrefix(rs) == |rs|
  {
    var rs := ClientRequests(pid, now, ops);
    ClientRequestsAt(pid, now, ops);
    forall i | 0 <= i < |rs|
      ensures Handles(rs[i].kind)
    {
      assert i > 0 ==> rs[i] == RequestOf(ops[i - 1]);
    }
  }

  /** A local store after the calls of the first `k` requests. */
  ghost function LocalAfter(ops: seq<StoreOp>, k: nat): Option<StoreState>
    requires k <= |ops| + 1
  {
    if k == 0 then None else Some(RunOps(ops[..k - 1]))
  }

  lemma ReplayOfPrefix(pid: Uint32, now: Tick, ops: seq<StoreOp>, k: nat)
    requires Supported(ops) && k <= |ops| + 1
    ensures Replay(ClientRequests(pid, now, ops)[..k]) == LocalAfter(ops, k)
  {
    if k > 0 {
      ClientRequestsPrefix(pid, now, ops, k - 1);
      ReplayIsLocal(pid, now, ops[..k - 1]);
    }
  }

  lemma HandledSession(rs: seq<NetRequest>, chunks: seq<seq<Byte>>)
    requires AllSendable(rs) && ClientStart(rs) && HandledPrefix(rs) == |rs|
    requires Legal(chunks) && Join(chunks) <= Join(Packets(rs))
    ensures var whole := WholePackets(Packets(rs), |Join(chunks)|);
            RunSession(chunks).at.Reading? && RunSession(chunks).store == Replay(rs[..whole])
  {
    SessionHandlesWholePackets(rs, chunks);
  }

  /** Whenever the session waits, its store is the store a local process would have after the calls whose
      packets have arrived. */
  lemma ServerStoreIsLocalStore(pid: Uint32, now: Tick, ops: seq<StoreOp>, rs: seq<NetRequest>,
                                chunks: seq<seq<Byte>>)
    requires Supported(ops) && rs == ClientRequests(pid, now, ops) && AllSendable(rs)
    requires Legal(chunks) && Join(chunks) <= Join(Packets(rs))
    ensures var whole := WholePackets(Packets(rs), |Join(chunks)|);
            RunSession(chunks).at.Reading? && RunSession(chunks).store == LocalAfter(ops, whole)
  {
    SupportedAreHandled(pid, now, ops);
    var whole := WholePackets(Packets(rs), |Join(chunks)|);
    assert Replay(rs[..whole]) == LocalAfter(ops, whole) by {
      ReplayOfPrefix(pid, now, ops, whole);
    }
    HandledSession(rs, chunks);
  }
}
