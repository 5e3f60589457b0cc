/** The sending side (src/memhookcore/network_mapped_storage.cpp): every call on a network store becomes one
    packet, a length header followed by a request. */
module NetworkClient {
  import opened Records
  import opened ByteOrder
  import opened Serialization
  import opened MappedStorage

  const HEADER := 8

  /** The length header and then the request, in a buffer whose computed size wraps around at 2^64. */
  function Packet(r: NetRequest): seq<Byte> {
    var body := EncodeRequest(r);
    Clip(EncodeWord(Sum64(0, |body|)) + body, Sum64(Sum64(0, |body|), HEADER))
  }

  /** The packet's length is a `std::size_t`; no 64-bit process holds a request that does not fit. */
  predicate FitsMemory(r: NetRequest) {
    |EncodeRequest(r)| + HEADER < TWO64
  }

  lemma PacketWhole(r: NetRequest)
    requires FitsMemory(r)
    ensures Packet(r) == EncodeWord(|EncodeRequest(r)|) + EncodeRequest(r)
  {
    UnwrappedSize(|EncodeRequest(r)|);
  }

  lemma UnwrappedSize(n: nat)
    requires n + HEADER < TWO64
    ensures Sum64(0, n) == n && Sum64(n, HEADER) == n + HEADER
  {
  }

  /** A request that survives the wire. */
  predicate Sendable(r: NetRequest) {
    WireSized(r) && FitsMemory(r)
  }

  function NewStorageRequest(pid: Uint32, now: Tick): NetRequest {
    NetRequest(REQ_NEW_STORAGE, TraceInfoBase(pid, 0, now), [])
  }

  function RequestOf(op: StoreOp): NetRequest {
    match op
    case AddOp(address, memsize, callstack, timestamp) =>
      NetRequest(REQ_ADD, TraceInfoBase(address, memsize, timestamp), callstack)
    case RemoveOp(address) => NetRequest(REQ_REMOVE, TraceInfoBase(address, 0, 0), [])
    case UpdateSizeOp(address, memsize) => NetRequest(REQ_UPDATE_SIZE, TraceInfoBase(address, memsize, 0), [])
    case ClearOp => NetRequest(REQ_CLEAR, TraceInfoBase(0, 0, 0), [])
  }

  /** What a client that was opened at `now` has requested after these calls. */
  ghost function ClientRequests(pid: Uint32, now: Tick, ops: seq<StoreOp>): (rs: seq<NetRequest>)
    ensures |rs| == |ops| + 1
  {
    if ops == [] then [NewStorageRequest(pid, now)]
    else ClientRequests(pid, now, ops[..|ops| - 1]) + [RequestOf(ops[|ops| - 1])]
  }

  lemma {:induction false} ClientRequestsAt(pid: Uint32, now: Tick, ops: seq<StoreOp>)
    ensures var rs := ClientRequests(pid, now, ops);
            && rs[0] == NewStorageRequest(pid, now)
            && forall i :: 0 <= i < |ops| ==> rs[i + 1] == RequestOf(ops[i])
    decreases |ops|
  {
    if ops != [] {
      ClientRequestsAt(pid, now, ops[..|ops| - 1]);
    }
  }

  lemma ClientRequestsSnoc(pid: Uint32, now: Tick, ops: seq<StoreOp>, op: StoreOp)
    ensures ClientRequests(pid, now, ops + [op]) == ClientRequests(pid, now, ops) + [RequestOf(op)]
  {
    assert (ops + [op])[..|ops|] == ops;
  }

  /** The first request tells the server the process, by which it names the new storage, and the time. */
  lemma OpeningTellsProcess(pid: Uint32, now: Tick, ops: seq<StoreOp>, tail: seq<Byte>)
    ensures ParseRequest(EncodeRequest(ClientRequests(pid, now, ops)[0]) + tail)
         == Parsed(NetRequest(REQ_NEW_STORAGE, TraceInfoBase(pid, 0, now), []), tail)
  {
    ClientRequestsAt(pid, now, ops);
    RequestRoundTrip(NewStorageRequest(pid, now), tail);
  }

  class NetworkMappedStorage {
    const host: Endian
    /** Everything pushed into the connection so far, and the requests it came from. */
    var sent: seq<Byte>
    ghost var requests: seq<NetRequest>

    ghost predicate Valid()
      reads this
    {
      sent == Stream(requests)
    }

    constructor (host: Endian, pid: Uint32, now: Tick)
      ensures Valid() && requests == ClientRequests(pid, now, [])
    {
      this.host := host;
      sent, requests := [], [];
      new;
      Send(NewStorageRequest(pid, now));
    }

    /** `serialization::GetSize`. */
    method SizeOfRequest(request: NetRequest) returns (size: Word)
      ensures size == Sum64(0, |EncodeRequest(request)|)
    {
      var sizer := new SizeOf();
      sizer.CallRequest(request);
      size := sizer.size;
    }

    /** Fill a prepared buffer of the packet's size; the source asserts that no room is left. */
    method Serialize(size: Word, request: NetRequest, buf: array<Byte>)
      requires size == Sum64(0, |EncodeRequest(request)|) && buf.Length == Sum64(size, HEADER)
      modifies buf
      ensures buf[..] == Packet(request)
    {
      ghost var body := EncodeRequest(request);
      var writer := new BufferWriter(host, buf);
      writer.CallWord(size);
      ghost var w := writer.Written();
      writer.CallRequest(request);
      EmittedThen([], EncodeWord(size), w, body, writer.Written(), buf.Length);
      EmittedFromStart(EncodeWord(size) + body, writer.Written(), buf.Length);
      WrappedIsLess(|body|);
      assert writer.pos == buf.Length;
    }

    method Send(request: NetRequest)
      requires Valid()
      modifies this
      ensures Valid() && requests == old(requests) + [request]
    {
      var size := SizeOfRequest(request);
      var buf := new Byte[Sum64(size, HEADER)];
      Serialize(size, request, buf);
      sent, requests := sent + buf[..], requests + [request];
      StreamSnoc(old(requests), request);
    }

    method Add(address: Word, memsize: Word, callstack: seq<Frame>, timestamp: Tick)
      requires Valid()
      modifies this
      ensures Valid() && requests == old(requests) + [RequestOf(AddOp(address, memsize, callstack, timestamp))]
    {
      Send(NetRequest(REQ_ADD, TraceInfoBase(address, memsize, timestamp), callstack));
    }

    method Remove(address: Word) returns (ok: bool)
      requires Valid()
      modifies this
      ensures Valid() && requests == old(requests) + [RequestOf(RemoveOp(address))]
      ensures ok
    {
      Send(NetRequest(REQ_REMOVE, TraceInfoBase(address, 0, 0), []));
      ok := true;
    }

    method UpdateSize(address: Word, memsize: Word) returns (ok: bool)
      requires Valid()
      modifies this
      ensures Valid() && requests == old(requests) + [RequestOf(UpdateSizeOp(address, memsize))]
      ensures ok
    {
      Send(NetRequest(REQ_UPDATE_SIZE, TraceInfoBase(address, memsize, 0), []));
      ok := true;
    }

    method Clear()
      requires Valid()
      modifies this
      ensures Valid() && requests == old(requests) + [RequestOf(ClearOp)]
    {
      Send(NetRequest(REQ_CLEAR, TraceInfoBase(0, 0, 0), []));
    }
  }

  /** The computed size of a packet never exceeds its real length. */
  lemma WrappedIsLess(n: nat)
    ensures Sum64(Sum64(0, n), HEADER) <= n + HEADER
  {
  }

  lemma EmittedFromStart(x: seq<Byte>, after: seq<Byte>, n: nat)
    requires Emitted([], x, after, n)
    ensures after == Clip(x, n)
  {
    assert [] + x == x;
  }

  // ---- Streams of packets ----

  ghost predicate AllSendable(rs: seq<NetRequest>) {
    forall i :: 0 <= i < |rs| ==> Sendable(rs[i])
  }

  ghost function Packets(rs: seq<NetRequest>): (ps: seq<seq<Byte>>)
    ensures |ps| == |rs|
  {
    seq(|rs|, i requires 0 <= i < |rs| => Packet(rs[i]))
  }

  /** The bytes of a sequence of packets (or of reads), end to end. */
  ghost function Join(ps: seq<seq<Byte>>): seq<Byte> {
    if ps == [] then [] else Join(ps[..|ps| - 1]) + ps[|ps| - 1]
  }

  /** All bytes of a sequence of requests. */
  ghost function Stream(rs: seq<NetRequest>): seq<Byte> {
    if rs == [] then [] else Stream(rs[..|rs| - 1]) + Packet(rs[|rs| - 1])
  }

  lemma StreamSnoc(rs: seq<NetRequest>, r: NetRequest)
    ensures Stream(rs + [r]) == Stream(rs) + Packet(r)
  {
    assert (rs + [r])[..|rs|] == rs;
  }

  lemma {:induction false} StreamIsJoin(rs: seq<NetRequest>)
    ensures Stream(rs) == Join(Packets(rs))
    decreases |rs|
  {
    if rs != [] {
      StreamIsJoin(rs[..|rs| - 1]);
      assert Packets(rs)[..|rs| - 1] == Packets(rs[..|rs| - 1]);
    }
  }

  lemma {:induction false} JoinSplit(ps: seq<seq<Byte>>, h: nat)
    requires h <= |ps|
    ensures Join(ps[..h]) <= Join(ps)
    ensures h < |ps| ==> Join(ps[..h + 1]) == Join(ps[..h]) + ps[h]
    ensures h < |ps| ==> Join(ps[..h + 1]) <= Join(ps)
    decreases |ps|
  {
    if h == |ps| {
      assert ps[..h] == ps;
    } else {
      var n := |ps| - 1;
      assert ps[..n][..h] == ps[..h];
      JoinSplit(ps[..n], h);
      if h < n {
        assert ps[..n][..h + 1] == ps[..h + 1];
      } else {
        assert ps[..h + 1] == ps;
      }
    }
  }
}
