/** The receiving side (src/memdb/memdb_session.cpp): a chain of read callbacks that cuts an arbitrarily split
    byte stream into packets and replays the requests on a store. */
module MemDbSession {
  import opened Records
  import opened ByteOrder
  import opened Serialization
  import opened MappedStorage
  import opened NetworkClient

  /** `NoCallback` is the null callback that goes with a read of zero bytes. */
  datatype Callback = ParseOutboundNext | ParseInboundNext | NoCallback

  /** What the session waits for. `Faulted` stands for the undefined behaviour of reading past the buffer or
      using a null storage pointer. */
  datatype Suspension = Reading(size: nat, callback: Callback) | Closed | Faulted

  datatype SessionState = SessionState(sbuf: seq<Byte>, store: Option<StoreState>, at: Suspension)

  const START := SessionState([], None, Reading(HEADER, ParseOutboundNext))

  // ---- Handling one request ----

  datatype Outcome = Handled(store: StoreState) | Unhandled | NullStorage

  predicate Handles(kind: Uint32) {
    kind == REQ_ADD || kind == REQ_REMOVE || kind == REQ_UPDATE_SIZE || kind == REQ_NEW_STORAGE
  }

  function Handle(store: Option<StoreState>, r: NetRequest): Outcome {
    if !Handles(r.kind) then Unhandled
    else if r.kind == REQ_NEW_STORAGE then Handled(EMPTY_STORE)
    else if store == None then NullStorage
    else if r.kind == REQ_ADD then
      Handled(AddRecord(store.value, r.traceinfo.address, r.traceinfo.memsize, r.callstack, r.traceinfo.timestamp))
    else if r.kind == REQ_REMOVE then Handled(RemoveRecord(store.value, r.traceinfo.address))
    else Handled(ResizeRecord(store.value, r.traceinfo.address, r.traceinfo.memsize))
  }

  // ---- The parse cascade ----

  /** `ParseOutbound`: the two parsers call each other for as long as the buffer lasts. */
  function Outbound(sbuf: seq<Byte>, store: Option<StoreState>): SessionState
    decreases |sbuf|
  {
    if |sbuf| < HEADER then SessionState(sbuf, store, Reading(HEADER - |sbuf|, ParseOutboundNext)) else
    var size, rest := ParseWord(sbuf).value, sbuf[HEADER..];
    if |rest| < size then SessionState(rest, store, Reading(size - |rest|, ParseInboundNext))
    else Inbound(rest, store)
  }

  function Inbound(sbuf: seq<Byte>, store: Option<StoreState>): SessionState
    decreases |sbuf|
  {
    match ParseRequest(sbuf)
    case Overrun => SessionState(sbuf, store, Faulted)
    case Parsed(request, rest) =>
      match Handle(store, request)
      case Unhandled => SessionState(sbuf, store, Reading(0, NoCallback))
      case NullStorage => SessionState(sbuf, store, Faulted)
      case Handled(st) => Outbound(rest, Some(st))
  }

  /** A request to read zero bytes closes the connection. */
  function Settle(s: SessionState): SessionState {
    if s.at.Reading? && s.at.size == 0 then s.(at := Closed) else s
  }

  /** `OnReadComplete` without an error. */
  function Deliver(s: SessionState, bytes: seq<Byte>): SessionState {
    match s.at
    case Reading(_, ParseOutboundNext) => Settle(Outbound(s.sbuf + bytes, s.store))
    case Reading(_, ParseInboundNext) => Settle(Inbound(s.sbuf + bytes, s.store))
    case _ => s
  }

  /** For every input whatsoever, a read of zero bytes is asked for only where a request of an unhandled type
      stands at the head of the buffer. */
  lemma {:induction false} ZeroReadMeansUnhandled(sbuf: seq<Byte>, store: Option<StoreState>, outbound: bool)
    ensures var s := if outbound then Outbound(sbuf, store) else Inbound(sbuf, store);
            s.at.Reading? && (s.at.size == 0 || s.at.callback == NoCallback) ==>
              ParseRequest(s.sbuf).Parsed? && !Handles(ParseRequest(s.sbuf).value.kind)
    decreases |sbuf|
  {
    if outbound {
      if |sbuf| >= HEADER && |sbuf[HEADER..]| >= ParseWord(sbuf).value {
        ZeroReadMeansUnhandled(sbuf[HEADER..], store, false);
      }
    } else {
      var p := ParseRequest(sbuf);
      if p.Parsed? && Handle(store, p.value).Handled? {
        ZeroReadMeansUnhandled(p.rest, Some(Handle(store, p.value).store), true);
      }
    }
  }

  /** The session as an object; each method computes the functions above. */
  class MemDBSession {
    const host: Endian
    var sbuf: seq<Byte>
    var storage: BasicMappedStorage?
    var at: Suspension

    ghost function Repr(): set<object>
      reads this
    {
      if storage == null then {this} else {this, storage}
    }

    ghost function Store(): Option<StoreState>
      reads this, storage
    {
      if storage == null then None else Some(storage.State())
    }

    ghost function State(): SessionState
      reads this, storage
    {
      SessionState(sbuf, Store(), at)
    }

    /** Construction followed by `Start`. */
    constructor (host: Endian)
      ensures State() == START && storage == null
    {
      this.host := host;
      sbuf, storage, at := [], null, Reading(HEADER, ParseOutboundNext);
    }

    method HandleNetRequest(request: NetRequest) returns (ok: bool)
      requires request.kind == REQ_NEW_STORAGE || storage != null || !Handles(request.kind)
      modifies Repr()
      ensures fresh(Repr() - old(Repr()))
      ensures sbuf == old(sbuf) && at == old(at)
      ensures !ok <==> Handle(old(Store()), request) == Unhandled
      ensures ok ==> storage != null && Handle(old(Store()), request) == Handled(storage.State())
      ensures !ok ==> Store() == old(Store())
    {
      if request.kind == REQ_ADD {
        storage.Add(request.traceinfo.address, request.traceinfo.memsize, request.callstack,
                    request.traceinfo.timestamp);
        return true;
      } else if request.kind == REQ_REMOVE {
        var _ := storage.Remove(request.traceinfo.address);
        return true;
      } else if request.kind == REQ_UPDATE_SIZE {
        var _ := storage.UpdateSize(request.traceinfo.address, request.traceinfo.memsize);
        return true;
      } else if request.kind == REQ_NEW_STORAGE {
        storage := new BasicMappedStorage();
        return true;
      }
      return false;
    }

    method ParseOutbound()
      modifies Repr()
      ensures fresh(Repr() - old(Repr()))
      ensures State() == Outbound(old(sbuf), old(Store()))
      decreases |sbuf|, 0
    {
      if |sbuf| < HEADER {
        at := Reading(HEADER - |sbuf|, ParseOutboundNext);
        return;
      }
      var reader := new BufferReader(host, sbuf);
      var header := reader.CallWord();
      sbuf := reader.rest;
      if |sbuf| < header.value {
        at := Reading(header.value - |sbuf|, ParseInboundNext);
        return;
      }
      ParseInbound();
    }

    /** `serialization::Read` of a request from a view of the buffer. */
    method ReadRequest() returns (p: Parsed<NetRequest>)
      ensures p == ParseRequest(sbuf)
    {
      var reader := new BufferReader(host, sbuf);
      var request := reader.CallRequest();
      p := if request == None then Overrun else Parsed(request.value, reader.rest);
    }

    method ParseInbound()
      modifies Repr()
      ensures fresh(Repr() - old(Repr()))
      ensures State() == Inbound(old(sbuf), old(Store()))
      decreases |sbuf|, 0
    {
      var p := ReadRequest();
      if p == Overrun || (storage == null && Handles(p.value.kind) && p.value.kind != REQ_NEW_STORAGE) {
        at := Faulted;
        return;
      }
      var ok := HandleNetRequest(p.value);
      if !ok {
        at := Reading(0, NoCallback);
        return;
      }
      Consume(p.rest);
    }

    /** The end of `ParseInbound`: drop what was decoded and look for the next header. */
    method Consume(rest: seq<Byte>)
      modifies Repr()
      ensures fresh(Repr() - old(Repr()))
      ensures State() == Outbound(rest, old(Store()))
      decreases |rest|, 1
    {
      sbuf := rest;
      if |sbuf| < HEADER {
        at := Reading(HEADER - |sbuf|, ParseOutboundNext);
        return;
      }
      ParseOutbound();
    }

    /** An error or the end of the stream stops the chain of callbacks. */
    method OnReadComplete(error: bool, bytes: seq<Byte>)
      requires at.Reading? && at.callback != NoCallback
      modifies Repr()
      ensures fresh(Repr() - old(Repr()))
      ensures error ==> State() == old(State()).(at := Closed)
      ensures !error ==> State() == Deliver(old(State()), bytes)
    {
      if error {
        at := Closed;
        return;
      }
      sbuf := sbuf + bytes;
      if at.callback == ParseOutboundNext {
        ParseOutbound();
      } else {
        ParseInbound();
      }
      CloseOnZero();
    }

    /** No further read is started when none is asked for. */
    method CloseOnZero()
      modifies this`at
      ensures State() == Settle(old(State()))
    {
      if at.Reading? && at.size == 0 {
        at := Closed;
      }
    }
  }
}
