/** The interface `MappedStorage` (include/memhook/mapped_storage.h): the engine calls it without knowing whether a
    local container or a connection to a server stands behind it. */
module AnyStorage {
  import opened Records
  import opened ByteOrder
  import opened OrderedIndex
  import opened MappedStorage
  import opened NetworkClient

  /** `calls` are the calls made so far. A local store is what they build; a network store has sent them. */
  class Storage {
    const local: BasicMappedStorage?
    const remote: NetworkMappedStorage?
    ghost const pid: Uint32
    ghost const start: Tick
    ghost var calls: seq<StoreOp>

    ghost function Repr(): set<object>
      reads this
    {
      {this} + (if local == null then {} else {local}) + (if remote == null then {} else {remote})
    }

    /** The store behind has carried out these calls and no others. */
    ghost predicate CarriedOut(ops: seq<StoreOp>)
      reads this, local, remote
    {
      && (local == null) != (remote == null)
      && (local != null ==> local.State() == RunOps(ops))
      && (remote != null ==> remote.Valid() && remote.requests == ClientRequests(pid, start, ops))
    }

    /** The quantifier keeps `CarriedOut` folded for callers, who only pass `Valid` on. */
    ghost predicate Valid()
      reads this, local, remote
    {
      forall ops {:trigger CarriedOut(ops)} :: ops == calls ==> CarriedOut(ops)
    }

    constructor Local()
      ensures Valid() && fresh(Repr()) && local != null && calls == []
    {
      local := new BasicMappedStorage();
      remote, calls := null, [];
    }

    constructor Remote(host: Endian, pid: Uint32, now: Tick)
      ensures Valid() && fresh(Repr()) && remote != null && calls == []
      ensures this.pid == pid && this.start == now
    {
      local, calls := null, [];
      remote := new NetworkMappedStorage(host, pid, now);
      this.pid, this.start := pid, now;
    }

    /** One more call, which the store behind has carried out. */
    ghost method Log(op: StoreOp)
      requires (local == null) != (remote == null)
      requires local != null ==> local.State() == ApplyOp(RunOps(calls), op)
      requires remote != null ==>
                 remote.Valid() && remote.requests == ClientRequests(pid, start, calls) + [RequestOf(op)]
      modifies this
      ensures Valid() && calls == old(calls) + [op]
    {
      RunOpsSnoc(calls, op);
      ClientRequestsSnoc(pid, start, calls, op);
      calls := calls + [op];
      assert CarriedOut(calls);
    }

    method Add(address: Word, memsize: Word, callstack: seq<Frame>, timestamp: Tick)
      requires Valid()
      modifies Repr()
      ensures Valid() && calls == old(calls) + [AddOp(address, memsize, callstack, timestamp)]
    {
      assert CarriedOut(calls);
      if local != null {
        local.Add(address, memsize, callstack, timestamp);
      } else {
        remote.Add(address, memsize, callstack, timestamp);
      }
      Log(AddOp(address, memsize, callstack, timestamp));
    }

    /** A network store cannot tell whether the address was there. */
    method Remove(address: Word) returns (ok: bool)
      requires Valid()
      modifies Repr()
      ensures Valid() && calls == old(calls) + [RemoveOp(address)]
      ensures ok <==> remote != null || Has(old(RunOps(calls)).byAddress, address)
    {
      assert CarriedOut(calls);
      if local != null {
        ok := local.Remove(address);
      } else {
        ok := remote.Remove(address);
      }
      Log(RemoveOp(address));
    }

    method UpdateSize(address: Word, memsize: Word) returns (ok: bool)
      requires Valid()
      modifies Repr()
      ensures Valid() && calls == old(calls) + [UpdateSizeOp(address, memsize)]
      ensures ok <==> remote != null || Has(old(RunOps(calls)).byAddress, address)
    {
      assert CarriedOut(calls);
      if local != null {
        ok := local.UpdateSize(address, memsize);
      } else {
        ok := remote.UpdateSize(address, memsize);
      }
      Log(UpdateSizeOp(address, memsize));
    }

    method Clear()
      requires Valid()
      modifies Repr()
      ensures Valid() && calls == old(calls) + [ClearOp]
    {
      assert CarriedOut(calls);
      if local != null {
        local.Clear();
      } else {
        remote.Clear();
      }
      Log(ClearOp);
    }
  }
}
