/** The plain records that memhook passes between its parts: call stack frames, trace records and
    network requests (include/memhook/callstack.h, traceinfo.h, network.h), for a 64-bit process. */
module Records {
  const TWO32 := 0x1_0000_0000
  const TWO63 := 0x8000_0000_0000_0000
  const TWO64 := 0x1_0000_0000_0000_0000

  type Byte = b: int | 0 <= b < 256
  type Text = seq<Byte>
  type Uint32 = v: int | 0 <= v < TWO32
  type Int32 = v: int | -0x8000_0000 <= v < 0x8000_0000
  /** `uintptr_t` and `std::size_t`. */
  type Word = v: int | 0 <= v < TWO64
  /** The count of a `system_clock::time_point`, a signed 64-bit integer. */
  type Tick = v: int | -TWO63 <= v < TWO63

  datatype Option<+T> = None | Some(value: T) {
    predicate IsFailure() { None? }

    function PropagateFailure<U>(): Option<U>
      requires None?
    {
      None
    }

    function Extract(): T
      requires Some?
    {
      value
    }
  }

  /** One frame as the unwinder reports it (`CallStackInfoItem`). */
  datatype Frame = Frame(shlPath: Text, procname: Text, shlAddr: Word, ip: Word, sp: Word, offp: Word)

  /** One frame as a store keeps it (`TraceInfoCallStackItem`): the texts live in symbol tables. */
  datatype StoredFrame = StoredFrame(shlAddr: Word, ip: Word, sp: Word, offp: Word)

  /** A frame's code and stack pointers, which identify it. */
  datatype Call = Call(ip: Word, sp: Word)
  type Trail = seq<Call>

  function TrailOf(fs: seq<StoredFrame>): (t: Trail)
    ensures |t| == |fs|
  {
    seq(|fs|, i requires 0 <= i < |fs| => Call(fs[i].ip, fs[i].sp))
  }

  /** A traced allocation; `F` is `Frame` in the engine's cache and `StoredFrame` in a store. */
  datatype TraceInfo<F> = TraceInfo(address: Word, memsize: Word, timestamp: Tick, callstack: seq<F>)

  /** `TraceInfoBase`. */
  datatype TraceInfoBase = TraceInfoBase(address: Word, memsize: Word, timestamp: Tick)

  /** `NetReqType` is an unscoped enumeration with values above 2^31, so its underlying type is unsigned. */
  const REQ_ADD: Uint32 := 0xfd1a73e7
  const REQ_REMOVE: Uint32 := 0x68801d30
  const REQ_UPDATE_SIZE: Uint32 := 0x23ac73f5
  const REQ_CLEAR: Uint32 := 0xe5b1f106
  const REQ_NEW_STORAGE: Uint32 := 0x8f3948da

  datatype NetRequest = NetRequest(kind: Uint32, traceinfo: TraceInfoBase, callstack: seq<Frame>)
}
