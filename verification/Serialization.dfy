/** The wire format of include/memhook/serialization.h: what `BufferWriter` emits, what `SizeOf` counts and
    what `BufferReader` accepts, for the types a `NetRequest` is made of. */
module Serialization {
  import opened Records
  import opened ByteOrder

  // ---- Integer conversions the source makes on the way to and from the wire ----

  /** `static_cast<int32_t>` of an enumerator. */
  function AsInt32(v: Uint32): Int32 {
    if v < 0x8000_0000 then v else v - TWO32
  }

  function AsUint32(v: Int32): Uint32 {
    if v >= 0 then v else v + TWO32
  }

  function AsWord(t: Tick): Word {
    if t >= 0 then t else t + TWO64
  }

  function AsTick(w: Word): Tick {
    if w < TWO63 then w else w - TWO64
  }

  /** `static_cast<uint32_t>(seq.size())`. */
  function Truncated(n: nat): Uint32 {
    n % TWO32
  }

  // ---- Encoding ----

  function EncodeUint32(v: Uint32): seq<Byte> {
    BigEndian(4, v)
  }

  function EncodeWord(v: Word): seq<Byte> {
    BigEndian(8, v)
  }

  /** Enumerators travel as `int32_t`. */
  function EncodeEnum(v: Uint32): seq<Byte> {
    BigEndian(4, AsUint32(AsInt32(v)))
  }

  function EncodeTick(t: Tick): seq<Byte> {
    BigEndian(8, AsWord(t))
  }

  /** A text of 2^32 bytes or more loses all but its length modulo 2^32. */
  function EncodeText(s: Text): seq<Byte> {
    EncodeUint32(Truncated(|s|)) + s[..Truncated(|s|)]
  }

  function EncodeFrame(f: Frame): seq<Byte> {
    EncodeText(f.shlPath) + EncodeText(f.procname)
    + EncodeWord(f.shlAddr) + EncodeWord(f.ip) + EncodeWord(f.sp) + EncodeWord(f.offp)
  }

  function EncodeFrames(fs: seq<Frame>): seq<Byte> {
    if fs == [] then [] else EncodeFrame(fs[0]) + EncodeFrames(fs[1..])
  }

  function EncodeTraceInfo(t: TraceInfoBase): seq<Byte> {
    EncodeWord(t.address) + EncodeWord(t.memsize) + EncodeTick(t.timestamp)
  }

  /** A list writes its truncated length and then every element it has. */
  function EncodeCallstack(fs: seq<Frame>): seq<Byte> {
    EncodeUint32(Truncated(|fs|)) + EncodeFrames(fs)
  }

  function EncodeRequest(r: NetRequest): seq<Byte> {
    EncodeEnum(r.kind) + EncodeTraceInfo(r.traceinfo) + EncodeCallstack(r.callstack)
  }

  // ---- Decoding ----

  /** The reader never checks how much is left; running past the end is undefined behaviour, here `Overrun`. */
  datatype Parsed<+T> = Overrun | Parsed(value: T, rest: seq<Byte>) {
    predicate IsFailure() { Overrun? }

    function PropagateFailure<U>(): Parsed<U>
      requires Overrun?
    {
      Overrun
    }

    function Extract(): (T, seq<Byte>)
      requires Parsed?
    {
      (value, rest)
    }
  }

  function ParseUint32(b: seq<Byte>): Parsed<Uint32> {
    if |b| < 4 then Overrun else
    WidthLimits();
    Parsed(BigEndianValue(b[..4]), b[4..])
  }

  function ParseWord(b: seq<Byte>): Parsed<Word> {
    if |b| < 8 then Overrun else
    WidthLimits();
    Parsed(BigEndianValue(b[..8]), b[8..])
  }

  /** Enumerators are read back through `uint32_t`, not through the `int32_t` they were written from. */
  function ParseEnum(b: seq<Byte>): Parsed<Uint32> {
    ParseUint32(b)
  }

  function ParseTick(b: seq<Byte>): Parsed<Tick> {
    var (w, rest) :- ParseWord(b);
    Parsed(AsTick(w), rest)
  }

  function ParseText(b: seq<Byte>): (p: Parsed<Text>)
    ensures p.Parsed? ==> |p.value| < TWO32
  {
    var (n, rest) :- ParseUint32(b);
    if |rest| < n then Overrun else Parsed(rest[..n], rest[n..])
  }

  function ParseFrame(b: seq<Byte>): (p: Parsed<Frame>)
    ensures p.Parsed? ==> SizedFrame(p.value) && |p.rest| < |b|
  {
    var (shlPath, b1) :- ParseText(b);
    var (procname, b2) :- ParseText(b1);
    var (shlAddr, b3) :- ParseWord(b2);
    var (ip, b4) :- ParseWord(b3);
    var (sp, b5) :- ParseWord(b4);
    var (offp, b6) :- ParseWord(b5);
    Parsed(Frame(shlPath, procname, shlAddr, ip, sp, offp), b6)
  }

  /** `CallSeq` for any element type: exactly `n` elements, one after the other. */
  function ParseSeq<T>(parse: seq<Byte> -> Parsed<T>, n: nat, b: seq<Byte>): (p: Parsed<seq<T>>)
    ensures p.Parsed? ==> |p.value| == n
    decreases n
  {
    if n == 0 then Parsed([], b) else
    var (x, b1) :- parse(b);
    var (xs, b2) :- ParseSeq(parse, n - 1, b1);
    Parsed([x] + xs, b2)
  }

  /** What decoding one frame promises. */
  ghost predicate FrameDecoded(b: seq<Byte>, p: Parsed<Frame>) {
    p.Parsed? ==> SizedFrame(p.value) && |p.rest| < |b|
  }

  lemma {:induction false} ParsedElements(parse: seq<Byte> -> Parsed<Frame>, n: nat, b: seq<Byte>)
    requires forall c :: FrameDecoded(c, parse(c))
    ensures var p := ParseSeq(parse, n, b);
            p.Parsed? ==> |p.rest| <= |b| && AllSized(p.value)
    decreases n
  {
    var first := parse(b);
    if n > 0 && first.Parsed? {
      assert FrameDecoded(b, first);
      ParsedElements(parse, n - 1, first.rest);
      var p := ParseSeq(parse, n - 1, first.rest);
      assert p.Parsed? ==> ([first.value] + p.value)[1..] == p.value;
    }
  }

  lemma ParsedFrames(n: nat, b: seq<Byte>)
    ensures var p := ParseSeq(ParseFrame, n, b);
            p.Parsed? ==> |p.rest| <= |b| && AllSized(p.value)
  {
    forall c ensures FrameDecoded(c, ParseFrame(c)) {
    }
    ParsedElements(ParseFrame, n, b);
  }

  function ParseTraceInfo(b: seq<Byte>): (p: Parsed<TraceInfoBase>)
    ensures p.Parsed? ==> |p.rest| < |b|
  {
    var (address, b1) :- ParseWord(b);
    var (memsize, b2) :- ParseWord(b1);
    var (timestamp, b3) :- ParseTick(b2);
    Parsed(TraceInfoBase(address, memsize, timestamp), b3)
  }

  function ParseCallstack(b: seq<Byte>): (p: Parsed<seq<Frame>>)
    ensures p.Parsed? ==> |p.value| < TWO32 && AllSized(p.value) && |p.rest| < |b|
  {
    var (n, b1) :- ParseUint32(b);
    ParsedFrames(n, b1);
    ParseSeq(ParseFrame, n, b1)
  }

  /** Every decoded request has lengths that fit their headers. */
  function ParseRequest(b: seq<Byte>): (p: Parsed<NetRequest>)
    ensures p.Parsed? ==> WireSized(p.value) && |p.rest| < |b|
  {
    var (kind, b1) :- ParseEnum(b);
    var (traceinfo, b2) :- ParseTraceInfo(b1);
    var (callstack, b3) :- ParseCallstack(b2);
    Parsed(NetRequest(kind, traceinfo, callstack), b3)
  }

  // ---- Round trip ----

  predicate SizedFrame(f: Frame) {
    |f.shlPath| < TWO32 && |f.procname| < TWO32
  }

  predicate AllSized(fs: seq<Frame>) {
    fs == [] || (SizedFrame(fs[0]) && AllSized(fs[1..]))
  }

  /** All lengths fit the `uint32_t` they travel in. */
  predicate WireSized(r: NetRequest) {
    |r.callstack| < TWO32 && AllSized(r.callstack)
  }

  lemma Assoc(a: seq<Byte>, b: seq<Byte>, c: seq<Byte>)
    ensures a + b + c == a + (b + c)
  {
  }

  lemma TruncatedSmall(n: nat)
    requires n < TWO32
    ensures Truncated(n) == n
  {
  }

  lemma Uint32RoundTrip(v: Uint32, tail: seq<Byte>)
    ensures ParseUint32(EncodeUint32(v) + tail) == Parsed(v, tail)
  {
    WidthLimits();
    BigEndianRoundTrip(4, v);
    var b := EncodeUint32(v) + tail;
    assert b[..4] == EncodeUint32(v) && b[4..] == tail;
  }

  lemma WordRoundTrip(v: Word, tail: seq<Byte>)
    ensures ParseWord(EncodeWord(v) + tail) == Parsed(v, tail)
  {
    WidthLimits();
    BigEndianRoundTrip(8, v);
    var b := EncodeWord(v) + tail;
    assert b[..8] == EncodeWord(v) && b[8..] == tail;
  }

  lemma EnumRoundTrip(v: Uint32, tail: seq<Byte>)
    ensures ParseEnum(EncodeEnum(v) + tail) == Parsed(v, tail)
  {
    Uint32RoundTrip(v, tail);
  }

  lemma TickRoundTrip(t: Tick, tail: seq<Byte>)
    ensures ParseTick(EncodeTick(t) + tail) == Parsed(t, tail)
  {
    WordRoundTrip(AsWord(t), tail);
  }

  lemma TextRoundTrip(s: Text, tail: seq<Byte>)
    requires |s| < TWO32
    ensures ParseText(EncodeText(s) + tail) == Parsed(s, tail)
  {
    TruncatedSmall(|s|);
    assert s[..|s|] == s;
    Assoc(EncodeUint32(|s|), s, tail);
    assert (s + tail)[..|s|] == s && (s + tail)[|s|..] == tail;
    Uint32RoundTrip(|s|, s + tail);
  }

  /** A text of any length arrives cut to its length modulo 2^32, and what follows it is not affected. */
  lemma TextIsCut(s: Text, tail: seq<Byte>)
    ensures ParseText(EncodeText(s) + tail) == Parsed(s[..|s| % TWO32], tail)
  {
    var n: nat := Truncated(|s|);
    var cut := s[..n];
    Assoc(EncodeUint32(n), cut, tail);
    assert (cut + tail)[..n] == cut && (cut + tail)[n..] == tail;
    Uint32RoundTrip(n, cut + tail);
  }

  lemma FrameRoundTrip(f: Frame, tail: seq<Byte>)
    requires SizedFrame(f)
    ensures ParseFrame(EncodeFrame(f) + tail) == Parsed(f, tail)
  {
    var t6 := EncodeWord(f.offp) + tail;
    var t5 := EncodeWord(f.sp) + t6;
    var t4 := EncodeWord(f.ip) + t5;
    var t3 := EncodeWord(f.shlAddr) + t4;
    var t2 := EncodeText(f.procname) + t3;
    assert EncodeFrame(f) + tail == EncodeText(f.shlPath) + t2;
    TextRoundTrip(f.shlPath, t2);
    TextRoundTrip(f.procname, t3);
    WordRoundTrip(f.shlAddr, t4);
    WordRoundTrip(f.ip, t5);
    WordRoundTrip(f.sp, t6);
    WordRoundTrip(f.offp, tail);
  }

  lemma ParseSeqCons<T>(parse: seq<Byte> -> Parsed<T>, x: T, n: nat, b: seq<Byte>, rest: seq<Byte>)
    requires parse(b) == Parsed(x, rest) && ParseSeq(parse, n, rest).Parsed?
    ensures var p := ParseSeq(parse, n, rest);
            ParseSeq(parse, n + 1, b) == Parsed([x] + p.value, p.rest)
  {
  }

  lemma {:induction false} FramesRoundTrip(fs: seq<Frame>, tail: seq<Byte>)
    requires AllSized(fs)
    ensures ParseSeq(ParseFrame, |fs|, EncodeFrames(fs) + tail) == Parsed(fs, tail)
  {
    if fs == [] {
      assert EncodeFrames(fs) + tail == tail;
    } else {
      var t := EncodeFrames(fs[1..]) + tail;
      Assoc(EncodeFrame(fs[0]), EncodeFrames(fs[1..]), tail);
      FrameRoundTrip(fs[0], t);
      FramesRoundTrip(fs[1..], tail);
      ParseSeqCons(ParseFrame, fs[0], |fs| - 1, EncodeFrames(fs) + tail, t);
      assert fs == [fs[0]] + fs[1..];
    }
  }

  lemma TraceInfoRoundTrip(t: TraceInfoBase, tail: seq<Byte>)
    ensures ParseTraceInfo(EncodeTraceInfo(t) + tail) == Parsed(t, tail)
  {
    var t3 := EncodeTick(t.timestamp) + tail;
    var t2 := EncodeWord(t.memsize) + t3;
    assert EncodeTraceInfo(t) + tail == EncodeWord(t.address) + t2;
    WordRoundTrip(t.address, t2);
    WordRoundTrip(t.memsize, t3);
    TickRoundTrip(t.timestamp, tail);
  }

  lemma CallstackRoundTrip(fs: seq<Frame>, tail: seq<Byte>)
    requires |fs| < TWO32
    requires AllSized(fs)
    ensures ParseCallstack(EncodeCallstack(fs) + tail) == Parsed(fs, tail)
  {
    TruncatedSmall(|fs|);
    Assoc(EncodeUint32(|fs|), EncodeFrames(fs), tail);
    Uint32RoundTrip(|fs|, EncodeFrames(fs) + tail);
    FramesRoundTrip(fs, tail);
  }

  /** The codec law: reading what was written gives the request back and leaves exactly the tail,
      for every tail, if and only if every length fits its 32-bit header. */
  lemma RequestRoundTrip(r: NetRequest, tail: seq<Byte>)
    ensures WireSized(r) <==> ParseRequest(EncodeRequest(r) + tail) == Parsed(r, tail)
  {
    if WireSized(r) {
      var t2 := EncodeCallstack(r.callstack) + tail;
      var t1 := EncodeTraceInfo(r.traceinfo) + t2;
      Assoc(EncodeEnum(r.kind) + EncodeTraceInfo(r.traceinfo), EncodeCallstack(r.callstack), tail);
      Assoc(EncodeEnum(r.kind), EncodeTraceInfo(r.traceinfo), t2);
      EnumRoundTrip(r.kind, t1);
      TraceInfoRoundTrip(r.traceinfo, t2);
      CallstackRoundTrip(r.callstack, tail);
    }
  }

  // ---- SizeOf ----

  /** `std::size_t` addition. */
  function Sum64(a: nat, n: nat): Word {
    (a + n) % TWO64
  }

  lemma Sum64Assoc(a: nat, m: nat, n: nat)
    ensures Sum64(Sum64(a, m), n) == Sum64(a, m + n)
  {
  }

  /** Counts, modulo 2^64, the bytes that `BufferWriter` would emit. */
  class SizeOf {
    var size: Word

    constructor ()
      ensures size == 0
    {
      size := 0;
    }

    method CallInteger(width: nat)
      modifies this
      ensures size == Sum64(old(size), width)
    {
      size := Sum64(size, width);
    }

    method CallText(s: Text)
      modifies this
      ensures size == Sum64(old(size), |EncodeText(s)|)
    {
      ghost var n: nat := Truncated(|s|);
      assert |EncodeText(s)| == 4 + n;
      Sum64Assoc(size, 4, n);
      CallInteger(4);
      size := Sum64(size, Truncated(|s|));
    }

    method CallFrame(f: Frame)
      modifies this
      ensures size == Sum64(old(size), |EncodeFrame(f)|)
    {
      ghost var m, n := |EncodeText(f.shlPath)|, |EncodeText(f.procname)|;
      assert |EncodeFrame(f)| == m + n + 32;
      Sum64Assoc(size, m, n);
      Sum64Assoc(size, m + n, 8);
      Sum64Assoc(size, m + n + 8, 8);
      Sum64Assoc(size, m + n + 16, 8);
      Sum64Assoc(size, m + n + 24, 8);
      CallText(f.shlPath);
      CallText(f.procname);
      CallInteger(8);
      CallInteger(8);
      CallInteger(8);
      CallInteger(8);
    }

    method CallFrames(fs: seq<Frame>)
      modifies this
      ensures size == Sum64(old(size), |EncodeFrames(fs)|)
    {
      var i := 0;
      while i < |fs|
        invariant 0 <= i <= |fs|
        invariant size == Sum64(old(size), |EncodeFrames(fs[..i])|)
      {
        Sum64Assoc(old(size), |EncodeFrames(fs[..i])|, |EncodeFrame(fs[i])|);
        EncodeFramesSnoc(fs[..i], fs[i]);
        assert fs[..i] + [fs[i]] == fs[..i + 1];
        CallFrame(fs[i]);
        i := i + 1;
      }
      assert fs[..i] == fs;
    }

    method CallCallstack(fs: seq<Frame>)
      modifies this
      ensures size == Sum64(old(size), |EncodeCallstack(fs)|)
    {
      Sum64Assoc(size, 4, |EncodeFrames(fs)|);
      assert |EncodeCallstack(fs)| == 4 + |EncodeFrames(fs)|;
      CallInteger(4);
      CallFrames(fs);
    }

    /** `serialization::GetSize` of a request. */
    method CallRequest(r: NetRequest)
      modifies this
      ensures size == Sum64(old(size), |EncodeRequest(r)|)
    {
      ghost var n := |EncodeCallstack(r.callstack)|;
      assert |EncodeRequest(r)| == 4 + 24 + n;
      Sum64Assoc(size, 4, 8);
      Sum64Assoc(size, 12, 8);
      Sum64Assoc(size, 20, 8);
      Sum64Assoc(size, 28, n);
      CallInteger(4);
      CallInteger(8);
      CallInteger(8);
      CallInteger(8);
      CallCallstack(r.callstack);
    }
  }

  // ---- BufferWriter ----

  /** What is left of `s` in a buffer of `n` bytes: asio copies and advances no further than the end. */
  function Clip(s: seq<Byte>, n: nat): seq<Byte> {
    if |s| <= n then s else s[..n]
  }

  /** Emitting `x` took the written part of an `n`-byte buffer from `before` to `after`. */
  ghost predicate Emitted(before: seq<Byte>, x: seq<Byte>, after: seq<Byte>, n: nat) {
    after == Clip(before + x, n)
  }

  lemma EmittedThen(a: seq<Byte>, x: seq<Byte>, b: seq<Byte>, y: seq<Byte>, c: seq<Byte>, n: nat)
    requires Emitted(a, x, b, n) && Emitted(b, y, c, n)
    ensures Emitted(a, x + y, c, n)
  {
    assert a + (x + y) == a + x + y;
  }

  class BufferWriter {
    const host: Endian
    const buf: array<Byte>
    var pos: nat

    ghost predicate Valid()
      reads this
    {
      pos <= buf.Length
    }

    ghost function Written(): seq<Byte>
      requires Valid()
      reads this, buf
    {
      buf[..pos]
    }

    constructor (host: Endian, buf: array<Byte>)
      ensures Valid() && this.buf == buf && Written() == []
    {
      this.host := host;
      this.buf := buf;
      pos := 0;
    }

    /** `buffer_copy` followed by advancing the buffer, both of which stop at the end. */
    method Put(bytes: seq<Byte>)
      requires Valid()
      modifies this, buf
      ensures Valid() && Emitted(old(Written()), bytes, Written(), buf.Length)
    {
      var n := if |bytes| <= buf.Length - pos then |bytes| else buf.Length - pos;
      forall i | 0 <= i < n {
        buf[pos + i] := bytes[i];
      }
      pos := pos + n;
      assert forall i :: 0 <= i < n ==> buf[old(pos) + i] == bytes[i];
    }

    method CallInteger(width: nat, v: nat)
      requires Valid()
      requires v < Pow256(width)
      modifies this, buf
      ensures Valid() && Emitted(old(Written()), BigEndian(width, v), Written(), buf.Length)
    {
      HtonWritesBigEndian(host, width, v);
      Put(HostBytes(host, width, Hton(host, width, v)));
    }

    method CallWord(v: Word)
      requires Valid()
      modifies this, buf
      ensures Valid() && Emitted(old(Written()), EncodeWord(v), Written(), buf.Length)
    {
      WidthLimits();
      CallInteger(8, v);
    }

    method CallUint32(v: Uint32)
      requires Valid()
      modifies this, buf
      ensures Valid() && Emitted(old(Written()), EncodeUint32(v), Written(), buf.Length)
    {
      WidthLimits();
      CallInteger(4, v);
    }

    method CallText(s: Text)
      requires Valid()
      modifies this, buf
      ensures Valid() && Emitted(old(Written()), EncodeText(s), Written(), buf.Length)
    {
      ghost var w0 := Written();
      var size := Truncated(|s|);
      CallUint32(size);
      ghost var w1 := Written();
      if size != 0 {
        Put(s[..size]);
      }
      EmittedThen(w0, EncodeUint32(size), w1, s[..size], Written(), buf.Length);
    }

    method CallTexts(s: Text, t: Text)
      requires Valid()
      modifies this, buf
      ensures Valid() && Emitted(old(Written()), EncodeText(s) + EncodeText(t), Written(), buf.Length)
    {
      ghost var w0 := Written();
      CallText(s);
      ghost var w1 := Written();
      CallText(t);
      EmittedThen(w0, EncodeText(s), w1, EncodeText(t), Written(), buf.Length);
    }

    method CallFrame(f: Frame)
      requires Valid()
      modifies this, buf
      ensures Valid() && Emitted(old(Written()), EncodeFrame(f), Written(), buf.Length)
    {
      ghost var n, w0 := buf.Length, Written();
      CallTexts(f.shlPath, f.procname);
      ghost var x := EncodeText(f.shlPath) + EncodeText(f.procname);
      ghost var w1 := Written();
      CallWord(f.shlAddr);
      EmittedThen(w0, x, w1, EncodeWord(f.shlAddr), Written(), n);
      ghost var w2 := Written();
      CallWord(f.ip);
      EmittedThen(w0, x + EncodeWord(f.shlAddr), w2, EncodeWord(f.ip), Written(), n);
      ghost var w3 := Written();
      CallWord(f.sp);
      EmittedThen(w0, x + EncodeWord(f.shlAddr) + EncodeWord(f.ip), w3, EncodeWord(f.sp), Written(), n);
      ghost var w4 := Written();
      CallWord(f.offp);
      EmittedThen(w0, x + EncodeWord(f.shlAddr) + EncodeWord(f.ip) + EncodeWord(f.sp), w4,
                  EncodeWord(f.offp), Written(), n);
    }

    method CallFrames(fs: seq<Frame>)
      requires Valid()
      modifies this, buf
      ensures Valid() && Emitted(old(Written()), EncodeFrames(fs), Written(), buf.Length)
    {
      ghost var n, w0 := buf.Length, Written();
      assert fs[..0] == [] && w0 + [] == w0;
      var i := 0;
      while i < |fs|
        invariant 0 <= i <= |fs|
        invariant Valid() && Emitted(w0, EncodeFrames(fs[..i]), Written(), n)
      {
        ghost var w := Written();
        CallFrame(fs[i]);
        EmittedThen(w0, EncodeFrames(fs[..i]), w, EncodeFrame(fs[i]), Written(), n);
        EncodeFramesSnoc(fs[..i], fs[i]);
        assert fs[..i] + [fs[i]] == fs[..i + 1];
        i := i + 1;
      }
      assert fs[..i] == fs;
    }

    method CallCallstack(fs: seq<Frame>)
      requires Valid()
      modifies this, buf
      ensures Valid() && Emitted(old(Written()), EncodeCallstack(fs), Written(), buf.Length)
    {
      ghost var w0 := Written();
      CallUint32(Truncated(|fs|));
      ghost var w1 := Written();
      CallFrames(fs);
      EmittedThen(w0, EncodeUint32(Truncated(|fs|)), w1, EncodeFrames(fs), Written(), buf.Length);
    }

    method CallTraceInfo(t: TraceInfoBase)
      requires Valid()
      modifies this, buf
      ensures Valid() && Emitted(old(Written()), EncodeTraceInfo(t), Written(), buf.Length)
    {
      ghost var n, w0 := buf.Length, Written();
      CallWord(t.address);
      ghost var w1 := Written();
      CallWord(t.memsize);
      EmittedThen(w0, EncodeWord(t.address), w1, EncodeWord(t.memsize), Written(), n);
      ghost var w2 := Written();
      CallWord(AsWord(t.timestamp));
      EmittedThen(w0, EncodeWord(t.address) + EncodeWord(t.memsize), w2, EncodeTick(t.timestamp), Written(), n);
    }

    /** `serialization::Write` of a request. */
    method CallRequest(r: NetRequest)
      requires Valid()
      modifies this, buf
      ensures Valid() && Emitted(old(Written()), EncodeRequest(r), Written(), buf.Length)
    {
      ghost var n, w0 := buf.Length, Written();
      CallUint32(AsUint32(AsInt32(r.kind)));
      ghost var w1 := Written();
      CallTraceInfo(r.traceinfo);
      EmittedThen(w0, EncodeEnum(r.kind), w1, EncodeTraceInfo(r.traceinfo), Written(), n);
      ghost var w2 := Written();
      CallCallstack(r.callstack);
      EmittedThen(w0, EncodeEnum(r.kind) + EncodeTraceInfo(r.traceinfo), w2,
                  EncodeCallstack(r.callstack), Written(), n);
    }
  }

  lemma {:induction false} EncodeFramesSnoc(fs: seq<Frame>, f: Frame)
    ensures EncodeFrames(fs + [f]) == EncodeFrames(fs) + EncodeFrame(f)
  {
    if fs == [] {
      assert fs + [f] == [f];
      assert EncodeFrames([f]) == EncodeFrame(f) + EncodeFrames([]);
    } else {
      assert (fs + [f])[1..] == fs[1..] + [f];
      EncodeFramesSnoc(fs[1..], f);
    }
  }

  // ---- BufferReader ----

  /** `r` and the reader's new position are what `p` says; nothing is promised after an overrun. */
  ghost predicate Follows<T(!new)>(r: Option<T>, rest: seq<Byte>, p: Parsed<T>) {
    match p
    case Overrun => r == None
    case Parsed(v, t) => r == Some(v) && rest == t
  }

  /** `ParseSeq` with the elements read so far in front. */
  ghost function ParseMore<T>(parse: seq<Byte> -> Parsed<T>, xs: seq<T>, n: nat, b: seq<Byte>): Parsed<seq<T>>
    decreases n
  {
    if n == 0 then Parsed(xs, b) else
    match parse(b)
    case Overrun => Overrun
    case Parsed(x, rest) => ParseMore(parse, xs + [x], n - 1, rest)
  }

  lemma {:induction false} ParseMoreIs<T>(parse: seq<Byte> -> Parsed<T>, xs: seq<T>, n: nat, b: seq<Byte>)
    ensures ParseMore(parse, xs, n, b) ==
            match ParseSeq(parse, n, b)
            case Overrun => Overrun
            case Parsed(more, rest) => Parsed(xs + more, rest)
    decreases n
  {
    if n == 0 {
      assert xs + [] == xs;
    } else if parse(b).Parsed? {
      var x, rest := parse(b).value, parse(b).rest;
      ParseMoreIs(parse, xs + [x], n - 1, rest);
      var p := ParseSeq(parse, n - 1, rest);
      assert p.Parsed? ==> xs + [x] + p.value == xs + ([x] + p.value);
    }
  }

  ghost predicate DecodesFrame(parse: seq<Byte> -> Parsed<Frame>, b: seq<Byte>) {
    parse(b) == ParseFrame(b)
  }

  ghost predicate IsFrameParser(parse: seq<Byte> -> Parsed<Frame>) {
    forall b {:trigger DecodesFrame(parse, b)} :: DecodesFrame(parse, b)
  }

  class BufferReader {
    const host: Endian
    var rest: seq<Byte>

    constructor (host: Endian, bytes: seq<Byte>)
      ensures rest == bytes
    {
      this.host := host;
      rest := bytes;
    }

    method CallInteger(width: nat) returns (r: Option<nat>)
      modifies this
      ensures |old(rest)| < width ==> r == None
      ensures |old(rest)| >= width ==>
        r == Some(BigEndianValue(old(rest)[..width])) && rest == old(rest)[width..]
    {
      if |rest| < width {
        return None;
      }
      NtohReadsBigEndian(host, rest[..width]);
      r := Some(Ntoh(host, width, HostValue(host, rest[..width])));
      rest := rest[width..];
    }

    method CallUint32() returns (r: Option<Uint32>)
      modifies this
      ensures Follows(r, rest, ParseUint32(old(rest)))
    {
      WidthLimits();
      var v :- CallInteger(4);
      r := Some(v);
    }

    method CallWord() returns (r: Option<Word>)
      modifies this
      ensures Follows(r, rest, ParseWord(old(rest)))
    {
      WidthLimits();
      var v :- CallInteger(8);
      r := Some(v);
    }

    method CallText() returns (r: Option<Text>)
      modifies this
      ensures Follows(r, rest, ParseText(old(rest)))
    {
      var size :- CallUint32();
      if |rest| < size {
        return None;
      }
      r := Some(rest[..size]);
      rest := rest[size..];
    }

    method CallFrame() returns (r: Option<Frame>)
      modifies this
      ensures Follows(r, rest, ParseFrame(old(rest)))
    {
      var shlPath :- CallText();
      var procname :- CallText();
      var shlAddr :- CallWord();
      var ip :- CallWord();
      var sp :- CallWord();
      var offp :- CallWord();
      r := Some(Frame(shlPath, procname, shlAddr, ip, sp, offp));
    }

    /** `parse` is `ParseFrame`, held abstract so that the loop that calls this is about sequences only. */
    method CallElement(ghost parse: seq<Byte> -> Parsed<Frame>) returns (r: Option<Frame>)
      requires IsFrameParser(parse)
      modifies this
      ensures Follows(r, rest, parse(old(rest)))
    {
      assert DecodesFrame(parse, rest);
      r := CallFrame();
    }

    /** The loop of `ReaderImpl::CallSeq`: append decoded elements until the count is used up. */
    method CallElements(count: nat, ghost parse: seq<Byte> -> Parsed<Frame>) returns (r: Option<seq<Frame>>)
      requires IsFrameParser(parse)
      modifies this
      ensures Follows(r, rest, ParseSeq(parse, count, old(rest)))
    {
      var size := count;
      var fs: seq<Frame> := [];
      ParseMoreIs(parse, [], count, rest);
      ghost var goal := ParseSeq(parse, count, rest);
      assert goal.Parsed? ==> [] + goal.value == goal.value;
      while size != 0
        invariant ParseMore(parse, fs, size, rest) == goal
        decreases size
      {
        var f :- CallElement(parse);
        fs := fs + [f];
        size := size - 1;
      }
      r := Some(fs);
    }

    method CallCallstack() returns (r: Option<seq<Frame>>)
      modifies this
      ensures Follows(r, rest, ParseCallstack(old(rest)))
    {
      var size :- CallUint32();
      r := CallElements(size, ParseFrame);
    }

    /** `serialization::Read` of a request. */
    method CallRequest() returns (r: Option<NetRequest>)
      modifies this
      ensures Follows(r, rest, ParseRequest(old(rest)))
    {
      var kind :- CallUint32();
      var address :- CallWord();
      var memsize :- CallWord();
      var timestamp :- CallWord();
      var callstack :- CallCallstack();
      r := Some(NetRequest(kind, TraceInfoBase(address, memsize, AsTick(timestamp)), callstack));
    }
  }
}
