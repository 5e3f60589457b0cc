/** Byte order of integers on the wire: `hton`/`ntoh` of include/memhook/byteswap.h and
    `ByteOrderingConv` of include/memhook/serialization.h. */
module ByteOrder {
  import opened Records

  function Pow256(n: nat): (p: nat)
    ensures p > 0
  {
    if n == 0 then 1 else 256 * Pow256(n - 1)
  }

  lemma WidthLimits()
    ensures Pow256(4) == TWO32
    ensures Pow256(8) == TWO64
  {
    assert Pow256(4) == 256 * (256 * (256 * (256 * Pow256(0))));
    assert Pow256(8) == 256 * (256 * (256 * (256 * Pow256(4))));
  }

  function BigEndian(width: nat, v: nat): (b: seq<Byte>)
    ensures |b| == width
  {
    if width == 0 then [] else BigEndian(width - 1, v / 256) + [v % 256]
  }

  function BigEndianValue(b: seq<Byte>): (v: nat)
    ensures v < Pow256(|b|)
  {
    if b == [] then 0 else 256 * BigEndianValue(b[..|b| - 1]) + b[|b| - 1]
  }

  function LittleEndian(width: nat, v: nat): (b: seq<Byte>)
    ensures |b| == width
  {
    if width == 0 then [] else [v % 256] + LittleEndian(width - 1, v / 256)
  }

  function LittleEndianValue(b: seq<Byte>): (v: nat)
    ensures v < Pow256(|b|)
  {
    if b == [] then 0 else b[0] + 256 * LittleEndianValue(b[1..])
  }

  /** Decoding inverts encoding for every value that fits the width. */
  lemma {:induction false} BigEndianRoundTrip(width: nat, v: nat)
    requires v < Pow256(width)
    ensures BigEndianValue(BigEndian(width, v)) == v
  {
    if width > 0 {
      BigEndianRoundTrip(width - 1, v / 256);
      var b := BigEndian(width, v);
      assert b[..|b| - 1] == BigEndian(width - 1, v / 256);
    }
  }

  lemma LowByte(low: Byte, high: nat)
    ensures (low + 256 * high) % 256 == low && (low + 256 * high) / 256 == high
  {
  }

  /** Encoding inverts decoding for every byte sequence. */
  lemma {:induction false} BigEndianOfValue(b: seq<Byte>)
    ensures BigEndian(|b|, BigEndianValue(b)) == b
  {
    if b != [] {
      var front, last := b[..|b| - 1], b[|b| - 1];
      var v := BigEndianValue(front);
      LowByte(last, v);
      BigEndianOfValue(front);
      assert BigEndian(|b|, last + 256 * v) == BigEndian(|b| - 1, v) + [last];
      assert b == front + [last];
    }
  }

  lemma {:induction false} LittleEndianOfValue(b: seq<Byte>)
    ensures LittleEndian(|b|, LittleEndianValue(b)) == b
  {
    if b != [] {
      var first, rest := b[0], b[1..];
      var v := LittleEndianValue(rest);
      LowByte(first, v);
      LittleEndianOfValue(rest);
      assert LittleEndian(|b|, first + 256 * v) == [first] + LittleEndian(|b| - 1, v);
      assert b == [first] + rest;
    }
  }

  function Reversed(b: seq<Byte>): (r: seq<Byte>)
    ensures |r| == |b|
    ensures forall i :: 0 <= i < |b| ==> r[i] == b[|b| - 1 - i]
  {
    if b == [] then [] else Reversed(b[1..]) + [b[0]]
  }

  /** The two byte orders mirror each other. */
  lemma {:induction false} LittleMirrorsBig(width: nat, v: nat)
    ensures LittleEndian(width, v) == Reversed(BigEndian(width, v))
  {
    if width > 0 {
      LittleMirrorsBig(width - 1, v / 256);
    }
  }

  /** Which end is which. */
  lemma ByteOrderSample()
    ensures BigEndian(4, 0x0102_0304) == [1, 2, 3, 4] && LittleEndian(4, 0x0102_0304) == [4, 3, 2, 1]
  {
    assert BigEndian(1, 1) == [1] && BigEndian(2, 0x102) == [1, 2] && BigEndian(3, 0x1_0203) == [1, 2, 3];
    assert LittleEndian(1, 1) == [1] && LittleEndian(2, 0x102) == [2, 1] && LittleEndian(3, 0x1_0203) == [3, 2, 1];
  }

  datatype Endian = LittleHost | BigHost

  /** The bytes of an integer object in the host's memory. */
  function HostBytes(host: Endian, width: nat, v: nat): (b: seq<Byte>)
    ensures |b| == width
  {
    if host.LittleHost? then LittleEndian(width, v) else BigEndian(width, v)
  }

  function HostValue(host: Endian, b: seq<Byte>): (v: nat)
    ensures v < Pow256(|b|)
  {
    if host.LittleHost? then LittleEndianValue(b) else BigEndianValue(b)
  }

  /** `MEMHOOK_BYTESWAP_*`: the value whose memory image is the mirrored one. */
  function ByteSwap(width: nat, v: nat): (r: nat)
    ensures r < Pow256(width)
  {
    BigEndianValue(LittleEndian(width, v))
  }

  function Hton(host: Endian, width: nat, v: nat): nat {
    if host.LittleHost? then ByteSwap(width, v) else v
  }

  function Ntoh(host: Endian, width: nat, v: nat): nat {
    if host.LittleHost? then ByteSwap(width, v) else v
  }

  /** Whatever the sender's byte order, copying `hton(v)` to the buffer puts the big-endian image there. */
  lemma HtonWritesBigEndian(host: Endian, width: nat, v: nat)
    requires v < Pow256(width)
    ensures HostBytes(host, width, Hton(host, width, v)) == BigEndian(width, v)
  {
    if host.LittleHost? {
      var swapped := ByteSwap(width, v);
      LittleMirrorsBig(width, swapped);
      BigEndianOfValue(LittleEndian(width, v));
      LittleMirrorsBig(width, v);
    }
  }

  /** Whatever the receiver's byte order, `ntoh` of the loaded bytes is their big-endian value. */
  lemma NtohReadsBigEndian(host: Endian, b: seq<Byte>)
    ensures Ntoh(host, |b|, HostValue(host, b)) == BigEndianValue(b)
  {
    if host.LittleHost? {
      LittleEndianOfValue(b);
    }
  }
}
