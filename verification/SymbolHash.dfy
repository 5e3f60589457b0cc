/** The two symbol name hashes of src/memhook/glibc.cpp against their published definitions. */
module SymbolHash {
  import opened Records
  import opened Bits

  // ---- System V hash ----

  /** The gABI folds the high nibble in only when it is not zero. */
  function GabiFold(h: nat): nat {
    var g := And(h, 0xf000_0000);
    if g != 0 then Xor(h, Shr(g, 24)) else h
  }

  function GabiClear(h: nat, g: nat): nat {
    if g <= 0xffff_ffff then And(h, 0xffff_ffff - g) else 0
  }

  /** One step of the ELF hash of the System V gABI, chapter 5, "Hash Table", on a 32-bit `unsigned long`. */
  function GabiStep(h: Uint32, c: Byte): nat {
    var h1 := (h * 16 + c) % TWO32;
    GabiClear(GabiFold(h1), And(h1, 0xf000_0000))
  }

  /** One step of the shortened loop, on a 64-bit `unsigned long`: the high nibble is folded in but never cleared. */
  function ShortStep(h: Word, c: Byte): nat {
    ShortFold((h * 16 + c) % TWO64)
  }

  function ShortFold(h: nat): nat {
    Xor(h, Shr(And(h, 0xf000_0000), 24))
  }

  /** The four bits from bit 28 upwards. */
  function Nibble(h: nat): nat {
    h / TWO28 % 16
  }

  /** What both steps leave in the low 28 bits. */
  function FoldedLow(h: nat): nat {
    Xor(h % TWO28, Nibble(h) * 16)
  }

  lemma NibbleMask(h: nat)
    ensures And(h, 0xf000_0000) == Nibble(h) * TWO28
  {
    AndJoined28(h / TWO28, h % TWO28, 15, 0);
    Ones4(h / TWO28);
  }

  lemma NibbleShifted(h: nat)
    ensures Shr(And(h, 0xf000_0000), 24) == Nibble(h) * 16
  {
    NibbleMask(h);
    PartsAt24(And(h, 0xf000_0000));
  }

  lemma FoldSplit(h: nat)
    ensures Xor(h, Nibble(h) * 16) == h / TWO28 * TWO28 + FoldedLow(h)
    ensures FoldedLow(h) < TWO28
  {
    XorJoined28(h / TWO28, h % TWO28, 0, Nibble(h) * 16);
    XorWithZero(h / TWO28);
  }

  lemma ClearedBits(n: nat, low: nat)
    requires n < 16 && low < TWO28
    ensures And(n * TWO28 + low, (15 - n) * TWO28 + 0xfff_ffff) == low
  {
    var high, x, y := And(n, 15 - n), n * TWO28 + low, (15 - n) * TWO28 + 0xfff_ffff;
    assert And(x, y) == high * TWO28 + And(low, 0xfff_ffff) by {
      AndJoined28(n, low, 15 - n, 0xfff_ffff);
    }
    assert high == 0 by {
      Complement4(n);
    }
    assert And(low, 0xfff_ffff) == low by {
      Ones28(low);
    }
  }

  /** Clearing the high nibble leaves the low bits. */
  lemma ClearNibble(n: nat, low: nat)
    requires n < 16 && low < TWO28
    ensures GabiClear(n * TWO28 + low, n * TWO28) == low
  {
    ClearedBits(n, low);
    assert 0xffff_ffff - n * TWO28 == (15 - n) * TWO28 + 0xfff_ffff;
  }

  lemma GabiFoldIsXor(h: nat)
    ensures GabiFold(h) == Xor(h, Nibble(h) * 16)
  {
    NibbleMask(h);
    NibbleShifted(h);
    XorWithZero(h);
  }

  lemma SmallNibble(h: Uint32)
    ensures Nibble(h) == h / TWO28
  {
  }

  lemma GabiFinish(h: Uint32)
    ensures GabiClear(GabiFold(h), And(h, 0xf000_0000)) == FoldedLow(h) < TWO28
  {
    GabiFoldIsXor(h);
    SmallNibble(h);
    FoldSplit(h);
    NibbleMask(h);
    ClearNibble(Nibble(h), FoldedLow(h));
  }

  lemma GabiStepFolds(h: Uint32, c: Byte)
    ensures GabiStep(h, c) == FoldedLow((h * 16 + c) % TWO32) < TWO28
  {
    GabiFinish((h * 16 + c) % TWO32);
  }

  lemma SameHighPart(x: nat, h: Word)
    requires h / TWO28 * TWO28 <= x < h / TWO28 * TWO28 + TWO28
    ensures x < TWO64
  {
  }

  lemma ShortFoldParts(h: Word)
    ensures ShortFold(h) == h / TWO28 * TWO28 + FoldedLow(h)
    ensures FoldedLow(h) < TWO28
  {
    NibbleShifted(h);
    FoldSplit(h);
  }

  lemma ShortFoldLow(h: Word)
    ensures ShortFold(h) < TWO64 && ShortFold(h) % TWO28 == FoldedLow(h)
  {
    ShortFoldParts(h);
    SameHighPart(ShortFold(h), h);
    JoinedParts(h / TWO28, FoldedLow(h));
  }

  lemma ShortStepFolds(h: Word, c: Byte)
    ensures ShortStep(h, c) % TWO28 == FoldedLow((h * 16 + c) % TWO64)
    ensures ShortStep(h, c) < TWO64
  {
    ShortFoldLow((h * 16 + c) % TWO64);
  }

  lemma LowWordParts(x: nat)
    ensures x % TWO32 % TWO28 == x % TWO28
    ensures x % TWO32 / TWO28 % 16 == x / TWO28 % 16
  {
    var q, r := x / TWO32, x % TWO32;
    var n, l := r / TWO28, r % TWO28;
    JoinedParts(16 * q + n, l);
    assert x == (16 * q + n) * TWO28 + l;
  }

  lemma FoldsLowWord(x: nat)
    ensures FoldedLow(x) == FoldedLow(x % TWO32)
  {
    LowWordParts(x);
  }

  lemma SameLowWord(h: Word, c: Byte)
    ensures FoldedLow((h * 16 + c) % TWO64) == FoldedLow((h % TWO28 * 16 + c) % TWO32)
  {
    FoldsLowWord((h * 16 + c) % TWO64);
    ModOfMod(h * 16 + c);
    assert h * 16 + c == h % TWO28 * 16 + c + h / TWO28 * TWO32;
    ModPlusMultiple(h % TWO28 * 16 + c, h / TWO28);
  }

  /** The bits above the low 28 never influence the low 28. */
  lemma StepsAgree(h: Word, c: Byte)
    ensures ShortStep(h, c) < TWO64
    ensures ShortStep(h, c) % TWO28 == GabiStep(h % TWO28, c) < TWO28
  {
    ShortStepFolds(h, c);
    SameLowWord(h, c);
    GabiStepFolds(h % TWO28, c);
  }

  function GabiHash(name: Text): (h: Uint32)
    ensures h < TWO28
  {
    if name == [] then 0
    else
      GabiStepFolds(GabiHash(name[..|name| - 1]), name[|name| - 1]);
      GabiStep(GabiHash(name[..|name| - 1]), name[|name| - 1])
  }

  lemma SmallParts(x: nat)
    requires x < TWO28
    ensures x % TWO32 == x && x % TWO28 == x && Nibble(x) == 0
  {
  }

  lemma FoldedSmall(x: nat)
    requires x < TWO28
    ensures FoldedLow(x) == x
  {
    SmallParts(x);
    XorWithZero(x);
  }

  /** As long as nothing reaches the high nibble, a step only shifts and adds. */
  lemma GabiHashSnoc(name: Text, c: Byte, h: Uint32)
    requires GabiHash(name) == h && h * 16 + c < TWO28
    ensures GabiHash(name + [c]) == h * 16 + c
  {
    assert (name + [c])[..|name|] == name;
    GabiStepFolds(h, c);
    SmallParts(h * 16 + c);
    FoldedSmall(h * 16 + c);
  }

  /** The published value for "exit". */
  lemma GabiHashOfExit()
    ensures GabiHash([0x65, 0x78, 0x69, 0x74]) == 0x6_cf04
  {
    var e, ex, exi := [] + [0x65], [0x65] + [0x78], [0x65, 0x78] + [0x69];
    GabiHashSnoc([], 0x65, 0);
    assert e == [0x65] && ex == [0x65, 0x78] && exi == [0x65, 0x78, 0x69];
    GabiHashSnoc(e, 0x78, 0x65);
    GabiHashSnoc(ex, 0x69, 0x6c8);
    GabiHashSnoc(exi, 0x74, 0x6ce9);
    assert exi + [0x74] == [0x65, 0x78, 0x69, 0x74];
  }

  const NOT_COMPUTED: Word := 0xffff_ffff

  lemma LowMask(h: nat)
    ensures And(h, 0x0fff_ffff) == h % TWO28
  {
    Ones28(h);
  }

  /** `GLIBC_dl_elf_hash` is the gABI hash; being below 2^28 it is never the "not computed" sentinel. */
  method ElfHash(name: Text) returns (hash: Word)
    ensures hash == GabiHash(name)
    ensures hash < TWO28 && hash != NOT_COMPUTED
  {
    hash := 0;
    var i := 0;
    while i < |name|
      invariant 0 <= i <= |name|
      invariant hash % TWO28 == GabiHash(name[..i])
    {
      assert name[..i + 1][..i] == name[..i];
      StepsAgree(hash, name[i]);
      hash := ShortStep(hash, name[i]);
      i := i + 1;
    }
    assert name[..i] == name;
    LowMask(hash);
    hash := And(hash, 0x0fff_ffff);
  }

  // ---- GNU hash ----

  /** h = 33 h + c on 32 bits, from 5381. */
  function GnuHash(name: Text): (h: Uint32) {
    if name == [] then 5381 else (33 * GnuHash(name[..|name| - 1]) + name[|name| - 1]) % TWO32
  }

  /** The published value for "exit". */
  lemma GnuHashOfExit()
    ensures GnuHash([0x65, 0x78, 0x69, 0x74]) == 0x7c96_7e3f
  {
    var name: Text := [0x65, 0x78, 0x69, 0x74];
    assert name[..0] == [] && name[..1][..0] == [] && name[..2][..1] == name[..1] && name[..3][..2] == name[..2];
    assert GnuHash(name[..1]) == 177674;
    assert GnuHash(name[..2]) == 5863362;
    assert GnuHash(name[..3]) == 193491051;
    assert name[..3] == name[..|name| - 1];
  }

  lemma WideStep(h: nat, c: Byte)
    ensures (h * 33 + c) % TWO64 % TWO32 == (33 * (h % TWO32) + c) % TWO32
  {
    var q := h / TWO32;
    assert h * 33 + c == 33 * (h % TWO32) + c + 33 * q * TWO32;
    ModOfMod(h * 33 + c);
    ModPlusMultiple(33 * (h % TWO32) + c, 33 * q);
  }

  lemma ModOfMod(x: nat)
    ensures x % TWO64 % TWO32 == x % TWO32
  {
    assert x == x % TWO64 + x / TWO64 * TWO64;
    assert x == x % TWO64 + x / TWO64 * TWO32 * TWO32;
    ModPlusMultiple(x % TWO64, x / TWO64 * TWO32);
  }

  lemma ModPlusMultiple(x: nat, k: nat)
    ensures (x + k * TWO32) % TWO32 == x % TWO32
  {
  }

  /** `GLIBC_dl_new_hash`: a 64-bit accumulator, masked once at the end. */
  method NewHash(name: Text) returns (hash: Uint32)
    ensures hash == GnuHash(name)
  {
    var h := 5381;
    var i := 0;
    while i < |name|
      invariant 0 <= i <= |name|
      invariant 0 <= h < TWO64 && h % TWO32 == GnuHash(name[..i])
    {
      assert name[..i + 1][..i] == name[..i];
      WideStep(h, name[i]);
      h := (h * 33 + name[i]) % TWO64;
      i := i + 1;
    }
    assert name[..i] == name;
    hash := h % TWO32;
  }
}
