// The console's two-word boot checksum as a pure reference definition.
// Both implementations (the C `calc_crc_` loop and the Rust register-named
// `NusHeader::crc` loop) are proved to compute exactly this function.

module BootChecksum {
  import opened Base

  /** First byte of the checksum window. */
  const CrcStart: nat := 0x1000
  /** Length of the checksum window in bytes. */
  const CrcLen: nat := 0x100000
  /** One past the last byte of the window: the least image length accepted. */
  const CrcEnd: nat := CrcStart + CrcLen
  /** The window read as big-endian words. */
  const WordCount: nat := CrcLen / 4

  /** Seed of all six accumulators: 0x3f * 0x5d588b65 + 1, wrapped to 32 bits. */
  const Seed: bv32 := 0xF8CA4DDC

  /** The result pair (`NusCrc` in C, `(u32, u32)` in Rust). */
  datatype Crc = Crc(crc1: bv32, crc2: bv32)

  /** The six wrapping accumulators, named as in the C implementation. */
  datatype State = State(t2: bv32, t3: bv32, a2: bv32, t4: bv32, crc1: bv32, crc2: bv32)

  function Initial(): State
  {
    State(Seed, Seed, Seed, Seed, Seed, Seed)
  }

  /** The `k`-th word of the window. */
  function Word(data: seq<byte>, k: nat): bv32
    requires k < WordCount && CrcEnd <= |data|
  {
    BeWord(data, CrcStart + 4 * k)
  }

  /** One pass of the loop body over the word `currentData`, statement by
      statement as `calc_crc_` writes it (src/nusheader.c:144-164): a carry into
      `t2`, a rotation of the word left by its own low five bits, and the
      conditional update of `a2`. When those five bits are 0 the C code shifts
      right by 32; here that shift yields 0, so the rotation is the identity
      (RotationByZero), which is what the algorithm means. */
  function Step(s: State, currentData: bv32): State
  {
    var a1 := s.crc1 + currentData;
    var t2 := if a1 < s.crc1 then s.t2 + 1 else s.t2;
    var v1 := currentData & 0x1F;
    var a0 := (currentData << v1) | (currentData >> (32 - v1));
    var crc1 := a1;
    var t3 := s.t3 ^ currentData;
    var crc2 := s.crc2 + a0;
    var a2 := if s.a2 < currentData then s.a2 ^ (crc1 ^ currentData) else s.a2 ^ a0;
    var t4 := s.t4 + (currentData ^ crc2);
    State(t2, t3, a2, t4, crc1, crc2)
  }

  /** The accumulators after the first `k` words of the window. */
  function Fold(data: seq<byte>, k: nat): State
    requires k <= WordCount && CrcEnd <= |data|
  {
    if k == 0 then Initial() else Step(Fold(data, k - 1), Word(data, k - 1))
  }

  function Finish(s: State): Crc
  {
    Crc(s.crc1 ^ s.t2 ^ s.t3, s.crc2 ^ s.a2 ^ s.t4)
  }

  /** The checksum of an image, or None when the image ends before the window does. */
  function Checksum(data: seq<byte>): Option<Crc>
  {
    if |data| < CrcEnd then None else Some(Finish(Fold(data, WordCount)))
  }

  /** The C seed, written as the signed literal -120959524 stored in a u32, and the
      Rust seed, 0x3f wrapping-multiplied by 0x5d588b65 plus one, are both `Seed`. */
  lemma SeedsAgree()
    ensures 0x1_0000_0000 - 120959524 == Seed as int
    ensures (0x3f * 0x5d588b65 + 1) % 0x1_0000_0000 == Seed as int
  {
  }

  /** A word whose low five bits are 0 is rotated by 0 places: the shift-or
      expression of `Step` leaves it unchanged. */
  lemma RotationByZero(w: bv32)
    requires w & 0x1F == 0
    ensures (w << (w & 0x1F)) | (w >> (32 - (w & 0x1F))) == w
  {
  }

  /** The accumulators depend on nothing but the bytes of the window. */
  lemma {:induction false} FoldWindowOnly(d1: seq<byte>, d2: seq<byte>, k: nat)
    requires CrcEnd <= |d1| && CrcEnd <= |d2| && k <= WordCount
    requires forall i :: CrcStart <= i < CrcEnd ==> d1[i] == d2[i]
    ensures Fold(d1, k) == Fold(d2, k)
  {
    if k > 0 {
      FoldWindowOnly(d1, d2, k - 1);
      var off := CrcStart + 4 * (k - 1);
      assert d1[off..off + 4] == d2[off..off + 4];
      BeBytesOfBeWord(d1, off);
      BeBytesOfBeWord(d2, off);
      BeWordOfBeBytes(Word(d1, k - 1), [], []);
      BeWordOfBeBytes(Word(d2, k - 1), [], []);
    }
  }

  /** Two images long enough to be checksummed that agree on the window have the same checksum. */
  lemma ChecksumWindowOnly(d1: seq<byte>, d2: seq<byte>)
    requires CrcEnd <= |d1| && CrcEnd <= |d2|
    requires forall i :: CrcStart <= i < CrcEnd ==> d1[i] == d2[i]
    ensures Checksum(d1) == Checksum(d2) && Checksum(d1).Some?
  {
    FoldWindowOnly(d1, d2, WordCount);
  }

  /** Replacing the first 64 bytes (the boot header) never changes the checksum. */
  lemma ChecksumIgnoresHeader(data: seq<byte>, header: seq<byte>)
    requires |header| == HeaderSize && CrcEnd <= |data|
    ensures Checksum(header + data[HeaderSize..]) == Checksum(data)
  {
    var stamped := header + data[HeaderSize..];
    forall i | CrcStart <= i < CrcEnd
      ensures stamped[i] == data[i]
    {
    }
    ChecksumWindowOnly(stamped, data);
  }
}
