// The Rust implementation of the boot header: the `NusHeader` struct with a
// `String` title and a `u64` first reserved field, its `Default`, the
// `Vec`-building `to_bytes`, `set_crc`, and the register-named checksum loop.

module NusHeaderRs {
  import opened Base
  import opened ErrorRs
  import BootChecksum

  const TitleLen: nat := 0x14
  /** ASCII '0', the fill character of the title. */
  const TitleFill: char := '0'

  /** The value of a Rust `NusHeader`. */
  datatype Header = Header(
    cfgFlags: bv32,
    clckRate: bv32,
    bootAddr: bv32,
    luVer: bv32,
    crc: BootChecksum.Crc,
    reserved1: bv64,
    title: string,
    reserved2: Bytes7,
    category: byte,
    unique: Bytes2,
    destination: byte,
    version: byte)

  /** `impl Default for NusHeader`. */
  function DefaultValue(): Header
  {
    Header(0x8037_1240, 0xF, 0x8001_0000, 0, BootChecksum.Crc(0, 0), 0, "",
           Fill(7, 0), 0x4E /* b'N' */, [0, 0], 0x41 /* b'A' */, 0)
  }

  /** The UTF-8 encoding of one scalar value. */
  function Utf8Char(c: char): (r: seq<byte>)
    ensures 1 <= |r| <= 4
    ensures (c as int < 0x80) == (|r| == 1)
    ensures c as int < 0x80 ==> r == [c as int as byte]
  {
    var n := c as int;
    if n < 0x80 then [n as byte]
    else if n < 0x800 then [(0xC0 + n / 0x40) as byte, (0x80 + n % 0x40) as byte]
    else if n < 0x1_0000 then
      [(0xE0 + n / 0x1000) as byte, (0x80 + n / 0x40 % 0x40) as byte, (0x80 + n % 0x40) as byte]
    else
      [(0xF0 + n / 0x4_0000) as byte, (0x80 + n / 0x1000 % 0x40) as byte,
       (0x80 + n / 0x40 % 0x40) as byte, (0x80 + n % 0x40) as byte]
  }

  /** `String::as_bytes`: the UTF-8 encoding of a string. */
  function Utf8(s: string): (r: seq<byte>)
    ensures |s| <= |r|
  {
    if s == [] then [] else Utf8Char(s[0]) + Utf8(s[1..])
  }

  lemma {:induction false} Utf8Append(a: string, b: string)
    ensures Utf8(a + b) == Utf8(a) + Utf8(b)
  {
    if a == [] {
      assert a + b == b;
    } else {
      assert (a + b)[1..] == a[1..] + b;
      Utf8Append(a[1..], b);
    }
  }

  /** A string of ASCII characters is encoded as one byte per character. */
  lemma {:induction false} Utf8Ascii(s: string)
    requires forall i :: 0 <= i < |s| ==> s[i] as int < 0x80
    ensures |Utf8(s)| == |s|
  {
    if s != [] {
      Utf8Ascii(s[1..]);
    }
  }

  /** `n` fill characters encode as `n` bytes 0x30. */
  lemma {:induction false} Utf8Fill(n: nat)
    ensures Utf8(seq(n, _ => TitleFill)) == Fill(n, 0x30)
  {
    if n > 0 {
      Utf8Fill(n - 1);
      assert seq(n, _ => TitleFill)[1..] == seq(n - 1, _ => TitleFill);
    }
  }

  /** The `format!` of `to_bytes` (fill '0', left-aligned, width 20): the title
      padded with '0' to 20 characters; a longer title is kept whole. */
  function PaddedTitle(title: string): (r: string)
    ensures TitleLen <= |r|
  {
    if |title| < TitleLen then title + seq(TitleLen - |title|, _ => TitleFill) else title
  }

  /** The 20 title bytes of the header: the first 20 bytes of the padded title's
      encoding (a cut may fall inside a multi-byte character). */
  function TitleField(title: string): (r: seq<byte>)
    ensures |r| == TitleLen
  {
    Utf8(PaddedTitle(title))[..TitleLen]
  }

  /** The 64 bytes `to_bytes` returns, in the order it extends the vector. */
  function Encode(h: Header): (r: seq<byte>)
    ensures |r| == HeaderSize
  {
    BeBytes32(h.cfgFlags) + BeBytes32(h.clckRate) + BeBytes32(h.bootAddr)
    + BeBytes32(h.luVer) + BeBytes32(h.crc.crc1) + BeBytes32(h.crc.crc2)
    + BeBytes64(h.reserved1) + TitleField(h.title) + h.reserved2
    + [h.category] + h.unique + [h.destination] + [h.version]
  }

  /** A title of at most 20 ASCII characters is stored as its bytes followed by
      ASCII '0' bytes (0x30, not NUL) up to 20 bytes. */
  lemma TitleFieldShortAscii(title: string)
    requires |title| <= TitleLen
    requires forall i :: 0 <= i < |title| ==> title[i] as int < 0x80
    ensures TitleField(title)[..|title|] == Utf8(title)
    ensures TitleField(title)[|title|..] == Fill(TitleLen - |title|, 0x30)
  {
    PaddedAscii(title);
    SplitAt(Utf8(title), Fill(TitleLen - |title|, 0x30));
  }

  lemma PaddedAscii(title: string)
    requires |title| <= TitleLen
    requires forall i :: 0 <= i < |title| ==> title[i] as int < 0x80
    ensures |Utf8(title)| == |title|
    ensures TitleField(title) == Utf8(title) + Fill(TitleLen - |title|, 0x30)
  {
    var n := TitleLen - |title|;
    var pad := seq(n, _ => TitleFill);
    Utf8Ascii(title);
    Utf8Fill(n);
    Utf8Append(title, pad);
    assert PaddedTitle(title) == title + pad;
    assert Utf8(PaddedTitle(title))[..TitleLen] == Utf8(PaddedTitle(title));
  }

  /** A title whose encoding reaches 20 bytes is cut to its first 20 bytes. */
  lemma TitleFieldTruncates(title: string)
    requires TitleLen <= |Utf8(title)|
    ensures TitleField(title) == Utf8(title)[..TitleLen]
  {
    if |title| < TitleLen {
      var pad := seq(TitleLen - |title|, _ => TitleFill);
      Utf8Append(title, pad);
      assert Utf8(title + pad)[..TitleLen] == Utf8(title)[..TitleLen];
    }
  }

  /** A title of fewer than 20 characters is padded by characters, not bytes:
      its encoding followed by one 0x30 per missing character, cut to 20 bytes.
      A short title with multi-byte characters thus fills fewer than 20 bytes
      with its own text and more with '0'. */
  lemma TitleFieldShort(title: string)
    requires |title| < TitleLen
    ensures TitleField(title) == (Utf8(title) + Fill(TitleLen - |title|, 0x30))[..TitleLen]
  {
    var n := TitleLen - |title|;
    var pad := seq(n, _ => TitleFill);
    Utf8Fill(n);
    Utf8Append(title, pad);
    assert PaddedTitle(title) == title + pad;
  }

  /** U+00E9 is one character of two bytes, so it is followed by 18 (not 19) '0' bytes. */
  lemma TitleFieldTwoByteChar()
    ensures TitleField("\U{e9}") == [0xC3, 0xA9] + Fill(18, 0x30)
  {
    var e := "\U{e9}";
    TitleFieldShort(e);
    Utf8TwoByteChar();
    assert Utf8(e) == Utf8Char('\U{e9}') + Utf8([]);
    assert |[0xC3, 0xA9] + Fill(19, 0x30)| == 21;
  }

  lemma Utf8TwoByteChar()
    ensures Utf8Char('\U{e9}') == [0xC3, 0xA9]
  {
    assert 0xC0 + 0xE9 / 0x40 == 0xC3 && 0x80 + 0xE9 % 0x40 == 0xA9;
  }

  /** The struct; `to_bytes` reads it and `set_crc` updates its crc in place. */
  class NusHeader {
    var cfgFlags: bv32
    var clckRate: bv32
    var bootAddr: bv32
    var luVer: bv32
    var crc: BootChecksum.Crc
    var reserved1: bv64
    var title: string
    var reserved2: Bytes7
    var category: byte
    var unique: Bytes2
    var destination: byte
    var version: byte

    function Value(): Header
      reads this
    {
      Header(cfgFlags, clckRate, bootAddr, luVer, crc, reserved1, title, reserved2,
             category, unique, destination, version)
    }

    /** `NusHeader::default()`. */
    constructor Default()
      ensures Value() == DefaultValue()
    {
      cfgFlags := 0x8037_1240;
      clckRate := 0xF;
      bootAddr := 0x8001_0000;
      luVer := 0;
      crc := BootChecksum.Crc(0, 0);
      reserved1 := 0;
      title := "";
      reserved2 := [0, 0, 0, 0, 0, 0, 0];
      category := 0x4E;    // b'N'
      unique := [0, 0];
      destination := 0x41; // b'A'
      version := 0;
    }

    /** A struct holding the value `v` (the result of a decoder). */
    constructor FromValue(v: Header)
      ensures Value() == v
    {
      cfgFlags, clckRate, bootAddr, luVer, crc := v.cfgFlags, v.clckRate, v.bootAddr, v.luVer, v.crc;
      reserved1, title, reserved2 := v.reserved1, v.title, v.reserved2;
      category, unique, destination, version := v.category, v.unique, v.destination, v.version;
    }

    /** `to_bytes`: the vector grows by each field in turn and always ends at
        64 bytes, so the length check never panics. */
    method ToBytes() returns (header: seq<byte>)
      ensures header == Encode(Value())
    {
      header := [];
      header := header + BeBytes32(cfgFlags);
      header := header + BeBytes32(clckRate);
      header := header + BeBytes32(bootAddr);
      header := header + BeBytes32(luVer);
      header := header + BeBytes32(crc.crc1);
      header := header + BeBytes32(crc.crc2);
      header := header + BeBytes64(reserved1);
      var padded := PaddedTitle(title);
      header := header + Utf8(padded)[0..TitleLen];
      header := header + reserved2;
      header := header + [category];
      header := header + unique;
      header := header + [destination];
      header := header + [version];
      if |header| != HeaderSize {
        assert false;  // the panic branch
      }
      assert [] + BeBytes32(cfgFlags) == BeBytes32(cfgFlags);
    }

    /** `set_crc`: store the checksum of `data`; on error the `?` returns before
        the assignment and the stored crc is kept. */
    method SetCrc(data: seq<byte>) returns (r: Result<()>)
      modifies this`crc
      ensures r.Ok? <==> BootChecksum.CrcEnd <= |data|
      ensures r.Err? ==> r.error == CrcNotEnoughData && crc == old(crc)
      ensures r.Ok? ==> BootChecksum.Checksum(data) == Some(crc)
    {
      var result := Crc(data);
      if result.Err? {
        return Err(result.error);
      }
      crc := result.value;
      return Ok(());
    }

    /** `NusHeader::crc`: the checksum loop with the accumulators in
        register-named locals (`a3` for crc1, `s0` for crc2), walking `t1` from
        0x1000 and counting `t0` up to `ra` = 0x100000. */
    static method Crc(data: seq<byte>) returns (r: Result<BootChecksum.Crc>)
      ensures r.Ok? <==> BootChecksum.CrcEnd <= |data|
      ensures r.Err? ==> r.error == CrcNotEnoughData
      ensures r.Ok? ==> BootChecksum.Checksum(data) == Some(r.value)
    {
      if |data| < BootChecksum.CrcLen + BootChecksum.CrcStart {
        return Err(CrcNotEnoughData);
      }
      var s6: bv32 := 0x3f;
      var a1: bv32 := s6;
      var at: bv32 := 0x5d58_8b65;
      var lo := a1 * at;  // `wrapping_mul`
      var ra: nat := 0x10_0000;
      var t0: nat := 0;
      var t1: nat := 0x1000;  // `a0`
      var v0 := lo;
      v0 := v0 + 1;
      var a3, t2, t3, s0, a2, t4 := v0, v0, v0, v0, v0, v0;
      assert v0 == BootChecksum.Seed;

      ghost var k: nat := 0;
      while t0 != ra
        invariant t0 == 4 * k && k <= BootChecksum.WordCount
        invariant t1 == BootChecksum.CrcStart + t0
        invariant BootChecksum.State(t2, t3, a2, t4, a3, s0) == BootChecksum.Fold(data, k)
        decreases ra - t0
      {
        v0 := BeWord(data, t1);  // `u32::from_be_bytes(data[t1..t1 + 4])`
        var regs := RegisterRound(BootChecksum.State(t2, t3, a2, t4, a3, s0), v0);
        RegisterRoundIsStep(BootChecksum.State(t2, t3, a2, t4, a3, s0), v0);
        t2, t3, a2, t4, a3, s0 := regs.t2, regs.t3, regs.a2, regs.t4, regs.crc1, regs.crc2;
        t0 := t0 + 4;
        t1 := t1 + 4;
        k := k + 1;
      }
      assert k == BootChecksum.WordCount;
      var crc := RegisterFinish(BootChecksum.State(t2, t3, a2, t4, a3, s0));
      RegisterFinishIsFinish(BootChecksum.State(t2, t3, a2, t4, a3, s0));
      return Ok(crc);
    }
  }

  /** One pass of the body of the `while t0 != ra` loop over the word `v0`, in
      its register names. The accumulators `a3`, `t2`,
      `t3`, `s0`, `a2`, `t4` travel in a `State` as crc1, t2, t3, crc2, a2, t4. */
  function RegisterRound(regs: BootChecksum.State, v0: bv32): BootChecksum.State
  {
    var a3 := regs.crc1;
    var v1 := a3 + v0;
    var at: bv32 := if v1 < a3 then 1 else 0;
    var a1 := v1;
    var t2 := if at != 0 then regs.t2 + 1 else regs.t2;
    var v1' := v0 & 0x1F;
    var t7 := 32 - v1';  // `t5.wrapping_sub(v1)` with `t5` = 32
    var t8 := v0 >> t7;
    var t6 := v0 << v1';
    var a0 := t6 | t8;
    var at' := if regs.a2 < v0 then 1 else 0;
    var a3' := a1;
    var t3 := regs.t3 ^ v0;
    var s0 := regs.crc2 + a0;
    var a2 := if at' != 0 then regs.a2 ^ (a3' ^ v0) else regs.a2 ^ a0;
    var t7' := v0 ^ s0;
    var t4 := regs.t4 + t7';
    BootChecksum.State(t2, t3, a2, t4, a3', s0)
  }

  /** The register-named loop body and the C loop body are the same function. */
  lemma RegisterRoundIsStep(regs: BootChecksum.State, v0: bv32)
    ensures RegisterRound(regs, v0) == BootChecksum.Step(regs, v0)
  {
  }

  /** The four statements after the loop: `(a3 ^ t2 ^ t3, s0 ^ a2 ^ t4)`. */
  function RegisterFinish(regs: BootChecksum.State): BootChecksum.Crc
  {
    var t6 := regs.crc1 ^ regs.t2;
    var a3 := t6 ^ regs.t3;
    var t8 := regs.crc2 ^ regs.a2;
    var s0 := t8 ^ regs.t4;
    BootChecksum.Crc(a3, s0)
  }

  lemma RegisterFinishIsFinish(regs: BootChecksum.State)
    ensures RegisterFinish(regs) == BootChecksum.Finish(regs)
  {
  }
}
