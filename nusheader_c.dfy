// The C implementation of the boot header: the `NusHeader` struct written
// through pointers, its 64-byte codec, the checksum loop `calc_crc_`, and the
// two buffer operations that stamp or make room for a header.

module NusHeaderC {
  import opened Base
  import opened ErrorC
  import BootChecksum

  const TitleLen: nat := 0x14

  /** The value of a `NusHeader` struct. `title`, `category`, `unique` and
      `destination` are `char` in C and are kept as their bytes. */
  datatype Header = Header(
    cfgFlags: bv32,
    clckRate: bv32,
    bootAddr: bv32,
    luVer: bv32,
    crc: BootChecksum.Crc,
    reserved1: Bytes8,
    title: Bytes20,
    reserved2: Bytes7,
    category: byte,
    unique: Bytes2,
    destination: byte,
    version: byte)

  /** The header `nus_init` leaves behind: everything zero except five fields. */
  function InitValue(): Header
  {
    Header(0x80371240, 0xF, 0x8001_0000, 0, BootChecksum.Crc(0, 0),
           Fill(8, 0), Fill(20, 0), Fill(7, 0),
           0x4E /* 'N' */, [0, 0], 0x41 /* 'A' */, 0)
  }

  /** The 64 bytes `nus_to_bytes` writes: big-endian words at 0x00..0x18, then
      `reserved_1`, title, `reserved_2` and the single-byte fields. */
  function Encode(h: Header): (r: seq<byte>)
    ensures |r| == HeaderSize
  {
    BeBytes32(h.cfgFlags) + BeBytes32(h.clckRate) + BeBytes32(h.bootAddr)
    + BeBytes32(h.luVer) + BeBytes32(h.crc.crc1) + BeBytes32(h.crc.crc2)
    + h.reserved1 + h.title + h.reserved2
    + [h.category] + h.unique + [h.destination] + [h.version]
  }

  /** `ntohl_from_`: the big-endian word at `offset`. */
  function NtohlFrom(data: seq<byte>, offset: nat): (n: bv32)
    requires offset + 4 <= |data|
    ensures BeBytes32(n) == data[offset..offset + 4]
  {
    BeBytesOfBeWord(data, offset);
    BeWord(data, offset)
  }

  /** The fields `nus_from_bytes` reads out of the first 64 bytes, before its
      checksum step; the crc here is the one stored at 0x10..0x18. */
  function Parse(data: seq<byte>): Header
    requires HeaderSize <= |data|
  {
    Header(NtohlFrom(data, 0x00), NtohlFrom(data, 0x04), NtohlFrom(data, 0x08),
           NtohlFrom(data, 0x0C),
           BootChecksum.Crc(NtohlFrom(data, 0x10), NtohlFrom(data, 0x14)),
           data[0x18..0x20], data[0x20..0x34], data[0x34..0x3B],
           data[0x3B], data[0x3C..0x3E], data[0x3E], data[0x3F])
  }

  /** The layout of an encoded header, field by field at its offset. */
  lemma EncodeLayout(h: Header)
    ensures Encode(h)[0x00..0x04] == BeBytes32(h.cfgFlags)
    ensures Encode(h)[0x04..0x08] == BeBytes32(h.clckRate)
    ensures Encode(h)[0x08..0x0C] == BeBytes32(h.bootAddr)
    ensures Encode(h)[0x0C..0x10] == BeBytes32(h.luVer)
    ensures Encode(h)[0x10..0x14] == BeBytes32(h.crc.crc1)
    ensures Encode(h)[0x14..0x18] == BeBytes32(h.crc.crc2)
    ensures Encode(h)[0x18..0x20] == h.reserved1
    ensures Encode(h)[0x20..0x34] == h.title
    ensures Encode(h)[0x34..0x3B] == h.reserved2
    ensures Encode(h)[0x3B] == h.category
    ensures Encode(h)[0x3C..0x3E] == h.unique
    ensures Encode(h)[0x3E] == h.destination
    ensures Encode(h)[0x3F] == h.version
  {
    Layout(Encode(h), BeBytes32(h.cfgFlags), BeBytes32(h.clckRate), BeBytes32(h.bootAddr),
           BeBytes32(h.luVer), BeBytes32(h.crc.crc1), BeBytes32(h.crc.crc2),
           h.reserved1, h.title, h.reserved2, h.category, h.unique, h.destination, h.version);
  }

  /** Where each part of the 64-byte concatenation lands, whatever the parts hold. */
  lemma Layout(e: seq<byte>, w0: seq<byte>, w1: seq<byte>, w2: seq<byte>, w3: seq<byte>,
               w4: seq<byte>, w5: seq<byte>, r1: seq<byte>, t: seq<byte>, r2: seq<byte>,
               c: byte, u: seq<byte>, d: byte, v: byte)
    requires |w0| == |w1| == |w2| == |w3| == |w4| == |w5| == 4
    requires |r1| == 8 && |t| == 20 && |r2| == 7 && |u| == 2
    requires e == w0 + w1 + w2 + w3 + w4 + w5 + r1 + t + r2 + [c] + u + [d] + [v]
    ensures e[0x00..0x04] == w0 && e[0x04..0x08] == w1 && e[0x08..0x0C] == w2
    ensures e[0x0C..0x10] == w3 && e[0x10..0x14] == w4 && e[0x14..0x18] == w5
    ensures e[0x18..0x20] == r1 && e[0x20..0x34] == t && e[0x34..0x3B] == r2
    ensures e[0x3B] == c && e[0x3C..0x3E] == u && e[0x3E] == d && e[0x3F] == v
  {
    // Peel the parts off the right end, one at a time.
    var e11 := w0 + w1 + w2 + w3 + w4 + w5 + r1 + t + r2 + [c] + u;
    var e12 := e11 + [d];
    SplitAt(e12, [v]);
    SplitAt(e11, [d]);
    var e10 := w0 + w1 + w2 + w3 + w4 + w5 + r1 + t + r2 + [c];
    SplitAt(e10, u);
    var e9 := w0 + w1 + w2 + w3 + w4 + w5 + r1 + t + r2;
    SplitAt(e9, [c]);
    assert e[..0x3C] == e10 && e[..0x3B] == e9;
    LayoutFront(e9, w0, w1, w2, w3, w4, w5, r1, t, r2);
  }

  /** `Layout` for the first 59 bytes. */
  lemma LayoutFront(e: seq<byte>, w0: seq<byte>, w1: seq<byte>, w2: seq<byte>, w3: seq<byte>,
                    w4: seq<byte>, w5: seq<byte>, r1: seq<byte>, t: seq<byte>, r2: seq<byte>)
    requires |w0| == |w1| == |w2| == |w3| == |w4| == |w5| == 4
    requires |r1| == 8 && |t| == 20 && |r2| == 7
    requires e == w0 + w1 + w2 + w3 + w4 + w5 + r1 + t + r2
    ensures e[0x00..0x04] == w0 && e[0x04..0x08] == w1 && e[0x08..0x0C] == w2
    ensures e[0x0C..0x10] == w3 && e[0x10..0x14] == w4 && e[0x14..0x18] == w5
    ensures e[0x18..0x20] == r1 && e[0x20..0x34] == t && e[0x34..0x3B] == r2
  {
    var e8 := w0 + w1 + w2 + w3 + w4 + w5 + r1 + t;
    SplitAt(e8, r2);
    var e7 := w0 + w1 + w2 + w3 + w4 + w5 + r1;
    SplitAt(e7, t);
    var e6 := w0 + w1 + w2 + w3 + w4 + w5;
    SplitAt(e6, r1);
    assert e[..0x34] == e8 && e[..0x20] == e7 && e[..0x18] == e6;
    var e4 := w0 + w1 + w2 + w3;
    SplitAt(w0 + w1 + w2 + w3 + w4, w5);
    SplitAt(e4, w4);
    SplitAt(w0 + w1 + w2, w3);
    SplitAt(w0 + w1, w2);
    SplitAt(w0, w1);
    assert e[..0x10] == e4;
  }

  /** Decoding an encoded header, whatever bytes follow it, gives back every field. */
  lemma ParseEncode(h: Header, rest: seq<byte>)
    ensures Parse(Encode(h) + rest) == h
  {
    var e := Encode(h);
    var d := e + rest;
    EncodeLayout(h);
    SliceOfAppend(e, rest, 0x00, 0x04);
    SliceOfAppend(e, rest, 0x04, 0x08);
    SliceOfAppend(e, rest, 0x08, 0x0C);
    SliceOfAppend(e, rest, 0x0C, 0x10);
    SliceOfAppend(e, rest, 0x10, 0x14);
    SliceOfAppend(e, rest, 0x14, 0x18);
    SliceOfAppend(e, rest, 0x18, 0x20);
    SliceOfAppend(e, rest, 0x20, 0x34);
    SliceOfAppend(e, rest, 0x34, 0x3B);
    SliceOfAppend(e, rest, 0x3C, 0x3E);
    var p := Parse(d);
    BeBytes32Injective(p.cfgFlags, h.cfgFlags);
    BeBytes32Injective(p.clckRate, h.clckRate);
    BeBytes32Injective(p.bootAddr, h.bootAddr);
    BeBytes32Injective(p.luVer, h.luVer);
    BeBytes32Injective(p.crc.crc1, h.crc.crc1);
    BeBytes32Injective(p.crc.crc2, h.crc.crc2);
  }

  /** Encoding the decoded fields gives back the first 64 bytes: the layout is a bijection. */
  lemma EncodeParse(data: seq<byte>)
    requires HeaderSize <= |data|
    ensures Encode(Parse(data)) == data[..HeaderSize]
  {
    var e := Encode(Parse(data));
    EncodeLayout(Parse(data));
    PrefixGrows(e, data, 0x00, 0x04);
    PrefixGrows(e, data, 0x04, 0x08);
    PrefixGrows(e, data, 0x08, 0x0C);
    PrefixGrows(e, data, 0x0C, 0x10);
    PrefixGrows(e, data, 0x10, 0x14);
    PrefixGrows(e, data, 0x14, 0x18);
    PrefixGrows(e, data, 0x18, 0x20);
    PrefixGrows(e, data, 0x20, 0x34);
    PrefixGrows(e, data, 0x34, 0x3B);
    PrefixGrows(e, data, 0x3B, 0x3C);
    PrefixGrows(e, data, 0x3C, 0x3E);
    PrefixGrows(e, data, 0x3E, 0x3F);
    PrefixGrows(e, data, 0x3F, 0x40);
    assert e == e[..HeaderSize];
  }

  /** The slice of a concatenation that lies inside its first part. */
  lemma SliceOfAppend(a: seq<byte>, b: seq<byte>, lo: nat, hi: nat)
    requires lo <= hi <= |a|
    ensures (a + b)[lo..hi] == a[lo..hi]
  {
  }

  /** Distinct words have distinct big-endian encodings. */
  lemma BeBytes32Injective(m: bv32, n: bv32)
    requires BeBytes32(m) == BeBytes32(n)
    ensures m == n
  {
    BeWordOfBeBytes(m, [], []);
    BeWordOfBeBytes(n, [], []);
    assert [] + BeBytes32(m) + [] == BeBytes32(m);
    assert [] + BeBytes32(n) + [] == BeBytes32(n);
  }

  /** `calc_crc_`: the checksum loop over the window. The six wrapping
      accumulators `t2, t3, a2, t4, crc1, crc2` are held together in one
      `State`, and each pass applies the loop body `BootChecksum.Step`.
      On failure the result pair is unspecified: C leaves it unwritten. */
  method CalcCrc(data: seq<byte>) returns (err: Error, crc: BootChecksum.Crc)
    ensures err == Ok || err == CrcNotEnoughData
    ensures err == CrcNotEnoughData <==> |data| < BootChecksum.CrcEnd
    ensures err == Ok ==> BootChecksum.Checksum(data) == Some(crc)
  {
    var initial: bv32 := 0 - 120959524;  // `const u32 INITIAL = -120959524`
    if |data| < BootChecksum.CrcLen + BootChecksum.CrcStart {
      crc := *;
      return CrcNotEnoughData, crc;
    }
    assert initial == BootChecksum.Seed;

    var acc := BootChecksum.State(initial, initial, initial, initial, initial, initial);
    var idx: nat := 0;
    ghost var k: nat := 0;
    while idx < BootChecksum.CrcLen
      invariant idx == 4 * k && k <= BootChecksum.WordCount
      invariant acc == BootChecksum.Fold(data, k)
    {
      var currentData := NtohlFrom(data, BootChecksum.CrcStart + idx);
      acc := BootChecksum.Step(acc, currentData);
      idx := idx + 4;
      k := k + 1;
    }
    assert k == BootChecksum.WordCount;
    return Ok, BootChecksum.Finish(acc);
  }

  /** `htonl_to_`: write `n` big-endian at `result[offset..offset+4]`. */
  method HtonlTo(n: bv32, result: array<byte>, offset: nat)
    requires offset + 4 <= result.Length
    modifies result
    ensures result[..] == old(result[..offset]) + BeBytes32(n) + old(result[offset + 4..])
  {
    var be := BeBytes32(n);
    result[offset] := be[0];
    result[offset + 1] := be[1];
    result[offset + 2] := be[2];
    result[offset + 3] := be[3];
  }

  /** `memcpy(dst + offset, src, |src|)`. */
  method CopyInto(dst: array<byte>, offset: nat, src: seq<byte>)
    requires offset + |src| <= dst.Length
    modifies dst
    ensures dst[..] == old(dst[..offset]) + src + old(dst[offset + |src|..])
  {
    ghost var orig := dst[..];
    var i := 0;
    while i < |src|
      invariant 0 <= i <= |src|
      invariant forall j :: 0 <= j < offset || offset + |src| <= j < dst.Length ==> dst[j] == orig[j]
      invariant forall j :: offset <= j < offset + i ==> dst[j] == src[j - offset]
      invariant forall j :: offset + i <= j < offset + |src| ==> dst[j] == orig[j]
    {
      dst[offset + i] := src[i];
      i := i + 1;
    }
    assert forall j :: 0 <= j < dst.Length ==> dst[j] == (orig[..offset] + src + orig[offset + |src|..])[j];
  }

  /** The struct, written in place through a pointer. */
  class NusHeader {
    var cfgFlags: bv32
    var clckRate: bv32
    var bootAddr: bv32
    var luVer: bv32
    var crc: BootChecksum.Crc
    var reserved1: Bytes8
    var title: Bytes20
    var reserved2: Bytes7
    var category: byte
    var unique: Bytes2
    var destination: byte
    var version: byte

    function Value(): Header
      reads this
    {
      Header(cfgFlags, clckRate, bootAddr, luVer, crc, reserved1, title, reserved2,
             category, unique, destination, version)
    }

    /** A struct holding the value `v`. */
    constructor (v: Header)
      ensures Value() == v
    {
      cfgFlags, clckRate, bootAddr, luVer, crc := v.cfgFlags, v.clckRate, v.bootAddr, v.luVer, v.crc;
      reserved1, title, reserved2 := v.reserved1, v.title, v.reserved2;
      category, unique, destination, version := v.category, v.unique, v.destination, v.version;
    }

    /** `nus_init`: zero the struct, then set the five documented defaults. */
    method Init()
      modifies this
      ensures Value() == InitValue()
    {
      cfgFlags, clckRate, bootAddr, luVer, crc := 0, 0, 0, 0, BootChecksum.Crc(0, 0);
      reserved1, title, reserved2 := Fill(8, 0), Fill(20, 0), Fill(7, 0);
      category, unique, destination, version := 0, [0, 0], 0, 0;
      cfgFlags := 0x80371240;
      clckRate := 0xF;
      bootAddr := 0x8001_0000;
      category := 0x4E;    // 'N'
      destination := 0x41; // 'A'
    }

    /** `nus_crc`: store the checksum of `data`; on failure the stored pair is
        whatever `calc_crc_` left in its uninitialised result. */
    method NusCrc(data: seq<byte>) returns (err: Error)
      modifies this`crc
      ensures err == Ok || err == CrcNotEnoughData
      ensures err == CrcNotEnoughData <==> |data| < BootChecksum.CrcEnd
      ensures err == Ok ==> BootChecksum.Checksum(data) == Some(crc)
    {
      var result;
      err, result := CalcCrc(data);
      crc := result;
    }

    /** `nus_from_bytes`: too-short input is refused and leaves the struct alone;
        otherwise every field is read from its offset and the crc is replaced by
        the checksum of `data`, whose failure is swallowed. */
    method FromBytes(data: seq<byte>) returns (err: Error)
      modifies this
      ensures err == HeaderNotEnoughData <==> |data| < HeaderSize
      ensures err == HeaderNotEnoughData || err == Ok
      ensures |data| < HeaderSize ==> Value() == old(Value())
      ensures HeaderSize <= |data| ==> Value() == Parse(data).(crc := crc)
      ensures BootChecksum.CrcEnd <= |data| ==> BootChecksum.Checksum(data) == Some(crc)
    {
      if |data| < HeaderSize {
        return HeaderNotEnoughData;
      }
      Init();
      ReadFields(data);
      ghost var parsed := Value();
      var _ := NusCrc(data);
      assert Value() == parsed.(crc := crc);
      return Ok;
    }

    /** The field-by-field reads of `nus_from_bytes`. */
    method ReadFields(data: seq<byte>)
      requires HeaderSize <= |data|
      modifies this
      ensures Value() == Parse(data)
    {
      ReadWords(data);
      ReadBytes(data);
    }

    method ReadWords(data: seq<byte>)
      requires HeaderSize <= |data|
      modifies this`cfgFlags, this`clckRate, this`bootAddr, this`luVer, this`crc
      ensures cfgFlags == Parse(data).cfgFlags && clckRate == Parse(data).clckRate
      ensures bootAddr == Parse(data).bootAddr && luVer == Parse(data).luVer
      ensures crc == Parse(data).crc
    {
      cfgFlags := NtohlFrom(data, 0x00);
      clckRate := NtohlFrom(data, 0x04);
      bootAddr := NtohlFrom(data, 0x08);
      luVer := NtohlFrom(data, 0x0C);
      crc := crc.(crc1 := NtohlFrom(data, 0x10));
      crc := crc.(crc2 := NtohlFrom(data, 0x14));
    }

    method ReadBytes(data: seq<byte>)
      requires HeaderSize <= |data|
      modifies this`reserved1, this`title, this`reserved2, this`category, this`unique,
        this`destination, this`version
      ensures reserved1 == Parse(data).reserved1 && title == Parse(data).title
      ensures reserved2 == Parse(data).reserved2 && category == Parse(data).category
      ensures unique == Parse(data).unique && destination == Parse(data).destination
      ensures version == Parse(data).version
    {
      reserved1 := data[0x18..0x20];
      title := data[0x20..0x20 + TitleLen];
      reserved2 := data[0x34..0x3B];
      category := data[0x3B];
      unique := [data[0x3C], data[0x3D]];
      destination := data[0x3E];
      version := data[0x3F];
    }

    /** `nus_to_bytes`: write all 64 bytes of the encoding into `result`, field
        by field; the bytes after the first 64 are left alone. The ghost
        `done` is the part of the encoding in place so far. */
    method ToBytes(result: array<byte>)
      requires HeaderSize <= result.Length
      modifies result
      ensures result[..HeaderSize] == Encode(Value())
      ensures result[HeaderSize..] == old(result[HeaderSize..])
    {
      var h := Value();  // `result` is a byte array and cannot alias the struct
      ghost var orig := result[..];
      PutFirstWords(h, result, orig);
      ghost var done := BeBytes32(h.cfgFlags) + BeBytes32(h.clckRate) + BeBytes32(h.bootAddr);
      PutLastWords(h, result, done, orig);
      done := done + BeBytes32(h.luVer) + BeBytes32(h.crc.crc1) + BeBytes32(h.crc.crc2);
      PutBytes(h, result, done, orig);
      SplitAt(Encode(h), orig[HeaderSize..]);
    }
  }

  /** The first three words of `nus_to_bytes` over `orig`. */
  method PutFirstWords(h: Header, result: array<byte>, ghost orig: seq<byte>)
    requires HeaderSize <= |orig| == result.Length && result[..] == orig
    modifies result
    ensures result[..] == BeBytes32(h.cfgFlags) + BeBytes32(h.clckRate) + BeBytes32(h.bootAddr) + orig[0x0C..]
  {
    HtonlAt(h.cfgFlags, result, 0x00, [], orig);
    EmptyPrefix(BeBytes32(h.cfgFlags), orig[4..]);
    ghost var done := BeBytes32(h.cfgFlags);
    HtonlAt(h.clckRate, result, 0x04, done, orig);
    done := done + BeBytes32(h.clckRate);
    HtonlAt(h.bootAddr, result, 0x08, done, orig);
  }

  /** The last three words of `nus_to_bytes` after the words `done`. */
  method PutLastWords(h: Header, result: array<byte>, ghost done: seq<byte>, ghost orig: seq<byte>)
    requires |done| == 0x0C && HeaderSize <= |orig| == result.Length
    requires result[..] == done + orig[0x0C..]
    modifies result
    ensures result[..] == done + BeBytes32(h.luVer) + BeBytes32(h.crc.crc1) + BeBytes32(h.crc.crc2) + orig[0x18..]
  {
    HtonlAt(h.luVer, result, 0x0C, done, orig);
    ghost var written := done + BeBytes32(h.luVer);
    HtonlAt(h.crc.crc1, result, 0x10, written, orig);
    written := written + BeBytes32(h.crc.crc1);
    HtonlAt(h.crc.crc2, result, 0x14, written, orig);
  }

  /** The byte arrays and single bytes of `nus_to_bytes`, in order, after the words `done`. */
  method PutBytes(h: Header, result: array<byte>, ghost done: seq<byte>, ghost orig: seq<byte>)
    requires |done| == 0x18 && HeaderSize <= |orig| == result.Length
    requires result[..] == done + orig[0x18..]
    modifies result
    ensures result[..] == done + h.reserved1 + h.title + h.reserved2
      + [h.category] + h.unique + [h.destination] + [h.version] + orig[HeaderSize..]
  {
    CopyAt(result, 0x18, h.reserved1, done, orig);
    ghost var written := done + h.reserved1;
    CopyAt(result, 0x20, h.title, written, orig);
    written := written + h.title;
    CopyAt(result, 0x34, h.reserved2, written, orig);
    written := written + h.reserved2;
    StoreAt(result, 0x3B, h.category, written, orig);
    written := written + [h.category];
    StoreAt(result, 0x3C, h.unique[0], written, orig);
    StoreAt(result, 0x3D, h.unique[1], written + [h.unique[0]], orig);
    PairAppend(written, h.unique, orig[0x3E..]);
    written := written + h.unique;
    StoreAt(result, 0x3E, h.destination, written, orig);
    written := written + [h.destination];
    StoreAt(result, 0x3F, h.version, written, orig);
  }

  /** `htonl_to_` into `result`, which holds the parts `done` followed by the
      original bytes `orig`: afterwards it holds `done` and the word. */
  method HtonlAt(n: bv32, result: array<byte>, offset: nat, ghost done: seq<byte>, ghost orig: seq<byte>)
    requires offset == |done| && |done| + 4 <= |orig| == result.Length
    requires result[..] == done + orig[|done|..]
    modifies result
    ensures result[..] == done + BeBytes32(n) + orig[|done| + 4..]
  {
    HtonlTo(n, result, offset);
    Written(old(result[..]), result[..], orig, done, BeBytes32(n));
  }

  /** `memcpy` into `result` right after the parts `done`. */
  method CopyAt(result: array<byte>, offset: nat, src: seq<byte>, ghost done: seq<byte>, ghost orig: seq<byte>)
    requires offset == |done| && |done| + |src| <= |orig| == result.Length
    requires result[..] == done + orig[|done|..]
    modifies result
    ensures result[..] == done + src + orig[|done| + |src|..]
  {
    CopyInto(result, offset, src);
    Written(old(result[..]), result[..], orig, done, src);
  }

  /** A single byte stored into `result` right after the parts `done`. */
  method StoreAt(result: array<byte>, offset: nat, b: byte, ghost done: seq<byte>, ghost orig: seq<byte>)
    requires offset == |done| && |done| < |orig| == result.Length
    requires result[..] == done + orig[|done|..]
    modifies result
    ensures result[..] == done + [b] + orig[|done| + 1..]
  {
    result[offset] := b;
    WrittenByte(old(result[..]), result[..], orig, done, b);
  }

  lemma PairAppend(done: seq<byte>, pair: seq<byte>, rest: seq<byte>)
    requires |pair| == 2
    ensures done + [pair[0]] + [pair[1]] + rest == done + pair + rest
  {
    assert [pair[0]] + [pair[1]] == pair;
  }

  lemma EmptyPrefix(x: seq<byte>, y: seq<byte>)
    ensures [] + x + y == x + y
  {
    assert [] + x == x;
  }

  /** One more part of the encoding has been written: `before` holds the parts
      `done` followed by the original bytes `orig`, and `after` differs from it
      by holding `chunk` right after `done`. */
  lemma Written(before: seq<byte>, after: seq<byte>, orig: seq<byte>, done: seq<byte>, chunk: seq<byte>)
    requires |done| + |chunk| <= |orig|
    requires before == done + orig[|done|..]
    requires after == before[..|done|] + chunk + before[|done| + |chunk|..]
    ensures after == done + chunk + orig[|done| + |chunk|..]
  {
    assert before[..|done|] == done;
    assert before[|done| + |chunk|..] == orig[|done| + |chunk|..];
  }

  /** `Written` for a single byte stored in place. */
  lemma WrittenByte(before: seq<byte>, after: seq<byte>, orig: seq<byte>, done: seq<byte>, b: byte)
    requires |done| < |orig|
    requires before == done + orig[|done|..]
    requires after == before[|done| := b]
    ensures after == done + [b] + orig[|done| + 1..]
  {
  }

  /** If `a` and `b` agree below `k` and on `[k, m)`, they agree below `m`. */
  lemma PrefixGrows(a: seq<byte>, b: seq<byte>, k: nat, m: nat)
    requires k <= m <= |a| && m <= |b|
    requires a[..k] == b[..k] && a[k..m] == b[k..m]
    ensures a[..m] == b[..m]
  {
    assert a[..m] == a[..k] + a[k..m];
    assert b[..m] == b[..k] + b[k..m];
  }

  /** The C `Buffer`: `len` bytes of `data` are in use. */
  class Buffer {
    var len: nat
    var data: array<byte>

    ghost predicate Valid()
      reads this
    {
      len <= data.Length
    }

    function Contents(): seq<byte>
      reads this, data
      requires Valid()
    {
      data[..len]
    }

    /** A buffer holding `contents`, as `buffer_read` leaves it. */
    constructor (contents: seq<byte>)
      ensures Valid() && fresh(data) && Contents() == contents
    {
      len := |contents|;
      data := new byte[|contents|](i requires 0 <= i < |contents| => contents[i]);
    }

    /** `nus_add_header`: a fresh array, 64 zero bytes, then the old contents. */
    method AddHeader()
      requires Valid()
      modifies this
      ensures Valid() && fresh(data)
      ensures Contents() == Fill(HeaderSize, 0) + old(Contents())
    {
      var oldLen := len;
      var oldData := data;
      var newData := new byte[len + HeaderSize];
      var i := 0;
      while i < HeaderSize
        invariant 0 <= i <= HeaderSize
        invariant newData[..i] == Fill(i, 0)
      {
        newData[i] := 0;
        i := i + 1;
      }
      CopyInto(newData, HeaderSize, oldData[..oldLen]);
      len := oldLen + HeaderSize;
      data := newData;
      assert newData[..] == newData[..len];
    }

    /** `nus_set_header`: store the checksum of the buffer in `header` (failure
        swallowed), then overwrite the first 64 bytes with the header's encoding. */
    method SetHeader(header: NusHeader)
      requires Valid() && HeaderSize <= len
      modifies data, header`crc
      ensures Valid()
      ensures Contents() == Encode(header.Value()) + old(Contents())[HeaderSize..]
      ensures BootChecksum.CrcEnd <= len ==> BootChecksum.Checksum(old(Contents())) == Some(header.crc)
    {
      var _ := header.NusCrc(data[..len]);
      var headerBytes := new byte[HeaderSize];
      header.ToBytes(headerBytes);
      CopyInto(data, 0, headerBytes[..]);
      assert headerBytes[..] == headerBytes[..HeaderSize];
    }
  }

  /** After `nus_set_header` on an image long enough to be checksummed, the crc
      stored in the image is the checksum of the image as it now is. */
  lemma SetHeaderIsConsistent(image: seq<byte>, h: Header)
    requires BootChecksum.CrcEnd <= |image|
    requires BootChecksum.Checksum(image) == Some(h.crc)
    ensures BootChecksum.Checksum(Encode(h) + image[HeaderSize..]) == Some(Parse(Encode(h) + image[HeaderSize..]).crc)
  {
    BootChecksum.ChecksumIgnoresHeader(image, Encode(h));
    ParseEncode(h, image[HeaderSize..]);
  }

}
