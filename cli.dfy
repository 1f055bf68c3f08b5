// The command-line front end: the header override `NusHeaderInput::apply` and
// the order in which the SetNusHeader, AddNusHeader, PadTo and PadBy commands
// change the buffer before it is written out.

module Cli {
  import opened Base
  import opened ErrorRs
  import BootChecksum
  import NusHeaderC
  import NusHeaderRs
  import BufferRs
  import Agreement

  /** The optional header fields given on the command line. */
  datatype NusHeaderInput = NusHeaderInput(
    title: Option<string>,
    bootAddr: Option<bv32>,
    cfgFlags: Option<bv32>,
    clckRate: Option<bv32>,
    luVer: Option<bv32>,
    category: Option<char>,
    unique: Option<string>,
    destination: Option<char>,
    version: Option<char>)

  /** No field given. */
  function NoOverrides(): NusHeaderInput
  {
    NusHeaderInput(None, None, None, None, None, None, None, None, None)
  }

  /** `c as u8`: the low eight bits of the code point. */
  function CharToU8(c: char): byte
  {
    (c as int % 0x100) as byte
  }

  /** For an ASCII character `c as u8` is its one-byte UTF-8 encoding. */
  lemma CharToU8Ascii(c: char)
    requires c as int < 0x80
    ensures [CharToU8(c)] == NusHeaderRs.Utf8Char(c)
  {
  }

  /** Beyond ASCII `c as u8` drops the high bits: 'Ł' (U+0141) becomes 'A'. */
  lemma CharToU8Truncates()
    ensures CharToU8('\U{141}') == 0x41
  {
  }

  /** `apply` slices the first two bytes of a given `unique` string, which
      panics when the string is shorter than two bytes. */
  predicate Applicable(input: NusHeaderInput)
  {
    input.unique.Some? ==> 2 <= |NusHeaderRs.Utf8(input.unique.value)|
  }

  /** A given field replaces the stored one. */
  function Override<T>(given: Option<T>, stored: T): T
  {
    if given.Some? then given.value else stored
  }

  /** A given character replaces the stored byte with its low eight bits. */
  function OverrideByte(given: Option<char>, stored: byte): byte
  {
    if given.Some? then CharToU8(given.value) else stored
  }

  /** A given `unique` string replaces the stored pair with its first two bytes. */
  function OverrideUnique(given: Option<string>, stored: Bytes2): Bytes2
    requires given.Some? ==> 2 <= |NusHeaderRs.Utf8(given.value)|
  {
    if given.Some? then NusHeaderRs.Utf8(given.value)[..2] else stored
  }

  /** The header after `apply`: each given field replaces the stored one. */
  function Applied(input: NusHeaderInput, h: NusHeaderRs.Header): NusHeaderRs.Header
    requires Applicable(input)
  {
    NusHeaderRs.Header(
      Override(input.cfgFlags, h.cfgFlags), Override(input.clckRate, h.clckRate),
      Override(input.bootAddr, h.bootAddr), Override(input.luVer, h.luVer),
      h.crc, h.reserved1, Override(input.title, h.title), h.reserved2,
      OverrideByte(input.category, h.category), OverrideUnique(input.unique, h.unique),
      OverrideByte(input.destination, h.destination), OverrideByte(input.version, h.version))
  }

  /** `NusHeaderInput::apply`: each given field, in source order, replaces the
      stored one. */
  method Apply(input: NusHeaderInput, header: NusHeaderRs.NusHeader)
    requires Applicable(input)
    modifies header
    ensures header.Value() == Applied(input, old(header.Value()))
  {
    ApplyTitle(input.title, header);
    ApplyBootAddr(input.bootAddr, header);
    ApplyCfgFlags(input.cfgFlags, header);
    ApplyClckRate(input.clckRate, header);
    ApplyLuVer(input.luVer, header);
    ApplyCategory(input.category, header);
    ApplyUnique(input.unique, header);
    ApplyDestination(input.destination, header);
    ApplyVersion(input.version, header);
  }

  method ApplyTitle(given: Option<string>, header: NusHeaderRs.NusHeader)
    modifies header
    ensures header.Value() == old(header.Value()).(title := Override(given, old(header.title)))
  {
    if given.Some? {
      header.title := given.value;
    }
  }

  method ApplyBootAddr(given: Option<bv32>, header: NusHeaderRs.NusHeader)
    modifies header
    ensures header.Value() == old(header.Value()).(bootAddr := Override(given, old(header.bootAddr)))
  {
    if given.Some? {
      header.bootAddr := given.value;
    }
  }

  method ApplyCfgFlags(given: Option<bv32>, header: NusHeaderRs.NusHeader)
    modifies header
    ensures header.Value() == old(header.Value()).(cfgFlags := Override(given, old(header.cfgFlags)))
  {
    if given.Some? {
      header.cfgFlags := given.value;
    }
  }

  method ApplyClckRate(given: Option<bv32>, header: NusHeaderRs.NusHeader)
    modifies header
    ensures header.Value() == old(header.Value()).(clckRate := Override(given, old(header.clckRate)))
  {
    if given.Some? {
      header.clckRate := given.value;
    }
  }

  method ApplyLuVer(given: Option<bv32>, header: NusHeaderRs.NusHeader)
    modifies header
    ensures header.Value() == old(header.Value()).(luVer := Override(given, old(header.luVer)))
  {
    if given.Some? {
      header.luVer := given.value;
    }
  }

  method ApplyCategory(given: Option<char>, header: NusHeaderRs.NusHeader)
    modifies header
    ensures header.Value() == old(header.Value()).(category := OverrideByte(given, old(header.category)))
  {
    if given.Some? {
      header.category := CharToU8(given.value);
    }
  }

  method ApplyUnique(given: Option<string>, header: NusHeaderRs.NusHeader)
    requires given.Some? ==> 2 <= |NusHeaderRs.Utf8(given.value)|
    modifies header
    ensures header.Value() == old(header.Value()).(unique := OverrideUnique(given, old(header.unique)))
  {
    if given.Some? {
      var bytes := NusHeaderRs.Utf8(given.value);
      header.unique := bytes[0..2];  // the two-byte slice always converts
    }
  }

  method ApplyDestination(given: Option<char>, header: NusHeaderRs.NusHeader)
    modifies header
    ensures header.Value() == old(header.Value()).(destination := OverrideByte(given, old(header.destination)))
  {
    if given.Some? {
      header.destination := CharToU8(given.value);
    }
  }

  method ApplyVersion(given: Option<char>, header: NusHeaderRs.NusHeader)
    modifies header
    ensures header.Value() == old(header.Value()).(version := OverrideByte(given, old(header.version)))
  {
    if given.Some? {
      header.version := CharToU8(given.value);
    }
  }

  /** Fields not given are kept, and the crc and reserved fields never change. */
  lemma AppliedKeeps(input: NusHeaderInput, h: NusHeaderRs.Header)
    requires Applicable(input)
    ensures Applied(input, h).crc == h.crc
    ensures Applied(input, h).reserved1 == h.reserved1 && Applied(input, h).reserved2 == h.reserved2
    ensures input.title.None? ==> Applied(input, h).title == h.title
    ensures input.bootAddr.None? ==> Applied(input, h).bootAddr == h.bootAddr
    ensures input.cfgFlags.None? ==> Applied(input, h).cfgFlags == h.cfgFlags
    ensures input.clckRate.None? ==> Applied(input, h).clckRate == h.clckRate
    ensures input.luVer.None? ==> Applied(input, h).luVer == h.luVer
    ensures input.category.None? ==> Applied(input, h).category == h.category
    ensures input.unique.None? ==> Applied(input, h).unique == h.unique
    ensures input.destination.None? ==> Applied(input, h).destination == h.destination
    ensures input.version.None? ==> Applied(input, h).version == h.version
  {
  }

  /** Given fields are stored: the title whole, `unique` as the first two bytes
      of its encoding, and an ASCII character as its own byte. */
  lemma AppliedSets(input: NusHeaderInput, h: NusHeaderRs.Header)
    requires Applicable(input)
    ensures input.title.Some? ==> Applied(input, h).title == input.title.value
    ensures input.unique.Some? ==> Applied(input, h).unique == NusHeaderRs.Utf8(input.unique.value)[..2]
    ensures input.category.Some? && input.category.value as int < 0x80 ==>
      [Applied(input, h).category] == NusHeaderRs.Utf8Char(input.category.value)
    ensures input.destination.Some? && input.destination.value as int < 0x80 ==>
      [Applied(input, h).destination] == NusHeaderRs.Utf8Char(input.destination.value)
    ensures input.version.Some? && input.version.value as int < 0x80 ==>
      [Applied(input, h).version] == NusHeaderRs.Utf8Char(input.version.value)
  {
  }

  /** Applying nothing changes nothing. */
  lemma AppliedNothing(h: NusHeaderRs.Header)
    ensures Applied(NoOverrides(), h) == h
  {
  }

  /** Applying the same input twice is the same as applying it once. */
  lemma AppliedIdempotent(input: NusHeaderInput, h: NusHeaderRs.Header)
    requires Applicable(input)
    ensures Applied(input, Applied(input, h)) == Applied(input, h)
  {
  }

  /** A long title is kept whole by `apply` and cut only by `to_bytes`: the 20
      title bytes of the encoding are the first 20 bytes of the title. */
  lemma LongTitleCutWhenEncoded(input: NusHeaderInput, h: NusHeaderRs.Header)
    requires Applicable(input) && input.title.Some?
    requires NusHeaderRs.TitleLen <= |NusHeaderRs.Utf8(input.title.value)|
    ensures NusHeaderRs.Encode(Applied(input, h))[0x20..0x34]
         == NusHeaderRs.Utf8(input.title.value)[..NusHeaderRs.TitleLen]
  {
    var a := Applied(input, h);
    Agreement.EncodingsAgree(a);
    NusHeaderC.EncodeLayout(Agreement.ToC(a));
    NusHeaderRs.TitleFieldTruncates(input.title.value);
  }

  /** What a command leaves: the bytes written to the output, a panic from an
      `unwrap`, or a loop that never ends. */
  datatype Outcome = Written(output: seq<byte>) | Panicked | Hangs

  /** The image SetNusHeader writes for a long enough input `data` whose decoded
      header is `h`: the overridden header with the checksum of `data`, then
      everything after the first 64 bytes of `data`. */
  function Stamped(data: seq<byte>, h: NusHeaderRs.Header, input: NusHeaderInput): seq<byte>
    requires Applicable(input) && BootChecksum.CrcEnd <= |data|
  {
    NusHeaderRs.Encode(Applied(input, h).(crc := BootChecksum.Checksum(data).value)) + data[HeaderSize..]
  }

  /** The image AddNusHeader writes for a long enough input `data`: a default
      header with the overrides and the checksum of `data`, then all of `data`. */
  function Prepended(data: seq<byte>, input: NusHeaderInput): seq<byte>
    requires Applicable(input) && BootChecksum.CrcEnd <= |data|
  {
    NusHeaderRs.Encode(Applied(input, NusHeaderRs.DefaultValue()).(crc := BootChecksum.Checksum(data).value))
    + data
  }

  /** The SetNusHeader arm: decode (a parameter here, since the decoder is not
      part of this model), apply, `set_crc`, `set_header`. It panics on a decode
      error, in `apply` on a `unique` string under two bytes, and on an input
      too short to checksum. */
  method SetNusHeader(buffer: BufferRs.Buffer, decoded: Result<NusHeaderRs.Header>, input: NusHeaderInput)
    returns (out: Outcome)
    modifies buffer
    ensures decoded.Err? ==> out == Panicked
    ensures decoded.Ok? && !Applicable(input) ==> out == Panicked
    ensures decoded.Ok? && Applicable(input) && |old(buffer.data)| < BootChecksum.CrcEnd ==> out == Panicked
    ensures decoded.Ok? && Applicable(input) && BootChecksum.CrcEnd <= |old(buffer.data)| ==>
      out == Written(buffer.data) && buffer.data == Stamped(old(buffer.data), decoded.value, input)
  {
    if decoded.Err? {
      return Panicked;
    }
    if !Applicable(input) {
      return Panicked;
    }
    var header := new NusHeaderRs.NusHeader.FromValue(decoded.value);
    Apply(input, header);
    ghost var applied := header.Value();
    var r := header.SetCrc(buffer.data);
    if r.Err? {
      return Panicked;
    }
    assert header.Value() == applied.(crc := BootChecksum.Checksum(buffer.data).value);
    buffer.SetHeader(header);
    return Written(buffer.data);
  }

  /** The AddNusHeader arm: default header, apply, `set_crc` over the buffer as
      read, then `add_header`. It panics in `apply` on a `unique` string under
      two bytes and on an input too short to checksum. */
  method AddNusHeader(buffer: BufferRs.Buffer, input: NusHeaderInput) returns (out: Outcome)
    modifies buffer
    ensures !Applicable(input) ==> out == Panicked
    ensures Applicable(input) && |old(buffer.data)| < BootChecksum.CrcEnd ==> out == Panicked
    ensures Applicable(input) && BootChecksum.CrcEnd <= |old(buffer.data)| ==>
      out == Written(buffer.data) && buffer.data == Prepended(old(buffer.data), input)
  {
    if !Applicable(input) {
      return Panicked;
    }
    var header := new NusHeaderRs.NusHeader.Default();
    Apply(input, header);
    ghost var applied := header.Value();
    var r := header.SetCrc(buffer.data);
    if r.Err? {
      return Panicked;
    }
    assert header.Value() == applied.(crc := BootChecksum.Checksum(buffer.data).value);
    buffer.AddHeader(header);
    return Written(buffer.data);
  }

  /** The PadTo arm: pad with zeros to `target`. On a longer input `pad_to`
      never returns (`BufferRs.PadToNeverStops`) and nothing is written. */
  method PadTo(buffer: BufferRs.Buffer, target: nat) returns (out: Outcome)
    modifies buffer
    ensures target < |old(buffer.data)| ==> out == Hangs
    ensures |old(buffer.data)| <= target ==>
      out == Written(buffer.data) && buffer.data == BufferRs.PaddedTo(old(buffer.data), target, 0)
  {
    if target < |buffer.data| {
      return Hangs;
    }
    buffer.PadTo(target, 0);
    return Written(buffer.data);
  }

  /** The PadBy arm: append `amount` zeros. */
  method PadBy(buffer: BufferRs.Buffer, amount: nat) returns (out: Outcome)
    modifies buffer
    ensures out == Written(buffer.data) && buffer.data == BufferRs.PaddedBy(old(buffer.data), amount, 0)
  {
    buffer.PadBy(amount, 0);
    return Written(buffer.data);
  }

  /** SetNusHeader keeps the length and every byte after the header, and the crc
      a decoder reads from the image it writes is the checksum of that image. */
  lemma StampedIsConsistent(data: seq<byte>, h: NusHeaderRs.Header, input: NusHeaderInput)
    requires Applicable(input) && BootChecksum.CrcEnd <= |data|
    ensures |Stamped(data, h, input)| == |data|
    ensures Stamped(data, h, input)[HeaderSize..] == data[HeaderSize..]
    ensures BootChecksum.Checksum(Stamped(data, h, input))
         == Some(NusHeaderC.Parse(Stamped(data, h, input)).crc)
  {
    var stamped := Applied(input, h).(crc := BootChecksum.Checksum(data).value);
    var e := NusHeaderRs.Encode(stamped);
    var out := e + data[HeaderSize..];
    assert out == Stamped(data, h, input);
    SplitAt(e, data[HeaderSize..]);
    BootChecksum.ChecksumIgnoresHeader(data, e);
    Agreement.RustEncodingDecodes(stamped, data[HeaderSize..]);
    assert NusHeaderC.Parse(out).crc == stamped.crc;
  }

  /** AddNusHeader puts the input whole behind the header, and the crc stored in
      the header is the checksum of the input as read, before the header was
      put in front of it. */
  lemma PrependedChecksumsInput(data: seq<byte>, input: NusHeaderInput)
    requires Applicable(input) && BootChecksum.CrcEnd <= |data|
    ensures |Prepended(data, input)| == |data| + HeaderSize
    ensures Prepended(data, input)[HeaderSize..] == data
    ensures BootChecksum.Checksum(data) == Some(NusHeaderC.Parse(Prepended(data, input)).crc)
  {
    var stamped := Applied(input, NusHeaderRs.DefaultValue()).(crc := BootChecksum.Checksum(data).value);
    var e := NusHeaderRs.Encode(stamped);
    assert e + data == Prepended(data, input);
    SplitAt(e, data);
    Agreement.RustEncodingDecodes(stamped, data);
    assert NusHeaderC.Parse(e + data).crc == stamped.crc;
  }
}
