// How the Rust header relates to the C header: the same 64-byte layout, the
// same defaults apart from the title fill, and a C-decodable encoding.

module Agreement {
  import opened Base
  import BootChecksum
  import NusHeaderC
  import NusHeaderRs

  /** The C struct holding the bytes the Rust struct writes: the `u64` as its
      eight big-endian bytes and the title as its 20-byte field. */
  function ToC(h: NusHeaderRs.Header): NusHeaderC.Header
  {
    NusHeaderC.Header(h.cfgFlags, h.clckRate, h.bootAddr, h.luVer, h.crc,
                      BeBytes64(h.reserved1), NusHeaderRs.TitleField(h.title), h.reserved2,
                      h.category, h.unique, h.destination, h.version)
  }

  /** `to_bytes` in Rust and `nus_to_bytes` in C lay the header out identically. */
  lemma EncodingsAgree(h: NusHeaderRs.Header)
    ensures NusHeaderRs.Encode(h) == NusHeaderC.Encode(ToC(h))
  {
  }

  /** The C decoder reads every field of a Rust-encoded header back. */
  lemma RustEncodingDecodes(h: NusHeaderRs.Header, rest: seq<byte>)
    ensures NusHeaderC.Parse(NusHeaderRs.Encode(h) + rest) == ToC(h)
  {
    EncodingsAgree(h);
    NusHeaderC.ParseEncode(ToC(h), rest);
  }

  /** `Default` and `nus_init` agree on every byte except the title: the Rust
      empty title is written as twenty ASCII '0' bytes, the C one as twenty NULs. */
  lemma DefaultsAgree()
    ensures ToC(NusHeaderRs.DefaultValue()) == NusHeaderC.InitValue().(title := Fill(20, 0x30))
  {
    EmptyTitleField();
    ZeroReserved();
  }

  lemma EmptyTitleField()
    ensures NusHeaderRs.TitleField("") == Fill(20, 0x30)
  {
    NusHeaderRs.TitleFieldShortAscii("");
  }

  lemma ZeroReserved()
    ensures BeBytes64(0) == Fill(8, 0)
  {
    BeBytes32Elements(0);
  }
}
