# nusstool boot header, checksum and buffer: a Dafny model

nusstool builds and edits Nintendo 64 cartridge images. Such an image starts with a
64-byte boot header. The header holds configuration words, a two-word checksum, a
20-byte title and a few one-byte codes. The checksum is computed over the 1 MiB of the
image that starts at offset 0x1000.

The repository has two implementations of this header, and both are modelled here:

- The C library (`src/nusheader.c`). A `NusHeader` struct is written through
  pointers. It has its own 64-byte encoder and decoder, the `calc_crc_` checksum loop,
  and two buffer operations. One stamps a header over the first 64 bytes of a buffer.
  The other makes room for a header in front of the buffer.
- The Rust crate and its command-line front end:
  - `lib/src/nusheader.rs` has the struct with a `String` title and its `Default`. It
    also has `to_bytes`, `set_crc`, and a checksum loop named after MIPS registers.
  - `lib/src/buffer.rs` is a growable byte buffer. It supports header insertion and
    replacement, padding and injection.
  - `cli/src/main.rs` has the header overrides given on the command line and four of
    its commands.

How the model is organised:

- Each module follows one source file:
  - `NusHeaderC` follows `src/nusheader.c`.
  - `NusHeaderRs` follows `lib/src/nusheader.rs`.
  - `BufferRs` follows `lib/src/buffer.rs`.
  - `Cli` follows `cli/src/main.rs`.
- `BootChecksum` is a pure reference definition of the checksum. Both loops are proved
  to compute exactly this function.
- `Agreement` relates the two header encodings.
- `Base` holds bytes, big-endian words and the `Option` type. `ErrorC` and `ErrorRs`
  hold the two error enums.
- Structs and buffers that the source changes in place are classes:
  - The C struct is a class, and so is the C buffer. The C buffer keeps an `array`,
    as in the source.
  - The Rust struct is a class.
  - The Rust `Vec<u8>` buffer is a class with a `seq` field.
- Loops are methods with invariants. Each method is proved against a specification
  function (`Encode`, `Parse`, `Checksum`, `PaddedTo`, `Injected`, `Applied`, …). The
  properties of those functions are proved as lemmas.

Source behaviour that the model keeps as written:

- `inject(at, data)` writes the bytes from index 0, not from `at`. Its copy loop
  indexes `self.data` by the position in `data` alone (lib/src/buffer.rs:85-87).
- `inject` starts with `pad_to(at + data.len(), 0)`. When the buffer is already longer
  than `at + data.len()`, which is the usual case of injecting into an existing image,
  that loop never exits (lib/src/buffer.rs:66, `BufferRs.InjectNeverStops`).
- The Rust title is padded to 20 characters with ASCII '0' (0x30), not with zero bytes,
  and the padding counts characters, not bytes (lib/src/nusheader.rs:62).
- `pad_to(to, val)` and `pad_by(by, val)` append copies of `val`
  (lib/src/buffer.rs:65-75). `inject` pads with 0 (lib/src/buffer.rs:83), and so do the
  PadTo and PadBy commands (cli/src/main.rs:128,132).

## Model

| member | source | states |
|---|---|---|
| BootChecksum.SeedsAgree | src/nusheader.c:126 | the C seed, -120959524 stored in a u32, is 0xF8CA4DDC; so is the Rust seed, 0x3f·0x5d588b65+1 wrapped to 32 bits (lib/src/nusheader.rs:104-116) |
| BootChecksum.RotationByZero | src/nusheader.c:150-151 | a word whose low five bits are 0 is left unchanged by the rotate expression, even though it shifts right by 32 |
| BootChecksum.FoldWindowOnly | src/nusheader.c:139-165 | after any number of words, the accumulators depend only on the bytes of the checksum window (proof by induction over the loop) |
| BootChecksum.ChecksumWindowOnly | src/nusheader.c:139-174 | two images that agree on bytes 0x1000..0x101000 have the same checksum |
| BootChecksum.ChecksumIgnoresHeader | src/nusheader.c:20-25 | replacing the first 64 bytes of an image long enough to checksum does not change its checksum |
| NusHeaderC.NtohlFrom | src/nusheader.c:57-59 | the word read at an offset is the one whose big-endian bytes are the four bytes there |
| NusHeaderC.EncodeLayout | src/nusheader.c:103-122 | each field of the encoding is at its documented offset: words at 0x00-0x18, reserved_1 at 0x18, title at 0x20, reserved_2 at 0x34, then category, unique, destination and version at 0x3B-0x3F |
| NusHeaderC.ParseEncode | src/nusheader.c:61-122 | decoding the encoding of any header, whatever bytes follow it, gives back every field |
| NusHeaderC.EncodeParse | src/nusheader.c:61-122 | encoding the decoded fields gives back the first 64 bytes exactly, so the layout is a bijection |
| NusHeaderC.CalcCrc | src/nusheader.c:124-174 | fails with CrcNotEnoughData exactly when the input is shorter than 0x101000 bytes, and otherwise returns OK and the reference checksum; on failure the pair is unspecified |
| NusHeaderC.HtonlTo | src/nusheader.c:97-101 | writes the four big-endian bytes of the word at the offset and leaves every other byte alone |
| NusHeaderC.CopyInto | src/nusheader.c:15 | a memcpy: the source bytes land at the offset and the rest of the array is unchanged |
| NusHeaderC.NusHeader.Init | src/nusheader.c:48-55 | the struct becomes all zeros except cfg_flags 0x80371240, clck_rate 0xF, boot_addr 0x80010000, category 'N' and destination 'A' |
| NusHeaderC.NusHeader.NusCrc | src/nusheader.c:176-183 | returns OK or CrcNotEnoughData, the latter exactly on short input; on OK the stored pair is the checksum of the data |
| NusHeaderC.NusHeader.FromBytes | src/nusheader.c:61-95 | fails with HeaderNotEnoughData exactly on input under 64 bytes and then leaves the struct alone; otherwise it returns OK even if the checksum fails, holds every decoded field, and holds the checksum whenever the input is long enough |
| NusHeaderC.NusHeader.ReadFields | src/nusheader.c:69-87 | after the field reads the struct holds the decoded header |
| NusHeaderC.NusHeader.ReadWords | src/nusheader.c:70-75 | the four words and the crc pair are the big-endian words at 0x00-0x18 |
| NusHeaderC.NusHeader.ReadBytes | src/nusheader.c:77-87 | the byte fields are copied from offsets 0x18-0x3F |
| NusHeaderC.NusHeader.ToBytes | src/nusheader.c:103-122 | the first 64 bytes of the result array are the encoding of the struct and the rest is unchanged |
| NusHeaderC.PutFirstWords | src/nusheader.c:104-106 | the first three words are in place and the rest of the array is untouched |
| NusHeaderC.PutLastWords | src/nusheader.c:107-109 | the next three words follow the first three |
| NusHeaderC.PutBytes | src/nusheader.c:111-121 | the byte arrays and single bytes follow the six words, in layout order |
| NusHeaderC.Buffer.AddHeader | src/nusheader.c:6-18 | the buffer gets a fresh array holding 64 zero bytes followed by the old contents |
| NusHeaderC.Buffer.SetHeader | src/nusheader.c:20-25 | the first 64 bytes become the encoding of the header and the rest is kept; the header's crc is the checksum of the buffer as it was whenever that is long enough |
| NusHeaderC.SetHeaderIsConsistent | src/nusheader.c:20-25 | after stamping, the crc that a decoder reads back from the image is the checksum of the stamped image |
| NusHeaderRs.Utf8Char | lib/src/nusheader.rs:63 | encodes a character in 1 to 4 bytes, and in exactly one byte (the character itself) when it is ASCII |
| NusHeaderRs.Utf8Append | lib/src/nusheader.rs:63 | the byte encoding of a concatenation is the concatenation of the encodings |
| NusHeaderRs.Utf8Fill | lib/src/nusheader.rs:62 | n '0' fill characters encode as n bytes 0x30 |
| NusHeaderRs.TitleFieldShortAscii | lib/src/nusheader.rs:61-63 | an ASCII title of at most 20 characters is stored as its bytes followed by 0x30 bytes up to 20 |
| NusHeaderRs.TitleFieldTruncates | lib/src/nusheader.rs:61-63 | a title whose encoding reaches 20 bytes is cut to its first 20 bytes |
| NusHeaderRs.TitleFieldShort | lib/src/nusheader.rs:61-63 | a title of fewer than 20 characters, ASCII or not, is stored as its encoding followed by one 0x30 per missing character, cut to 20 bytes |
| NusHeaderRs.TitleFieldTwoByteChar | lib/src/nusheader.rs:61-63 | the one-character title U+00E9 is stored as C3 A9 followed by eighteen 0x30 bytes |
| NusHeaderRs.NusHeader.Default | lib/src/nusheader.rs:23-40 | the default struct: cfg_flags 0x80371240, clck_rate 0xF, boot_addr 0x80010000, category b'N', destination b'A', empty title, all else zero |
| NusHeaderRs.NusHeader.ToBytes | lib/src/nusheader.rs:50-80 | the vector is the 64-byte encoding, so the length check never panics |
| NusHeaderRs.NusHeader.SetCrc | lib/src/nusheader.rs:82-86 | succeeds exactly on input of at least 0x101000 bytes and stores its checksum; on failure it returns the not-enough-data error and keeps the stored crc |
| NusHeaderRs.NusHeader.Crc | lib/src/nusheader.rs:92-164 | the register-named loop returns the not-enough-data error exactly on short input, and otherwise the reference checksum |
| NusHeaderRs.RegisterRoundIsStep | lib/src/nusheader.rs:126-155 | one pass of the register-named loop body is one step of the reference loop |
| NusHeaderRs.RegisterFinishIsFinish | lib/src/nusheader.rs:158-163 | the register-named final xors compute the reference result pair |
| Agreement.EncodingsAgree | lib/src/nusheader.rs:50-80 | `to_bytes` writes the same 64 bytes as `nus_to_bytes` for the corresponding C struct |
| Agreement.RustEncodingDecodes | lib/src/nusheader.rs:50-80 | the C decoder reads every field of a Rust-encoded header back, whatever follows it |
| Agreement.DefaultsAgree | lib/src/nusheader.rs:23-40 | the Rust default and `nus_init` agree on every byte except the title (twenty '0' bytes versus twenty NULs) |
| BufferRs.PaddedTo | lib/src/buffer.rs:65-69 | padding to a target keeps the old bytes as a prefix, reaches the target length, and fills with the value |
| BufferRs.PaddedBy | lib/src/buffer.rs:71-75 | padding by n keeps the old bytes as a prefix and adds n copies of the value |
| BufferRs.Buffer.AddHeader | lib/src/buffer.rs:51-55 | the buffer becomes the header's encoding followed by the old contents |
| BufferRs.Buffer.SetHeader | lib/src/buffer.rs:58-63 | the first 64 bytes become the header's encoding and the rest is kept |
| BufferRs.Buffer.WriteFront | lib/src/buffer.rs:60-62 | the index loop overwrites the first bytes with the given bytes and keeps the rest |
| BufferRs.Buffer.PadTo | lib/src/buffer.rs:65-69 | from a buffer no longer than the target, the loop stops with the buffer padded to the target |
| BufferRs.Buffer.PadBy | lib/src/buffer.rs:71-75 | the buffer grows by exactly n copies of the value |
| BufferRs.Buffer.Inject | lib/src/buffer.rs:80-88 | zero padding to at+len, then the data written over indices 0..len |
| BufferRs.Buffer.InjectReader | lib/src/buffer.rs:91-102 | a read failure returns ReadError and leaves the buffer alone; otherwise it injects the bytes read and returns Ok |
| BufferRs.PadToIdempotent | lib/src/buffer.rs:65-69 | padding twice to the same target is padding once |
| BufferRs.PadByZero | lib/src/buffer.rs:71-75 | padding by 0 changes nothing |
| BufferRs.PadByIsPadTo | lib/src/buffer.rs:65-75 | padding by n is padding to the length plus n |
| BufferRs.PadByAdds | lib/src/buffer.rs:71-75 | padding by m then by n is padding by m+n |
| BufferRs.PadToNeverStops | lib/src/buffer.rs:66 | when the buffer is longer than the target, no number of pushes reaches the target, so the loop never exits |
| BufferRs.InjectNeverStops | lib/src/buffer.rs:80-83 | when the buffer is longer than at+len, the `pad_to` that `inject` starts with never reaches its target, so `inject` never returns |
| BufferRs.InjectLayout | lib/src/buffer.rs:80-88 | after injecting, the length is at+len, the data sits at index 0 whatever `at` is, and every other byte is the old byte or zero padding |
| BufferRs.InjectWritesAtZero | lib/src/buffer.rs:85-87 | injecting [7] at offset 1 into an empty buffer gives [7, 0] |
| Cli.CharToU8Ascii | cli/src/main.rs:57-59 | for an ASCII character, `as u8` gives its one-byte UTF-8 encoding |
| Cli.CharToU8Truncates | cli/src/main.rs:57-59 | beyond ASCII, `as u8` keeps the low eight bits: U+0141 becomes 0x41 |
| Cli.Apply | cli/src/main.rs:41-72 | the struct becomes the overridden header: each given field replaces the stored one |
| Cli.ApplyTitle | cli/src/main.rs:42-44 | a given title replaces the stored one whole |
| Cli.ApplyBootAddr | cli/src/main.rs:45-47 | a given boot address replaces the stored one |
| Cli.ApplyCfgFlags | cli/src/main.rs:48-50 | given cfg flags replace the stored ones |
| Cli.ApplyClckRate | cli/src/main.rs:51-53 | a given clock rate replaces the stored one |
| Cli.ApplyLuVer | cli/src/main.rs:54-56 | a given release version replaces the stored one |
| Cli.ApplyCategory | cli/src/main.rs:57-59 | a given category replaces the stored byte with its low eight bits |
| Cli.ApplyUnique | cli/src/main.rs:60-65 | a given unique string replaces the stored pair with its first two UTF-8 bytes |
| Cli.ApplyDestination | cli/src/main.rs:66-68 | a given destination replaces the stored byte with its low eight bits |
| Cli.ApplyVersion | cli/src/main.rs:69-71 | a given version replaces the stored byte with its low eight bits |
| Cli.AppliedKeeps | cli/src/main.rs:41-72 | `apply` never changes the crc or the reserved fields, and keeps every field that is not given |
| Cli.AppliedSets | cli/src/main.rs:41-72 | a given title is stored whole, a given unique string as its first two bytes, and an ASCII character as its own byte |
| Cli.AppliedNothing | cli/src/main.rs:41-72 | applying no overrides leaves the header as it was |
| Cli.AppliedIdempotent | cli/src/main.rs:41-72 | applying the same overrides twice is applying them once |
| Cli.LongTitleCutWhenEncoded | cli/src/main.rs:42-44 | a long title is kept whole by `apply` and cut to its first 20 bytes only when the header is encoded |
| Cli.SetNusHeader | cli/src/main.rs:113-119 | panics on a decode error, on a given `unique` string under two bytes (in `apply`), or on input too short to checksum; otherwise it writes the overridden header, stamped with the input's checksum, over the first 64 bytes |
| Cli.AddNusHeader | cli/src/main.rs:120-126 | panics on a given `unique` string under two bytes (in `apply`) or on input too short to checksum; otherwise it writes a default header with the overrides and the input's checksum in front of the whole input |
| Cli.PadTo | cli/src/main.rs:127-130 | hangs when the input is longer than the target; otherwise it writes the input padded with zeros to the target |
| Cli.PadBy | cli/src/main.rs:131-134 | writes the input followed by n zeros |
| Cli.StampedIsConsistent | cli/src/main.rs:113-119 | SetNusHeader keeps the length and every byte after the header, and the crc a decoder reads from its output is the checksum of that output |
| Cli.PrependedChecksumsInput | cli/src/main.rs:120-126 | AddNusHeader keeps the whole input after the 64 header bytes, and the stored crc is the checksum of the input before the header was added |

## Left out

- Printing is not modelled: `nus_fprint`, the `Display` of the Rust header, and the ShowNusHeader and CalcNusCrc commands. They only format values this model computes.
- File and stream I/O is not modelled:
  - `Buffer::from_reader` and `Buffer::write` are absent.
  - Opening the files is absent.
  - In `inject_reader`, the outcome of `read_to_end` is a parameter.
  - A buffer is built from its contents by a constructor.
- `Buffer::header` / `NusHeader::from_bytes` is not defined by the Rust crate: the trait implementation in `lib/src/nusheader.rs` has no `from_bytes`. `Cli.SetNusHeader` therefore takes the decoder's result as a parameter. The C decoder `NusHeaderC.Parse` is the decoder used in the consistency lemmas.
- `lib/src/nusheader.rs:94` returns `Error::NusCrcNotEnoughData`, which `lib/src/error.rs` does not declare. It is modelled as that enum's `CrcNotEnoughData`.
- NusHeaderC.CalcCrc: on failure the result pair is left unspecified. C never writes it, and `nus_crc` then copies an uninitialised value into the struct.
- BootChecksum.Step: a rotation by 0 shifts right by 32. In C that is undefined behaviour, and in a Rust debug build it panics. Here it yields 0, so the rotation is the identity, which is what the algorithm means. The wrapping additions are 32-bit bit-vector arithmetic, as in the source.
- NusHeaderC.CalcCrc and NusHeaderRs.NusHeader.Crc: the loops hold their six accumulators in one `State` value rather than six variables. The register-named loop keeps its own variables, and two lemmas tie them to the reference step.
- The 1 MiB test vectors (`test_crc` at src/nusheader.c:199-213, and the `crc` test in `lib/src/nusheader.rs:186-197`) are not proved. They would have to evaluate 262144 loop steps.
- The following panics are not modelled as outcomes; each is a precondition instead:
  - BufferRs.Buffer.SetHeader requires a buffer of at least 64 bytes, because indexing past the end panics.
  - NusHeaderC.Buffer.SetHeader requires at least 64 bytes, the caller contract stated in include/nusheader.h.
  - Cli.Apply and Cli.ApplyUnique require a given `unique` string to have at least two bytes, because the slice `bytes[0..2]` panics. The command arms `Cli.SetNusHeader` and `Cli.AddNusHeader` check this first and report it as the `Panicked` outcome.
- BufferRs.Buffer.PadTo requires the buffer to be no longer than the target. From a longer buffer the source loop never exits: `PadToNeverStops` proves this, and `Cli.PadTo` reports it as the `Hangs` outcome. In reality it would run until memory ran out.
- BufferRs.Buffer.Inject and BufferRs.Buffer.InjectReader require `len <= at + |src|`, for the same reason: the `pad_to` inside them never returns otherwise (`InjectNeverStops`).
- Integer widths: `usize` lengths and offsets are unbounded naturals, so `at + data.len()` cannot overflow here.
- The `char` arguments of the command line are Unicode scalar values. `as u8` keeps their low eight bits.
- Not part of this model: `src/nususb.c` (USB transport), `src/bitmap.c` (image packing), `src/buffer.c` (generic buffer resize/read), and `src/main.c`.
