// Byte-level vocabulary shared by the C and the Rust halves of the model:
// bytes, fixed-width byte arrays, and big-endian composition of integers.

module Base {

  /** A `u8`. */
  type byte = bv8

  /** Fixed-size byte arrays of the header structs (`[u8; N]` / `u8 x[N]`). */
  type Bytes2 = s: seq<byte> | |s| == 2 witness [0, 0]
  type Bytes7 = s: seq<byte> | |s| == 7 witness [0, 0, 0, 0, 0, 0, 0]
  type Bytes8 = s: seq<byte> | |s| == 8 witness [0, 0, 0, 0, 0, 0, 0, 0]
  type Bytes20 = s: seq<byte> | |s| == 20
    witness [0, 0, 0, 0, 0, 0, 0, 0, 0, 0, 0, 0, 0, 0, 0, 0, 0, 0, 0, 0]

  datatype Option<+T> = None | Some(value: T)

  /** The size of the boot header at the front of an image (`NUS_HEADER_SIZE`, `HEADER_SIZE`). */
  const HeaderSize: nat := 0x40

  /** `n` copies of `v`. */
  function Fill(n: nat, v: byte): (r: seq<byte>)
  {
    seq(n, _ => v)
  }

  /** The low `k` bytes of `n`, most significant first. */
  function BeBytes(n: bv32, k: nat): (r: seq<byte>)
    requires k <= 4
    ensures |r| == k
  {
    if k == 0 then [] else BeBytes(n >> 8, k - 1) + [(n & 0xFF) as byte]
  }

  /** The four bytes of `n`, most significant first (`htonl`, `u32::to_be_bytes`). */
  function BeBytes32(n: bv32): (r: seq<byte>)
    ensures |r| == 4
  {
    BeBytes(n, 4)
  }

  /** The four bytes of `BeBytes32(n)` one by one. */
  lemma BeBytes32Elements(n: bv32)
    ensures BeBytes32(n)
      == [(n >> 24) as byte, ((n >> 16) & 0xFF) as byte, ((n >> 8) & 0xFF) as byte, (n & 0xFF) as byte]
  {
    assert BeBytes(n >> 8 >> 8 >> 8, 1) == [((n >> 24) & 0xFF) as byte];
    assert BeBytes(n >> 8 >> 8, 2) == BeBytes(n >> 8 >> 8 >> 8, 1) + [((n >> 16) & 0xFF) as byte];
    assert BeBytes(n >> 8, 3) == BeBytes(n >> 8 >> 8, 2) + [((n >> 8) & 0xFF) as byte];
  }

  /** The eight bytes of `n`, most significant first (`u64::to_be_bytes`). */
  function BeBytes64(n: bv64): (r: seq<byte>)
    ensures |r| == 8
  {
    BeBytes32((n >> 32) as bv32) + BeBytes32((n & 0xFFFF_FFFF) as bv32)
  }

  /** The big-endian word stored at `data[off..off+4]` (`ntohl`, `u32::from_be_bytes`). */
  function BeWord(data: seq<byte>, off: nat): bv32
    requires off + 4 <= |data|
  {
    ((data[off] as bv32) << 24) | ((data[off + 1] as bv32) << 16)
    | ((data[off + 2] as bv32) << 8) | (data[off + 3] as bv32)
  }

  lemma BeWordOfBeBytes(n: bv32, pre: seq<byte>, post: seq<byte>)
    ensures BeWord(pre + BeBytes32(n) + post, |pre|) == n
  {
    var s := pre + BeBytes32(n) + post;
    BeBytes32Elements(n);
    assert s[|pre|..|pre| + 4] == BeBytes32(n);
  }

  lemma BeBytesOfBeWord(data: seq<byte>, off: nat)
    requires off + 4 <= |data|
    ensures BeBytes32(BeWord(data, off)) == data[off..off + 4]
  {
    BeBytes32Elements(BeWord(data, off));
  }

  /** The two halves of a concatenation. */
  lemma SplitAt(a: seq<byte>, b: seq<byte>)
    ensures (a + b)[..|a|] == a && (a + b)[|a|..] == b
  {
  }
}
