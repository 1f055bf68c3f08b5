// The Rust `Buffer`: a growable byte vector changed in place by the header,
// padding and injection operations.

module BufferRs {
  import opened Base
  import opened ErrorRs
  import NusHeaderRs

  /** What `pad_to(target, val)` leaves when its loop stops: `val` appended until the
      length is `target`. */
  function PaddedTo(data: seq<byte>, target: nat, val: byte): (r: seq<byte>)
    requires |data| <= target
    ensures |r| == target && r[..|data|] == data
    ensures forall i :: |data| <= i < target ==> r[i] == val
  {
    data + Fill(target - |data|, val)
  }

  /** What `pad_by(amount, val)` leaves: `amount` more copies of `val`. */
  function PaddedBy(data: seq<byte>, amount: nat, val: byte): (r: seq<byte>)
    ensures |r| == |data| + amount && r[..|data|] == data
    ensures forall i :: |data| <= i < |r| ==> r[i] == val
  {
    data + Fill(amount, val)
  }

  /** What `inject(at, src)` leaves: zero padding up to `at + |src|`, then `src`
      written from index 0 (the loop indexes by the position in `src` alone). */
  function Injected(data: seq<byte>, at: nat, src: seq<byte>): (r: seq<byte>)
    requires |data| <= at + |src|
  {
    src + PaddedTo(data, at + |src|, 0)[|src|..]
  }

  lemma FillSnoc(n: nat, val: byte)
    ensures Fill(n + 1, val) == Fill(n, val) + [val]
  {
  }

  class Buffer {
    var data: seq<byte>

    /** A buffer holding `contents`, as `from_reader` leaves it. */
    constructor (contents: seq<byte>)
      ensures data == contents
    {
      data := contents;
    }

    /** `add_header`: the header's 64 bytes, then the old contents moved behind them. */
    method AddHeader(header: NusHeaderRs.NusHeader)
      modifies this
      ensures data == NusHeaderRs.Encode(header.Value()) + old(data)
    {
      var headerBytes := header.ToBytes();
      headerBytes := headerBytes + data;  // `append` empties `self.data` into the vector
      data := headerBytes;
    }

    /** `set_header`: overwrite the first 64 bytes, one index at a time; indexing
        past the end would panic, so the buffer must hold at least 64 bytes. */
    method SetHeader(header: NusHeaderRs.NusHeader)
      requires HeaderSize <= |data|
      modifies this
      ensures data == NusHeaderRs.Encode(header.Value()) + old(data)[HeaderSize..]
    {
      var headerBytes := header.ToBytes();
      WriteFront(headerBytes);
    }

    /** The index loop of `set_header`: `bytes` over the first `|bytes|` bytes. */
    method WriteFront(bytes: seq<byte>)
      requires |bytes| <= |data|
      modifies this
      ensures data == bytes + old(data)[|bytes|..]
    {
      ghost var orig := data;
      for i := 0 to |bytes|
        invariant |data| == |orig|
        invariant forall j :: 0 <= j < i ==> data[j] == bytes[j]
        invariant forall j :: i <= j < |data| ==> data[j] == orig[j]
      {
        data := data[i := bytes[i]];
      }
      assert forall j :: 0 <= j < |data| ==> data[j] == (bytes + orig[|bytes|..])[j];
    }

    /** `pad_to`: push `val` while the length differs from `target`. The loop stops
        only when the buffer starts no longer than `target` (see `PadToNeverStops`). */
    method PadTo(target: nat, val: byte)
      requires |data| <= target
      modifies this
      ensures data == PaddedTo(old(data), target, val)
    {
      assert data == PaddedTo(old(data), |data|, val);
      while |data| != target
        invariant |old(data)| <= |data| <= target
        invariant data == PaddedTo(old(data), |data|, val)
        decreases target - |data|
      {
        FillSnoc(|data| - |old(data)|, val);
        data := data + [val];
      }
    }

    /** `pad_by`: push `val` `amount` times. */
    method PadBy(amount: nat, val: byte)
      modifies this
      ensures data == PaddedBy(old(data), amount, val)
    {
      for i := 0 to amount
        invariant data == PaddedBy(old(data), i, val)
      {
        FillSnoc(i, val);
        data := data + [val];
      }
    }

    /** `inject`: pad with zeros to `at + |src|`, then copy `src` over indices
        `0..|src|`. The padding step hangs unless the buffer is no longer than
        `at + |src|`. */
    method Inject(at: nat, src: seq<byte>)
      requires |data| <= at + |src|
      modifies this
      ensures data == Injected(old(data), at, src)
    {
      PadTo(at + |src|, 0);
      ghost var padded := data;
      for i := 0 to |src|
        invariant |data| == at + |src|
        invariant data == src[..i] + padded[i..]
      {
        data := data[i := src[i]];
        assert src[..i + 1] == src[..i] + [src[i]];
      }
    }

    /** `inject_reader`, with the outcome of `read_to_end` as a parameter: a read
        failure becomes `ReadError` before the buffer is touched. */
    method InjectReader(at: nat, read: Result<seq<byte>>) returns (r: Result<()>)
      requires read.Ok? ==> |data| <= at + |read.value|
      modifies this
      ensures read.Err? ==> r == Err(ReadError) && data == old(data)
      ensures read.Ok? ==> r == Ok(()) && data == Injected(old(data), at, read.value)
    {
      if read.Err? {
        return Err(ReadError);
      }
      Inject(at, read.value);
      return Ok(());
    }
  }

  /** A second `pad_to` with the same target changes nothing. */
  lemma PadToIdempotent(data: seq<byte>, target: nat, val: byte)
    requires |data| <= target
    ensures PaddedTo(PaddedTo(data, target, val), target, val) == PaddedTo(data, target, val)
  {
    assert Fill(0, val) == [];
  }

  /** `pad_by(0, _)` is a no-op. */
  lemma PadByZero(data: seq<byte>, val: byte)
    ensures PaddedBy(data, 0, val) == data
  {
    assert Fill(0, val) == [];
  }

  /** `pad_by(n)` is `pad_to(len + n)`. */
  lemma PadByIsPadTo(data: seq<byte>, amount: nat, val: byte)
    ensures PaddedBy(data, amount, val) == PaddedTo(data, |data| + amount, val)
  {
  }

  /** Two `pad_by` calls add up. */
  lemma PadByAdds(data: seq<byte>, m: nat, n: nat, val: byte)
    ensures PaddedBy(PaddedBy(data, m, val), n, val) == PaddedBy(data, m + n, val)
  {
    assert Fill(m, val) + Fill(n, val) == Fill(m + n, val);
  }

  /** When the buffer is longer than `target`, no number of pushes brings its
      length to `target`: the loop of `pad_to` never exits. */
  lemma PadToNeverStops(data: seq<byte>, target: nat, val: byte)
    requires target < |data|
    ensures forall n: nat :: |PaddedBy(data, n, val)| != target
  {
  }

  /** `inject` into a buffer already longer than `at + |src|` never returns: the
      `pad_to(at + |src|, 0)` it starts with pushes zeros forever. */
  lemma InjectNeverStops(data: seq<byte>, at: nat, src: seq<byte>)
    requires at + |src| < |data|
    ensures forall n: nat :: |PaddedBy(data, n, 0)| != at + |src|
  {
    PadToNeverStops(data, at + |src|, 0);
  }

  /** The bytes `inject` leaves: the new length is `at + |src|`, `src` sits at
      index 0 whatever `at` is, and every other byte is the old one or padding. */
  lemma InjectLayout(data: seq<byte>, at: nat, src: seq<byte>)
    requires |data| <= at + |src|
    ensures |Injected(data, at, src)| == at + |src|
    ensures Injected(data, at, src)[..|src|] == src
    ensures forall i :: |src| <= i < at + |src| ==>
      Injected(data, at, src)[i] == if i < |data| then data[i] else 0
  {
    var r := Injected(data, at, src);
    var p := PaddedTo(data, at + |src|, 0);
    forall i | |src| <= i < at + |src|
      ensures r[i] == if i < |data| then data[i] else 0
    {
      assert r[i] == p[i];
      if i < |data| {
        assert p[..|data|][i] == data[i];
      }
    }
  }

  /** `at` only decides how far the buffer is padded: injecting one byte at
      index 1 into an empty buffer writes it at index 0. */
  lemma InjectWritesAtZero()
    ensures Injected([], 1, [7]) == [7, 0]
  {
    assert PaddedTo([], 2, 0) == [0, 0];
  }
}
