/** The two views of `std::fs::File` the archiver uses, as byte sequences
    with a cursor: an output file written and patched through `seek`, and
    an input file read with `read` and `read_exact`. */
module Files {
  import opened Wrappers
  import opened Format
  import opened Codec

  function Max(a: nat, b: nat): nat {
    if a < b then b else a
  }

  /** The file `data` after writing `b` at position `p`: the bytes before
      `p` stay, a gap past the old end reads as zeros, `b` lands at `p`, and
      whatever lay beyond it stays. */
  function Overwrite(data: seq<u8>, p: nat, b: seq<u8>): (r: seq<u8>)
    ensures |r| == Max(|data|, p + |b|)
  {
    var padded := if p <= |data| then data else data + seq(p - |data|, _ => 0);
    padded[..p] + b + (if p + |b| <= |padded| then padded[p + |b|..] else [])
  }

  /** Byte by byte: `b` at `p`, the old bytes elsewhere, zeros in a gap. */
  lemma OverwriteBytes(data: seq<u8>, p: nat, b: seq<u8>)
    ensures var r := Overwrite(data, p, b);
      forall k | 0 <= k < |r| :: r[k] == if p <= k < p + |b| then b[k - p] else if k < |data| then data[k] else 0
  {
  }

  /** Writing at the end appends. */
  lemma OverwriteAppend(data: seq<u8>, b: seq<u8>)
    ensures Overwrite(data, |data|, b) == data + b
  {
    var r := Overwrite(data, |data|, b);
    OverwriteBytes(data, |data|, b);
    assert forall k | 0 <= k < |r| :: r[k] == (data + b)[k];
  }

  /** Two writes one after the other are one write of both. */
  lemma OverwriteThen(data: seq<u8>, p: nat, a: seq<u8>, b: seq<u8>)
    ensures Overwrite(Overwrite(data, p, a), p + |a|, b) == Overwrite(data, p, a + b)
  {
    var r, s := Overwrite(Overwrite(data, p, a), p + |a|, b), Overwrite(data, p, a + b);
    OverwriteBytes(data, p, a);
    OverwriteBytes(Overwrite(data, p, a), p + |a|, b);
    OverwriteBytes(data, p, a + b);
    assert |r| == |s|;
    forall k | 0 <= k < |r|
      ensures r[k] == s[k]
    {
      if p <= k < p + |a| {
        assert (a + b)[k - p] == a[k - p];
      } else if p + |a| <= k < p + |a| + |b| {
        assert (a + b)[k - p] == b[k - p - |a|];
      }
    }
  }

  /** Writing a span of the same length over a span replaces it. */
  lemma OverwriteSpan(front: seq<u8>, old_: seq<u8>, rest: seq<u8>, b: seq<u8>)
    requires |b| == |old_|
    ensures Overwrite(front + old_ + rest, |front|, b) == front + b + rest
  {
    var r := Overwrite(front + old_ + rest, |front|, b);
    OverwriteBytes(front + old_ + rest, |front|, b);
    assert forall k | 0 <= k < |r| :: r[k] == (front + b + rest)[k];
  }

  /** A file opened for writing: its bytes and the write position. */
  class OutFile {
    var data: seq<u8>
    var pos: nat

    /** `File::create`: an empty file. */
    constructor ()
      ensures data == [] && pos == 0
    {
      data := [];
      pos := 0;
    }

    /** `write_all`: the bytes land at the position, which moves past them. */
    method Write(b: seq<u8>)
      modifies this
      ensures data == Overwrite(old(data), old(pos), b) && pos == old(pos) + |b|
      ensures old(pos) == |old(data)| ==> data == old(data) + b && pos == |data|
    {
      if pos == |data| {
        OverwriteAppend(data, b);
      }
      data := Overwrite(data, pos, b);
      pos := pos + |b|;
    }

    /** `seek(SeekFrom::Start(p))`. */
    method Seek(p: nat)
      modifies this`pos
      ensures pos == p
    {
      pos := p;
    }
  }

  /** A file opened for reading: its bytes and the read position.  A
      `read` of a regular file returns as many bytes as are asked for and
      left. */
  class InFile {
    const data: seq<u8>
    var pos: nat

    /** `File::open`: reading starts at the first byte. */
    constructor (bytes: seq<u8>)
      ensures data == bytes && pos == 0
    {
      data := bytes;
      pos := 0;
    }

    /** One `read` of up to `n` bytes: what is left, at most `n`. */
    method Read(n: nat) returns (b: seq<u8>)
      requires pos <= |data|
      modifies this`pos
      ensures b == Avail(data, old(pos), n) && pos == old(pos) + |b|
    {
      b := if pos + n <= |data| then data[pos..pos + n] else data[pos..];
      pos := pos + |b|;
    }

    /** `read_u16::<LittleEndian>`: two bytes, or `UnexpectedEof`, after
        which the rest of the file has been consumed. */
    method ReadU16() returns (r: Result<u16>)
      requires pos <= |data|
      modifies this`pos
      ensures r == U16At(data, old(pos))
      ensures pos == if r.Ok? then old(pos) + 2 else |data|
    {
      if pos + 2 <= |data| {
        r := Ok(GetU16(data[pos..pos + 2]));
        pos := pos + 2;
      } else {
        r := Err(UnexpectedEof);
        pos := |data|;
      }
    }

    /** `read_u32::<LittleEndian>`, widened to `usize`. */
    method ReadU32() returns (r: Result<nat>)
      requires pos <= |data|
      modifies this`pos
      ensures r == U32At(data, old(pos))
      ensures pos == if r.Ok? then old(pos) + 4 else |data|
    {
      if pos + 4 <= |data| {
        r := Ok(GetU32(data[pos..pos + 4]));
        pos := pos + 4;
      } else {
        r := Err(UnexpectedEof);
        pos := |data|;
      }
    }
  }
}
