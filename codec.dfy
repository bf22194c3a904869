/** The little-endian archive header of kwui-cli/src/packager.rs:
    `write_header_data`, `update_header_data` and `read_header`.

    Layout: magic (4 bytes), version (u16), flags (u16), chunk size, dir
    count and file count (u32 each), then three tables, each a u32 count
    followed by fixed-size records: nodes (8 bytes), items (12 bytes: reference,
    flags, offset, length) and chunks (12 bytes: algorithm, flags, length,
    compressed length).  Every `as u32` / `as _` cast truncates modulo 2^32. */
module Codec {
  import opened Wrappers
  import opened Format

  const U32Modulus: int := 0x1_0000_0000

  function U16Le(x: u16): (r: seq<u8>)
    ensures |r| == 2
  {
    [x % 0x100, x / 0x100]
  }

  /** `write_u32::<LittleEndian>(x as u32)`: the value modulo 2^32, low
      half first. */
  function U32Le(x: nat): (r: seq<u8>)
    ensures |r| == 4
  {
    var y := x % U32Modulus;
    U16Le(y % 0x1_0000) + U16Le(y / 0x1_0000)
  }

  function GetU16(b: seq<u8>): u16
    requires |b| >= 2
  {
    b[0] as int + b[1] as int * 0x100
  }

  function GetU32(b: seq<u8>): nat
    requires |b| >= 4
  {
    GetU16(b) + GetU16(b[2..]) * 0x1_0000
  }

  lemma U16RoundTrip(x: u16)
    ensures GetU16(U16Le(x)) == x
  {
  }

  lemma U32RoundTrip(x: nat)
    ensures GetU32(U32Le(x)) == x % U32Modulus
  {
    var y := x % U32Modulus;
    var b := U32Le(x);
    assert b[2..] == U16Le(y / 0x1_0000);
    U16RoundTrip(y % 0x1_0000);
    U16RoundTrip(y / 0x1_0000);
  }

  /** The bytes a single `read` of `n` bytes at position `p` puts in a zeroed
      buffer: what the file holds there, zeros past its end. */
  function Window(data: seq<u8>, p: nat, n: nat): (r: seq<u8>)
    ensures |r| == n
    ensures forall k | 0 <= k < n :: r[k] == if p + k < |data| then data[p + k] else 0
    ensures p + n <= |data| ==> r == data[p..p + n]
  {
    seq(n, k requires 0 <= k < n => if p + k < |data| then data[p + k] else 0)
  }

  /** The bytes left for a reader at position `p`, at most `n` of them. */
  function Avail(data: seq<u8>, p: nat, n: nat): (r: seq<u8>)
    requires p <= |data|
    ensures |r| <= n && p + |r| <= |data|
    ensures |r| == n || p + |r| == |data|
  {
    if p + n <= |data| then data[p..p + n] else data[p..]
  }

  // ---------------------------------------------------------------- records

  function NodeBytes(n: Node): (r: seq<u8>)
    ensures |r| == 8
  {
    U16Le(n.ch) + U16Le(n.lokid) + U16Le(n.eqkid) + U16Le(n.hikid)
  }

  function ItemBytes(it: Item): (r: seq<u8>)
    ensures |r| == 12
  {
    U16Le(it.reference) + U16Le(it.flags) + U32Le(it.offset) + U32Le(it.length)
  }

  function ChunkBytes(c: Chunk): (r: seq<u8>)
    ensures |r| == 12
  {
    U16Le(AlgorithmTag(c.algorithm)) + U16Le(c.flags) + U32Le(c.length) + U32Le(c.compressedLength)
  }

  /** A node record, read by four `read_u16` calls; fewer than 8 bytes left
      is an end-of-file error. */
  function NodeDec(b: seq<u8>): Result<Node> {
    if |b| < 8 then Err(UnexpectedEof)
    else Ok(Node(GetU16(b[0..2]), GetU16(b[2..4]), GetU16(b[4..6]), GetU16(b[6..8])))
  }

  /** An item record; digest and file name are not stored and come back
      zeroed and empty. */
  function ItemDec(b: seq<u8>): Result<Item> {
    if |b| < 12 then Err(UnexpectedEof)
    else Ok(Item(ZeroDigest, "", GetU16(b[0..2]), GetU16(b[2..4]), GetU32(b[4..8]), GetU32(b[8..12])))
  }

  /** A chunk record: the algorithm tag is converted as soon as it is read,
      so a bad tag is reported before a short remainder. */
  function ChunkDec(b: seq<u8>): (r: Result<Chunk>)
    ensures |b| >= 2 && AlgorithmFromTag(GetU16(b[0..2])).None? ==> r == Err(InvalidAlgorithm(GetU16(b[0..2])))
    ensures r.Ok? ==> |b| >= 12 && AlgorithmFromTag(GetU16(b[0..2])) == Some(r.value.algorithm)
  {
    if |b| < 2 then Err(UnexpectedEof)
    else
      match AlgorithmFromTag(GetU16(b[0..2]))
      case None => Err(InvalidAlgorithm(GetU16(b[0..2])))
      case Some(a) =>
        if |b| < 12 then Err(UnexpectedEof)
        else Ok(Chunk(a, GetU16(b[2..4]), GetU32(b[4..8]), GetU32(b[8..12])))
  }

  /** What an item looks like after a write and a read. */
  function Stored(it: Item): Item {
    Item(ZeroDigest, "", it.reference, it.flags, it.offset % U32Modulus, it.length % U32Modulus)
  }

  function StoredChunk(c: Chunk): Chunk {
    c.(length := c.length % U32Modulus, compressedLength := c.compressedLength % U32Modulus)
  }

  lemma NodeRoundTrip(n: Node)
    ensures NodeDec(NodeBytes(n)) == Ok(n)
  {
    var b := NodeBytes(n);
    assert b[0..2] == U16Le(n.ch) && b[2..4] == U16Le(n.lokid);
    assert b[4..6] == U16Le(n.eqkid) && b[6..8] == U16Le(n.hikid);
  }

  lemma ItemRoundTrip(it: Item)
    ensures ItemDec(ItemBytes(it)) == Ok(Stored(it))
  {
    var b := ItemBytes(it);
    assert b[0..2] == U16Le(it.reference) && b[2..4] == U16Le(it.flags);
    assert b[4..8] == U32Le(it.offset) && b[8..12] == U32Le(it.length);
    U32RoundTrip(it.offset);
    U32RoundTrip(it.length);
  }

  lemma ChunkRoundTrip(c: Chunk)
    ensures ChunkDec(ChunkBytes(c)) == Ok(StoredChunk(c))
  {
    var b := ChunkBytes(c);
    assert b[0..2] == U16Le(AlgorithmTag(c.algorithm)) && b[2..4] == U16Le(c.flags);
    assert b[4..8] == U32Le(c.length) && b[8..12] == U32Le(c.compressedLength);
    U32RoundTrip(c.length);
    U32RoundTrip(c.compressedLength);
    AlgorithmTagRoundTrip(c.algorithm);
  }

  // ----------------------------------------------------------------- tables

  /** Records written one after another, in order. */
  function Records<T>(xs: seq<T>, enc: T -> seq<u8>): seq<u8> {
    if xs == [] then [] else Records(xs[..|xs| - 1], enc) + enc(xs[|xs| - 1])
  }

  lemma RecordsSnoc<T>(xs: seq<T>, x: T, enc: T -> seq<u8>)
    ensures Records(xs + [x], enc) == Records(xs, enc) + enc(x)
  {
    assert (xs + [x])[..|xs|] == xs;
  }

  lemma {:induction false} RecordsCons<T>(xs: seq<T>, enc: T -> seq<u8>)
    requires xs != []
    ensures Records(xs, enc) == enc(xs[0]) + Records(xs[1..], enc)
    decreases |xs|
  {
    if |xs| > 1 {
      var init := xs[..|xs| - 1];
      RecordsCons(init, enc);
      assert init[1..] == xs[1..][..|xs[1..]| - 1];
      assert init[0] == xs[0];
    } else {
      assert xs[..0] == [] && xs[1..] == [];
    }
  }

  lemma {:induction false} RecordsLength<T>(xs: seq<T>, enc: T -> seq<u8>, size: nat)
    requires forall x :: |enc(x)| == size
    ensures |Records(xs, enc)| == size * |xs|
  {
    if xs != [] {
      RecordsLength(xs[..|xs| - 1], enc, size);
      assert size * |xs| == size * (|xs| - 1) + size;
    }
  }

  /** A table: its record count as a u32, then the records. */
  function Table<T>(xs: seq<T>, enc: T -> seq<u8>): seq<u8> {
    U32Le(|xs|) + Records(xs, enc)
  }

  /** The `for _ in 0..count` loops of `read_header`: `n` records from
      position `p`, stopping at the first record that fails. */
  function ParseRecords<T>(data: seq<u8>, p: nat, n: nat, size: nat, dec: seq<u8> -> Result<T>, acc: seq<T>)
    : (r: Result<(seq<T>, nat)>)
    requires p <= |data|
    ensures r.Ok? ==> p <= r.value.1 <= |data|
    decreases n
  {
    if n == 0 then Ok((acc, p))
    else
      match dec(Avail(data, p, size))
      case Err(e) => Err(e)
      case Ok(x) => ParseRecords(data, p + |Avail(data, p, size)|, n - 1, size, dec, acc + [x])
  }

  /** Reading back a written table gives the records as stored. */
  lemma {:induction false} ParseRecordsRoundTrip<T>(data: seq<u8>, p: nat, q: nat, xs: seq<T>, ys: seq<T>,
      size: nat, enc: T -> seq<u8>, dec: seq<u8> -> Result<T>, norm: T -> T, acc: seq<T>)
    requires forall x :: |enc(x)| == size && dec(enc(x)) == Ok(norm(x))
    requires |ys| == |xs| && forall i | 0 <= i < |xs| :: ys[i] == norm(xs[i])
    requires q == p + |Records(xs, enc)| && q <= |data| && data[p..q] == Records(xs, enc)
    ensures ParseRecords(data, p, |xs|, size, dec, acc) == Ok((acc + ys, q))
    decreases |xs|
  {
    if xs == [] {
      assert acc + ys == acc;
    } else {
      var m := p + size;
      RecordsHead(data, p, q, xs, size, enc);
      assert dec(Avail(data, p, size)) == Ok(ys[0]);
      TailsMap(xs, ys, norm);
      ParseRecordsRoundTrip(data, m, q, xs[1..], ys[1..], size, enc, dec, norm, acc + [ys[0]]);
      ConsSplit(acc, ys);
    }
  }

  lemma TailsMap<T>(xs: seq<T>, ys: seq<T>, norm: T -> T)
    requires xs != [] && |ys| == |xs| && forall i | 0 <= i < |xs| :: ys[i] == norm(xs[i])
    ensures |ys[1..]| == |xs[1..]| && forall i | 0 <= i < |xs[1..]| :: ys[1..][i] == norm(xs[1..][i])
  {
    forall i | 0 <= i < |xs[1..]| ensures ys[1..][i] == norm(xs[1..][i]) {
      assert ys[1..][i] == ys[i + 1] && xs[1..][i] == xs[i + 1];
    }
  }

  lemma ConsSplit<T>(acc: seq<T>, ys: seq<T>)
    requires ys != []
    ensures acc + [ys[0]] + ys[1..] == acc + ys
  {
    assert ys == [ys[0]] + ys[1..];
  }

  /** The first of several records written from `p` on, and the rest. */
  lemma RecordsHead<T>(data: seq<u8>, p: nat, q: nat, xs: seq<T>, size: nat, enc: T -> seq<u8>)
    requires xs != [] && forall x :: |enc(x)| == size
    requires q == p + |Records(xs, enc)| && q <= |data| && data[p..q] == Records(xs, enc)
    ensures p + size <= q && Avail(data, p, size) == enc(xs[0])
    ensures q == p + size + |Records(xs[1..], enc)| && data[p + size..q] == Records(xs[1..], enc)
  {
    var whole := Records(xs, enc);
    RecordsCons(xs, enc);
    assert data[p..p + size] == whole[..size];
    assert data[p + size..q] == whole[size..];
  }

  /** Every parsed record came from a record decoder that succeeded. */
  lemma {:induction false} ParseRecordsDecoded<T>(data: seq<u8>, p: nat, n: nat, size: nat,
      dec: seq<u8> -> Result<T>, acc: seq<T>, good: T -> bool)
    requires p <= |data|
    requires forall b: seq<u8> :: dec(b).Ok? ==> good(dec(b).value)
    requires forall i | 0 <= i < |acc| :: good(acc[i])
    ensures ParseRecords(data, p, n, size, dec, acc).Ok? ==>
              var xs := ParseRecords(data, p, n, size, dec, acc).value.0;
              |xs| == |acc| + n && forall i | 0 <= i < |xs| :: good(xs[i])
    decreases n
  {
    if n > 0 {
      match dec(Avail(data, p, size))
      case Err(_) =>
      case Ok(x) =>
        ParseRecordsDecoded(data, p + |Avail(data, p, size)|, n - 1, size, dec, acc + [x], good);
    }
  }

  /** Decoding a full record and encoding it again gives the same bytes. */
  lemma {:induction false} ParseRecordsReencode<T>(data: seq<u8>, p: nat, n: nat, size: nat,
      enc: T -> seq<u8>, dec: seq<u8> -> Result<T>, acc: seq<T>, xs: seq<T>, q: nat)
    requires p <= |data| && ParseRecords(data, p, n, size, dec, acc) == Ok((xs, q))
    requires forall b: seq<u8> :: dec(b).Ok? ==> |b| >= size
    requires forall b: seq<u8> | |b| == size :: dec(b).Ok? ==> enc(dec(b).value) == b
    ensures p <= q <= |data| && |xs| == |acc| + n && Records(xs, enc) == Records(acc, enc) + data[p..q]
    decreases n
  {
    if n > 0 {
      var x := ParseHead(data, p, n, size, enc, dec, acc);
      ParseRecordsReencode(data, p + size, n - 1, size, enc, dec, acc + [x], xs, q);
      ReencodeStep(data, p, size, q, enc, acc, x, xs);
    } else {
      assert data[p..p] == [];
      assert Records(acc, enc) + [] == Records(acc, enc);
    }
  }

  /** The first record of a successful parse: a full record, which encodes
      back to its own bytes. */
  lemma ParseHead<T>(data: seq<u8>, p: nat, n: nat, size: nat,
      enc: T -> seq<u8>, dec: seq<u8> -> Result<T>, acc: seq<T>) returns (x: T)
    requires p <= |data| && n > 0 && ParseRecords(data, p, n, size, dec, acc).Ok?
    requires forall b: seq<u8> :: dec(b).Ok? ==> |b| >= size
    requires forall b: seq<u8> | |b| == size :: dec(b).Ok? ==> enc(dec(b).value) == b
    ensures p + size <= |data| && enc(x) == data[p..p + size]
    ensures ParseRecords(data, p, n, size, dec, acc) == ParseRecords(data, p + size, n - 1, size, dec, acc + [x])
  {
    var b := Avail(data, p, size);
    assert dec(b).Ok?;
    x := dec(b).value;
  }

  lemma ReencodeStep<T>(data: seq<u8>, p: nat, size: nat, q: nat, enc: T -> seq<u8>, acc: seq<T>, x: T, xs: seq<T>)
    requires p + size <= q <= |data| && enc(x) == data[p..p + size]
    requires Records(xs, enc) == Records(acc + [x], enc) + data[p + size..q]
    ensures Records(xs, enc) == Records(acc, enc) + data[p..q]
  {
    RecordsSnoc(acc, x, enc);
    SliceSplit(data, p, p + size, q);
    Assoc(Records(acc, enc), enc(x), data[p + size..q]);
  }

  lemma SliceSplit(data: seq<u8>, p: nat, m: nat, q: nat)
    requires p <= m <= q <= |data|
    ensures data[p..q] == data[p..m] + data[m..q]
  {
  }

  lemma Assoc(a: seq<u8>, b: seq<u8>, c: seq<u8>)
    ensures a + b + c == a + (b + c)
  {
  }

  // ----------------------------------------------------------------- header

  /** The fixed-size start of the header: magic, version, flags, chunk size,
      directory and file counts; 20 bytes. */
  function Preamble(flags: u16, chunkSize: nat, dirCount: nat, fileCount: nat): (r: seq<u8>)
    ensures |r| == 20
  {
    FileMagic + U16Le(FileVersion) + U16Le(flags) + U32Le(chunkSize) + U32Le(dirCount) + U32Le(fileCount)
  }

  /** Everything `write_header_data` writes, with the given chunk table. */
  function HeaderBytes(flags: u16, chunkSize: nat, dirCount: nat, fileCount: nat,
                       nodes: seq<Node>, items: seq<Item>, chunks: seq<Chunk>): (r: seq<u8>)
    ensures |r| == 20 + |Table(nodes, NodeBytes)| + |Table(items, ItemBytes)| + |Table(chunks, ChunkBytes)|
  {
    Preamble(flags, chunkSize, dirCount, fileCount)
    + Table(nodes, NodeBytes) + Table(items, ItemBytes) + Table(chunks, ChunkBytes)
  }

  function U16At(data: seq<u8>, p: nat): (r: Result<u16>)
    ensures r.Ok? <==> p + 2 <= |data|
    ensures r.Err? ==> r.error == UnexpectedEof
  {
    if p + 2 <= |data| then Ok(GetU16(data[p..p + 2])) else Err(UnexpectedEof)
  }

  function U32At(data: seq<u8>, p: nat): (r: Result<nat>)
    ensures r.Ok? <==> p + 4 <= |data|
    ensures r.Err? ==> r.error == UnexpectedEof
    ensures r.Ok? ==> r.value < U32Modulus
  {
    if p + 4 <= |data| then Ok(GetU32(data[p..p + 4])) else Err(UnexpectedEof)
  }

  /** A u32 count and that many records, from position `p`. */
  function ParseTable<T>(data: seq<u8>, p: nat, size: nat, dec: seq<u8> -> Result<T>): (r: Result<(seq<T>, nat)>)
    ensures r.Ok? ==> r.value.1 <= |data|
  {
    var n :- U32At(data, p);
    ParseRecords(data, p + 4, n, size, dec, [])
  }

  /** `read_header` on the archive's bytes: the header and the position of
      the first byte after it.  The magic comes from one `read`, so a file
      shorter than four bytes compares zeros. */
  function ParseHeader(data: seq<u8>): (r: Result<(Header, nat)>)
    ensures r.Ok? ==> r.value.1 <= |data|
    ensures Window(data, 0, 4) != FileMagic ==> r == Err(InvalidMagic)
    ensures r.Ok? ==> r.value.0.magic == FileMagic && r.value.0.version == FileVersion && 20 <= r.value.1
  {
    if Window(data, 0, 4) != FileMagic then Err(InvalidMagic)
    else
      var version :- U16At(data, 4);
      if version != FileVersion then Err(InvalidVersion(version))
      else
        var flags :- U16At(data, 6);
        var chunkSize :- U32At(data, 8);
        var dirCount :- U32At(data, 12);
        var fileCount :- U32At(data, 16);
        var nodes :- ParseTable(data, 20, 8, NodeDec);
        var items :- ParseTable(data, nodes.1, 12, ItemDec);
        var chunks :- ParseTable(data, items.1, 12, ChunkDec);
        Ok((Header(Window(data, 0, 4), version, flags, chunkSize, dirCount, fileCount, nodes.0, items.0, chunks.0),
            chunks.1))
  }

  function StoredItems(items: seq<Item>): (r: seq<Item>)
    ensures |r| == |items| && forall i | 0 <= i < |items| :: r[i] == Stored(items[i])
  {
    seq(|items|, i requires 0 <= i < |items| => Stored(items[i]))
  }

  function StoredChunks(chunks: seq<Chunk>): (r: seq<Chunk>)
    ensures |r| == |chunks| && forall i | 0 <= i < |chunks| :: r[i] == StoredChunk(chunks[i])
  {
    seq(|chunks|, i requires 0 <= i < |chunks| => StoredChunk(chunks[i]))
  }

  lemma TableRoundTrip<T>(data: seq<u8>, p: nat, q: nat, xs: seq<T>, ys: seq<T>, size: nat,
      enc: T -> seq<u8>, dec: seq<u8> -> Result<T>, norm: T -> T)
    requires forall x :: |enc(x)| == size && dec(enc(x)) == Ok(norm(x))
    requires |ys| == |xs| && forall i | 0 <= i < |xs| :: ys[i] == norm(xs[i])
    requires |xs| < U32Modulus
    requires q == p + |Table(xs, enc)| && q <= |data| && data[p..q] == Table(xs, enc)
    ensures ParseTable(data, p, size, dec) == Ok((ys, q))
  {
    SplitSlice(data, p, q, U32Le(|xs|), Records(xs, enc));
    assert U32At(data, p) == Ok(|xs|) by {
      U32RoundTrip(|xs|);
    }
    ParseRecordsRoundTrip(data, p + 4, q, xs, ys, size, enc, dec, norm, []);
    assert [] + ys == ys;
  }

  /** The two parts of a slice that is a concatenation. */
  lemma SplitSlice(data: seq<u8>, p: nat, q: nat, a: seq<u8>, b: seq<u8>)
    requires q == p + |a| + |b| <= |data| && data[p..q] == a + b
    ensures data[p..p + |a|] == a && data[p + |a|..q] == b
  {
    assert data[p..p + |a|] == data[p..q][..|a|];
    assert data[p + |a|..q] == data[p..q][|a|..];
  }

  lemma NodeCodec()
    ensures forall n: Node :: |NodeBytes(n)| == 8 && NodeDec(NodeBytes(n)) == Ok(n)
  {
    forall n: Node
      ensures NodeDec(NodeBytes(n)) == Ok(n)
    {
      NodeRoundTrip(n);
    }
  }

  lemma ItemCodec()
    ensures forall it: Item :: |ItemBytes(it)| == 12 && ItemDec(ItemBytes(it)) == Ok(Stored(it))
  {
    forall it: Item
      ensures ItemDec(ItemBytes(it)) == Ok(Stored(it))
    {
      ItemRoundTrip(it);
    }
  }

  lemma ChunkCodec()
    ensures forall c: Chunk :: |ChunkBytes(c)| == 12 && ChunkDec(ChunkBytes(c)) == Ok(StoredChunk(c))
  {
    forall c: Chunk
      ensures ChunkDec(ChunkBytes(c)) == Ok(StoredChunk(c))
    {
      ChunkRoundTrip(c);
    }
  }

  lemma PreambleRoundTrip(data: seq<u8>, flags: u16, chunkSize: nat, dirCount: nat, fileCount: nat)
    requires |data| >= 20 && data[..20] == Preamble(flags, chunkSize, dirCount, fileCount)
    ensures Window(data, 0, 4) == FileMagic
    ensures U16At(data, 4) == Ok(FileVersion) && U16At(data, 6) == Ok(flags)
    ensures U32At(data, 8) == Ok(chunkSize % U32Modulus)
    ensures U32At(data, 12) == Ok(dirCount % U32Modulus)
    ensures U32At(data, 16) == Ok(fileCount % U32Modulus)
  {
    var pre := Preamble(flags, chunkSize, dirCount, fileCount);
    assert data[0..4] == pre[0..4] == FileMagic;
    assert data[4..6] == pre[4..6] == U16Le(FileVersion);
    assert data[6..8] == pre[6..8] == U16Le(flags);
    assert data[8..12] == pre[8..12] == U32Le(chunkSize);
    assert data[12..16] == pre[12..16] == U32Le(dirCount);
    assert data[16..20] == pre[16..20] == U32Le(fileCount);
    U16RoundTrip(FileVersion);
    U16RoundTrip(flags);
    U32RoundTrip(chunkSize);
    U32RoundTrip(dirCount);
    U32RoundTrip(fileCount);
  }

  /** The header written for a table of nodes, items and chunks reads back
      as the same header: magic and version constant, counts modulo 2^32,
      items without digest and name. */
  lemma HeaderRoundTrip(flags: u16, chunkSize: nat, dirCount: nat, fileCount: nat,
                        nodes: seq<Node>, items: seq<Item>, chunks: seq<Chunk>, rest: seq<u8>)
    requires |nodes| < U32Modulus && |items| < U32Modulus && |chunks| < U32Modulus
    ensures var bytes := HeaderBytes(flags, chunkSize, dirCount, fileCount, nodes, items, chunks);
            ParseHeader(bytes + rest)
            == Ok((Header(FileMagic, FileVersion, flags, chunkSize % U32Modulus, dirCount % U32Modulus,
                          fileCount % U32Modulus, nodes, StoredItems(items), StoredChunks(chunks)),
                   |bytes|))
  {
    var data := HeaderBytes(flags, chunkSize, dirCount, fileCount, nodes, items, chunks) + rest;
    var pre := Preamble(flags, chunkSize, dirCount, fileCount);
    var tn, ti, tc := Table(nodes, NodeBytes), Table(items, ItemBytes), Table(chunks, ChunkBytes);
    var p1 := 20 + |tn|;
    var p2 := p1 + |ti|;
    var p3 := p2 + |tc|;
    Quarters(data, pre, tn, ti, tc, rest);
    HeaderPartsParse(data, flags, chunkSize, dirCount, fileCount, nodes, items, chunks, p1, p2, p3);
  }

  /** Each part of the header parses where it was written. */
  lemma HeaderPartsParse(data: seq<u8>, flags: u16, chunkSize: nat, dirCount: nat, fileCount: nat,
                         nodes: seq<Node>, items: seq<Item>, chunks: seq<Chunk>, p1: nat, p2: nat, p3: nat)
    requires |nodes| < U32Modulus && |items| < U32Modulus && |chunks| < U32Modulus
    requires p1 == 20 + |Table(nodes, NodeBytes)| && p2 == p1 + |Table(items, ItemBytes)|
    requires p3 == p2 + |Table(chunks, ChunkBytes)| && p3 <= |data|
    requires data[..20] == Preamble(flags, chunkSize, dirCount, fileCount)
    requires data[20..p1] == Table(nodes, NodeBytes) && data[p1..p2] == Table(items, ItemBytes)
    requires data[p2..p3] == Table(chunks, ChunkBytes)
    ensures ParseHeader(data)
            == Ok((Header(FileMagic, FileVersion, flags, chunkSize % U32Modulus, dirCount % U32Modulus,
                          fileCount % U32Modulus, nodes, StoredItems(items), StoredChunks(chunks)), p3))
  {
    PreambleRoundTrip(data, flags, chunkSize, dirCount, fileCount);
    NodeTableRoundTrip(data, 20, p1, nodes);
    ItemTableRoundTrip(data, p1, p2, items);
    ChunkTableRoundTrip(data, p2, p3, chunks);
    ParseHeaderOk(data, flags, chunkSize % U32Modulus, dirCount % U32Modulus, fileCount % U32Modulus,
                  nodes, StoredItems(items), StoredChunks(chunks), p1, p2, p3);
  }

  /** Four parts written one after another, then the rest. */
  lemma Quarters(data: seq<u8>, a: seq<u8>, b: seq<u8>, c: seq<u8>, d: seq<u8>, rest: seq<u8>)
    requires data == a + b + c + d + rest
    ensures |a| + |b| + |c| + |d| <= |data|
    ensures data[..|a|] == a && data[|a|..|a| + |b|] == b
    ensures data[|a| + |b|..|a| + |b| + |c|] == c && data[|a| + |b| + |c|..|a| + |b| + |c| + |d|] == d
  {
  }

  lemma NodeTableRoundTrip(data: seq<u8>, p: nat, q: nat, nodes: seq<Node>)
    requires |nodes| < U32Modulus
    requires q == p + |Table(nodes, NodeBytes)| && q <= |data| && data[p..q] == Table(nodes, NodeBytes)
    ensures ParseTable(data, p, 8, NodeDec) == Ok((nodes, q))
  {
    NodeCodec();
    TableRoundTrip(data, p, q, nodes, nodes, 8, NodeBytes, NodeDec, (n: Node) => n);
  }

  lemma ItemTableRoundTrip(data: seq<u8>, p: nat, q: nat, items: seq<Item>)
    requires |items| < U32Modulus
    requires q == p + |Table(items, ItemBytes)| && q <= |data| && data[p..q] == Table(items, ItemBytes)
    ensures ParseTable(data, p, 12, ItemDec) == Ok((StoredItems(items), q))
  {
    ItemCodec();
    TableRoundTrip(data, p, q, items, StoredItems(items), 12, ItemBytes, ItemDec, Stored);
  }

  lemma ChunkTableRoundTrip(data: seq<u8>, p: nat, q: nat, chunks: seq<Chunk>)
    requires |chunks| < U32Modulus
    requires q == p + |Table(chunks, ChunkBytes)| && q <= |data| && data[p..q] == Table(chunks, ChunkBytes)
    ensures ParseTable(data, p, 12, ChunkDec) == Ok((StoredChunks(chunks), q))
  {
    ChunkCodec();
    TableRoundTrip(data, p, q, chunks, StoredChunks(chunks), 12, ChunkBytes, ChunkDec, StoredChunk);
  }

  /** `ParseHeader` when every field reads. */
  lemma ParseHeaderOk(data: seq<u8>, flags: u16, chunkSize: nat, dirCount: nat, fileCount: nat,
                      nodes: seq<Node>, items: seq<Item>, chunks: seq<Chunk>, p1: nat, p2: nat, p3: nat)
    requires Window(data, 0, 4) == FileMagic
    requires U16At(data, 4) == Ok(FileVersion) && U16At(data, 6) == Ok(flags)
    requires U32At(data, 8) == Ok(chunkSize) && U32At(data, 12) == Ok(dirCount) && U32At(data, 16) == Ok(fileCount)
    requires ParseTable(data, 20, 8, NodeDec) == Ok((nodes, p1))
    requires ParseTable(data, p1, 12, ItemDec) == Ok((items, p2))
    requires ParseTable(data, p2, 12, ChunkDec) == Ok((chunks, p3))
    ensures ParseHeader(data)
         == Ok((Header(FileMagic, FileVersion, flags, chunkSize, dirCount, fileCount, nodes, items, chunks), p3))
  {
  }
}
