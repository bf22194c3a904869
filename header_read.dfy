/** `read_header` of kwui-cli/src/packager.rs: the header read field by
    field from an open archive, proved to give what `Codec.ParseHeader`
    says of the archive's bytes. */
module HeaderRead {
  import opened Wrappers
  import opened Format
  import opened Codec
  import opened Files

  /** The `for _ in 0..count` loop of one table: `n` records, each read and
      decoded in turn; the first record that fails ends the read. */
  method ReadRecords<T>(f: InFile, n: nat, size: nat, dec: seq<u8> -> Result<T>) returns (r: Result<seq<T>>)
    requires f.pos <= |f.data|
    modifies f
    ensures f.pos <= |f.data|
    ensures var expected := ParseRecords(f.data, old(f.pos), n, size, dec, []);
      && (r.Ok? <==> expected.Ok?)
      && (r.Ok? ==> expected.value == (r.value, f.pos))
      && (r.Err? ==> expected.error == r.error)
  {
    var acc: seq<T> := [];
    var i := 0;
    while i < n
      invariant i <= n && f.pos <= |f.data|
      invariant ParseRecords(f.data, old(f.pos), n, size, dec, []) == ParseRecords(f.data, f.pos, n - i, size, dec, acc)
    {
      var b := f.Read(size);
      var x := dec(b);
      if x.Err? {
        return Err(x.error);
      }
      acc := acc + [x.value];
      i := i + 1;
    }
    return Ok(acc);
  }

  /** One table: the u32 count, then the records. */
  method ReadTable<T>(f: InFile, size: nat, dec: seq<u8> -> Result<T>) returns (r: Result<seq<T>>)
    requires f.pos <= |f.data|
    modifies f
    ensures f.pos <= |f.data|
    ensures var expected := ParseTable(f.data, old(f.pos), size, dec);
      && (r.Ok? <==> expected.Ok?)
      && (r.Ok? ==> expected.value == (r.value, f.pos))
      && (r.Err? ==> expected.error == r.error)
  {
    var n := f.ReadU32();
    if n.Err? {
      return Err(n.error);
    }
    r := ReadRecords(f, n.value, size, dec);
  }

  /** `read_header` on an archive opened for reading: the magic from one
      `read` into a zeroed buffer, the version, flags and counts, and the
      node, item and chunk tables; the first failure is the result. */
  method ReadHeader(f: InFile) returns (r: Result<Header>)
    requires f.pos == 0
    modifies f
    ensures f.pos <= |f.data|
    ensures var expected := ParseHeader(f.data);
      && (r.Ok? <==> expected.Ok?)
      && (r.Ok? ==> expected.value == (r.value, f.pos))
      && (r.Err? ==> expected.error == r.error)
  {
    var got := f.Read(4);
    var magic := got + seq(4 - |got|, _ => 0);
    assert magic == Window(f.data, 0, 4);
    if magic != FileMagic {
      return Err(InvalidMagic);
    }
    var version := f.ReadU16();
    if version.Err? {
      return Err(version.error);
    }
    if version.value != FileVersion {
      return Err(InvalidVersion(version.value));
    }
    var flags := f.ReadU16();
    if flags.Err? {
      return Err(flags.error);
    }
    var chunkSize := f.ReadU32();
    if chunkSize.Err? {
      return Err(chunkSize.error);
    }
    var dirCount := f.ReadU32();
    if dirCount.Err? {
      return Err(dirCount.error);
    }
    var fileCount := f.ReadU32();
    if fileCount.Err? {
      return Err(fileCount.error);
    }
    var nodes := ReadTable(f, 8, NodeDec);
    if nodes.Err? {
      return Err(nodes.error);
    }
    var items := ReadTable(f, 12, ItemDec);
    if items.Err? {
      return Err(items.error);
    }
    var chunks := ReadTable(f, 12, ChunkDec);
    if chunks.Err? {
      return Err(chunks.error);
    }
    return Ok(Header(magic, version.value, flags.value, chunkSize.value, dirCount.value, fileCount.value,
                     nodes.value, items.value, chunks.value));
  }
}
