/** The archive's constants and records (kwui-cli/src/file_format.rs). */
module Format {
  import opened Wrappers

  type u8 = x: int | 0 <= x < 0x100
  type u16 = x: int | 0 <= x < 0x1_0000
  type u32 = x: int | 0 <= x < 0x1_0000_0000

  /** The four bytes every archive starts with: 'K', 'A', 'r', ' '. */
  const FileMagic: seq<u8> := ['K' as int, 'A' as int, 'r' as int, ' ' as int]
  /** The only format version that is written and accepted. */
  const FileVersion: u16 := 1
  /** FileFlag::Solid: header flag of an archive whose chunks span several items. */
  const SolidFlag: u16 := 2
  /** ItemFlag::Dir: item flag of the directory sentinel. */
  const DirFlag: u16 := 1

  /** `flags & flag != 0`, the bit test the packer uses on flag words. */
  predicate HasFlag(flags: u16, flag: u16) {
    (flags as bv16) & (flag as bv16) != 0
  }

  /** AlgorithmType, stored as a u16 tag: Store = 0, Lzf = 1. */
  datatype Algorithm = Store | Lzf

  function AlgorithmTag(a: Algorithm): (tag: u16)
    ensures tag < 2
  {
    match a
    case Store => 0
    case Lzf => 1
  }

  /** The `TryFrom<u16>` conversion: every tag other than 0 and 1 is refused. */
  function AlgorithmFromTag(tag: u16): (r: Option<Algorithm>)
    ensures r.Some? <==> tag < 2
    ensures r.Some? ==> AlgorithmTag(r.value) == tag
  {
    if tag == 0 then Some(Store) else if tag == 1 then Some(Lzf) else None
  }

  lemma AlgorithmTagRoundTrip(a: Algorithm)
    ensures AlgorithmFromTag(AlgorithmTag(a)) == Some(a)
  {
  }

  /** A trie node: one UTF-16 unit and three 16-bit links; 8 bytes on disk. */
  datatype Node = Node(ch: u16, lokid: u16, eqkid: u16, hikid: u16)

  /** A stored byte range and how it is compressed. */
  datatype Chunk = Chunk(algorithm: Algorithm, flags: u16, length: nat, compressedLength: nat)

  type Digest = d: seq<u8> | |d| == 20 witness ZeroDigest
  const ZeroDigest: seq<u8> := [0, 0, 0, 0, 0, 0, 0, 0, 0, 0, 0, 0, 0, 0, 0, 0, 0, 0, 0, 0]

  /** One unique content blob, or the directory sentinel.  `digest` and
      `fname` live only while packing; they are not written to the archive. */
  datatype Item = Item(digest: Digest, fname: string, reference: u16, flags: u16, offset: nat, length: nat)

  datatype Header = Header(
    magic: seq<u8>,
    version: u16,
    flags: u16,
    chunkSize: nat,
    dirCount: nat,
    fileCount: nat,
    nodes: seq<Node>,
    items: seq<Item>,
    chunks: seq<Chunk>)

  lemma MagicBytes()
    ensures FileMagic == [0x4B, 0x41, 0x72, 0x20]
  {
  }
}
