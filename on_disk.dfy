/** The on-disk layout of the extent tree: every header and entry is 12
    bytes of little-endian fields, and the root kept in the inode is a header
    followed by four entry slots that hold extents at depth 0 and index
    entries at depth 1 (a C union). The C code reads raw structs on a
    little-endian host; the decoders below spell that reading out. */
module OnDisk {
  import opened Ext4Types

  /** A little-endian 16-bit field. */
  function LE16(b: seq<u8>): u16
    requires |b| == 2
  {
    b[0] as int + 0x100 * b[1] as int
  }

  /** A little-endian 32-bit field. */
  function LE32(b: seq<u8>): u32
    requires |b| == 4
  {
    LE16(b[..2]) as int + 0x1_0000 * LE16(b[2..]) as int
  }

  function Bytes16(v: u16): (r: seq<u8>)
    ensures |r| == 2
  {
    [v % 0x100, v / 0x100]
  }

  function Bytes32(v: u32): (r: seq<u8>)
    ensures |r| == 4
  {
    Bytes16(v % 0x1_0000) + Bytes16(v / 0x1_0000)
  }

  lemma LE16RoundTrip(v: u16)
    ensures LE16(Bytes16(v)) == v
  {
  }

  lemma Bytes16RoundTrip(b: seq<u8>)
    requires |b| == 2
    ensures Bytes16(LE16(b)) == b
  {
  }

  lemma LE32RoundTrip(v: u32)
    ensures LE32(Bytes32(v)) == v
  {
    var b := Bytes32(v);
    assert b[..2] == Bytes16(v % 0x1_0000);
    assert b[2..] == Bytes16(v / 0x1_0000);
    LE16RoundTrip(v % 0x1_0000);
    LE16RoundTrip(v / 0x1_0000);
  }

  lemma Bytes32RoundTrip(b: seq<u8>)
    requires |b| == 4
    ensures Bytes32(LE32(b)) == b
  {
    var lo, hi := LE16(b[..2]), LE16(b[2..]);
    assert LE32(b) % 0x1_0000 == lo && LE32(b) / 0x1_0000 == hi;
    Bytes16RoundTrip(b[..2]);
    Bytes16RoundTrip(b[2..]);
    assert b == b[..2] + b[2..];
  }

  /** struct ext4_extent_header: magic, entries, max, depth (16 bits each),
      then generation (32 bits). */
  function DecodeHeader(b: seq<u8>): Header
    requires |b| == HeaderSize
  {
    Header(LE16(b[0..2]), LE16(b[2..4]), LE16(b[4..6]), LE16(b[6..8]), LE32(b[8..12]))
  }

  function EncodeHeader(h: Header): (b: seq<u8>)
    ensures |b| == HeaderSize
  {
    Bytes16(h.magic) + Bytes16(h.entries) + Bytes16(h.max) + Bytes16(h.depth) + Bytes32(h.generation)
  }

  /** struct ext4_extent: ee_block (32 bits), ee_len (16), ee_start_hi (16),
      ee_start_lo (32). */
  function DecodeExtent(b: seq<u8>): Extent
    requires |b| == EntrySize
  {
    Extent(LE32(b[0..4]), LE16(b[4..6]), LE16(b[6..8]), LE32(b[8..12]))
  }

  function EncodeExtent(e: Extent): (b: seq<u8>)
    ensures |b| == EntrySize
  {
    Bytes32(e.block) + Bytes16(e.len) + Bytes16(e.startHi) + Bytes32(e.startLo)
  }

  /** struct ext4_extent_idx: ei_block (32 bits), ei_leaf_lo (32),
      ei_leaf_hi (16), ei_unused (16). */
  function DecodeIndex(b: seq<u8>): Index
    requires |b| == EntrySize
  {
    Index(LE32(b[0..4]), LE32(b[4..8]), LE16(b[8..10]), LE16(b[10..12]))
  }

  function EncodeIndex(x: Index): (b: seq<u8>)
    ensures |b| == EntrySize
  {
    Bytes32(x.block) + Bytes32(x.leafLo) + Bytes16(x.leafHi) + Bytes16(x.unused)
  }

  lemma HeaderRoundTrip(h: Header)
    ensures DecodeHeader(EncodeHeader(h)) == h
  {
    var b := EncodeHeader(h);
    assert b[0..2] == Bytes16(h.magic);
    assert b[2..4] == Bytes16(h.entries);
    assert b[4..6] == Bytes16(h.max);
    assert b[6..8] == Bytes16(h.depth);
    assert b[8..12] == Bytes32(h.generation);
    LE16RoundTrip(h.magic);
    LE16RoundTrip(h.entries);
    LE16RoundTrip(h.max);
    LE16RoundTrip(h.depth);
    LE32RoundTrip(h.generation);
  }

  lemma HeaderBytesRoundTrip(b: seq<u8>)
    requires |b| == HeaderSize
    ensures EncodeHeader(DecodeHeader(b)) == b
  {
    Bytes16RoundTrip(b[0..2]);
    Bytes16RoundTrip(b[2..4]);
    Bytes16RoundTrip(b[4..6]);
    Bytes16RoundTrip(b[6..8]);
    Bytes32RoundTrip(b[8..12]);
    assert b == b[0..2] + b[2..4] + b[4..6] + b[6..8] + b[8..12];
  }

  /** Cutting four concatenated pieces at their boundaries gives the pieces
      back. */
  lemma Pieces(p: seq<u8>, q: seq<u8>, r: seq<u8>, t: seq<u8>)
    ensures var b, i, j, k := p + q + r + t, |p|, |p| + |q|, |p| + |q| + |r|;
      b[..i] == p && b[i..j] == q && b[j..k] == r && b[k..] == t
  {
  }

  lemma ExtentRoundTrip(e: Extent)
    ensures DecodeExtent(EncodeExtent(e)) == e
  {
    Pieces(Bytes32(e.block), Bytes16(e.len), Bytes16(e.startHi), Bytes32(e.startLo));
    LE32RoundTrip(e.block);
    LE16RoundTrip(e.len);
    LE16RoundTrip(e.startHi);
    LE32RoundTrip(e.startLo);
  }

  lemma ExtentBytesRoundTrip(b: seq<u8>)
    requires |b| == EntrySize
    ensures EncodeExtent(DecodeExtent(b)) == b
  {
    Bytes32RoundTrip(b[0..4]);
    Bytes16RoundTrip(b[4..6]);
    Bytes16RoundTrip(b[6..8]);
    Bytes32RoundTrip(b[8..12]);
    assert b == b[0..4] + b[4..6] + b[6..8] + b[8..12];
  }

  lemma IndexRoundTrip(x: Index)
    ensures DecodeIndex(EncodeIndex(x)) == x
  {
    Pieces(Bytes32(x.block), Bytes32(x.leafLo), Bytes16(x.leafHi), Bytes16(x.unused));
    LE32RoundTrip(x.block);
    LE32RoundTrip(x.leafLo);
    LE16RoundTrip(x.leafHi);
    LE16RoundTrip(x.unused);
  }

  lemma IndexBytesRoundTrip(b: seq<u8>)
    requires |b| == EntrySize
    ensures EncodeIndex(DecodeIndex(b)) == b
  {
    Bytes32RoundTrip(b[0..4]);
    Bytes32RoundTrip(b[4..8]);
    Bytes16RoundTrip(b[8..10]);
    Bytes16RoundTrip(b[10..12]);
    assert b == b[0..4] + b[4..8] + b[8..10] + b[10..12];
  }

  /** `count` consecutive 12-byte extents, as read into one buffer. */
  function DecodeExtents(buf: seq<u8>, count: nat): (ee: seq<Extent>)
    requires |buf| == count * EntrySize
    ensures |ee| == count
  {
    if count == 0 then [] else [DecodeExtent(buf[..12])] + DecodeExtents(buf[12..], count - 1)
  }

  /** Extent `j` of the buffer is decoded from bytes 12 * j up to
      12 * j + 12. */
  lemma {:induction false} DecodeExtentsAt(buf: seq<u8>, count: nat, j: nat)
    requires |buf| == count * EntrySize && j < count
    ensures DecodeExtents(buf, count)[j] == DecodeExtent(buf[12 * j .. 12 * j + 12])
  {
    if j > 0 {
      DecodeExtentsAt(buf[12..], count - 1, j - 1);
      assert buf[12..][12 * (j - 1) .. 12 * (j - 1) + 12] == buf[12 * j .. 12 * j + 12];
    }
  }

  /** The header at the front of the inode's 60-byte extent root. */
  function RootHeader(root: seq<u8>): Header
    requires |root| == RootSize
  {
    DecodeHeader(root[..HeaderSize])
  }

  /** Entry slot `j` of the root: the 12 bytes after the header and the `j`
      slots before it. */
  function RootSlot(root: seq<u8>, j: nat): (b: seq<u8>)
    requires |root| == RootSize && j < RootCapacity
    ensures |b| == EntrySize
  {
    root[12 + 12 * j .. 24 + 12 * j]
  }

  /** The four slots read as extents (`inode_ext->ee`). */
  function RootExtents(root: seq<u8>): (ee: seq<Extent>)
    requires |root| == RootSize
    ensures |ee| == RootCapacity
  {
    seq(RootCapacity, j requires 0 <= j < RootCapacity => DecodeExtent(RootSlot(root, j)))
  }

  /** The same four slots read as index entries (`inode_ext->ei`). */
  function RootIndexes(root: seq<u8>): (ei: seq<Index>)
    requires |root| == RootSize
    ensures |ei| == RootCapacity
  {
    seq(RootCapacity, j requires 0 <= j < RootCapacity => DecodeIndex(RootSlot(root, j)))
  }

  /** The root is one header and four slots, each slot holding an extent and
      an index entry at once (the C union): re-encoding either reading of a
      slot gives back its 12 bytes, and the header with the four slots gives
      back the whole 60 bytes. */
  lemma RootLayout(root: seq<u8>)
    requires |root| == RootSize
    ensures RootSize == 60
    ensures EncodeHeader(RootHeader(root)) == root[..12]
    ensures forall j :: 0 <= j < RootCapacity ==>
      EncodeExtent(RootExtents(root)[j]) == root[12 + 12 * j .. 24 + 12 * j] &&
      EncodeIndex(RootIndexes(root)[j]) == root[12 + 12 * j .. 24 + 12 * j]
    ensures root == EncodeHeader(RootHeader(root)) + EncodeExtent(RootExtents(root)[0]) + EncodeExtent(RootExtents(root)[1])
                    + EncodeExtent(RootExtents(root)[2]) + EncodeExtent(RootExtents(root)[3])
  {
    HeaderBytesRoundTrip(root[..12]);
    forall j | 0 <= j < RootCapacity
      ensures EncodeExtent(RootExtents(root)[j]) == root[12 + 12 * j .. 24 + 12 * j]
      ensures EncodeIndex(RootIndexes(root)[j]) == root[12 + 12 * j .. 24 + 12 * j]
    {
      ExtentBytesRoundTrip(RootSlot(root, j));
      IndexBytesRoundTrip(RootSlot(root, j));
    }
    assert root == root[..12] + root[12..24] + root[24..36] + root[36..48] + root[48..60];
  }
}
