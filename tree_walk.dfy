/** The tree walker (`extent_get_pblock`) and the child leaf fetch
    (`extent_get_eentries_in_block`): the root kept in the inode is either a
    leaf (depth 0), handed to the leaf scan directly, or an index node
    (depth 1) whose children are read from the device one by one until one
    of them yields a nonzero block. */
module TreeWalk {
  import opened Ext4Types
  import opened OnDisk
  import opened LeafScan

  /** `length` bytes of the device from byte `offset` on. */
  function Bytes(contents: nat -> u8, offset: nat, length: nat): (b: seq<u8>)
    ensures |b| == length
  {
    seq(length, i requires 0 <= i < length => contents(offset + i))
  }

  /** The block device behind disk_read: fixed contents, and a ghost record
      of every read issued, in order. */
  class Device {
    const contents: nat -> u8
    ghost var log: seq<ReadOp>

    constructor (contents: nat -> u8)
      ensures this.contents == contents && log == []
    {
      this.contents := contents;
      log := [];
    }

    /** disk_read(offset, length, buffer) */
    method Read(offset: nat, length: nat) returns (buf: seq<u8>)
      modifies this
      ensures buf == Bytes(contents, offset, length)
      ensures log == old(log) + [ReadOp(offset, length)]
    {
      buf := Bytes(contents, offset, length);
      log := log + [ReadOp(offset, length)];
    }
  }

  /** BLOCKS2BYTES: the byte offset of a device block. */
  function BlocksToBytes(block: u32, blockSize: nat): nat {
    block * blockSize
  }

  // ----- Child leaf fetch -----

  /** What fetching a child leaf yields: its extents (None when the child's
      header depth is not 0) and the reads it issued. */
  datatype Fetched = Fetched(leaf: Option<seq<Extent>>, issued: seq<ReadOp>)

  /** The header is read from the start of the block; its depth must be 0;
      then `entries` extents are read starting 12 bytes into the block. */
  function FetchLeaf(contents: nat -> u8, blockSize: nat, block: u32): Fetched {
    var at := BlocksToBytes(block, blockSize);
    var h := DecodeHeader(Bytes(contents, at, HeaderSize));
    if h.depth != 0 then
      Fetched(None, [ReadOp(at, HeaderSize)])
    else
      Fetched(Some(DecodeExtents(Bytes(contents, at + EntrySize, h.entries * EntrySize), h.entries)),
              [ReadOp(at, HeaderSize), ReadOp(at + EntrySize, h.entries * EntrySize)])
  }

  /** extent_get_eentries_in_block: the fresh buffer becomes a sequence, and
      `*n_entries` its length. */
  method GetEentriesInBlock(dev: Device, blockSize: nat, block: u32) returns (exts: Option<seq<Extent>>, nEntries: nat)
    modifies dev
    ensures exts == FetchLeaf(dev.contents, blockSize, block).leaf
    ensures exts.Some? ==> nEntries == |exts.value|
    ensures dev.log == old(dev.log) + FetchLeaf(dev.contents, blockSize, block).issued
  {
    var raw := dev.Read(BlocksToBytes(block, blockSize), HeaderSize);
    var extH := DecodeHeader(raw);
    if extH.depth != 0 {
      return None, 0;
    }
    var extentsLength := extH.entries * EntrySize;
    // sizeof(struct ext4_extent) == sizeof(struct ext4_extent_header) == 12
    var where := BlocksToBytes(block, blockSize) + EntrySize;
    var buf := dev.Read(where, extentsLength);
    exts := Some(DecodeExtents(buf, extH.entries));
    nEntries := extH.entries;
  }

  /** A child fetch reads the 12-byte header at the block's byte offset; it
      fails exactly when that header's depth is not 0, after that one read;
      otherwise it reads one buffer of 12 bytes per entry right after the
      header, and extent `j` is the 12 bytes at offset 12 * (j + 1) into the
      block. */
  lemma FetchLeafLayout(contents: nat -> u8, blockSize: nat, block: u32)
    ensures var at := block * blockSize;
            var h := DecodeHeader(Bytes(contents, at, HeaderSize));
            var f := FetchLeaf(contents, blockSize, block);
            && (f.leaf.None? <==> h.depth != 0)
            && (f.leaf.None? ==> f.issued == [ReadOp(at, 12)])
            && (f.leaf.Some? ==>
                  && |f.leaf.value| == h.entries
                  && f.issued == [ReadOp(at, 12), ReadOp(at + 12, 12 * h.entries)]
                  && forall j :: 0 <= j < |f.leaf.value| ==>
                       f.leaf.value[j] == DecodeExtent(Bytes(contents, at + 12 + 12 * j, 12)))
  {
    var at := block * blockSize;
    var h := DecodeHeader(Bytes(contents, at, HeaderSize));
    if h.depth == 0 {
      forall j | 0 <= j < h.entries {
        ExtentInBlock(contents, at + EntrySize, h.entries, j);
      }
    }
  }

  /** Extent `j` of `count` extents read from byte `from` is the 12 bytes
      at `from + 12 * j`. */
  lemma ExtentInBlock(contents: nat -> u8, from: nat, count: nat, j: nat)
    requires j < count
    ensures DecodeExtents(Bytes(contents, from, count * EntrySize), count)[j] ==
            DecodeExtent(Bytes(contents, from + 12 * j, 12))
  {
    var buf := Bytes(contents, from, count * EntrySize);
    DecodeExtentsAt(buf, count, j);
    assert buf[12 * j .. 12 * j + 12] == Bytes(contents, from + 12 * j, 12);
  }

  // ----- The walk -----

  /** The outcome of a call together with the reads it issued. */
  datatype Run = Run(outcome: Outcome, issued: seq<ReadOp>)

  /** `r`, preceded by the reads in `before`. */
  function Then(before: seq<ReadOp>, r: Run): Run {
    Run(r.outcome, before + r.issued)
  }

  lemma ThenThen(a: seq<ReadOp>, b: seq<ReadOp>, r: Run)
    ensures Then(a, Then(b, r)) == Then(a + b, r)
  {
    assert a + (b + r.issued) == (a + b) + r.issued;
  }

  /** The child fetch of one device with one block size. */
  function Fetcher(contents: nat -> u8, blockSize: nat): u32 -> Fetched {
    (block: u32) => FetchLeaf(contents, blockSize, block)
  }

  /** `fetch` is the child fetch of a device with these contents and this
      block size. */
  predicate FetchesFrom(fetch: u32 -> Fetched, contents: nat -> u8, blockSize: nat) {
    forall block: u32 {:trigger FetchLeaf(contents, blockSize, block)} ::
      fetch(block) == FetchLeaf(contents, blockSize, block)
  }

  lemma FetcherFetches(contents: nat -> u8, blockSize: nat)
    ensures FetchesFrom(Fetcher(contents, blockSize), contents, blockSize)
  {
  }

  /** What one index entry's child yields: a hard stop on a nonzero high
      half or a child that is not a leaf, else the scan of its extents. */
  function ChildOutcome(x: Index, lblock: u32, fetch: u32 -> Fetched): Outcome {
    if x.leafHi != 0 then Corrupt(IndexHighSet)
    else match fetch(x.leafLo).leaf
      case None => Corrupt(ChildNotLeaf)
      case Some(ee) => Scan(ee, lblock)
  }

  /** The reads one index entry's child costs. */
  function ChildReads(x: Index, fetch: u32 -> Fetched): seq<ReadOp> {
    if x.leafHi != 0 then [] else fetch(x.leafLo).issued
  }

  /** The depth-1 loop from entry `i` on, `written` being the last value
      written through the out-pointer so far. */
  function WalkFrom(idx: seq<Index>, i: nat, lblock: u32, fetch: u32 -> Fetched, written: Option<u32>): Run
    requires i <= |idx|
    decreases |idx| - i
  {
    if i == |idx| then Run(Returned(0, written), [])
    else
      var o := ChildOutcome(idx[i], lblock, fetch);
      var rs := ChildReads(idx[i], fetch);
      if o.Corrupt? then Run(o, rs)
      else
        var w := if o.extent.Some? then o.extent else written;
        if o.pblock != 0 then Run(Returned(o.pblock, w), rs)
        else Then(rs, WalkFrom(idx, i + 1, lblock, fetch, w))
  }

  /** The whole call: the root header's checks, then depth 0 or depth 1. */
  function Resolve(root: seq<u8>, lblock: u32, contents: nat -> u8, blockSize: nat): Run
    requires |root| == RootSize
  {
    var eh := RootHeader(root);
    if eh.magic != ExtMagic then Run(Corrupt(BadMagic), [])
    else if eh.entries > RootCapacity then Run(Corrupt(TooManyEntries), [])
    else if eh.depth == 0 then Run(Scan(RootExtents(root)[..eh.entries], lblock), [])
    else if eh.depth != 1 then Run(Corrupt(BadDepth), [])
    else WalkFrom(RootIndexes(root)[..eh.entries], 0, lblock, Fetcher(contents, blockSize), None)
  }

  /** extent_get_pblock: `root` is the inode's 60-byte extent root. */
  method GetPblock(root: seq<u8>, lblock: u32, dev: Device, blockSize: nat) returns (r: Outcome)
    requires |root| == RootSize
    modifies dev
    ensures r == Resolve(root, lblock, dev.contents, blockSize).outcome
    ensures dev.log == old(dev.log) + Resolve(root, lblock, dev.contents, blockSize).issued
  {
    var eh := RootHeader(root);
    if eh.magic != ExtMagic {
      return Corrupt(BadMagic);
    }
    if eh.entries > RootCapacity {
      return Corrupt(TooManyEntries);
    }
    if eh.depth == 0 {
      var eeArray := RootExtents(root);
      r := GetBlockFromEes(eeArray, eh.entries, lblock);
    } else {
      if eh.depth != 1 {
        return Corrupt(BadDepth);
      }
      FetcherFetches(dev.contents, blockSize);
      r := WalkIndexes(RootIndexes(root), eh.entries, lblock, dev, blockSize, Fetcher(dev.contents, blockSize));
    }
  }

  /** The depth-1 loop of extent_get_pblock over the first `n` index
      entries of `ei`. */
  method WalkIndexes(ei: seq<Index>, n: nat, lblock: u32, dev: Device, blockSize: nat, ghost fetch: u32 -> Fetched)
    returns (r: Outcome)
    requires n <= |ei| && FetchesFrom(fetch, dev.contents, blockSize)
    modifies dev
    ensures r == WalkFrom(ei[..n], 0, lblock, fetch, None).outcome
    ensures dev.log == old(dev.log) + WalkFrom(ei[..n], 0, lblock, fetch, None).issued
  {
    ghost var idx := ei[..n];
    ghost var start := dev.log;
    ghost var whole := WalkFrom(idx, 0, lblock, fetch, None);
    // ret stays 0 when the loop runs no iteration; C leaves it unset
    var ret: u64 := 0;
    var extent: Option<u32> := None;
    var i: nat := 0;
    assert Then(start, whole) == Then(dev.log, WalkFrom(idx, i, lblock, fetch, extent));
    while i < n
      invariant i <= n
      invariant ret == 0
      invariant Then(start, whole) == Then(dev.log, WalkFrom(idx, i, lblock, fetch, extent))
    {
      assert idx[i] == ei[i];
      ghost var rest := WalkFrom(idx, i, lblock, fetch, extent);
      ghost var before := dev.log;
      var s := VisitChild(ei[i], lblock, dev, blockSize, fetch);
      ghost var rs := ChildReads(idx[i], fetch);
      if s.Corrupt? {
        assert rest == Run(s, rs);
        return s;
      }
      if s.extent.Some? {
        extent := s.extent;
      }
      ret := s.pblock;
      if ret != 0 {
        assert rest == Run(Returned(ret, extent), rs);
        break;
      }
      ghost var next := WalkFrom(idx, i + 1, lblock, fetch, extent);
      assert rest == Then(rs, next);
      ThenThen(before, rs, next);
      i := i + 1;
    }
    r := Returned(ret, extent);
  }

  /** One pass of the depth-1 loop body: the check on the entry's high
      half, the child fetch and the scan of the child's extents. */
  method VisitChild(x: Index, lblock: u32, dev: Device, blockSize: nat, ghost fetch: u32 -> Fetched) returns (s: Outcome)
    requires FetchesFrom(fetch, dev.contents, blockSize)
    modifies dev
    ensures s == ChildOutcome(x, lblock, fetch)
    ensures dev.log == old(dev.log) + ChildReads(x, fetch)
  {
    if x.leafHi != 0 {
      return Corrupt(IndexHighSet);
    }
    var eeArray, nEntries := GetEentriesInBlock(dev, blockSize, x.leafLo);
    if eeArray.None? {
      return Corrupt(ChildNotLeaf);
    }
    s := GetBlockFromEes(eeArray.value, nEntries, lblock);
    assert eeArray.value[..nEntries] == eeArray.value;
  }

  // ----- Properties of the walk -----

  /** The reads of the children of `idx`, in stored order. */
  function AllChildReads(idx: seq<Index>, fetch: u32 -> Fetched): seq<ReadOp>
    decreases |idx|
  {
    if idx == [] then []
    else AllChildReads(idx[..|idx| - 1], fetch) + ChildReads(idx[|idx| - 1], fetch)
  }

  /** The last value the children of `idx` write through the out-pointer. */
  function LastWritten(idx: seq<Index>, lblock: u32, fetch: u32 -> Fetched): Option<u32>
    decreases |idx|
  {
    if idx == [] then None
    else
      var o := ChildOutcome(idx[|idx| - 1], lblock, fetch);
      if o.Returned? && o.extent.Some? then o.extent
      else LastWritten(idx[..|idx| - 1], lblock, fetch)
  }

  /** A child outcome that lets the depth-1 loop go on: 0 was returned. */
  predicate ZeroResult(o: Outcome) {
    o.Returned? && o.pblock == 0
  }

  /** While every child yields 0 the loop goes on, reading the children in
      stored order and keeping the last value written through the
      out-pointer, even when that 0 was a genuine mapping to block 0. */
  lemma {:induction false} WalkSkipsZeroResults(idx: seq<Index>, k: nat, lblock: u32, fetch: u32 -> Fetched)
    requires k <= |idx|
    requires forall j :: 0 <= j < k ==> ZeroResult(ChildOutcome(idx[j], lblock, fetch))
    ensures WalkFrom(idx, 0, lblock, fetch, None) ==
            Then(AllChildReads(idx[..k], fetch),
                 WalkFrom(idx, k, lblock, fetch, LastWritten(idx[..k], lblock, fetch)))
  {
    if k == 0 {
      assert idx[..0] == [];
      var r := WalkFrom(idx, 0, lblock, fetch, None);
      assert [] + r.issued == r.issued;
    } else {
      WalkSkipsZeroResults(idx, k - 1, lblock, fetch);
      var pre := idx[..k];
      assert pre[..k - 1] == idx[..k - 1];
      assert pre[k - 1] == idx[k - 1];
      var w := LastWritten(idx[..k - 1], lblock, fetch);
      var a := AllChildReads(idx[..k - 1], fetch);
      var rs := ChildReads(idx[k - 1], fetch);
      var rest := WalkFrom(idx, k, lblock, fetch, LastWritten(pre, lblock, fetch));
      assert WalkFrom(idx, k - 1, lblock, fetch, w) == Then(rs, rest);
      assert a + (rs + rest.issued) == (a + rs) + rest.issued;
    }
  }

  lemma ChildOutcomeShape(x: Index, lblock: u32, fetch: u32 -> Fetched)
    ensures var o := ChildOutcome(x, lblock, fetch);
            o.Returned? && o.pblock != 0 ==> o.extent.Some?
  {
    if x.leafHi == 0 {
      match fetch(x.leafLo).leaf
      case None =>
      case Some(ee) => ScanShape(ee, lblock);
    }
  }

  /** The first child that does not yield 0 decides the call: its hard stop
      or its nonzero block is the result, the reads are exactly those of the
      children up to and including it, and no later child is read. */
  lemma WalkFirstDecisive(idx: seq<Index>, k: nat, lblock: u32, fetch: u32 -> Fetched)
    requires k < |idx|
    requires forall j :: 0 <= j < k ==> ZeroResult(ChildOutcome(idx[j], lblock, fetch))
    requires !ZeroResult(ChildOutcome(idx[k], lblock, fetch))
    ensures WalkFrom(idx, 0, lblock, fetch, None) ==
            Run(ChildOutcome(idx[k], lblock, fetch), AllChildReads(idx[..k + 1], fetch))
  {
    WalkSkipsZeroResults(idx, k, lblock, fetch);
    ChildOutcomeShape(idx[k], lblock, fetch);
    var pre := idx[..k + 1];
    assert pre[..k] == idx[..k];
    assert pre[k] == idx[k];
  }

  /** When every child yields 0 the call returns 0, having read every
      child in stored order; the out-pointer holds the last value any child
      wrote. */
  lemma WalkAllZero(idx: seq<Index>, lblock: u32, fetch: u32 -> Fetched)
    requires forall j :: 0 <= j < |idx| ==> ZeroResult(ChildOutcome(idx[j], lblock, fetch))
    ensures WalkFrom(idx, 0, lblock, fetch, None) ==
            Run(Returned(0, LastWritten(idx, lblock, fetch)), AllChildReads(idx, fetch))
  {
    WalkSkipsZeroResults(idx, |idx|, lblock, fetch);
    assert idx[..|idx|] == idx;
  }

  /** Entries after the deciding child make no difference: two index arrays
      that agree up to it give the same outcome and the same reads. */
  lemma WalkIgnoresLaterEntries(idx: seq<Index>, other: seq<Index>, k: nat, lblock: u32, fetch: u32 -> Fetched)
    requires k < |idx| && k < |other| && idx[..k + 1] == other[..k + 1]
    requires forall j :: 0 <= j < k ==> ZeroResult(ChildOutcome(idx[j], lblock, fetch))
    requires !ZeroResult(ChildOutcome(idx[k], lblock, fetch))
    ensures WalkFrom(other, 0, lblock, fetch, None) == WalkFrom(idx, 0, lblock, fetch, None)
  {
    forall j | 0 <= j <= k
      ensures other[j] == idx[j]
    {
      assert other[..k + 1][j] == idx[..k + 1][j];
    }
    WalkFirstDecisive(idx, k, lblock, fetch);
    WalkFirstDecisive(other, k, lblock, fetch);
  }

  /** A first child whose matching extent maps the block to physical block
      0 does not end the loop: the second child is read and decides. */
  lemma ZeroBlockMappingIsSkipped(a: Index, b: Index, x: u32, lblock: u32, fetch: u32 -> Fetched)
    requires ChildOutcome(a, lblock, fetch) == Returned(0, Some(x))
    requires !ZeroResult(ChildOutcome(b, lblock, fetch))
    ensures WalkFrom([a, b], 0, lblock, fetch, None) ==
            Run(ChildOutcome(b, lblock, fetch),
                ChildReads(a, fetch) + ChildReads(b, fetch))
  {
    WalkFirstDecisive([a, b], 1, lblock, fetch);
    assert [a, b][..2] == [a, b];
    assert [a, b][..1] == [a];
    assert [a][..0] == [];
  }

  lemma {:induction false} WalkFromFaults(idx: seq<Index>, i: nat, lblock: u32, fetch: u32 -> Fetched, written: Option<u32>)
    requires i <= |idx|
    ensures var o := WalkFrom(idx, i, lblock, fetch, written).outcome;
            o.Corrupt? ==> o.fault == ExtentHighSet || o.fault == IndexHighSet || o.fault == ChildNotLeaf
    decreases |idx| - i
  {
    if i < |idx| {
      var x := idx[i];
      if x.leafHi == 0 {
        match fetch(x.leafLo).leaf
        case None =>
        case Some(ee) => ScanCorruptIff(ee, lblock);
      }
      var o := ChildOutcome(x, lblock, fetch);
      if o.Returned? && o.pblock == 0 {
        WalkFromFaults(idx, i + 1, lblock, fetch, if o.extent.Some? then o.extent else written);
      }
    }
  }

  /** The root header's checks: a wrong magic, more than four entries, or a
      depth other than 0 and 1 each stop the call with their own fault,
      before any read, whatever the logical block; and no other path reports
      these faults. */
  lemma ResolveHeaderChecks(root: seq<u8>, lblock: u32, contents: nat -> u8, blockSize: nat)
    requires |root| == RootSize
    ensures var eh := RootHeader(root);
            var r := Resolve(root, lblock, contents, blockSize);
            && (r.outcome == Corrupt(BadMagic) <==> eh.magic != ExtMagic)
            && (r.outcome == Corrupt(TooManyEntries) <==> eh.magic == ExtMagic && eh.entries > 4)
            && (r.outcome == Corrupt(BadDepth) <==> eh.magic == ExtMagic && eh.entries <= 4 && eh.depth > 1)
            && (eh.magic != ExtMagic || eh.entries > 4 || eh.depth > 1 ==> r.issued == [])
  {
    var eh := RootHeader(root);
    if eh.magic == ExtMagic && eh.entries <= RootCapacity {
      if eh.depth == 0 {
        ScanCorruptIff(RootExtents(root)[..eh.entries], lblock);
      } else if eh.depth == 1 {
        WalkFromFaults(RootIndexes(root)[..eh.entries], 0, lblock, Fetcher(contents, blockSize), None);
      }
    }
  }

  /** At depth 0 no read is issued and the result is the leaf scan over the
      first `entries` inline extents, extent `j` being the 12-byte slot at
      offset 12 * (j + 1) of the root. */
  lemma ResolveDepthZero(root: seq<u8>, lblock: u32, contents: nat -> u8, blockSize: nat)
    requires |root| == RootSize
    requires RootHeader(root).magic == ExtMagic && RootHeader(root).entries <= 4 && RootHeader(root).depth == 0
    ensures Resolve(root, lblock, contents, blockSize).issued == []
    ensures var ee := RootExtents(root)[..RootHeader(root).entries];
            && Resolve(root, lblock, contents, blockSize).outcome == Scan(ee, lblock)
            && forall j :: 0 <= j < |ee| ==> ee[j] == DecodeExtent(root[12 + 12 * j .. 24 + 12 * j])
  {
  }

  /** At depth 1 the call is the loop over the first `entries` inline index
      entries, slot `j` being the 12 bytes at offset 12 * (j + 1) of the
      root, starting with nothing written through the out-pointer. */
  lemma ResolveDepthOne(root: seq<u8>, lblock: u32, contents: nat -> u8, blockSize: nat)
    requires |root| == RootSize
    requires RootHeader(root).magic == ExtMagic && RootHeader(root).entries <= 4 && RootHeader(root).depth == 1
    ensures var idx := RootIndexes(root)[..RootHeader(root).entries];
            && Resolve(root, lblock, contents, blockSize) == WalkFrom(idx, 0, lblock, Fetcher(contents, blockSize), None)
            && forall j :: 0 <= j < |idx| ==> idx[j] == DecodeIndex(root[12 + 12 * j .. 24 + 12 * j])
  {
  }

  // ----- Well-formed trees -----

  /** The extents of the child an index entry names (none when the child is
      not a leaf). */
  function ChildLeaf(x: Index, fetch: u32 -> Fetched): seq<Extent> {
    match fetch(x.leafLo).leaf
    case None => []
    case Some(ee) => ee
  }

  /** Every extent of `p` ends at or before the start of every extent of
      `q`. */
  predicate LeafBefore(p: seq<Extent>, q: seq<Extent>) {
    forall a, b :: 0 <= a < |p| && 0 <= b < |q| ==> p[a].block as int + p[a].len as int <= q[b].block
  }

  /** A depth-1 tree as ext4 lays it out: every entry names a well-formed
      leaf through its low half, and the leaves follow each other in
      logical order. */
  predicate WellFormedTree(idx: seq<Index>, fetch: u32 -> Fetched) {
    && (forall j :: 0 <= j < |idx| ==>
          idx[j].leafHi == 0 && fetch(idx[j].leafLo).leaf.Some? && WellFormed(ChildLeaf(idx[j], fetch)))
    && (forall j, k :: 0 <= j < k < |idx| ==> LeafBefore(ChildLeaf(idx[j], fetch), ChildLeaf(idx[k], fetch)))
  }

  /** In a well-formed tree, a block covered by extent `i` of child `k`
      that maps to a nonzero physical block resolves through that extent:
      every earlier child yields 0, child `k` decides, and the children up
      to and including it are the only ones read. */
  lemma WalkFindsCovering(idx: seq<Index>, lblock: u32, fetch: u32 -> Fetched, k: nat, i: nat)
    requires WellFormedTree(idx, fetch)
    requires k < |idx| && i < |ChildLeaf(idx[k], fetch)| && Covers(ChildLeaf(idx[k], fetch)[i], lblock)
    requires Hit(ChildLeaf(idx[k], fetch)[i], lblock).pblock != 0
    ensures WalkFrom(idx, 0, lblock, fetch, None) ==
            Run(Hit(ChildLeaf(idx[k], fetch)[i], lblock), AllChildReads(idx[..k + 1], fetch))
  {
    var e := ChildLeaf(idx[k], fetch)[i];
    forall j | 0 <= j < k
      ensures ZeroResult(ChildOutcome(idx[j], lblock, fetch))
    {
      var p := ChildLeaf(idx[j], fetch);
      assert LeafBefore(p, ChildLeaf(idx[k], fetch));
      forall a | 0 <= a < |p|
        ensures p[a].startHi == 0 && !EndsAfter(p[a], lblock)
      {
        assert p[a].block as int + p[a].len as int <= e.block;
      }
      ScanNoMatch(p, lblock);
    }
    ScanFindsCovering(ChildLeaf(idx[k], fetch), lblock, i);
    WalkFirstDecisive(idx, k, lblock, fetch);
  }

  /** The same at the level of the whole call: a depth-1 root over a
      well-formed tree resolves a covered block with a nonzero mapping
      through the extent that covers it. */
  lemma ResolveFindsCovering(root: seq<u8>, lblock: u32, contents: nat -> u8, blockSize: nat, k: nat, i: nat)
    requires |root| == RootSize
    requires RootHeader(root).magic == ExtMagic && RootHeader(root).entries <= 4 && RootHeader(root).depth == 1
    requires var idx := RootIndexes(root)[..RootHeader(root).entries];
             && WellFormedTree(idx, Fetcher(contents, blockSize))
             && k < |idx| && i < |ChildLeaf(idx[k], Fetcher(contents, blockSize))|
             && Covers(ChildLeaf(idx[k], Fetcher(contents, blockSize))[i], lblock)
             && Hit(ChildLeaf(idx[k], Fetcher(contents, blockSize))[i], lblock).pblock != 0
    ensures var idx := RootIndexes(root)[..RootHeader(root).entries];
            Resolve(root, lblock, contents, blockSize) ==
            Run(Hit(ChildLeaf(idx[k], Fetcher(contents, blockSize))[i], lblock),
                AllChildReads(idx[..k + 1], Fetcher(contents, blockSize)))
  {
    WalkFindsCovering(RootIndexes(root)[..RootHeader(root).entries], lblock, Fetcher(contents, blockSize), k, i);
  }

  /** The nonzero condition cannot be dropped: in a well-formed tree whose
      first leaf maps block 0 to physical block 0, the loop goes on to the
      second leaf, whose scan lands in the hole before its extent and
      returns physical block 490. */
  lemma ZeroMappingFallsIntoHole(fetch: u32 -> Fetched)
    requires fetch(1).leaf == Some([Extent(0, 10, 0, 0)])
    requires fetch(2).leaf == Some([Extent(10, 10, 0, 500)])
    ensures var idx := [Index(0, 1, 0, 0), Index(10, 2, 0, 0)];
            && WellFormedTree(idx, fetch)
            && Covers(ChildLeaf(idx[0], fetch)[0], 0)
            && WalkFrom(idx, 0, 0, fetch, None).outcome == Returned(490, Some(20))
  {
    var idx := [Index(0, 1, 0, 0), Index(10, 2, 0, 0)];
    assert ChildLeaf(idx[0], fetch) == [Extent(0, 10, 0, 0)];
    assert ChildLeaf(idx[1], fetch) == [Extent(10, 10, 0, 500)];
    ZeroBlockMappingIsSkipped(idx[0], idx[1], 10, 0, fetch);
    assert WalkFrom(idx, 0, 0, fetch, None) == WalkFrom([idx[0], idx[1]], 0, 0, fetch, None);
  }

  // ----- A concrete depth-1 tree -----

  /** A root of depth 1 with one index entry naming device block 50, and
      three unused slots. */
  function ScenarioRoot(): seq<u8> {
    EncodeHeader(Header(ExtMagic, 1, 4, 1, 0)) + EncodeIndex(Index(0, 50, 0, 0)) + seq(36, _ => 0)
  }

  /** Block 50's leaf: one extent mapping logical 0..999 to physical
      2000..2999. */
  function ScenarioLeaf(): seq<u8> {
    EncodeHeader(Header(ExtMagic, 1, 4, 0, 0)) + EncodeExtent(Extent(0, 1000, 0, 2000))
  }

  /** A device of 1024-byte blocks holding that leaf at the start of block
      50 and zeros elsewhere. */
  function ScenarioDevice(): nat -> u8 {
    (o: nat) => if 51200 <= o < 51224 then ScenarioLeaf()[o - 51200] else 0
  }

  lemma ScenarioRootEntries()
    ensures RootHeader(ScenarioRoot()) == Header(ExtMagic, 1, 4, 1, 0)
    ensures RootIndexes(ScenarioRoot())[..1] == [Index(0, 50, 0, 0)]
  {
    var root := ScenarioRoot();
    assert root[..12] == EncodeHeader(Header(ExtMagic, 1, 4, 1, 0));
    HeaderRoundTrip(Header(ExtMagic, 1, 4, 1, 0));
    assert RootSlot(root, 0) == EncodeIndex(Index(0, 50, 0, 0));
    IndexRoundTrip(Index(0, 50, 0, 0));
  }

  lemma ScenarioFetch()
    ensures FetchLeaf(ScenarioDevice(), 1024, 50) ==
            Fetched(Some([Extent(0, 1000, 0, 2000)]), [ReadOp(51200, 12), ReadOp(51212, 12)])
  {
    var contents := ScenarioDevice();
    var leaf := ScenarioLeaf();
    assert Bytes(contents, 51200, 12) == leaf[..12] == EncodeHeader(Header(ExtMagic, 1, 4, 0, 0));
    HeaderRoundTrip(Header(ExtMagic, 1, 4, 0, 0));
    var buf := Bytes(contents, 51212, 12);
    assert buf == leaf[12..] == EncodeExtent(Extent(0, 1000, 0, 2000));
    ExtentRoundTrip(Extent(0, 1000, 0, 2000));
    assert buf[..12] == buf;
    assert DecodeExtents(buf, 1) == [Extent(0, 1000, 0, 2000)] + DecodeExtents(buf[12..], 0);
    assert DecodeExtents(buf, 1) == [Extent(0, 1000, 0, 2000)];
  }

  /** On that tree, block 999 maps to physical 2999 with one block left in
      the run, and block 1000 maps to nothing; each call reads block 50's
      header and then its one extent. */
  lemma ScenarioB()
    ensures Resolve(ScenarioRoot(), 999, ScenarioDevice(), 1024) ==
            Run(Returned(2999, Some(1)), [ReadOp(51200, 12), ReadOp(51212, 12)])
    ensures Resolve(ScenarioRoot(), 1000, ScenarioDevice(), 1024) ==
            Run(Returned(0, None), [ReadOp(51200, 12), ReadOp(51212, 12)])
  {
    ScenarioRootEntries();
    ScenarioFetch();
  }
}
