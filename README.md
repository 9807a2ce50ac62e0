# ext4 extent-tree lookup, modelled in Dafny

`extents.c` translates a logical block of an ext4 file into a physical
block of the device by walking the file's extent tree. The tree's root sits
inside the inode as 60 bytes: a 12-byte header (magic `0xF30A`, entry
count, capacity, depth, generation) followed by four 12-byte slots. At
depth 0 the slots are extents (`ee_block`, `ee_len`, `ee_start_hi`,
`ee_start_lo`). At depth 1 they are index entries (`ei_block`,
`ei_leaf_lo`, `ei_leaf_hi`, `ei_unused`), each naming a device block that
holds a leaf node.

The project has four modules:

- `Ext4Types` (`types.dfy`) holds the fixed-width integer types and the
  wrapping 32-bit `+` and `-` of the C code. It also holds the decoded
  records and the result type `Outcome`. A call either ends in a hard stop
  (`Corrupt`, with one `Fault` per `ASSERT` that can fail) or returns a
  block number together with the last value written through the `extent`
  out-pointer (`None` if nothing was written).
- `OnDisk` (`on_disk.dfy`) holds the little-endian 12-byte layout of
  headers, extents and index entries, with round trips in both directions.
  It also reads the 60-byte root, whose four slots are both extents and
  index entries (the C union).
- `LeafScan` (`leaf_scan.dfy`) models `extent_get_block_from_ees`:
  - the loop, as method `GetBlockFromEes`;
  - the function `Scan` that specifies it;
  - the lemmas about what the scan returns;
  - a comparison with the reading "first extent that covers the block".
- `TreeWalk` (`tree_walk.dfy`) models the device and the rest of the walk:
  - the device, as class `Device`: fixed byte contents, and a ghost log of
    the reads issued;
  - the child fetch `extent_get_eentries_in_block`, as `GetEentriesInBlock`,
    specified by `FetchLeaf`;
  - the walker `extent_get_pblock`, as `GetPblock`, specified by `Resolve`.
    Its depth-1 loop is `WalkIndexes`, specified by `WalkFrom`.

Each method is proved to return exactly what its specification function
gives. For methods that read the device, the proof also covers the exact
sequence of reads issued. The lemmas then state the source's behaviour in
terms of those functions.

The behaviour is modelled as written, with these points:

- The scan's match test looks only at the end of an extent,
  `ee_block + ee_len > lblock`, computed modulo 2^32. It never checks that
  `ee_block <= lblock`.
- A block that lies in a hole before an extent is therefore not reported
  as unmapped. It is mapped to `ee_start_lo - (ee_block - lblock)` modulo
  2^32. That block lies outside the extent's physical run whenever the run
  stays below 2^32 (`ScanMapsHole`, and the concrete case
  `HoleBeforeExtentIsMapped`).
- `CoveringScan` is the reading with a lower bound. It is characterised by
  `CoveringScanCorrect`.
- `ScanAgreesOutsideHoles` shows that on a sorted, non-overlapping leaf the
  two readings differ only on such holes.
- A return value of 0 means both "no mapping" and "physical block 0". The
  depth-1 loop therefore goes on past a child that really maps the block
  to block 0 (`ZeroBlockMappingIsSkipped`).
- In a well-formed depth-1 tree, a covered block with a nonzero mapping
  resolves through the extent that covers it (`ResolveFindsCovering`).
  With a zero mapping, the loop can instead land in a later leaf's hole
  (`ZeroMappingFallsIntoHole`).

## Model

| member | source | states |
|---|---|---|
| Ext4Types.Add32 | extents.c:30 | `uint32_t` addition: the exact sum when it stays below 2^32, otherwise the sum minus 2^32 |
| Ext4Types.Sub32 | extents.c:32 | `uint32_t` subtraction: the exact difference when it is not negative, otherwise the difference plus 2^32; adding the subtrahend back gives the minuend |
| OnDisk.HeaderRoundTrip | extents.c:53 | decoding the 12 bytes of an encoded `ext4_extent_header` gives back every field |
| OnDisk.HeaderBytesRoundTrip | extents.c:53 | every 12 bytes are the encoding of the header decoded from them |
| OnDisk.ExtentRoundTrip | extents.c:60 | decoding an encoded `ext4_extent` gives back every field |
| OnDisk.ExtentBytesRoundTrip | extents.c:60 | every 12 bytes are the encoding of the extent decoded from them |
| OnDisk.IndexRoundTrip | extents.c:88-90 | decoding an encoded `ext4_extent_idx` gives back every field |
| OnDisk.IndexBytesRoundTrip | extents.c:88-90 | every 12 bytes are the encoding of the index entry decoded from them |
| OnDisk.DecodeExtentsAt | extents.c:56-60 | extent `j` of a buffer of extents is the decoding of bytes `12j` up to `12j + 12` |
| OnDisk.RootLayout | extents.c:69-81 | the root is 60 bytes: a header, then four slots; each slot re-encodes to the same 12 bytes whether it is read as an extent or as an index entry |
| LeafScan.GetBlockFromEes | extents.c:17-45 | the loop over the first `n_ee` extents returns exactly `Scan` of those extents: the same hard stop, the same block, the same write through `extent` |
| LeafScan.ScanFirstMatch | extents.c:27-43 | suppose entry `i` is the first whose 32-bit end exceeds `lblock`, and it and every entry before it have `ee_start_hi == 0`; then the result is `ee_start_lo + (lblock - ee_block)` and `*extent` becomes `ee_block + ee_len - lblock`, all modulo 2^32 |
| LeafScan.ScanNoMatch | extents.c:27-40 | when no entry ends beyond `lblock` and no high half is set, the result is 0 and `*extent` is not written |
| LeafScan.ScanCorruptIff | extents.c:27-35 | the scan hard-stops exactly when it reaches an entry with `ee_start_hi != 0`, that is, when no entry before that one ends beyond `lblock`; `ExtentHighSet` is the only fault it reports |
| LeafScan.ScanAppend | extents.c:27-36 | entries after the one the scan stops at are never examined, not even their high halves; after a prefix that yields 0 with nothing written, the scan continues as if the prefix were absent; a prefix that maps the block, even to physical block 0, decides the result |
| LeafScan.ScanShape | extents.c:30-40 | every returned result that leaves `*extent` unwritten is the 0 of "no match" |
| LeafScan.HitInRange | extents.c:30-43 | when the chosen extent covers `lblock`, the remaining run is between 1 and `ee_len` and reaches exactly to the extent's logical end; if also its physical run stays below 2^32, the result is `ee_start_lo + (lblock - ee_block)`, it lies in `[ee_start_lo, ee_start_lo + ee_len)`, and result plus remaining run is the run's physical end |
| LeafScan.ScanFindsCovering | extents.c:26-43 | in a sorted, non-overlapping leaf with no wrapping ends and zero high halves up to the covering extent, the scan picks the extent that covers `lblock` and leaves a remaining run between 1 and `ee_len`; when `ee_start_lo + ee_len <= 2^32`, the answer lies in that extent's physical run |
| LeafScan.ScanPastLastExtent | extents.c:27-40 | in a sorted, non-overlapping leaf with no wrapping ends and all high halves zero, a block beyond every extent's end maps to 0 with nothing written |
| LeafScan.ScanMapsHole | extents.c:30-43 | in a sorted leaf with zero high halves up to extent `i`, a block in the hole before extent `i` is covered by no extent, yet the scan settles on extent `i` and returns `ee_start_lo - (ee_block - lblock)` modulo 2^32, which lies outside the physical run whenever that run stays below 2^32 |
| LeafScan.CoveringScanCorrect | extents.c:30 | the scan with the lower bound added maps `lblock` exactly when some extent covers it, and then through the first covering extent; otherwise it yields 0 with nothing written |
| LeafScan.ScanAgreesOutsideHoles | extents.c:27-43 | in a well-formed leaf, the scan as written equals the scan with the lower bound on every covered block and on every block past the last extent |
| LeafScan.SingleExtentScenario | extents.c:27-43 | extent (0, 10, 0, 100): block 5 maps to 105 with 5 blocks left in the run; block 10 maps to 0 with nothing written |
| LeafScan.HoleBeforeExtentIsMapped | extents.c:30-43 | extent (10, 5, 0, 100) does not cover block 5, yet the scan as written maps block 5 to 95 and writes 10; the scan with the lower bound yields 0 |
| TreeWalk.Device.Read | extents.c:53-60 | a `disk_read` returns the device's bytes from the offset on, and appends exactly that read to the log |
| TreeWalk.GetEentriesInBlock | extents.c:48-64 | the child fetch returns `FetchLeaf`: no array when the child's depth is not 0; otherwise `eh_entries` extents, with `*n_entries` equal to their number; it issues exactly `FetchLeaf`'s reads |
| TreeWalk.FetchLeafLayout | extents.c:53-62 | the 12-byte header is read at `BLOCKS2BYTES(block)`; the fetch fails exactly when the header's depth is not 0, having issued that single read; otherwise it reads `12 * eh_entries` bytes at `BLOCKS2BYTES(block) + 12`, and extent `j` is the 12 bytes at `BLOCKS2BYTES(block) + 12 + 12j` |
| TreeWalk.ExtentInBlock | extents.c:56-60 | extent `j` of a buffer read from byte `from` is the 12 bytes at `from + 12j` |
| TreeWalk.GetPblock | extents.c:67-99 | the walker returns `Resolve`'s outcome and issues exactly `Resolve`'s reads, in order |
| TreeWalk.WalkIndexes | extents.c:87-95 | the depth-1 loop over the first `eh_entries` index entries returns `WalkFrom`'s outcome and issues exactly its reads |
| TreeWalk.VisitChild | extents.c:88-92 | one pass of the loop body checks `ei_leaf_hi`, fetches the child and scans it; its result and reads are those of `ChildOutcome` and `ChildReads` |
| TreeWalk.WalkSkipsZeroResults | extents.c:87-95 | while each child yields 0, the loop goes on; it reads the children in stored order and keeps the last value a child wrote through `extent` |
| TreeWalk.ChildOutcomeShape | extents.c:30-43 | every nonzero child result has written `*extent` |
| TreeWalk.WalkFirstDecisive | extents.c:87-95 | the first child that does not yield 0 decides the call: its hard stop or its nonzero block is the result; the reads are exactly those of the children up to and including it; no later child is read |
| TreeWalk.WalkAllZero | extents.c:87-98 | when every child yields 0, the call returns 0, having read every child in stored order; `*extent` holds the last value any child wrote |
| TreeWalk.WalkIgnoresLaterEntries | extents.c:87-95 | two index arrays that agree up to the deciding child give the same outcome and the same reads |
| TreeWalk.ZeroBlockMappingIsSkipped | extents.c:91-94 | a first child that maps the block to physical block 0 does not end the loop: the second child is read and decides |
| TreeWalk.WalkFromFaults | extents.c:85-95 | the depth-1 loop can hard-stop only on a set `ei_leaf_hi`, on a child that is not a leaf, or on a set `ee_start_hi` |
| TreeWalk.ResolveHeaderChecks | extents.c:69-85 | a wrong magic, more than four entries, or a depth other than 0 and 1 each hard-stop with its own fault before any read, in this order; no other path reports these faults |
| TreeWalk.ResolveDepthZero | extents.c:79-83 | at depth 0 no read is issued, and the result is the leaf scan over the first `eh_entries` inline extents, slot `j` being root bytes `12 + 12j` up to `24 + 12j` |
| TreeWalk.WalkFindsCovering | extents.c:87-95 | in a well-formed tree (leaves well formed and in logical order, all `ei_leaf_hi` zero), a block covered by extent `i` of child `k` with a nonzero mapping resolves to that extent's mapping; exactly the children up to and including `k` are read |
| TreeWalk.ResolveFindsCovering | extents.c:67-99 | the same for the whole call on a depth-1 root: the outcome is the covering extent's mapping and the reads are those of the children up to the covering one |
| TreeWalk.ZeroMappingFallsIntoHole | extents.c:30-94 | the nonzero condition is needed: in a well-formed tree whose first leaf maps block 0 to physical block 0, the loop goes on, and the next leaf's scan returns 490 from the hole before its extent |
| TreeWalk.ScenarioB | extents.c:67-99 | a depth-1 root with one entry naming block 50, on a device of 1024-byte blocks, where block 50 holds extent (0, 1000, 0, 2000): block 999 gives 2999 with 1 left in the run, block 1000 gives 0 with nothing written; both read 12 bytes at 51200 and then 12 bytes at 51212 |
| TreeWalk.ResolveDepthOne | extents.c:84-90 | at depth 1 the call is the loop over the first `eh_entries` inline index entries, which starts with nothing written through `extent` |

## Left out

- `disk_read` and `BLOCKS2BYTES` are defined in `disk.h` and `super.h`,
  which are not part of this model.
  - The device is modelled as a fixed function from byte offsets to bytes.
  - `BLOCKS2BYTES(block)` is modelled as `block * blockSize`, where the
    block size is a parameter.
  - Byte offsets are unbounded: the width of the C offset type is not
    modelled.
  - Read failures are not modelled; the C code ignores `disk_read`'s
    result as well.
- `malloc` and `free` of the child's extent array are not modelled. Each
  fetch yields a fresh sequence, so there is no aliasing and no memory
  state to model.
- `DEBUG` logging (extents.c:23-24, 39, 42) is not modelled.
- The `sizeof(struct ext4_inode_extent) == 60` check (extents.c:73) is a
  fact about the layout. It is recorded as the constant `RootSize` and in
  `RootLayout`, not as a run-time outcome.
- `EXT4_EXT_MAGIC` comes from `extents.h`, which is not part of this model.
  Its value `0xF30A` is the constant `ExtMagic`, as in the ext4 on-disk
  format.
- TreeWalk.WalkIndexes: a depth-1 root with no entries returns 0 with
  nothing written. The C code returns `ret` uninitialised there
  (extents.c:77, 98), and that value is undefined.
- The `extent` out-pointer may be `NULL` in C (extents.c:33), in which case
  nothing is written. The model always records the value that would be
  written, and the caller may ignore it.
- The flag bit that ext4 keeps in `ee_len` for uninitialised extents is not
  interpreted. Neither is the C code: it uses `ee_len` as a plain 16-bit
  count.
- Two parts of `extent_get_pblock`'s loop are separate methods:
  - the depth-1 loop (extents.c:87-95) is `WalkIndexes`;
  - one pass of its body (extents.c:88-92) is `VisitChild`.

  The statements are the same and in the same order as in C.
- Repeating a lookup gives the same result; this holds by construction
  because `Resolve` is a function of the root, the block, the device
  contents and the block size. No lemma states it.
