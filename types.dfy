/** Fixed-width unsigned integers, the wrapping 32-bit arithmetic the C code
    performs, and the decoded records of an ext4 extent tree. */
module Ext4Types {

  type u8 = x: int | 0 <= x < 0x100
  type u16 = x: int | 0 <= x < 0x1_0000
  type u32 = x: int | 0 <= x < 0x1_0000_0000
  type u64 = x: int | 0 <= x < 0x1_0000_0000_0000_0000

  const Modulus32: int := 0x1_0000_0000

  /** `a + b` on two `uint32_t` operands: the sum wraps modulo 2^32. */
  function Add32(a: u32, b: u32): (r: u32)
    ensures a + b < Modulus32 ==> r == a + b
    ensures a + b >= Modulus32 ==> r == a + b - Modulus32
  {
    (a + b) % Modulus32
  }

  /** `a - b` on two `uint32_t` operands: the difference wraps modulo 2^32,
      and adding `b` back gives `a` again. */
  function Sub32(a: u32, b: u32): (r: u32)
    ensures b <= a ==> r == a - b
    ensures a < b ==> r == a - b + Modulus32
    ensures Add32(b, r) == a
  {
    (a - b) % Modulus32
  }

  datatype Option<T> = None | Some(value: T)

  /** The signature every extent-tree node header carries (EXT4_EXT_MAGIC). */
  const ExtMagic: u16 := 0xF30A

  /** Sizes in bytes of the on-disk records. */
  const HeaderSize: nat := 12
  const EntrySize: nat := 12

  /** The root node kept inside the inode holds a header and four entries. */
  const RootCapacity: nat := 4
  const RootSize: nat := HeaderSize + RootCapacity * EntrySize

  /** struct ext4_extent_header */
  datatype Header = Header(magic: u16, entries: u16, max: u16, depth: u16, generation: u32)

  /** struct ext4_extent: a leaf entry mapping `len` logical blocks from
      `block` onwards to physical blocks from `startHi:startLo` onwards. */
  datatype Extent = Extent(block: u32, len: u16, startHi: u16, startLo: u32)

  /** struct ext4_extent_idx: an index entry naming the device block
      `leafHi:leafLo` that holds the child node. */
  datatype Index = Index(block: u32, leafLo: u32, leafHi: u16, unused: u16)

  /** One kind per ASSERT of the C code that can fail. */
  datatype Fault =
    | BadMagic        // root header magic differs from EXT4_EXT_MAGIC
    | TooManyEntries  // root header claims more than four entries
    | BadDepth        // root depth is neither 0 nor 1
    | ExtentHighSet   // a scanned extent has a nonzero ee_start_hi
    | IndexHighSet    // a visited index entry has a nonzero ei_leaf_hi
    | ChildNotLeaf    // a child block's header depth is not 0

  /** What a call ends with: a hard stop, or the returned block number
      (0 doubles as "no mapping") together with the last value written
      through the `extent` out-pointer (None when nothing was written). */
  datatype Outcome =
    | Corrupt(fault: Fault)
    | Returned(pblock: u64, extent: Option<u32>)

  /** One device read: `length` bytes from byte `offset`. */
  datatype ReadOp = ReadOp(offset: nat, length: nat)
}
