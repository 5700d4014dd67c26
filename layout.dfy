/** The block header and the constants of the suballocator (allocator.c:17-35). */
module Layout {

  /** sizeof(struct free_list_header): four 32-bit fields. */
  const HEADER_SIZE: nat := 16
  /** Tag of a block on the free list. */
  const MAGIC_FREE: nat := 0xDEAD_BEEF
  /** Tag of a block handed out to a caller. */
  const MAGIC_ALLOC: nat := 0xBEEF_DEAD
  /** The largest 32-bit unsigned value; sal_init refuses it as a size. */
  const MAX_SIZE: nat := 0xFFFF_FFFF
  /** What -1 becomes in a 32-bit link field: the links of an allocated block. */
  const NO_LINK: nat := 0xFFFF_FFFF
  /** Largest arena whose doubling loop does not wrap a 32-bit counter. */
  const MAX_ARENA: nat := 0x8000_0000

  /** A block header as stored at the block's lowest address; next and prev are
      byte offsets into the arena. */
  datatype Header = Header(magic: nat, size: nat, next: nat, prev: nat)

  /** A zeroed header, as merge leaves behind in the absorbed half. */
  const ZERO_HEADER: Header := Header(0, 0, 0, 0)

  /** A pointer handed to or returned by the allocator: NULL, or an address
      given as a byte offset from the start of the arena. */
  datatype Ptr = Null | Payload(addr: int)
}
