/** Data model of the obdfilter lock value block (LVB) cache: the attribute
    record a lock resource carries, the inode it is filled from, and the
    outcomes of the resolver that maps a resource name to an inode. */
module LvbTypes {

  /** The width of every `ost_lvb` field and of the inode attributes read into it. */
  newtype u64 = x: int | 0 <= x < 0x1_0000_0000_0000_0000

  /** Kernel error numbers used by the value-block operations (returned negated). */
  const ENOENT: int := 2
  const ENOMEM: int := 12

  /** An error pointer's code as `PTR_ERR` decodes it: a negative errno. */
  type Errno = e: int | -4095 <= e <= -1 witness -1

  datatype Option<T> = None | Some(value: T)

  function Max(a: u64, b: u64): u64
  {
    if a >= b then a else b
  }

  /** The four attributes that follow the increase-only merge rule. */
  datatype Attrs = Attrs(size: u64, mtime: u64, atime: u64, ctime: u64)

  /** Pointwise maximum of two attribute sets: the reference for increase-only merging. */
  function AttrMax(a: Attrs, b: Attrs): Attrs
  {
    Attrs(Max(a.size, b.size), Max(a.mtime, b.mtime), Max(a.atime, b.atime), Max(a.ctime, b.ctime))
  }

  /** No attribute of `a` lies behind the same attribute of `b`. */
  predicate NotBehind(a: Attrs, b: Attrs)
  {
    a.size >= b.size && a.mtime >= b.mtime && a.atime >= b.atime && a.ctime >= b.ctime
  }

  /** The `lvb_blocks` field. Besides a block count it can hold the error
      sentinel that initialisation writes when the object has no inode; how
      that sentinel is packed into 64 bits is not part of this model, so it
      is kept as a value distinct from every count. */
  datatype Blocks = Count(n: u64) | ErrSentinel(rc: int)

  /** The cached record (`struct ost_lvb`) attached to a lock resource. */
  datatype Lvb = Lvb(attrs: Attrs, blocks: Blocks)

  /** The record as freshly allocated: all fields zero. */
  const ZeroLvb: Lvb := Lvb(Attrs(0, 0, 0, 0), Count(0))

  /** An `ost_lvb` decoded from a reply buffer, including its `blocks` field. */
  datatype WireLvb = WireLvb(size: u64, mtime: u64, atime: u64, ctime: u64, blocks: u64)

  function WireAttrs(w: WireLvb): Attrs
  {
    Attrs(w.size, w.mtime, w.atime, w.ctime)
  }

  /** A held inode reference. */
  type Handle = nat

  /** What the update reads from an inode: `i_size`, the seconds of the three
      timestamps, `i_blocks` and the link count. */
  datatype Inode = Inode(size: u64, mtime: u64, atime: u64, ctime: u64, blocks: u64, nlink: nat)

  function InodeAttrs(i: Inode): Attrs
  {
    Attrs(i.size, i.mtime, i.atime, i.ctime)
  }

  /** The current metadata of every inode, at the moment of one call. */
  type Stat = Handle -> Inode

  /** The outcome of resolving the resource's object id to a dentry:
      an error pointer, a negative dentry, or a dentry with an inode. */
  datatype Lookup = LookupErr(rc: Errno) | NoInode | Found(h: Handle)

  /** The resource's `lr_lvb_data` pointer: null, pointing at a live record,
      or still set after teardown released the memory it points to. */
  datatype Slot = NoData | Data(lvb: Lvb) | Released

  /** The parts of an `ldlm_resource` the value-block operations touch:
      `lr_lvb_data` and the cached `lr_lvb_inode`. */
  datatype Resource = Resource(slot: Slot, inode: Option<Handle>)

  /** The new resource state and the integer return code of one call. */
  datatype Outcome = Outcome(res: Resource, rc: int)

  /** The reply argument of an update: absent, present but failing to
      decode, or decoded into a record. */
  datatype NetInput = NoRequest | SwabFailed | Swabbed(reply: WireLvb)
}
