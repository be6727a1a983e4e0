# Lustre obdfilter lock value block cache, modelled in Dafny

Every lock resource of an object storage target carries a lock value block
(LVB). This is a small `ost_lvb` record holding the object's size, mtime,
atime, ctime and block count. Remote lock holders can then glimpse the
object's attributes without reading it. `lustre/obdfilter/filter_lvb.c`
registers three value-block operations with the lock manager:

- `filter_lvbo_init` lazily allocates the record and fills it from the
  backing inode.
- `filter_lvbo_update` merges attributes in two phases. It first takes them
  from a decoded reply buffer, if one is given and decodes. It then takes
  them from the on-disk inode, which it may have to look up again. Size and
  the three timestamps follow one rule: the candidate overwrites the cached
  value iff it is larger or `increase_only` is off. `blocks` is always copied
  from disk.
- `filter_lvbo_free` puts the cached inode back and frees the record.

The model is functional. A resource is an immutable `Resource` value. It
holds the `lr_lvb_data` pointer as a `Slot`, which is null, a live record,
or released memory. It also holds the cached `lr_lvb_inode` as an optional
handle. Each operation is a pure function returning the new resource and
the C return code (`0`, `-ENOENT`, `-ENOMEM` or the lookup's error). Its
collaborators are inputs:

- the allocator's success (`allocOk`);
- the outcome of `filter_fid2dentry` (`Lookup`: an error code, a dentry with
  no inode, or an inode handle);
- the current inode metadata (`Stat`, a function from handle to size, times,
  blocks and link count);
- the decoded reply (`NetInput`: none, decoding failed, or a decoded
  `ost_lvb`).

Modules:

- `LvbTypes` (`lvb_types.dfy`) holds the data model and the reference
  definitions `Max`, `AttrMax` and `NotBehind`.
- `FilterLvb` (`filter_lvb.dfy`) holds the three operations and the phases
  of the update.
- `LvbProperties` (`lvb_properties.dfy`) holds lemmas relating several calls,
  or one call under different inputs, including monotonicity over any
  sequence of increase-only updates.

`filter_lvbo_free` frees `lr_lvb_data` without clearing it (lines 63-64).
After it, the pointer is non-null and dangling, and a second call would
free the record again. The model keeps the slot as `Released`, and
`FreeTwiceFreesTwice` states the consequence. `Update` requires that the
slot is not `Released`, since using the record after teardown is undefined.
`Init` on a released slot returns 0 and changes nothing, because the code
tests only the pointer.

The error sentinel is written into `blocks` only when the lookup yields a
dentry without an inode (lines 106-108 and 123-124). A lookup error returns
early and leaves the record zeroed (lines 99-104).

## Model

| member | source | states |
|---|---|---|
| FilterLvb.Pick | lustre/obdfilter/filter_lvb.c:165-170 | One field's merge: under increase-only the result is the maximum of candidate and cached value; otherwise it is the candidate. The value changes iff the candidate differs and is larger or increase-only is off, so ties never write. |
| FilterLvb.MergeAttrs | lustre/obdfilter/filter_lvb.c:165-188 | Size, mtime, atime and ctime merged together: the pointwise maximum under increase-only, otherwise exactly the candidates. |
| FilterLvb.NetPhase | lustre/obdfilter/filter_lvb.c:154-189 | The reply phase never touches `blocks`. It ignores the reply's own `blocks` field. An absent or undecodable reply leaves the record unchanged. A decoded reply is merged by the rule. |
| FilterLvb.DiskMerge | lustre/obdfilter/filter_lvb.c:212-242 | Once a live inode is in hand, `blocks` becomes the inode's block count whatever increase-only says. The four attributes become the pointwise maximum with the inode's values, or exactly those values without increase-only. |
| LvbProperties.UnlinkedCachedInodeIsKept | lustre/obdfilter/filter_lvb.c:196-210 | A cached inode is never looked up again. If it has no links, every update returns -ENOENT, keeps that inode cached whatever the lookup would yield, and keeps the reply-phase writes. |
| LvbProperties.ReplayKeepsCachedInode | lustre/obdfilter/filter_lvb.c:196-207 | Once an inode is cached, it stays cached across any sequence of updates, whatever their lookups yield. |
| FilterLvb.Init | lustre/obdfilter/filter_lvb.c:70-127 | An existing record means return 0 with nothing changed. Allocation failure returns -ENOMEM with nothing attached. Once the record is allocated, it stays attached on every path. A lookup error returns that error with a zeroed record. No inode returns -ENOENT with the error sentinel in `blocks`. A found inode fills all five fields and is cached. The code is 0 exactly in the record-present and found cases. |
| FilterLvb.Update | lustre/obdfilter/filter_lvb.c:136-247 | With no record it returns 0 and changes nothing, and it never attaches or frees a record. A cached inode is kept as it is; without one, a found inode becomes cached and a lookup error or a dentry with no inode caches nothing. Under increase-only no attribute moves backwards. The code is 0 iff the inode left cached has links. A failed re-lookup, with no inode cached, returns the lookup's own error; every other failure (no inode found, or an inode without links) returns -ENOENT; on any failure the reply-phase writes are kept. On success `blocks` equals the inode's count, and without increase-only the attributes equal the inode's. |
| FilterLvb.Free | lustre/obdfilter/filter_lvb.c:57-67 | It returns 0, puts back exactly the cached inode and clears it. It frees the record iff the pointer was set. The pointer is not cleared, so a freed record is never reported as absent. |
| LvbProperties.InitIdempotent | lustre/obdfilter/filter_lvb.c:81-82 | Once an init has attached a record, every later init returns 0 and leaves the resource unchanged. This holds whatever allocator, resolver or disk it sees. |
| LvbProperties.InitIgnoresResolverWhenPresent | lustre/obdfilter/filter_lvb.c:81-82 | Init on a resource with a record does no lookup: its outcome is the same under any resolver, allocator or inode metadata. |
| LvbProperties.SwabFailureSkipsOnlyNetworkPhase | lustre/obdfilter/filter_lvb.c:159-164 | An update whose reply fails to decode is identical, in state and code, to one made with no reply. The disk phase still runs. |
| LvbProperties.IncreaseOnlyUpdateIsMaximum | lustre/obdfilter/filter_lvb.c:165-236 | An increase-only update that reaches a live inode returns 0. Each attribute ends at the maximum of the cached value, the decoded reply's value (if any) and the value of the inode left cached. |
| LvbProperties.IncreaseOnlyAffectsOnlyAttrs | lustre/obdfilter/filter_lvb.c:237-242 | The return code, the cached inode and `blocks` are the same whether `increase_only` is on or off. |
| LvbProperties.InitIsFixpointOfUpdate | lustre/obdfilter/filter_lvb.c:110-117 | After an init from a live inode, an update without a reply against the same disk state succeeds and changes nothing, so init and the disk phase agree. |
| LvbProperties.UpdateRecoversFromInitError | lustre/obdfilter/filter_lvb.c:196-210 | Suppose init found no inode and left the sentinel and -ENOENT. A later update whose lookup finds a live inode then caches it, returns 0 and replaces the sentinel with the inode's block count. |
| LvbProperties.FreeTwiceFreesTwice | lustre/obdfilter/filter_lvb.c:63-64 | Teardown is not idempotent: after one teardown of a resource with a record, a second teardown frees it again. |
| LvbProperties.FreeReleasesWhatInitAttached | lustre/obdfilter/filter_lvb.c:57-64 | After an init that allocated, whatever the lookup did, teardown frees the record. It puts back exactly the inode init cached, or none. |
| LvbProperties.Replay | lustre/obdfilter/filter_lvb.c:147-152 | Over any sequence of updates, the record is neither attached nor released. |
| LvbProperties.ReplayIncreaseOnlyMonotone | lustre/obdfilter/filter_lvb.c:129-135 | Across any sequence of increase-only updates, none of size, mtime, atime and ctime ends behind its starting value. Replies, lookup failures and disk changes between the calls do not matter. |

## Left out

- `lustre/utils/gss/lsupport.h` holds only constants, structure layouts and prototypes for the GSS identity-mapping upcall. There is no logic to model.
- `lustre/lvfs/lvfs_darwin.c` holds context-switch stubs that always `LBUG()`, empty module init and exit, and a diagnostic allocation counter. None of it is part of the value-block logic.
- The `lr_lvb_sem` semaphore and concurrency: each update is one atomic step, so interleavings of concurrent calls are not modelled.
- Inode reference counting (`igrab`, `iput`, `f_dput`) is not modelled. A handle stands for a held reference, and `igrab` is taken to always succeed. The reference `Init` overwrites when a resource already caches an inode is not tracked.
- `filter_fid2dentry`, the namespace's `ns_lvbp` device and the resource name are not modelled. The lookup's outcome is an input.
- `lustre_swab_repbuf` and `lustre_swab_ost_lvb` (byte-order decoding) are not modelled, and neither is `buf_idx`. The decode result is an input.
- The bit layout of `OST_LVB_SET_ERR` is not part of this model. The sentinel is a `Blocks` value distinct from every block count, carrying the error code.
- `inode_init_lvb` is not part of this model. It is taken to copy size, the three timestamps and the block count from the inode.
- `CDEBUG` and `CERROR` logging (including the error logged when an update finds no record) and the `LASSERT` checks are not modelled.
- `LTIME_S` time conversion, and the signed type of `i_size`, are not modelled: every value is an unsigned 64-bit integer.
- `lr_lvb_len` is not modelled, since it is always the record's size.
- FilterLvb.Update: an update after teardown is not modelled (it requires that the record has not been released), because the code would then read and write freed memory.
