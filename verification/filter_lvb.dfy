/** The three value-block operations obdfilter registers with the lock
    manager: lazy initialisation from the backing inode, the two-phase
    update (reply buffer, then disk inode), and teardown. Each is one atomic
    step over an immutable resource state; the resolver, the inode
    metadata, the decoded reply and the allocator's success are inputs. */
module FilterLvb {
  import opened LvbTypes

  /** The per-field rule of both update phases: the candidate overwrites the
      cached value iff it is larger or `increase_only` is off. */
  function Pick(cand: u64, cur: u64, increaseOnly: bool): (r: u64)
    ensures increaseOnly ==> r == Max(cand, cur)
    ensures !increaseOnly ==> r == cand
    ensures r != cur <==> (cand != cur && (cand > cur || !increaseOnly))
  {
    if cand > cur || !increaseOnly then cand else cur
  }

  /** The rule applied to size, mtime, atime and ctime in turn. */
  function MergeAttrs(cur: Attrs, cand: Attrs, increaseOnly: bool): (r: Attrs)
    ensures increaseOnly ==> r == AttrMax(cur, cand)
    ensures !increaseOnly ==> r == cand
  {
    Attrs(Pick(cand.size, cur.size, increaseOnly),
          Pick(cand.mtime, cur.mtime, increaseOnly),
          Pick(cand.atime, cur.atime, increaseOnly),
          Pick(cand.ctime, cur.ctime, increaseOnly))
  }

  /** `inode_init_lvb`: every field of a fresh record from the inode. */
  function LvbFromInode(i: Inode): Lvb
  {
    Lvb(InodeAttrs(i), Count(i.blocks))
  }

  /** The network phase: a decoded reply is merged into the four attributes;
      an absent or undecodable reply changes nothing. `blocks` is never taken
      from the reply. */
  function NetPhase(lvb: Lvb, net: NetInput, increaseOnly: bool): (r: Lvb)
    ensures r.blocks == lvb.blocks
    ensures !net.Swabbed? ==> r == lvb
    ensures net.Swabbed? && increaseOnly ==> r.attrs == AttrMax(lvb.attrs, WireAttrs(net.reply))
    ensures net.Swabbed? && !increaseOnly ==> r.attrs == WireAttrs(net.reply)
  {
    match net
    case Swabbed(w) => Lvb(MergeAttrs(lvb.attrs, WireAttrs(w), increaseOnly), lvb.blocks)
    case _ => lvb
  }

  /** The merge step of the disk phase, reached once a live inode is in hand:
      the four attributes under the rule, and `blocks` copied whatever
      `increase_only` says. */
  function DiskMerge(lvb: Lvb, i: Inode, increaseOnly: bool): (r: Lvb)
    ensures r.blocks == Count(i.blocks)
    ensures increaseOnly ==> r.attrs == AttrMax(lvb.attrs, InodeAttrs(i))
    ensures !increaseOnly ==> r.attrs == InodeAttrs(i)
  {
    Lvb(MergeAttrs(lvb.attrs, InodeAttrs(i), increaseOnly), Count(i.blocks))
  }

  /** The inode the disk phase works on, and the one cached on the resource
      afterwards: the cached inode if there is one, else the inode a fresh
      lookup found, if any. */
  function DiskInode(cached: Option<Handle>, lookup: Lookup): Option<Handle>
  {
    if cached.Some? then cached
    else if lookup.Found? then Some(lookup.h)
    else None
  }

  /** The disk phase runs to its end: a live inode (one with links) is available. */
  predicate DiskReached(cached: Option<Handle>, lookup: Lookup, stat: Stat)
  {
    var i := DiskInode(cached, lookup);
    i.Some? && stat(i.value).nlink > 0
  }

  /** `filter_lvbo_init`, called with the resource's semaphore held.
      `allocOk` is whether allocating the record succeeds; `lookup` is what
      resolving the object id yields. */
  function Init(res: Resource, allocOk: bool, lookup: Lookup, stat: Stat): (o: Outcome)
    // A resource that already has a record is left exactly as it was.
    ensures !res.slot.NoData? ==> o == Outcome(res, 0)
    // An allocation failure reports -ENOMEM and attaches nothing.
    ensures res.slot.NoData? && !allocOk ==> o == Outcome(res, -ENOMEM)
    // Once allocated, the record stays attached whatever the lookup did.
    ensures res.slot.NoData? && allocOk ==> o.res.slot.Data?
    ensures res.slot.NoData? && allocOk && lookup.LookupErr? ==>
              o == Outcome(Resource(Data(ZeroLvb), res.inode), lookup.rc)
    ensures res.slot.NoData? && allocOk && lookup.NoInode? ==>
              o == Outcome(Resource(Data(Lvb(ZeroLvb.attrs, ErrSentinel(-ENOENT))), res.inode), -ENOENT)
    ensures res.slot.NoData? && allocOk && lookup.Found? ==>
              o.rc == 0 && o.res.inode == Some(lookup.h) &&
              o.res.slot.lvb.attrs == InodeAttrs(stat(lookup.h)) &&
              o.res.slot.lvb.blocks == Count(stat(lookup.h).blocks)
    // Success and failure are told apart by the return code alone.
    ensures o.rc == 0 <==> (!res.slot.NoData? || (allocOk && lookup.Found?))
  {
    if !res.slot.NoData? then Outcome(res, 0)
    else if !allocOk then Outcome(res, -ENOMEM)
    else
      match lookup
      case LookupErr(rc) => Outcome(Resource(Data(ZeroLvb), res.inode), rc)
      case NoInode => Outcome(Resource(Data(Lvb(ZeroLvb.attrs, ErrSentinel(-ENOENT))), res.inode), -ENOENT)
      case Found(h) => Outcome(Resource(Data(LvbFromInode(stat(h))), Some(h)), 0)
  }

  /** `filter_lvbo_update` as one step under the resource's semaphore.
      `lookup` is consulted only when no inode is cached; `stat` gives the
      inode metadata the disk phase reads. A resource whose record has been
      released by teardown must not be updated. */
  function Update(res: Resource, net: NetInput, increaseOnly: bool, lookup: Lookup, stat: Stat): (o: Outcome)
    requires !res.slot.Released?
    // Without a record the call is a successful no-op.
    ensures res.slot.NoData? ==> o == Outcome(res, 0)
    // The record is never attached, detached or released here.
    ensures o.res.slot.Data? <==> res.slot.Data?
    ensures !o.res.slot.Released?
    // A cached inode is kept and the lookup is not consulted; without one,
    // a found inode becomes the cached one and anything else caches nothing.
    ensures res.slot.Data? && res.inode.Some? ==> o.res.inode == res.inode
    ensures res.slot.Data? && res.inode.None? ==>
              o.res.inode == (if lookup.Found? then Some(lookup.h) else None)
    // Increase-only: none of the four attributes moves backwards, success or not.
    ensures res.slot.Data? && increaseOnly ==> NotBehind(o.res.slot.lvb.attrs, res.slot.lvb.attrs)
    // Success exactly when the inode left cached has links.
    ensures res.slot.Data? ==>
              (o.rc == 0 <==> o.res.inode.Some? && stat(o.res.inode.value).nlink > 0)
    // A failed re-lookup returns the lookup's own error ...
    ensures res.slot.Data? && res.inode.None? && lookup.LookupErr? ==> o.rc == lookup.rc
    // ... every other failure is -ENOENT ...
    ensures res.slot.Data? && o.rc != 0 && !(res.inode.None? && lookup.LookupErr?) ==> o.rc == -ENOENT
    // ... and a failed disk phase keeps what the network phase wrote.
    ensures res.slot.Data? && o.rc != 0 ==> o.res.slot.lvb == NetPhase(res.slot.lvb, net, increaseOnly)
    // A completed disk phase syncs blocks unconditionally ...
    ensures res.slot.Data? && o.rc == 0 ==>
              o.res.slot.lvb.blocks == Count(stat(o.res.inode.value).blocks)
    // ... and, without increase-only, leaves exactly the disk attributes.
    ensures res.slot.Data? && o.rc == 0 && !increaseOnly ==>
              o.res.slot.lvb.attrs == InodeAttrs(stat(o.res.inode.value))
  {
    if res.slot.NoData? then Outcome(res, 0)
    else
      var lvb1 := NetPhase(res.slot.lvb, net, increaseOnly);
      var inode := DiskInode(res.inode, lookup);
      if res.inode.None? && lookup.LookupErr? then
        Outcome(Resource(Data(lvb1), inode), lookup.rc)
      else if inode.None? || stat(inode.value).nlink == 0 then
        Outcome(Resource(Data(lvb1), inode), -ENOENT)
      else
        Outcome(Resource(Data(DiskMerge(lvb1, stat(inode.value), increaseOnly)), inode), 0)
  }

  /** What teardown does besides returning its code: the inode reference it
      puts back and whether it frees the memory `lr_lvb_data` points to. */
  datatype Teardown = Teardown(res: Resource, rc: int, put: Option<Handle>, freesData: bool)

  /** `filter_lvbo_free`. The cached inode is put and cleared; the record is
      freed, but the data pointer is not cleared. */
  function Free(res: Resource): (t: Teardown)
    ensures t.rc == 0
    ensures t.put == res.inode && t.res.inode.None?
    ensures t.freesData <==> !res.slot.NoData?
    // The pointer stays set: a freed record is not reported as absent.
    ensures t.res.slot.NoData? <==> res.slot.NoData?
    ensures !t.res.slot.Data?
  {
    Teardown(Resource(if res.slot.NoData? then NoData else Released, None),
             0, res.inode, !res.slot.NoData?)
  }
}
