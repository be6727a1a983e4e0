/** Properties of the value-block operations that relate several calls, or
    one call under different inputs. */
module LvbProperties {
  import opened LvbTypes
  import opened FilterLvb

  /** Init is idempotent: once a call has attached a record, any later init
      (whatever the allocator, the resolver or the disk would say) returns 0
      and changes nothing. */
  lemma InitIdempotent(res: Resource, alloc1: bool, lookup1: Lookup, stat1: Stat,
                       alloc2: bool, lookup2: Lookup, stat2: Stat)
    requires Init(res, alloc1, lookup1, stat1).res.slot.Data?
    ensures var r1 := Init(res, alloc1, lookup1, stat1).res;
            Init(r1, alloc2, lookup2, stat2) == Outcome(r1, 0)
  {
  }

  /** Init on a resource that has a record performs no lookup: its outcome
      does not depend on the resolver, the allocator or the inode metadata. */
  lemma InitIgnoresResolverWhenPresent(res: Resource, alloc1: bool, lookup1: Lookup, stat1: Stat,
                                       alloc2: bool, lookup2: Lookup, stat2: Stat)
    requires !res.slot.NoData?
    ensures Init(res, alloc1, lookup1, stat1) == Init(res, alloc2, lookup2, stat2)
  {
  }

  /** A reply that fails to decode skips the network phase only: the call
      behaves exactly as one made without a reply. */
  lemma SwabFailureSkipsOnlyNetworkPhase(res: Resource, increaseOnly: bool, lookup: Lookup, stat: Stat)
    requires !res.slot.Released?
    ensures Update(res, SwabFailed, increaseOnly, lookup, stat) == Update(res, NoRequest, increaseOnly, lookup, stat)
  {
  }

  /** The attributes a reply contributes, if it was decoded. */
  function ReplyAttrs(cached: Attrs, net: NetInput): Attrs
  {
    if net.Swabbed? then AttrMax(cached, WireAttrs(net.reply)) else cached
  }

  /** Under increase-only, a successful update leaves each of the four
      attributes at the largest of the cached, reply and disk values. */
  lemma IncreaseOnlyUpdateIsMaximum(res: Resource, net: NetInput, lookup: Lookup, stat: Stat)
    requires res.slot.Data?
    requires DiskReached(res.inode, lookup, stat)
    ensures var o := Update(res, net, true, lookup, stat);
            o.rc == 0 && o.res.inode.Some? &&
            o.res.slot.lvb.attrs ==
              AttrMax(ReplyAttrs(res.slot.lvb.attrs, net), InodeAttrs(stat(o.res.inode.value)))
  {
  }

  /** The return code, the cached inode and `blocks` do not depend on
      `increase_only`: the flag governs the four merged attributes only. */
  lemma IncreaseOnlyAffectsOnlyAttrs(res: Resource, net: NetInput, lookup: Lookup, stat: Stat)
    requires res.slot.Data?
    ensures var t := Update(res, net, true, lookup, stat);
            var f := Update(res, net, false, lookup, stat);
            t.rc == f.rc && t.res.inode == f.res.inode && t.res.slot.lvb.blocks == f.res.slot.lvb.blocks
  {
  }

  /** Initialising from a live inode and then updating without a reply
      against the same disk state changes nothing and succeeds: init and the
      disk phase agree on what the record should hold. */
  lemma InitIsFixpointOfUpdate(res: Resource, lookup: Lookup, stat: Stat, increaseOnly: bool, later: Lookup)
    requires res.slot.NoData? && lookup.Found? && stat(lookup.h).nlink > 0
    ensures var r := Init(res, true, lookup, stat).res;
            Update(r, NoRequest, increaseOnly, later, stat) == Outcome(r, 0)
  {
  }

  /** A resource whose init found no inode is not stuck: a later update that
      resolves a live inode caches it, succeeds and replaces the error
      sentinel in `blocks` with the inode's block count. */
  lemma UpdateRecoversFromInitError(res: Resource, stat0: Stat, net: NetInput, increaseOnly: bool,
                                    lookup: Lookup, stat: Stat)
    requires res.slot.NoData? && res.inode.None?
    requires lookup.Found? && stat(lookup.h).nlink > 0
    ensures var r := Init(res, true, NoInode, stat0);
            r.rc == -ENOENT && r.res.slot.lvb.blocks.ErrSentinel? &&
            var o := Update(r.res, net, increaseOnly, lookup, stat);
            o.rc == 0 && o.res.inode == Some(lookup.h) &&
            o.res.slot.lvb.blocks == Count(stat(lookup.h).blocks)
  {
  }

  /** An update never looks an inode up again once one is cached. If that
      inode has lost its last link, every update fails with -ENOENT and
      keeps it, whatever a fresh lookup would have found. */
  lemma UnlinkedCachedInodeIsKept(res: Resource, h: Handle, net: NetInput, increaseOnly: bool,
                                  lookup: Lookup, stat: Stat)
    requires res.slot.Data? && res.inode == Some(h) && stat(h).nlink == 0
    ensures var o := Update(res, net, increaseOnly, lookup, stat);
            o.rc == -ENOENT && o.res.inode == Some(h) &&
            o.res.slot.lvb == NetPhase(res.slot.lvb, net, increaseOnly)
  {
  }

  /** Teardown is not idempotent: the data pointer survives it, so a second
      teardown frees the same record again. */
  lemma FreeTwiceFreesTwice(res: Resource)
    requires res.slot.Data?
    ensures Free(res).freesData && Free(Free(res).res).freesData
  {
  }

  /** Teardown after an init that allocated releases the record, whether or
      not the lookup succeeded, and puts back exactly the inode init cached. */
  lemma FreeReleasesWhatInitAttached(res: Resource, lookup: Lookup, stat: Stat)
    requires res.slot.NoData? && res.inode.None?
    ensures var r := Init(res, true, lookup, stat).res;
            Free(r).freesData && Free(r).put == (if lookup.Found? then Some(lookup.h) else None)
  {
  }

  /** One update call as the lock manager or the filter issues it, with the
      resolver outcome and the disk state at that moment. */
  datatype Call = Call(net: NetInput, increaseOnly: bool, lookup: Lookup, stat: Stat)

  /** The resource after a sequence of update calls, applied in order. */
  function Replay(res: Resource, calls: seq<Call>): (r: Resource)
    requires !res.slot.Released?
    ensures !r.slot.Released?
    ensures r.slot.Data? <==> res.slot.Data?
    decreases |calls|
  {
    if |calls| == 0 then res
    else
      var c := calls[0];
      Replay(Update(res, c.net, c.increaseOnly, c.lookup, c.stat).res, calls[1..])
  }

  /** Once an inode is cached it stays cached across any sequence of
      updates, whatever the lookups in between yield. */
  lemma {:induction false} ReplayKeepsCachedInode(res: Resource, h: Handle, calls: seq<Call>)
    requires !res.slot.Released? && res.inode == Some(h)
    ensures Replay(res, calls).inode == Some(h)
    decreases |calls|
  {
    if |calls| > 0 {
      var c := calls[0];
      ReplayKeepsCachedInode(Update(res, c.net, c.increaseOnly, c.lookup, c.stat).res, h, calls[1..]);
    }
  }

  /** Monotonicity across calls: when every call of a sequence passes
      increase-only, none of size, mtime, atime and ctime ends behind where
      it started, whatever replies arrive, whichever lookups fail and
      however the disk changes in between. */
  lemma {:induction false} ReplayIncreaseOnlyMonotone(res: Resource, calls: seq<Call>)
    requires res.slot.Data?
    requires forall i :: 0 <= i < |calls| ==> calls[i].increaseOnly
    ensures Replay(res, calls).slot.Data?
    ensures NotBehind(Replay(res, calls).slot.lvb.attrs, res.slot.lvb.attrs)
    decreases |calls|
  {
    if |calls| > 0 {
      var c := calls[0];
      var next := Update(res, c.net, c.increaseOnly, c.lookup, c.stat).res;
      assert c.increaseOnly;
      assert forall i :: 0 <= i < |calls[1..]| ==> calls[1..][i].increaseOnly by {
        forall i | 0 <= i < |calls[1..]| ensures calls[1..][i].increaseOnly {
          assert calls[1..][i] == calls[i + 1];
        }
      }
      ReplayIncreaseOnlyMonotone(next, calls[1..]);
    }
  }
}
