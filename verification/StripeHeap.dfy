/** struct jraid5_conf in memory: stripes linked into the hash table and the two lists. Every method
    is one section under device_lock and refines the function of the same name in StripeCore. */
module StripeHeap {
  import opened AddressMap
  import opened Lists
  import opened LruList
  import opened StripeCore
  import opened HashChain
  import opened HashTable
  import opened StripeLists

  /** The second half of __release_stripe, when the count has dropped to zero. */
  ghost function Settled(c: Core<StripeHead>, id: StripeHead): (Core<StripeHead>, bool)
    requires id in c.stripes
  {
    var seen := c.(fired := c.fired + Check(!Unlisted(c, id), 70) + Check(c.active == 0, 74));
    if c.stripes[id].handle then (seen.(handleList := c.handleList + [id]), false)
    else (seen.(inactive := c.inactive + [id], active := c.active - 1), true)
  }

  lemma ReleaseInTwo(c: Core<StripeHead>, id: StripeHead, down: Core<StripeHead>)
    requires id in c.stripes
    requires down == c.(stripes := c.stripes[id := c.stripes[id].(count := c.stripes[id].count - 1)])
    ensures StripeCore.Release(c, id) == if c.stripes[id].count != 1 then (down, false) else Settled(down, id)
  {}

  lemma WithoutFirst(c: Core<StripeHead>, id: StripeHead)
    requires c.inactive != [] && c.inactive[0] == id && id !in c.handleList
    ensures var off := c.(inactive := Without(c.inactive, id), handleList := Without(c.handleList, id));
            StripeCore.TakeFree(c) == StripeCore.RemoveHash(off, id).(active := c.active + 1)
  {}

  /** The loop of __init_stripe over the device slots; busy says whether BUG() was met on the way. */
  method BuildBlocks(g: Geometry, devs: seq<Dev>, sector: nat, pd: nat) returns (built: seq<Dev>, busy: bool)
    requires g.Valid()
    ensures built == seq(|devs|, i requires 0 <= i < |devs| => BuildBlock(g, devs[i], sector, pd, i))
    ensures busy <==> !AllIdle(devs)
  {
    built, busy := devs, false;
    var i := |devs|;
    while i > 0
      invariant 0 <= i <= |devs| == |built|
      invariant forall j :: 0 <= j < i ==> built[j] == devs[j]
      invariant forall j :: i <= j < |devs| ==> built[j] == BuildBlock(g, devs[j], sector, pd, j)
      invariant busy <==> exists j :: i <= j < |devs| && !devs[j].Idle()
    {
      i := i - 1;
      busy := busy || !built[i].Idle();
      built := built[i := BuildBlock(g, built[i], sector, pd, i)];
    }
  }

  /** The stripe leaves the table, changes row and enters the table again. */
  ghost function Rehashed(c: Core<StripeHead>, id: StripeHead, sector: nat, pd: nat, devs: seq<Dev>): Core<StripeHead>
    requires id in c.stripes
  {
    var off := StripeCore.RemoveHash(c, id);
    var moved := off.(stripes := off.stripes[id := off.stripes[id].(sector := sector)]);
    var done := moved.(stripes := moved.stripes[id := moved.stripes[id].(pdIdx := pd, handle := false, devs := devs)]);
    done.(hash := done.hash[sector := id])
  }

  lemma InitInParts(g: Geometry, c: Core<StripeHead>, id: StripeHead, sector: nat, pd: nat, devs: seq<Dev>, busy: bool)
    requires g.Valid() && id in c.stripes
    requires devs == seq(|c.stripes[id].devs|, i requires 0 <= i < |c.stripes[id].devs| =>
                           BuildBlock(g, c.stripes[id].devs[i], sector, pd, i))
    requires busy <==> !AllIdle(c.stripes[id].devs)
    ensures var sh := c.stripes[id];
            var seen := c.(fired := c.fired + Check(sh.count != 0, 474) + Check(sh.handle, 476) + Check(busy, 497));
            StripeCore.InitStripe(g, c, id, sector, pd) == Rehashed(seen, id, sector, pd, devs)
  {}

  lemma SectorFree(c: Core<StripeHead>, id: StripeHead, sector: nat)
    requires id in c.stripes && (sector in c.hash ==> c.hash[sector] == id && c.stripes[id].sector == sector)
    ensures sector !in StripeCore.RemoveHash(c, id).hash
  {}

  lemma TakenInParts(c: Core<StripeHead>, id: StripeHead)
    requires c.handleList != [] && c.handleList[0] == id && id in c.stripes && id !in c.inactive
    ensures var off := c.(inactive := Without(c.inactive, id), handleList := Without(c.handleList, id));
            var held := off.(stripes := c.stripes[id := c.stripes[id].(count := c.stripes[id].count + 1)]);
            StripeCore.DaemonTake(c) == held.(fired := c.fired + Check(held.stripes[id].count != 1, 1225))
  {}

  /** What a caller sees of one turn of the loop: null, and an unchanged cache, stands for the outcomes
      that return NULL and that sleep. */
  ghost predicate Gives(g: Geometry, before: Core<StripeHead>, sector: nat, pd: nat, noblock: bool,
                        r: StripeHead?, after: Core<StripeHead>) {
    && g.Valid()
    && (forall k :: k in before.hash ==> before.hash[k] in before.stripes)
    && (forall id :: id in before.inactive ==> id in before.stripes)
    && match Body(g, before, sector, pd, noblock)
       case Got(id, c) => r == id && after == c
       case _ => r == null && after == before
  }

  class StripeCache {
    const g: Geometry
    const hash: Table
    const inactiveHead: ListNode<StripeHead?>
    const handleHead: ListNode<StripeHead?>
    var active: int
    ghost var live: set<StripeHead>
    ghost var core: Core<StripeHead>

    /** The memory represents the value c. */
    ghost predicate Represents(c: Core<StripeHead>)
      reads `active, `live, hash, hash.buckets, LruNodes(live), inactiveHead, handleHead, live
    {
      && g.Valid()
      && ListsOk(inactiveHead, handleHead, live, c.inactive, c.handleList)
      && hash.Within(live)
      && hash.table == c.hash
      && c.stripes.Keys == live && (forall sh :: sh in live ==> c.stripes[sh] == sh.Value())
      && active == c.active
    }

    ghost predicate Valid()
      reads this, hash, hash.buckets, LruNodes(live), inactiveHead, handleHead, live
    {
      Represents(core)
    }

    /** Adopts the value that describes the memory. */
    ghost method Adopt(c: Core<StripeHead>)
      requires Represents(c)
      modifies `core
      ensures Valid() && core == c
    {
      core := c;
    }

    /** The part of jraid5_run that sets up the table, the two lists and the counter. */
    constructor (g: Geometry)
      requires g.Valid()
      ensures Valid() && this.g == g && core == Core(map[], map[], [], [], 0, {})
      ensures fresh(hash) && fresh(hash.buckets) && fresh(inactiveHead) && fresh(handleHead)
    {
      this.g := g;
      hash := new Table();
      inactiveHead := new ListNode<StripeHead?>(null);
      handleHead := new ListNode<StripeHead?>(null);
      active, live, core := 0, {}, Core(map[], map[], [], [], 0, {});
      new;
      hash.CloseTable(live);
      CloseLists(inactiveHead, handleHead, live, [], []);
    }

    /** list_empty(&sh->lru). */
    lemma AloneIffUnlisted(sh: StripeHead)
      requires Valid() && sh in live
      ensures sh.lru.next == sh.lru <==> Unlisted(core, sh)
    {
      AloneIffOff(inactiveHead, handleHead, live, core.inactive, core.handleList, sh);
    }

    lemma NodesAllocated()
      ensures forall n :: n in LruNodes(live) ==> allocated(n)
    {}

    lemma Entry(sector: nat)
      requires Valid() && sector in core.hash
      ensures core.hash[sector] in live && core.hash[sector].sector == sector == core.stripes[core.hash[sector]].sector
    {
      hash.Entry(live, sector);
    }

    // ----- One change each

    /** list_add_tail(&sh->lru, &conf->inactive_list). */
    method AppendInactive(sh: StripeHead)
      requires Valid() && sh in live && Unlisted(core, sh)
      modifies `core, LruNodes(live)`next, LruNodes(live)`prev, inactiveHead`next, inactiveHead`prev
      ensures Valid() && core == old(core).(inactive := old(core).inactive + [sh])
    {
      Append(sh, inactiveHead, handleHead, live, core.inactive, core.handleList);
      Adopt(core.(inactive := core.inactive + [sh]));
    }

    /** list_add_tail(&sh->lru, &conf->handle_list). */
    method AppendHandle(sh: StripeHead)
      requires Valid() && sh in live && Unlisted(core, sh)
      modifies `core, LruNodes(live)`next, LruNodes(live)`prev, handleHead`next, handleHead`prev
      ensures Valid() && core == old(core).(handleList := old(core).handleList + [sh])
    {
      SwapLists(inactiveHead, handleHead, live, core.inactive, core.handleList);
      Append(sh, handleHead, inactiveHead, live, core.handleList, core.inactive);
      SwapLists(handleHead, inactiveHead, live, core.handleList + [sh], core.inactive);
      Adopt(core.(handleList := core.handleList + [sh]));
    }

    /** list_del_init(&sh->lru), whichever list the stripe is on. */
    method DelistHere(sh: StripeHead)
      requires Valid() && sh in live && !Unlisted(core, sh)
      modifies `core, LruNodes(live)`next, LruNodes(live)`prev,
               inactiveHead`next, inactiveHead`prev, handleHead`next, handleHead`prev
      ensures Valid()
      ensures core ==
        old(core).(inactive := Without(old(core).inactive, sh), handleList := Without(old(core).handleList, sh))
    {
      DelistEither(sh, inactiveHead, handleHead, live, core.inactive, core.handleList);
      Adopt(core.(inactive := Without(core.inactive, sh), handleList := Without(core.handleList, sh)));
    }

    /** remove_hash. */
    method RemoveHash(sh: StripeHead)
      requires Valid() && sh in live
      modifies `core, hash`chains, hash`table, hash`members, hash.buckets, live`hashNext, live`hashPprev
      ensures Valid() && core == StripeCore.RemoveHash(old(core), sh) && sh !in hash.members
    {
      NodesAllocated();
      hash.RemoveWithin(sh, live);
      Adopt(core.(hash := hash.table));
    }

    /** insert_hash. */
    method InsertHash(sh: StripeHead)
      requires Valid() && sh in live && sh !in hash.members && sh.sector !in core.hash
      modifies `core, hash`chains, hash`table, hash`members, hash.buckets, live`hashNext, live`hashPprev
      ensures Valid() && core == old(core).(hash := old(core).hash[sh.sector := sh])
    {
      NodesAllocated();
      hash.InsertWithin(sh, live);
      Adopt(core.(hash := hash.table));
    }

    method SetSector(sh: StripeHead, sector: nat)
      requires Valid() && sh in live && sh !in hash.members
      modifies `core, sh`sector
      ensures Valid() && sh.sector == sector
      ensures core == old(core).(stripes := old(core).stripes[sh := old(core).stripes[sh].(sector := sector)])
    {
      NodesAllocated();
      hash.SetSector(sh, sector, live);
      Adopt(core.(stripes := core.stripes[sh := sh.Value()]));
    }

    /** The other fields that __init_stripe sets. */
    method SetRow(sh: StripeHead, pd: nat, devs: seq<Dev>)
      requires Valid() && sh in live
      modifies `core, sh`pdIdx, sh`handle, sh`devs
      ensures Valid()
      ensures var was := old(core).stripes[sh];
              core == old(core).(stripes := old(core).stripes[sh := was.(pdIdx := pd, handle := false, devs := devs)])
    {
      NodesAllocated();
      sh.SetRow(pd, devs);
      Adopt(core.(stripes := core.stripes[sh := sh.Value()]));
    }

    /** atomic_inc and atomic_dec on sh->count. */
    method AddCount(sh: StripeHead, d: int)
      requires Valid() && sh in live
      modifies sh`count, `core
      ensures Valid() && sh.count == old(sh.count) + d
      ensures var was := old(core).stripes[sh];
              core == old(core).(stripes := old(core).stripes[sh := was.(count := was.count + d)])
    {
      sh.count := sh.count + d;
      Adopt(core.(stripes := core.stripes[sh := sh.Value()]));
    }

    /** atomic_inc and atomic_dec on active_stripes. */
    method AddActive(d: int)
      requires Valid()
      modifies `active, `core
      ensures Valid() && active == old(active) + d
      ensures core == old(core).(active := active)
    {
      active := active + d;
      Adopt(core.(active := active));
    }

    /** lines are the checks that have found their condition. */
    ghost method Note(lines: set<nat>)
      requires Valid()
      modifies `core
      ensures Valid() && core == old(core).(fired := old(core).fired + lines)
    {
      Adopt(core.(fired := core.fired + lines));
    }

    // ----- The locked sections

    /** The two checks of __release_stripe. */
    ghost method NoteRelease(sh: StripeHead)
      requires Valid() && sh in live
      modifies `core
      ensures Valid()
      ensures core ==
        old(core).(fired := old(core).fired + Check(!Unlisted(old(core), sh), 70) + Check(old(core).active == 0, 74))
    {
      AloneIffUnlisted(sh);
      Note(Check(sh.lru.next != sh.lru, 70));
      Note(Check(active == 0, 74));
    }

    method Settle(sh: StripeHead) returns (wake: bool)
      requires Valid() && sh in live && Unlisted(core, sh)
      modifies `active, `core, LruNodes(live)`next, LruNodes(live)`prev,
               inactiveHead`next, inactiveHead`prev, handleHead`next, handleHead`prev
      ensures Valid()
      ensures (core, wake) == Settled(old(core), sh)
    {
      assert core.stripes[sh].handle == sh.handle;
      NoteRelease(sh);
      if sh.handle {
        AppendHandle(sh);
        wake := false;
      } else {
        AppendInactive(sh);
        AddActive(-1);
        wake := true;
      }
    }

    /** __release_stripe. */
    method Release(sh: StripeHead) returns (wake: bool)
      requires Valid() && sh in live
      requires sh.count == 1 ==> Unlisted(core, sh)
      modifies `active, `core, sh`count, LruNodes(live)`next, LruNodes(live)`prev,
               inactiveHead`next, inactiveHead`prev, handleHead`next, handleHead`prev
      ensures Valid()
      ensures (core, wake) == StripeCore.Release(old(core), sh)
    {
      wake := false;
      AddCount(sh, -1);
      ReleaseInTwo(old(core), sh, core);
      if sh.count == 0 {
        wake := Settle(sh);
      }
    }

    /** get_free_stripe. */
    method GetFreeStripe() returns (r: StripeHead?)
      requires Valid()
      modifies `active, `core, LruNodes(live)`next, LruNodes(live)`prev,
               inactiveHead`next, inactiveHead`prev, handleHead`next, handleHead`prev,
               hash`chains, hash`table, hash`members, hash.buckets, live`hashNext, live`hashPprev
      ensures Valid()
      ensures r == null <==> old(core).inactive == []
      ensures r == null ==> core == old(core)
      ensures r != null ==> r == old(core).inactive[0] && r in live && core == StripeCore.TakeFree(old(core))
      ensures r != null ==> r !in hash.members
    {
      r := First(inactiveHead, handleHead, live, core.inactive, core.handleList);
      if r == null {
        return;
      }
      WithoutFirst(core, r);
      DelistHere(r);
      RemoveHash(r);
      AddActive(1);
    }

    /** The checks of __init_stripe and its loop; lines 470-477 and 487-502. */
    method BuildSlots(sh: StripeHead, sector: nat, pd: nat) returns (built: seq<Dev>)
      requires Valid() && sh in live
      modifies `core
      ensures Valid()
      ensures var was := old(core).stripes[sh];
              core == old(core).(fired := old(core).fired + Check(was.count != 0, 474) + Check(was.handle, 476)
                                          + Check(!AllIdle(was.devs), 497))
      ensures StripeCore.InitStripe(g, old(core), sh, sector, pd) == Rehashed(core, sh, sector, pd, built)
    {
      assert core.stripes[sh] == sh.Value();
      NodesAllocated();
      var busy;
      built, busy := BuildBlocks(g, sh.devs, sector, pd);
      InitInParts(g, core, sh, sector, pd, built, busy);
      Note(Check(sh.count != 0, 474));
      Note(Check(sh.handle, 476));
      Note(Check(busy, 497));
    }

    /** __init_stripe, for a sector that no other stripe carries. */
    method InitStripe(sh: StripeHead, sector: nat, pd: nat)
      requires Valid() && sh in live && (sector in core.hash ==> core.hash[sector] == sh)
      modifies `core, sh`sector, sh`pdIdx, sh`handle, sh`devs,
               hash`chains, hash`table, hash`members, hash.buckets, live`hashNext, live`hashPprev
      ensures Valid() && core == StripeCore.InitStripe(g, old(core), sh, sector, pd)
    {
      if sector in core.hash {
        Entry(sector);
      }
      var built := BuildSlots(sh, sector, pd);
      SectorFree(core, sh, sector);
      RemoveHash(sh);
      SetSector(sh, sector);
      SetRow(sh, pd, built);
      InsertHash(sh);
    }

    /** The branch of get_active_stripe for a cached stripe. */
    method Hit(sh: StripeHead)
      requires Valid() && sh in live
      modifies `active, `core, LruNodes(live)`next, LruNodes(live)`prev,
               inactiveHead`next, inactiveHead`prev, handleHead`next, handleHead`prev
      ensures Valid() && core == StripeCore.Hit(old(core), sh)
    {
      AloneIffUnlisted(sh);
      assert core.stripes[sh] == sh.Value();
      if sh.count != 0 {
        Note(Check(sh.lru.next != sh.lru, 532));
      } else {
        Note(Check(sh.lru.next == sh.lru, 539));
        if !sh.handle {
          AddActive(1);
        }
        if sh.lru.next != sh.lru {
          DelistHere(sh);
        }
      }
    }

    /** atomic_inc(&sh->count). */
    method GrabStripe(sh: StripeHead)
      requires Valid() && sh in live
      modifies sh`count, `core
      ensures Valid() && core == Grab(old(core), sh)
    {
      AddCount(sh, 1);
    }

    method Found(sh: StripeHead)
      requires Valid() && sh in live
      modifies `active, `core, sh`count, LruNodes(live)`next, LruNodes(live)`prev,
               inactiveHead`next, inactiveHead`prev, handleHead`next, handleHead`prev
      ensures Valid() && core == Grab(StripeCore.Hit(old(core), sh), sh)
    {
      Hit(sh);
      GrabStripe(sh);
    }

    method Miss(sector: nat, pd: nat) returns (r: StripeHead?)
      requires Valid() && sector !in core.hash
      modifies `active, `core, live, LruNodes(live)`next, LruNodes(live)`prev,
               inactiveHead`next, inactiveHead`prev, handleHead`next, handleHead`prev,
               hash`chains, hash`table, hash`members, hash.buckets
      ensures Valid()
      ensures r == null <==> old(core).inactive == []
      ensures r == null ==> core == old(core)
      ensures r != null ==> r == old(core).inactive[0] && r in old(core).stripes
      ensures r != null ==> core == Grab(StripeCore.InitStripe(g, TakeFree(old(core)), r, sector, pd), r)
    {
      r := GetFreeStripe();
      if r != null {
        InitStripe(r, sector, pd);
        GrabStripe(r);
      }
    }

    /** One turn of the loop of get_active_stripe. r is null when there is no stripe to give. */
    method LoopBody(sector: nat, pd: nat) returns (r: StripeHead?)
      requires Valid()
      modifies `active, `core, live, LruNodes(live)`next, LruNodes(live)`prev,
               inactiveHead`next, inactiveHead`prev, handleHead`next, handleHead`prev,
               hash`chains, hash`table, hash`members, hash.buckets
      ensures Valid()
      ensures forall noblock :: Gives(g, old(core), sector, pd, noblock, r, core)
    {
      TableInside();
      ListsInside();
      r := hash.FindWithin(sector, live);
      if r != null {
        Entry(sector);
        Found(r);
      } else {
        r := Miss(sector, pd);
      }
    }

    lemma TableInside()
      requires Valid()
      ensures forall k :: k in core.hash ==> core.hash[k] in core.stripes
    {
      forall k | k in core.hash ensures core.hash[k] in core.stripes {
        Entry(k);
      }
    }

    lemma ListsInside()
      requires Valid()
      ensures forall id :: id in core.inactive ==> id in core.stripes
    {
      OpenLists(inactiveHead, handleHead, live, core.inactive, core.handleList);
    }

    /** The stripe at the head of handle_list, or null when it is empty. */
    method FirstHandled() returns (r: StripeHead?)
      requires Valid()
      ensures r == null <==> core.handleList == []
      ensures r != null ==> r == core.handleList[0] && r in live && r !in core.inactive
    {
      SwapLists(inactiveHead, handleHead, live, core.inactive, core.handleList);
      r := First(handleHead, inactiveHead, live, core.handleList, core.inactive);
    }

    /** The locked section of jraid5d; null when handle_list is empty. */
    method DaemonTake() returns (r: StripeHead?)
      requires Valid()
      modifies `core, live`count, LruNodes(live)`next, LruNodes(live)`prev,
               inactiveHead`next, inactiveHead`prev, handleHead`next, handleHead`prev
      ensures Valid()
      ensures r == null <==> old(core).handleList == []
      ensures r == null ==> core == old(core)
      ensures r != null ==> r == old(core).handleList[0] && r in live && core == StripeCore.DaemonTake(old(core))
    {
      r := FirstHandled();
      if r != null {
        TakenInParts(core, r);
        DelistHere(r);
        AddCount(r, 1);
        Note(Check(r.count != 1, 1225));
      }
    }

    /** The allocation half of grow_stripes. */
    method GrowOne() returns (sh: StripeHead)
      requires Valid()
      modifies `active, `core, `live
      ensures Valid() && fresh(sh) && fresh(sh.lru) && live == old(live) + {sh}
      ensures core == StripeCore.GrowOne(g, old(core), sh)
    {
      NodesAllocated();
      sh := new StripeHead(g.disks);
      ghost var to := live + {sh};
      assert forall x :: x in to && x !in live ==> x == sh;
      hash.Resize(live, to);
      ResizeLists(inactiveHead, handleHead, live, core.inactive, core.handleList, to);
      active := active + 1;
      live := to;
      Adopt(StripeCore.GrowOne(g, core, sh));
    }

    /** The half of shrink_stripes after get_free_stripe. */
    method ShrinkFree(sh: StripeHead)
      requires Valid() && sh in live && Unlisted(core, sh) && sh !in hash.members
      modifies `active, `core, `live
      ensures Valid() && live == old(live) - {sh}
      ensures core == StripeCore.ShrinkFree(old(core), sh)
    {
      ghost var to := live - {sh};
      assert forall x :: x in live && x !in to ==> x == sh;
      hash.Resize(live, to);
      ResizeLists(inactiveHead, handleHead, live, core.inactive, core.handleList, to);
      active := active - 1;
      live := to;
      Adopt(StripeCore.ShrinkFree(core, sh));
    }
  }
}
