/** The sections of StripeHeap under the invariant of the cache: what they ask for in memory always
    holds, none of the checks fires but the one at 497, and the loops of grow_stripes and
    shrink_stripes in memory. refs and limbo are as in StripeCore. */
module StripeHeapSafe {
  import opened AddressMap
  import opened Lists
  import opened HashChain
  import opened StripeCore
  import opened StripeInvariant
  import opened StripeLists
  import opened StripeHeap

  datatype SafePart = InMemory | AsValue

  ghost predicate SafeIn(cache: StripeCache, refs: multiset<StripeHead>, limbo: set<StripeHead>, part: SafePart)
    reads cache, cache.hash, cache.hash.buckets, LruNodes(cache.live), cache.inactiveHead, cache.handleHead, cache.live
  {
    match part
    case InMemory => cache.Valid()
    case AsValue => cache.Valid() && CoreInv(cache.g, cache.core, refs, limbo)
  }

  /** The memory represents a value that keeps the invariant of the cache. Quantified over its parts,
      to stay folded where it is only handed on. */
  ghost predicate Safe(cache: StripeCache, refs: multiset<StripeHead>, limbo: set<StripeHead>)
    reads cache, cache.hash, cache.hash.buckets, LruNodes(cache.live), cache.inactiveHead, cache.handleHead, cache.live
  {
    forall part :: SafeIn(cache, refs, limbo, part)
  }

  lemma OpenSafe(cache: StripeCache, refs: multiset<StripeHead>, limbo: set<StripeHead>)
    requires Safe(cache, refs, limbo)
    ensures cache.Valid() && CoreInv(cache.g, cache.core, refs, limbo)
  {
    assert SafeIn(cache, refs, limbo, InMemory) && SafeIn(cache, refs, limbo, AsValue);
  }

  lemma CloseSafe(cache: StripeCache, refs: multiset<StripeHead>, limbo: set<StripeHead>)
    requires cache.Valid() && CoreInv(cache.g, cache.core, refs, limbo)
    ensures Safe(cache, refs, limbo)
  {}

  /** __release_stripe by the holder of a reference. */
  method ReleaseHeld(cache: StripeCache, sh: StripeHead, ghost refs: multiset<StripeHead>, ghost limbo: set<StripeHead>)
    returns (wake: bool)
    requires Safe(cache, refs, limbo) && refs[sh] > 0
    modifies cache`active, cache`core, sh`count, LruNodes(cache.live)`next, LruNodes(cache.live)`prev,
             cache.inactiveHead`next, cache.inactiveHead`prev, cache.handleHead`next, cache.handleHead`prev
    ensures Safe(cache, refs - multiset{sh}, limbo)
    ensures cache.core.fired == old(cache.core).fired
    ensures sh in old(cache.core).stripes
    ensures wake <==> refs[sh] == 1 && !old(cache.core).stripes[sh].handle
    ensures cache.core.inactive == old(cache.core).inactive + if wake then [sh] else []
    ensures cache.core.handleList == old(cache.core).handleList +
                                     if refs[sh] == 1 && old(cache.core).stripes[sh].handle then [sh] else []
  {
    OpenSafe(cache, refs, limbo);
    ReferencedIsActive(cache.g, cache.core, refs, limbo, sh);
    ReleaseKeeps(cache.g, cache.core, refs, limbo, sh);
    wake := cache.Release(sh);
    CloseSafe(cache, refs - multiset{sh}, limbo);
  }

  /** One turn of the loop of get_active_stripe: the caller gets a reference to the stripe cached for
      the sector, and only check 497 can fire, exactly when a busy stripe is recycled. */
  method GetHeld(cache: StripeCache, sector: nat, ghost refs: multiset<StripeHead>, ghost limbo: set<StripeHead>)
    returns (r: StripeHead?)
    requires Safe(cache, refs, limbo)
    modifies cache`active, cache`core, cache.live, LruNodes(cache.live)`next, LruNodes(cache.live)`prev,
             cache.inactiveHead`next, cache.inactiveHead`prev, cache.handleHead`next, cache.handleHead`prev,
             cache.hash`chains, cache.hash`table, cache.hash`members, cache.hash.buckets
    ensures cache.Valid()
    ensures r == null <==> sector !in old(cache.core).hash && old(cache.core).inactive == []
    ensures r == null ==> cache.core == old(cache.core)
    ensures sector in old(cache.core).hash ==> r == old(cache.core).hash[sector]
    ensures var busy := sector !in old(cache.core).hash && HeadBusy(old(cache.core));
            && cache.core.fired == old(cache.core).fired + Check(busy, 497)
            && (r != null && !busy ==>
                  && Safe(cache, refs + multiset{r}, limbo)
                  && Hashed(cache.core, r) && cache.core.stripes[r].sector == sector)
  {
    OpenSafe(cache, refs, limbo);
    r := cache.LoopBody(sector, ParityOf(cache.g, sector));
    GivesSafely(cache.g, old(cache.core), sector, r, cache.core, refs, limbo);
    if r != null && (sector in old(cache.core).hash || !HeadBusy(old(cache.core))) {
      CloseSafe(cache, refs + multiset{r}, limbo);
    }
  }

  lemma GivesSafely(g: Geometry, c: Core<StripeHead>, sector: nat, r: StripeHead?, d: Core<StripeHead>,
                    refs: multiset<StripeHead>, limbo: set<StripeHead>)
    requires CoreInv(g, c, refs, limbo) && Gives(g, c, sector, ParityOf(g, sector), true, r, d)
    ensures r == null <==> sector !in c.hash && c.inactive == []
    ensures r == null ==> d == c
    ensures sector in c.hash ==> r == c.hash[sector]
    ensures d.fired == c.fired + Check(sector !in c.hash && HeadBusy(c), 497)
    ensures r != null && (sector in c.hash || !HeadBusy(c)) ==>
              CoreInv(g, d, refs + multiset{r}, limbo) && Hashed(d, r) && d.stripes[r].sector == sector
  {
    BodyKeeps(g, c, refs, limbo, sector, true);
  }

  /** The locked section of jraid5d. */
  method TakeHandled(cache: StripeCache, ghost refs: multiset<StripeHead>, ghost limbo: set<StripeHead>)
    returns (r: StripeHead?)
    requires Safe(cache, refs, limbo)
    modifies cache`core, cache.live`count, LruNodes(cache.live)`next, LruNodes(cache.live)`prev,
             cache.inactiveHead`next, cache.inactiveHead`prev, cache.handleHead`next, cache.handleHead`prev
    ensures cache.Valid() && cache.core.fired == old(cache.core).fired
    ensures r == null <==> old(cache.core).handleList == []
    ensures r == null ==> cache.core == old(cache.core)
    ensures r != null ==> Safe(cache, refs + multiset{r}, limbo) && refs[r] == 0
    ensures r != null ==> old(cache.core).handleList == [r] + cache.core.handleList
  {
    OpenSafe(cache, refs, limbo);
    if cache.core.handleList != [] {
      TakenSafely(cache.g, cache.core, refs, limbo);
    }
    r := cache.DaemonTake();
    if r != null {
      CloseSafe(cache, refs + multiset{r}, limbo);
    }
  }

  lemma TakenSafely(g: Geometry, c: Core<StripeHead>, refs: multiset<StripeHead>, limbo: set<StripeHead>)
    requires CoreInv(g, c, refs, limbo) && c.handleList != []
    ensures c.handleList[0] in c.stripes && refs[c.handleList[0]] == 0
    ensures CoreInv(g, DaemonTake(c), refs + multiset{c.handleList[0]}, limbo)
    ensures DaemonTake(c).fired == c.fired && c.handleList == [c.handleList[0]] + DaemonTake(c).handleList
  {
    DaemonTakeKeeps(g, c, refs, limbo);
    assert Positioned(c, refs, limbo, c.handleList[0]);
  }

  /** The allocation half of grow_stripes: the caller holds the new stripe. */
  method GrowHeld(cache: StripeCache, ghost refs: multiset<StripeHead>, ghost limbo: set<StripeHead>)
    returns (sh: StripeHead)
    requires Safe(cache, refs, limbo)
    modifies cache`active, cache`core, cache`live
    ensures Safe(cache, refs + multiset{sh}, limbo) && refs[sh] == 0
    ensures fresh(sh) && fresh(sh.lru) && cache.live == old(cache.live) + {sh}
    ensures cache.core.fired == old(cache.core).fired && cache.core.inactive == old(cache.core).inactive
    ensures sh in cache.core.stripes && !cache.core.stripes[sh].handle
  {
    OpenSafe(cache, refs, limbo);
    sh := cache.GrowOne();
    assert sh !in old(cache.core).stripes;
    GrowOneKeeps(cache.g, old(cache.core), refs, limbo, sh);
    CloseSafe(cache, refs + multiset{sh}, limbo);
  }

  /** One turn of the loop of grow_stripes after the allocation: the new stripe is released at once. */
  method GrowFree(cache: StripeCache, ghost refs: multiset<StripeHead>, ghost limbo: set<StripeHead>)
    returns (sh: StripeHead)
    requires Safe(cache, refs, limbo)
    modifies cache`active, cache`core, cache`live, LruNodes(cache.live)`next, LruNodes(cache.live)`prev,
             cache.inactiveHead`next, cache.inactiveHead`prev, cache.handleHead`next, cache.handleHead`prev
    ensures Safe(cache, refs, limbo)
    ensures fresh(sh) && fresh(sh.lru) && cache.live == old(cache.live) + {sh}
    ensures cache.core.fired == old(cache.core).fired
    ensures cache.core.inactive == old(cache.core).inactive + [sh]
  {
    sh := GrowHeld(cache, refs, limbo);
    var wake := ReleaseHeld(cache, sh, refs + multiset{sh}, limbo);
    assert refs + multiset{sh} - multiset{sh} == refs;
  }

  /** grow_stripes; memory says which allocations succeed. The stripes made are all free. */
  method GrowStripes(cache: StripeCache, num: nat, memory: seq<bool>, ghost refs: multiset<StripeHead>,
                     ghost limbo: set<StripeHead>)
    returns (rc: int, ghost made: seq<StripeHead>)
    requires Safe(cache, refs, limbo) && |memory| == num
    modifies cache`active, cache`core, cache`live, LruNodes(cache.live)`next, LruNodes(cache.live)`prev,
             cache.inactiveHead`next, cache.inactiveHead`prev, cache.handleHead`next, cache.handleHead`prev
    ensures Safe(cache, refs, limbo)
    ensures cache.core.fired == old(cache.core).fired
    ensures cache.core.inactive == old(cache.core).inactive + made && forall sh :: sh in made ==> fresh(sh)
    ensures cache.live == old(cache.live) + Elements(made)
    ensures fresh(LruNodes(cache.live) - LruNodes(old(cache.live)))
    ensures rc == if forall i :: 0 <= i < num ==> memory[i] then 0 else 1
    ensures |made| <= num && (forall i :: 0 <= i < |made| ==> memory[i]) && (|made| < num ==> !memory[|made|])
  {
    made := [];
    var i := 0;
    while i < num
      invariant 0 <= i == |made| <= num && forall j :: 0 <= j < i ==> memory[j]
      invariant Safe(cache, refs, limbo)
      invariant fresh(cache.live - old(cache.live)) && fresh(LruNodes(cache.live) - LruNodes(old(cache.live)))
      invariant cache.core.fired == old(cache.core).fired
      invariant cache.core.inactive == old(cache.core).inactive + made && forall sh :: sh in made ==> fresh(sh)
      invariant cache.live == old(cache.live) + Elements(made)
    {
      if !memory[i] {
        return 1, made;
      }
      var sh := GrowFree(cache, refs, limbo);
      made := made + [sh];
      i := i + 1;
    }
    rc := 0;
  }

  /** One turn of the loop of shrink_stripes: the first free stripe goes, if there is one. */
  method ShrinkOne(cache: StripeCache, ghost refs: multiset<StripeHead>, ghost limbo: set<StripeHead>)
    returns (found: bool)
    requires Safe(cache, refs, limbo)
    modifies cache`active, cache`core, cache`live, LruNodes(cache.live)`next, LruNodes(cache.live)`prev,
             cache.inactiveHead`next, cache.inactiveHead`prev, cache.handleHead`next, cache.handleHead`prev,
             cache.hash`chains, cache.hash`table, cache.hash`members, cache.hash.buckets,
             cache.live`hashNext, cache.live`hashPprev
    ensures Safe(cache, refs, limbo)
    ensures cache.core.fired == old(cache.core).fired
    ensures found <==> old(cache.core).inactive != []
    ensures !found ==> cache.core == old(cache.core) && cache.live == old(cache.live)
    ensures found ==> cache.core.inactive == old(cache.core).inactive[1..]
                      && cache.live == old(cache.live) - {old(cache.core).inactive[0]}
  {
    var sh := TakeHeld(cache, refs, limbo);
    found := sh != null;
    if sh != null {
      FreeTaken(cache, refs, limbo + {sh}, sh);
      assert limbo + {sh} - {sh} == limbo;
    }
  }

  /** get_free_stripe as shrink_stripes calls it. */
  method TakeHeld(cache: StripeCache, ghost refs: multiset<StripeHead>, ghost limbo: set<StripeHead>)
    returns (r: StripeHead?)
    requires Safe(cache, refs, limbo)
    modifies cache`active, cache`core, LruNodes(cache.live)`next, LruNodes(cache.live)`prev,
             cache.inactiveHead`next, cache.inactiveHead`prev, cache.handleHead`next, cache.handleHead`prev,
             cache.hash`chains, cache.hash`table, cache.hash`members, cache.hash.buckets,
             cache.live`hashNext, cache.live`hashPprev
    ensures cache.core.fired == old(cache.core).fired
    ensures r == null <==> old(cache.core).inactive == []
    ensures r == null ==> cache.core == old(cache.core) && Safe(cache, refs, limbo)
    ensures r != null ==> Safe(cache, refs, limbo + {r}) && r == old(cache.core).inactive[0] && r !in limbo
    ensures r != null ==> r in cache.live && r !in cache.hash.members
    ensures r != null ==> cache.core.inactive == old(cache.core).inactive[1..]
  {
    OpenSafe(cache, refs, limbo);
    if cache.core.inactive != [] {
      TakeFreeKeeps(cache.g, cache.core, refs, limbo);
    }
    r := cache.GetFreeStripe();
    CloseSafe(cache, refs, if r == null then limbo else limbo + {r});
  }

  /** Lines 310-316, for a stripe that get_free_stripe has given. */
  method FreeTaken(cache: StripeCache, ghost refs: multiset<StripeHead>, ghost limbo: set<StripeHead>, sh: StripeHead)
    requires Safe(cache, refs, limbo) && sh in limbo && sh in cache.live && sh !in cache.hash.members
    modifies cache`active, cache`core, cache`live
    ensures Safe(cache, refs, limbo - {sh})
    ensures cache.live == old(cache.live) - {sh}
    ensures cache.core.fired == old(cache.core).fired && cache.core.inactive == old(cache.core).inactive
  {
    OpenSafe(cache, refs, limbo);
    TakenOffLists(cache.g, cache.core, refs, limbo, sh);
    ShrinkFreeKeeps(cache.g, cache.core, refs, limbo, sh);
    cache.ShrinkFree(sh);
    CloseSafe(cache, refs, limbo - {sh});
  }

  lemma TakenOffLists(g: Geometry, c: Core<StripeHead>, refs: multiset<StripeHead>, limbo: set<StripeHead>,
                      sh: StripeHead)
    requires CoreInv(g, c, refs, limbo) && sh in limbo
    ensures Unlisted(c, sh) && !Hashed(c, sh)
  {
    assert Positioned(c, refs, limbo, sh);
  }

  /** shrink_stripes: the first num free stripes go, or all of them. */
  method ShrinkStripes(cache: StripeCache, num: nat, ghost refs: multiset<StripeHead>, ghost limbo: set<StripeHead>)
    requires Safe(cache, refs, limbo)
    modifies cache`active, cache`core, cache`live, LruNodes(cache.live)`next, LruNodes(cache.live)`prev,
             cache.inactiveHead`next, cache.inactiveHead`prev, cache.handleHead`next, cache.handleHead`prev,
             cache.hash`chains, cache.hash`table, cache.hash`members, cache.hash.buckets,
             cache.live`hashNext, cache.live`hashPprev
    ensures Safe(cache, refs, limbo)
    ensures cache.core.fired == old(cache.core).fired
    ensures var free := old(cache.core).inactive;
            var gone := free[..if num < |free| then num else |free|];
            && cache.core.inactive == free[|gone|..]
            && cache.live == old(cache.live) - Elements(gone)
  {
    var left := num;
    ghost var free, k := cache.core.inactive, 0;
    while left > 0
      invariant 0 <= left <= num && 0 <= k == num - left <= |free|
      invariant Safe(cache, refs, limbo)
      invariant cache.core.fired == old(cache.core).fired
      invariant cache.core.inactive == free[k..]
      invariant cache.live == old(cache.live) - Elements(free[..k])
    {
      var found := ShrinkOne(cache, refs, limbo);
      if !found {
        assert k == |free|;
        break;
      }
      OneMoreGone(free, k);
      left, k := left - 1, k + 1;
    }
    assert k == if num < |free| then num else |free|;
  }

  lemma OneMoreGone(free: seq<StripeHead>, k: nat)
    requires k < |free|
    ensures Elements(free[..k + 1]) == Elements(free[..k]) + {free[k]}
  {
    assert free[..k + 1] == free[..k] + [free[k]];
  }

  /** The part of jraid5_run that fills the pool: with all the memory it asks for, num free stripes,
      and otherwise none is left behind. */
  method StartPool(g: Geometry, num: nat, memory: seq<bool>) returns (cache: StripeCache, rc: int)
    requires g.Valid() && |memory| == num
    ensures fresh(cache) && Safe(cache, multiset{}, {}) && cache.core.fired == {}
    ensures rc == if forall i :: 0 <= i < num ==> memory[i] then 0 else 1
    ensures rc == 0 ==> |cache.core.inactive| == num && cache.live == Elements(cache.core.inactive)
    ensures rc != 0 ==> cache.live == {}
  {
    cache := NewCache(g);
    ghost var made;
    rc, made := GrowStripes(cache, num, memory, multiset{}, {});
    assert cache.core.inactive == made && cache.live == Elements(made);
    if rc != 0 {
      ShrinkStripes(cache, num, multiset{}, {});
      assert made[..|made|] == made;
    }
  }

  method NewCache(g: Geometry) returns (cache: StripeCache)
    requires g.Valid()
    ensures fresh(cache) && fresh(cache.hash) && fresh(cache.hash.buckets)
    ensures fresh(cache.inactiveHead) && fresh(cache.handleHead)
    ensures Safe(cache, multiset{}, {}) && cache.live == {}
    ensures cache.core == Core(map[], map[], [], [], 0, {})
  {
    cache := new StripeCache(g);
    CloseSafe(cache, multiset{}, {});
  }
}
