/** Every locked section of the stripe cache keeps the invariant of StripeCore, moving one reference
    in or out of the multiset of references, and none of the source's checks finds its condition,
    except the idle-device check of __init_stripe, whose exact condition is stated here. */
module StripeInvariant {
  import opened AddressMap
  import opened Lists
  import opened StripeCore

  /** A referenced stripe is on no list, so the counter cannot be zero: lines 70, 74 and 532. */
  lemma ReferencedIsActive<Id>(g: Geometry, c: Core<Id>, refs: multiset<Id>, limbo: set<Id>, id: Id)
    requires CoreInv(g, c, refs, limbo) && refs[id] > 0
    ensures id in c.stripes && c.stripes[id].count == refs[id] && Unlisted(c, id) && id !in limbo
    ensures c.active > 0
  {
    assert id in refs;
    assert Positioned(c, refs, limbo, id);
    DistinctWithin(c.inactive, c.stripes.Keys);
  }

  lemma ReleaseKeeps<Id>(g: Geometry, c: Core<Id>, refs: multiset<Id>, limbo: set<Id>, id: Id)
    requires CoreInv(g, c, refs, limbo) && refs[id] > 0
    ensures CoreInv(g, Release(c, id).0, refs - multiset{id}, limbo)
    ensures Release(c, id).0.fired == c.fired
    ensures Release(c, id).1 <==> refs[id] == 1 && !c.stripes[id].handle
    ensures Release(c, id).1 ==> Release(c, id).0.inactive == c.inactive + [id]
    ensures !Release(c, id).1 ==> Release(c, id).0.inactive == c.inactive
    ensures Release(c, id).0.handleList == c.handleList + if refs[id] == 1 && c.stripes[id].handle then [id] else []
  {
    ReferencedIsActive(g, c, refs, limbo, id);
    var d, refs' := Release(c, id).0, refs - multiset{id};
    if refs[id] == 1 {
      PushKeeps(c.inactive, id);
      PushKeeps(c.handleList, id);
    }
    assert d.stripes.Keys == c.stripes.Keys;
    forall x | x in d.stripes ensures Positioned(d, refs', limbo, x) {
      assert Positioned(c, refs, limbo, x);
    }
    SlotsFollow(g, c, d);
  }

  /** Changing counts, lists and the handle bit leaves the slots alone. */
  lemma SlotsFollow<Id>(g: Geometry, c: Core<Id>, d: Core<Id>)
    requires g.Valid() && SlotsOk(g, c) && d.stripes.Keys <= c.stripes.Keys
    requires forall id :: id in d.stripes ==>
               && d.stripes[id].sector == c.stripes[id].sector
               && d.stripes[id].pdIdx == c.stripes[id].pdIdx
               && d.stripes[id].devs == c.stripes[id].devs
    requires forall id :: id in d.stripes && Hashed(d, id) ==> Hashed(c, id)
    ensures SlotsOk(g, d)
  {
    forall id | id in d.stripes
      ensures Placed(g, d.stripes[id]) || (Untouched(g, d.stripes[id]) && !Hashed(d, id))
    {
      if Placed(g, c.stripes[id]) {
        forall i | 0 <= i < |d.stripes[id].devs| ensures SlotOk(g, d.stripes[id], i) {
          assert SlotOk(g, c.stripes[id], i);
        }
      }
    }
  }

  lemma TakeFreeKeeps<Id>(g: Geometry, c: Core<Id>, refs: multiset<Id>, limbo: set<Id>)
    requires CoreInv(g, c, refs, limbo) && c.inactive != []
    ensures c.inactive[0] in c.stripes && c.inactive[0] !in limbo && refs[c.inactive[0]] == 0
    ensures CoreInv(g, TakeFree(c), refs, limbo + {c.inactive[0]})
    ensures TakeFree(c).fired == c.fired
  {
    var id, d := c.inactive[0], TakeFree(c);
    assert Positioned(c, refs, limbo, id);
    TakeFreePositions(c, refs, limbo);
    SlotsFollow(g, c, d);
  }

  lemma TakeFreePositions<Id>(c: Core<Id>, refs: multiset<Id>, limbo: set<Id>)
    requires Distinct(c.inactive) && c.inactive != [] && forall x :: x in c.stripes ==> Positioned(c, refs, limbo, x)
    ensures Distinct(TakeFree(c).inactive) && forall x :: x in TakeFree(c).inactive ==> x in c.inactive
    ensures forall x :: x in c.stripes ==> Positioned(TakeFree(c), refs, limbo + {c.inactive[0]}, x)
  {
    var id, d := c.inactive[0], TakeFree(c);
    assert id !in d.inactive;
    assert forall x :: x in c.inactive && x != id ==> x in d.inactive;
    forall x | x in d.stripes ensures Positioned(d, refs, limbo + {id}, x) {
      assert Positioned(c, refs, limbo, x);
    }
  }

  // ----- get_active_stripe

  lemma GrabKeeps<Id>(g: Geometry, c: Core<Id>, refs: multiset<Id>, limbo: set<Id>, id: Id)
    requires CoreInv(g, c, refs, limbo) && refs[id] > 0
    ensures CoreInv(g, Grab(c, id), refs + multiset{id}, limbo)
  {
    ReferencedIsActive(g, c, refs, limbo, id);
    var d, refs' := Grab(c, id), refs + multiset{id};
    assert d.stripes.Keys == c.stripes.Keys;
    forall x | x in d.stripes ensures Positioned(d, refs', limbo, x) {
      assert Positioned(c, refs, limbo, x);
    }
    SlotsFollow(g, c, d);
  }

  lemma HitKeeps<Id>(g: Geometry, c: Core<Id>, refs: multiset<Id>, limbo: set<Id>, id: Id)
    requires CoreInv(g, c, refs, limbo) && Hashed(c, id)
    ensures CoreInv(g, Grab(Hit(c, id), id), refs + multiset{id}, limbo)
    ensures Hit(c, id).fired == c.fired && Hit(c, id).hash == c.hash
  {
    assert Positioned(c, refs, limbo, id);
    if c.stripes[id].count != 0 {
      assert Hit(c, id) == c;
      GrabKeeps(g, c, refs, limbo, id);
    } else {
      WithoutKeeps(c.inactive, id);
      WithoutKeeps(c.handleList, id);
      var d, refs' := Grab(Hit(c, id), id), refs + multiset{id};
      assert d.stripes.Keys == c.stripes.Keys;
      forall x | x in d.stripes ensures Positioned(d, refs', limbo, x) {
        assert Positioned(c, refs, limbo, x);
      }
      SlotsFollow(g, c, d);
    }
  }

  /** A stripe whose queues are empty is correctly placed by __init_stripe. */
  lemma InitPlaces<Id>(g: Geometry, c: Core<Id>, id: Id, sector: nat)
    requires g.Valid() && id in c.stripes
    requires |c.stripes[id].devs| == g.disks && AllIdle(c.stripes[id].devs)
    ensures Placed(g, InitStripe(g, c, id, sector, ParityOf(g, sector)).stripes[id])
  {
    var sh := InitStripe(g, c, id, sector, ParityOf(g, sector)).stripes[id];
    forall i | 0 <= i < |sh.devs| ensures SlotOk(g, sh, i) {}
  }

  /** Recycling the first free stripe for an uncached sector. */
  lemma MissKeeps<Id>(g: Geometry, c: Core<Id>, refs: multiset<Id>, limbo: set<Id>, sector: nat)
    requires CoreInv(g, c, refs, limbo) && c.inactive != [] && sector !in c.hash
    requires c.inactive[0] in c.stripes && AllIdle(c.stripes[c.inactive[0]].devs)
    ensures var id := c.inactive[0];
            var d := Grab(InitStripe(g, TakeFree(c), id, sector, ParityOf(g, sector)), id);
            CoreInv(g, d, refs + multiset{id}, limbo) && Hashed(d, id)
  {
    var id, t := c.inactive[0], TakeFree(c);
    TakeFreeKeeps(g, c, refs, limbo);
    assert Positioned(t, refs, limbo + {id}, id);
    assert Placed(g, t.stripes[id]) || Untouched(g, t.stripes[id]);
    InitPlaces(g, t, id, sector);
    var d, refs' := Grab(InitStripe(g, t, id, sector, ParityOf(g, sector)), id), refs + multiset{id};
    assert d.stripes.Keys == t.stripes.Keys;
    forall x | x in d.stripes ensures Positioned(d, refs', limbo, x) {
      assert Positioned(t, refs, limbo + {id}, x);
    }
    forall x | x in d.stripes
      ensures Placed(g, d.stripes[x]) || (Untouched(g, d.stripes[x]) && !Hashed(d, x))
    {
      if x == id {
        GrabPlaced(g, InitStripe(g, t, id, sector, ParityOf(g, sector)), id);
      } else {
        assert d.stripes[x] == t.stripes[x];
      }
    }
  }

  lemma GrabPlaced<Id>(g: Geometry, c: Core<Id>, id: Id)
    requires g.Valid() && id in c.stripes && Placed(g, c.stripes[id])
    ensures Placed(g, Grab(c, id).stripes[id])
  {
    var sh := Grab(c, id).stripes[id];
    forall i | 0 <= i < |sh.devs| ensures SlotOk(g, sh, i) {
      assert SlotOk(g, c.stripes[id], i);
    }
  }

  /** The stripe that get_active_stripe would recycle still has requests queued. */
  ghost predicate HeadBusy<Id>(c: Core<Id>)
  {
    c.inactive != [] && c.inactive[0] in c.stripes && !AllIdle(c.stripes[c.inactive[0]].devs)
  }

  /** One turn of the loop of get_active_stripe. A stripe is returned with one reference more and is
      the one cached for the sector; the only check that can find its condition is the idle-device
      check of __init_stripe, exactly when the sector is uncached and the first free stripe busy. */
  lemma BodyKeeps<Id>(g: Geometry, c: Core<Id>, refs: multiset<Id>, limbo: set<Id>, sector: nat, noblock: bool)
    requires CoreInv(g, c, refs, limbo)
    ensures match Body(g, c, sector, ParityOf(g, sector), noblock)
            case Got(id, d) =>
              && (sector in c.hash ==> id == c.hash[sector])
              && d.fired == c.fired + Check(sector !in c.hash && HeadBusy(c), 497)
              && (sector in c.hash || !HeadBusy(c) ==>
                  CoreInv(g, d, refs + multiset{id}, limbo) && Hashed(d, id) && d.stripes[id].sector == sector)
            case Null => noblock && sector !in c.hash && c.inactive == []
            case MustWait => !noblock && sector !in c.hash && c.inactive == []
  {
    if sector in c.hash {
      HitKeeps(g, c, refs, limbo, c.hash[sector]);
    } else if c.inactive != [] {
      var id, t := c.inactive[0], TakeFree(c);
      TakeFreeKeeps(g, c, refs, limbo);
      assert Positioned(t, refs, limbo + {id}, id);
      assert t.stripes == c.stripes;
      if !HeadBusy(c) {
        MissKeeps(g, c, refs, limbo, sector);
      }
    }
  }

  /** Between c and d every referenced stripe keeps its sector, its parity disk and its place in the
      hash table: no stripe is recycled under a thread or a bio. */
  ghost predicate HeldStable<Id>(c: Core<Id>, d: Core<Id>, refs: multiset<Id>) {
    forall x :: x in refs && x in c.stripes ==>
      && x in d.stripes
      && d.stripes[x].sector == c.stripes[x].sector
      && d.stripes[x].pdIdx == c.stripes[x].pdIdx
      && |d.stripes[x].devs| == |c.stripes[x].devs|
      && (Hashed(c, x) ==> Hashed(d, x))
  }

  lemma TakeFreeStable<Id>(g: Geometry, c: Core<Id>, refs: multiset<Id>, limbo: set<Id>)
    requires CoreInv(g, c, refs, limbo) && c.inactive != []
    ensures HeldStable(c, TakeFree(c), refs)
  {
    assert Positioned(c, refs, limbo, c.inactive[0]);
  }

  lemma BodyStable<Id>(g: Geometry, c: Core<Id>, refs: multiset<Id>, limbo: set<Id>, sector: nat, noblock: bool)
    requires CoreInv(g, c, refs, limbo)
    ensures match Body(g, c, sector, ParityOf(g, sector), noblock)
            case Got(id, d) => HeldStable(c, d, refs) && id in c.stripes && id !in limbo
            case _ => true
  {
    if sector in c.hash {
      assert Positioned(c, refs, limbo, c.hash[sector]);
      HitStable(c, refs, c.hash[sector]);
    } else if c.inactive != [] {
      assert Positioned(c, refs, limbo, c.inactive[0]);
      MissStable(g, c, refs, sector, noblock);
    }
  }

  lemma HitStable<Id>(c: Core<Id>, refs: multiset<Id>, id: Id)
    requires id in c.stripes
    ensures HeldStable(c, Grab(Hit(c, id), id), refs)
  {
    CountsStable(c, Grab(Hit(c, id), id), refs);
  }

  /** Recycling a stripe without references leaves the referenced ones alone. */
  lemma MissStable<Id>(g: Geometry, c: Core<Id>, refs: multiset<Id>, sector: nat, noblock: bool)
    requires g.Valid() && (forall k :: k in c.hash ==> c.hash[k] in c.stripes)
    requires sector !in c.hash && c.inactive != [] && refs[c.inactive[0]] == 0
    requires forall x :: x in c.inactive ==> x in c.stripes
    ensures match Body(g, c, sector, ParityOf(g, sector), noblock)
            case Got(id, d) => id == c.inactive[0] && HeldStable(c, d, refs)
            case _ => false
  {
    var id, d := c.inactive[0], Body(g, c, sector, ParityOf(g, sector), noblock).core;
    assert forall x :: x in c.stripes && x != id ==> d.stripes[x] == c.stripes[x];
  }

  lemma CountsStable<Id>(c: Core<Id>, d: Core<Id>, refs: multiset<Id>)
    requires c.stripes.Keys <= d.stripes.Keys && d.hash == c.hash
    requires forall x :: x in c.stripes ==>
               && d.stripes[x].sector == c.stripes[x].sector && d.stripes[x].pdIdx == c.stripes[x].pdIdx
               && |d.stripes[x].devs| == |c.stripes[x].devs|
    ensures HeldStable(c, d, refs)
  {}

  lemma ReleaseStable<Id>(c: Core<Id>, refs: multiset<Id>, id: Id)
    requires id in c.stripes
    ensures HeldStable(c, Release(c, id).0, refs)
  {
    CountsStable(c, Release(c, id).0, refs);
  }

  lemma GrabStable<Id>(c: Core<Id>, refs: multiset<Id>, id: Id)
    requires id in c.stripes
    ensures HeldStable(c, Grab(c, id), refs)
  {
    CountsStable(c, Grab(c, id), refs);
  }

  lemma DaemonStable<Id>(c: Core<Id>, refs: multiset<Id>)
    requires c.handleList != [] && c.handleList[0] in c.stripes
    ensures HeldStable(c, DaemonTake(c), refs)
  {
    CountsStable(c, DaemonTake(c), refs);
  }

  lemma GrowStable<Id>(g: Geometry, c: Core<Id>, refs: multiset<Id>, id: Id)
    requires id !in c.stripes
    ensures HeldStable(c, GrowOne(g, c, id), refs)
  {
    CountsStable(c, GrowOne(g, c, id), refs);
  }

  // ----- The slots of a referenced stripe

  ghost predicate SlotsFollowOn(g: Geometry, old_: Stripe, sh: Stripe)
    requires g.Valid()
  {
    && sh.sector == old_.sector && sh.pdIdx == old_.pdIdx && sh.count == old_.count
    && |sh.devs| == |old_.devs|
    && (Placed(g, old_) ==> Placed(g, sh))
    && (!Placed(g, old_) && Untouched(g, old_) ==> Untouched(g, sh))
  }

  function Swap<Id>(c: Core<Id>, id: Id, sh: Stripe): Core<Id> {
    c.(stripes := c.stripes[id := sh])
  }

  /** A change to the slots or the handle bit of one referenced stripe. */
  lemma SwapKeeps<Id>(g: Geometry, c: Core<Id>, refs: multiset<Id>, limbo: set<Id>, id: Id, sh: Stripe)
    requires CoreInv(g, c, refs, limbo) && refs[id] > 0 && id in c.stripes
    requires SlotsFollowOn(g, c.stripes[id], sh)
    ensures CoreInv(g, Swap(c, id, sh), refs, limbo)
    ensures HeldStable(c, Swap(c, id, sh), refs)
  {
    var d := Swap(c, id, sh);
    ReferencedIsActive(g, c, refs, limbo, id);
    assert d.stripes.Keys == c.stripes.Keys;
    forall x | x in d.stripes ensures Positioned(d, refs, limbo, x) {
      assert Positioned(c, refs, limbo, x);
    }
    CountsStable(c, d, refs);
  }

  /** Slot d may stand in for slot i of sh. */
  ghost predicate Replaces(g: Geometry, sh: Stripe, i: nat, d: Dev)
    requires g.Valid() && i < |sh.devs| <= g.disks
  {
    && (SlotOk(g, sh, i) ==> SlotOk(g, sh.(devs := sh.devs[i := d]), i))
    && (sh.devs[i].Blank() ==> d.Blank() || Placed(g, sh))
  }

  lemma ReplaceFollows(g: Geometry, sh: Stripe, i: nat, d: Dev)
    requires g.Valid() && i < |sh.devs| == g.disks && Replaces(g, sh, i, d)
    requires Placed(g, sh) || Untouched(g, sh)
    ensures sh.sector == sh.(devs := sh.devs[i := d]).sector
    ensures Placed(g, sh) ==> Placed(g, sh.(devs := sh.devs[i := d]))
    ensures !Placed(g, sh) ==> Untouched(g, sh.(devs := sh.devs[i := d]))
  {
    var after := sh.(devs := sh.devs[i := d]);
    if Placed(g, sh) {
      forall k | 0 <= k < |after.devs| ensures SlotOk(g, after, k) {
        assert SlotOk(g, sh, k);
      }
    }
  }

  lemma HandleFollows(g: Geometry, sh: Stripe)
    requires g.Valid()
    ensures SlotsFollowOn(g, sh, sh.(handle := true))
  {
    var after := sh.(handle := true);
    if Placed(g, sh) {
      forall k | 0 <= k < |after.devs| ensures SlotOk(g, after, k) {
        assert SlotOk(g, sh, k);
      }
    }
  }

  // ----- The daemon, grow_stripes and shrink_stripes

  /** jraid5d: the first stripe of handle_list had no reference, so line 1225 does not fire. */
  lemma DaemonTakeKeeps<Id>(g: Geometry, c: Core<Id>, refs: multiset<Id>, limbo: set<Id>)
    requires CoreInv(g, c, refs, limbo) && c.handleList != []
    ensures CoreInv(g, DaemonTake(c), refs + multiset{c.handleList[0]}, limbo)
    ensures DaemonTake(c).fired == c.fired
    ensures DaemonTake(c).inactive == c.inactive && DaemonTake(c).hash == c.hash
    ensures DaemonTake(c).handleList == c.handleList[1..]
  {
    var id, d := c.handleList[0], DaemonTake(c);
    assert Positioned(c, refs, limbo, id);
    assert Distinct(d.handleList) && id !in d.handleList;
    assert forall x :: x in c.handleList && x != id ==> x in d.handleList;
    assert d.stripes.Keys == c.stripes.Keys;
    forall x | x in d.stripes ensures Positioned(d, refs + multiset{id}, limbo, x) {
      assert Positioned(c, refs, limbo, x);
    }
    SlotsFollow(g, c, d);
  }

  lemma GrowOneKeeps<Id>(g: Geometry, c: Core<Id>, refs: multiset<Id>, limbo: set<Id>, id: Id)
    requires CoreInv(g, c, refs, limbo) && id !in c.stripes
    ensures CoreInv(g, GrowOne(g, c, id), refs + multiset{id}, limbo)
  {
    var d := GrowOne(g, c, id);
    assert id !in refs && id !in limbo && id !in c.inactive && id !in c.handleList;
    assert forall k :: k in c.hash ==> c.hash[k] != id;
    forall x | x in d.stripes ensures Positioned(d, refs + multiset{id}, limbo, x) {
      if x != id {
        assert Positioned(c, refs, limbo, x);
      }
    }
    forall x | x in d.stripes
      ensures Placed(g, d.stripes[x]) || (Untouched(g, d.stripes[x]) && !Hashed(d, x))
    {
      if x != id {
        assert d.stripes[x] == c.stripes[x];
      }
    }
  }

  /** shrink_stripes frees a stripe that nobody references: line 310 does not fire. */
  lemma ShrinkFreeKeeps<Id>(g: Geometry, c: Core<Id>, refs: multiset<Id>, limbo: set<Id>, id: Id)
    requires CoreInv(g, c, refs, limbo) && id in limbo
    ensures id in c.stripes
    ensures CoreInv(g, ShrinkFree(c, id), refs, limbo - {id})
    ensures ShrinkFree(c, id).fired == c.fired && ShrinkFree(c, id).inactive == c.inactive
    ensures HeldStable(c, ShrinkFree(c, id), refs)
  {
    assert Positioned(c, refs, limbo, id);
    var d := ShrinkFree(c, id);
    assert refs[id] == 0;
    assert d.stripes.Keys == c.stripes.Keys - {id};
    forall k | k in d.hash ensures d.hash[k] in d.stripes && d.stripes[d.hash[k]].sector == k {
      assert d.hash[k] != id;
    }
    forall x | x in d.stripes ensures Positioned(d, refs, limbo - {id}, x) {
      assert Positioned(c, refs, limbo, x);
    }
    SlotsFollow(g, c, d);
  }

  // ----- What the invariant means

  ghost function Held<Id>(c: Core<Id>): set<Id> {
    set id | id in c.stripes && c.stripes[id].count > 0
  }

  /** Conservation: the live stripes are the active ones plus inactive_list, and the active ones are
      those held, those on handle_list and those that shrink_stripes is about to free. */
  lemma Conservation<Id>(g: Geometry, c: Core<Id>, refs: multiset<Id>, limbo: set<Id>)
    requires CoreInv(g, c, refs, limbo)
    ensures c.active + |c.inactive| == |c.stripes|
    ensures c.active == |Held(c)| + |c.handleList| + |limbo|
  {
    var held, handled, free := Held(c), Elements(c.handleList), Elements(c.inactive);
    DistinctSize(c.handleList);
    DistinctSize(c.inactive);
    forall id | id in c.stripes ensures id in held + handled + free + limbo {
      assert Positioned(c, refs, limbo, id);
    }
    assert c.stripes.Keys == held + handled + free + limbo;
    assert held !! handled && held !! free && held !! limbo && handled !! free && handled !! limbo && free !! limbo by {
      forall id | id in c.stripes ensures Positioned(c, refs, limbo, id) {}
    }
    assert |held + handled + free + limbo| == |held| + |handled| + |free| + |limbo|;
  }

  // ----- What the checks stand for

  /** For every value of the cache, also one that breaks the invariant: check 70 is silent exactly if
      the release leaves no stripe on the lists twice, and 74 exactly if the counter stays in step. */
  lemma ReleaseChecks<Id>(c: Core<Id>, id: Id)
    requires id in c.stripes && c.stripes[id].count == 1 && c.fired == {} && Distinct(c.inactive + c.handleList)
    ensures 70 !in Release(c, id).0.fired <==> Distinct(Release(c, id).0.inactive + Release(c, id).0.handleList)
    ensures 74 !in Release(c, id).0.fired <==> c.active != 0
  {
    var a, b := c.inactive, c.handleList;
    if c.stripes[id].handle {
      assert a + (b + [id]) == (a + b) + [id];
      AppendDistinct(a + b, id);
    } else {
      MiddleDistinct(a, b, id);
    }
    assert id in a + b <==> id in a || id in b;
  }

  lemma AppendDistinct<Id>(s: seq<Id>, x: Id)
    requires Distinct(s)
    ensures Distinct(s + [x]) <==> x !in s
  {
    if x in s {
      var i :| 0 <= i < |s| && s[i] == x;
      assert (s + [x])[i] == (s + [x])[|s|];
    }
  }

  lemma MiddleDistinct<Id>(a: seq<Id>, b: seq<Id>, x: Id)
    requires Distinct(a + b)
    ensures Distinct(a + [x] + b) <==> x !in a + b
  {
    var after := a + [x] + b;
    if x in a + b {
      var i :| 0 <= i < |a + b| && (a + b)[i] == x;
      assert after[|a|] == x && after[if i < |a| then i else i + 1] == x;
    } else {
      forall i, j | 0 <= i < j < |after| ensures after[i] != after[j] {
        assert i != |a| ==> after[i] == (a + b)[if i < |a| then i else i - 1];
        assert j != |a| ==> after[j] == (a + b)[if j < |a| then j else j - 1];
      }
    }
  }

  /** The other checks: __init_stripe is silent exactly for a stripe without references, requests or
      STRIPE_HANDLE, a cache hit exactly if the stripe is held or on a list and not both, jraid5d
      exactly if it gets the only reference, and shrink_stripes exactly for a stripe without one. */
  lemma OtherChecks<Id>(g: Geometry, c: Core<Id>, id: Id, sector: nat, pd: nat)
    requires g.Valid() && id in c.stripes && c.fired == {}
    ensures var sh := c.stripes[id];
            && (InitStripe(g, c, id, sector, pd).fired == {} <==> sh.count == 0 && !sh.handle && AllIdle(sh.devs))
            && (497 in InitStripe(g, c, id, sector, pd).fired <==> !AllIdle(sh.devs))
            && (Hit(c, id).fired == {} <==> (sh.count != 0 <==> Unlisted(c, id)))
            && (ShrinkFree(c, id).fired == {} <==> sh.count == 0)
    ensures c.handleList != [] && c.handleList[0] == id ==>
              (DaemonTake(c).fired == {} <==> DaemonTake(c).stripes[id].count == 1)
  {
    var sh := c.stripes[id];
    assert InitStripe(g, c, id, sector, pd).fired ==
           Check(sh.count != 0, 474) + Check(sh.handle, 476) + Check(!AllIdle(sh.devs), 497);
  }

  /** A stripe that is recycled while idle starts clean: no requests, no flags, one reference, the
      parity disk of its row and the logical sectors of its data slots. */
  lemma RecycledClean<Id>(g: Geometry, c: Core<Id>, refs: multiset<Id>, limbo: set<Id>, sector: nat, noblock: bool)
    requires CoreInv(g, c, refs, limbo) && sector !in c.hash && c.inactive != [] && !HeadBusy(c)
    ensures match Body(g, c, sector, ParityOf(g, sector), noblock)
            case Got(id, d) =>
              && id in d.stripes && var sh := d.stripes[id];
                 && sh.sector == sector && sh.pdIdx == ParityOf(g, sector) && sh.count == 1 && !sh.handle
                 && |sh.devs| == g.disks
                 && (forall i :: 0 <= i < g.disks ==> sh.devs[i].Blank())
                 && (forall i :: 0 <= i < g.disks && i != sh.pdIdx ==>
                       sh.devs[i].sector == ComputeBlocknr(g, sector, sh.pdIdx, i))
            case _ => false
  {
    var id, t := c.inactive[0], TakeFree(c);
    TakeFreeKeeps(g, c, refs, limbo);
    assert Positioned(c, refs, limbo, id);
    assert t.stripes == c.stripes && AllIdle(c.stripes[id].devs);
    assert Placed(g, c.stripes[id]) || Untouched(g, c.stripes[id]);
  }
}
