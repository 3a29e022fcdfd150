/** The stripe cache of src/jraid5.c as a value, and each section under device_lock as a function on
    it. A BUG() or printk check that finds its condition adds its line number to fired. */
module StripeCore {
  import opened AddressMap
  import opened RequestChain
  import opened Lists

  /** struct r5dev: its two request chains, its logical sector and the flags that live code uses. */
  datatype Dev = Dev(toread: seq<Extent>, towrite: seq<Extent>, sector: nat,
                     overwrite: bool, wantRead: bool, wantWrite: bool) {
    predicate Idle() { toread == [] && towrite == [] }
    predicate Blank() { Idle() && !wantRead && !wantWrite && !overwrite }
  }

  /** struct stripe_head; handle is the STRIPE_HANDLE bit of its state. */
  datatype Stripe = Stripe(sector: nat, pdIdx: nat, count: int, handle: bool, devs: seq<Dev>)

  /** struct jraid5_conf: the live stripes, the hash table as a map, the two lists and the counter. */
  datatype Core<Id(==)> = Core(stripes: map<Id, Stripe>, hash: map<nat, Id>, inactive: seq<Id>,
                               handleList: seq<Id>, active: int, fired: set<nat>)

  function Check(condition: bool, line: nat): set<nat> {
    if condition then {line} else {}
  }

  /** list_empty(&sh->lru). */
  predicate Unlisted<Id(==)>(c: Core<Id>, id: Id) {
    id !in c.inactive && id !in c.handleList
  }

  predicate Hashed<Id(==)>(c: Core<Id>, id: Id) {
    id in c.stripes && c.stripes[id].sector in c.hash && c.hash[c.stripes[id].sector] == id
  }

  /** __release_stripe: the new cache, and whether wait_for_stripe is woken. */
  function Release<Id(==)>(c: Core<Id>, id: Id): (Core<Id>, bool)
    requires id in c.stripes
  {
    var sh := c.stripes[id];
    var down := c.(stripes := c.stripes[id := sh.(count := sh.count - 1)]);
    if sh.count != 1 then (down, false)
    else
      var seen := down.(fired := c.fired + Check(!Unlisted(c, id), 70) + Check(c.active == 0, 74));
      if sh.handle then (seen.(handleList := c.handleList + [id]), false)
      else (seen.(inactive := c.inactive + [id], active := c.active - 1), true)
  }

  /** remove_hash. */
  function RemoveHash<Id(==)>(c: Core<Id>, id: Id): Core<Id> {
    if Hashed(c, id) then c.(hash := c.hash - {c.stripes[id].sector}) else c
  }

  /** get_free_stripe when inactive_list is not empty: the stripe taken is its first. */
  function TakeFree<Id(==)>(c: Core<Id>): Core<Id>
    requires c.inactive != []
  {
    RemoveHash(c.(inactive := c.inactive[1..], active := c.active + 1), c.inactive[0])
  }

  /** __jraid5_build_block; the parity slot keeps its old sector. */
  function BuildBlock(g: Geometry, dev: Dev, sector: nat, pd: nat, i: nat): Dev
    requires g.Valid()
  {
    Dev(dev.toread, dev.towrite, if i != pd then ComputeBlocknr(g, sector, pd, i) else dev.sector,
        false, false, false)
  }

  predicate AllIdle(devs: seq<Dev>) {
    forall i :: 0 <= i < |devs| ==> devs[i].Idle()
  }

  /** __init_stripe. */
  function InitStripe<Id(==)>(g: Geometry, c: Core<Id>, id: Id, sector: nat, pd: nat): Core<Id>
    requires g.Valid() && id in c.stripes
  {
    var sh := c.stripes[id];
    var unhashed := RemoveHash(c, id);
    var devs := seq(|sh.devs|, i requires 0 <= i < |sh.devs| => BuildBlock(g, sh.devs[i], sector, pd, i));
    unhashed.(stripes := c.stripes[id := Stripe(sector, pd, sh.count, false, devs)],
              hash := unhashed.hash[sector := id],
              fired := c.fired + Check(sh.count != 0, 474) + Check(sh.handle, 476) + Check(!AllIdle(sh.devs), 497))
  }

  /** The branch of get_active_stripe for a stripe found in the cache (lines 531-542). */
  function Hit<Id(==)>(c: Core<Id>, id: Id): Core<Id>
    requires id in c.stripes
  {
    if c.stripes[id].count != 0 then
      c.(fired := c.fired + Check(!Unlisted(c, id), 532))
    else
      c.(active := if c.stripes[id].handle then c.active else c.active + 1,
         fired := c.fired + Check(Unlisted(c, id), 539),
         inactive := Without(c.inactive, id), handleList := Without(c.handleList, id))
  }

  /** atomic_inc(&sh->count). */
  function Grab<Id(==)>(c: Core<Id>, id: Id): Core<Id>
    requires id in c.stripes
  {
    c.(stripes := c.stripes[id := c.stripes[id].(count := c.stripes[id].count + 1)])
  }

  datatype Outcome<Id(==)> = Got(id: Id, core: Core<Id>) | Null | MustWait

  /** One turn of the loop of get_active_stripe with the lock held (lines 515-547). */
  function Body<Id(==)>(g: Geometry, c: Core<Id>, sector: nat, pd: nat, noblock: bool): Outcome<Id>
    requires g.Valid()
    requires forall k :: k in c.hash ==> c.hash[k] in c.stripes
    requires forall id :: id in c.inactive ==> id in c.stripes
  {
    if sector in c.hash then
      Got(c.hash[sector], Grab(Hit(c, c.hash[sector]), c.hash[sector]))
    else if c.inactive == [] then
      if noblock then Null else MustWait
    else
      var id := c.inactive[0];
      Got(id, Grab(InitStripe(g, TakeFree(c), id, sector, pd), id))
  }

  /** The locked section of jraid5d (lines 1216-1226) when handle_list is not empty. */
  function DaemonTake<Id(==)>(c: Core<Id>): Core<Id>
    requires c.handleList != [] && c.handleList[0] in c.stripes
  {
    var id := c.handleList[0];
    var taken := Grab(c, id);
    taken.(handleList := c.handleList[1..], fired := c.fired + Check(taken.stripes[id].count != 1, 1225))
  }

  const FRESH_DEV := Dev([], [], 0, false, false, false)

  /** The allocation half of grow_stripes (lines 279-294): one active stripe with count 1. */
  function GrowOne<Id(==)>(g: Geometry, c: Core<Id>, id: Id): Core<Id> {
    c.(stripes := c.stripes[id := Stripe(0, 0, 1, false, seq(g.disks, _ => FRESH_DEV))], active := c.active + 1)
  }

  /** The half of shrink_stripes after the lock is dropped (lines 310-316). */
  function ShrinkFree<Id(==)>(c: Core<Id>, id: Id): Core<Id>
    requires id in c.stripes
  {
    c.(stripes := c.stripes - {id}, active := c.active - 1,
       fired := c.fired + Check(c.stripes[id].count != 0, 310))
  }

  // ----- The invariant

  /** Slot i of a stripe that holds the row of its sector: nothing is queued on the parity disk, and
      every request on a data disk starts at the one logical sector stored there. */
  ghost predicate SlotOk(g: Geometry, sh: Stripe, i: nat)
    requires g.Valid() && i < |sh.devs| <= g.disks
  {
    var d := sh.devs[i];
    if i == ParityOf(g, sh.sector) then d.Idle() && !d.wantRead && !d.wantWrite
    else
      && d.sector == ComputeBlocknr(g, sh.sector, sh.pdIdx, i)
      && (forall k :: 0 <= k < |d.toread| ==> d.toread[k].sector == LogicalSector(g, sh.sector, i))
      && (forall k :: 0 <= k < |d.towrite| ==> d.towrite[k].sector == LogicalSector(g, sh.sector, i))
      && SortedDisjoint(d.toread) && SortedDisjoint(d.towrite)
      && (d.overwrite ==> Covers(d.towrite, d.sector))
  }

  /** The stripe has been initialised for its sector: its parity disk is that of its row. */
  ghost predicate Placed(g: Geometry, sh: Stripe)
    requires g.Valid()
  {
    && |sh.devs| == g.disks
    && sh.pdIdx == ParityOf(g, sh.sector)
    && forall i :: 0 <= i < |sh.devs| ==> SlotOk(g, sh, i)
  }

  ghost predicate Untouched(g: Geometry, sh: Stripe) {
    && |sh.devs| == g.disks
    && forall i :: 0 <= i < |sh.devs| ==> sh.devs[i].Blank()
  }

  /** Where a live stripe is: refs counts the references to every stripe (threads and bios in
      flight), limbo holds the stripes that shrink_stripes has taken and not yet freed. */
  ghost predicate Positioned<Id>(c: Core<Id>, refs: multiset<Id>, limbo: set<Id>, id: Id)
    requires id in c.stripes
  {
    var sh := c.stripes[id];
    && sh.count == refs[id]
    && (id in c.inactive <==> sh.count == 0 && !sh.handle && id !in limbo)
    && (id in c.handleList <==> sh.count == 0 && sh.handle)
    && (id in limbo ==> sh.count == 0 && !sh.handle && !Hashed(c, id))
  }

  ghost predicate Listed<Id>(c: Core<Id>) {
    && Distinct(c.inactive) && Distinct(c.handleList)
    && (forall id :: id in c.inactive ==> id in c.stripes)
    && (forall id :: id in c.handleList ==> id in c.stripes)
    && c.active + |c.inactive| == |c.stripes|
  }

  /** The hash table maps a sector to the stripe that carries it. */
  ghost predicate HashOk<Id>(c: Core<Id>) {
    forall k :: k in c.hash ==> c.hash[k] in c.stripes && c.stripes[c.hash[k]].sector == k
  }

  ghost predicate SlotsOk<Id>(g: Geometry, c: Core<Id>)
    requires g.Valid()
  {
    forall id :: id in c.stripes ==>
      Placed(g, c.stripes[id]) || (Untouched(g, c.stripes[id]) && !Hashed(c, id))
  }

  ghost predicate CoreInv<Id>(g: Geometry, c: Core<Id>, refs: multiset<Id>, limbo: set<Id>) {
    && g.Valid()
    && Listed(c)
    && (forall id :: id in refs ==> id in c.stripes)
    && (forall id :: id in limbo ==> id in c.stripes)
    && (forall id :: id in c.stripes ==> Positioned(c, refs, limbo, id))
    && HashOk(c)
    && SlotsOk(g, c)
  }
}
