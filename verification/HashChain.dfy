/** The hash table of the stripe cache: chains through hash_next with back-pointers hash_pprev, each
    of which is the address of the pointer that leads to its stripe. */
module HashChain {
  import opened Lists
  import opened LruList
  import opened StripeCore

  /** NR_HASH for 4096-byte pages and 8-byte pointers; HASH_MASK keeps the remainder. */
  const NR_HASH: nat := 512

  /** buffer_size >> 9. */
  const BUCKET_SECTORS: nat := 8

  function BucketOf(sector: nat): (b: nat)
    ensures b < NR_HASH
  {
    sector / BUCKET_SECTORS % NR_HASH
  }

  /** The pages of any 512 consecutive ones are in different buckets. */
  lemma NeighboursApart(x: nat, y: nat)
    requires x / 8 < y / 8 < x / 8 + 512
    ensures BucketOf(x) != BucketOf(y)
  {
    var a, d := x / 8, y / 8 - x / 8;
    assert a == 512 * (a / 512) + a % 512 && a + d == 512 * ((a + d) / 512) + (a + d) % 512;
  }

  /** The value of hash_pprev: NULL, &stripe_hashtbl[i] or &of->hash_next. */
  datatype Pprev = Unset | Bucket(i: nat) | Field(of: StripeHead)

  class StripeHead {
    var hashNext: StripeHead?
    var hashPprev: Pprev
    const lru: ListNode<StripeHead?>
    var sector: nat
    var pdIdx: nat
    var count: int
    var handle: bool
    var devs: seq<Dev>

    /** memset, atomic_set(&sh->count, 1) and INIT_LIST_HEAD in grow_stripes. */
    constructor (disks: nat)
      ensures hashNext == null && hashPprev == Unset
      ensures fresh(lru) && lru.Alone() && lru.entry == this
      ensures Value() == Stripe(0, 0, 1, false, seq(disks, _ => FRESH_DEV))
    {
      hashNext, hashPprev := null, Unset;
      sector, pdIdx, count, handle, devs := 0, 0, 1, false, seq(disks, _ => FRESH_DEV);
      lru := new ListNode<StripeHead?>(null);
      new;
      lru.entry := this;
    }

    method SetRow(pd: nat, devs: seq<Dev>)
      modifies `pdIdx, `handle, `devs
      ensures pdIdx == pd && !handle && this.devs == devs
    {
      pdIdx, handle, this.devs := pd, false, devs;
    }

    function Value(): Stripe
      reads `sector, `pdIdx, `count, `handle, `devs
    {
      Stripe(sector, pdIdx, count, handle, devs)
    }
  }

  /** Entry i of the chain of bucket b points at the next one and back at the pointer to itself. */
  ghost predicate EntryOk(b: nat, chain: seq<StripeHead>, i: nat)
    requires i < |chain|
    reads (set sh | sh in chain)`hashNext, (set sh | sh in chain)`hashPprev
  {
    && chain[i].hashNext == (if i + 1 < |chain| then chain[i + 1] else null)
    && chain[i].hashPprev == (if i == 0 then Bucket(b) else Field(chain[i - 1]))
  }

  ghost predicate ChainOk(first: StripeHead?, b: nat, chain: seq<StripeHead>)
    reads (set sh | sh in chain)`hashNext, (set sh | sh in chain)`hashPprev
  {
    && first == (if chain == [] then null else chain[0])
    && Distinct(chain)
    && forall i :: 0 <= i < |chain| ==> EntryOk(b, chain, i)
  }

  /** insert_hash on one chain. */
  method Push(buckets: array<StripeHead?>, b: nat, sh: StripeHead, ghost chain: seq<StripeHead>)
    requires b < NR_HASH == buckets.Length && ChainOk(buckets[b], b, chain) && sh !in chain
    modifies buckets, sh`hashNext, sh`hashPprev, (set x | x in chain)`hashPprev
    ensures ChainOk(buckets[b], b, [sh] + chain)
    ensures forall c :: 0 <= c < NR_HASH && c != b ==> buckets[c] == old(buckets[c])
  {
    sh.hashNext := buckets[b];
    if buckets[b] != null {
      buckets[b].hashPprev := Field(sh);
    }
    buckets[b] := sh;
    sh.hashPprev := Bucket(b);
    ghost var after := [sh] + chain;
    forall i | 0 <= i < |after| ensures EntryOk(b, after, i) {
      assert i > 0 ==> old(EntryOk(b, chain, i - 1));
    }
  }

  /** remove_hash on one chain: the pointer that led to sh now leads past it. */
  method Unlink(buckets: array<StripeHead?>, ghost b: nat, sh: StripeHead, ghost chain: seq<StripeHead>)
    requires b < NR_HASH == buckets.Length && ChainOk(buckets[b], b, chain) && sh in chain
    modifies buckets, (set x | x in chain)`hashNext, (set x | x in chain)`hashPprev
    ensures ChainOk(buckets[b], b, Without(chain, sh)) && sh.hashPprev == Unset
    ensures forall c :: 0 <= c < NR_HASH && c != b ==> buckets[c] == old(buckets[c])
  {
    ghost var k :| 0 <= k < |chain| && chain[k] == sh;
    UnlinkAt(buckets, b, sh, chain, k);
    WithoutAt(chain, k);
    WithoutKeeps(chain, sh);
  }

  method UnlinkAt(buckets: array<StripeHead?>, ghost b: nat, sh: StripeHead, ghost chain: seq<StripeHead>, ghost k: nat)
    requires b < NR_HASH == buckets.Length && ChainOk(buckets[b], b, chain) && k < |chain| && chain[k] == sh
    modifies buckets, (set x | x in chain)`hashNext, (set x | x in chain)`hashPprev
    ensures ChainOk(buckets[b], b, chain[..k] + chain[k + 1..]) && sh.hashPprev == Unset
    ensures forall c :: 0 <= c < NR_HASH && c != b ==> buckets[c] == old(buckets[c])
  {
    assert EntryOk(b, chain, k);
    if sh.hashNext != null {
      sh.hashNext.hashPprev := sh.hashPprev;
    }
    match sh.hashPprev {
      case Bucket(i) => buckets[i] := sh.hashNext;
      case Field(of) => of.hashNext := sh.hashNext;
    }
    sh.hashPprev := Unset;
    ghost var after := chain[..k] + chain[k + 1..];
    forall i | 0 <= i < |after| ensures EntryOk(b, after, i) {
      assert i < k ==> old(EntryOk(b, chain, i));
      assert i >= k ==> old(EntryOk(b, chain, i + 1));
    }
  }

  // ----- What the chains hold

  /** The chains together hold the members, each in the bucket of its sector, and the table maps the
      sector of every member to it. */
  ghost predicate Filed(chains: seq<seq<StripeHead>>, table: map<nat, StripeHead>, members: set<StripeHead>)
    reads members`sector
  {
    && |chains| == NR_HASH
    && (forall k :: k in table ==> table[k] in members && table[k].sector == k)
    && (forall sh :: sh in members ==>
          sh.sector in table && table[sh.sector] == sh && sh in chains[BucketOf(sh.sector)])
    && forall b, sh :: 0 <= b < NR_HASH && sh in chains[b] ==> sh in members && BucketOf(sh.sector) == b
  }

  lemma Separate(chains: seq<seq<StripeHead>>, table: map<nat, StripeHead>, members: set<StripeHead>, b: nat)
    requires Filed(chains, table, members) && b < NR_HASH
    ensures forall c, sh :: 0 <= c < NR_HASH && c != b && sh in chains[c] ==> sh in members && sh !in chains[b]
  {
    forall c, sh | 0 <= c < NR_HASH && c != b && sh in chains[c] ensures sh in members && sh !in chains[b] {
      assert sh in members && BucketOf(sh.sector) == c;
    }
  }

  lemma FiledPush(chains: seq<seq<StripeHead>>, table: map<nat, StripeHead>, members: set<StripeHead>, sh: StripeHead)
    requires Filed(chains, table, members) && sh !in members && sh.sector !in table
    ensures var b := BucketOf(sh.sector);
            Filed(chains[b := [sh] + chains[b]], table[sh.sector := sh], members + {sh})
  {}

  lemma FiledUnlink(chains: seq<seq<StripeHead>>, table: map<nat, StripeHead>, members: set<StripeHead>, sh: StripeHead)
    requires Filed(chains, table, members) && sh in members && Distinct(chains[BucketOf(sh.sector)])
    ensures var b := BucketOf(sh.sector);
            Filed(chains[b := Without(chains[b], sh)], table - {sh.sector}, members - {sh})
  {
    var b := BucketOf(sh.sector);
    WithoutKeeps(chains[b], sh);
    var after := chains[b := Without(chains[b], sh)];
    forall x | x in members - {sh} ensures x in after[BucketOf(x.sector)] && x.sector != sh.sector {
      assert x in chains[BucketOf(x.sector)];
    }
  }
}
