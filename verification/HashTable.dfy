/** stripe_hashtbl: the array of chains, proved to be a map from sectors to stripes. */
module HashTable {
  import opened Lists
  import opened HashChain

  datatype TablePart = Inside | Chained | BackPointers

  class Table {
    const buckets: array<StripeHead?>
    ghost var chains: seq<seq<StripeHead>>
    ghost var table: map<nat, StripeHead>
    ghost var members: set<StripeHead>

    ghost predicate Valid()
      reads this, buckets, members`hashNext, members`hashPprev, members`sector
    {
      && buckets.Length == NR_HASH
      && Filed(chains, table, members)
      && forall b :: 0 <= b < NR_HASH ==> ChainAt(b)
    }

    ghost predicate ChainAt(b: nat)
      requires b < |chains| && b < buckets.Length
      reads this, buckets, (set sh | sh in chains[b])`hashNext, (set sh | sh in chains[b])`hashPprev
    {
      ChainOk(buckets[b], b, chains[b])
    }

    constructor ()
      ensures Valid() && fresh(buckets) && table == map[] && members == {}
    {
      buckets := new StripeHead?[NR_HASH](_ => null);
      chains := seq(NR_HASH, _ => []);
      table, members := map[], {};
    }

    /** insert_hash, for a sector that no stripe of the table carries. */
    method Insert(sh: StripeHead)
      requires Valid() && sh !in members && sh.sector !in table
      modifies `chains, `table, `members, buckets, sh`hashNext, sh`hashPprev, members`hashPprev
      ensures Valid() && table == old(table)[sh.sector := sh] && members == old(members) + {sh}
    {
      ghost var b := BucketOf(sh.sector);
      Separate(chains, table, members, b);
      FiledPush(chains, table, members, sh);
      assert ChainAt(b);
      Push(buckets, BucketOf(sh.sector), sh, chains[b]);
      forall c | 0 <= c < NR_HASH && c != b
        ensures ChainOk(buckets[c], c, chains[c]) <==> old(ChainAt(c))
      {}
      ghost var after := chains[b := [sh] + chains[b]];
      assert forall c :: 0 <= c < NR_HASH && c != b ==> after[c] == chains[c];
      Refile(after, table[sh.sector := sh], members + {sh});
    }

    /** remove_hash: a stripe whose back-pointer is not set is left alone. */
    method Remove(sh: StripeHead)
      requires Valid() && (sh in members <==> sh.hashPprev != Unset)
      modifies `chains, `table, `members, buckets, members`hashNext, members`hashPprev
      ensures Valid() && sh.hashPprev == Unset && members == old(members) - {sh}
      ensures table == if sh in old(members) then old(table) - {sh.sector} else old(table)
    {
      if sh.hashPprev != Unset {
        RemoveMember(sh);
      }
    }

    /** The pointers change, the ghost state does not yet. */
    method UnlinkFrom(sh: StripeHead, ghost b: nat)
      requires Valid() && sh in members && b == BucketOf(sh.sector)
      modifies buckets, members`hashNext, members`hashPprev
      ensures ChainOk(buckets[b], b, Without(chains[b], sh)) && sh.hashPprev == Unset
      ensures forall c :: 0 <= c < NR_HASH && c != b ==> ChainOk(buckets[c], c, chains[c])
    {
      assert ChainAt(b);
      Separate(chains, table, members, b);
      Unlink(buckets, b, sh, chains[b]);
      forall c | 0 <= c < NR_HASH && c != b
        ensures ChainOk(buckets[c], c, chains[c]) <==> old(ChainAt(c))
      {}
    }

    method RemoveMember(sh: StripeHead)
      requires Valid() && sh in members
      modifies `chains, `table, `members, buckets, members`hashNext, members`hashPprev
      ensures Valid() && sh.hashPprev == Unset && members == old(members) - {sh} && table == old(table) - {sh.sector}
    {
      ghost var b := BucketOf(sh.sector);
      assert ChainAt(b);
      UnlinkFrom(sh, b);
      FiledUnlink(chains, table, members, sh);
      ghost var after := chains[b := Without(chains[b], sh)];
      assert forall c :: 0 <= c < NR_HASH && c != b ==> after[c] == chains[c];
      Refile(after, table - {sh.sector}, members - {sh});
    }

    /** Adopts the ghost state that describes the pointers. */
    ghost method Refile(chains': seq<seq<StripeHead>>, table': map<nat, StripeHead>, members': set<StripeHead>)
      requires buckets.Length == NR_HASH && Filed(chains', table', members')
      requires forall c :: 0 <= c < NR_HASH ==> ChainOk(buckets[c], c, chains'[c])
      modifies `chains, `table, `members
      ensures Valid() && chains == chains' && table == table' && members == members'
    {
      chains, table, members := chains', table', members';
    }

    /** __find_stripe returns exactly the entry of the table. */
    method Find(sector: nat) returns (r: StripeHead?)
      requires Valid()
      ensures r == if sector in table then table[sector] else null
    {
      ghost var b, k := BucketOf(sector), 0;
      ghost var chain := chains[b];
      r := buckets[BucketOf(sector)];
      assert ChainAt(b);
      while r != null && r.sector != sector
        invariant 0 <= k <= |chain|
        invariant r == (if k == |chain| then null else chain[k])
        invariant forall i :: 0 <= i < k ==> chain[i].sector != sector
        decreases |chain| - k
      {
        assert EntryOk(b, chain, k);
        r, k := r.hashNext, k + 1;
      }
    }

    /** No two stripes on the chains share a sector, whichever buckets they are in. */
    lemma OnePerSector(x: StripeHead, y: StripeHead, i: nat, j: nat)
      requires Valid() && i < NR_HASH && j < NR_HASH && x in chains[i] && y in chains[j] && x.sector == y.sector
      ensures x == y && i == j
    {
      assert x in members && y in members;
    }

    /** The back-pointer of every stripe of the table is set. */
    lemma MembersSet()
      requires Valid()
      ensures forall sh :: sh in members ==> sh.hashPprev != Unset
    {
      forall sh | sh in members ensures sh.hashPprev != Unset {
        var b := BucketOf(sh.sector);
        assert ChainAt(b);
        var i :| 0 <= i < |chains[b]| && chains[b][i] == sh;
        assert EntryOk(b, chains[b], i);
      }
    }

    ghost predicate PartHolds(live: set<StripeHead>, part: TablePart)
      reads this, buckets, live`hashNext, live`hashPprev, live`sector
    {
      match part
      case Inside => members <= live
      case Chained => members <= live && Valid()
      case BackPointers => forall sh :: sh in live ==> (sh.hashPprev != Unset <==> sh in members)
    }

    /** Among the live stripes, hash_pprev is set on exactly those of the table. Quantified over its
        parts, to stay folded where it is only handed on. */
    ghost predicate Within(live: set<StripeHead>)
      reads this, buckets, live`hashNext, live`hashPprev, live`sector
    {
      forall part :: PartHolds(live, part)
    }

    lemma OpenTable(live: set<StripeHead>)
      requires Within(live)
      ensures members <= live && Valid() && forall sh :: sh in live ==> (sh.hashPprev != Unset <==> sh in members)
    {
      assert PartHolds(live, Inside) && PartHolds(live, Chained) && PartHolds(live, BackPointers);
    }

    lemma CloseTable(live: set<StripeHead>)
      requires members <= live && Valid() && forall sh :: sh in live ==> (sh.hashPprev != Unset <==> sh in members)
      ensures Within(live)
    {}

    method RemoveWithin(sh: StripeHead, ghost live: set<StripeHead>)
      requires Within(live) && sh in live
      modifies `chains, `table, `members, buckets, live`hashNext, live`hashPprev
      ensures Within(live) && sh !in members
      ensures table == if sh.sector in old(table) && old(table)[sh.sector] == sh then old(table) - {sh.sector}
                       else old(table)
    {
      OpenTable(live);
      Remove(sh);
      MembersSet();
      CloseTable(live);
    }

    method InsertWithin(sh: StripeHead, ghost live: set<StripeHead>)
      requires Within(live) && sh in live && sh !in members && sh.sector !in table
      modifies `chains, `table, `members, buckets, live`hashNext, live`hashPprev
      ensures Within(live) && table == old(table)[sh.sector := sh]
    {
      OpenTable(live);
      Insert(sh);
      MembersSet();
      CloseTable(live);
    }

    method FindWithin(sector: nat, ghost live: set<StripeHead>) returns (r: StripeHead?)
      requires Within(live)
      ensures r == if sector in table then table[sector] else null
      ensures r != null ==> r in live
    {
      OpenTable(live);
      r := Find(sector);
    }

    /** sh->sector = sector, while the stripe is on no chain. */
    method SetSector(sh: StripeHead, sector: nat, ghost live: set<StripeHead>)
      requires Within(live) && sh !in members
      modifies sh`sector
      ensures Within(live) && sh.sector == sector
    {
      OpenTable(live);
      sh.sector := sector;
      CloseTable(live);
    }

    lemma Entry(live: set<StripeHead>, sector: nat)
      requires Within(live) && sector in table
      ensures table[sector] in live && table[sector].sector == sector
    {
      OpenTable(live);
    }

    /** A stripe that has left the table may be freed, and a new one may join the live ones. */
    lemma Resize(live: set<StripeHead>, to: set<StripeHead>)
      requires Within(live) && forall sh :: sh in live && sh !in to ==> sh !in members
      requires forall sh :: sh in to && sh !in live ==> sh.hashPprev == Unset
      ensures Within(to)
    {
      OpenTable(live);
      CloseTable(to);
    }
  }
}
