/** The per-device request chains of src/jraid5.c: the sorted insertion of __add_stripe_bio and the
    coverage scan that sets R5_OVERWRITE, first on values and then on linked bios. */
module RequestChain {
  import opened Lists

  const STRIPE_SECTORS: nat := 8

  datatype Option<+T> = None | Some(value: T)

  /** The sectors of a bio: bi_sector and bi_size >> 9. */
  datatype Extent = Extent(sector: nat, len: nat) {
    function End(): nat { sector + len }
    predicate Has(k: nat) { sector <= k < End() }
  }

  /** The two tests of __add_stripe_bio that lead to "overlap", for a queued c and a new b. */
  predicate Clash(c: Extent, b: Extent) {
    c.sector < b.sector < c.End() || b.sector <= c.sector < b.End()
  }

  predicate Intersects(c: Extent, b: Extent) {
    c.sector < b.End() && b.sector < c.End()
  }

  ghost predicate SortedDisjoint(chain: seq<Extent>) {
    forall i, j :: 0 <= i < j < |chain| ==> chain[i].End() <= chain[j].sector
  }

  /** The place where the walk of lines 569-573 stops: the first bio at or after sector s. */
  function Seat(chain: seq<Extent>, s: nat, from: nat): (k: nat)
    requires from <= |chain|
    ensures from <= k <= |chain|
    ensures forall i :: from <= i < k ==> chain[i].sector < s
    ensures k < |chain| ==> s <= chain[k].sector
    decreases |chain| - from
  {
    if from < |chain| && chain[from].sector < s then Seat(chain, s, from + 1) else from
  }

  function InsertAt<T>(s: seq<T>, k: nat, x: T): (r: seq<T>)
    requires k <= |s|
    ensures |r| == |s| + 1 && r[k] == x
    ensures forall i :: 0 <= i < k ==> r[i] == s[i]
    ensures forall i :: k < i < |r| ==> r[i] == s[i - 1]
  {
    s[..k] + [x] + s[k..]
  }

  /** The insertion of __add_stripe_bio (lines 569-584) on values; None is "goto overlap". */
  function Insert(chain: seq<Extent>, b: Extent): Option<seq<Extent>> {
    var k := Seat(chain, b.sector, 0);
    if exists i :: 0 <= i < k && chain[i].End() > b.sector then None
    else if k < |chain| && chain[k].sector < b.End() then None
    else Some(InsertAt(chain, k, b))
  }

  /** Some sector of the stripe page starting at s is written by some bio of the chain. */
  ghost predicate CoveredAt(chain: seq<Extent>, k: nat) {
    exists i :: 0 <= i < |chain| && chain[i].Has(k)
  }

  ghost predicate Covers(chain: seq<Extent>, s: nat) {
    forall k: nat :: s <= k < s + STRIPE_SECTORS ==> CoveredAt(chain, k)
  }

  // ----- Insertion

  /** Insertion refuses exactly when the new bio clashes with one already queued ... */
  lemma RefusesExactly(chain: seq<Extent>, b: Extent)
    requires SortedDisjoint(chain)
    ensures Insert(chain, b) == None <==> exists i :: 0 <= i < |chain| && Clash(chain[i], b)
  {
    var k := Seat(chain, b.sector, 0);
    if i :| 0 <= i < k && chain[i].End() > b.sector {
      assert Clash(chain[i], b);
    } else if k < |chain| && chain[k].sector < b.End() {
      assert Clash(chain[k], b);
    }
  }

  /** ... which for non-empty bios is: exactly when it intersects one already queued. */
  lemma RefusesIntersections(chain: seq<Extent>, b: Extent)
    requires SortedDisjoint(chain)
    requires b.len > 0 && forall i :: 0 <= i < |chain| ==> chain[i].len > 0
    ensures Insert(chain, b) == None <==> exists i :: 0 <= i < |chain| && Intersects(chain[i], b)
  {
    RefusesExactly(chain, b);
    assert forall i :: 0 <= i < |chain| ==> (Clash(chain[i], b) <==> Intersects(chain[i], b));
  }

  /** Some sector belongs to both bios. */
  ghost predicate Shares(c: Extent, b: Extent) {
    exists k: nat :: c.Has(k) && b.Has(k)
  }

  lemma SharesExactly(c: Extent, b: Extent)
    ensures Shares(c, b) <==> Intersects(c, b) && c.len > 0 && b.len > 0
  {
    var k := if c.sector < b.sector then b.sector else c.sector;
    assert Intersects(c, b) && c.len > 0 && b.len > 0 ==> c.Has(k) && b.Has(k);
  }

  /** One of the two is empty and lies where the code takes it for an overlap: a queued empty bio
      within the new one, its first sector included, or a new empty bio strictly inside a queued one. */
  predicate EmptyInside(c: Extent, b: Extent) {
    (c.len == 0 && b.sector <= c.sector < b.End()) || (b.len == 0 && c.sector < b.sector < c.End())
  }

  /** In general the code is right about a new bio, refused exactly when it shares a sector with a
      queued one, if and only if it does share one or no empty bio is inside another. */
  lemma RefusesRightly(chain: seq<Extent>, b: Extent)
    requires SortedDisjoint(chain)
    ensures var shares := exists i :: 0 <= i < |chain| && Shares(chain[i], b);
            (Insert(chain, b) == None <==> shares) <==>
            shares || forall i :: 0 <= i < |chain| ==> !EmptyInside(chain[i], b)
  {
    RefusesExactly(chain, b);
    forall i | 0 <= i < |chain|
      ensures Clash(chain[i], b) <==> Shares(chain[i], b) || EmptyInside(chain[i], b)
    {
      SharesExactly(chain[i], b);
    }
  }

  /** The three ways in which it is wrong: a queued empty bio at the first sector of a write or inside
      it, and a new empty bio inside a queued write. */
  lemma EmptyBioBlocks(s: nat, len: nat, k: nat)
    requires s < k < s + len
    ensures Insert([Extent(s, 0)], Extent(s, len)) == None && !Shares(Extent(s, 0), Extent(s, len))
    ensures Insert([Extent(k, 0)], Extent(s, len)) == None && !Shares(Extent(k, 0), Extent(s, len))
    ensures Insert([Extent(s, len)], Extent(k, 0)) == None && !Shares(Extent(s, len), Extent(k, 0))
  {
    assert Seat([Extent(s, 0)], s, 0) == 0 && Seat([Extent(k, 0)], s, 0) == 0;
    assert [Extent(s, len)][0].End() > k;
    assert Seat([Extent(s, len)], k, 0) == 1;
  }

  lemma InsertFirst(b: Extent)
    ensures Insert([], b) == Some([b])
  {
    assert Seat([], b.sector, 0) == 0;
    assert InsertAt([], 0, b) == [b];
  }

  /** An accepted bio is added, nothing else changes, and the chain stays sorted and disjoint. */
  lemma InsertKeeps(chain: seq<Extent>, b: Extent)
    requires SortedDisjoint(chain) && Insert(chain, b).Some?
    ensures SortedDisjoint(Insert(chain, b).value)
    ensures multiset(Insert(chain, b).value) == multiset(chain) + multiset{b}
  {
    var k := Seat(chain, b.sector, 0);
    InsertAtMultiset(chain, k, b);
    SpliceSorted(chain, b, k, InsertAt(chain, k, b));
  }

  lemma InsertAtMultiset<T>(s: seq<T>, k: nat, x: T)
    requires k <= |s|
    ensures multiset(InsertAt(s, k, x)) == multiset(s) + multiset{x}
  {
    assert s == s[..k] + s[k..];
  }

  lemma SpliceSorted(chain: seq<Extent>, b: Extent, k: nat, after: seq<Extent>)
    requires SortedDisjoint(chain) && k <= |chain| && |after| == |chain| + 1 && after[k] == b
    requires forall i :: 0 <= i < k ==> after[i] == chain[i]
    requires forall i :: k < i < |after| ==> after[i] == chain[i - 1]
    requires forall i :: 0 <= i < k ==> chain[i].End() <= b.sector
    requires k < |chain| ==> b.End() <= chain[k].sector
    ensures SortedDisjoint(after)
  {
    assert forall i :: k <= i < |chain| ==> b.End() <= chain[i].sector;
  }

  /** Coverage is never lost by queueing more. */
  lemma InsertKeepsCover(chain: seq<Extent>, b: Extent, s: nat)
    requires SortedDisjoint(chain) && Insert(chain, b).Some? && Covers(chain, s)
    ensures Covers(Insert(chain, b).value, s)
  {
    InsertKeeps(chain, b);
    var after := Insert(chain, b).value;
    forall k: nat | s <= k < s + STRIPE_SECTORS ensures CoveredAt(after, k) {
      assert CoveredAt(chain, k);
      var i :| 0 <= i < |chain| && chain[i].sector <= k < chain[i].End();
      assert chain[i] in multiset(chain);
      assert chain[i] in multiset(after);
      assert chain[i] in after;
    }
  }

  // ----- The linked form

  class Bio {
    const sector: nat
    const len: nat
    var next: Bio?

    constructor (sector: nat, len: nat)
      ensures this.sector == sector && this.len == len && next == null
    {
      this.sector, this.len, next := sector, len, null;
    }

    function Range(): Extent { Extent(sector, len) }
  }

  ghost function Ranges(bios: seq<Bio>): (e: seq<Extent>)
    ensures |e| == |bios|
  {
    seq(|bios|, i requires 0 <= i < |bios| => bios[i].Range())
  }

  /** bios are exactly the elements of the list that starts at head. */
  ghost predicate Linked(head: Bio?, bios: seq<Bio>)
    reads (set b | b in bios)`next
  {
    && head == (if bios == [] then null else bios[0])
    && (forall i :: 0 <= i < |bios| - 1 ==> bios[i].next == bios[i + 1])
    && (bios != [] ==> bios[|bios| - 1].next == null)
  }

  /** after is before with bi inserted where Insert puts its extent. */
  ghost predicate Queued(before: seq<Bio>, bi: Bio, after: seq<Bio>) {
    && Insert(Ranges(before), bi.Range()) == Some(Ranges(after))
    && multiset(after) == multiset(before) + multiset{bi}
  }

  /** What offering bi to a chain does: queued where Insert says, or refused with no change. */
  ghost predicate Outcome(before: seq<Bio>, bi: Bio, ok: bool, after: seq<Bio>) {
    && (ok <==> Insert(Ranges(before), bi.Range()).Some?)
    && (if ok then Queued(before, bi, after) else after == before)
  }

  lemma QueuedAt(before: seq<Bio>, bi: Bio, k: nat, after: seq<Bio>)
    requires SortedDisjoint(Ranges(before)) && Insert(Ranges(before), bi.Range()).Some?
    requires k == Seat(Ranges(before), bi.sector, 0) && after == InsertAt(before, k, bi)
    ensures Queued(before, bi, after) && SortedDisjoint(Ranges(after))
    ensures forall b :: b in after <==> b in before || b == bi
  {
    RangesInsertAt(before, k, bi);
    InsertKeeps(Ranges(before), bi.Range());
    InsertAtMultiset(before, k, bi);
    QueuedMembers(before, bi, after);
  }

  lemma RangesInsertAt(before: seq<Bio>, k: nat, bi: Bio)
    requires k <= |before|
    ensures Ranges(InsertAt(before, k, bi)) == InsertAt(Ranges(before), k, bi.Range())
  {}

  lemma QueuedMembers(before: seq<Bio>, bi: Bio, after: seq<Bio>)
    requires multiset(after) == multiset(before) + multiset{bi}
    ensures forall b :: b in after <==> b in before || b == bi
  {
    assert forall b :: b in after <==> b in multiset(after);
  }

  /** struct r5dev: the two chains of one device slot of a stripe, its sector and two flags. */
  class Slot {
    var toread: Bio?
    var towrite: Bio?
    var sector: nat
    var overwrite: bool  // R5_OVERWRITE
    var overlap: bool    // R5_Overlap
    ghost var readBios: seq<Bio>
    ghost var writeBios: seq<Bio>

    ghost predicate Valid()
      reads `toread, `towrite, `readBios, `writeBios, (set b | b in readBios + writeBios)`next
    {
      && Linked(toread, readBios)
      && Linked(towrite, writeBios)
      && Distinct(readBios) && Distinct(writeBios)
      && (forall b :: b in readBios ==> b !in writeBios)
      && SortedDisjoint(Ranges(readBios))
      && SortedDisjoint(Ranges(writeBios))
    }

    /** Walks one chain through a pointer to a pointer: prev is the bio whose next field bip points
        at, or null while bip points at the head of the chain. */
    static method Seek(head: Bio?, bi: Bio, ghost bios: seq<Bio>) returns (ok: bool, prev: Bio?, at: Bio?, ghost k: nat)
      requires Linked(head, bios)
      ensures ok <==> Insert(Ranges(bios), bi.Range()).Some?
      ensures ok ==> k == Seat(Ranges(bios), bi.sector, 0)
      ensures ok ==> prev == (if k == 0 then null else bios[k - 1])
      ensures ok ==> at == (if k == |bios| then null else bios[k])
    {
      prev, at, k := null, head, 0;
      ghost var ranges := Ranges(bios);
      while at != null && at.sector < bi.sector
        invariant k <= |bios|
        invariant prev == (if k == 0 then null else bios[k - 1])
        invariant at == (if k == |bios| then null else bios[k])
        invariant Seat(ranges, bi.sector, 0) == Seat(ranges, bi.sector, k)
        invariant forall i :: 0 <= i < k ==> ranges[i].End() <= bi.sector
        decreases |bios| - k
      {
        if at.sector + at.len > bi.sector {
          assert ranges[k].End() > bi.sector;
          return false, prev, at, k;
        }
        prev, at, k := at, at.next, k + 1;
      }
      ok := at == null || at.sector >= bi.sector + bi.len;
    }

    /** Lines 580-584: links bi in before at; the result is the head of the chain afterwards. */
    static method Splice(prev: Bio?, at: Bio?, head: Bio?, bi: Bio, ghost bios: seq<Bio>, ghost k: nat)
      returns (head': Bio?)
      requires Linked(head, bios) && Distinct(bios) && bi !in bios && bi.next == null && k <= |bios|
      requires prev == (if k == 0 then null else bios[k - 1])
      requires at == (if k == |bios| then null else bios[k])
      modifies bi`next, (set b | b in bios)`next
      ensures Linked(head', InsertAt(bios, k, bi)) && Distinct(InsertAt(bios, k, bi))
    {
      if at != null {
        bi.next := at;
      }
      if prev != null {
        prev.next := bi;
        head' := head;
      } else {
        head' := bi;
      }
    }

    /** Lines 596-613: the coverage scan over the write chain. */
    method Scan() returns (covered: bool)
      requires Valid()
      ensures covered <==> Covers(Ranges(writeBios), sector)
    {
      var reached := sector;
      var bi := towrite;
      ghost var ranges := Ranges(writeBios);
      ghost var j := 0;
      while reached < sector + STRIPE_SECTORS && bi != null && bi.sector <= reached
        invariant 0 <= j <= |writeBios| && sector <= reached
        invariant forall i :: 0 <= i < j ==> ranges[i].End() <= reached
        invariant forall k: nat :: sector <= k < reached ==> CoveredAt(ranges, k)
        invariant bi == (if j == |writeBios| then null else writeBios[j]) || reached >= sector + STRIPE_SECTORS
        decreases |writeBios| - j
      {
        assert bi == writeBios[j] && bi.Range() == ranges[j];
        if bi.sector + bi.len >= reached {
          reached := bi.sector + bi.len;
        }
        if bi.sector + bi.len < sector + STRIPE_SECTORS {
          bi := bi.next;
        } else {
          bi := null;
        }
        j := j + 1;
      }
      covered := reached >= sector + STRIPE_SECTORS;
      if !covered {
        if j < |writeBios| {
          assert ranges[j].sector > reached;
        }
        assert !CoveredAt(ranges, reached);
      }
    }

    static method InsertInto(head: Bio?, bi: Bio, ghost bios: seq<Bio>)
      returns (ok: bool, head': Bio?, ghost after: seq<Bio>)
      requires Linked(head, bios) && Distinct(bios) && SortedDisjoint(Ranges(bios))
      requires bi !in bios && bi.next == null
      modifies bi`next, (set b | b in bios)`next
      ensures Outcome(bios, bi, ok, after)
      ensures forall b :: b in after ==> b in bios || b == bi
      ensures Linked(head', after) && Distinct(after) && SortedDisjoint(Ranges(after))
    {
      var prev, at;
      ghost var k;
      ok, prev, at, k := Seek(head, bi, bios);
      head', after := head, bios;
      if ok {
        after := InsertAt(bios, k, bi);
        QueuedAt(bios, bi, k, after);
        head' := Splice(prev, at, head, bi, bios, k);
      }
    }

    method EnqueueWrite(bi: Bio) returns (ok: bool)
      requires Valid() && bi.next == null && bi !in readBios && bi !in writeBios
      modifies `towrite, `writeBios, bi`next, (set b | b in writeBios)`next
      ensures Valid()
      ensures Outcome(old(writeBios), bi, ok, writeBios)
      ensures forall b :: b in writeBios ==> b in old(writeBios) || b == bi
    {
      ok, towrite, writeBios := InsertInto(towrite, bi, writeBios);
    }

    method EnqueueRead(bi: Bio) returns (ok: bool)
      requires Valid() && bi.next == null && bi !in readBios && bi !in writeBios
      modifies `toread, `readBios, bi`next, (set b | b in readBios)`next
      ensures Valid()
      ensures Outcome(old(readBios), bi, ok, readBios)
      ensures forall b :: b in readBios ==> b in old(readBios) || b == bi
    {
      ok, toread, readBios := InsertInto(toread, bi, readBios);
    }

    method SetFlags(overlapping: bool, covered: bool)
      requires Valid()
      modifies `overlap, `overwrite
      ensures Valid()
      ensures overlap == (old(overlap) || overlapping)
      ensures overwrite == (old(overwrite) || covered)
    {
      if overlapping {
        overlap := true;
      }
      if covered {
        overwrite := true;
      }
    }

    /** The write side of __add_stripe_bio: the insertion and then the scan. */
    method AddWrite(bi: Bio) returns (ok: bool, covered: bool)
      requires Valid() && bi.next == null && bi !in readBios && bi !in writeBios
      modifies `towrite, `writeBios, bi`next, (set b | b in writeBios)`next
      ensures Valid() && Outcome(old(writeBios), bi, ok, writeBios)
      ensures covered <==> ok && Covers(Ranges(writeBios), sector)
    {
      covered := false;
      ok := EnqueueWrite(bi);
      if ok {
        covered := Scan();
      }
    }

    /** __add_stripe_bio. The caller has reset bi_next (line 1120) and hands in a bio that is not
        queued here; the result says whether the bio was queued. */
    method AddStripeBio(bi: Bio, forwrite: bool) returns (ok: bool)
      requires Valid()
      requires bi.next == null && bi !in readBios && bi !in writeBios
      modifies this, bi`next, (set b | b in readBios + writeBios)`next
      ensures Valid() && sector == old(sector)
      ensures forwrite ==> readBios == old(readBios) && Outcome(old(writeBios), bi, ok, writeBios)
      ensures !forwrite ==> writeBios == old(writeBios) && Outcome(old(readBios), bi, ok, readBios)
      ensures overlap == (old(overlap) || !ok)
      ensures overwrite == (old(overwrite) || (ok && forwrite && Covers(Ranges(writeBios), sector)))
    {
      if forwrite {
        ok := AddWriteBio(bi);
      } else {
        ok := AddReadBio(bi);
      }
    }

    method AddWriteBio(bi: Bio) returns (ok: bool)
      requires Valid() && bi.next == null && bi !in readBios && bi !in writeBios
      modifies `towrite, `writeBios, `overlap, `overwrite, bi`next, (set b | b in writeBios)`next
      ensures Valid() && Outcome(old(writeBios), bi, ok, writeBios)
      ensures overlap == (old(overlap) || !ok)
      ensures overwrite == (old(overwrite) || (ok && Covers(Ranges(writeBios), sector)))
    {
      var covered;
      ok, covered := AddWrite(bi);
      SetFlags(!ok, covered);
    }

    method AddReadBio(bi: Bio) returns (ok: bool)
      requires Valid() && bi.next == null && bi !in readBios && bi !in writeBios
      modifies `toread, `readBios, `overlap, `overwrite, bi`next, (set b | b in readBios)`next
      ensures Valid() && Outcome(old(readBios), bi, ok, readBios)
      ensures overlap == (old(overlap) || !ok) && overwrite == old(overwrite)
    {
      ok := EnqueueRead(bi);
      SetFlags(!ok, false);
    }
  }
}
