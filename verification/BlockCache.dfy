/** The radix-indexed block cache of attach/tpblkdev/radix_demo.c: page splitting, tagging, batched
    enumeration and teardown. The radix tree is a map from page indices to blocks with two tag sets. */
module BlockCache {
  import opened Lists

  const PAGE_SIZE: nat := 4096
  const PAGE_SECTORS: nat := 8
  const SECTOR: nat := 512
  const BATCH: nat := 16 // BLKS_VEC_SIZE
  const ENOMEM: int := 12

  datatype Segment = Segment(len: nat)

  datatype Bio = Bio(write: bool, sector: nat, segs: seq<Segment>)

  // ----- The cache as a value

  /** The indices present, the two tag sets and the four counters. */
  datatype Cache = Cache(present: set<nat>, dirty: set<nat>, tsync: set<nat>,
                         dirtyBlks: nat, tsyncBlks: nat, writeBlks: nat, readBlks: nat)

  /** The pages of one call of blk_dev_write or blk_dev_read, in order (nr is their number). */
  function PagesOf(sector: nat, len: nat): (pages: seq<nat>) {
    var offset := sector % PAGE_SECTORS * SECTOR;
    var first := sector / PAGE_SECTORS;
    if len > PAGE_SIZE - offset then [first, first + 1] else [first]
  }

  /** One turn of the loop of blk_dev_write or blk_dev_read on page p, which is present. */
  function Mark(c: Cache, write: bool, p: nat): Cache {
    if write then c.(dirty := c.dirty + {p}, tsync := c.tsync + {p}, dirtyBlks := c.dirtyBlks + 1,
                     tsyncBlks := c.tsyncBlks + 1, writeBlks := c.writeBlks + 1)
    else c.(readBlks := c.readBlks + 1)
  }

  /** The loop from turn i on, for segment k; memory(k, i) says whether an allocation in that turn
      would succeed. */
  function Transfer(c: Cache, write: bool, pages: seq<nat>, memory: (nat, nat) -> bool, k: nat, i: nat): (Cache, int)
    requires i <= |pages|
    decreases |pages| - i
  {
    if i == |pages| then (c, 0)
    else if pages[i] !in c.present && !memory(k, i) then (c, -ENOMEM)
    else Transfer(Mark(c.(present := c.present + {pages[i]}), write, pages[i]), write, pages, memory, k, i + 1)
  }

  /** simp_make_request from segment k on, at the given sector; an error ends it. */
  function Request(c: Cache, bio: Bio, memory: (nat, nat) -> bool, k: nat, sector: nat): Cache
    requires k <= |bio.segs|
    decreases |bio.segs| - k
  {
    if k == |bio.segs| then c
    else
      var len := bio.segs[k].len;
      var (d, rc) := Transfer(c, bio.write, PagesOf(sector, len), memory, k, 0);
      if rc != 0 then d else Request(d, bio, memory, k + 1, sector + len / SECTOR)
  }

  /** A sequence of requests, each with its own allocation results. */
  function Requests(c: Cache, bios: seq<Bio>, memory: seq<(nat, nat) -> bool>): Cache
    requires |memory| == |bios|
  {
    if bios == [] then c
    else
      var n := |bios| - 1;
      Request(Requests(c, bios[..n], memory[..n]), bios[n], memory[n], 0, bios[n].sector)
  }

  // ----- Page splitting

  /** Page p shares a byte with the len bytes from sector on. */
  predicate Overlaps(p: nat, sector: nat, len: nat) {
    p * PAGE_SIZE < sector * SECTOR + len && sector * SECTOR < (p + 1) * PAGE_SIZE && len > 0
  }

  /** The split touches exactly the overlapped pages if and only if there is something to transfer
      and it ends within the next page. */
  lemma SplitExactly(sector: nat, len: nat)
    ensures (forall p: nat :: p in PagesOf(sector, len) <==> Overlaps(p, sector, len))
       <==> 0 < len <= 2 * PAGE_SIZE - sector % PAGE_SECTORS * SECTOR
  {
    var first, offset := sector / PAGE_SECTORS, sector % PAGE_SECTORS * SECTOR;
    assert sector * SECTOR == first * PAGE_SIZE + offset;
    if len == 0 {
      assert first in PagesOf(sector, len) && !Overlaps(first, sector, len);
    } else if len > 2 * PAGE_SIZE - offset {
      assert Overlaps(first + 2, sector, len) && first + 2 !in PagesOf(sector, len);
    } else {
      forall p: nat ensures p in PagesOf(sector, len) <==> Overlaps(p, sector, len) {
        if p < first {
          assert (p + 1) * PAGE_SIZE <= first * PAGE_SIZE;
        } else if p >= first + 2 {
          assert p * PAGE_SIZE >= (first + 2) * PAGE_SIZE;
        }
      }
    }
  }

  // ----- What the tags say

  function Total(segs: seq<Segment>, k: nat): nat
    requires k <= |segs|
    decreases |segs| - k
  {
    if k == |segs| then 0 else segs[k].len + Total(segs, k + 1)
  }

  /** Segments of at most one page, in multiples of 512 bytes. */
  predicate WellFormed(bio: Bio) {
    forall k :: 0 <= k < |bio.segs| ==> 0 < bio.segs[k].len <= PAGE_SIZE && bio.segs[k].len % SECTOR == 0
  }

  ghost predicate NoFailure(memory: (nat, nat) -> bool) {
    forall k, i :: memory(k, i)
  }

  /** Every allocation in the segments from k up to n succeeds. */
  ghost predicate HasMemory(memory: (nat, nat) -> bool, k: nat, n: nat) {
    forall j, i :: k <= j < n ==> memory(j, i)
  }

  /** d is c with the pages of set S added, and tagged if written. */
  ghost predicate Adds(c: Cache, d: Cache, write: bool, sector: nat, len: nat) {
    && (forall p: nat :: p in d.present <==> p in c.present || Overlaps(p, sector, len))
    && (forall p: nat :: p in d.dirty <==> p in c.dirty || (write && Overlaps(p, sector, len)))
    && (forall p: nat :: p in d.tsync <==> p in c.tsync || (write && Overlaps(p, sector, len)))
  }

  lemma TransferAdds(c: Cache, write: bool, sector: nat, len: nat, memory: (nat, nat) -> bool, k: nat)
    requires memory(k, 0) && memory(k, 1) && 0 < len <= PAGE_SIZE && len % SECTOR == 0
    ensures var (d, rc) := Transfer(c, write, PagesOf(sector, len), memory, k, 0);
            rc == 0 && Adds(c, d, write, sector, len)
  {
    SplitExactly(sector, len);
    var pages := PagesOf(sector, len);
    var c1 := Mark(c.(present := c.present + {pages[0]}), write, pages[0]);
    if |pages| == 2 {
      var c2 := Mark(c1.(present := c1.present + {pages[1]}), write, pages[1]);
      assert Transfer(c1, write, pages, memory, k, 1) == (c2, 0);
    } else {
      assert Transfer(c1, write, pages, memory, k, 1) == (c1, 0);
    }
  }

  /** Two adjacent ranges overlap the pages that the joined range overlaps. */
  lemma Joined(p: nat, sector: nat, a: nat, b: nat)
    requires a % SECTOR == 0
    ensures Overlaps(p, sector, a + b) <==> Overlaps(p, sector, a) || Overlaps(p, sector + a / SECTOR, b)
  {
    assert (sector + a / SECTOR) * SECTOR == sector * SECTOR + a;
  }

  lemma {:induction false} RequestAdds(c: Cache, bio: Bio, memory: (nat, nat) -> bool, k: nat, sector: nat)
    requires HasMemory(memory, k, |bio.segs|) && WellFormed(bio) && k <= |bio.segs|
    ensures Adds(c, Request(c, bio, memory, k, sector), bio.write, sector, Total(bio.segs, k))
    decreases |bio.segs| - k
  {
    if k < |bio.segs| {
      var len := bio.segs[k].len;
      var d := Transfer(c, bio.write, PagesOf(sector, len), memory, k, 0).0;
      TransferAdds(c, bio.write, sector, len, memory, k);
      RequestAdds(d, bio, memory, k + 1, sector + len / SECTOR);
      forall p: nat ensures Overlaps(p, sector, Total(bio.segs, k)) <==>
                            Overlaps(p, sector, len) || Overlaps(p, sector + len / SECTOR, Total(bio.segs, k + 1)) {
        Joined(p, sector, len, Total(bio.segs, k + 1));
      }
    }
  }

  /** Some write among the requests overlaps page p. */
  ghost predicate WrittenBy(bios: seq<Bio>, p: nat) {
    exists j :: 0 <= j < |bios| && bios[j].write && Overlaps(p, bios[j].sector, Total(bios[j].segs, 0))
  }

  /** After any requests without an allocation failure, the pages tagged DIRTY, and those tagged
      TSYNC, are exactly the pages overlapped by some write. */
  lemma {:induction false} TagsExactly(bios: seq<Bio>, memory: seq<(nat, nat) -> bool>, c: Cache)
    requires |memory| == |bios| && (forall j :: 0 <= j < |bios| ==> WellFormed(bios[j]) && NoFailure(memory[j]))
    requires c.dirty == c.tsync == {}
    ensures var d := Requests(c, bios, memory);
            && (forall p: nat :: p in d.dirty <==> WrittenBy(bios, p))
            && d.tsync == d.dirty
  {
    if bios != [] {
      var n := |bios| - 1;
      TagsExactly(bios[..n], memory[..n], c);
      RequestAdds(Requests(c, bios[..n], memory[..n]), bios[n], memory[n], 0, bios[n].sector);
      forall p: nat ensures WrittenBy(bios, p) <==>
        WrittenBy(bios[..n], p) || (bios[n].write && Overlaps(p, bios[n].sector, Total(bios[n].segs, 0)))
      {
        if WrittenBy(bios[..n], p) {
          var j :| 0 <= j < n && bios[..n][j].write && Overlaps(p, bios[..n][j].sector, Total(bios[..n][j].segs, 0));
          assert bios[j] == bios[..n][j];
        }
        if WrittenBy(bios, p) {
          var j :| 0 <= j < |bios| && bios[j].write && Overlaps(p, bios[j].sector, Total(bios[j].segs, 0));
          assert j < n ==> bios[..n][j] == bios[j];
        }
      }
    }
  }

  // ----- What an allocation failure leaves

  /** The first n segments of a bio. */
  function Cut(bio: Bio, n: nat): Bio
    requires n <= |bio.segs|
  {
    bio.(segs := bio.segs[..n])
  }

  /** The sectors of the segments from k up to n. */
  function Sectors(segs: seq<Segment>, k: nat, n: nat): nat
    requires k <= n <= |segs|
    decreases n - k
  {
    if k == n then 0 else segs[k].len / SECTOR + Sectors(segs, k + 1, n)
  }

  lemma TransferSucceeds(c: Cache, write: bool, pages: seq<nat>, memory: (nat, nat) -> bool, k: nat, i: nat)
    requires i <= |pages| && forall j :: i <= j < |pages| ==> memory(k, j)
    ensures Transfer(c, write, pages, memory, k, i).1 == 0
    decreases |pages| - i
  {}

  /** As long as there is memory, the first segments and the rest may be taken one after the other. */
  lemma {:induction false} RequestSplits(c: Cache, bio: Bio, memory: (nat, nat) -> bool, k: nat, n: nat, sector: nat)
    requires k <= n <= |bio.segs| && HasMemory(memory, k, n)
    ensures Request(c, bio, memory, k, sector) ==
            Request(Request(c, Cut(bio, n), memory, k, sector), bio, memory, n, sector + Sectors(bio.segs, k, n))
    decreases n - k
  {
    if k < n {
      var pages := PagesOf(sector, bio.segs[k].len);
      TransferSucceeds(c, bio.write, pages, memory, k, 0);
      var d := Transfer(c, bio.write, pages, memory, k, 0).0;
      RequestSplits(d, bio, memory, k + 1, n, sector + bio.segs[k].len / SECTOR);
    }
  }

  /** The cache after the first page of a split. */
  function FirstPage(c: Cache, write: bool, p: nat): Cache {
    Mark(c.(present := c.present + {p}), write, p)
  }

  lemma TransferStops(c: Cache, write: bool, pages: seq<nat>, memory: (nat, nat) -> bool, k: nat)
    requires 1 <= |pages| <= 2
    ensures pages[0] !in c.present && !memory(k, 0) ==> Transfer(c, write, pages, memory, k, 0) == (c, -12)
    ensures var first := FirstPage(c, write, pages[0]);
            (pages[0] in c.present || memory(k, 0)) && |pages| == 2 && pages[1] !in first.present && !memory(k, 1) ==>
              Transfer(c, write, pages, memory, k, 0) == (first, -12)
  {
    if (pages[0] in c.present || memory(k, 0)) && |pages| == 2 {
      var first := FirstPage(c, write, pages[0]);
      assert Transfer(c, write, pages, memory, k, 0) == Transfer(first, write, pages, memory, k, 1);
    }
  }

  /** The request ends at the first page that cannot be allocated: the segments before it have been
      transferred, and so has the page before it in its own segment, and nothing else. */
  lemma FailureStops(c: Cache, bio: Bio, memory: (nat, nat) -> bool, n: nat)
    requires WellFormed(bio) && n < |bio.segs| && HasMemory(memory, 0, n)
    ensures var before := Request(c, Cut(bio, n), memory, 0, bio.sector);
            var pages := PagesOf(bio.sector + Sectors(bio.segs, 0, n), bio.segs[n].len);
            var first := FirstPage(before, bio.write, pages[0]);
            && Adds(c, before, bio.write, bio.sector, Total(bio.segs[..n], 0))
            && (pages[0] !in before.present && !memory(n, 0) ==>
                  Request(c, bio, memory, 0, bio.sector) == before)
            && ((pages[0] in before.present || memory(n, 0)) && |pages| == 2
                && pages[1] !in first.present && !memory(n, 1) ==>
                  Request(c, bio, memory, 0, bio.sector) == first)
  {
    RequestSplits(c, bio, memory, 0, n, bio.sector);
    RequestAdds(c, Cut(bio, n), memory, 0, bio.sector);
    var before := Request(c, Cut(bio, n), memory, 0, bio.sector);
    TransferStops(before, bio.write, PagesOf(bio.sector + Sectors(bio.segs, 0, n), bio.segs[n].len), memory, n);
  }

  /** How many pages the segments from k on are split into. */
  function Pieces(segs: seq<Segment>, k: nat, sector: nat): nat
    requires k <= |segs|
    decreases |segs| - k
  {
    if k == |segs| then 0
    else |PagesOf(sector, segs[k].len)| + Pieces(segs, k + 1, sector + segs[k].len / SECTOR)
  }

  lemma {:induction false} TransferCounts(c: Cache, write: bool, pages: seq<nat>, memory: (nat, nat) -> bool,
                                          k: nat, i: nat)
    requires i <= |pages| && forall j :: i <= j < |pages| ==> memory(k, j)
    ensures var d := Transfer(c, write, pages, memory, k, i).0;
            && d.writeBlks == c.writeBlks + (if write then |pages| - i else 0)
            && d.readBlks == c.readBlks + if write then 0 else |pages| - i
    decreases |pages| - i
  {
    if i < |pages| {
      TransferCounts(Mark(c.(present := c.present + {pages[i]}), write, pages[i]), write, pages, memory, k, i + 1);
    }
  }

  /** Without failures every piece is counted once, as a write or as a read. */
  lemma {:induction false} RequestCounts(c: Cache, bio: Bio, memory: (nat, nat) -> bool, k: nat, sector: nat)
    requires HasMemory(memory, k, |bio.segs|) && k <= |bio.segs|
    ensures var d := Request(c, bio, memory, k, sector);
            && d.writeBlks == c.writeBlks + (if bio.write then Pieces(bio.segs, k, sector) else 0)
            && d.readBlks == c.readBlks + if bio.write then 0 else Pieces(bio.segs, k, sector)
    decreases |bio.segs| - k
  {
    if k < |bio.segs| {
      var pages := PagesOf(sector, bio.segs[k].len);
      TransferSucceeds(c, bio.write, pages, memory, k, 0);
      TransferCounts(c, bio.write, pages, memory, k, 0);
      var d := Transfer(c, bio.write, pages, memory, k, 0).0;
      RequestCounts(d, bio, memory, k + 1, sector + bio.segs[k].len / SECTOR);
    }
  }

  // ----- What the counters say, also when allocations fail

  /** Both tags agree and are on pages that are present; the three write counters agree, and they
      count at least the tagged pages. */
  ghost predicate Sound(c: Cache) {
    && c.tsync == c.dirty <= c.present
    && c.dirtyBlks == c.tsyncBlks == c.writeBlks >= |c.dirty|
  }

  /** set_blk_dirty counts a page that is already dirty again, against its comment. */
  lemma DirtyCountedAgain(c: Cache, p: nat)
    requires Sound(c) && p in c.present
    ensures Sound(Mark(c, true, p))
    ensures Mark(c, true, p).dirtyBlks - |Mark(c, true, p).dirty| ==
            c.dirtyBlks - |c.dirty| + if p in c.dirty then 1 else 0
  {
    if p in c.dirty {
      assert c.dirty + {p} == c.dirty;
    }
  }

  lemma {:induction false} TransferSound(c: Cache, write: bool, pages: seq<nat>, memory: (nat, nat) -> bool,
                                         k: nat, i: nat)
    requires Sound(c) && i <= |pages|
    ensures Sound(Transfer(c, write, pages, memory, k, i).0)
    decreases |pages| - i
  {
    if i < |pages| && (pages[i] in c.present || memory(k, i)) {
      var grown := c.(present := c.present + {pages[i]});
      DirtyCountedAgain(grown, pages[i]);
      TransferSound(Mark(grown, write, pages[i]), write, pages, memory, k, i + 1);
    }
  }

  lemma {:induction false} RequestSound(c: Cache, bio: Bio, memory: (nat, nat) -> bool, k: nat, sector: nat)
    requires Sound(c) && k <= |bio.segs|
    ensures Sound(Request(c, bio, memory, k, sector))
    decreases |bio.segs| - k
  {
    if k < |bio.segs| {
      var len := bio.segs[k].len;
      TransferSound(c, bio.write, PagesOf(sector, len), memory, k, 0);
      var (d, rc) := Transfer(c, bio.write, PagesOf(sector, len), memory, k, 0);
      if rc == 0 {
        RequestSound(d, bio, memory, k + 1, sector + len / SECTOR);
      }
    }
  }

  lemma {:induction false} RequestsSound(c: Cache, bios: seq<Bio>, memory: seq<(nat, nat) -> bool>)
    requires Sound(c) && |memory| == |bios|
    ensures Sound(Requests(c, bios, memory))
  {
    if bios != [] {
      var n := |bios| - 1;
      RequestsSound(c, bios[..n], memory[..n]);
      RequestSound(Requests(c, bios[..n], memory[..n]), bios[n], memory[n], 0, bios[n].sector);
    }
  }

  // ----- The device

  /** struct _ioblk. */
  class Block {
    const index: nat

    constructor (index: nat)
      ensures this.index == index
    {
      this.index := index;
    }
  }

  /** struct dummy_device. */
  class Device {
    var pages: map<nat, Block>
    var dirty: set<nat>
    var tsync: set<nat>
    var dirtyBlks: nat
    var tsyncBlks: nat
    var writeBlks: nat
    var readBlks: nat
    const size: nat // in sectors

    ghost predicate Valid()
      reads this
    {
      && (forall p :: p in pages ==> pages[p].index == p)
      && dirty <= pages.Keys && tsync <= pages.Keys
    }

    constructor (size: nat)
      ensures Valid() && View() == Cache({}, {}, {}, 0, 0, 0, 0) && this.size == size
    {
      pages, dirty, tsync := map[], {}, {};
      dirtyBlks, tsyncBlks, writeBlks, readBlks := 0, 0, 0, 0;
      this.size := size;
    }

    ghost function View(): Cache
      reads this
    {
      Cache(pages.Keys, dirty, tsync, dirtyBlks, tsyncBlks, writeBlks, readBlks)
    }

    /** dev_insert_page: the block of the page, made if it is absent; null without memory. */
    method InsertPage(sector: nat, memory: bool) returns (blk: Block?)
      requires Valid()
      modifies `pages
      ensures Valid()
      ensures var p := sector / PAGE_SECTORS;
              && (blk == null <==> p !in old(pages) && !memory)
              && (blk == null ==> pages == old(pages))
              && (blk != null ==> p in pages && pages[p] == blk && pages == old(pages)[p := blk])
              && (p in old(pages) ==> pages == old(pages))
    {
      var p := sector / PAGE_SECTORS;
      if p in pages {
        return pages[p];
      }
      if !memory {
        return null;
      }
      blk := new Block(p);
      pages := pages[p := blk];
    }

    method SetBlkDirty(blk: Block)
      requires Valid() && blk.index in pages
      modifies `dirty, `dirtyBlks
      ensures Valid() && dirty == old(dirty) + {blk.index} && dirtyBlks == old(dirtyBlks) + 1
    {
      dirtyBlks := dirtyBlks + 1;
      dirty := dirty + {blk.index};
    }

    method SetBlkTsync(blk: Block)
      requires Valid() && blk.index in pages
      modifies `tsync, `tsyncBlks
      ensures Valid() && tsync == old(tsync) + {blk.index} && tsyncBlks == old(tsyncBlks) + 1
    {
      tsyncBlks := tsyncBlks + 1;
      tsync := tsync + {blk.index};
    }

    /** One turn of the loop in blk_dev_write or blk_dev_read. */
    method Turn(write: bool, sector: nat, memory: bool) returns (ok: bool)
      requires Valid()
      modifies this
      ensures Valid() && (forall p :: p in old(pages) ==> p in pages && pages[p] == old(pages)[p])
      ensures var p := sector / PAGE_SECTORS;
              && (ok <==> p in old(View()).present || memory)
              && View() == if ok then Mark(old(View()).(present := old(View()).present + {p}), write, p)
                           else old(View())
    {
      var blk := InsertPage(sector, memory);
      if blk == null {
        return false;
      }
      if write {
        SetBlkDirty(blk);
        SetBlkTsync(blk);
        writeBlks := writeBlks + 1;
      } else {
        readBlks := readBlks + 1;
      }
      ok := true;
    }

    /** blk_dev_write and blk_dev_read, which split a segment in the same way. */
    method Move(write: bool, start: nat, len: nat, memory: (nat, nat) -> bool, k: nat) returns (rc: int)
      requires Valid()
      modifies this
      ensures Valid() && (View(), rc) == Transfer(old(View()), write, PagesOf(start, len), memory, k, 0)
    {
      var sector: nat := start;
      var offset := sector % PAGE_SECTORS * SECTOR;
      var copy: nat := if len < PAGE_SIZE - offset then len else PAGE_SIZE - offset;
      var nr := if len > PAGE_SIZE - offset then 2 else 1;
      ghost var pages := PagesOf(start, len);
      var i := 0;
      while i < nr
        invariant 0 <= i <= nr == |pages| && Valid()
        invariant i < nr ==> sector / PAGE_SECTORS == pages[i]
        invariant i == 0 && nr == 2 ==>
                    sector == start && copy == PAGE_SIZE - offset && offset == start % PAGE_SECTORS * SECTOR
        invariant copy <= len
        invariant Transfer(old(View()), write, pages, memory, k, 0) == Transfer(View(), write, pages, memory, k, i)
      {
        var ok := Turn(write, sector, memory(k, i));
        if !ok {
          return -ENOMEM;
        }
        var sectors := copy / SECTOR;
        sector := sector + sectors;
        copy := len - copy;
        offset := 0;
        i := i + 1;
      }
      rc := 0;
    }

    /** simp_make_request. */
    method MakeRequest(bio: Bio, memory: (nat, nat) -> bool)
      requires Valid()
      modifies this
      ensures Valid() && View() == Request(old(View()), bio, memory, 0, bio.sector)
    {
      var sector: nat, k := bio.sector, 0;
      while k < |bio.segs|
        invariant 0 <= k <= |bio.segs| && Valid()
        invariant Request(old(View()), bio, memory, 0, bio.sector) == Request(View(), bio, memory, k, sector)
      {
        var rc := Move(bio.write, sector, bio.segs[k].len, memory, k);
        if rc != 0 {
          return;
        }
        sector := sector + bio.segs[k].len / SECTOR;
        k := k + 1;
      }
    }

    /** find_tag_blks for one tag: the number of blocks it counts. */
    method FindTagBlks(tagged: set<nat>) returns (cnt: nat)
      ensures cnt == CountedExactly(tagged, size / PAGE_SECTORS)
    {
      var index: nat, end := 0, size / PAGE_SECTORS;
      cnt := 0;
      BelowAll(tagged);
      var more := true;
      while more && index <= end
        invariant cnt == |Below(tagged, index)|
        invariant more && index <= end ==> cnt % BATCH == 0 || cnt == |tagged|
        invariant !more ==> cnt == |tagged|
        invariant !more || index > end ==> cnt == CountedExactly(tagged, end)
        decreases more, |tagged| - cnt
      {
        var batch, next := FindGetBlksTag(tagged, index, BATCH);
        LastBatch(tagged, index, next, |batch|, end);
        more := |batch| > 0;
        cnt, index := cnt + |batch|, next;
      }
    }

    /** The inner loop of free_all_blks. */
    method FreeBatch(batch: seq<nat>) returns (freed: seq<Block>)
      requires Valid() && Ascending(batch) && forall i :: 0 <= i < |batch| ==> batch[i] in pages
      modifies `pages, `dirty, `tsync
      ensures Valid() && dirty <= old(dirty) && tsync <= old(tsync)
      ensures |freed| == |batch| && |pages| == |old(pages)| - |batch|
      ensures forall i :: 0 <= i < |batch| ==> freed[i] == old(pages)[batch[i]]
      ensures forall p :: p in pages <==> p in old(pages) && p !in batch
      ensures forall p :: p in pages ==> pages[p] == old(pages)[p]
    {
      freed := [];
      var i := 0;
      while i < |batch|
        invariant 0 <= i <= |batch| == |freed| + (|batch| - i) && Valid() && dirty <= old(dirty) && tsync <= old(tsync)
        invariant |pages| == |old(pages)| - i
        invariant forall j :: 0 <= j < i ==> freed[j] == old(pages)[batch[j]]
        invariant forall j :: i <= j < |batch| ==> batch[j] in pages
        invariant forall p :: p in pages <==> p in old(pages) && p !in batch[..i]
        invariant forall p :: p in pages ==> pages[p] == old(pages)[p]
      {
        var p := batch[i];
        freed := freed + [pages[p]];
        pages, dirty, tsync := pages - {p}, dirty - {p}, tsync - {p};
        i := i + 1;
      }
      assert batch[..i] == batch;
    }

    /** free_all_blks: the blocks that it frees, in order. */
    method FreeAllBlks() returns (freed: seq<Block>)
      requires Valid()
      modifies `pages, `dirty, `tsync
      ensures Valid() && pages == map[] && dirty == tsync == {}
      ensures |freed| == |old(pages)|
      ensures forall i :: 0 <= i < |freed| ==> freed[i].index in old(pages) && old(pages)[freed[i].index] == freed[i]
      ensures forall i, j :: 0 <= i < j < |freed| ==> freed[i].index < freed[j].index
    {
      freed := [];
      var pos: nat := 0;
      while true
        invariant Valid() && |freed| + |pages| == |old(pages)|
        invariant forall p :: p in pages ==> p in old(pages) && pages[p] == old(pages)[p] && p >= pos
        invariant forall i :: 0 <= i < |freed| ==>
                    freed[i].index in old(pages) && old(pages)[freed[i].index] == freed[i]
        invariant forall i :: 0 <= i < |freed| ==> freed[i].index < pos
        invariant forall i, j :: 0 <= i < j < |freed| ==> freed[i].index < freed[j].index
        decreases |pages|
      {
        var batch, next := FindGetBlksTag(pages.Keys, pos, BATCH);
        if batch == [] {
          break;
        }
        var blks := FreeBatch(batch);
        freed := freed + blks;
        pos := next;
      }
    }
  }

  // ----- Batched enumeration

  function Below(s: set<nat>, x: nat): set<nat> {
    set t | t in s && t < x
  }

  lemma BelowAll(s: set<nat>)
    ensures Below(s, 0) == {}
  {}

  ghost predicate Ascending(s: seq<nat>) {
    forall i, j :: 0 <= i < j < |s| ==> s[i] < s[j]
  }

  /** find_get_blks_tag: the next tagged indices from index on, at most nr of them, in ascending
      order, and the index after the last of them. */
  method FindGetBlksTag(tagged: set<nat>, index: nat, nr: nat) returns (batch: seq<nat>, next: nat)
    requires nr > 0
    ensures Ascending(batch) && |batch| <= nr && index <= next
    ensures forall t :: t in batch ==> t in tagged && index <= t < next
    ensures forall t :: t in tagged && index <= t < next ==> t in batch
    ensures |batch| < nr ==> forall t :: t in tagged && index <= t ==> t in batch
    ensures next == if batch == [] then index else batch[|batch| - 1] + 1
    ensures |Below(tagged, next)| == |Below(tagged, index)| + |batch|
  {
    batch, next := [], index;
    while |batch| < nr
      invariant Ascending(batch) && |batch| <= nr && index <= next
      invariant forall t :: t in batch ==> t in tagged && index <= t < next
      invariant forall t :: t in tagged && index <= t < next ==> t in batch
      invariant next == if batch == [] then index else batch[|batch| - 1] + 1
      invariant |Below(tagged, next)| == |Below(tagged, index)| + |batch|
    {
      var rest := set t | t in tagged && t >= next;
      if rest == {} {
        assert forall t :: t in tagged && next <= t ==> t in rest;
        break;
      }
      var least := Least(rest);
      assert forall t :: t in tagged && next <= t ==> t in rest;
      assert Below(tagged, least + 1) == Below(tagged, next) + {least};
      batch, next := batch + [least], least + 1;
    }
  }

  method Least(s: set<nat>) returns (m: nat)
    requires s != {}
    ensures m in s && forall t :: t in s ==> m <= t
  {
    m :| m in s;
    var rest := s - {m};
    while rest != {}
      invariant m in s && rest <= s && forall t :: t in s && t !in rest ==> m <= t
      decreases rest
    {
      var t :| t in rest;
      if t < m {
        m := t;
      }
      rest := rest - {t};
    }
  }

  /** What find_tag_blks counts: whole batches of 16, up to the batch that reaches end. */
  function CountedExactly(tagged: set<nat>, end: nat): nat {
    var batches := |Below(tagged, end)| / BATCH + 1;
    if |tagged| < BATCH * batches then |tagged| else BATCH * batches
  }

  /** When no index exceeds end, every tag is counted, and exactly once. The block layer refuses bios
      beyond the capacity, which is the device's size, so other sets of tags are hypothetical. */
  lemma AllCounted(tagged: set<nat>, end: nat)
    requires forall t :: t in tagged ==> t <= end
    ensures CountedExactly(tagged, end) == |tagged|
  {
    var below := Below(tagged, end);
    assert tagged <= below + {end};
    SubsetSize(tagged, below + {end});
    SubsetSize(below, tagged);
  }

  /** The exact condition: the tags from end onwards fit into the rest of the batch that reaches end. */
  lemma AllCountedExactly(tagged: set<nat>, end: nat)
    ensures CountedExactly(tagged, end) == |tagged| <==>
            |tagged - Below(tagged, end)| <= BATCH - |Below(tagged, end)| % BATCH
  {
    assert tagged == Below(tagged, end) + (tagged - Below(tagged, end));
  }

  function FirstN(n: nat): (r: set<nat>)
    ensures |r| == n && forall t :: t in r ==> t < n
  {
    if n == 0 then {} else FirstN(n - 1) + {n - 1}
  }

  lemma FirstBatchOnly(tagged: set<nat>, end: nat)
    requires BATCH < |tagged| && Below(tagged, end) == {}
    ensures CountedExactly(tagged, end) == BATCH
  {}

  /** Of n tags from end onwards only the first batch is counted. */
  lemma SomeUncounted(n: nat)
    requires 16 < n
    ensures |FirstN(n)| == n && CountedExactly(FirstN(n), 0) == 16
  {
    assert Below(FirstN(n), 0) == {};
    FirstBatchOnly(FirstN(n), 0);
  }

  lemma LastBatch(tagged: set<nat>, index: nat, next: nat, got: nat, end: nat)
    requires index <= end && got <= BATCH && index <= next
    requires |Below(tagged, next)| == |Below(tagged, index)| + got
    requires got == 0 ==> next == index
    requires |Below(tagged, index)| % BATCH == 0 || |Below(tagged, index)| == |tagged|
    requires got < BATCH ==> Below(tagged, next) == tagged
    requires got > 0 ==> next - 1 in tagged && next - 1 >= index
    ensures |Below(tagged, next)| <= |tagged|
    ensures got == 0 || next > end ==> |Below(tagged, next)| == CountedExactly(tagged, end)
    ensures |Below(tagged, next)| % BATCH == 0 || |Below(tagged, next)| == |tagged|
    ensures got == 0 ==> |Below(tagged, next)| == |tagged|
  {
    SubsetSize(Below(tagged, next), tagged);
    SubsetSize(Below(tagged, index), Below(tagged, end));
    SubsetSize(Below(tagged, end), tagged);
    if got > 0 && next > end {
      var last := next - 1;
      assert Below(tagged, end) <= Below(tagged, next) - {last};
      SubsetSize(Below(tagged, end), Below(tagged, next) - {last});
    }
    if got == 0 || next > end {
      BatchReaches(|tagged|, |Below(tagged, end)|, |Below(tagged, index)|, got);
    }
  }

  /** After whole batches with before tags, a batch of got is the first to go beyond the b tags below
      end, or the last. */
  lemma BatchReaches(all: nat, b: nat, before: nat, got: nat)
    requires before <= b <= all && got <= BATCH && before + got <= all
    requires before % BATCH == 0 || before == all
    requires got < BATCH ==> before + got == all
    requires got > 0 ==> b < before + got
    ensures before + got == if all < BATCH * (b / BATCH + 1) then all else BATCH * (b / BATCH + 1)
  {}
}
