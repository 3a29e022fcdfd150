/** copy_data of src/jraid5.c: moving bytes between the scatter list of a bio and a stripe page, with
    clipping at both ends, and what it means for a page whose slot carries R5_OVERWRITE. */
module CopyData {
  import opened AddressMap
  import opened RequestChain

  const SECTOR_BYTES: nat := 512
  const PAGE_BYTES: nat := 4096

  /** Page bytes inside [off, off + |data|) come from data, the others stay. */
  function CopyIn(page: seq<bv8>, off: int, data: seq<bv8>): (r: seq<bv8>)
    ensures |r| == |page|
  {
    seq(|page|, k requires 0 <= k < |page| => if 0 <= k - off < |data| then data[k - off] else page[k])
  }

  /** The dual: data bytes that fall on the page come from it, the others stay. */
  function CopyOut(data: seq<bv8>, off: int, page: seq<bv8>): (r: seq<bv8>)
    ensures |r| == |data|
  {
    seq(|data|, j requires 0 <= j < |data| => if 0 <= j + off < |page| then page[j + off] else data[j])
  }

  /** The byte position of a bio relative to the page of the given sector. */
  function PageOffset(bioSector: nat, sector: nat): int {
    (bioSector - sector) * SECTOR_BYTES
  }

  // ----- The offset as the source computes it

  /** How far a bio may be from the page, in sectors, before the byte offset leaves 32 bits. */
  const NEAR: nat := 0x40_0000

  predicate Near(bioSector: nat, sector: nat) {
    0 - NEAR <= bioSector - sector < NEAR
  }

  /** Lines 633-636: the distance is truncated to an int and multiplied in int. */
  function IntOffset(bioSector: nat, sector: nat): int {
    if bioSector >= sector then ToInt32(ToInt32(bioSector - sector) * 512)
    else ToInt32(ToInt32(sector - bioSector) * -512)
  }

  lemma IntOffsetWraps(bioSector: nat, sector: nat)
    ensures IntOffset(bioSector, sector) == ToInt32(PageOffset(bioSector, sector))
  {
    if bioSector >= sector {
      SameResidue(bioSector - sector, 512);
    } else {
      SameResidue(sector - bioSector, -512);
    }
  }

  lemma SameResidue(d: int, f: int)
    ensures ToInt32(ToInt32(d) * f) == ToInt32(d * f)
  {
    var q := (ToInt32(d) - d) / TWO_32;
    assert ToInt32(d) == d + q * TWO_32;
    assert (d + q * TWO_32) * f == d * f + q * f * TWO_32;
    ResidueShift(d * f, q * f);
  }

  lemma ResidueShift(x: int, k: int)
    ensures (x + k * TWO_32) % TWO_32 == x % TWO_32
  {
    DivModUnique(x + k * TWO_32, TWO_32, x / TWO_32 + k, x % TWO_32);
  }

  /** The offset is right exactly when the bio starts less than 2^22 sectors after the page, or at most
      2^22 before it. copy_data has no live caller, and the bios that the cache queues start at their
      slot (StripeRuns.RequestsStartAtSlot), so a bio farther away is hypothetical. */
  lemma OffsetExactly(bioSector: nat, sector: nat)
    ensures IntOffset(bioSector, sector) == PageOffset(bioSector, sector) <==> Near(bioSector, sector)
  {
    IntOffsetWraps(bioSector, sector);
    IntRange(PageOffset(bioSector, sector));
  }

  lemma IntRange(x: int)
    ensures ToInt32(x) == x <==> 0 - TWO_31 <= x < TWO_31
  {
    if 0 <= x < TWO_32 {
      DivModUnique(x, TWO_32, 0, x);
    } else if 0 - TWO_31 <= x < 0 {
      DivModUnique(x, TWO_32, -1, x + TWO_32);
    }
  }

  /** So a far bio of up to 2 GB, which does not touch the page, is copied as promised for every page
      exactly when its wrapped offset misses the page as well. */
  lemma FarCopyExactly(bioSector: nat, sector: nat, data: seq<bv8>)
    requires !Near(bioSector, sector) && |data| <= TWO_31
    ensures var off := IntOffset(bioSector, sector);
            (forall page: seq<bv8> :: |page| == PAGE_BYTES ==>
               CopyIn(page, off, data) == CopyIn(page, PageOffset(bioSector, sector), data))
            <==> off + |data| <= 0 || off >= PAGE_BYTES || data == []
  {
    var off, far := IntOffset(bioSector, sector), PageOffset(bioSector, sector);
    if off + |data| <= 0 || off >= PAGE_BYTES || data == [] {
      forall page: seq<bv8> | |page| == PAGE_BYTES ensures CopyIn(page, off, data) == CopyIn(page, far, data) {
        Misses(page, off, data);
        Misses(page, far, data);
      }
    } else {
      var k := if off < 0 then 0 else off;
      var page := seq(PAGE_BYTES, _ => data[k - off] ^ 1);
      assert page[k] != data[k - off];
      Misses(page, far, data);
      assert CopyIn(page, off, data)[k] != CopyIn(page, far, data)[k];
    }
  }

  lemma Misses(page: seq<bv8>, off: int, data: seq<bv8>)
    requires off + |data| <= 0 || off >= |page| || data == []
    ensures CopyIn(page, off, data) == page
  {}

  /** At a distance of 2^23 sectors the offset is zero: a bio that does not touch the page replaces it. */
  lemma FarBioOverwrites(sector: nat, page: seq<bv8>, data: seq<bv8>)
    requires |page| == |data| == PAGE_BYTES
    ensures IntOffset(sector + 2 * NEAR, sector) == 0
    ensures CopyIn(page, IntOffset(sector + 2 * NEAR, sector), data) == data
    ensures CopyIn(page, PageOffset(sector + 2 * NEAR, sector), data) == page
  {}

  // ----- Scatter lists

  /** The concatenation of the first n parts. */
  ghost function Concat(parts: seq<seq<bv8>>, n: nat): (d: seq<bv8>)
    requires n <= |parts|
  {
    if n == 0 then [] else Concat(parts, n - 1) + parts[n - 1]
  }

  ghost function Contents(segs: seq<array<bv8>>): (parts: seq<seq<bv8>>)
    reads segs
    ensures |parts| == |segs|
  {
    seq(|segs|, i requires 0 <= i < |segs| reads segs => segs[i][..])
  }

  /** The bytes of a scatter list, in order. */
  ghost function Bytes(segs: seq<array<bv8>>): (d: seq<bv8>)
    reads segs
  {
    Concat(Contents(segs), |segs|)
  }

  lemma {:induction false} ConcatPrefix(parts: seq<seq<bv8>>, n: nat, m: nat)
    requires n <= m <= |parts|
    ensures |Concat(parts, n)| <= |Concat(parts, m)|
    ensures Concat(parts, n) == Concat(parts, m)[..|Concat(parts, n)|]
    decreases m - n
  {
    if n < m {
      ConcatPrefix(parts, n, m - 1);
    }
  }

  /** Copying in two adjoining pieces is copying in their concatenation. */
  lemma CopyInJoins(page: seq<bv8>, off: int, a: seq<bv8>, b: seq<bv8>)
    ensures CopyIn(CopyIn(page, off, a), off + |a|, b) == CopyIn(page, off, a + b)
  {}

  /** What lies past the end of the page makes no difference. */
  lemma CopyInClips(page: seq<bv8>, off: int, data: seq<bv8>, n: nat)
    requires n <= |data| && off + n >= |page|
    ensures CopyIn(page, off, data[..n]) == CopyIn(page, off, data)
  {}

  lemma CopyOutJoins(a: seq<bv8>, b: seq<bv8>, off: int, page: seq<bv8>)
    ensures CopyOut(a + b, off, page) == CopyOut(a, off, page) + CopyOut(b, off + |a|, page)
  {}

  lemma CopyOutPast(a: seq<bv8>, off: int, page: seq<bv8>)
    requires off >= |page|
    ensures CopyOut(a, off, page) == a
  {}

  /** after[m] is what copy_data(0, ...) makes of part m. */
  ghost predicate PartCopied(before: seq<seq<bv8>>, part: seq<bv8>, m: nat, off: int, page: seq<bv8>)
    requires m < |before|
  {
    part == CopyOut(before[m], off + |Concat(before, m)|, page)
  }

  lemma {:induction false} PartsCopied(before: seq<seq<bv8>>, after: seq<seq<bv8>>, n: nat, off: int, page: seq<bv8>)
    requires n <= |before| == |after|
    requires forall m :: 0 <= m < n ==> PartCopied(before, after[m], m, off, page)
    ensures Concat(after, n) == CopyOut(Concat(before, n), off, page)
  {
    if n > 0 {
      PartsCopied(before, after, n - 1, off, page);
      assert PartCopied(before, after[n - 1], n - 1, off, page);
      CopyOutJoins(Concat(before, n - 1), before[n - 1], off, page);
    }
  }

  /** The first i parts are copied, the others are as before. */
  ghost predicate Halfway(before: seq<seq<bv8>>, now: seq<seq<bv8>>, i: nat, off: int, page: seq<bv8>) {
    && |now| == |before| && i <= |before|
    && (forall m :: 0 <= m < i ==> PartCopied(before, now[m], m, off, page))
    && (forall m :: i <= m < |before| ==> now[m] == before[m])
  }

  lemma HalfwayStep(before: seq<seq<bv8>>, now: seq<seq<bv8>>, i: nat, off: int, page: seq<bv8>, part: seq<bv8>)
    requires Halfway(before, now, i, off, page) && i < |before| && PartCopied(before, part, i, off, page)
    ensures Halfway(before, now[i := part], i + 1, off, page)
  {}

  lemma HalfwayStop(before: seq<seq<bv8>>, now: seq<seq<bv8>>, i: nat, off: int, page: seq<bv8>)
    requires Halfway(before, now, i, off, page)
    requires i < |before| ==> off + |Concat(before, i)| >= |page|
    ensures Concat(now, |now|) == CopyOut(Concat(before, |before|), off, page)
  {
    forall m | i <= m < |before| ensures PartCopied(before, now[m], m, off, page) {
      ConcatPrefix(before, i, m);
      CopyOutPast(before[m], off + |Concat(before, m)|, page);
    }
    PartsCopied(before, now, |before|, off, page);
  }

  // ----- The copy loop

  method Memcpy(dst: array<bv8>, to: nat, src: array<bv8>, from: nat, n: nat)
    requires dst != src && to + n <= dst.Length && from + n <= src.Length
    modifies dst
    ensures forall k :: 0 <= k < dst.Length ==>
              dst[k] == if to <= k < to + n then src[from + (k - to)] else old(dst[k])
  {
    var i := 0;
    while i < n
      invariant 0 <= i <= n
      invariant forall k :: 0 <= k < dst.Length ==>
                  dst[k] == if to <= k < to + i then src[from + (k - to)] else old(dst[k])
    {
      dst[to + i] := src[from + i];
      i := i + 1;
    }
  }

  /** The clipping of one segment (lines 638-650): how far into the segment and into the page the
      copy starts, how many bytes are left in the segment, and how many of them fit. */
  method Clip(pageOffset: int, segLen: nat) returns (bOffset: nat, pOffset: nat, len: int, clen: int)
    ensures bOffset == (if pageOffset < 0 then -pageOffset else 0)
    ensures pOffset == pageOffset + bOffset
    ensures len == segLen - bOffset
    ensures clen <= len && (clen < len ==> pOffset + len > PAGE_BYTES)
    ensures clen > 0 ==> pOffset + clen <= PAGE_BYTES
    ensures clen > 0 ==> bOffset + clen == segLen || pOffset + clen == PAGE_BYTES
    ensures clen <= 0 ==> segLen <= bOffset || pOffset >= PAGE_BYTES
  {
    bOffset, pOffset, len := 0, 0, segLen;
    if pageOffset < 0 {
      bOffset := -pageOffset;
      len := len - bOffset;
    } else {
      pOffset := pageOffset;
    }
    if len > 0 && pOffset + len > PAGE_BYTES {
      clen := PAGE_BYTES - pOffset;
    } else {
      clen := len;
    }
  }

  /** One turn of the loop body for frombio; stop is "hit end of page". */
  method SegmentIn(seg: array<bv8>, pageOffset: int, page: array<bv8>) returns (stop: bool, next: int)
    requires page.Length == PAGE_BYTES && page != seg
    modifies page
    ensures page[..] == CopyIn(old(page[..]), pageOffset, seg[..])
    ensures if stop then pageOffset + seg.Length > PAGE_BYTES else next == pageOffset + seg.Length
  {
    var bOffset, pOffset, len, clen := Clip(pageOffset, seg.Length);
    if clen > 0 {
      Memcpy(page, pOffset, seg, bOffset, clen);
    }
    stop, next := clen < len, pOffset + len;
  }

  /** One turn of the loop body for !frombio. */
  method SegmentOut(segs: seq<array<bv8>>, i: nat, pageOffset: int, page: array<bv8>) returns (stop: bool, next: int)
    requires page.Length == PAGE_BYTES && page !in segs && i < |segs|
    requires forall j, k :: 0 <= j < k < |segs| ==> segs[j] != segs[k]
    modifies segs[i]
    ensures Contents(segs) == old(Contents(segs))[i := CopyOut(old(segs[i][..]), pageOffset, page[..])]
    ensures if stop then pageOffset + segs[i].Length > PAGE_BYTES else next == pageOffset + segs[i].Length
    ensures page[..] == old(page[..])
  {
    var seg := segs[i];
    ghost var source := page[..];
    var bOffset, pOffset, len, clen := Clip(pageOffset, seg.Length);
    if clen > 0 {
      Memcpy(seg, bOffset, page, pOffset, clen);
    }
    stop, next := clen < len, pOffset + len;
    assert seg[..] == CopyOut(old(seg[..]), pageOffset, source);
    assert page[..] == source;
    ghost var now := Contents(segs);
    forall m | 0 <= m < |segs| && m != i ensures now[m] == old(segs[m][..]) {
      assert segs[m] != seg;
    }
  }

  /** Lines 633-636. */
  method FirstOffset(bioSector: nat, sector: nat) returns (pageOffset: int)
    ensures pageOffset == IntOffset(bioSector, sector)
    ensures Near(bioSector, sector) ==> pageOffset == PageOffset(bioSector, sector)
  {
    OffsetExactly(bioSector, sector);
    if bioSector >= sector {
      pageOffset := ToInt32(ToInt32(bioSector - sector) * 512);
    } else {
      pageOffset := ToInt32(ToInt32(sector - bioSector) * -512);
    }
  }

  /** copy_data(1, ...): the page receives the bio's bytes where the two overlap and keeps every
      other byte, for any segment list and a bio starting before, inside or after the page. */
  method CopyFromBio(segs: seq<array<bv8>>, bioSector: nat, page: array<bv8>, sector: nat)
    requires page.Length == PAGE_BYTES && page !in segs
    modifies page
    ensures page[..] == CopyIn(old(page[..]), IntOffset(bioSector, sector), Bytes(segs))
  {
    var pageOffset := FirstOffset(bioSector, sector);
    ghost var off, parts := pageOffset, Contents(segs);
    var i := 0;
    while i < |segs|
      invariant 0 <= i <= |segs| && pageOffset == off + |Concat(parts, i)|
      invariant page[..] == CopyIn(old(page[..]), off, Concat(parts, i))
    {
      assert parts[i] == segs[i][..];
      var stop, next := SegmentIn(segs[i], pageOffset, page);
      CopyInJoins(old(page[..]), off, Concat(parts, i), parts[i]);
      if stop {
        ConcatPrefix(parts, i + 1, |segs|);
        CopyInClips(old(page[..]), off, Concat(parts, |segs|), |Concat(parts, i + 1)|);
        break;
      }
      pageOffset := next;
      i := i + 1;
    }
    assert Contents(segs) == parts;
  }

  /** One turn of the loop for !frombio, with the state of the whole copy. */
  method OutTurn(segs: seq<array<bv8>>, i: nat, pageOffset: int, page: array<bv8>,
                 ghost parts: seq<seq<bv8>>, ghost now: seq<seq<bv8>>, ghost off: int, ghost source: seq<bv8>)
    returns (stop: bool, next: int, ghost after: seq<seq<bv8>>)
    requires page.Length == PAGE_BYTES && page !in segs && i < |segs| == |parts|
    requires forall j, k :: 0 <= j < k < |segs| ==> segs[j] != segs[k]
    requires pageOffset == off + |Concat(parts, i)| && page[..] == source && now == Contents(segs)
    requires Halfway(parts, now, i, off, source)
    modifies segs[i]
    ensures page[..] == source && after == Contents(segs) && Halfway(parts, after, i + 1, off, source)
    ensures if stop then pageOffset + |parts[i]| > PAGE_BYTES else next == pageOffset + |parts[i]|
  {
    assert segs[i][..] == parts[i];
    stop, next := SegmentOut(segs, i, pageOffset, page);
    ghost var part := CopyOut(parts[i], pageOffset, source);
    HalfwayStep(parts, now, i, off, source, part);
    after := now[i := part];
  }

  /** copy_data(0, ...): the bio's segments receive the page's bytes where the two overlap and keep
      every other byte. */
  method CopyToBio(segs: seq<array<bv8>>, bioSector: nat, page: array<bv8>, sector: nat)
    requires page.Length == PAGE_BYTES && page !in segs
    requires forall i, j :: 0 <= i < j < |segs| ==> segs[i] != segs[j]
    modifies segs
    ensures page[..] == old(page[..])
    ensures Bytes(segs) == CopyOut(old(Bytes(segs)), IntOffset(bioSector, sector), page[..])
  {
    var pageOffset := FirstOffset(bioSector, sector);
    ghost var off, source, parts := pageOffset, page[..], Contents(segs);
    ghost var now := parts;
    var i, stop := 0, false;
    while i < |segs| && !stop
      invariant i <= |segs| && page[..] == source && now == Contents(segs)
      invariant if stop then off + |Concat(parts, i)| > PAGE_BYTES else pageOffset == off + |Concat(parts, i)|
      invariant Halfway(parts, now, i, off, source)
    {
      stop, pageOffset, now := OutTurn(segs, i, pageOffset, page, parts, now, off, source);
      i := i + 1;
    }
    HalfwayStop(parts, now, i, off, source);
  }

  /** copy_data. A bio that is read from may name the same memory twice. */
  method CopyData(frombio: bool, segs: seq<array<bv8>>, bioSector: nat, page: array<bv8>, sector: nat)
    requires page.Length == PAGE_BYTES && page !in segs
    requires !frombio ==> forall i, j :: 0 <= i < j < |segs| ==> segs[i] != segs[j]
    modifies page, segs
    ensures frombio ==> Bytes(segs) == old(Bytes(segs))
    ensures frombio ==> page[..] == CopyIn(old(page[..]), IntOffset(bioSector, sector), old(Bytes(segs)))
    ensures !frombio ==> page[..] == old(page[..])
    ensures !frombio ==> Bytes(segs) == CopyOut(old(Bytes(segs)), IntOffset(bioSector, sector), old(page[..]))
    ensures Near(bioSector, sector) ==> IntOffset(bioSector, sector) == PageOffset(bioSector, sector)
  {
    OffsetExactly(bioSector, sector);
    if frombio {
      CopyFromBio(segs, bioSector, page, sector);
    } else {
      CopyToBio(segs, bioSector, page, sector);
    }
  }

  // ----- Overwritten pages

  /** A write request: its first sector and its bytes, a whole number of sectors. */
  datatype Payload = Payload(sector: nat, data: seq<bv8>) {
    predicate Valid() { |data| % SECTOR_BYTES == 0 }
    function Ext(): Extent { Extent(sector, |data| / SECTOR_BYTES) }
  }

  ghost function Extents(ps: seq<Payload>): (e: seq<Extent>)
    ensures |e| == |ps|
  {
    seq(|ps|, i requires 0 <= i < |ps| => ps[i].Ext())
  }

  /** The page after copy_data(1, ...) of every payload, in the given order. */
  function ApplyAll(order: seq<Payload>, page: seq<bv8>, sector: nat): (r: seq<bv8>)
    ensures |r| == |page|
  {
    if order == [] then page
    else ApplyAll(order[1..], CopyIn(page, IntOffset(order[0].sector, sector), order[0].data), sector)
  }

  /** Payload p supplies byte k of the page. */
  predicate Supplies(p: Payload, sector: nat, k: nat) {
    0 <= k - PageOffset(p.sector, sector) < |p.data|
  }

  lemma {:induction false} LastSupplierWins(order: seq<Payload>, page: seq<bv8>, sector: nat, k: nat, p: Payload)
    requires k < |page| && Supplies(p, sector, k) && forall q :: q in order ==> Near(q.sector, sector)
    requires forall q :: q in order && Supplies(q, sector, k) ==> q == p
    requires p in order || page[k] == p.data[k - PageOffset(p.sector, sector)]
    ensures ApplyAll(order, page, sector)[k] == p.data[k - PageOffset(p.sector, sector)]
  {
    if order != [] {
      OffsetExactly(order[0].sector, sector);
      var next := CopyIn(page, IntOffset(order[0].sector, sector), order[0].data);
      assert next[k] == if Supplies(order[0], sector, k) then p.data[k - PageOffset(p.sector, sector)] else page[k];
      assert order == [order[0]] + order[1..];
      assert forall q :: q in order[1..] ==> q in order;
      LastSupplierWins(order[1..], next, sector, k, p);
    }
  }

  lemma SupplierOf(ps: seq<Payload>, sector: nat, k: nat) returns (p: Payload)
    requires forall i :: 0 <= i < |ps| ==> ps[i].Valid()
    requires SortedDisjoint(Extents(ps)) && Covers(Extents(ps), sector)
    requires k < PAGE_BYTES
    ensures p in ps && Supplies(p, sector, k)
    ensures forall q :: q in ps && Supplies(q, sector, k) ==> q == p
  {
    var x := sector + k / SECTOR_BYTES;
    assert CoveredAt(Extents(ps), x);
    var i :| 0 <= i < |ps| && Extents(ps)[i].Has(x);
    p := ps[i];
    SuppliesSector(p, sector, k);
    forall q | q in ps && Supplies(q, sector, k) ensures q == p {
      SuppliesSector(q, sector, k);
      var j :| 0 <= j < |ps| && ps[j] == q;
      assert Extents(ps)[j] == q.Ext() && Extents(ps)[i] == p.Ext();
    }
  }

  lemma SuppliesSector(p: Payload, sector: nat, k: nat)
    requires p.Valid()
    ensures Supplies(p, sector, k) <==> p.sector <= sector + k / SECTOR_BYTES < p.Ext().End()
  {}

  /** If the write chain covers the page (which is when R5_OVERWRITE is set), copying all of it in
      gives the same page in every order and whatever the page held before. The bios must be near the
      page; those that the cache queues start at its first sector. */
  lemma OverwriteForgets(chain: seq<Payload>, sector: nat, order1: seq<Payload>, page1: seq<bv8>,
                         order2: seq<Payload>, page2: seq<bv8>)
    requires forall i :: 0 <= i < |chain| ==> chain[i].Valid() && Near(chain[i].sector, sector)
    requires SortedDisjoint(Extents(chain)) && Covers(Extents(chain), sector)
    requires multiset(order1) == multiset(order2) == multiset(chain)
    requires |page1| == |page2| == PAGE_BYTES
    ensures ApplyAll(order1, page1, sector) == ApplyAll(order2, page2, sector)
  {
    var r1, r2 := ApplyAll(order1, page1, sector), ApplyAll(order2, page2, sector);
    assert forall q :: q in order1 ==> q in multiset(order1);
    assert forall q :: q in order2 ==> q in multiset(order2);
    assert forall q :: q in chain <==> q in multiset(chain);
    assert forall q :: q in order1 ==> q in multiset(chain);
    assert forall q :: q in order2 ==> q in multiset(chain);
    forall k | 0 <= k < PAGE_BYTES ensures r1[k] == r2[k] {
      var p := SupplierOf(chain, sector, k);
      assert p in multiset(order1) && p in multiset(order2);
      LastSupplierWins(order1, page1, sector, k, p);
      LastSupplierWins(order2, page2, sector, k, p);
    }
  }

  /** Conversely, a byte of a sector that the chain leaves out keeps its earlier value: when the
      chain does not cover the page, the result does depend on it. */
  lemma {:induction false} UncoveredKept(order: seq<Payload>, page: seq<bv8>, sector: nat, k: nat)
    requires forall i :: 0 <= i < |order| ==> order[i].Valid() && Near(order[i].sector, sector)
    requires k < |page| && !CoveredAt(Extents(order), sector + k / SECTOR_BYTES)
    ensures ApplyAll(order, page, sector)[k] == page[k]
  {
    if order != [] {
      SuppliesSector(order[0], sector, k);
      assert Extents(order)[0] == order[0].Ext();
      var rest := order[1..];
      assert forall i :: 0 <= i < |rest| ==> Extents(rest)[i] == Extents(order)[i + 1];
      OffsetExactly(order[0].sector, sector);
      UncoveredKept(rest, CopyIn(page, IntOffset(order[0].sector, sector), order[0].data), sector, k);
    }
  }

  /** Together: the chain covers the page, which is when R5_OVERWRITE is set, exactly if copying it in
      leaves nothing of what the page held before. */
  lemma CoversExactly(chain: seq<Payload>, sector: nat)
    requires forall i :: 0 <= i < |chain| ==> chain[i].Valid() && Near(chain[i].sector, sector)
    requires SortedDisjoint(Extents(chain))
    ensures Covers(Extents(chain), sector) <==>
            forall p, q: seq<bv8> :: |p| == |q| == PAGE_BYTES ==>
              ApplyAll(chain, p, sector) == ApplyAll(chain, q, sector)
  {
    if Covers(Extents(chain), sector) {
      forall p, q: seq<bv8> | |p| == |q| == PAGE_BYTES
        ensures ApplyAll(chain, p, sector) == ApplyAll(chain, q, sector)
      {
        OverwriteForgets(chain, sector, chain, p, chain, q);
      }
    } else {
      var x: nat :| sector <= x < sector + STRIPE_SECTORS && !CoveredAt(Extents(chain), x);
      SectorByte(sector, x);
      GapShows(chain, sector, (x - sector) * SECTOR_BYTES);
    }
  }

  lemma SectorByte(sector: nat, x: nat)
    requires sector <= x < sector + STRIPE_SECTORS
    ensures 0 <= (x - sector) * SECTOR_BYTES < PAGE_BYTES
    ensures sector + (x - sector) * SECTOR_BYTES / SECTOR_BYTES == x
  {}

  /** A byte that is left out tells a page of zeros from a page of ones. */
  lemma GapShows(chain: seq<Payload>, sector: nat, k: nat)
    requires forall i :: 0 <= i < |chain| ==> chain[i].Valid() && Near(chain[i].sector, sector)
    requires k < PAGE_BYTES && !CoveredAt(Extents(chain), sector + k / SECTOR_BYTES)
    ensures exists p, q: seq<bv8> ::
              |p| == |q| == PAGE_BYTES && ApplyAll(chain, p, sector) != ApplyAll(chain, q, sector)
  {
    var zeros, ones := seq(PAGE_BYTES, _ => 0 as bv8), seq(PAGE_BYTES, _ => 1 as bv8);
    UncoveredKept(chain, zeros, sector, k);
    UncoveredKept(chain, ones, sector, k);
    assert ApplyAll(chain, zeros, sector)[k] != ApplyAll(chain, ones, sector)[k];
  }

  // ----- There and back

  /** What has been copied onto the page comes back, whatever the buffer held. */
  lemma CopyRoundTrip(page: seq<bv8>, off: int, data: seq<bv8>, buffer: seq<bv8>)
    requires 0 <= off <= off + |data| <= |page| && |buffer| == |data|
    ensures CopyOut(buffer, off, CopyIn(page, off, data)) == data
  {}

  /** And a page that is copied out and in again is the same. */
  lemma CopyBack(page: seq<bv8>, off: int, buffer: seq<bv8>)
    requires 0 <= off <= off + |buffer| <= |page|
    ensures CopyIn(page, off, CopyOut(buffer, off, page)) == page
  {}
}
