/** The RAID-4/5 address map of src/jraid5.c: logical sector -> (member sector, data disk, parity
    disk), and compute_blocknr, the inverse that __jraid5_build_block stores in each device slot. */
module AddressMap {

  function Div(a: nat, b: nat): nat
    requires 0 < b
  {
    a / b
  }

  function Mod(a: nat, b: nat): (m: nat)
    requires 0 < b
    ensures m < b
  {
    a % b
  }

  function Mul(a: nat, b: nat): nat {
    a * b
  }

  datatype Layout = LeftAsymmetric | RightAsymmetric | LeftSymmetric | RightSymmetric

  datatype Level = Raid4 | Raid5

  /** sectorsPerChunk is conf->chunk_size >> 9. */
  datatype Geometry = Geometry(disks: nat, sectorsPerChunk: nat, level: Level, layout: Layout) {
    ghost predicate Valid() {
      2 <= disks && 1 <= sectorsPerChunk
    }
  }

  /** What jraid5_compute_sector returns: its result and its two out-parameters. */
  datatype Place = Place(sector: nat, dataDisk: nat, parityDisk: nat)

  const TWO_31: nat := 0x8000_0000
  const TWO_32: nat := 0x1_0000_0000
  const TWO_64: nat := 0x1_0000_0000_0000_0000

  /** jraid5_compute_sector. The subtraction in the left layouts never goes below zero, because a
      remainder by the disk count is at most the number of data disks. */
  function ComputeSector(g: Geometry, r: nat): Place
    requires g.Valid()
  {
    var dataDisks := g.disks - 1;
    var chunk := Div(r, g.sectorsPerChunk);
    var offset := Mod(r, g.sectorsPerChunk);
    var stripe := Div(chunk, dataDisks);
    var dd := Mod(chunk, dataDisks);
    var sector := Mul(stripe, g.sectorsPerChunk) + offset;
    if g.level == Raid4 then
      Place(sector, dd, dataDisks)
    else
      match g.layout
      case LeftAsymmetric =>
        var pd := dataDisks - Mod(stripe, g.disks);
        Place(sector, if dd >= pd then dd + 1 else dd, pd)
      case RightAsymmetric =>
        var pd := Mod(stripe, g.disks);
        Place(sector, if dd >= pd then dd + 1 else dd, pd)
      case LeftSymmetric =>
        var pd := dataDisks - Mod(stripe, g.disks);
        Place(sector, Mod(pd + 1 + dd, g.disks), pd)
      case RightSymmetric =>
        var pd := Mod(stripe, g.disks);
        Place(sector, Mod(pd + 1 + dd, g.disks), pd)
  }

  /** Conversion of an unsigned value to a 32-bit int. */
  function ToInt32(x: int): int {
    var y := x % TWO_32;
    if y < TWO_31 then y else y - TWO_32
  }

  /** The slot of disk i among the data disks of a row whose parity disk is pd (lines 405-420).
      Unlike ComputeSector, the source does not look at the level here. */
  function DataSlot(g: Geometry, pd: nat, i: nat): int {
    match g.layout
    case LeftAsymmetric | RightAsymmetric => if i > pd then i - 1 else i
    case LeftSymmetric | RightSymmetric => (if i < pd then i + g.disks else i) - (pd + 1)
  }

  /** The logical sector of line 423: chunk_number is an int, the product a 64-bit sector_t. */
  function TruncatedSector(spc: nat, chunk: int, offset: nat): nat {
    (ToInt32(chunk) * spc + offset) % TWO_64
  }

  /** compute_blocknr, with the truncation of chunk_number to int and the 64-bit sector_t product;
      the last conditional is the "map not correct" branch. */
  function ComputeBlocknr(g: Geometry, sector: nat, pd: nat, i: nat): nat
    requires g.Valid()
  {
    var offset := Mod(sector, g.sectorsPerChunk);
    var stripe := Div(sector, g.sectorsPerChunk);
    var r := TruncatedSector(g.sectorsPerChunk, Mul(stripe, g.disks - 1) + DataSlot(g, pd, i), offset);
    var check := ComputeSector(g, r);
    if check.sector != sector || check.dataDisk != i || check.parityDisk != pd then 0 else r
  }

  // ----- Reference definitions

  /** The parity disk of a row of chunks, by itself. */
  function ParityDisk(g: Geometry, stripe: nat): (pd: nat)
    requires g.Valid()
  {
    if g.level == Raid4 then g.disks - 1
    else match g.layout
      case LeftAsymmetric | LeftSymmetric => g.disks - 1 - Mod(stripe, g.disks)
      case RightAsymmetric | RightSymmetric => Mod(stripe, g.disks)
  }

  /** The disk that holds data slot dd of a row whose parity disk is pd. */
  function DataDisk(g: Geometry, pd: nat, dd: nat): nat
    requires g.Valid()
  {
    if g.level == Raid4 then dd
    else match g.layout
      case LeftAsymmetric | RightAsymmetric => if dd >= pd then dd + 1 else dd
      case LeftSymmetric | RightSymmetric => Mod(pd + 1 + dd, g.disks)
  }

  /** The parity disk of the row that holds a member sector. */
  function ParityOf(g: Geometry, sector: nat): nat
    requires g.Valid()
  {
    ParityDisk(g, Div(sector, g.sectorsPerChunk))
  }

  /** The chunk that data disk i holds in the row of a member sector, without any truncation. */
  function ChunkAt(g: Geometry, sector: nat, i: nat): (c: nat)
    requires g.Valid() && i < g.disks && i != ParityOf(g, sector)
  {
    var pd := ParityOf(g, sector);
    DataSlotInRange(g, pd, i);
    var slot: nat := DataSlot(g, pd, i);
    Mul(Div(sector, g.sectorsPerChunk), g.disks - 1) + slot
  }

  /** The logical sector stored at a member sector of disk i, without any truncation. */
  function LogicalSector(g: Geometry, sector: nat, i: nat): (r: nat)
    requires g.Valid() && i < g.disks && i != ParityOf(g, sector)
  {
    Mul(ChunkAt(g, sector, i), g.sectorsPerChunk) + Mod(sector, g.sectorsPerChunk)
  }

  // ----- Arithmetic

  lemma DivModUnique(a: int, b: int, q: int, r: int)
    requires 0 < b && 0 <= r < b && a == q * b + r
    ensures a / b == q && a % b == r
  {
    var d := a / b - q;
    assert a == a / b * b + a % b;
    assert d * b == r - a % b by {
      assert d * b == a / b * b - q * b;
    }
    MulSign(d, b);
  }

  lemma DivModAgain(a: int, b: int)
    requires 0 < b
    ensures a == a / b * b + a % b
  {}

  lemma MulSign(d: int, b: int)
    requires 0 < b
    ensures d >= 1 ==> d * b >= b
    ensures d <= -1 ==> d * b <= -b
  {}

  lemma DataSlotInRange(g: Geometry, pd: nat, i: nat)
    requires g.Valid() && pd < g.disks && i < g.disks && i != pd
    ensures 0 <= DataSlot(g, pd, i) < g.disks - 1
  {}

  lemma ParityInRange(g: Geometry, stripe: nat)
    requires g.Valid()
    ensures ParityDisk(g, stripe) < g.disks
    ensures g.level == Raid4 ==> ParityDisk(g, stripe) == g.disks - 1
  {}

  lemma Wraps(x: nat, n: nat)
    requires 0 < n && x < 2 * n
    ensures x % n == if x < n then x else x - n
  {
    if x < n {
      DivModUnique(x, n, 0, x);
    } else {
      DivModUnique(x, n, 1, x - n);
    }
  }

  /** Within one row, disks other than the parity disk and data slots correspond. */
  lemma SlotOfDisk(g: Geometry, pd: nat, dd: nat)
    requires g.Valid() && pd < g.disks && (g.level == Raid4 ==> pd == g.disks - 1) && dd < g.disks - 1
    ensures DataDisk(g, pd, dd) < g.disks && DataDisk(g, pd, dd) != pd
    ensures DataSlot(g, pd, DataDisk(g, pd, dd)) == dd
  {
    Wraps(pd + 1 + dd, g.disks);
  }

  lemma DiskOfSlot(g: Geometry, pd: nat, i: nat)
    requires g.Valid() && pd < g.disks && (g.level == Raid4 ==> pd == g.disks - 1) && i < g.disks && i != pd
    ensures 0 <= DataSlot(g, pd, i) < g.disks - 1
    ensures DataDisk(g, pd, DataSlot(g, pd, i)) == i
  {
    Wraps(pd + 1 + DataSlot(g, pd, i), g.disks);
  }

  // ----- Bijection

  /** The row of chunks that holds a logical sector. */
  function StripeOf(g: Geometry, r: nat): nat
    requires g.Valid()
  {
    Div(Div(r, g.sectorsPerChunk), g.disks - 1)
  }

  /** ComputeSector in terms of the row, the data slot in it and the offset in the chunk. */
  lemma PlaceByRow(g: Geometry, r: nat)
    requires g.Valid()
    ensures var stripe, dd := StripeOf(g, r), Mod(Div(r, g.sectorsPerChunk), g.disks - 1);
            && ComputeSector(g, r).parityDisk == ParityDisk(g, stripe)
            && ComputeSector(g, r).dataDisk == DataDisk(g, ParityDisk(g, stripe), dd)
            && ComputeSector(g, r).sector == Mul(stripe, g.sectorsPerChunk) + Mod(r, g.sectorsPerChunk)
  {}

  lemma PlaceRow(g: Geometry, r: nat)
    requires g.Valid()
    ensures Div(ComputeSector(g, r).sector, g.sectorsPerChunk) == StripeOf(g, r)
    ensures Mod(ComputeSector(g, r).sector, g.sectorsPerChunk) == Mod(r, g.sectorsPerChunk)
  {
    PlaceByRow(g, r);
    DivModUnique(ComputeSector(g, r).sector, g.sectorsPerChunk, StripeOf(g, r), Mod(r, g.sectorsPerChunk));
  }

  /** Where ComputeSector puts a logical sector: in range, on a data disk, beside its row's parity. */
  lemma PlaceInRange(g: Geometry, r: nat)
    requires g.Valid()
    ensures var p := ComputeSector(g, r);
            && Div(p.sector, g.sectorsPerChunk) == StripeOf(g, r)
            && Mod(p.sector, g.sectorsPerChunk) == Mod(r, g.sectorsPerChunk)
            && p.parityDisk == ParityOf(g, p.sector) < g.disks
            && p.dataDisk < g.disks
            && p.dataDisk != p.parityDisk
            && DataSlot(g, p.parityDisk, p.dataDisk) == Mod(Div(r, g.sectorsPerChunk), g.disks - 1)
  {
    PlaceByRow(g, r);
    PlaceRow(g, r);
    ParityInRange(g, StripeOf(g, r));
    SlotOfDisk(g, ParityDisk(g, StripeOf(g, r)), Mod(Div(r, g.sectorsPerChunk), g.disks - 1));
  }

  /** LogicalSector undoes ComputeSector ... */
  lemma MapThenInverse(g: Geometry, r: nat)
    requires g.Valid()
    ensures var p := ComputeSector(g, r);
            && p.dataDisk < g.disks && p.dataDisk != ParityOf(g, p.sector)
            && LogicalSector(g, p.sector, p.dataDisk) == r
            && ChunkAt(g, p.sector, p.dataDisk) == Div(r, g.sectorsPerChunk)
  {
    PlaceInRange(g, r);
    DivModAgain(Div(r, g.sectorsPerChunk), g.disks - 1);
    DivModAgain(r, g.sectorsPerChunk);
  }

  /** ... and ComputeSector undoes LogicalSector, so the map is a bijection between the logical
      sectors and the pairs of a member sector and a disk other than its row's parity disk. */
  lemma InverseThenMap(g: Geometry, sector: nat, i: nat)
    requires g.Valid() && i < g.disks && i != ParityOf(g, sector)
    ensures ComputeSector(g, LogicalSector(g, sector, i)) == Place(sector, i, ParityOf(g, sector))
  {
    var spc, stripe := g.sectorsPerChunk, Div(sector, g.sectorsPerChunk);
    var pd := ParityDisk(g, stripe);
    ParityInRange(g, stripe);
    DiskOfSlot(g, pd, i);
    var chunk, r := ChunkAt(g, sector, i), LogicalSector(g, sector, i);
    DivModUnique(r, spc, chunk, Mod(sector, spc));
    DivModUnique(chunk, g.disks - 1, stripe, DataSlot(g, pd, i));
    PlaceByRow(g, r);
    DivModAgain(sector, spc);
  }

  lemma MapInjective(g: Geometry, r1: nat, r2: nat)
    requires g.Valid()
    requires ComputeSector(g, r1).sector == ComputeSector(g, r2).sector
    requires ComputeSector(g, r1).dataDisk == ComputeSector(g, r2).dataDisk
    ensures r1 == r2
  {
    MapThenInverse(g, r1);
    MapThenInverse(g, r2);
  }

  // ----- Which disks hold data

  /** At level 4 the last disk holds nothing but parity. */
  predicate HoldsData(g: Geometry, k: nat) {
    k < g.disks && (g.level == Raid5 || k + 1 < g.disks)
  }

  /** The disks that hold data are exactly those to which some logical sector is mapped. */
  lemma DataDisksExactly(g: Geometry, k: nat)
    requires g.Valid()
    ensures HoldsData(g, k) <==> exists r: nat :: ComputeSector(g, r).dataDisk == k
  {
    if HoldsData(g, k) {
      DataRowHasData(g, k);
      InverseThenMap(g, DataRow(g, k), k);
    } else if r: nat :| ComputeSector(g, r).dataDisk == k {
      DataGoesToData(g, r);
    }
  }

  lemma DataGoesToData(g: Geometry, r: nat)
    requires g.Valid()
    ensures HoldsData(g, ComputeSector(g, r).dataDisk)
  {
    PlaceInRange(g, r);
  }

  /** The start of the first row, or of the second if disk k holds the parity of the first. */
  function DataRow(g: Geometry, k: nat): nat
    requires g.Valid()
  {
    if ParityOf(g, 0) != k then 0 else g.sectorsPerChunk
  }

  lemma DataRowHasData(g: Geometry, k: nat)
    requires g.Valid() && HoldsData(g, k)
    ensures ParityOf(g, DataRow(g, k)) != k
  {
    FirstRows(g);
    DivModUnique(0, g.disks, 0, 0);
    DivModUnique(1, g.disks, 0, 1);
  }

  lemma FirstRows(g: Geometry)
    requires g.Valid()
    ensures Div(0, g.sectorsPerChunk) == 0 && Mod(0, g.sectorsPerChunk) == 0
    ensures Div(g.sectorsPerChunk, g.sectorsPerChunk) == 1 && Mod(g.sectorsPerChunk, g.sectorsPerChunk) == 0
  {
    DivModUnique(0, g.sectorsPerChunk, 0, 0);
    DivModUnique(g.sectorsPerChunk, g.sectorsPerChunk, 1, 0);
  }

  // ----- compute_blocknr

  /** compute_blocknr is exactly "the true inverse if the truncated product still is it, else 0". */
  lemma BlocknrByInverse(g: Geometry, sector: nat, i: nat)
    requires g.Valid() && i < g.disks && i != ParityOf(g, sector)
    ensures var r := LogicalSector(g, sector, i);
            var t := TruncatedSector(g.sectorsPerChunk, ChunkAt(g, sector, i), Mod(sector, g.sectorsPerChunk));
            ComputeBlocknr(g, sector, ParityOf(g, sector), i) == if t == r then r else 0
  {
    InverseThenMap(g, sector, i);
    var t := TruncatedSector(g.sectorsPerChunk, ChunkAt(g, sector, i), Mod(sector, g.sectorsPerChunk));
    MapThenInverse(g, t);
  }

  /** The logical sector exists in a 64-bit sector_t and the chunk size is a power of two of at most
      2^32 sectors (do_jmd_run admits only powers of two up to 4 MB). Then the truncation to int
      harms exactly the chunks that are neither below 2^31 nor, through sign extension, among the
      last 2^31 chunks of the 64-bit range; there compute_blocknr reports "map not correct". */
  lemma BlocknrExact(g: Geometry, sector: nat, i: nat)
    requires g.Valid() && i < g.disks && i != ParityOf(g, sector)
    requires TWO_32 % g.sectorsPerChunk == 0
    requires LogicalSector(g, sector, i) < TWO_64
    ensures var c := ChunkAt(g, sector, i);
            var blk := ComputeBlocknr(g, sector, ParityOf(g, sector), i);
            if c < TWO_31 || TWO_64 / g.sectorsPerChunk - TWO_31 <= c
            then blk == LogicalSector(g, sector, i)
            else blk == 0 && LogicalSector(g, sector, i) != 0
  {
    BlocknrByInverse(g, sector, i);
    TruncationExact(ChunkAt(g, sector, i), g.sectorsPerChunk, Mod(sector, g.sectorsPerChunk));
  }

  lemma TruncationExact(c: nat, spc: nat, off: nat)
    requires 1 <= spc && off < spc && TWO_32 % spc == 0 && c * spc + off < TWO_64
    ensures TruncatedSector(spc, c, off) == c * spc + off
            <==> c < TWO_31 || TWO_64 / spc - TWO_31 <= c
    ensures !(c < TWO_31 || TWO_64 / spc - TWO_31 <= c) ==> c * spc + off != 0
  {
    var k: int := TWO_32 / spc;
    ChunkRange(spc, k, k * TWO_32);
    TruncationAt(c, spc, off, k, k * TWO_32);
  }

  lemma TruncationAt(c: nat, spc: nat, off: nat, k: int, m: int)
    requires 1 <= spc <= TWO_32 && off < spc && 1 <= k && m == k * TWO_32 && m * spc == TWO_64
    requires c * spc + off < TWO_64
    ensures (ToInt32(c) * spc + off) % TWO_64 == c * spc + off <==> c < TWO_31 || m - TWO_31 <= c
    ensures !(c < TWO_31 || m - TWO_31 <= c) ==> c * spc + off != 0
  {
    assert c < m by {
      MulSign(c - m, spc);
      assert (c - m) * spc == c * spc - m * spc;
    }
    if c < TWO_31 {
      DivModUnique(c, TWO_32, 0, c);
      DivModUnique(c * spc + off, TWO_64, 0, c * spc + off);
    } else if m - TWO_31 <= c {
      DivModUnique(c, TWO_32, k - 1, c - m + TWO_32);
      SignExtensionHelps(c, spc, off, m);
    } else {
      TruncationHarms(c, spc, off, m);
    }
  }

  lemma ChunkRange(spc: nat, k: int, m: int)
    requires 1 <= spc && k == TWO_32 / spc && TWO_32 % spc == 0 && m == k * TWO_32
    ensures m * spc == TWO_64 && TWO_64 / spc == m && 1 <= k && spc <= TWO_32
  {
    DivModAgain(TWO_32, spc);
    assert m * spc == (k * spc) * TWO_32;
    DivModUnique(TWO_64, spc, m, 0);
    MulSign(-k, spc);
    MulSign(k, spc);
  }

  lemma SignExtensionHelps(c: nat, spc: nat, off: nat, m: nat)
    requires m * spc == TWO_64 && c * spc + off < TWO_64
    ensures ((c - m) * spc + off) % TWO_64 == c * spc + off
  {
    assert (c - m) * spc == c * spc - m * spc;
    DivModUnique((c - m) * spc + off, TWO_64, -1, c * spc + off);
  }

  lemma TruncationHarms(c: nat, spc: nat, off: nat, m: nat)
    requires 1 <= spc <= TWO_32 && off < spc && m * spc == TWO_64 && m >= TWO_32
    requires TWO_31 <= c < m - TWO_31
    requires c * spc + off < TWO_64
    ensures (ToInt32(c) * spc + off) % TWO_64 != c * spc + off
    ensures c * spc + off != 0
  {
    var t := ToInt32(c);
    var r := c * spc + off;
    var q := -((t * spc + off) / TWO_64);
    DivModAgain(t * spc + off, TWO_64);
    MulSign(c, spc);
    if (t * spc + off) % TWO_64 == r {
      assert (c - t) * spc == c * spc - t * spc;
      assert (c - t) * spc == q * TWO_64;
      MulAssoc(q, m, spc);
      MulCancel(c - t, q * m, spc);
      NoMultipleBetween(q, m);
    }
  }

  lemma NoMultipleBetween(q: int, m: int)
    requires 0 < m
    ensures !(0 < q * m < m)
  {
    MulSign(q, m);
    assert (q - 1) * m == q * m - m;
    MulSign(q - 1, m);
  }

  lemma MulAssoc(a: int, b: int, c: int)
    ensures a * (b * c) == (a * b) * c
  {}

  lemma MulCancel(a: int, b: int, m: int)
    requires 0 < m && a * m == b * m
    ensures a == b
  {
    assert (a - b) * m == 0;
    MulSign(a - b, m);
  }

  /** For any other parity disk than the row's own, and for the parity disk itself as the disk
      asked about, the check fails. */
  lemma BlocknrRejects(g: Geometry, sector: nat, pd: nat, i: nat)
    requires g.Valid()
    requires pd != ParityOf(g, sector) || i == pd
    ensures ComputeBlocknr(g, sector, pd, i) == 0
  {
    var chunk := Mul(Div(sector, g.sectorsPerChunk), g.disks - 1) + DataSlot(g, pd, i);
    PlaceInRange(g, TruncatedSector(g.sectorsPerChunk, chunk, Mod(sector, g.sectorsPerChunk)));
  }

  /** What the request path relies on: for a request whose chunk number is below 2^31 the slot that
      jraid5_make_request selects was built with exactly the request's own sector. */
  lemma BlocknrOfRequest(g: Geometry, r: nat)
    requires g.Valid() && Div(r, g.sectorsPerChunk) < TWO_31 && r < TWO_64
    ensures var p := ComputeSector(g, r);
            ComputeBlocknr(g, p.sector, p.parityDisk, p.dataDisk) == r
  {
    MapThenInverse(g, r);
    PlaceInRange(g, r);
    var p := ComputeSector(g, r);
    var c := Div(r, g.sectorsPerChunk);
    BlocknrByInverse(g, p.sector, p.dataDisk);
    DivModUnique(c, TWO_32, 0, c);
    DivModUnique(r, TWO_64, 0, r);
  }

  /** The limit is exact: at chunk number 2^31 the truncation changes the result. The input is
      hypothetical, as no array with 32 KB chunks publishes so many sectors (Capacity). */
  lemma BlocknrFails(g: Geometry)
    requires g == Geometry(3, 64, Raid5, LeftAsymmetric)
    ensures var p := ComputeSector(g, 64 * TWO_31);
            ComputeBlocknr(g, p.sector, p.parityDisk, p.dataDisk) == 0
  {
    MapThenInverse(g, 64 * TWO_31);
    PlaceInRange(g, 64 * TWO_31);
    var p := ComputeSector(g, 64 * TWO_31);
    BlocknrExact(g, p.sector, p.dataDisk);
  }

  // ----- Resync addressing

  /** jraid5_sync_request, lines 1171-1185: the logical sector it feeds to the map. */
  function ResyncArgument(g: Geometry, blockNr: nat): nat
    requires g.Valid()
  {
    var s := blockNr * 2;
    Mul(Mul(Div(s, g.sectorsPerChunk), g.disks - 1), g.sectorsPerChunk) + Mod(s, g.sectorsPerChunk)
  }

  /** It lands on the row that holds member sector block_nr << 1. */
  lemma ResyncHitsRow(g: Geometry, blockNr: nat)
    requires g.Valid()
    ensures ComputeSector(g, ResyncArgument(g, blockNr)).sector == blockNr * 2
    ensures ComputeSector(g, ResyncArgument(g, blockNr)).parityDisk == ParityOf(g, blockNr * 2)
  {
    var s, spc := blockNr * 2, g.sectorsPerChunk;
    var chunk := Div(s, spc) * (g.disks - 1);
    DivModUnique(ResyncArgument(g, blockNr), spc, chunk, Mod(s, spc));
    DivModUnique(chunk, g.disks - 1, Div(s, spc), 0);
    PlaceByRow(g, ResyncArgument(g, blockNr));
    DivModAgain(s, spc);
  }

  // ----- Rotation and balance

  /** The row of the window [first, first + disks) in which disk d holds parity, at level 5. */
  function ParityRow(g: Geometry, first: nat, d: nat): (row: nat)
    requires g.Valid() && d < g.disks
  {
    var want := match g.layout
      case LeftAsymmetric | LeftSymmetric => g.disks - 1 - d
      case RightAsymmetric | RightSymmetric => d;
    var at := first % g.disks;
    if want >= at then first + (want - at) else first + (want + g.disks - at)
  }

  lemma RemainderInWindow(first: nat, row: nat, n: nat)
    requires 0 < n && first <= row < first + n
    ensures row % n == if first % n + (row - first) < n then first % n + (row - first)
                       else first % n + (row - first) - n
  {
    var q, at := first / n, first % n;
    if at + (row - first) < n {
      DivModUnique(row, n, q, at + (row - first));
    } else {
      assert (q + 1) * n == q * n + n;
      DivModUnique(row, n, q + 1, at + (row - first) - n);
    }
  }

  /** At level 5, over any n consecutive rows and in every layout, each disk holds parity in
      exactly one row. */
  lemma ParityOncePerWindow(g: Geometry, first: nat, d: nat, row: nat)
    requires g.Valid() && g.level == Raid5 && d < g.disks && first <= row < first + g.disks
    ensures first <= ParityRow(g, first, d) < first + g.disks
    ensures ParityDisk(g, row) == d <==> row == ParityRow(g, first, d)
  {
    RemainderInWindow(first, row, g.disks);
  }

  /** The rows of a window in which disk d holds data. */
  function DataRows(g: Geometry, first: nat, d: nat): (rows: set<nat>)
    requires g.Valid()
  {
    set row: nat | first <= row < first + g.disks && ParityDisk(g, row) != d
  }

  function Window(first: nat, n: nat): (w: set<nat>)
    ensures |w| == n
    ensures forall k :: k in w <==> first <= k < first + n
  {
    if n == 0 then {} else Window(first, n - 1) + {first + n - 1}
  }

  /** ... and therefore data in exactly n - 1 of them. */
  lemma DataInTheOthers(g: Geometry, first: nat, d: nat)
    requires g.Valid() && g.level == Raid5 && d < g.disks
    ensures |DataRows(g, first, d)| == g.disks - 1
  {
    forall row: nat | first <= row < first + g.disks
      ensures ParityDisk(g, row) == d <==> row == ParityRow(g, first, d)
    {
      ParityOncePerWindow(g, first, d, row);
    }
    ParityOncePerWindow(g, first, d, first);
    assert DataRows(g, first, d) == Window(first, g.disks) - {ParityRow(g, first, d)};
  }

  /** Left-symmetric: chunk number c lives on disk c mod n ... */
  lemma LeftSymmetricRoundRobin(g: Geometry, r: nat)
    requires g.Valid() && g.level == Raid5 && g.layout == LeftSymmetric
    ensures ComputeSector(g, r).dataDisk == Mod(Div(r, g.sectorsPerChunk), g.disks)
  {
    PlaceByRow(g, r);
    var c := Div(r, g.sectorsPerChunk);
    DivModAgain(c, g.disks - 1);
    RoundRobin(c, g.disks, StripeOf(g, r), Mod(c, g.disks - 1));
  }

  lemma RoundRobin(c: int, n: int, stripe: int, d: int)
    requires 2 <= n && 0 <= d < n - 1 && c == stripe * (n - 1) + d
    ensures (n - 1 - stripe % n + 1 + d) % n == c % n
  {
    DivModAgain(stripe, n);
    var turns := stripe - stripe / n - 1;
    var x := n - stripe % n + d;
    assert c == turns * n + x by {
      assert stripe * (n - 1) == stripe * n - stripe;
      assert turns * n == stripe * n - stripe / n * n - n;
    }
    if x >= n {
      assert (turns + 1) * n == turns * n + n;
      RoundRobinStep(c, n, turns + 1, x - n, x, 1);
    } else {
      RoundRobinStep(c, n, turns, x, x, 0);
    }
  }

  lemma RoundRobinStep(c: int, n: int, q: int, rest: int, x: int, k: int)
    requires 0 <= rest < n && c == q * n + rest && x == k * n + rest
    ensures c % n == x % n == rest
  {
    DivModUnique(c, n, q, rest);
    DivModUnique(x, n, k, rest);
  }

  /** ... so any n consecutive chunks fall on n distinct disks. */
  lemma LeftSymmetricSpreads(g: Geometry, r1: nat, r2: nat)
    requires g.Valid() && g.level == Raid5 && g.layout == LeftSymmetric
    requires Div(r1, g.sectorsPerChunk) < Div(r2, g.sectorsPerChunk) < Div(r1, g.sectorsPerChunk) + g.disks
    ensures ComputeSector(g, r1).dataDisk != ComputeSector(g, r2).dataDisk
  {
    LeftSymmetricRoundRobin(g, r1);
    LeftSymmetricRoundRobin(g, r2);
    RemainderInWindow(Div(r1, g.sectorsPerChunk), Div(r2, g.sectorsPerChunk), g.disks);
  }

  // ----- The order of the disks

  /** The disk after d, and from the last one back to the first. */
  function After(n: nat, d: nat): nat {
    if d + 1 == n then 0 else d + 1
  }

  lemma NextMod(x: nat, n: nat)
    requires 0 < n
    ensures Mod(x + 1, n) == After(n, Mod(x, n)) && Mod(0, n) == 0
  {
    DivModAgain(x, n);
    if Mod(x, n) + 1 == n {
      DivModUnique(x + 1, n, Div(x, n) + 1, 0);
    } else {
      DivModUnique(x + 1, n, Div(x, n), Mod(x, n) + 1);
    }
    DivModUnique(0, n, 0, 0);
  }

  /** From row to row the left layouts move the parity down by one disk, starting with the last, and the
      right layouts up, starting with the first; at level 4 it stays on the last disk. */
  lemma ParityRotates(g: Geometry, row: nat)
    requires g.Valid()
    ensures var here, next := ParityDisk(g, row), ParityDisk(g, row + 1);
            if g.level == Raid4 then here == next == g.disks - 1
            else match g.layout
              case LeftAsymmetric | LeftSymmetric =>
                ParityDisk(g, 0) == g.disks - 1 && here == After(g.disks, next)
              case RightAsymmetric | RightSymmetric =>
                ParityDisk(g, 0) == 0 && next == After(g.disks, here)
  {
    NextMod(row, g.disks);
  }

  /** The first chunk of a row is on the lowest disk without the parity, or in the symmetric layouts on
      the disk after the parity. */
  lemma FirstInRow(g: Geometry, r: nat)
    requires g.Valid() && Mod(Div(r, g.sectorsPerChunk), g.disks - 1) == 0
    ensures var p := ComputeSector(g, r);
            if g.level == Raid5 && (g.layout == LeftSymmetric || g.layout == RightSymmetric) then
              p.dataDisk == After(g.disks, p.parityDisk)
            else p.dataDisk == if p.parityDisk == 0 then 1 else 0
  {
    PlaceInRange(g, r);
    PlaceByRow(g, r);
    NextMod(ParityDisk(g, StripeOf(g, r)), g.disks);
    DivModUnique(ParityDisk(g, StripeOf(g, r)), g.disks, 0, ParityDisk(g, StripeOf(g, r)));
  }

  /** The next chunk of the same row is on the next disk without the parity, or in the symmetric layouts
      on the disk after the first one's, counted around. */
  lemma NextInRow(g: Geometry, r: nat)
    requires g.Valid() && StripeOf(g, r + g.sectorsPerChunk) == StripeOf(g, r)
    ensures var here, next := ComputeSector(g, r), ComputeSector(g, r + g.sectorsPerChunk);
            && next.sector == here.sector && next.parityDisk == here.parityDisk
            && if g.level == Raid5 && (g.layout == LeftSymmetric || g.layout == RightSymmetric) then
                 next.dataDisk == After(g.disks, here.dataDisk)
               else
                 next.dataDisk == here.dataDisk + if here.parityDisk == here.dataDisk + 1 then 2 else 1
  {
    var spc := g.sectorsPerChunk;
    NextChunk(r, spc);
    PlaceInRange(g, r);
    PlaceByRow(g, r);
    PlaceByRow(g, r + spc);
    SameRow(Div(r, spc), g.disks - 1);
    NextMod(ParityDisk(g, StripeOf(g, r)) + 1 + Mod(Div(r, spc), g.disks - 1), g.disks);
  }

  lemma NextChunk(r: nat, spc: nat)
    requires 0 < spc
    ensures Div(r + spc, spc) == Div(r, spc) + 1 && Mod(r + spc, spc) == Mod(r, spc)
  {
    DivModAgain(r, spc);
    DivModUnique(r + spc, spc, Div(r, spc) + 1, Mod(r, spc));
  }

  lemma SameRow(c: nat, m: nat)
    requires 0 < m && Div(c + 1, m) == Div(c, m)
    ensures Mod(c + 1, m) == Mod(c, m) + 1
  {
    DivModAgain(c, m);
    DivModAgain(c + 1, m);
  }
}
