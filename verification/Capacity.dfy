/** The size arithmetic of src/jmd.c and what it gives together with the address map: exactly when no
    data reaches a superblock, and that no published sector is truncated. Sizes are in sectors of 512
    bytes. A request may start at any sector; a whole page is sent for it (src/jraid5.c:834-842). */
module Capacity {
  import opened AddressMap

  const RESERVED: nat := 128        // MD_RESERVED_BLOCKS
  const CAPACITY_UNIT: nat := 16384 // jmddev->chunk_sectors
  const MAX_DISKS: nat := 27        // MD_SB_DISKS
  const PAGE: nat := 8              // STRIPE_SECTORS
  const MAX_CHUNK: nat := 8192      // MAX_CHUNK_SIZE

  /** sb->chunk_size / 512 for a chunk size that do_jmd_run accepts: a power of two from a page to
      4 MB. set_array_info always writes 64. */
  predicate ChunkOk(spc: nat) {
    PAGE <= spc && spc % PAGE == 0 && MAX_CHUNK % spc == 0
  }

  /** Halving down to one without a remainder. */
  predicate PowerOfTwo(x: nat) {
    x == 1 || (0 < x && x % 2 == 0 && PowerOfTwo(x / 2))
  }

  function TwoTo(k: nat): (p: nat)
    ensures p > 0
  {
    if k == 0 then 1 else 2 * TwoTo(k - 1)
  }

  lemma TwoTo13()
    ensures TwoTo(13) == 8192
  {
    assert TwoTo(3) == 8 && TwoTo(6) == 8 * TwoTo(3);
    assert TwoTo(9) == 8 * TwoTo(6) && TwoTo(13) == 16 * TwoTo(9);
  }

  lemma EvenFactor(x: nat, q: nat)
    requires x % 2 == 1 && x * q % 2 == 0
    ensures q % 2 == 0
  {
    var h := x / 2 * q;
    assert x * q == 2 * h + q by { MulAssoc(2, x / 2, q); }
  }

  /** A factor of a power of two is one. */
  lemma {:induction false} FactorOf(x: nat, q: nat, k: nat)
    requires x * q == TwoTo(k)
    ensures PowerOfTwo(x)
  {
    if k == 0 {
      if x > 1 {
        MulMonotone(1, q, x);
      }
    } else if x % 2 == 0 {
      assert x * q == 2 * (x / 2 * q) by { MulAssoc(2, x / 2, q); }
      FactorOf(x / 2, q, k - 1);
    } else {
      EvenFactor(x, q);
      assert x * q == 2 * (x * (q / 2)) by { MulAssoc(x, q / 2, 2); }
      FactorOf(x, q / 2, k - 1);
    }
  }

  lemma {:induction false} Cofactor(x: nat, k: nat) returns (q: nat)
    requires PowerOfTwo(x) && x <= TwoTo(k)
    ensures x * q == TwoTo(k)
  {
    if x == 1 {
      q := TwoTo(k);
    } else {
      q := Cofactor(x / 2, k - 1);
      MulAssoc(2, x / 2, q);
    }
  }

  /** The chunk sizes are exactly the powers of two from 8 to 8192 sectors. */
  lemma ChunkExactly(spc: nat)
    ensures ChunkOk(spc) <==> PowerOfTwo(spc) && 8 <= spc <= 8192
  {
    if ChunkOk(spc) {
      ChunkAtMost(spc);
      ExactQuotient(MAX_CHUNK, spc);
      TwoTo13();
      FactorOf(spc, Div(MAX_CHUNK, spc), 13);
    }
    if PowerOfTwo(spc) && 8 <= spc <= 8192 {
      TwoTo13();
      var q := Cofactor(spc, 13);
      DivModUnique(MAX_CHUNK, spc, q, 0);
      EighthsOf(spc);
    }
  }

  lemma ExactQuotient(a: nat, b: nat)
    requires 0 < b && a % b == 0
    ensures b * Div(a, b) == a
  {
    DivModAgain(a, b);
  }

  lemma EighthsOf(x: nat)
    requires PowerOfTwo(x) && 8 <= x
    ensures x % 8 == 0
  {
    assert PowerOfTwo(x / 2) && PowerOfTwo(x / 2 / 2);
  }

  function RoundDown(x: nat, b: nat): (r: nat)
    requires 0 < b
    ensures r <= x < r + b && r % b == 0
  {
    DivModAgain(x, b);
    DivModUnique(x - x % b, b, x / b, 0);
    x - x % b
  }

  /** calc_dev_sboffset of a persistent array; MD_NEW_SIZE_BLOCKS is computed in 64 bits. */
  function SbOffset(device: nat): nat {
    (RoundDown(device, RESERVED) - RESERVED) % TWO_64
  }

  /** calc_dev_size: the mask is a 32-bit value, so it also clears the upper half. */
  function DevSize(device: nat, spc: nat): nat
    requires 0 < spc
  {
    RoundDown(SbOffset(device) % TWO_32, spc)
  }

  /** sb->size after add_new_disk has seen the devices in this order; zero counts as "not set". */
  function ArraySize(added: seq<nat>, spc: nat): nat
    requires 0 < spc
  {
    if added == [] then 0
    else
      var before, size := ArraySize(added[..|added| - 1], spc), DevSize(added[|added| - 1], spc);
      if before == 0 || before > size then size else before
  }

  /** jmddev_size as add_store calls it, for n members. */
  function PublishedCapacity(size: nat, n: nat): nat {
    RoundDown(size / 2, CAPACITY_UNIT) * n
  }

  /** The test of device_size_calculation on one member. */
  predicate PassesSizeCheck(device: nat, spc: nat)
    requires 0 < spc
  {
    DevSize(device, spc) >= spc
  }

  // ----- One member

  /** The superblock area lies behind the offset and on the device exactly when the device has at
      least 128 sectors; below that the subtraction wraps. */
  lemma ReservedFits(device: nat, spc: nat)
    requires device < TWO_64 && 0 < spc
    ensures SbOffset(device) + RESERVED <= device <==> RESERVED <= device
    ensures DevSize(device, spc) <= SbOffset(device)
  {
    ModAtMost(SbOffset(device), TWO_32);
    var low := RoundDown(device, RESERVED);
    if device < RESERVED {
      DivModUnique(device, RESERVED, 0, device);
      DivModUnique(0 - RESERVED, TWO_64, -1, TWO_64 - RESERVED);
    } else {
      DivModUnique(low, RESERVED, device / RESERVED, 0);
      DivModUnique(low - RESERVED, TWO_64, 0, low - RESERVED);
    }
  }

  lemma ModAtMost(x: nat, m: nat)
    requires 0 < m
    ensures x % m <= x
  {
    if x < m {
      DivModUnique(x, m, 0, x);
    }
  }

  /** Every device below 128 sectors passes the size check. */
  lemma TinyPasses(device: nat, spc: nat)
    requires device < RESERVED && 0 < spc <= MAX_CHUNK
    ensures SbOffset(device) % TWO_32 == TWO_32 - RESERVED
    ensures PassesSizeCheck(device, spc)
  {
    DivModUnique(device, RESERVED, 0, device);
    DivModUnique(0 - RESERVED, TWO_64, -1, TWO_64 - RESERVED);
    DivModUnique(TWO_64 - RESERVED, TWO_32, TWO_32 - 1, TWO_32 - RESERVED);
  }

  /** The size of a device, from its two rounded values. */
  lemma DevSizeIs(device: nat, spc: nat, rounded: nat, size: nat)
    requires 0 < spc && RoundDown(device, RESERVED) == rounded && RESERVED <= rounded < TWO_32
    requires RoundDown(rounded - RESERVED, spc) == size
    ensures DevSize(device, spc) == size
  {
    DivModUnique(rounded - RESERVED, TWO_64, 0, rounded - RESERVED);
    DivModUnique(rounded - RESERVED, TWO_32, 0, rounded - RESERVED);
  }

  // ----- sb->size

  lemma SizeStep(added: seq<nat>, x: nat, spc: nat)
    requires 0 < spc
    ensures var before := ArraySize(added, spc);
            ArraySize(added + [x], spc) == if before == 0 || before > DevSize(x, spc) then DevSize(x, spc) else before
  {
    assert (added + [x])[..|added|] == added;
  }

  /** For members that pass the check, sb->size is the smallest member size, in any order. */
  lemma {:induction false} SizeIsMinimum(added: seq<nat>, spc: nat)
    requires added != [] && 0 < spc && forall k :: 0 <= k < |added| ==> PassesSizeCheck(added[k], spc)
    ensures forall k :: 0 <= k < |added| ==> ArraySize(added, spc) <= DevSize(added[k], spc)
    ensures exists k :: 0 <= k < |added| && ArraySize(added, spc) == DevSize(added[k], spc)
  {
    var rest, last := added[..|added| - 1], |added| - 1;
    if rest == [] {
      assert ArraySize(added, spc) == DevSize(added[0], spc);
    } else {
      SizeIsMinimum(rest, spc);
      var k :| 0 <= k < |rest| && ArraySize(rest, spc) == DevSize(rest[k], spc);
      assert PassesSizeCheck(added[k], spc);
      assert rest[k] == added[k];
      forall j | 0 <= j < |added| ensures ArraySize(added, spc) <= DevSize(added[j], spc) {
        assert j < |rest| ==> rest[j] == added[j] && ArraySize(rest, spc) <= DevSize(rest[j], spc);
      }
      assert ArraySize(added, spc) == DevSize(added[last], spc) || ArraySize(added, spc) == DevSize(added[k], spc);
    }
  }

  /** A member of 128 to 255 sectors has size zero and makes sb->size forget the members before it;
      the size check then rejects the array. */
  lemma ZeroForgets(added: seq<nat>, tiny: nat, next: nat, spc: nat)
    requires RESERVED <= tiny < 2 * RESERVED && 0 < spc
    ensures ArraySize(added + [tiny, next], spc) == DevSize(next, spc)
    ensures !PassesSizeCheck(tiny, spc)
  {
    DivModUnique(tiny, RESERVED, 1, tiny - RESERVED);
    DivModUnique(0, spc, 0, 0);
    DevSizeIs(tiny, spc, RESERVED, 0);
    SizeStep(added, tiny, spc);
    SizeStep(added + [tiny], next, spc);
    assert added + [tiny] + [next] == added + [tiny, next];
  }

  // ----- Page and chunk arithmetic

  lemma MulMonotone(a: nat, b: nat, c: nat)
    requires a <= b
    ensures a * c <= b * c && c * a <= c * b
  {}

  lemma Regroup(a: nat, b: nat, c: nat)
    ensures a * b * c == a * c * b
  {}

  lemma StripeBelow(chunk: nat, q: nat, n: nat)
    requires 2 <= n && chunk < q * n
    ensures Div(chunk, n - 1) < 2 * q
  {
    if Div(chunk, n - 1) >= 2 * q {
      var s := Div(chunk, n - 1);
      assert chunk >= s * (n - 1);
      assert s * (n - 1) >= 2 * q * (n - 1) by { MulMonotone(2 * q, s, n - 1); }
      assert 2 * q * (n - 1) == q * (2 * (n - 1)) by { MulAssoc(2, q, n - 1); }
      MulMonotone(n, 2 * (n - 1), q);
    }
  }

  /** A capacity unit is a whole number of chunks. */
  lemma UnitIsChunks(half: nat, spc: nat)
    requires ChunkOk(spc) && half % CAPACITY_UNIT == 0
    ensures half == Div(half, spc) * spc
  {
    var units, per := half / CAPACITY_UNIT, 2 * (MAX_CHUNK / spc);
    assert MAX_CHUNK == MAX_CHUNK / spc * spc;
    assert CAPACITY_UNIT == per * spc by { MulAssoc(2, MAX_CHUNK / spc, spc); }
    assert half == units * per * spc by { MulAssoc(units, per, spc); }
    DivModUnique(half, spc, units * per, 0);
  }

  lemma ChunkBelow(r: nat, chunks: nat, spc: nat)
    requires 0 < spc && r < chunks * spc
    ensures Div(r, spc) < chunks
  {
    DivModAgain(r, spc);
    if Div(r, spc) >= chunks {
      MulMonotone(chunks, Div(r, spc), spc);
    }
  }

  lemma PageInChunk(r: nat, spc: nat)
    requires r % PAGE == 0 && 0 < spc && spc % PAGE == 0
    ensures Mod(r, spc) + PAGE <= spc
  {
    DivModAgain(r, spc);
    var w, k, p := spc / PAGE, r / spc, r / PAGE;
    assert k * spc == k * w * PAGE by { MulAssoc(k, w, PAGE); }
    assert Mod(r, spc) == (p - k * w) * PAGE;
  }

  /** Below the published capacity a sector is mapped below sb->size, and its stripe page ends at or
      below sb->size if the sector is aligned or there are at least three members. */
  lemma BelowSize(g: Geometry, size: nat, r: nat)
    requires g.Valid() && ChunkOk(g.sectorsPerChunk) && r < PublishedCapacity(size, g.disks)
    ensures ComputeSector(g, r).sector < size
    ensures r % PAGE == 0 || g.disks >= 3 ==> ComputeSector(g, r).sector + PAGE <= size
  {
    var spc, half := g.sectorsPerChunk, RoundDown(size / 2, CAPACITY_UNIT);
    var q, chunk := Div(half, spc), Div(r, spc);
    UnitIsChunks(half, spc);
    Regroup(q, spc, g.disks);
    ChunkBelow(r, q * g.disks, spc);
    StripeBelow(chunk, q, g.disks);
    PlaceByRow(g, r);
    EndOfRow(StripeOf(g, r), q, spc, Mod(r, spc) + 1);
    if r % PAGE == 0 {
      PageInChunk(r, spc);
      EndOfRow(StripeOf(g, r), q, spc, Mod(r, spc) + PAGE);
    }
    if g.disks >= 3 {
      ManyChunks(half, q, spc);
      RowToSpare(chunk, q, g.disks);
      EndOfRow(StripeOf(g, r) + 1, q, spc, PAGE);
      assert (StripeOf(g, r) + 1) * spc == StripeOf(g, r) * spc + spc;
    }
    assert q * spc == half && 2 * half <= size;
  }

  lemma EndOfRow(stripe: nat, q: nat, spc: nat, offset: nat)
    requires stripe < 2 * q && offset <= spc
    ensures Mul(stripe, spc) + offset <= 2 * (q * spc)
  {
    MulMonotone(stripe + 1, 2 * q, spc);
    MulAssoc(2, q, spc);
    assert (stripe + 1) * spc == stripe * spc + spc;
  }

  lemma ManyChunks(half: nat, q: nat, spc: nat)
    requires ChunkOk(spc) && half == q * spc && q > 0 && half % CAPACITY_UNIT == 0
    ensures 2 <= q
  {
    ChunkAtMost(spc);
    MulSign(q, spc);
    UnitOrNothing(half);
  }

  /** With three or more members the last row of the even half of sb->size is never reached. */
  lemma RowToSpare(chunk: nat, q: nat, n: nat)
    requires 3 <= n && 2 <= q && chunk < q * n
    ensures Div(chunk, n - 1) + 1 < 2 * q
  {
    var s := Div(chunk, n - 1);
    DivModAgain(chunk, n - 1);
    MulSign(q - 1, n - 2);
    assert (2 * q - 1) * (n - 1) == q * n - 1 + (q - 1) * (n - 2);
    if s + 1 >= 2 * q {
      MulMonotone(2 * q - 1, s, n - 1);
    }
  }

  // ----- The whole array

  /** The members of an array, by role, and the order in which they were added. */
  ghost predicate Members(g: Geometry, devices: seq<nat>, added: seq<nat>) {
    && g.Valid() && ChunkOk(g.sectorsPerChunk) && g.disks == |devices| <= MAX_DISKS
    && multiset(added) == multiset(devices)
    && forall k :: 0 <= k < |devices| ==> devices[k] < TWO_64 && PassesSizeCheck(devices[k], g.sectorsPerChunk)
  }

  /** The stripe page sent for a logical sector ends at or below the superblock offset of its member,
      and the superblock area lies on the member. */
  ghost predicate Clear(g: Geometry, devices: seq<nat>, r: nat)
    requires g.Valid()
  {
    var p := ComputeSector(g, r);
    && p.dataDisk < |devices|
    && p.sector + PAGE <= SbOffset(devices[p.dataDisk])
    && SbOffset(devices[p.dataDisk]) + RESERVED <= devices[p.dataDisk]
  }

  /** Every sector below the published capacity is mapped below sb->size, which is at most every
      member's superblock offset. Its page ends there too if the sector is aligned or there are at
      least three members. */
  lemma DataBelowSuperblocks(g: Geometry, devices: seq<nat>, added: seq<nat>, r: nat, k: nat)
    requires Members(g, devices, added) && k < |devices|
    requires r < PublishedCapacity(ArraySize(added, g.sectorsPerChunk), |devices|)
    ensures ComputeSector(g, r).dataDisk < |devices|
    ensures ComputeSector(g, r).sector < ArraySize(added, g.sectorsPerChunk) <= SbOffset(devices[k])
    ensures r % PAGE == 0 || g.disks >= 3 ==> ComputeSector(g, r).sector + PAGE <= ArraySize(added, g.sectorsPerChunk)
  {
    PlaceInRange(g, r);
    BelowSize(g, ArraySize(added, g.sectorsPerChunk), r);
    AddedPass(g, devices, added);
    SizeIsMinimum(added, g.sectorsPerChunk);
    assert devices[k] in multiset(devices);
    assert devices[k] in added;
    ReservedFits(devices[k], g.sectorsPerChunk);
  }

  lemma AddedPass(g: Geometry, devices: seq<nat>, added: seq<nat>)
    requires Members(g, devices, added)
    ensures added != [] && forall k :: 0 <= k < |added| ==> PassesSizeCheck(added[k], g.sectorsPerChunk)
  {
    assert devices[0] in multiset(devices);
    forall k | 0 <= k < |added| ensures PassesSizeCheck(added[k], g.sectorsPerChunk) {
      assert added[k] in multiset(added);
      assert added[k] in devices;
    }
  }

  /** Every member that holds data has room for its superblock. At level 4 the last holds none. */
  ghost predicate AllHaveRoom(g: Geometry, devices: seq<nat>) {
    forall k :: 0 <= k < |devices| && HoldsData(g, k) ==> RESERVED <= devices[k]
  }

  /** A member without room is hit by data in its first or second row. */
  lemma NoRoom(g: Geometry, devices: seq<nat>, added: seq<nat>)
    requires Members(g, devices, added) && !AllHaveRoom(g, devices)
    requires PublishedCapacity(ArraySize(added, g.sectorsPerChunk), |devices|) > 0
    ensures exists r: nat :: r % PAGE == 0 && r < PublishedCapacity(ArraySize(added, g.sectorsPerChunk), |devices|)
                             && !Clear(g, devices, r)
  {
    var k :| 0 <= k < |devices| && HoldsData(g, k) && devices[k] < RESERVED;
    SectorOnHits(g, k, ArraySize(added, g.sectorsPerChunk));
    ReservedFits(devices[k], g.sectorsPerChunk);
    assert !Clear(g, devices, SectorOn(g, k));
  }

  lemma RoomAndBelow(g: Geometry, devices: seq<nat>, added: seq<nat>, r: nat)
    requires Members(g, devices, added) && AllHaveRoom(g, devices)
    requires r < PublishedCapacity(ArraySize(added, g.sectorsPerChunk), |devices|)
    ensures r % PAGE == 0 || g.disks >= 3 ==> Clear(g, devices, r)
    ensures ComputeSector(g, r).dataDisk < |devices|
    ensures var p := ComputeSector(g, r); Clear(g, devices, r) <==> p.sector + PAGE <= SbOffset(devices[p.dataDisk])
  {
    DataGoesToData(g, r);
    var d := ComputeSector(g, r).dataDisk;
    DataBelowSuperblocks(g, devices, added, r, d);
    ReservedFits(devices[d], g.sectorsPerChunk);
  }

  /** For aligned sectors: no page reaches a superblock if and only if every member that holds data has
      at least 128 sectors, or nothing is published at all. */
  lemma AlignedSafeExactly(g: Geometry, devices: seq<nat>, added: seq<nat>)
    requires Members(g, devices, added)
    ensures var capacity := PublishedCapacity(ArraySize(added, g.sectorsPerChunk), |devices|);
            (forall r: nat :: r % PAGE == 0 && r < capacity ==> Clear(g, devices, r))
            <==> capacity == 0 || AllHaveRoom(g, devices)
  {
    var capacity := PublishedCapacity(ArraySize(added, g.sectorsPerChunk), |devices|);
    if capacity > 0 && !AllHaveRoom(g, devices) {
      NoRoom(g, devices, added);
    } else {
      forall r: nat | r % PAGE == 0 && r < capacity ensures Clear(g, devices, r) {
        RoomAndBelow(g, devices, added, r);
      }
    }
  }

  /** The exact condition for requests at any sector. With two members the superblock of the one that
      holds the last published sector must also lie beyond the capacity: the page sent for that sector
      goes seven sectors further. */
  lemma SafeExactly(g: Geometry, devices: seq<nat>, added: seq<nat>)
    requires Members(g, devices, added)
    ensures var capacity := PublishedCapacity(ArraySize(added, g.sectorsPerChunk), |devices|);
            (forall r: nat :: r < capacity ==> Clear(g, devices, r)) <==>
            capacity == 0 || (AllHaveRoom(g, devices) && (g.disks >= 3 || LastClears(g, devices, capacity)))
  {
    var capacity := PublishedCapacity(ArraySize(added, g.sectorsPerChunk), |devices|);
    if capacity > 0 && !AllHaveRoom(g, devices) {
      NoRoom(g, devices, added);
    } else if capacity > 0 && g.disks == 2 && !LastClears(g, devices, capacity) {
      LastSector(g, devices, added);
    } else {
      forall r: nat | r < capacity ensures Clear(g, devices, r) {
        RoomAndBelow(g, devices, added, r);
        if g.disks == 2 {
          BeforeLast(g, devices, added, r);
        }
      }
    }
  }

  ghost predicate LastClears(g: Geometry, devices: seq<nat>, capacity: nat)
    requires g.Valid() && g.disks == |devices| && 0 < capacity
  {
    PlaceInRange(g, capacity - 1);
    capacity < SbOffset(devices[ComputeSector(g, capacity - 1).dataDisk])
  }

  lemma MirrorPlace(g: Geometry, r: nat)
    requires g.Valid() && g.disks == 2
    ensures ComputeSector(g, r).sector == r
  {
    DivModAgain(r, g.sectorsPerChunk);
    PlaceByRow(g, r);
  }

  /** With two members the page sent for the last published sector ends seven sectors beyond it. */
  lemma LastSector(g: Geometry, devices: seq<nat>, added: seq<nat>)
    requires Members(g, devices, added) && g.disks == 2 && AllHaveRoom(g, devices)
    requires var capacity := PublishedCapacity(ArraySize(added, g.sectorsPerChunk), |devices|);
             0 < capacity && !LastClears(g, devices, capacity)
    ensures !Clear(g, devices, PublishedCapacity(ArraySize(added, g.sectorsPerChunk), |devices|) - 1)
  {
    MirrorPlace(g, PublishedCapacity(ArraySize(added, g.sectorsPerChunk), |devices|) - 1);
  }

  lemma SbAligned(device: nat)
    requires RESERVED <= device < TWO_64
    ensures SbOffset(device) % RESERVED == 0
  {
    var low := RoundDown(device, RESERVED);
    DivModUnique(low, RESERVED, low / RESERVED, 0);
    DivModUnique(low - RESERVED, TWO_64, 0, low - RESERVED);
    DivModUnique(low - RESERVED, RESERVED, low / RESERVED - 1, 0);
  }

  lemma CapacityAligned(size: nat)
    ensures PublishedCapacity(size, 2) % RESERVED == 0
  {
    var half := RoundDown(size / 2, CAPACITY_UNIT);
    DivModUnique(half * 2, RESERVED, half / CAPACITY_UNIT * (2 * CAPACITY_UNIT / RESERVED), 0);
  }

  lemma CapacityInChunks(size: nat, spc: nat)
    requires ChunkOk(spc)
    ensures Mod(PublishedCapacity(size, 2), spc) == 0
  {
    var half := RoundDown(size / 2, CAPACITY_UNIT);
    UnitIsChunks(half, spc);
    TwiceInChunks(half, Div(half, spc), spc);
  }

  lemma TwiceInChunks(half: nat, q: nat, spc: nat)
    requires half == q * spc && 0 < spc
    ensures Mod(half * 2, spc) == 0
  {
    MulAssoc(2, q, spc);
    DivModUnique(half * 2, spc, 2 * q, 0);
  }

  /** With two members every other sector is clear, too: it is on the same member as the last, or at
      least a chunk before it. */
  lemma BeforeLast(g: Geometry, devices: seq<nat>, added: seq<nat>, r: nat)
    requires Members(g, devices, added) && g.disks == 2 && AllHaveRoom(g, devices)
    requires var capacity := PublishedCapacity(ArraySize(added, g.sectorsPerChunk), |devices|);
             r < capacity && LastClears(g, devices, capacity)
    ensures Clear(g, devices, r)
  {
    var size := ArraySize(added, g.sectorsPerChunk);
    MirrorPlace(g, r);
    RoomAndBelow(g, devices, added, r);
    if ComputeSector(g, r).dataDisk == ComputeSector(g, PublishedCapacity(size, 2) - 1).dataDisk {
      SameMember(g, devices, size, r);
    } else {
      OtherMember(g, size, r);
      BelowOffset(g, devices, added, ComputeSector(g, r).dataDisk);
    }
  }

  lemma OtherMember(g: Geometry, size: nat, r: nat)
    requires g.Valid() && g.disks == 2 && ChunkOk(g.sectorsPerChunk) && r < PublishedCapacity(size, 2)
    requires ComputeSector(g, r).dataDisk != ComputeSector(g, PublishedCapacity(size, 2) - 1).dataDisk
    ensures r + PAGE < PublishedCapacity(size, 2)
  {
    CapacityInChunks(size, g.sectorsPerChunk);
    OtherChunk(g, PublishedCapacity(size, 2), r);
  }

  lemma SameMember(g: Geometry, devices: seq<nat>, size: nat, r: nat)
    requires g.Valid() && g.disks == 2 == |devices| && AllHaveRoom(g, devices)
    requires forall k :: 0 <= k < |devices| ==> devices[k] < TWO_64
    requires r < PublishedCapacity(size, 2) && LastClears(g, devices, PublishedCapacity(size, 2))
    requires ComputeSector(g, r).dataDisk == ComputeSector(g, PublishedCapacity(size, 2) - 1).dataDisk < 2
    ensures r + PAGE <= SbOffset(devices[ComputeSector(g, r).dataDisk])
  {
    DataGoesToData(g, r);
    var d := ComputeSector(g, r).dataDisk;
    SbAligned(devices[d]);
    CapacityAligned(size);
    NextMultiple(PublishedCapacity(size, 2), SbOffset(devices[d]));
  }

  /** The capacity of two members is at most every superblock offset. */
  lemma BelowOffset(g: Geometry, devices: seq<nat>, added: seq<nat>, k: nat)
    requires Members(g, devices, added) && g.disks == 2 && k < |devices|
    requires 0 < PublishedCapacity(ArraySize(added, g.sectorsPerChunk), 2)
    ensures PublishedCapacity(ArraySize(added, g.sectorsPerChunk), 2) <= SbOffset(devices[k])
  {
    var capacity := PublishedCapacity(ArraySize(added, g.sectorsPerChunk), 2);
    MirrorPlace(g, capacity - 1);
    DataBelowSuperblocks(g, devices, added, capacity - 1, k);
  }

  lemma NextMultiple(a: nat, b: nat)
    requires a % RESERVED == 0 && b % RESERVED == 0 && a < b
    ensures a + RESERVED <= b
  {}

  /** A sector on the other member is not in the last chunk. */
  lemma OtherChunk(g: Geometry, capacity: nat, r: nat)
    requires g.Valid() && g.disks == 2 && PAGE <= g.sectorsPerChunk
    requires r < capacity && Mod(capacity, g.sectorsPerChunk) == 0
    requires ComputeSector(g, r).dataDisk != ComputeSector(g, capacity - 1).dataDisk
    ensures r + PAGE < capacity
  {
    if r + PAGE >= capacity {
      LastChunk(g, capacity, r);
      LastChunk(g, capacity, capacity - 1);
    }
  }

  lemma LastChunk(g: Geometry, capacity: nat, r: nat)
    requires g.Valid() && Mod(capacity, g.sectorsPerChunk) == 0
    requires r < capacity && capacity <= r + g.sectorsPerChunk
    ensures Div(r, g.sectorsPerChunk) == Div(capacity, g.sectorsPerChunk) - 1
  {
    var spc := g.sectorsPerChunk;
    DivModAgain(capacity, spc);
    var q := Div(capacity, spc) - 1;
    assert capacity == q * spc + spc;
    DivModUnique(r, spc, q, r - q * spc);
  }

  /** A logical sector that lands on disk k, in the first or second row. */
  function SectorOn(g: Geometry, k: nat): nat
    requires g.Valid() && HoldsData(g, k)
  {
    DataRowHasData(g, k);
    LogicalSector(g, DataRow(g, k), k)
  }

  lemma SectorOnHits(g: Geometry, k: nat, size: nat)
    requires g.Valid() && HoldsData(g, k) && ChunkOk(g.sectorsPerChunk)
    requires PublishedCapacity(size, g.disks) > 0
    ensures ComputeSector(g, SectorOn(g, k)).dataDisk == k
    ensures SectorOn(g, k) % PAGE == 0 && SectorOn(g, k) < PublishedCapacity(size, g.disks)
  {
    DataRowHasData(g, k);
    InverseThenMap(g, DataRow(g, k), k);
    EarlyChunk(g, DataRow(g, k), k);
    CapacityStep(size, g.disks);
  }

  lemma EarlyChunk(g: Geometry, sector: nat, k: nat)
    requires g.Valid() && k < g.disks && k != ParityOf(g, sector) && ChunkOk(g.sectorsPerChunk)
    requires sector == 0 || sector == g.sectorsPerChunk
    ensures LogicalSector(g, sector, k) % PAGE == 0
    ensures LogicalSector(g, sector, k) < CAPACITY_UNIT * g.disks
  {
    FirstRows(g);
    DataSlotInRange(g, ParityOf(g, sector), k);
    var chunk := ChunkAt(g, sector, k);
    assert LogicalSector(g, sector, k) == chunk * g.sectorsPerChunk;
    ChunkSector(chunk, g.sectorsPerChunk, g.disks);
  }

  lemma ChunkSector(chunk: nat, spc: nat, n: nat)
    requires ChunkOk(spc) && chunk < 2 * (n - 1)
    ensures chunk * spc % PAGE == 0 && chunk * spc < CAPACITY_UNIT * n
  {
    ChunkAtMost(spc);
    MulMonotone(spc, MAX_CHUNK, chunk);
    var w := spc / PAGE;
    assert chunk * spc == chunk * w * PAGE by { MulAssoc(chunk, w, PAGE); }
    DivModUnique(chunk * spc, PAGE, chunk * w, 0);
  }

  lemma ChunkAtMost(spc: nat)
    requires ChunkOk(spc)
    ensures spc <= MAX_CHUNK
  {
    if spc > MAX_CHUNK {
      DivModUnique(MAX_CHUNK, spc, 0, MAX_CHUNK);
    }
  }

  lemma CapacityStep(size: nat, n: nat)
    requires PublishedCapacity(size, n) > 0
    ensures PublishedCapacity(size, n) >= CAPACITY_UNIT * n
  {
    var half := RoundDown(size / 2, CAPACITY_UNIT);
    UnitOrNothing(half);
    if half > 0 {
      MulMonotone(CAPACITY_UNIT, half, n);
    }
  }

  lemma UnitOrNothing(half: nat)
    requires half % CAPACITY_UNIT == 0
    ensures half == 0 || half >= CAPACITY_UNIT
  {
    if half < CAPACITY_UNIT {
      DivModUnique(half, CAPACITY_UNIT, 0, half);
    }
  }

  /** A member of 100 sectors passes every check of the source, and page 16 of the array is mapped
      beyond its end. */
  lemma SmallMemberOverrun(g: Geometry)
    requires g.Valid() && g == Geometry(2, 64, Raid5, LeftAsymmetric)
    ensures Members(g, [100, 1_000_000], [100, 1_000_000])
    ensures 128 < PublishedCapacity(ArraySize([100, 1_000_000], 64), 2)
    ensures ComputeSector(g, 128) == Place(128, 0, 1)
  {
    TinyPasses(100, 64);
    LargeSize();
    TinySize();
    PairSize(100, 1_000_000);
    DivModUnique(999_808 / 2, CAPACITY_UNIT, 30, 8384);
    DivModUnique(128, 64, 2, 0);
    DivModUnique(2, 1, 2, 0);
    DivModUnique(2, 2, 1, 0);
    PlaceByRow(g, 128);
  }

  /** Two members of 32896 sectors pass every check and have room for their superblocks. The page sent
      for the last published sector, 32767, runs into the superblock at 32768. */
  lemma LastSectorOverrun(level: Level, layout: Layout)
    ensures var g := Geometry(2, 64, level, layout);
            && Members(g, [32896, 32896], [32896, 32896]) && AllHaveRoom(g, [32896, 32896])
            && PublishedCapacity(ArraySize([32896, 32896], 64), 2) == 32768 == SbOffset(32896)
            && PublishedCapacity(32767, 2) == 0
            && !Clear(g, [32896, 32896], 32767)
  {
    var g := Geometry(2, 64, level, layout);
    EvenMembers(g, [32896, 32896]);
    EvenSize();
    EvenPair();
    DivModUnique(32768 / 2, CAPACITY_UNIT, 1, 0);
    DivModUnique(32767 / 2, CAPACITY_UNIT, 0, 16383);
    BeyondOffset(g, [32896, 32896], 32767, 32768);
  }

  lemma EvenMembers(g: Geometry, devices: seq<nat>)
    requires g.disks == 2 && g.sectorsPerChunk == 64 && devices == [32896, 32896]
    ensures Members(g, devices, devices) && AllHaveRoom(g, devices)
  {
    EvenSize();
    forall k | 0 <= k < |devices| ensures devices[k] < TWO_64 && PassesSizeCheck(devices[k], 64) {
      assert devices[k] == 32896;
    }
  }

  lemma BeyondOffset(g: Geometry, devices: seq<nat>, r: nat, offset: nat)
    requires g.Valid() && g.disks == 2 && r < offset < r + PAGE
    requires forall k :: 0 <= k < |devices| ==> SbOffset(devices[k]) == offset
    ensures !Clear(g, devices, r)
  {
    MirrorPlace(g, r);
  }

  lemma EvenSize()
    ensures SbOffset(32896) == 32768 == DevSize(32896, 64)
  {
    DivModUnique(32896, RESERVED, 257, 0);
    DivModUnique(32768, TWO_64, 0, 32768);
    DivModUnique(32768, 64, 512, 0);
    DevSizeIs(32896, 64, 32896, 32768);
  }

  lemma EvenPair()
    ensures ArraySize([32896, 32896], 64) == 32768
  {
    EvenSize();
    var none: seq<nat> := [];
    SizeStep(none, 32896, 64);
    SizeStep([32896], 32896, 64);
    assert none + [32896] == [32896] && [32896] + [32896] == [32896, 32896];
  }

  lemma TinySize()
    ensures DevSize(100, 64) == TWO_32 - RESERVED
  {
    TinyPasses(100, 64);
    DivModUnique(TWO_32 - RESERVED, 64, (TWO_32 - RESERVED) / 64, 0);
  }

  lemma LargeSize()
    ensures DevSize(1_000_000, 64) == 999_808
  {
    DivModUnique(1_000_000, RESERVED, 7812, 64);
    DivModUnique(999_808, 64, 15622, 0);
    DevSizeIs(1_000_000, 64, 999_936, 999_808);
  }

  lemma PairSize(a: nat, b: nat)
    requires DevSize(a, 64) > DevSize(b, 64)
    ensures ArraySize([a, b], 64) == DevSize(b, 64)
  {
    var none: seq<nat> := [];
    SizeStep(none, a, 64);
    SizeStep([a], b, 64);
    assert none + [a] == [a] && [a] + [b] == [a, b];
  }

  // ----- Published sectors and the inverse map

  /** sb->size is a 32-bit value. With no more members than sectors in a chunk, which set_array_info
      guarantees, no chunk number below the published capacity reaches 2^31. */
  lemma PublishedChunk(size: nat, n: nat, spc: nat, r: nat)
    requires size < TWO_32 && 0 < n <= spc && r < PublishedCapacity(size, n)
    ensures Div(r, spc) < TWO_31
    ensures n <= MAX_DISKS ==> r < TWO_64
  {
    var half := RoundDown(size / 2, CAPACITY_UNIT);
    MulMonotone(half, TWO_31, n);
    MulMonotone(n, spc, TWO_31);
    ChunkBelow(r, TWO_31, spc);
  }

  /** So compute_blocknr inverts the map on every published sector: its "map not correct" branch is
      never taken for the disk and row of a request. */
  lemma PublishedInverse(g: Geometry, size: nat, r: nat)
    requires g.Valid() && g.disks <= g.sectorsPerChunk && g.disks <= MAX_DISKS
    requires size < TWO_32 && r < PublishedCapacity(size, g.disks)
    ensures var p := ComputeSector(g, r); ComputeBlocknr(g, p.sector, p.parityDisk, p.dataDisk) == r
  {
    PublishedChunk(size, g.disks, g.sectorsPerChunk, r);
    BlocknrOfRequest(g, r);
  }
}
