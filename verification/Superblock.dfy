/** The superblock of src/jmd_p.h and how src/jmd.c counts events, copies the array superblock to the
    members, picks the freshest copy and retries its update. */
module Superblock {

  newtype u32 = x: int | 0 <= x < 0x1_0000_0000

  const MAX32: u32 := 0xffff_ffff
  const TWO_32: nat := 0x1_0000_0000
  const MAX_EVENT: nat := 0xffff_ffff_ffff_ffff
  const MD_SB_DISKS: nat := 27

  /** struct jmd_disk; state holds the bits faulty (1), active (2), sync (4) and removed (8). */
  datatype Disk = Disk(number: u32, major: u32, minor: u32, raidDisk: u32, state: bv32) {
    function Dev(): nat { MkDev(major as nat, minor as nat) }
  }

  /** MKDEV in a 32-bit dev_t, which joins its parts with "or". */
  function MkDev(major: nat, minor: nat): nat {
    BitOr(major * 0x10_0000 % TWO_32, minor)
  }

  /** The bitwise or, bit by bit. */
  function BitOr(a: nat, b: nat): (r: nat)
    ensures r == 0 <==> a == 0 && b == 0
  {
    if a == 0 then b
    else if b == 0 then a
    else 2 * BitOr(a / 2, b / 2) + if a % 2 == 1 || b % 2 == 1 then 1 else 0
  }

  /** x shifted left by k bits. */
  function Shifted(x: nat, k: nat): nat {
    if k == 0 then x else 2 * Shifted(x, k - 1)
  }

  lemma OrEven(a: nat, y: nat)
    ensures BitOr(2 * a, y) == 2 * BitOr(a, y / 2) + y % 2
  {}

  /** Below the shift there is room for k bits. */
  lemma {:induction false} OrDisjoint(x: nat, y: nat, k: nat)
    requires y < Shifted(1, k)
    ensures BitOr(Shifted(x, k), y) == Shifted(x, k) + y
  {
    if k > 0 {
      OrDisjoint(x, y / 2, k - 1);
      OrEven(Shifted(x, k - 1), y);
    }
  }

  lemma ShiftBy4(x: nat, k: nat)
    ensures Shifted(x, k + 4) == 16 * Shifted(x, k)
  {
    assert Shifted(x, k + 4) == 2 * Shifted(x, k + 3) && Shifted(x, k + 3) == 2 * Shifted(x, k + 2);
    assert Shifted(x, k + 2) == 2 * Shifted(x, k + 1) && Shifted(x, k + 1) == 2 * Shifted(x, k);
  }

  lemma ShiftBy20(x: nat)
    ensures Shifted(x, 20) == x * 0x10_0000
  {
    ShiftBy4(x, 0);
    ShiftBy4(x, 4);
    ShiftBy4(x, 8);
    ShiftBy4(x, 12);
    ShiftBy4(x, 16);
  }

  /** For a major of 12 bits and a minor of 20 the parts do not overlap: the number has them as its
      digits, and so tells devices apart. */
  lemma DevDigits(major: nat, minor: nat)
    requires major < 0x1000 && minor < 0x10_0000
    ensures MkDev(major, minor) == major * 0x10_0000 + minor
    ensures MkDev(major, minor) / 0x10_0000 == major && MkDev(major, minor) % 0x10_0000 == minor
  {
    ShiftBy20(1);
    ShiftBy20(major);
    OrDisjoint(major, minor, 20);
  }

  /** The words of a superblock that are fixed when the array is created; rest stands for those this
      model never looks at. */
  datatype Fixed = Fixed(majorVersion: u32, minorVersion: u32, notPersistent: u32, rest: seq<u32>)

  datatype Counts = Counts(nrDisks: u32, workingDisks: u32, failedDisks: u32, spareDisks: u32)

  /** struct jmd_superblock. */
  datatype Super = Super(fixed: Fixed, counts: Counts, utime: u32, sbCsum: u32, eventsLo: u32, eventsHi: u32,
                         disks: seq<Disk>, thisDisk: Disk)

  // ----- The event counter

  /** jmd_event. */
  function Event(sb: Super): (ev: nat)
    ensures ev <= MAX_EVENT
  {
    sb.eventsHi as nat * TWO_32 + sb.eventsLo as nat
  }

  /** Lines 1242-1249: two words, with the wrapped counter set back to all ones. */
  function Increment(sb: Super): Super {
    var lo: u32 := if sb.eventsLo == MAX32 then 0 else sb.eventsLo + 1;
    var hi: u32 := if lo != 0 then sb.eventsHi else if sb.eventsHi == MAX32 then 0 else sb.eventsHi + 1;
    if lo == 0 && hi == 0 then sb.(eventsLo := MAX32, eventsHi := MAX32)
    else sb.(eventsLo := lo, eventsHi := hi)
  }

  /** Lines 908-912, once the checksum has been found wrong. */
  function Decrement(sb: Super): Super {
    if sb.eventsLo == 0 && sb.eventsHi == 0 then sb
    else if sb.eventsLo == 0 then sb.(eventsLo := MAX32, eventsHi := sb.eventsHi - 1)
    else sb.(eventsLo := sb.eventsLo - 1)
  }

  function Min(a: int, b: int): int { if a < b then a else b }
  function Max(a: int, b: int): int { if a > b then a else b }

  /** The two words are one 64-bit counter that saturates at both ends. */
  lemma CounterSaturates(sb: Super)
    ensures Event(Increment(sb)) == Min(Event(sb) + 1, MAX_EVENT)
    ensures Event(Decrement(sb)) == Max(Event(sb) - 1, 0)
  {}

  /** now is before with the counter advanced k times and a new update time. */
  ghost predicate Advanced(before: Super, now: Super, k: nat, time: u32) {
    && Event(now) == Min(Event(before) + k, MAX_EVENT)
    && now == before.(eventsLo := now.eventsLo, eventsHi := now.eventsHi, utime := time)
  }

  // ----- Checksum and copies

  /** calc_sb_csum; csum_partial itself is a parameter. */
  function Checksum(csum: Super -> u32, sb: Super): u32 {
    csum(sb.(sbCsum := 0))
  }

  predicate Passes(csum: Super -> u32, sb: Super) {
    Checksum(csum, sb) == sb.sbCsum
  }

  /** The first descriptor at or after i for the device; |disks| when there is none. */
  function FindDesc(disks: seq<Disk>, dev: nat, i: nat): (k: nat)
    requires i <= |disks|
    ensures i <= k <= |disks|
    ensures k < |disks| ==> disks[k].Dev() == dev
    ensures forall j :: i <= j < k ==> disks[j].Dev() != dev
    decreases |disks| - i
  {
    if i < |disks| && disks[i].Dev() != dev then FindDesc(disks, dev, i + 1) else i
  }

  /** What sync_sbs leaves in the copy of one member. */
  function CopyFor(csum: Super -> u32, sb: Super, dev: nat): Super {
    var k := FindDesc(sb.disks, dev, 0);
    var mine := if k < |sb.disks| then sb.(thisDisk := sb.disks[k]) else sb;
    mine.(sbCsum := Checksum(csum, mine))
  }

  /** Entry i is the first one for the device. */
  ghost predicate FirstFor(disks: seq<Disk>, dev: nat, i: int) {
    0 <= i < |disks| && disks[i].Dev() == dev && forall j :: 0 <= j < i ==> disks[j].Dev() != dev
  }

  lemma {:induction false} FoundFrom(disks: seq<Disk>, dev: nat, i: nat, from: nat)
    requires FirstFor(disks, dev, i) && from <= i
    ensures FindDesc(disks, dev, from) == i
    decreases i - from
  {
    if from < i {
      FoundFrom(disks, dev, i, from + 1);
    }
  }

  lemma FirstIsFound(disks: seq<Disk>, dev: nat)
    ensures forall i :: FirstFor(disks, dev, i) <==> i == FindDesc(disks, dev, 0) < |disks|
  {
    forall i | FirstFor(disks, dev, i) ensures i == FindDesc(disks, dev, 0) {
      FoundFrom(disks, dev, i, 0);
    }
  }

  /** A copy names the first descriptor of its own device as this_disk; without one it keeps that of the
      array superblock. */
  lemma CopyNamesDevice(csum: Super -> u32, sb: Super, dev: nat)
    ensures forall i :: FirstFor(sb.disks, dev, i) ==> CopyFor(csum, sb, dev).thisDisk == sb.disks[i]
    ensures (forall i :: 0 <= i < |sb.disks| ==> sb.disks[i].Dev() != dev) ==>
              CopyFor(csum, sb, dev).thisDisk == sb.thisDisk
  {
    FirstIsFound(sb.disks, dev);
  }

  /** If the member has a descriptor, it names the first one as this_disk and has its number. */
  ghost predicate OwnEntry(disks: seq<Disk>, m: Rdev)
    reads m`sb, m`descNr
  {
    forall i :: FirstFor(disks, m.dev, i) ==> m.sb.thisDisk == disks[i] && m.descNr == disks[i].number as int
  }

  ghost predicate Identified(disks: seq<Disk>, members: seq<Rdev>)
    reads (set m | m in members)`sb, (set m | m in members)`faulty, (set m | m in members)`descNr
  {
    forall m :: m in members && !m.faulty ==> OwnEntry(disks, m)
  }

  /** The members hold fresh copies of the array superblock; a faulty one keeps what it had. */
  twostate predicate Synced(csum: Super -> u32, sb: Super, members: seq<Rdev>)
    reads (set m | m in members)`sb, (set m | m in members)`faulty
  {
    forall m :: m in members ==> m.sb == if m.faulty then old(m.sb) else CopyFor(csum, sb, m.dev)
  }

  lemma AdvancedAgain(first: Super, mid: Super, now: Super, k: nat, t: u32, u: u32)
    requires Advanced(first, mid, k, t) && Advanced(mid, now, 1, u)
    ensures Advanced(first, now, k + 1, u)
  {}

  /** Equal up to this_disk and sb_csum. */
  predicate SameArray(a: Super, b: Super) {
    a.(thisDisk := b.thisDisk, sbCsum := b.sbCsum) == b
  }

  lemma CopyPasses(csum: Super -> u32, sb: Super, dev: nat)
    ensures Passes(csum, CopyFor(csum, sb, dev))
    ensures SameArray(CopyFor(csum, sb, dev), sb)
    ensures Event(CopyFor(csum, sb, dev)) == Event(sb)
  {
    var k := FindDesc(sb.disks, dev, 0);
    var mine := if k < |sb.disks| then sb.(thisDisk := sb.disks[k]) else sb;
    assert CopyFor(csum, sb, dev).(sbCsum := 0) == mine.(sbCsum := 0);
  }

  // ----- The freshest copy

  /** Lines 908-912 for one copy. */
  function Penalised(csum: Super -> u32, sb: Super): Super {
    if Passes(csum, sb) then sb else Decrement(sb)
  }

  /** The count that a copy has in the election: a wrong checksum costs one event. */
  function Standing(csum: Super -> u32, sb: Super): nat {
    if Passes(csum, sb) then Event(sb) else Max(Event(sb) - 1, 0)
  }

  lemma StandingOfPenalised(csum: Super -> u32, sb: Super)
    ensures Event(Penalised(csum, sb)) == Standing(csum, sb)
  {
    CounterSaturates(sb);
  }

  /** Copy k is the first among the first n with the most events. */
  ghost predicate Leads(csum: Super -> u32, copies: seq<Super>, n: nat, k: nat) {
    && k < n <= |copies|
    && (forall j :: 0 <= j < n ==> Standing(csum, copies[j]) <= Standing(csum, copies[k]))
    && (forall j :: 0 <= j < k ==> Standing(csum, copies[j]) < Standing(csum, copies[k]))
  }

  lemma ElectionStep(csum: Super -> u32, copies: seq<Super>, n: nat, k: nat)
    requires n < |copies| && k < |copies| && (n == 0 ==> k == 0)
    ensures n == 0 ==> Leads(csum, copies, 1, 0) && !Differs(csum, copies, 1, 0)
    ensures n > 0 && Leads(csum, copies, n, k) ==>
              var next := if Standing(csum, copies[n]) > Standing(csum, copies[k]) then n else k;
              && Leads(csum, copies, n + 1, next)
              && (Differs(csum, copies, n + 1, next)
                  <==> Differs(csum, copies, n, k) || Standing(csum, copies[n]) != Standing(csum, copies[k]))
  {
    if n > 0 && Leads(csum, copies, n, k) {
      if j :| 0 <= j < n && Standing(csum, copies[j]) != Standing(csum, copies[k]) {
        assert Standing(csum, copies[j]) < Standing(csum, copies[k]);
      }
    }
  }

  /** Some copy among the first n has another standing than copy k. */
  ghost predicate Differs(csum: Super -> u32, copies: seq<Super>, n: nat, k: nat)
    requires k < |copies| && n <= |copies|
  {
    exists j :: 0 <= j < n && Standing(csum, copies[j]) != Standing(csum, copies[k])
  }

  ghost function Sbs(members: seq<Rdev>): (s: seq<Super>)
    reads (set m | m in members)`sb
    ensures |s| == |members| && forall i :: 0 <= i < |s| ==> s[i] == members[i].sb
  {
    if members == [] then [] else Sbs(members[..|members| - 1]) + [members[|members| - 1].sb]
  }

  /** struct jmd_rdev. */
  class Rdev {
    const dev: nat
    var sb: Super
    var descNr: int
    var faulty: bool

    constructor (dev: nat, sb: Super, descNr: int, faulty: bool)
      ensures this.dev == dev && this.sb == sb && this.descNr == descNr && this.faulty == faulty
    {
      this.dev, this.sb, this.descNr, this.faulty := dev, sb, descNr, faulty;
    }

    /** Lines 908-912. */
    method Penalise(csum: Super -> u32)
      modifies `sb
      ensures sb == Penalised(csum, old(sb)) && Event(sb) == Standing(csum, old(sb))
    {
      StandingOfPenalised(csum, sb);
      if !Passes(csum, sb) {
        sb := Decrement(sb);
      }
    }

    /** set_this_disk. */
    method SetThisDisk(whole: Super)
      modifies `sb, `descNr
      ensures var k := FindDesc(whole.disks, dev, 0);
              if k < |whole.disks| then
                sb == old(sb).(thisDisk := whole.disks[k]) && descNr == whole.disks[k].number as int
              else sb == old(sb) && descNr == old(descNr)
    {
      var i := 0;
      while i < |whole.disks|
        invariant 0 <= i <= |whole.disks| && sb == old(sb) && descNr == old(descNr)
        invariant FindDesc(whole.disks, dev, 0) == FindDesc(whole.disks, dev, i)
      {
        var desc := whole.disks[i];
        if desc.Dev() == dev {
          sb := sb.(thisDisk := desc);
          descNr := desc.number as int;
          return;
        }
        i := i + 1;
      }
    }
  }

  /** struct jmddev: the superblock of the array and its members in list order. */
  class Jmddev {
    const csum: Super -> u32
    var sb: Super
    var members: seq<Rdev>

    ghost predicate Valid()
      reads `members
    {
      forall i, j :: 0 <= i < j < |members| ==> members[i] != members[j]
    }

    constructor (csum: Super -> u32, sb: Super, members: seq<Rdev>)
      requires forall i, j :: 0 <= i < j < |members| ==> members[i] != members[j]
      ensures Valid() && this.csum == csum && this.sb == sb && this.members == members
    {
      this.csum, this.sb, this.members := csum, sb, members;
    }

    /** sync_sbs. */
    method SyncSbs()
      requires Valid()
      modifies (set m | m in members)`sb, (set m | m in members)`descNr
      ensures Synced(csum, sb, members) && Identified(sb.disks, members)
      ensures forall m :: m in members && m.faulty ==> m.descNr == old(m.descNr)
    {
      var i := 0;
      while i < |members|
        invariant 0 <= i <= |members|
        invariant forall m :: m in members && m.faulty ==> m.sb == old(m.sb) && m.descNr == old(m.descNr)
        invariant forall j :: 0 <= j < i && !members[j].faulty ==> Fresh(members[j])
      {
        var m := members[i];
        if !m.faulty {
          SyncOne(m);
        }
        i := i + 1;
      }
    }

    ghost predicate Fresh(m: Rdev)
      reads `sb, m`sb, m`descNr
    {
      m.sb == CopyFor(csum, sb, m.dev) && OwnEntry(sb.disks, m)
    }

    /** Lines 698-701 for one member. */
    method SyncOne(m: Rdev)
      modifies m`sb, m`descNr
      ensures Fresh(m)
    {
      FirstIsFound(sb.disks, m.dev);
      CopyNamesDevice(csum, sb, m.dev);
      m.sb := sb;
      m.SetThisDisk(sb);
      m.sb := m.sb.(sbCsum := Checksum(csum, m.sb));
    }

    ghost predicate Halfway(copies: seq<Super>, i: nat)
      reads `members, (set m | m in members)`sb
    {
      && i <= |members| == |copies|
      && (forall j :: 0 <= j < i ==> members[j].sb == Penalised(csum, copies[j]))
      && (forall j :: i <= j < |members| ==> members[j].sb == copies[j])
    }

    method PenaliseNext(m: Rdev, ghost copies: seq<Super>, ghost i: nat)
      requires Valid() && i < |members| && members[i] == m && Halfway(copies, i)
      modifies m`sb
      ensures Halfway(copies, i + 1) && Event(m.sb) == Standing(csum, copies[i])
    {
      m.Penalise(csum);
    }

    /** Member i stands against the first best of those before it. */
    method Challenge(i: nat, m: Rdev, freshest: Rdev, outOfDate: bool, ghost copies: seq<Super>, ghost k: nat)
      returns (best: Rdev, differ: bool, ghost b: nat)
      requires Valid() && i < |members| && members[i] == m && Halfway(copies, i)
      requires k < |members| && k <= i && (i > 0 ==> k < i && Leads(csum, copies, i, k)) && freshest == members[k]
      requires outOfDate <==> Differs(csum, copies, i, k)
      modifies m`sb
      ensures Halfway(copies, i + 1) && b <= i && best == members[b]
      ensures Leads(csum, copies, i + 1, b) && (differ <==> Differs(csum, copies, i + 1, b))
    {
      best, differ, b := freshest, outOfDate, k;
      StandingOfPenalised(csum, copies[k]);
      ElectionStep(csum, copies, i, k);
      PenaliseNext(m, copies, i);
      if i > 0 {
        var ev1, ev2 := Event(m.sb), Event(freshest.sb);
        if ev1 != ev2 {
          differ := true;
          if ev1 > ev2 {
            best, b := m, i;
          }
        }
      }
    }

    /** Lines 901-931 of analyze_sbs: every copy with a wrong checksum loses one event, and the array
        superblock becomes the first copy with the most events. */
    method SelectFreshest() returns (freshest: Rdev, outOfDate: bool, ghost k: nat)
      requires Valid() && members != []
      modifies `sb, (set m | m in members)`sb
      ensures Leads(csum, old(Sbs(members)), |members|, k) && freshest == members[k]
      ensures sb == freshest.sb
      ensures forall m :: m in members ==> m.sb == Penalised(csum, old(m.sb))
      ensures outOfDate <==> Differs(csum, old(Sbs(members)), |members|, k)
    {
      ghost var copies := Sbs(members);
      freshest, outOfDate, k := members[0], false, 0;
      var i := 0;
      while i < |members|
        invariant 0 <= i <= |members|
        invariant k < |members| && k <= i && (i > 0 ==> k < i) && freshest == members[k]
        invariant Halfway(copies, i)
        invariant i > 0 ==> Leads(csum, copies, i, k)
        invariant outOfDate <==> Differs(csum, copies, i, k)
      {
        freshest, outOfDate, k := Challenge(i, members[i], freshest, outOfDate, copies, k);
        i := i + 1;
      }
      sb := freshest.sb;
    }

    method SyncAll() returns (ghost devs: seq<nat>, ghost copies: seq<Super>)
      requires Valid() && forall m :: m in members ==> !m.faulty
      modifies (set m | m in members)`sb, (set m | m in members)`descNr
      ensures AreCopies(csum, sb, devs, copies) && copies == Sbs(members)
    {
      SyncSbs();
      ghost var ms := members;
      devs := seq(|ms|, i requires 0 <= i < |ms| => ms[i].dev);
      copies := Sbs(members);
    }

    /** sync_sbs and then the election of analyze_sbs, on members that are all sound: every copy passes
        the checksum test, none is out of date, and the array superblock comes back. */
    method SyncAndSelect() returns (freshest: Rdev, outOfDate: bool)
      requires Valid() && members != [] && forall m :: m in members ==> !m.faulty
      modifies `sb, (set m | m in members)`sb, (set m | m in members)`descNr
      ensures SameArray(sb, old(sb)) && freshest == members[0] && !outOfDate
    {
      ghost var first := sb;
      ghost var devs, copies := SyncAll();
      ghost var k;
      freshest, outOfDate, k := SelectFreshest();
      RoundTrip(csum, first, devs, copies, k);
      assert members[0].sb == Penalised(csum, copies[0]);
    }

    /** The write loop of jmd_update_sb; writes(a, i) is what write_disk_sb returns for member i. */
    method WriteAll(writes: (nat, nat) -> int, a: nat) returns (err: int)
      ensures err == ErrorUpTo(Faults(members), writes, a, |members|)
    {
      err := 0;
      ghost var faults := Faults(members);
      var i := 0;
      while i < |members|
        invariant 0 <= i <= |members|
        invariant err == ErrorUpTo(faults, writes, a, i)
      {
        if !members[i].faulty {
          err := err + writes(a, i);
        }
        i := i + 1;
      }
    }

    /** Lines 1241-1250: the counter, then the copies. */
    method Stamp(time: u32)
      requires Valid()
      modifies `sb, (set m | m in members)`sb, (set m | m in members)`descNr
      ensures Advanced(old(sb), sb, 1, time)
      ensures Synced(csum, sb, members) && Identified(sb.disks, members)
    {
      sb := sb.(utime := time);
      CounterSaturates(sb);
      sb := Increment(sb);
      SyncSbs();
    }

    /** One attempt of jmd_update_sb; a non-persistent superblock is not written. */
    method Attempt(clock: nat -> u32, writes: (nat, nat) -> int, a: nat) returns (err: int)
      requires Valid()
      modifies `sb, (set m | m in members)`sb, (set m | m in members)`descNr
      ensures Advanced(old(sb), sb, 1, clock(a))
      ensures Synced(csum, sb, members) && Identified(sb.disks, members)
      ensures err == ErrorOf(old(sb).fixed.notPersistent, old(Faults(members)), writes, a)
    {
      Stamp(clock(a));
      if sb.fixed.notPersistent != 0 {
        err := 0;
      } else {
        err := WriteAll(writes, a);
      }
    }

    /** jmd_update_sb; writes(a, i) is the result for member i in attempt a, clock(a) its time. */
    method UpdateSb(clock: nat -> u32, writes: (nat, nat) -> int) returns (attempts: nat)
      requires Valid()
      modifies `sb, (set m | m in members)`sb, (set m | m in members)`descNr
      ensures 1 <= attempts <= 100
      ensures Advanced(old(sb), sb, attempts, clock(attempts - 1))
      ensures Synced(csum, sb, members) && Identified(sb.disks, members)
      ensures AllFail(old(sb).fixed.notPersistent, old(Faults(members)), writes, attempts - 1)
      ensures attempts < 100 ==>
                ErrorOf(old(sb).fixed.notPersistent, old(Faults(members)), writes, attempts - 1) == 0
    {
      ghost var first := sb;
      ghost var np, faults := sb.fixed.notPersistent, Faults(members);
      var err := Attempt(clock, writes, 0);
      attempts := 1;
      while err != 0 && attempts < ATTEMPTS
        invariant 1 <= attempts <= ATTEMPTS
        invariant Advanced(first, sb, attempts, clock(attempts - 1))
        invariant err == ErrorOf(np, faults, writes, attempts - 1)
        invariant Synced(csum, sb, members) && Identified(sb.disks, members)
        invariant AllFail(np, faults, writes, attempts - 1)
        decreases ATTEMPTS - attempts
      {
        ghost var mid := sb;
        AllFailStep(np, faults, writes, attempts - 1);
        err := Attempt(clock, writes, attempts);
        AdvancedAgain(first, mid, sb, attempts, clock(attempts - 1), clock(attempts));
        attempts := attempts + 1;
      }
    }
  }

  const ATTEMPTS: nat := 100

  ghost function Faults(members: seq<Rdev>): (f: seq<bool>)
    reads (set m | m in members)`faulty
    ensures |f| == |members| && forall i :: 0 <= i < |f| ==> f[i] == members[i].faulty
  {
    if members == [] then [] else Faults(members[..|members| - 1]) + [members[|members| - 1].faulty]
  }

  /** err in attempt a after the first n members; the faulty ones are not written. */
  function ErrorUpTo(faults: seq<bool>, writes: (nat, nat) -> int, a: nat, n: nat): int
    requires n <= |faults|
  {
    if n == 0 then 0
    else ErrorUpTo(faults, writes, a, n - 1) + if faults[n - 1] then 0 else writes(a, n - 1)
  }

  /** err at the end of attempt a. */
  function ErrorOf(notPersistent: u32, faults: seq<bool>, writes: (nat, nat) -> int, a: nat): int {
    if notPersistent != 0 then 0 else ErrorUpTo(faults, writes, a, |faults|)
  }

  /** The first n attempts all end with a non-zero err. */
  ghost predicate AllFail(notPersistent: u32, faults: seq<bool>, writes: (nat, nat) -> int, n: nat) {
    forall a: nat :: a < n ==> ErrorOf(notPersistent, faults, writes, a) != 0
  }

  lemma AllFailStep(notPersistent: u32, faults: seq<bool>, writes: (nat, nat) -> int, n: nat)
    requires AllFail(notPersistent, faults, writes, n) && ErrorOf(notPersistent, faults, writes, n) != 0
    ensures AllFail(notPersistent, faults, writes, n + 1)
  {}

  // ----- What the election and the update promise

  ghost predicate AreCopies(csum: Super -> u32, sb: Super, devs: seq<nat>, copies: seq<Super>) {
    |copies| == |devs| && forall j :: 0 <= j < |copies| ==> copies[j] == CopyFor(csum, sb, devs[j])
  }

  /** After sync_sbs on non-faulty members every copy passes the checksum test, no copy is out of
      date, and the election restores the array superblock up to this_disk and sb_csum. */
  lemma RoundTrip(csum: Super -> u32, sb: Super, devs: seq<nat>, copies: seq<Super>, k: nat)
    requires AreCopies(csum, sb, devs, copies)
    requires Leads(csum, copies, |copies|, k)
    ensures k == 0 && !Differs(csum, copies, |copies|, k)
    ensures forall j :: 0 <= j < |copies| ==> Passes(csum, copies[j]) && Event(copies[j]) == Event(sb)
    ensures forall j :: 0 <= j < |copies| ==> Penalised(csum, copies[j]) == copies[j] && SameArray(copies[j], sb)
  {
    forall j | 0 <= j < |copies|
      ensures Passes(csum, copies[j]) && Event(copies[j]) == Event(sb) && SameArray(copies[j], sb)
    {
      CopyPasses(csum, sb, devs[j]);
    }
    assert Standing(csum, copies[0]) == Standing(csum, copies[k]);
  }

  /** A damaged copy beats a sound one exactly when it is ahead by two events or more. */
  lemma DamagedBeatsSound(csum: Super -> u32, damaged: Super, sound: Super)
    requires !Passes(csum, damaged) && Passes(csum, sound)
    ensures Standing(csum, damaged) > Standing(csum, sound) <==> Event(damaged) > Event(sound) + 1
    ensures Standing(csum, damaged) == Standing(csum, sound)
       <==> Event(damaged) == Event(sound) + 1 || Event(damaged) == Event(sound) == 0
  {}

  /** How many of the first n members, in attempt a, return the given code. */
  function Count(faults: seq<bool>, writes: (nat, nat) -> int, a: nat, n: nat, code: int): nat
    requires n <= |faults|
  {
    if n == 0 then 0
    else Count(faults, writes, a, n - 1, code) + if !faults[n - 1] && writes(a, n - 1) == code then 1 else 0
  }

  /** The codes are added up: 0 for a write handed to the block layer, 1 for a member skipped because
      its size or superblock offset has changed, -12 for lack of memory. So an attempt counts as
      successful exactly when there are twelve members skipped for every one without memory. */
  lemma {:induction false} SuccessExactly(faults: seq<bool>, writes: (nat, nat) -> int, a: nat, n: nat)
    requires n <= |faults| && forall i: nat :: writes(a, i) in {0, 1, -12}
    ensures ErrorUpTo(faults, writes, a, n) == 0 <==>
            Count(faults, writes, a, n, 1) == 12 * Count(faults, writes, a, n, -12)
  {
    ErrorIsBalance(faults, writes, a, n);
  }

  lemma {:induction false} ErrorIsBalance(faults: seq<bool>, writes: (nat, nat) -> int, a: nat, n: nat)
    requires n <= |faults| && forall i: nat :: writes(a, i) in {0, 1, -12}
    ensures ErrorUpTo(faults, writes, a, n) ==
            Count(faults, writes, a, n, 1) - 12 * Count(faults, writes, a, n, -12)
  {
    if n > 0 {
      ErrorIsBalance(faults, writes, a, n - 1);
      var code := writes(a, n - 1);
      assert code == 0 || code == 1 || code == -12;
    }
  }

  /** With at most twelve members a zero sum means that every member was written. */
  lemma SmallArraysExactly(faults: seq<bool>, writes: (nat, nat) -> int, a: nat)
    requires |faults| <= 12 && forall i: nat :: writes(a, i) in {0, 1, -12}
    ensures ErrorUpTo(faults, writes, a, |faults|) == 0
       <==> forall i :: 0 <= i < |faults| && !faults[i] ==> writes(a, i) == 0
  {
    var n := |faults|;
    SuccessExactly(faults, writes, a, n);
    CountsDisjoint(faults, writes, a, n);
    CountZero(faults, writes, a, n, 1);
    CountZero(faults, writes, a, n, -12);
    forall i | 0 <= i < n && !faults[i]
      ensures writes(a, i) == 0 <==> writes(a, i) != 1 && writes(a, i) != -12
    {
      var code := writes(a, i);
      assert code == 0 || code == 1 || code == -12;
    }
  }

  lemma {:induction false} CountsDisjoint(faults: seq<bool>, writes: (nat, nat) -> int, a: nat, n: nat)
    requires n <= |faults|
    ensures Count(faults, writes, a, n, 1) + Count(faults, writes, a, n, -12) <= n
  {
    if n > 0 {
      CountsDisjoint(faults, writes, a, n - 1);
    }
  }

  lemma {:induction false} CountZero(faults: seq<bool>, writes: (nat, nat) -> int, a: nat, n: nat, code: int)
    requires n <= |faults|
    ensures Count(faults, writes, a, n, code) == 0 <==> forall i :: 0 <= i < n && !faults[i] ==> writes(a, i) != code
  {
    if n > 0 {
      CountZero(faults, writes, a, n - 1, code);
    }
  }

  /** Thirteen members, twelve of them skipped and the last one without memory: no superblock has
      been written, and no second attempt is made. */
  lemma SkipsHideFailure(faults: seq<bool>, writes: (nat, nat) -> int)
    requires |faults| == 13 && forall i :: 0 <= i < 13 ==> !faults[i]
    requires (forall i :: 0 <= i < 12 ==> writes(0, i) == 1) && writes(0, 12) == -12
    ensures ErrorOf(0, faults, writes, 0) == 0
  {
    SkipsAdd(faults, writes, 12);
  }

  lemma {:induction false} SkipsAdd(faults: seq<bool>, writes: (nat, nat) -> int, n: nat)
    requires n <= 12 < |faults| && forall i :: 0 <= i < 12 ==> !faults[i] && writes(0, i) == 1
    ensures ErrorUpTo(faults, writes, 0, n) == n
  {
    if n > 0 {
      SkipsAdd(faults, writes, n - 1);
    }
  }
}
