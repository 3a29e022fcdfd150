/** The last part of analyze_sbs in src/jmd.c: descriptors of absent or faulty devices are pruned, and
    the rest is checked against the members. */
module Descriptors {
  import opened Superblock

  const FAULTY: bv32 := 1
  const ACTIVE: bv32 := 2
  const SYNC: bv32 := 4
  const REMOVED: bv32 := 8

  predicate DiskFaulty(d: Disk) { d.state & FAULTY != 0 }
  predicate DiskActive(d: Disk) { d.state & ACTIVE != 0 }
  predicate DiskSync(d: Disk) { d.state & SYNC != 0 }
  predicate DiskSpare(d: Disk) { !DiskSync(d) && !DiskActive(d) && !DiskFaulty(d) }

  /** mark_disk_removed on a descriptor whose device has been cleared. */
  function Removed(d: Disk): Disk {
    d.(major := 0, minor := 0, state := FAULTY | REMOVED)
  }

  function Less(x: u32): u32 {
    if x == 0 then MAX32 else x - 1
  }

  /** The counters after remove_descriptor(d). */
  function CountsWithout(c: Counts, d: Disk): Counts {
    var rest :=
      if DiskActive(d) then c.(workingDisks := Less(c.workingDisks))
      else if DiskSpare(d) then c.(spareDisks := Less(c.spareDisks), workingDisks := Less(c.workingDisks))
      else c.(failedDisks := Less(c.failedDisks));
    rest.(nrDisks := Less(c.nrDisks))
  }

  /** Some member carries the number of the descriptor; desc_nr is compared as an unsigned value. */
  predicate Named(nrs: seq<int>, d: Disk) {
    exists i :: 0 <= i < |nrs| && nrs[i] % TWO_32 == d.number as int
  }

  /** Whether the pruning pass calls remove_descriptor (lines 981-1012). */
  predicate Prunes(nrs: seq<int>, d: Disk) {
    if DiskFaulty(d) then Named(nrs, d) || d.Dev() != 0
    else d.Dev() != 0 && !Named(nrs, d)
  }

  function PrunedDisk(nrs: seq<int>, d: Disk): Disk {
    if Prunes(nrs, d) then Removed(d) else d
  }

  /** The counters after the first n descriptors. */
  function PrunedCounts(nrs: seq<int>, c: Counts, disks: seq<Disk>, n: nat): Counts
    requires n <= |disks|
  {
    if n == 0 then c
    else
      var before := PrunedCounts(nrs, c, disks, n - 1);
      if Prunes(nrs, disks[n - 1]) then CountsWithout(before, disks[n - 1]) else before
  }

  /** The superblock after the pruning pass. */
  function Pruned(nrs: seq<int>, sb: Super): Super {
    sb.(counts := PrunedCounts(nrs, sb.counts, sb.disks, |sb.disks|),
        disks := seq(|sb.disks|, i requires 0 <= i < |sb.disks| => PrunedDisk(nrs, sb.disks[i])))
  }

  // ----- What pruning promises

  /** An entry that still has a device afterwards is not faulty, is named by a member, and is the
      entry that was there before. */
  lemma SurvivorsSound(nrs: seq<int>, sb: Super, i: nat)
    requires i < |sb.disks| && Pruned(nrs, sb).disks[i].Dev() != 0
    ensures Pruned(nrs, sb).disks[i] == sb.disks[i]
    ensures !DiskFaulty(sb.disks[i]) && Named(nrs, sb.disks[i])
  {}

  /** Nothing else is lost: a sound entry that a member names is kept. */
  lemma SoundKept(nrs: seq<int>, sb: Super, i: nat)
    requires i < |sb.disks| && !DiskFaulty(sb.disks[i]) && Named(nrs, sb.disks[i])
    ensures Pruned(nrs, sb).disks[i] == sb.disks[i]
  {}

  /** working_disks + failed_disks - nr_disks, in 32 bits. */
  function Balance(c: Counts): int {
    (c.workingDisks as int + c.failedDisks as int - c.nrDisks as int) % TWO_32
  }

  lemma RemovalKeepsBalance(c: Counts, d: Disk)
    ensures Balance(CountsWithout(c, d)) == Balance(c)
  {
    var e := CountsWithout(c, d);
    var before := c.workingDisks as int + c.failedDisks as int - c.nrDisks as int;
    var after := e.workingDisks as int + e.failedDisks as int - e.nrDisks as int;
    assert after == before || after == before + TWO_32 || after == before - TWO_32;
    SameResidue(before, 1);
    SameResidue(before, -1);
  }

  lemma SameResidue(x: int, k: int)
    requires k == 1 || k == -1
    ensures (x + k * TWO_32) % TWO_32 == x % TWO_32
  {}

  lemma {:induction false} PruningKeepsBalance(nrs: seq<int>, c: Counts, disks: seq<Disk>, n: nat)
    requires n <= |disks|
    ensures Balance(PrunedCounts(nrs, c, disks, n)) == Balance(c)
  {
    if n > 0 {
      PruningKeepsBalance(nrs, c, disks, n - 1);
      RemovalKeepsBalance(PrunedCounts(nrs, c, disks, n - 1), disks[n - 1]);
    }
  }

  /** How many of the first n entries are pruned. */
  function PrunedNumber(nrs: seq<int>, disks: seq<Disk>, n: nat): (k: nat)
    requires n <= |disks|
    ensures k <= n
  {
    if n == 0 then 0
    else PrunedNumber(nrs, disks, n - 1) + if Prunes(nrs, disks[n - 1]) then 1 else 0
  }

  /** nr_disks goes down by one for every pruned entry. */
  lemma {:induction false} NumberGoesDown(nrs: seq<int>, c: Counts, disks: seq<Disk>, n: nat)
    requires n <= |disks| <= MD_SB_DISKS
    ensures PrunedCounts(nrs, c, disks, n).nrDisks as int ==
            (c.nrDisks as int - PrunedNumber(nrs, disks, n)) % TWO_32
  {
    if n > 0 {
      NumberGoesDown(nrs, c, disks, n - 1);
      LessByOne(PrunedCounts(nrs, c, disks, n - 1).nrDisks, c.nrDisks as int - PrunedNumber(nrs, disks, n - 1));
    }
  }

  /** The three counters that an entry can be counted in, by the bits of its state: active (2) and
      spare (neither faulty, active nor in sync) entries are working, the others have failed. */
  datatype Kind = Working | Spare | Failed

  predicate IsOf(state: bv32, kind: Kind) {
    match kind
    case Working => state & 2 != 0 || state & 7 == 0
    case Spare => state & 7 == 0 && state & 2 == 0
    case Failed => state & 2 == 0 && state & 7 != 0
  }

  function CounterOf(c: Counts, kind: Kind): u32 {
    match kind
    case Working => c.workingDisks
    case Spare => c.spareDisks
    case Failed => c.failedDisks
  }

  /** How many of the first n entries are pruned and of the kind. */
  function PrunedOf(nrs: seq<int>, disks: seq<Disk>, n: nat, kind: Kind): (k: nat)
    requires n <= |disks|
    ensures k <= n
  {
    if n == 0 then 0
    else
      PrunedOf(nrs, disks, n - 1, kind)
      + if Prunes(nrs, disks[n - 1]) && IsOf(disks[n - 1].state, kind) then 1 else 0
  }

  /** Each counter goes down by the number of pruned entries of its kind, in 32 bits. */
  lemma {:induction false} CountersGoDown(nrs: seq<int>, c: Counts, disks: seq<Disk>, n: nat, kind: Kind)
    requires n <= |disks| <= MD_SB_DISKS
    ensures CounterOf(PrunedCounts(nrs, c, disks, n), kind) as int ==
            (CounterOf(c, kind) as int - PrunedOf(nrs, disks, n, kind)) % TWO_32
  {
    if n > 0 {
      CountersGoDown(nrs, c, disks, n - 1, kind);
      var before := PrunedCounts(nrs, c, disks, n - 1);
      OneCountedOff(before, disks[n - 1], kind);
      LessByOne(CounterOf(before, kind), CounterOf(c, kind) as int - PrunedOf(nrs, disks, n - 1, kind));
    }
  }

  lemma OneCountedOff(c: Counts, d: Disk, kind: Kind)
    ensures CounterOf(CountsWithout(c, d), kind) ==
            if IsOf(d.state, kind) then Less(CounterOf(c, kind)) else CounterOf(c, kind)
  {
    SpareBits(d.state);
  }

  lemma SpareBits(state: bv32)
    ensures state & 7 == 0 <==> state & 4 == 0 && state & 2 == 0 && state & 1 == 0
  {}

  /** A faulty entry (bit 1) goes if it has a device or is named, another one if it has a device and is
      not named. It then has no device, is faulty and removed (8), and keeps its number and its place
      in the array; the other entries are kept. */
  lemma PrunedEntry(nrs: seq<int>, sb: Super, i: nat)
    requires i < |sb.disks|
    ensures var d, e := sb.disks[i], Pruned(nrs, sb).disks[i];
            var named := exists j :: 0 <= j < |nrs| && nrs[j] % TWO_32 == d.number as int;
            var goes := if d.state & 1 != 0 then named || d.Dev() != 0 else !named && d.Dev() != 0;
            if goes then e == Disk(d.number, 0, 0, d.raidDisk, 9) && e.Dev() == 0 else e == d
  {}

  lemma LessByOne(x: u32, y: int)
    requires x as int == y % TWO_32
    ensures Less(x) as int == (y - 1) % TWO_32
  {}

  lemma NothingPruned(nrs: seq<int>, c: Counts, disks: seq<Disk>, n: nat)
    requires n <= |disks| && forall i :: 0 <= i < n ==> !Prunes(nrs, disks[i])
    ensures PrunedCounts(nrs, c, disks, n) == c && PrunedNumber(nrs, disks, n) == 0
  {}

  lemma {:induction false} SomethingPruned(nrs: seq<int>, disks: seq<Disk>, n: nat, i: nat)
    requires i < n <= |disks| && Prunes(nrs, disks[i])
    ensures PrunedNumber(nrs, disks, n) > 0
  {
    if i < n - 1 {
      SomethingPruned(nrs, disks, n - 1, i);
    }
  }

  /** A second pass changes nothing exactly when no faulty entry is named by a member: such an entry
      keeps its number and is counted off again. */
  lemma PruningAgainExactly(nrs: seq<int>, sb: Super)
    requires |sb.disks| <= MD_SB_DISKS
    ensures Pruned(nrs, Pruned(nrs, sb)) == Pruned(nrs, sb)
       <==> forall i :: 0 <= i < |sb.disks| ==> !(DiskFaulty(sb.disks[i]) && Named(nrs, sb.disks[i]))
  {
    var once := Pruned(nrs, sb);
    var n := |once.disks|;
    forall i | 0 <= i < n
      ensures Prunes(nrs, once.disks[i]) <==> DiskFaulty(sb.disks[i]) && Named(nrs, sb.disks[i])
    {
      SecondLook(nrs, sb.disks[i]);
    }
    if i :| 0 <= i < n && Prunes(nrs, once.disks[i]) {
      SomethingPruned(nrs, once.disks, n, i);
      NumberGoesDown(nrs, once.counts, once.disks, n);
      MovedOff(once.counts.nrDisks as int, PrunedNumber(nrs, once.disks, n));
    } else {
      NothingPruned(nrs, once.counts, once.disks, n);
      assert Pruned(nrs, once).disks == once.disks;
    }
  }

  lemma MovedOff(x: int, k: nat)
    requires 0 <= x < TWO_32 && 0 < k <= MD_SB_DISKS
    ensures (x - k) % TWO_32 != x
  {}

  lemma SecondLook(nrs: seq<int>, d: Disk)
    ensures Prunes(nrs, PrunedDisk(nrs, d)) <==> DiskFaulty(d) && Named(nrs, d)
  {
    assert DiskFaulty(Removed(d)) && Removed(d).Dev() == 0;
  }

  // ----- The loops

  function Numbers(members: seq<Rdev>): (nrs: seq<int>)
    reads (set m | m in members)`descNr
    ensures |nrs| == |members| && forall i :: 0 <= i < |nrs| ==> nrs[i] == members[i].descNr
  {
    if members == [] then [] else Numbers(members[..|members| - 1]) + [members[|members| - 1].descNr]
  }

  /** The inner loops of lines 984-990 and 1003-1009. */
  method FindNumber(members: seq<Rdev>, number: u32) returns (found: bool)
    ensures found <==> exists i :: 0 <= i < |members| && Numbers(members)[i] % TWO_32 == number as int
  {
    var i := 0;
    found := false;
    while i < |members| && !found
      invariant 0 <= i <= |members|
      invariant !found ==> forall j :: 0 <= j < i ==> members[j].descNr % TWO_32 != number as int
      invariant found ==> i < |members| && Numbers(members)[i] % TWO_32 == number as int
      decreases |members| - i, !found
    {
      if members[i].descNr % TWO_32 == number as int {
        found := true;
      } else {
        i := i + 1;
      }
    }
  }

  /** remove_descriptor on entry i. */
  method RemoveDescriptor(a: Jmddev, i: nat)
    requires i < |a.sb.disks|
    modifies a`sb
    ensures var d := old(a.sb).disks[i];
            a.sb == old(a.sb).(counts := CountsWithout(old(a.sb).counts, d), disks := old(a.sb).disks[i := Removed(d)])
  {
    var d := a.sb.disks[i];
    var c := a.sb.counts;
    if DiskActive(d) {
      c := c.(workingDisks := Less(c.workingDisks));
    } else if DiskSpare(d) {
      c := c.(spareDisks := Less(c.spareDisks));
      c := c.(workingDisks := Less(c.workingDisks));
    } else {
      c := c.(failedDisks := Less(c.failedDisks));
    }
    c := c.(nrDisks := Less(c.nrDisks));
    a.sb := a.sb.(counts := c, disks := a.sb.disks[i := Removed(d)]);
  }

  /** The pruning pass of analyze_sbs. */
  method Prune(a: Jmddev)
    modifies a`sb
    ensures a.sb == Pruned(Numbers(a.members), old(a.sb))
  {
    ghost var nrs, first := Numbers(a.members), a.sb;
    var i := 0;
    while i < |a.sb.disks|
      invariant 0 <= i <= |a.sb.disks| == |first.disks|
      invariant a.sb == first.(counts := PrunedCounts(nrs, first.counts, first.disks, i), disks := a.sb.disks)
      invariant forall j :: 0 <= j < i ==> a.sb.disks[j] == PrunedDisk(nrs, first.disks[j])
      invariant forall j :: i <= j < |first.disks| ==> a.sb.disks[j] == first.disks[j]
    {
      PruneOne(a, i);
      i := i + 1;
    }
  }

  /** Lines 979-1012 for one descriptor. */
  method PruneOne(a: Jmddev, i: nat)
    requires i < |a.sb.disks|
    modifies a`sb
    ensures a.sb == var d := old(a.sb).disks[i];
                    if Prunes(Numbers(a.members), d) then
                      old(a.sb).(counts := CountsWithout(old(a.sb).counts, d),
                                 disks := old(a.sb).disks[i := Removed(d)])
                    else old(a.sb)
  {
    var desc := a.sb.disks[i];
    var found := FindNumber(a.members, desc.number);
    assert found <==> Named(Numbers(a.members), desc);
    if DiskFaulty(desc) {
      if found || desc.Dev() != 0 {
        RemoveDescriptor(a, i);
      }
    } else if desc.Dev() != 0 && !found {
      RemoveDescriptor(a, i);
    }
  }

  // ----- The checks that follow

  /** Every entry with a device is sound and has a member (lines 1015-1035). */
  ghost predicate EntriesOk(a: Jmddev)
    reads a
  {
    forall i :: 0 <= i < |a.sb.disks| && a.sb.disks[i].Dev() != 0 ==>
      !DiskFaulty(a.sb.disks[i]) && exists j :: 0 <= j < |a.members| && a.members[j].dev == a.sb.disks[i].Dev()
  }

  /** Members have valid, pairwise distinct numbers and distinct devices (lines 1037-1055). */
  ghost predicate MembersOk(a: Jmddev)
    reads a, (set m | m in a.members)`descNr
  {
    forall i :: 0 <= i < |a.members| ==> MemberOk(a, i)
  }

  ghost predicate MemberOk(a: Jmddev, i: nat)
    requires i < |a.members|
    reads a, (set m | m in a.members)`descNr
  {
    && a.members[i].descNr != -1
    && forall j :: 0 <= j < |a.members| && j != i ==>
         a.members[j].descNr != a.members[i].descNr && a.members[j].dev != a.members[i].dev
  }

  predicate VersionOk(sb: Super) {
    sb.fixed.majorVersion == 0 && sb.fixed.minorVersion <= 90
  }

  /** find_jrdev. */
  method FindDev(members: seq<Rdev>, dev: nat) returns (found: bool)
    ensures found <==> exists j :: 0 <= j < |members| && members[j].dev == dev
  {
    var i := 0;
    while i < |members|
      invariant 0 <= i <= |members| && forall j :: 0 <= j < i ==> members[j].dev != dev
    {
      if members[i].dev == dev {
        return true;
      }
      i := i + 1;
    }
    return false;
  }

  method CheckEntries(a: Jmddev) returns (ok: bool)
    ensures ok <==> EntriesOk(a)
  {
    var i := 0;
    while i < |a.sb.disks|
      invariant 0 <= i <= |a.sb.disks|
      invariant forall k :: 0 <= k < i && a.sb.disks[k].Dev() != 0 ==>
                  && !DiskFaulty(a.sb.disks[k])
                  && exists j :: 0 <= j < |a.members| && a.members[j].dev == a.sb.disks[k].Dev()
    {
      var desc := a.sb.disks[i];
      if desc.Dev() != 0 {
        if DiskFaulty(desc) {
          return false;
        }
        var found := FindDev(a.members, desc.Dev());
        if !found {
          return false;
        }
      }
      i := i + 1;
    }
    return true;
  }

  method CheckMember(a: Jmddev, i: nat) returns (ok: bool)
    requires a.Valid() && i < |a.members|
    ensures ok <==> MemberOk(a, i)
  {
    var m := a.members[i];
    if m.descNr == -1 {
      return false;
    }
    var j := 0;
    while j < |a.members|
      invariant 0 <= j <= |a.members|
      invariant forall k :: 0 <= k < j && k != i ==> a.members[k].descNr != m.descNr
    {
      if a.members[j] != m && a.members[j].descNr == m.descNr {
        return false;
      }
      j := j + 1;
    }
    j := 0;
    while j < |a.members|
      invariant 0 <= j <= |a.members|
      invariant forall k :: 0 <= k < j && k != i ==> a.members[k].dev != m.dev
    {
      if a.members[j] != m && a.members[j].dev == m.dev {
        return false;
      }
      j := j + 1;
    }
    return true;
  }

  method CheckMembers(a: Jmddev) returns (ok: bool)
    requires a.Valid()
    ensures ok <==> MembersOk(a)
  {
    var i := 0;
    while i < |a.members|
      invariant 0 <= i <= |a.members| && forall k :: 0 <= k < i ==> MemberOk(a, k)
    {
      var good := CheckMember(a, i);
      if !good {
        return false;
      }
      i := i + 1;
    }
    return true;
  }

  /** analyze_sbs from the pruning pass to its end: 0, or 1 for an abort. */
  method PruneAndCheck(a: Jmddev) returns (rc: int)
    requires a.Valid()
    modifies a`sb
    ensures a.sb == Pruned(Numbers(a.members), old(a.sb))
    ensures rc == if EntriesOk(a) && MembersOk(a) && VersionOk(a.sb) then 0 else 1
    ensures rc == 0 ==> a.sb.fixed.majorVersion == 0 && a.sb.fixed.minorVersion <= 90
    ensures rc != 0 ==> a.sb.fixed.majorVersion != 0 || a.sb.fixed.minorVersion > 90 || !EntriesOk(a) || !MembersOk(a)
    ensures forall i :: 0 <= i < |a.sb.disks| && a.sb.disks[i].Dev() != 0 ==> !DiskFaulty(a.sb.disks[i])
  {
    Prune(a);
    forall i | 0 <= i < |a.sb.disks| && a.sb.disks[i].Dev() != 0 ensures !DiskFaulty(a.sb.disks[i]) {
      SurvivorsSound(Numbers(a.members), old(a.sb), i);
    }
    var entries := CheckEntries(a);
    if !entries {
      return 1;
    }
    var distinct := CheckMembers(a);
    if !distinct {
      return 1;
    }
    return if VersionOk(a.sb) then 0 else 1;
  }
}
