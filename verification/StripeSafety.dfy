/** The invariant of the step system, kept by every step, and what it says about whole runs. */
module StripeSafety {
  import opened AddressMap
  import opened RequestChain
  import opened Lists
  import opened StripeCore
  import opened StripeInvariant
  import opened StripeProtocol

  ghost function Holders(threads: map<nat, Pc>, id: nat): set<nat> {
    set t | t in threads && id in HeldBy(threads[t])
  }

  ghost function Flyers(inflight: map<nat, (nat, nat)>, id: nat): set<nat> {
    set tag | tag in inflight && inflight[tag].0 == id
  }

  /** refs is what it stands for: the threads that hold a stripe plus its bios in flight. */
  ghost predicate Tied(threads: map<nat, Pc>, inflight: map<nat, (nat, nat)>, refs: multiset<nat>) {
    forall id: nat :: refs[id] == |Holders(threads, id)| + |Flyers(inflight, id)|
  }

  ghost function Limbo(threads: map<nat, Pc>): set<nat> {
    set t | t in threads && threads[t].Shrinking? :: threads[t].id
  }

  ghost predicate OneShrinkerEach(threads: map<nat, Pc>) {
    forall t, u :: t in threads && u in threads && t != u && threads[t].Shrinking? && threads[u].Shrinking? ==>
      threads[t].id != threads[u].id
  }

  /** A thread about to queue a request holds the stripe of the request's row; a sleeper has run the
      loop body once, and unless woken it sleeps because there is no free stripe. */
  ghost predicate PcOk(cfg: Config, c: Core<nat>, pc: Pc)
    requires cfg.Valid()
  {
    match pc
    case Adding(req, id) => Hashed(c, id) && c.stripes[id].sector == ComputeSector(cfg.g, req.sector).sector
    case Scanning(_, slot) => slot < cfg.g.disks
    case Flagging(_, left) => left <= cfg.g.disks
    case Submitting(_, left) => left <= cfg.g.disks
    case Asleep(_, woken, bodies) => bodies == 1 && (!woken ==> c.inactive == [])
    case _ => true
  }

  ghost predicate PcsOk(cfg: Config, c: Core<nat>, threads: map<nat, Pc>)
    requires cfg.Valid()
  {
    forall t :: t in threads ==> PcOk(cfg, c, threads[t])
  }

  /** No bio in flight goes to the parity disk of its stripe. */
  ghost predicate FlightOk(cfg: Config, c: Core<nat>, inflight: map<nat, (nat, nat)>) {
    forall tag :: tag in inflight ==>
      && inflight[tag].0 in c.stripes && inflight[tag].1 < cfg.g.disks
      && inflight[tag].1 != c.stripes[inflight[tag].0].pdIdx
  }

  /** A list is ordered by the time of the release that put a stripe there. */
  ghost predicate Clocked(list: seq<nat>, released: map<nat, nat>, clock: nat) {
    && (forall id :: id in list ==> id in released && released[id] < clock)
    && (forall i, j :: 0 <= i < j < |list| ==> released[list[i]] < released[list[j]])
  }

  ghost predicate ListsClocked(c: Core<nat>, released: map<nat, nat>, clock: nat) {
    Clocked(c.inactive, released, clock) && Clocked(c.handleList, released, clock)
  }

  /** The parts of the invariant. */
  datatype Part = NothingFired | CoreInOrder | RefsTied | Shrinkers | ThreadsOk | BiosOk | ReleaseOrder

  ghost predicate Holds(cfg: Config, s: State, part: Part)
    requires cfg.Valid()
  {
    match part
    case NothingFired => s.core.fired == {}
    case CoreInOrder => CoreInv(cfg.g, s.core, s.refs, Limbo(s.threads))
    case RefsTied => Tied(s.threads, s.inflight, s.refs)
    case Shrinkers => OneShrinkerEach(s.threads)
    case ThreadsOk => PcsOk(cfg, s.core, s.threads)
    case BiosOk => FlightOk(cfg, s.core, s.inflight)
    case ReleaseOrder => ListsClocked(s.core, s.released, s.clock)
  }

  /** The invariant of the protocol. It is quantified over its parts, so that a proof that only hands
      it on does not unfold them. */
  ghost predicate Inv(cfg: Config, s: State)
    requires cfg.Valid()
  {
    forall part :: Holds(cfg, s, part)
  }

  lemma Open(cfg: Config, s: State)
    requires cfg.Valid() && Inv(cfg, s)
    ensures s.core.fired == {} && CoreInv(cfg.g, s.core, s.refs, Limbo(s.threads))
    ensures Tied(s.threads, s.inflight, s.refs) && OneShrinkerEach(s.threads)
    ensures PcsOk(cfg, s.core, s.threads) && FlightOk(cfg, s.core, s.inflight)
    ensures ListsClocked(s.core, s.released, s.clock)
  {
    assert Holds(cfg, s, NothingFired) && Holds(cfg, s, CoreInOrder);
    assert Holds(cfg, s, RefsTied) && Holds(cfg, s, Shrinkers);
    assert Holds(cfg, s, ThreadsOk) && Holds(cfg, s, BiosOk);
    assert Holds(cfg, s, ReleaseOrder);
  }

  lemma Close(cfg: Config, s: State)
    requires cfg.Valid()
    requires s.core.fired == {} && CoreInv(cfg.g, s.core, s.refs, Limbo(s.threads))
    requires Tied(s.threads, s.inflight, s.refs) && OneShrinkerEach(s.threads)
    requires PcsOk(cfg, s.core, s.threads) && FlightOk(cfg, s.core, s.inflight)
    requires ListsClocked(s.core, s.released, s.clock)
    ensures Inv(cfg, s)
  {}

  // ----- Threads and references

  lemma HolderCounted(s: State, t: nat, id: nat)
    requires Tied(s.threads, s.inflight, s.refs) && t in s.threads && id in HeldBy(s.threads[t])
    ensures s.refs[id] > 0
  {
    assert t in Holders(s.threads, id);
  }

  lemma FlyerCounted(s: State, tag: nat)
    requires Tied(s.threads, s.inflight, s.refs) && tag in s.inflight
    ensures s.refs[s.inflight[tag].0] > 0
  {
    assert tag in Flyers(s.inflight, s.inflight[tag].0);
  }

  lemma HoldersMove(threads: map<nat, Pc>, t: nat, pc: Pc, id: nat)
    requires t in threads
    ensures |Holders(threads[t := pc], id)| ==
            |Holders(threads, id)| - HeldBy(threads[t])[id] + HeldBy(pc)[id]
  {
    HeldBySingle(threads[t], id);
    HeldBySingle(pc, id);
    Toggled(Holders(threads, id), Holders(threads[t := pc], id), t);
  }

  lemma HeldBySingle(pc: Pc, id: nat)
    ensures HeldBy(pc)[id] == if id in HeldBy(pc) then 1 else 0
  {}

  lemma Toggled<T>(before: set<T>, after: set<T>, x: T)
    requires before - {x} == after - {x}
    ensures |after| == |before| - (if x in before then 1 else 0) + (if x in after then 1 else 0)
  {
    assert before == (before - {x}) + (if x in before then {x} else {});
    assert after == (before - {x}) + (if x in after then {x} else {});
  }

  lemma MoveTied(s: State, t: nat, pc: Pc)
    requires Tied(s.threads, s.inflight, s.refs) && t in s.threads
    ensures var m := Move(s, t, pc); Tied(m.threads, m.inflight, m.refs)
  {
    var m := Move(s, t, pc);
    forall id: nat ensures m.refs[id] == |Holders(m.threads, id)| + |Flyers(m.inflight, id)| {
      HoldersMove(s.threads, t, pc, id);
      if id in HeldBy(s.threads[t]) {
        HolderCounted(s, t, id);
      }
    }
  }

  lemma WakeAllTied(threads: map<nat, Pc>, inflight: map<nat, (nat, nat)>, refs: multiset<nat>)
    requires Tied(threads, inflight, refs)
    ensures Tied(WakeAll(threads), inflight, refs) && Limbo(WakeAll(threads)) == Limbo(threads)
  {
    forall id: nat ensures Holders(WakeAll(threads), id) == Holders(threads, id) {}
    forall x | x in Limbo(threads) ensures x in Limbo(WakeAll(threads)) {
      var t :| t in threads && threads[t].Shrinking? && threads[t].id == x;
      assert WakeAll(threads)[t] == threads[t];
    }
    forall x | x in Limbo(WakeAll(threads)) ensures x in Limbo(threads) {
      var t :| t in WakeAll(threads) && WakeAll(threads)[t].Shrinking? && WakeAll(threads)[t].id == x;
      assert WakeAll(threads)[t] == threads[t];
    }
  }

  /** A thread that neither starts nor stops shrinking leaves the stripes in limbo alone. */
  lemma LimboSame(threads: map<nat, Pc>, t: nat, pc: Pc)
    requires t in threads && !threads[t].Shrinking? && !pc.Shrinking?
    requires OneShrinkerEach(threads)
    ensures Limbo(threads[t := pc]) == Limbo(threads) && OneShrinkerEach(threads[t := pc])
  {
    var after := threads[t := pc];
    forall x | x in Limbo(threads) ensures x in Limbo(after) {
      var u :| u in threads && threads[u].Shrinking? && threads[u].id == x;
      assert after[u] == threads[u];
    }
  }

  /** What a step does to the threads that do not take it, and to the bios in flight. */
  lemma OthersOk(cfg: Config, c: Core<nat>, d: Core<nat>, s: State)
    requires cfg.Valid() && Tied(s.threads, s.inflight, s.refs)
    requires PcsOk(cfg, c, s.threads) && FlightOk(cfg, c, s.inflight)
    requires HeldStable(c, d, s.refs) && (c.inactive == [] ==> d.inactive == [])
    ensures PcsOk(cfg, d, s.threads) && FlightOk(cfg, d, s.inflight)
  {
    forall t | t in s.threads ensures PcOk(cfg, d, s.threads[t]) {
      assert PcOk(cfg, c, s.threads[t]);
      if s.threads[t].Adding? {
        HolderCounted(s, t, s.threads[t].id);
        assert s.threads[t].id in s.refs;
      }
    }
    forall tag | tag in s.inflight
      ensures s.inflight[tag].0 in d.stripes && s.inflight[tag].1 < cfg.g.disks
      ensures s.inflight[tag].1 != d.stripes[s.inflight[tag].0].pdIdx
    {
      FlyerCounted(s, tag);
      assert s.inflight[tag].0 in s.refs;
    }
  }

  lemma OneMoreOk(cfg: Config, d: Core<nat>, threads: map<nat, Pc>, t: nat, pc: Pc)
    requires cfg.Valid() && PcsOk(cfg, d, threads) && PcOk(cfg, d, pc)
    ensures PcsOk(cfg, d, threads[t := pc])
  {}

  // ----- Steps

  /** Thread t moves to pc while the cache becomes d. */
  lemma MoveInv(cfg: Config, s: State, t: nat, pc: Pc, d: Core<nat>)
    requires cfg.Valid() && Inv(cfg, s) && t in s.threads
    requires !s.threads[t].Shrinking? && !pc.Shrinking?
    requires d.fired == {} && CoreInv(cfg.g, d, s.refs - HeldBy(s.threads[t]) + HeldBy(pc), Limbo(s.threads))
    requires HeldStable(s.core, d, s.refs) && (s.core.inactive == [] ==> d.inactive == [])
    requires ListsClocked(d, s.released, s.clock)
    requires PcOk(cfg, d, pc)
    ensures Inv(cfg, Move(s, t, pc).(core := d))
  {
    Open(cfg, s);
    MoveTied(s, t, pc);
    LimboSame(s.threads, t, pc);
    OthersOk(cfg, s.core, d, s);
    OneMoreOk(cfg, d, s.threads, t, pc);
    Close(cfg, Move(s, t, pc).(core := d));
  }

  lemma SameHold(s: State, t: nat, pc: Pc)
    requires Tied(s.threads, s.inflight, s.refs) && t in s.threads && HeldBy(pc) == HeldBy(s.threads[t])
    ensures s.refs - HeldBy(s.threads[t]) + HeldBy(pc) == s.refs
  {
    forall id: nat ensures HeldBy(pc)[id] <= s.refs[id] {
      if id in HeldBy(pc) {
        HolderCounted(s, t, id);
      }
    }
  }

  /** The thread moves, the cache does not change. */
  lemma QuietMove(cfg: Config, s: State, t: nat, pc: Pc)
    requires cfg.Valid() && Inv(cfg, s) && t in s.threads
    requires HeldBy(pc) == HeldBy(s.threads[t]) && !pc.Shrinking? && !s.threads[t].Shrinking?
    requires PcOk(cfg, s.core, pc)
    ensures Inv(cfg, Move(s, t, pc))
  {
    Open(cfg, s);
    SameHold(s, t, pc);
    MoveInv(cfg, s, t, pc, s.core);
    assert Move(s, t, pc).(core := s.core) == Move(s, t, pc);
  }

  lemma BodyInv(cfg: Config, s: State, t: nat, req: Request, bodies: nat)
    requires cfg.Valid() && Inv(cfg, s) && Running(s) && t in s.threads
    requires HeldBy(s.threads[t]) == multiset{} && !s.threads[t].Shrinking?
    requires bodies == 1 || s.core.inactive != []
    ensures var p := ComputeSector(cfg.g, req.sector);
            var s' := OneBody(cfg, s, t, req, bodies);
            if p.sector !in s.core.hash && HeadBusy(s.core) then s'.core.fired == {497} else Inv(cfg, s')
  {
    Open(cfg, s);
    var p := ComputeSector(cfg.g, req.sector);
    PlaceInRange(cfg.g, req.sector);
    BodyKeeps(cfg.g, s.core, s.refs, Limbo(s.threads), p.sector, req.noblock);
    match Body(cfg.g, s.core, p.sector, p.parityDisk, req.noblock)
    case Got(id, c) =>
      if p.sector in s.core.hash || !HeadBusy(s.core) {
        GotInv(cfg, s, t, req, id, c);
      }
    case Null => QuietMove(cfg, s, t, Idle);
    case MustWait => QuietMove(cfg, s, t, Asleep(req, false, bodies));
  }

  lemma GotInv(cfg: Config, s: State, t: nat, req: Request, id: nat, c: Core<nat>)
    requires cfg.Valid() && Inv(cfg, s) && Running(s) && t in s.threads
    requires HeldBy(s.threads[t]) == multiset{} && !s.threads[t].Shrinking?
    requires var sector := ComputeSector(cfg.g, req.sector).sector;
             && Body(cfg.g, s.core, sector, ParityOf(cfg.g, sector), req.noblock) == Got(id, c)
             && CoreInv(cfg.g, c, s.refs + multiset{id}, Limbo(s.threads))
             && Hashed(c, id) && c.stripes[id].sector == sector && c.fired == {}
    ensures Inv(cfg, Move(s, t, Adding(req, id)).(core := c))
  {
    var sector := ComputeSector(cfg.g, req.sector).sector;
    assert s.refs - HeldBy(s.threads[t]) + HeldBy(Adding(req, id)) == s.refs + multiset{id};
    GotStable(cfg, s, sector, req.noblock);
    BodyClocked(cfg, s, sector, req.noblock);
    MoveInv(cfg, s, t, Adding(req, id), c);
  }

  lemma GotStable(cfg: Config, s: State, sector: nat, noblock: bool)
    requires cfg.Valid() && Inv(cfg, s) && Running(s)
    ensures match Body(cfg.g, s.core, sector, ParityOf(cfg.g, sector), noblock)
            case Got(id, d) => HeldStable(s.core, d, s.refs)
            case _ => true
  {
    Open(cfg, s);
    BodyStable(cfg.g, s.core, s.refs, Limbo(s.threads), sector, noblock);
  }

  lemma BodyClocked(cfg: Config, s: State, sector: nat, noblock: bool)
    requires cfg.Valid() && Inv(cfg, s) && Running(s)
    ensures match Body(cfg.g, s.core, sector, ParityOf(cfg.g, sector), noblock)
            case Got(_, c) =>
              && ListsClocked(c, s.released, s.clock)
              && (s.core.inactive == [] ==> c.inactive == [])
            case _ => true
  {
    Open(cfg, s);
    if sector in s.core.hash {
      WithoutClocked(s.core.inactive, s.core.hash[sector], s.released, s.clock);
      WithoutClocked(s.core.handleList, s.core.hash[sector], s.released, s.clock);
    } else if s.core.inactive != [] {
      TailClocked(s.core.inactive, s.released, s.clock);
    }
  }

  lemma CutClocked(inactive: seq<nat>, k: nat, released: map<nat, nat>)
    requires k < |inactive| && forall id :: id in inactive ==> id in released
    requires forall i, j :: 0 <= i < j < |inactive| ==> released[inactive[i]] < released[inactive[j]]
    ensures var r := inactive[..k] + inactive[k + 1..];
            && (forall id :: id in r ==> id in inactive)
            && (forall i, j :: 0 <= i < j < |r| ==> released[r[i]] < released[r[j]])
  {
    var r := inactive[..k] + inactive[k + 1..];
    forall i, j | 0 <= i < j < |r| ensures released[r[i]] < released[r[j]] {
      assert r[i] == inactive[if i < k then i else i + 1];
      assert r[j] == inactive[if j < k then j else j + 1];
    }
  }

  /** Removal from the middle keeps the order. */
  lemma WithoutClocked(inactive: seq<nat>, id: nat, released: map<nat, nat>, clock: nat)
    requires Distinct(inactive) && Clocked(inactive, released, clock)
    ensures Clocked(Without(inactive, id), released, clock)
    ensures inactive == [] ==> Without(inactive, id) == []
  {
    if id in inactive {
      var k :| 0 <= k < |inactive| && inactive[k] == id;
      WithoutAt(inactive, k);
      WithoutKeeps(inactive, id);
      CutClocked(inactive, k, released);
    }
  }

  // ----- Steps on the slots of a held stripe

  /** A thread that keeps its reference to stripe id moves on and replaces one slot of it. */
  lemma SlotInv(cfg: Config, s: State, t: nat, pc: Pc, id: nat, i: nat, d: Dev)
    requires cfg.Valid() && Inv(cfg, s) && t in s.threads
    requires HeldBy(pc) == HeldBy(s.threads[t]) == multiset{id} && PcOk(cfg, s.core, pc) && !pc.Adding?
    requires id in s.core.stripes && i < |s.core.stripes[id].devs| <= cfg.g.disks
    requires Replaces(cfg.g, s.core.stripes[id], i, d)
    ensures Inv(cfg, Advance(s, t, pc, id, i, d))
  {
    Open(cfg, s);
    HolderCounted(s, t, id);
    SameHold(s, t, pc);
    var sh := s.core.stripes[id];
    var after := sh.(devs := sh.devs[i := d]);
    ReplaceFollows(cfg.g, sh, i, d);
    SwapKeeps(cfg.g, s.core, s.refs, Limbo(s.threads), id, after);
    MoveInv(cfg, s, t, pc, Swap(s.core, id, after));
  }

  lemma DevCount(cfg: Config, s: State, id: nat)
    requires cfg.Valid() && Inv(cfg, s) && id in s.core.stripes
    ensures |s.core.stripes[id].devs| == cfg.g.disks
  {
    Open(cfg, s);
  }

  lemma AddFacts(cfg: Config, s: State, t: nat, req: Request, id: nat)
    requires cfg.Valid() && Inv(cfg, s) && t in s.threads && s.threads[t] == Adding(req, id)
    ensures id in s.core.stripes && |s.core.stripes[id].devs| == cfg.g.disks
    ensures Placed(cfg.g, s.core.stripes[id]) && s.core.stripes[id].sector == ComputeSector(cfg.g, req.sector).sector
    ensures var dd := ComputeSector(cfg.g, req.sector).dataDisk;
            dd < cfg.g.disks
  {
    Open(cfg, s);
    assert PcOk(cfg, s.core, Adding(req, id));
    DevCount(cfg, s, id);
    PlaceInRange(cfg.g, req.sector);
  }

  lemma AddInv(cfg: Config, s: State, t: nat, req: Request, id: nat)
    requires cfg.Valid() && Inv(cfg, s) && t in s.threads && s.threads[t] == Adding(req, id)
    ensures AddStep(cfg, s, t, req, id).Some? && Inv(cfg, AddStep(cfg, s, t, req, id).value)
  {
    AddFacts(cfg, s, t, req, id);
    var dd := ComputeSector(cfg.g, req.sector).dataDisk;
    var d := s.core.stripes[id].devs[dd];
    var after := Insert(if req.write then d.towrite else d.toread, Extent(req.sector, req.len));
    if after == None {
      AddRefused(cfg, s, t, req, id);
    } else if req.write {
      AddWrite(cfg, s, t, req, id, dd, after.value);
    } else {
      AddRead(cfg, s, t, req, id, dd, after.value);
    }
  }

  lemma AddRefused(cfg: Config, s: State, t: nat, req: Request, id: nat)
    requires cfg.Valid() && Inv(cfg, s) && t in s.threads && s.threads[t] == Adding(req, id)
    ensures Inv(cfg, Move(s, t, Flagging(id, cfg.g.disks)))
  {
    QuietMove(cfg, s, t, Flagging(id, cfg.g.disks));
  }

  lemma AddWrite(cfg: Config, s: State, t: nat, req: Request, id: nat, dd: nat, after: seq<Extent>)
    requires cfg.Valid() && Inv(cfg, s) && t in s.threads && s.threads[t] == Adding(req, id) && req.write
    requires id in s.core.stripes && dd < |s.core.stripes[id].devs| == cfg.g.disks
    requires Placed(cfg.g, s.core.stripes[id]) && s.core.stripes[id].sector == ComputeSector(cfg.g, req.sector).sector
    requires dd == ComputeSector(cfg.g, req.sector).dataDisk
    requires Insert(s.core.stripes[id].devs[dd].towrite, Extent(req.sector, req.len)) == Some(after)
    ensures Inv(cfg, Advance(s, t, Scanning(id, dd), id, dd, s.core.stripes[id].devs[dd].(towrite := after)))
  {
    QueueReplaces(cfg.g, s.core.stripes[id], req, after);
    SlotInv(cfg, s, t, Scanning(id, dd), id, dd, s.core.stripes[id].devs[dd].(towrite := after));
  }

  lemma AddRead(cfg: Config, s: State, t: nat, req: Request, id: nat, dd: nat, after: seq<Extent>)
    requires cfg.Valid() && Inv(cfg, s) && t in s.threads && s.threads[t] == Adding(req, id) && !req.write
    requires id in s.core.stripes && dd < |s.core.stripes[id].devs| == cfg.g.disks
    requires Placed(cfg.g, s.core.stripes[id]) && s.core.stripes[id].sector == ComputeSector(cfg.g, req.sector).sector
    requires dd == ComputeSector(cfg.g, req.sector).dataDisk
    requires Insert(s.core.stripes[id].devs[dd].toread, Extent(req.sector, req.len)) == Some(after)
    ensures Inv(cfg, Advance(s, t, Flagging(id, cfg.g.disks), id, dd, s.core.stripes[id].devs[dd].(toread := after)))
  {
    QueueReplaces(cfg.g, s.core.stripes[id], req, after);
    SlotInv(cfg, s, t, Flagging(id, cfg.g.disks), id, dd, s.core.stripes[id].devs[dd].(toread := after));
  }

  /** Queueing a request on the slot that the map selects keeps the slot in order. */
  lemma QueueReplaces(g: Geometry, sh: Stripe, req: Request, after: seq<Extent>)
    requires g.Valid() && Placed(g, sh) && sh.sector == ComputeSector(g, req.sector).sector
    requires var dd := ComputeSector(g, req.sector).dataDisk;
             && dd < |sh.devs|
             && Insert(if req.write then sh.devs[dd].towrite else sh.devs[dd].toread, Extent(req.sector, req.len))
                == Some(after)
    ensures var dd := ComputeSector(g, req.sector).dataDisk;
            Replaces(g, sh, dd, if req.write then sh.devs[dd].(towrite := after) else sh.devs[dd].(toread := after))
  {
    PlaceInRange(g, req.sector);
    MapThenInverse(g, req.sector);
    var dd, b := ComputeSector(g, req.sector).dataDisk, Extent(req.sector, req.len);
    var d := sh.devs[dd];
    var chain := if req.write then d.towrite else d.toread;
    assert SlotOk(g, sh, dd);
    InsertKeeps(chain, b);
    forall k | 0 <= k < |after| ensures after[k].sector == req.sector {
      assert after[k] in multiset(after);
      assert after[k] in multiset(chain) + multiset{b};
    }
    if req.write && d.overwrite {
      InsertKeepsCover(chain, b, d.sector);
    }
  }

  lemma ScanReplaces(g: Geometry, sh: Stripe, i: nat)
    requires g.Valid() && i < |sh.devs| <= g.disks
    ensures var d := sh.devs[i];
            Replaces(g, sh, i, if Covers(d.towrite, d.sector) then d.(overwrite := true) else d)
  {
    var d := sh.devs[i];
    if Covers(d.towrite, d.sector) {
      assert CoveredAt(d.towrite, d.sector);
    }
  }

  lemma FlagReplaces(g: Geometry, sh: Stripe, i: nat)
    requires g.Valid() && i < |sh.devs| <= g.disks
    ensures var d := sh.devs[i];
            Replaces(g, sh, i,
                     d.(wantRead := d.wantRead || d.toread != [], wantWrite := d.wantWrite || d.towrite != []))
  {}

  lemma RetireReplaces(g: Geometry, sh: Stripe, i: nat)
    requires g.Valid() && i < |sh.devs| <= g.disks
    ensures Replaces(g, sh, i, sh.devs[i].(toread := [], towrite := [], overwrite := false))
  {}

  lemma ClearReplaces(g: Geometry, sh: Stripe, i: nat)
    requires g.Valid() && i < |sh.devs| <= g.disks
    ensures var d := sh.devs[i];
            Replaces(g, sh, i, if d.wantWrite then d.(wantWrite := false) else d.(wantRead := false))
  {}

  lemma ScanInv(cfg: Config, s: State, t: nat, id: nat, slot: nat)
    requires cfg.Valid() && Inv(cfg, s) && t in s.threads && s.threads[t] == Scanning(id, slot)
    ensures ScanStep(cfg, s, t, id, slot).Some? && Inv(cfg, ScanStep(cfg, s, t, id, slot).value)
  {
    HeldLive(cfg, s, t, id);
    var sh := s.core.stripes[id];
    var d := sh.devs[slot];
    var d' := if Covers(d.towrite, d.sector) then d.(overwrite := true) else d;
    ScanReplaces(cfg.g, sh, slot);
    SlotInv(cfg, s, t, Flagging(id, cfg.g.disks), id, slot, d');
  }

  lemma HeldLive(cfg: Config, s: State, t: nat, id: nat)
    requires cfg.Valid() && Inv(cfg, s) && t in s.threads && HeldBy(s.threads[t]) == multiset{id}
    ensures id in s.core.stripes && |s.core.stripes[id].devs| == cfg.g.disks && s.refs[id] > 0
    ensures PcOk(cfg, s.core, s.threads[t])
  {
    Open(cfg, s);
    HolderCounted(s, t, id);
    assert id in s.refs;
  }

  lemma FlagInv(cfg: Config, s: State, t: nat, id: nat, left: nat)
    requires cfg.Valid() && Inv(cfg, s) && t in s.threads && s.threads[t] == Flagging(id, left)
    ensures FlagStep(cfg, s, t, id, left).Some? && Inv(cfg, FlagStep(cfg, s, t, id, left).value)
  {
    HeldLive(cfg, s, t, id);
    if left == 0 {
      QuietMove(cfg, s, t, Submitting(id, cfg.g.disks));
    } else {
      FlagUnfolds(cfg, s, t, id, left);
      FlagOne(cfg, s, t, id, left - 1);
    }
  }

  lemma FlagUnfolds(cfg: Config, s: State, t: nat, id: nat, left: nat)
    requires t in s.threads && id in s.core.stripes && 0 < left <= |s.core.stripes[id].devs|
    ensures var d := s.core.stripes[id].devs[left - 1];
            FlagStep(cfg, s, t, id, left) ==
            Some(Advance(s, t, Flagging(id, left - 1), id, left - 1,
                         d.(wantRead := d.wantRead || d.toread != [], wantWrite := d.wantWrite || d.towrite != [])))
  {}

  lemma FlagOne(cfg: Config, s: State, t: nat, id: nat, i: nat)
    requires cfg.Valid() && Inv(cfg, s) && t in s.threads && s.threads[t] == Flagging(id, i + 1)
    requires id in s.core.stripes && i < |s.core.stripes[id].devs| == cfg.g.disks
    ensures var d := s.core.stripes[id].devs[i];
            Inv(cfg, Advance(s, t, Flagging(id, i), id, i,
                             d.(wantRead := d.wantRead || d.toread != [], wantWrite := d.wantWrite || d.towrite != [])))
  {
    FlagReplaces(cfg.g, s.core.stripes[id], i);
    var d := s.core.stripes[id].devs[i];
    SlotInv(cfg, s, t, Flagging(id, i), id, i,
            d.(wantRead := d.wantRead || d.toread != [], wantWrite := d.wantWrite || d.towrite != []));
  }

  lemma RetireInv(cfg: Config, s: State, t: nat, id: nat, slot: nat)
    requires cfg.Valid() && Inv(cfg, s) && t in s.threads && !s.threads[t].Adding?
    requires HeldBy(s.threads[t]) == multiset{id}
    ensures RetireStep(s, t, id, slot).Some? ==> Inv(cfg, RetireStep(s, t, id, slot).value)
  {
    HeldLive(cfg, s, t, id);
    if slot < cfg.g.disks {
      RetireOne(cfg, s, t, id, slot);
    }
  }

  lemma RetireOne(cfg: Config, s: State, t: nat, id: nat, i: nat)
    requires cfg.Valid() && Inv(cfg, s) && t in s.threads && !s.threads[t].Adding?
    requires HeldBy(s.threads[t]) == multiset{id} && PcOk(cfg, s.core, s.threads[t])
    requires id in s.core.stripes && i < |s.core.stripes[id].devs| == cfg.g.disks
    ensures var d := s.core.stripes[id].devs[i];
            Inv(cfg, Advance(s, t, s.threads[t], id, i, d.(toread := [], towrite := [], overwrite := false)))
  {
    RetireReplaces(cfg.g, s.core.stripes[id], i);
    var d := s.core.stripes[id].devs[i];
    SlotInv(cfg, s, t, s.threads[t], id, i, d.(toread := [], towrite := [], overwrite := false));
  }

  /** A data bio is only ever submitted for a slot other than the parity slot. */
  lemma SubmitAvoidsParity(cfg: Config, s: State, id: nat, i: nat)
    requires cfg.Valid() && Inv(cfg, s) && id in s.core.stripes && i < cfg.g.disks
    requires |s.core.stripes[id].devs| == cfg.g.disks
    requires s.core.stripes[id].devs[i].wantRead || s.core.stripes[id].devs[i].wantWrite
    ensures Placed(cfg.g, s.core.stripes[id])
    ensures i != s.core.stripes[id].pdIdx == ParityOf(cfg.g, s.core.stripes[id].sector)
  {
    Open(cfg, s);
    var sh := s.core.stripes[id];
    assert Placed(cfg.g, sh) || Untouched(cfg.g, sh);
    assert Placed(cfg.g, sh);
    assert SlotOk(cfg.g, sh, i);
  }

  lemma SubmitInv(cfg: Config, s: State, t: nat, id: nat, left: nat, tag: nat)
    requires cfg.Valid() && Inv(cfg, s) && t in s.threads && s.threads[t] == Submitting(id, left)
    ensures tag !in s.inflight ==> SubmitStep(cfg, s, t, id, left, tag).Some?
    ensures SubmitStep(cfg, s, t, id, left, tag).Some? ==> Inv(cfg, SubmitStep(cfg, s, t, id, left, tag).value)
  {
    HeldLive(cfg, s, t, id);
    if left == 0 {
      QuietMove(cfg, s, t, Releasing(id));
    } else if s.core.stripes[id].devs[left - 1].wantRead || s.core.stripes[id].devs[left - 1].wantWrite {
      SubmitBusy(cfg, s, t, id, left, tag);
    } else {
      assert SubmitStep(cfg, s, t, id, left, tag) == Some(Move(s, t, Submitting(id, left - 1)));
      QuietMove(cfg, s, t, Submitting(id, left - 1));
    }
  }

  lemma SubmitBusy(cfg: Config, s: State, t: nat, id: nat, left: nat, tag: nat)
    requires cfg.Valid() && Inv(cfg, s) && t in s.threads && s.threads[t] == Submitting(id, left)
    requires id in s.core.stripes && 0 < left <= |s.core.stripes[id].devs| == cfg.g.disks
    requires s.core.stripes[id].devs[left - 1].wantRead || s.core.stripes[id].devs[left - 1].wantWrite
    ensures tag !in s.inflight ==> SubmitStep(cfg, s, t, id, left, tag).Some?
    ensures SubmitStep(cfg, s, t, id, left, tag).Some? ==> Inv(cfg, SubmitStep(cfg, s, t, id, left, tag).value)
  {
    SubmitOne(cfg, s, t, id, left - 1, tag);
    SubmitUnfolds(cfg, s, t, id, left, tag);
  }

  lemma SubmitUnfolds(cfg: Config, s: State, t: nat, id: nat, left: nat, tag: nat)
    requires cfg.Valid() && t in s.threads && id in s.core.stripes
    requires 0 < left <= |s.core.stripes[id].devs| == cfg.g.disks
    requires s.core.stripes[id].devs[left - 1].wantRead || s.core.stripes[id].devs[left - 1].wantWrite
    ensures var d := s.core.stripes[id].devs[left - 1];
            var cleared := Advance(s, t, Submitting(id, left - 1), id, left - 1,
                                   if d.wantWrite then d.(wantWrite := false) else d.(wantRead := false));
            SubmitStep(cfg, s, t, id, left, tag) ==
              if !cfg.present[left - 1] then Some(cleared.(core := SetHandle(cleared.core, id)))
              else if tag in s.inflight then None
              else Some(Launch(cleared, id, left - 1, tag))
  {}

  lemma SubmitOne(cfg: Config, s: State, t: nat, id: nat, i: nat, tag: nat)
    requires cfg.Valid() && Inv(cfg, s) && t in s.threads && s.threads[t] == Submitting(id, i + 1)
    requires id in s.core.stripes && i < |s.core.stripes[id].devs| == cfg.g.disks
    requires s.core.stripes[id].devs[i].wantRead || s.core.stripes[id].devs[i].wantWrite
    ensures var d := s.core.stripes[id].devs[i];
            var cleared := Advance(s, t, Submitting(id, i), id, i,
                                   if d.wantWrite then d.(wantWrite := false) else d.(wantRead := false));
            && id in cleared.core.stripes
            && Inv(cfg, cleared.(core := SetHandle(cleared.core, id)))
            && (tag !in s.inflight ==> Inv(cfg, Launch(cleared, id, i, tag)))
  {
    var d := s.core.stripes[id].devs[i];
    var d' := if d.wantWrite then d.(wantWrite := false) else d.(wantRead := false);
    SubmitAvoidsParity(cfg, s, id, i);
    ClearReplaces(cfg.g, s.core.stripes[id], i);
    SlotInv(cfg, s, t, Submitting(id, i), id, i, d');
    var cleared := Advance(s, t, Submitting(id, i), id, i, d');
    HandleInv(cfg, cleared, t, id);
    if tag !in s.inflight {
      HeldLive(cfg, cleared, t, id);
      LaunchInv(cfg, cleared, id, i, tag);
    }
  }

  lemma MoveSame(s: State, t: nat)
    requires Tied(s.threads, s.inflight, s.refs) && t in s.threads
    ensures Move(s, t, s.threads[t]) == s
  {
    SameHold(s, t, s.threads[t]);
    assert s.threads[t := s.threads[t]] == s.threads;
  }

  lemma HandleInv(cfg: Config, s: State, t: nat, id: nat)
    requires cfg.Valid() && Inv(cfg, s) && t in s.threads
    requires HeldBy(s.threads[t]) == multiset{id} && s.threads[t].Submitting?
    ensures id in s.core.stripes && Inv(cfg, s.(core := SetHandle(s.core, id)))
  {
    Open(cfg, s);
    HeldLive(cfg, s, t, id);
    SameHold(s, t, s.threads[t]);
    var sh := s.core.stripes[id];
    HandleFollows(cfg.g, sh);
    SwapKeeps(cfg.g, s.core, s.refs, Limbo(s.threads), id, sh.(handle := true));
    MoveInv(cfg, s, t, s.threads[t], Swap(s.core, id, sh.(handle := true)));
    MoveSame(s, t);
  }

  lemma OneFlyerMore(inflight: map<nat, (nat, nat)>, id: nat, i: nat, tag: nat, x: nat)
    requires tag !in inflight
    ensures |Flyers(inflight[tag := (id, i)], x)| == |Flyers(inflight, x)| + (if x == id then 1 else 0)
  {
    assert Flyers(inflight[tag := (id, i)], x) == Flyers(inflight, x) + (if x == id then {tag} else {});
  }

  lemma LaunchTied(threads: map<nat, Pc>, inflight: map<nat, (nat, nat)>, refs: multiset<nat>,
                   id: nat, i: nat, tag: nat)
    requires Tied(threads, inflight, refs) && tag !in inflight
    ensures Tied(threads, inflight[tag := (id, i)], refs + multiset{id})
  {
    forall x: nat
      ensures (refs + multiset{id})[x] == |Holders(threads, x)| + |Flyers(inflight[tag := (id, i)], x)|
    {
      OneFlyerMore(inflight, id, i, tag, x);
    }
  }

  lemma OneFlyerLess(inflight: map<nat, (nat, nat)>, tag: nat, x: nat)
    requires tag in inflight
    ensures |Flyers(inflight, x)| == |Flyers(inflight - {tag}, x)| + (if x == inflight[tag].0 then 1 else 0)
  {
    var after := inflight - {tag};
    assert Flyers(inflight, x) == Flyers(after, x) + (if x == inflight[tag].0 then {tag} else {});
    assert tag !in Flyers(after, x);
  }

  lemma LandTied(threads: map<nat, Pc>, inflight: map<nat, (nat, nat)>, refs: multiset<nat>, tag: nat)
    requires Tied(threads, inflight, refs) && tag in inflight
    ensures Tied(threads, inflight - {tag}, refs - multiset{inflight[tag].0})
  {
    var after, id := inflight - {tag}, inflight[tag].0;
    OneFlyerLess(inflight, tag, id);
    forall x: nat ensures (refs - multiset{id})[x] == |Holders(threads, x)| + |Flyers(after, x)| {
      OneFlyerLess(inflight, tag, x);
    }
  }

  lemma LaunchFlight(cfg: Config, c: Core<nat>, inflight: map<nat, (nat, nat)>, id: nat, i: nat, tag: nat)
    requires FlightOk(cfg, c, inflight)
    requires id in c.stripes && i < cfg.g.disks && i != c.stripes[id].pdIdx
    ensures FlightOk(cfg, c, inflight[tag := (id, i)])
  {}

  /** generic_make_request with the count raised: one bio more in flight. */
  lemma LaunchInv(cfg: Config, s: State, id: nat, i: nat, tag: nat)
    requires cfg.Valid() && Inv(cfg, s) && s.refs[id] > 0 && id in s.core.stripes
    requires i < cfg.g.disks && i != s.core.stripes[id].pdIdx && tag !in s.inflight
    ensures Inv(cfg, Launch(s, id, i, tag))
  {
    Open(cfg, s);
    GrabKeeps(cfg.g, s.core, s.refs, Limbo(s.threads), id);
    LaunchTied(s.threads, s.inflight, s.refs, id, i, tag);
    GrabStable(s.core, s.refs, id);
    OthersOk(cfg, s.core, Grab(s.core, id), s);
    LaunchFlight(cfg, Grab(s.core, id), s.inflight, id, i, tag);
    Close(cfg, Launch(s, id, i, tag));
  }

  // ----- Release

  /** m is s after the reference to stripe id has been given up but before __release_stripe. */
  lemma ReleaseInv(cfg: Config, s: State, id: nat, m: State)
    requires cfg.Valid() && Inv(cfg, s) && s.refs[id] > 0
    requires m.core == s.core && m.refs == s.refs - multiset{id}
    requires m.released == s.released && m.clock == s.clock
    requires Tied(m.threads, m.inflight, m.refs) && OneShrinkerEach(m.threads) && Limbo(m.threads) == Limbo(s.threads)
    requires PcsOk(cfg, m.core, m.threads) && FlightOk(cfg, m.core, m.inflight)
    ensures id in m.core.stripes && Inv(cfg, ReleaseIn(m, id))
  {
    Open(cfg, s);
    var (c, wake) := Release(s.core, id);
    ReferencedIsActive(cfg.g, s.core, s.refs, Limbo(s.threads), id);
    ReleaseKeeps(cfg.g, s.core, s.refs, Limbo(s.threads), id);
    ReleaseStable(s.core, m.refs, id);
    WakeAllTied(m.threads, m.inflight, m.refs);
    if s.core.stripes[id].count == 1 {
      PushClocked(s.core.inactive, id, s.released, s.clock);
      PushClocked(s.core.handleList, id, s.released, s.clock);
    }
    if wake {
      WokenOk(cfg, s.core, c, m);
    } else {
      OthersOk(cfg, s.core, c, m);
    }
    Close(cfg, ReleaseIn(m, id));
  }

  /** After wake_up no sleeper claims that inactive_list is empty. */
  lemma WokenOk(cfg: Config, c: Core<nat>, d: Core<nat>, m: State)
    requires cfg.Valid() && Tied(m.threads, m.inflight, m.refs)
    requires PcsOk(cfg, c, m.threads) && FlightOk(cfg, c, m.inflight) && HeldStable(c, d, m.refs)
    ensures PcsOk(cfg, d, WakeAll(m.threads)) && FlightOk(cfg, d, m.inflight)
    ensures OneShrinkerEach(m.threads) ==> OneShrinkerEach(WakeAll(m.threads))
  {
    OthersOk(cfg, c, d.(inactive := c.inactive), m);
    forall t | t in WakeAll(m.threads) ensures PcOk(cfg, d, WakeAll(m.threads)[t]) {
      assert PcOk(cfg, c, m.threads[t]);
      assert PcOk(cfg, d.(inactive := c.inactive), m.threads[t]);
    }
  }

  /** Stripe id comes onto the end of one list, and is not on the other. */
  lemma PushClocked(list: seq<nat>, id: nat, released: map<nat, nat>, clock: nat)
    requires Clocked(list, released, clock) && id !in list
    ensures Clocked(list + [id], released[id := clock], clock + 1) && Clocked(list, released[id := clock], clock + 1)
  {
    var after, released' := list + [id], released[id := clock];
    forall i, j | 0 <= i < j < |after| ensures released'[after[i]] < released'[after[j]] {
      assert after[i] == list[i];
      assert list[i] in list;
    }
    forall i, j | 0 <= i < j < |list| ensures released'[list[i]] < released'[list[j]] {
      assert list[i] in list && list[j] in list;
    }
  }

  lemma PutReady(cfg: Config, s: State, t: nat, id: nat)
    requires cfg.Valid() && Inv(cfg, s) && t in s.threads && s.threads[t] == Releasing(id)
    ensures s.refs[id] > 0 && id in s.core.stripes
    ensures var m := Move(s, t, Idle);
            && m.refs == s.refs - multiset{id}
            && Tied(m.threads, m.inflight, m.refs) && OneShrinkerEach(m.threads) && Limbo(m.threads) == Limbo(s.threads)
            && PcsOk(cfg, m.core, m.threads) && FlightOk(cfg, m.core, m.inflight)
  {
    Open(cfg, s);
    HolderCounted(s, t, id);
    MoveTied(s, t, Idle);
    LimboSame(s.threads, t, Idle);
  }

  lemma PutInv(cfg: Config, s: State, t: nat, id: nat)
    requires cfg.Valid() && Inv(cfg, s) && t in s.threads && s.threads[t] == Releasing(id)
    ensures id in s.core.stripes && Inv(cfg, ReleaseIn(Move(s, t, Idle), id))
  {
    PutReady(cfg, s, t, id);
    ReleaseInv(cfg, s, id, Move(s, t, Idle));
  }

  lemma CompleteInv(cfg: Config, s: State, tag: nat)
    requires cfg.Valid() && Inv(cfg, s) && tag in s.inflight
    ensures var id := s.inflight[tag].0;
            && id in s.core.stripes
            && Inv(cfg, ReleaseIn(s.(inflight := s.inflight - {tag}, refs := s.refs - multiset{id}), id))
  {
    Open(cfg, s);
    FlyerCounted(s, tag);
    var id := s.inflight[tag].0;
    var m := s.(inflight := s.inflight - {tag}, refs := s.refs - multiset{id});
    LandTied(s.threads, s.inflight, s.refs, tag);
    ReleaseInv(cfg, s, id, m);
  }

  // ----- The daemon, growing and shrinking

  lemma DaemonInv(cfg: Config, s: State, t: nat)
    requires cfg.Valid() && Inv(cfg, s) && t in s.threads && s.threads[t] == Idle && s.core.handleList != []
    ensures s.core.handleList[0] in s.core.stripes
    ensures Inv(cfg, Move(s, t, Flagging(s.core.handleList[0], cfg.g.disks)).(core := DaemonTake(s.core)))
  {
    Open(cfg, s);
    var id := s.core.handleList[0];
    DaemonTakeKeeps(cfg.g, s.core, s.refs, Limbo(s.threads));
    DaemonStable(s.core, s.refs);
    TailClocked(s.core.handleList, s.released, s.clock);
    assert s.refs - HeldBy(s.threads[t]) + HeldBy(Flagging(id, cfg.g.disks)) == s.refs + multiset{id};
    MoveInv(cfg, s, t, Flagging(id, cfg.g.disks), DaemonTake(s.core));
  }

  lemma GrowInv(cfg: Config, s: State, t: nat, id: nat)
    requires cfg.Valid() && Inv(cfg, s) && t in s.threads && s.threads[t] == Idle && id !in s.core.stripes
    ensures Inv(cfg, Move(s, t, Releasing(id)).(core := GrowOne(cfg.g, s.core, id)))
  {
    Open(cfg, s);
    GrowOneKeeps(cfg.g, s.core, s.refs, Limbo(s.threads), id);
    GrowStable(cfg.g, s.core, s.refs, id);
    assert s.refs - HeldBy(s.threads[t]) + HeldBy(Releasing(id)) == s.refs + multiset{id};
    MoveInv(cfg, s, t, Releasing(id), GrowOne(cfg.g, s.core, id));
  }

  lemma ShrinkTakeInv(cfg: Config, s: State, t: nat)
    requires cfg.Valid() && Inv(cfg, s) && t in s.threads && s.threads[t] == Idle && s.core.inactive != []
    ensures Inv(cfg, Move(s, t, Shrinking(s.core.inactive[0])).(core := TakeFree(s.core)))
  {
    Open(cfg, s);
    var id := s.core.inactive[0];
    TakeFreeKeeps(cfg.g, s.core, s.refs, Limbo(s.threads));
    TakeFreeStable(cfg.g, s.core, s.refs, Limbo(s.threads));
    LimboPlus(s.threads, t, id);
    TailClocked(s.core.inactive, s.released, s.clock);
    FreeMove(cfg, s, t, Shrinking(id), TakeFree(s.core));
  }

  /** A thread without a reference begins or ends its work in shrink_stripes. */
  lemma FreeMove(cfg: Config, s: State, t: nat, pc: Pc, d: Core<nat>)
    requires cfg.Valid() && Tied(s.threads, s.inflight, s.refs) && PcsOk(cfg, s.core, s.threads)
    requires FlightOk(cfg, s.core, s.inflight) && t in s.threads
    requires HeldBy(s.threads[t]) == HeldBy(pc) == multiset{} && (pc.Shrinking? || pc.Idle?)
    requires d.fired == {} && CoreInv(cfg.g, d, s.refs, Limbo(s.threads[t := pc]))
    requires HeldStable(s.core, d, s.refs) && (s.core.inactive == [] ==> d.inactive == [])
    requires OneShrinkerEach(s.threads[t := pc]) && ListsClocked(d, s.released, s.clock)
    ensures Inv(cfg, Move(s, t, pc).(core := d))
  {
    MoveTied(s, t, pc);
    SameHold(s, t, pc);
    OthersOk(cfg, s.core, d, s);
    OneMoreOk(cfg, d, s.threads, t, pc);
    Close(cfg, Move(s, t, pc).(core := d));
  }

  lemma TailClocked(list: seq<nat>, released: map<nat, nat>, clock: nat)
    requires Clocked(list, released, clock) && list != []
    ensures Clocked(list[1..], released, clock)
  {}

  lemma LimboPlus(threads: map<nat, Pc>, t: nat, id: nat)
    requires t in threads && !threads[t].Shrinking? && OneShrinkerEach(threads) && id !in Limbo(threads)
    ensures Limbo(threads[t := Shrinking(id)]) == Limbo(threads) + {id}
    ensures OneShrinkerEach(threads[t := Shrinking(id)])
  {
    var after := threads[t := Shrinking(id)];
    assert after[t].id in Limbo(after);
    forall x | x in Limbo(threads) ensures x in Limbo(after) {
      var u :| u in threads && threads[u].Shrinking? && threads[u].id == x;
      assert after[u] == threads[u];
    }
    forall u | u in threads && threads[u].Shrinking? ensures threads[u].id != id {
      assert threads[u].id in Limbo(threads);
    }
  }

  lemma ShrinkDoneInv(cfg: Config, s: State, t: nat, id: nat)
    requires cfg.Valid() && Inv(cfg, s) && t in s.threads && s.threads[t] == Shrinking(id)
    ensures id in s.core.stripes && Inv(cfg, Move(s, t, Idle).(core := ShrinkFree(s.core, id)))
  {
    Open(cfg, s);
    ShrinkDonePieces(cfg, s, t, id);
    FreeMove(cfg, s, t, Idle, ShrinkFree(s.core, id));
  }

  lemma ShrinkDonePieces(cfg: Config, s: State, t: nat, id: nat)
    requires cfg.Valid() && t in s.threads && s.threads[t] == Shrinking(id) && OneShrinkerEach(s.threads)
    requires CoreInv(cfg.g, s.core, s.refs, Limbo(s.threads))
    ensures id in s.core.stripes
    ensures CoreInv(cfg.g, ShrinkFree(s.core, id), s.refs, Limbo(s.threads[t := Idle]))
    ensures ShrinkFree(s.core, id).fired == s.core.fired && ShrinkFree(s.core, id).inactive == s.core.inactive
    ensures HeldStable(s.core, ShrinkFree(s.core, id), s.refs)
    ensures OneShrinkerEach(s.threads[t := Idle])
  {
    assert id in Limbo(s.threads);
    ShrinkFreeKeeps(cfg.g, s.core, s.refs, Limbo(s.threads), id);
    LimboMinus(s.threads, t);
  }

  lemma LimboMinus(threads: map<nat, Pc>, t: nat)
    requires t in threads && threads[t].Shrinking? && OneShrinkerEach(threads)
    ensures Limbo(threads[t := Idle]) == Limbo(threads) - {threads[t].id}
    ensures OneShrinkerEach(threads[t := Idle])
  {
    var after := threads[t := Idle];
    forall x | x in Limbo(threads) && x != threads[t].id ensures x in Limbo(after) {
      var u :| u in threads && threads[u].Shrinking? && threads[u].id == x;
      assert after[u] == threads[u];
    }
  }

  // ----- Every step

  /** The event is a turn of the loop of get_active_stripe for a sector that is not cached. */
  ghost predicate Misses(cfg: Config, s: State, e: Event)
    requires cfg.Valid()
  {
    && (e.Enter? || e.Resume?) && e.t in s.threads
    && match s.threads[e.t]
       case Entering(req) => e.Enter? && ComputeSector(cfg.g, req.sector).sector !in s.core.hash
       case Asleep(req, woken, _) => e.Resume? && woken && ComputeSector(cfg.g, req.sector).sector !in s.core.hash
       case _ => false
  }

  /** The event asks for an uncached sector while the first free stripe still has requests queued. */
  ghost predicate EvictsBusy(cfg: Config, s: State, e: Event)
    requires cfg.Valid()
  {
    Misses(cfg, s, e) && HeadBusy(s.core)
  }

  /** Every step keeps the invariant, unless it recycles a stripe with requests still queued; then
      the idle-device check at line 497 and nothing else has fired. */
  lemma StepKeeps(cfg: Config, s: State, e: Event)
    requires cfg.Valid() && Inv(cfg, s) && Step(cfg, s, e).Some?
    ensures if EvictsBusy(cfg, s, e) then Step(cfg, s, e).value.core.fired == {497} else Inv(cfg, Step(cfg, s, e).value)
  {
    if e.Complete? {
      CompleteInv(cfg, s, e.tag);
    } else {
      ThreadStepKeeps(cfg, s, e);
    }
  }

  lemma ThreadOk(cfg: Config, s: State, t: nat)
    requires cfg.Valid() && Inv(cfg, s) && t in s.threads
    ensures PcOk(cfg, s.core, s.threads[t])
  {
    Open(cfg, s);
  }

  lemma ThreadStepKeeps(cfg: Config, s: State, e: Event)
    requires cfg.Valid() && Inv(cfg, s) && !e.Complete? && Step(cfg, s, e).Some?
    ensures if EvictsBusy(cfg, s, e) then Step(cfg, s, e).value.core.fired == {497} else Inv(cfg, Step(cfg, s, e).value)
  {
    match (e, s.threads[e.t])
    case (Start(t, req), Idle) => QuietMove(cfg, s, t, Entering(req));
    case (Enter(t), Entering(req)) => BodyInv(cfg, s, t, req, 1);
    case (Resume(t), Asleep(req, true, bodies)) =>
      ThreadOk(cfg, s, t);
      if s.core.inactive == [] {
        QuietMove(cfg, s, t, Asleep(req, false, bodies));
      } else {
        BodyInv(cfg, s, t, req, bodies + 1);
      }
    case (Add(t), Adding(req, id)) => AddInv(cfg, s, t, req, id);
    case (Scan(t), Scanning(id, slot)) => ScanInv(cfg, s, t, id, slot);
    case (Flag(t), Flagging(id, left)) => FlagInv(cfg, s, t, id, left);
    case (Submit(t, tag), Submitting(id, left)) => SubmitInv(cfg, s, t, id, left, tag);
    case (Put(t), Releasing(id)) => PutInv(cfg, s, t, id);
    case (Daemon(t), Idle) => DaemonInv(cfg, s, t);
    case (Grow(t, id), Idle) => GrowInv(cfg, s, t, id);
    case (ShrinkTake(t), Idle) => ShrinkTakeInv(cfg, s, t);
    case (ShrinkDone(t), Shrinking(id)) => ShrinkDoneInv(cfg, s, t, id);
    case (Retire(t, slot), Flagging(id, _)) => RetireInv(cfg, s, t, id, slot);
    case (Retire(t, slot), Submitting(id, _)) => RetireInv(cfg, s, t, id, slot);
    case (Retire(t, slot), Releasing(id)) => RetireInv(cfg, s, t, id, slot);
    case _ =>
  }

  lemma InitInv(cfg: Config, s: State)
    requires cfg.Valid() && Init(s)
    ensures Inv(cfg, s)
  {
    forall id: nat ensures s.refs[id] == |Holders(s.threads, id)| + |Flyers(s.inflight, id)| {
      assert Holders(s.threads, id) == {} && Flyers(s.inflight, id) == {};
    }
    assert Limbo(s.threads) == {};
    Close(cfg, s);
  }
}
