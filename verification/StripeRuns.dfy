/** What holds over every run of the stripe cache. */
module StripeRuns {
  import opened AddressMap
  import Capacity
  import opened RequestChain
  import opened StripeCore
  import opened StripeInvariant
  import opened StripeProtocol
  import opened StripeSafety

  // ----- Safety over whole runs

  lemma StepRuns(cfg: Config, s: State, e: Event)
    requires cfg.Valid() && Step(cfg, s, e).Some?
    ensures s.core.fired == {}
  {}

  lemma OneStep(cfg: Config, s: State, e: Event, s': State)
    requires cfg.Valid() && Inv(cfg, s) && Step(cfg, s, e) == Some(s')
    ensures EvictsBusy(cfg, s, e) ==> s'.core.fired == {497}
    ensures !EvictsBusy(cfg, s, e) ==> Inv(cfg, s') && s'.core.fired == {}
  {
    StepKeeps(cfg, s, e);
    if !EvictsBusy(cfg, s, e) {
      Open(cfg, s');
    }
  }

  /** The invariant holds all along a run, up to an eviction of a busy stripe, which ends the run. */
  lemma {:induction false} RunInv(cfg: Config, ss: seq<State>, es: seq<Event>, k: nat)
    requires cfg.Valid() && Run(cfg, ss, es) && k < |ss|
    ensures k < |es| ==> Inv(cfg, ss[k])
    ensures k == 0 || !EvictsBusy(cfg, ss[k - 1], es[k - 1]) ==> Inv(cfg, ss[k]) && ss[k].core.fired == {}
    ensures 0 < k && EvictsBusy(cfg, ss[k - 1], es[k - 1]) ==> k == |es| && ss[k].core.fired == {497}
  {
    if k == 0 {
      InitInv(cfg, ss[0]);
    } else {
      RunInv(cfg, ss, es, k - 1);
      StepOfRun(cfg, ss, es, k - 1, ss[k]);
    }
  }

  lemma StepOfRun(cfg: Config, ss: seq<State>, es: seq<Event>, j: nat, s': State)
    requires cfg.Valid() && Run(cfg, ss, es) && j < |es| && Inv(cfg, ss[j]) && s' == ss[j + 1]
    ensures EvictsBusy(cfg, ss[j], es[j]) ==> j + 1 == |es| && s'.core.fired == {497}
    ensures !EvictsBusy(cfg, ss[j], es[j]) ==> Inv(cfg, s') && s'.core.fired == {}
  {
    assert StepAt(cfg, ss, es, j);
    OneStep(cfg, ss[j], es[j], s');
    if j + 1 < |es| {
      assert StepAt(cfg, ss, es, j + 1);
      StepRuns(cfg, s', es[j + 1]);
    }
  }

  /** In every state of every run, none of the checks at lines 70, 74, 310, 474, 476, 532, 539 and
      1225 has found its condition; the one at 497 has exactly when some event of the run recycled a
      stripe with requests still queued. */
  lemma OnlyTheIdleCheckFires(cfg: Config, ss: seq<State>, es: seq<Event>)
    requires cfg.Valid() && Run(cfg, ss, es)
    ensures forall k :: 0 <= k < |ss| ==> ss[k].core.fired <= {497}
    ensures ss[|es|].core.fired == {} <==> forall k :: 0 <= k < |es| ==> !EvictsBusy(cfg, ss[k], es[k])
  {
    forall k | 0 <= k < |ss| ensures ss[k].core.fired <= {497} {
      RunInv(cfg, ss, es, k);
    }
    forall k | 0 <= k < |es| ensures EvictsBusy(cfg, ss[k], es[k]) ==> k + 1 == |es| && ss[k + 1].core.fired == {497} {
      RunInv(cfg, ss, es, k + 1);
    }
    RunInv(cfg, ss, es, |es|);
  }

  ghost predicate Reachable(cfg: Config, s: State)
    requires cfg.Valid()
  {
    s.core.fired == {} && exists ss: seq<State>, es: seq<Event> :: Run(cfg, ss, es) && ss[|es|] == s
  }

  lemma ReachableInv(cfg: Config, s: State)
    requires cfg.Valid() && Reachable(cfg, s)
    ensures Inv(cfg, s)
  {
    var ss: seq<State>, es: seq<Event> :| Run(cfg, ss, es) && ss[|es|] == s;
    RunInv(cfg, ss, es, |es|);
  }

  /** The slots of a cached stripe. */
  lemma CachedSlot(cfg: Config, s: State, id: nat, i: nat)
    requires cfg.Valid() && Reachable(cfg, s) && Hashed(s.core, id)
    ensures Placed(cfg.g, s.core.stripes[id])
    ensures i < |s.core.stripes[id].devs| ==> SlotOk(cfg.g, s.core.stripes[id], i)
  {
    ReachableInv(cfg, s);
    Open(cfg, s);
    assert SlotsOk(cfg.g, s.core);
  }

  /** Every live stripe is in exactly one place, and its count is the number of threads that hold it
      plus the number of its bios in flight. A stripe that shrink_stripes has taken off the lists has
      no reference and is in no other place. */
  lemma EveryStripeInOnePlace(cfg: Config, s: State, id: nat)
    requires cfg.Valid() && Reachable(cfg, s) && id in s.core.stripes
    ensures s.core.stripes[id].count == |Holders(s.threads, id)| + |Flyers(s.inflight, id)|
    ensures var sh := s.core.stripes[id];
            var held := sh.count > 0;
            var queued := sh.count == 0 && sh.handle;
            var free := sh.count == 0 && !sh.handle;
            && (id in s.core.handleList <==> queued)
            && (id in s.core.inactive <==> free && id !in Limbo(s.threads))
            && (held ==> id !in Limbo(s.threads))
            && (id in Limbo(s.threads) ==> free && !Hashed(s.core, id))
  {
    ReachableInv(cfg, s);
    Open(cfg, s);
    assert Positioned(s.core, s.refs, Limbo(s.threads), id);
  }

  /** No sector is cached twice, also when the lock was dropped to sleep: two threads that have been
      given a stripe for the same row hold the same one, and it is the one that the table finds. */
  lemma NoSectorTwice(cfg: Config, s: State, t: nat, u: nat)
    requires cfg.Valid() && Reachable(cfg, s) && t in s.threads && u in s.threads
    requires s.threads[t].Adding? && s.threads[u].Adding?
    requires var row := ComputeSector(cfg.g, s.threads[t].req.sector).sector;
             row == ComputeSector(cfg.g, s.threads[u].req.sector).sector
    ensures var row := ComputeSector(cfg.g, s.threads[t].req.sector).sector;
            row in s.core.hash && s.core.hash[row] == s.threads[t].id == s.threads[u].id
  {
    ReachableInv(cfg, s);
    ThreadOk(cfg, s, t);
    ThreadOk(cfg, s, u);
  }

  /** Conservation in every reachable state, also between the two halves of shrink_stripes. */
  lemma ConservationInRuns(cfg: Config, s: State)
    requires cfg.Valid() && Reachable(cfg, s)
    ensures s.core.active + |s.core.inactive| == |s.core.stripes|
    ensures s.core.active == |Held(s.core)| + |s.core.handleList| + |Limbo(s.threads)|
  {
    ReachableInv(cfg, s);
    Open(cfg, s);
    Conservation(cfg.g, s.core, s.refs, Limbo(s.threads));
  }

  // ----- Sleeping

  /** No lost wake-up, and the loop body of get_active_stripe has run once for every sleeper. */
  lemma NoLostWakeUp(cfg: Config, s: State, t: nat)
    requires cfg.Valid() && Reachable(cfg, s) && t in s.threads && s.threads[t].Asleep?
    ensures s.threads[t].bodies == 1
    ensures !s.threads[t].woken ==> s.core.inactive == []
  {
    ReachableInv(cfg, s);
    Open(cfg, s);
    assert PcOk(cfg, s.core, s.threads[t]);
  }

  /** A sleeper that finds a free stripe runs the body a second time and does not sleep again: it is
      served, unless the stripe it is given is busy and check 497 stops the machine. */
  lemma SecondBodyIsLast(cfg: Config, s: State, t: nat)
    requires cfg.Valid() && Reachable(cfg, s) && t in s.threads && s.threads[t].Asleep? && s.threads[t].woken
    ensures Step(cfg, s, Resume(t)).Some?
    ensures s.core.inactive != [] ==> Step(cfg, s, Resume(t)).value.threads[t].Adding?
    ensures s.core.inactive == [] ==> Step(cfg, s, Resume(t)).value.threads[t] == s.threads[t].(woken := false)
    ensures Step(cfg, s, Resume(t)).value.core.fired == if EvictsBusy(cfg, s, Resume(t)) then {497} else {}
  {
    ReachableInv(cfg, s);
    Open(cfg, s);
    BodyOutcome(cfg, s, s.threads[t].req);
    ResumeStepIs(cfg, s, t);
    OneStep(cfg, s, Resume(t), Step(cfg, s, Resume(t)).value);
  }

  /** The outcome of one loop body, for the sector and parity disk that the map computes. */
  lemma BodyOutcome(cfg: Config, s: State, req: Request)
    requires cfg.Valid() && Inv(cfg, s)
    ensures Running(s)
    ensures var p := ComputeSector(cfg.g, req.sector);
            var none := p.sector !in s.core.hash && s.core.inactive == [];
            && (Body(cfg.g, s.core, p.sector, p.parityDisk, req.noblock) == Null <==> none && req.noblock)
            && (Body(cfg.g, s.core, p.sector, p.parityDisk, req.noblock) == MustWait <==> none && !req.noblock)
  {
    Open(cfg, s);
    PlaceInRange(cfg.g, req.sector);
    BodyKeeps(cfg.g, s.core, s.refs, Limbo(s.threads), ComputeSector(cfg.g, req.sector).sector, req.noblock);
  }

  /** get_active_stripe with noblock returns NULL exactly when the sector is uncached and no stripe
      is free; without noblock that is exactly when it sleeps. Otherwise the thread gets a stripe, and
      goes on with it unless that stripe was recycled while busy. */
  lemma NullExactly(cfg: Config, s: State, t: nat)
    requires cfg.Valid() && Reachable(cfg, s) && t in s.threads && s.threads[t].Entering?
    ensures var req := s.threads[t].req;
            var none := ComputeSector(cfg.g, req.sector).sector !in s.core.hash && s.core.inactive == [];
            && Step(cfg, s, Enter(t)).Some?
            && (Step(cfg, s, Enter(t)).value.threads[t] == Idle <==> none && req.noblock)
            && (Step(cfg, s, Enter(t)).value.threads[t] == Asleep(req, false, 1) <==> none && !req.noblock)
            && (Step(cfg, s, Enter(t)).value.threads[t].Adding? <==> !none)
            && Step(cfg, s, Enter(t)).value.core.fired == if EvictsBusy(cfg, s, Enter(t)) then {497} else {}
  {
    ReachableInv(cfg, s);
    Open(cfg, s);
    BodyOutcome(cfg, s, s.threads[t].req);
    EnterStepIs(cfg, s, t);
    OneStep(cfg, s, Enter(t), Step(cfg, s, Enter(t)).value);
  }

  // ----- Eviction

  /** The stripe that get_free_stripe would take has been idle the longest. */
  lemma FirstIsLongestIdle(cfg: Config, s: State, id: nat)
    requires cfg.Valid() && Reachable(cfg, s) && id in s.core.inactive && id != s.core.inactive[0]
    ensures s.core.inactive[0] in s.released && id in s.released
    ensures s.released[s.core.inactive[0]] < s.released[id] < s.clock
  {
    ReachableInv(cfg, s);
    Open(cfg, s);
    var j :| 0 <= j < |s.core.inactive| && s.core.inactive[j] == id;
    assert s.released[s.core.inactive[0]] < s.released[s.core.inactive[j]];
  }

  /** handle_list is a queue: the stripe that jraid5d takes has waited the longest. */
  lemma DaemonTakesOldest(cfg: Config, s: State, t: nat, id: nat)
    requires cfg.Valid() && Reachable(cfg, s) && t in s.threads && s.threads[t] == Idle && id in s.core.handleList
    ensures var first := s.core.handleList[0];
            && first in s.released && id in s.released && s.released[first] <= s.released[id] < s.clock
            && (id != first ==> s.released[first] < s.released[id])
            && Step(cfg, s, Daemon(t)).Some?
            && Step(cfg, s, Daemon(t)).value.threads[t] == Flagging(first, cfg.g.disks)
            && Step(cfg, s, Daemon(t)).value.core.handleList == s.core.handleList[1..]
  {
    ReachableInv(cfg, s);
    Open(cfg, s);
    var j :| 0 <= j < |s.core.handleList| && s.core.handleList[j] == id;
    assert j > 0 ==> s.released[s.core.handleList[0]] < s.released[s.core.handleList[j]];
    DaemonStepIs(cfg, s, t);
  }

  /** shrink_stripes frees the stripe that has been idle the longest, in two steps: it leaves the list
      and the table, and then it is gone. */
  lemma ShrinkFreesOldest(cfg: Config, s: State, t: nat)
    requires cfg.Valid() && Reachable(cfg, s) && t in s.threads && s.threads[t] == Idle && s.core.inactive != []
    ensures Step(cfg, s, ShrinkTake(t)).Some?
    ensures var id, m := s.core.inactive[0], Step(cfg, s, ShrinkTake(t)).value;
            && id in s.core.stripes && m.core.inactive == s.core.inactive[1..] && m.core.stripes == s.core.stripes
            && m.core.hash == s.core.hash - (if Hashed(s.core, id) then {s.core.stripes[id].sector} else {})
            && Step(cfg, m, ShrinkDone(t)).Some?
            && Step(cfg, m, ShrinkDone(t)).value.core ==
               m.core.(stripes := s.core.stripes - {id}, active := s.core.active)
  {
    ReachableInv(cfg, s);
    TableInOrder(cfg, s);
    ShrinkTakeStepIs(cfg, s, t);
    ShrinkTakeInv(cfg, s, t);
    var id, m := s.core.inactive[0], Move(s, t, Shrinking(s.core.inactive[0])).(core := TakeFree(s.core));
    TableInOrder(cfg, m);
    ShrinkDoneInv(cfg, m, t, id);
    ShrinkDoneStepIs(cfg, m, t, id);
    FreedSilently(cfg, m, t, id);
  }

  lemma FreedSilently(cfg: Config, m: State, t: nat, id: nat)
    requires cfg.Valid() && Inv(cfg, m) && t in m.threads && m.threads[t] == Shrinking(id)
    ensures id in m.core.stripes && ShrinkFree(m.core, id).fired == m.core.fired
  {
    Open(cfg, m);
    ShrinkDonePieces(cfg, m, t, id);
  }

  lemma TableInOrder(cfg: Config, s: State)
    requires cfg.Valid() && Inv(cfg, s)
    ensures Running(s) && HashOk(s.core)
  {
    Open(cfg, s);
  }

  /** An uncached sector gets the first free stripe; every sector cached by another stripe stays
      findable, and the table gains exactly the new sector. Check 497 fires exactly if that stripe
      still has requests queued. */
  lemma EvictionLeavesOthers(cfg: Config, s: State, t: nat)
    requires cfg.Valid() && Reachable(cfg, s) && t in s.threads && s.threads[t].Entering?
    requires ComputeSector(cfg.g, s.threads[t].req.sector).sector !in s.core.hash && s.core.inactive != []
    ensures Step(cfg, s, Enter(t)).Some?
    ensures var sector, id := ComputeSector(cfg.g, s.threads[t].req.sector).sector, s.core.inactive[0];
            var c := Step(cfg, s, Enter(t)).value.core;
            && Step(cfg, s, Enter(t)).value.threads[t] == Adding(s.threads[t].req, id)
            && c.fired == (if HeadBusy(s.core) then {497} else {})
            && c.inactive == s.core.inactive[1..]
            && sector in c.hash && c.hash[sector] == id
            && (forall k :: k in s.core.hash && s.core.hash[k] != id ==> k in c.hash && c.hash[k] == s.core.hash[k])
            && (forall k :: k in c.hash && k != sector ==> k in s.core.hash && s.core.hash[k] == c.hash[k] != id)
  {
    ReachableInv(cfg, s);
    TableInOrder(cfg, s);
    EnterStepIs(cfg, s, t);
    PlaceInRange(cfg.g, s.threads[t].req.sector);
    MissLeavesOthers(cfg.g, s.core, ComputeSector(cfg.g, s.threads[t].req.sector).sector, s.threads[t].req.noblock);
    OneStep(cfg, s, Enter(t), Step(cfg, s, Enter(t)).value);
  }

  lemma MissLeavesOthers(g: Geometry, c: Core<nat>, sector: nat, noblock: bool)
    requires g.Valid() && HashOk(c) && (forall id :: id in c.inactive ==> id in c.stripes)
    requires sector !in c.hash && c.inactive != []
    ensures match Body(g, c, sector, ParityOf(g, sector), noblock)
            case Got(id, d) =>
              && id == c.inactive[0] && d.inactive == c.inactive[1..]
              && sector in d.hash && d.hash[sector] == id
              && (forall k :: k in c.hash && c.hash[k] != id ==> k in d.hash && d.hash[k] == c.hash[k])
              && (forall k :: k in d.hash && k != sector ==> k in c.hash && c.hash[k] == d.hash[k] != id)
            case _ => false
  {
    var id := c.inactive[0];
    assert forall k :: k in c.hash && c.hash[k] == id ==> c.stripes[id].sector == k;
  }

  // ----- Requests and parity

  /** Every cached stripe carries the parity disk of its row, nothing is queued on that disk, and no
      bio of the stripe in flight goes to it. */
  lemma ParityLeftAlone(cfg: Config, s: State, id: nat)
    requires cfg.Valid() && Reachable(cfg, s) && Hashed(s.core, id)
    ensures var sh := s.core.stripes[id];
            && sh.pdIdx == ParityOf(cfg.g, sh.sector) < |sh.devs|
            && sh.devs[sh.pdIdx].Idle()
            && !sh.devs[sh.pdIdx].wantRead && !sh.devs[sh.pdIdx].wantWrite
            && forall tag :: tag in s.inflight && s.inflight[tag].0 == id ==> s.inflight[tag].1 != sh.pdIdx
  {
    ReachableInv(cfg, s);
    Open(cfg, s);
    var sh := s.core.stripes[id];
    ParityInRange(cfg.g, Div(sh.sector, cfg.g.sectorsPerChunk));
    CachedSlot(cfg, s, id, sh.pdIdx);
  }

  /** Every request queued on a data slot starts exactly at the slot's sector, as long as the chunk
      number of that sector is below 2^31. */
  lemma RequestsStartAtSlot(cfg: Config, s: State, id: nat, i: nat, b: Extent)
    requires cfg.Valid() && Reachable(cfg, s) && Hashed(s.core, id)
    requires i < |s.core.stripes[id].devs|
    requires b in s.core.stripes[id].devs[i].toread || b in s.core.stripes[id].devs[i].towrite
    requires Div(b.sector, cfg.g.sectorsPerChunk) < TWO_31 && b.sector < TWO_64
    ensures i != s.core.stripes[id].pdIdx
    ensures b.sector == s.core.stripes[id].devs[i].sector
  {
    var g, sh := cfg.g, s.core.stripes[id];
    CachedSlot(cfg, s, id, i);
    assert b.sector == LogicalSector(g, sh.sector, i);
    InverseThenMap(g, sh.sector, i);
    BlocknrOfRequest(g, b.sector);
  }

  /** For the sectors that the array publishes the chunk number is always below 2^31. */
  lemma PublishedRequestsStartAtSlot(cfg: Config, s: State, id: nat, i: nat, b: Extent, size: nat)
    requires cfg.Valid() && Reachable(cfg, s) && Hashed(s.core, id)
    requires i < |s.core.stripes[id].devs|
    requires b in s.core.stripes[id].devs[i].toread || b in s.core.stripes[id].devs[i].towrite
    requires cfg.g.disks <= cfg.g.sectorsPerChunk && cfg.g.disks <= Capacity.MAX_DISKS
    requires size < TWO_32 && b.sector < Capacity.PublishedCapacity(size, cfg.g.disks)
    ensures i != s.core.stripes[id].pdIdx
    ensures b.sector == s.core.stripes[id].devs[i].sector
  {
    Capacity.PublishedChunk(size, cfg.g.disks, cfg.g.sectorsPerChunk, b.sector);
    RequestsStartAtSlot(cfg, s, id, i, b);
  }

  /** The chain that a request joins: the one of its slot and direction. */
  function ChainFor(g: Geometry, sh: Stripe, req: Request): seq<Extent>
    requires g.Valid() && ComputeSector(g, req.sector).dataDisk < |sh.devs|
  {
    var d := sh.devs[ComputeSector(g, req.sector).dataDisk];
    if req.write then d.towrite else d.toread
  }

  /** A request is refused exactly when its chain is not empty and the request is not. Then the step
      leaves the cache as it is; otherwise the request joins the chain. */
  lemma AddRefusedExactly(cfg: Config, s: State, t: nat, req: Request, id: nat)
    requires cfg.Valid() && Reachable(cfg, s) && t in s.threads && s.threads[t] == Adding(req, id)
    ensures id in s.core.stripes && ComputeSector(cfg.g, req.sector).dataDisk < |s.core.stripes[id].devs|
    ensures var chain := ChainFor(cfg.g, s.core.stripes[id], req);
            && (Insert(chain, Extent(req.sector, req.len)) == None <==> chain != [] && req.len > 0)
            && Step(cfg, s, Add(t)).Some?
            && var s' := Step(cfg, s, Add(t)).value;
               if chain != [] && req.len > 0 then s' == Move(s, t, Flagging(id, cfg.g.disks))
               else
                 && id in s'.core.stripes && |s'.core.stripes[id].devs| == |s.core.stripes[id].devs|
                 && multiset(ChainFor(cfg.g, s'.core.stripes[id], req)) ==
                    multiset(chain) + multiset{Extent(req.sector, req.len)}
  {
    ReachableInv(cfg, s);
    TableInOrder(cfg, s);
    AddFacts(cfg, s, t, req, id);
    JoinRefusedExactly(cfg.g, s.core.stripes[id], req);
    AddStepIs(cfg, s, t, req, id);
    AddJoins(cfg, s, t, req, id);
  }

  lemma AddJoins(cfg: Config, s: State, t: nat, req: Request, id: nat)
    requires cfg.Valid() && t in s.threads && id in s.core.stripes
    requires ComputeSector(cfg.g, req.sector).dataDisk < |s.core.stripes[id].devs|
    requires SortedDisjoint(ChainFor(cfg.g, s.core.stripes[id], req))
    ensures AddStep(cfg, s, t, req, id).Some?
    ensures var b, chain := Extent(req.sector, req.len), ChainFor(cfg.g, s.core.stripes[id], req);
            var s' := AddStep(cfg, s, t, req, id).value;
            if Insert(chain, b) == None then s' == Move(s, t, Flagging(id, cfg.g.disks))
            else
              && id in s'.core.stripes && |s'.core.stripes[id].devs| == |s.core.stripes[id].devs|
              && multiset(ChainFor(cfg.g, s'.core.stripes[id], req)) == multiset(chain) + multiset{b}
  {
    var b, chain := Extent(req.sector, req.len), ChainFor(cfg.g, s.core.stripes[id], req);
    if Insert(chain, b).Some? {
      InsertKeeps(chain, b);
    }
  }

  lemma JoinRefusedExactly(g: Geometry, sh: Stripe, req: Request)
    requires g.Valid() && Placed(g, sh) && sh.sector == ComputeSector(g, req.sector).sector
    ensures ComputeSector(g, req.sector).dataDisk < |sh.devs|
    ensures SortedDisjoint(ChainFor(g, sh, req))
    ensures Insert(ChainFor(g, sh, req), Extent(req.sector, req.len)) == None <==>
            ChainFor(g, sh, req) != [] && req.len > 0
  {
    PlaceInRange(g, req.sector);
    MapThenInverse(g, req.sector);
    var dd := ComputeSector(g, req.sector).dataDisk;
    assert SlotOk(g, sh, dd);
    assert Seat(ChainFor(g, sh, req), req.sector, 0) == 0;
  }

  /** It follows that a chain never holds two non-empty requests. */
  lemma OneRequestPerChain(cfg: Config, s: State, id: nat, i: nat, a: nat, b: nat)
    requires cfg.Valid() && Reachable(cfg, s) && Hashed(s.core, id)
    requires i < |s.core.stripes[id].devs|
    ensures var d := s.core.stripes[id].devs[i];
            && (a < b < |d.toread| ==> d.toread[a].len == 0)
            && (a < b < |d.towrite| ==> d.towrite[a].len == 0)
  {
    CachedSlot(cfg, s, id, i);
    if a < b {
      SlotChains(cfg.g, s.core.stripes[id], i, a, b);
    }
  }

  lemma SlotChains(g: Geometry, sh: Stripe, i: nat, a: nat, b: nat)
    requires g.Valid() && i < |sh.devs| <= g.disks && SlotOk(g, sh, i) && a < b
    ensures b < |sh.devs[i].toread| ==> sh.devs[i].toread[a].len == 0
    ensures b < |sh.devs[i].towrite| ==> sh.devs[i].towrite[a].len == 0
  {
    var d := sh.devs[i];
    assert b < |d.toread| ==> d.toread[a].End() <= d.toread[b].sector;
    assert b < |d.towrite| ==> d.towrite[a].End() <= d.towrite[b].sector;
  }

  /** R5_OVERWRITE is only ever set on a slot whose write chain covers the whole page. */
  lemma OverwriteMeansCovered(cfg: Config, s: State, id: nat, i: nat)
    requires cfg.Valid() && Reachable(cfg, s) && Hashed(s.core, id)
    requires i < |s.core.stripes[id].devs| && i != s.core.stripes[id].pdIdx && s.core.stripes[id].devs[i].overwrite
    ensures Covers(s.core.stripes[id].devs[i].towrite, s.core.stripes[id].devs[i].sector)
  {
    CachedSlot(cfg, s, id, i);
  }

  // ----- Progress

  /** The step that a thread takes by itself; tag names the bio it may submit. */
  function NextEvent(t: nat, pc: Pc, tag: nat): Option<Event> {
    match pc
    case Idle => None
    case Entering(_) => Some(Enter(t))
    case Asleep(_, woken, _) => if woken then Some(Resume(t)) else None
    case Adding(_, _) => Some(Add(t))
    case Scanning(_, _) => Some(Scan(t))
    case Flagging(_, _) => Some(Flag(t))
    case Submitting(_, _) => Some(Submit(t, tag))
    case Releasing(_) => Some(Put(t))
    case Shrinking(_) => Some(ShrinkDone(t))
  }

  /** No thread is stuck: outside Idle and unwoken sleep, its own next step is always possible. */
  lemma NeverStuck(cfg: Config, s: State, t: nat, tag: nat)
    requires cfg.Valid() && Reachable(cfg, s) && t in s.threads && tag !in s.inflight
    requires NextEvent(t, s.threads[t], tag).Some?
    ensures Step(cfg, s, NextEvent(t, s.threads[t], tag).value).Some?
  {
    ReachableInv(cfg, s);
    Open(cfg, s);
    if HeldBy(s.threads[t]) != multiset{} {
      var id :| HeldBy(s.threads[t]) == multiset{id};
      HeldLive(cfg, s, t, id);
      HolderMoves(cfg, s, t, id, tag);
    } else {
      if s.threads[t].Shrinking? {
        assert s.threads[t].id in Limbo(s.threads);
      }
      FreeThreadMoves(cfg, s, t, tag);
    }
  }

  lemma HolderMoves(cfg: Config, s: State, t: nat, id: nat, tag: nat)
    requires cfg.Valid() && Running(s) && t in s.threads && tag !in s.inflight
    requires HeldBy(s.threads[t]) == multiset{id} && id in s.core.stripes
    requires |s.core.stripes[id].devs| == cfg.g.disks && PcOk(cfg, s.core, s.threads[t])
    ensures NextEvent(t, s.threads[t], tag).Some? && Step(cfg, s, NextEvent(t, s.threads[t], tag).value).Some?
  {
    assert id in HeldBy(s.threads[t]);
    if s.threads[t].Adding? {
      PlaceInRange(cfg.g, s.threads[t].req.sector);
    }
  }

  lemma FreeThreadMoves(cfg: Config, s: State, t: nat, tag: nat)
    requires cfg.Valid() && Running(s) && t in s.threads && HeldBy(s.threads[t]) == multiset{}
    requires s.threads[t].Shrinking? ==> s.threads[t].id in s.core.stripes
    requires NextEvent(t, s.threads[t], tag).Some?
    ensures Step(cfg, s, NextEvent(t, s.threads[t], tag).value).Some?
  {}

  lemma FlightLives(cfg: Config, s: State, tag: nat)
    requires cfg.Valid() && Inv(cfg, s) && tag in s.inflight
    ensures s.inflight[tag].0 in s.core.stripes
  {
    Open(cfg, s);
  }

  /** A completion is possible for every bio in flight: its stripe is still there. */
  lemma CompletionsLand(cfg: Config, s: State, tag: nat)
    requires cfg.Valid() && Reachable(cfg, s) && tag in s.inflight
    ensures Step(cfg, s, Complete(tag)).Some?
    ensures s.core.stripes[s.inflight[tag].0].count > 0
  {
    ReachableInv(cfg, s);
    Open(cfg, s);
    FlyerCounted(s, tag);
    ReferencedIsActive(cfg.g, s.core, s.refs, Limbo(s.threads), s.inflight[tag].0);
  }

  // ----- Between submission and completion

  /** From s to m no referenced stripe changes its row and no bio in flight is redirected. */
  ghost predicate Undisturbed(s: State, m: State) {
    && HeldStable(s.core, m.core, s.refs)
    && forall tag :: tag in s.inflight && tag in m.inflight ==> m.inflight[tag] == s.inflight[tag]
  }

  lemma AdvanceUndisturbed(s: State, t: nat, pc: Pc, id: nat, i: nat, d: Dev)
    requires t in s.threads && id in s.core.stripes && i < |s.core.stripes[id].devs|
    ensures Undisturbed(s, Advance(s, t, pc, id, i, d))
  {
    CountsStable(s.core, Advance(s, t, pc, id, i, d).core, s.refs);
  }

  lemma AddUndisturbed(cfg: Config, s: State, t: nat, req: Request, id: nat)
    requires cfg.Valid() && t in s.threads && AddStep(cfg, s, t, req, id).Some?
    ensures Undisturbed(s, AddStep(cfg, s, t, req, id).value)
  {
    CountsStable(s.core, AddStep(cfg, s, t, req, id).value.core, s.refs);
  }

  lemma SubmitUndisturbed(cfg: Config, s: State, t: nat, id: nat, left: nat, tag: nat)
    requires t in s.threads && SubmitStep(cfg, s, t, id, left, tag).Some?
    ensures Undisturbed(s, SubmitStep(cfg, s, t, id, left, tag).value)
  {
    if left > 0 && (s.core.stripes[id].devs[left - 1].wantWrite || s.core.stripes[id].devs[left - 1].wantRead) {
      var d := s.core.stripes[id].devs[left - 1];
      var cleared := Advance(s, t, Submitting(id, left - 1), id, left - 1,
                             if d.wantWrite then d.(wantWrite := false) else d.(wantRead := false));
      MarkUndisturbed(s, cleared, id, left - 1, tag);
      assert SubmitStep(cfg, s, t, id, left, tag).value ==
             if !cfg.present[left - 1] then cleared.(core := SetHandle(cleared.core, id))
             else Launch(cleared, id, left - 1, tag);
    } else {
      assert SubmitStep(cfg, s, t, id, left, tag).value.core == s.core;
      assert SubmitStep(cfg, s, t, id, left, tag).value.inflight == s.inflight;
    }
  }

  /** Once slot i has been cleared. */
  lemma MarkUndisturbed(s: State, m: State, id: nat, i: nat, tag: nat)
    requires id in s.core.stripes && i < |s.core.stripes[id].devs| && m.inflight == s.inflight
    requires exists d :: m.core == SetDev(s.core, id, i, d)
    ensures Undisturbed(s, m.(core := SetHandle(m.core, id)))
    ensures tag !in s.inflight ==> Undisturbed(s, Launch(m, id, i, tag))
  {
    CountsStable(s.core, SetHandle(m.core, id), s.refs);
    CountsStable(s.core, Grab(m.core, id), s.refs);
  }

  lemma LoopStepUndisturbed(cfg: Config, s: State, e: Event)
    requires cfg.Valid() && Running(s) && Step(cfg, s, e).Some? && (e.Add? || e.Submit?)
    ensures Undisturbed(s, Step(cfg, s, e).value)
  {
    var t, pc := e.t, s.threads[e.t];
    if e.Add? {
      AddStepIs(cfg, s, t, pc.req, pc.id);
      AddUndisturbed(cfg, s, t, pc.req, pc.id);
    } else {
      SubmitStepIs(cfg, s, t, e.tag, pc.id, pc.left);
      SubmitUndisturbed(cfg, s, t, pc.id, pc.left, e.tag);
    }
  }

  lemma FlagUndisturbed(cfg: Config, s: State, t: nat, id: nat, left: nat)
    requires t in s.threads && FlagStep(cfg, s, t, id, left).Some?
    ensures Undisturbed(s, FlagStep(cfg, s, t, id, left).value)
  {
    CountsStable(s.core, FlagStep(cfg, s, t, id, left).value.core, s.refs);
  }

  lemma SlotStepUndisturbed(cfg: Config, s: State, e: Event)
    requires cfg.Valid() && Running(s) && Step(cfg, s, e).Some? && (e.Start? || e.Scan? || e.Flag? || e.Retire?)
    ensures Undisturbed(s, Step(cfg, s, e).value)
  {
    var t, pc := e.t, s.threads[e.t];
    match e
    case Start(_, req) => StartStepIs(cfg, s, t, req);
    case Scan(_) =>
      ScanStepIs(cfg, s, t, pc.id, pc.slot);
      var d := s.core.stripes[pc.id].devs[pc.slot];
      AdvanceUndisturbed(s, t, Flagging(pc.id, cfg.g.disks), pc.id, pc.slot,
                         if Covers(d.towrite, d.sector) then d.(overwrite := true) else d);
    case Flag(_) =>
      FlagStepIs(cfg, s, t, pc.id, pc.left);
      FlagUndisturbed(cfg, s, t, pc.id, pc.left);
    case Retire(_, slot) =>
      RetireStepIs(cfg, s, t, slot);
      var d := s.core.stripes[pc.id].devs[slot].(toread := [], towrite := [], overwrite := false);
      AdvanceUndisturbed(s, t, pc, pc.id, slot, d);
  }

  lemma PutUndisturbed(cfg: Config, s: State, t: nat)
    requires cfg.Valid() && Running(s) && Step(cfg, s, Put(t)).Some?
    ensures Undisturbed(s, Step(cfg, s, Put(t)).value)
  {
    PutStepIs(cfg, s, t, s.threads[t].id);
    ReleaseStable(s.core, s.refs, s.threads[t].id);
  }

  lemma CompleteUndisturbed(cfg: Config, s: State, tag: nat)
    requires cfg.Valid() && Running(s) && Step(cfg, s, Complete(tag)).Some?
    ensures Undisturbed(s, Step(cfg, s, Complete(tag)).value)
  {
    CompleteStepIs(cfg, s, tag);
    ReleaseStable(s.core, s.refs, s.inflight[tag].0);
  }

  lemma BodyUndisturbed(cfg: Config, s: State, e: Event)
    requires cfg.Valid() && Inv(cfg, s) && Step(cfg, s, e).Some? && (e.Enter? || e.Resume?)
    ensures Undisturbed(s, Step(cfg, s, e).value)
  {
    var req := s.threads[e.t].req;
    PlaceInRange(cfg.g, req.sector);
    GotStable(cfg, s, ComputeSector(cfg.g, req.sector).sector, req.noblock);
    if e.Enter? {
      EnterStepIs(cfg, s, e.t);
    } else {
      ResumeStepIs(cfg, s, e.t);
    }
  }

  lemma PoolStepUndisturbed(cfg: Config, s: State, e: Event)
    requires cfg.Valid() && Inv(cfg, s) && Step(cfg, s, e).Some?
    requires e.Daemon? || e.Grow? || e.ShrinkTake? || e.ShrinkDone?
    ensures Undisturbed(s, Step(cfg, s, e).value)
  {
    match e
    case Daemon(t) =>
      DaemonStepIs(cfg, s, t);
      DaemonStable(s.core, s.refs);
    case Grow(t, id) =>
      GrowStepIs(cfg, s, t, id);
      GrowStable(cfg.g, s.core, s.refs, id);
    case ShrinkTake(t) =>
      ShrinkTakeStepIs(cfg, s, t);
      TakenStable(cfg, s);
    case ShrinkDone(t) =>
      FreedStable(cfg, s, t, s.threads[t].id);
      ShrinkDoneStepIs(cfg, s, t, s.threads[t].id);
  }

  lemma TakenStable(cfg: Config, s: State)
    requires cfg.Valid() && Inv(cfg, s) && s.core.inactive != []
    ensures HeldStable(s.core, TakeFree(s.core), s.refs)
  {
    Open(cfg, s);
    TakeFreeStable(cfg.g, s.core, s.refs, Limbo(s.threads));
  }

  lemma FreedStable(cfg: Config, s: State, t: nat, id: nat)
    requires cfg.Valid() && Inv(cfg, s) && t in s.threads && s.threads[t] == Shrinking(id)
    ensures id in s.core.stripes && HeldStable(s.core, ShrinkFree(s.core, id), s.refs)
  {
    Open(cfg, s);
    ShrinkDonePieces(cfg, s, t, id);
  }

  lemma StepUndisturbed(cfg: Config, s: State, e: Event)
    requires cfg.Valid() && Inv(cfg, s) && Step(cfg, s, e).Some?
    ensures Undisturbed(s, Step(cfg, s, e).value)
  {
    if e.Enter? || e.Resume? {
      BodyUndisturbed(cfg, s, e);
    } else if e.Add? || e.Submit? {
      LoopStepUndisturbed(cfg, s, e);
    } else if e.Put? {
      PutUndisturbed(cfg, s, e.t);
    } else if e.Complete? {
      CompleteUndisturbed(cfg, s, e.tag);
    } else if e.Start? || e.Scan? || e.Flag? || e.Retire? {
      SlotStepUndisturbed(cfg, s, e);
    } else {
      PoolStepUndisturbed(cfg, s, e);
    }
  }

  lemma RunUndisturbed(cfg: Config, ss: seq<State>, es: seq<Event>, k: nat)
    requires cfg.Valid() && Run(cfg, ss, es) && k < |es|
    ensures Undisturbed(ss[k], ss[k + 1])
  {
    RunInv(cfg, ss, es, k);
    assert StepAt(cfg, ss, es, k);
    StepUndisturbed(cfg, ss[k], es[k]);
  }

  /** While it is referenced without a break, from state i to state j of a run, a stripe keeps its
      sector, its parity disk and its place in the table. */
  lemma {:induction false} ReferencedKeepsRow(cfg: Config, ss: seq<State>, es: seq<Event>, i: nat, j: nat, id: nat)
    requires cfg.Valid() && Run(cfg, ss, es) && i <= j < |ss|
    requires id in ss[i].core.stripes && forall k :: i <= k < j ==> ss[k].refs[id] > 0
    ensures id in ss[j].core.stripes
    ensures ss[j].core.stripes[id].sector == ss[i].core.stripes[id].sector
    ensures ss[j].core.stripes[id].pdIdx == ss[i].core.stripes[id].pdIdx
    ensures Hashed(ss[i].core, id) ==> Hashed(ss[j].core, id)
  {
    if i < j {
      ReferencedKeepsRow(cfg, ss, es, i, j - 1, id);
      RunUndisturbed(cfg, ss, es, j - 1);
      assert ss[j - 1].refs[id] > 0;
      assert id in ss[j - 1].refs;
    }
  }

  /** From its submission to its completion a bio goes to the same slot of the same stripe, and that
      stripe keeps its sector and its parity disk, which is never the slot of the bio. */
  lemma {:induction false} BioKeepsRow(cfg: Config, ss: seq<State>, es: seq<Event>, i: nat, j: nat, tag: nat)
    requires cfg.Valid() && Run(cfg, ss, es) && i < j < |ss|
    requires forall k :: i <= k <= j ==> tag in ss[k].inflight
    ensures ss[j].inflight[tag] == ss[i].inflight[tag]
    ensures var (id, slot) := ss[i].inflight[tag];
            && id in ss[i].core.stripes && id in ss[j].core.stripes
            && ss[j].core.stripes[id].sector == ss[i].core.stripes[id].sector
            && ss[j].core.stripes[id].pdIdx == ss[i].core.stripes[id].pdIdx != slot
  {
    var id := ss[i].inflight[tag].0;
    forall k | i <= k <= j ensures ss[k].inflight[tag] == ss[i].inflight[tag] {
      BioKeepsPlace(cfg, ss, es, i, k, tag);
    }
    forall k | i <= k < j ensures ss[k].refs[id] > 0 {
      RunInv(cfg, ss, es, k);
      Open(cfg, ss[k]);
      FlyerCounted(ss[k], tag);
    }
    RunInv(cfg, ss, es, i);
    Open(cfg, ss[i]);
    ReferencedKeepsRow(cfg, ss, es, i, j, id);
  }

  lemma {:induction false} BioKeepsPlace(cfg: Config, ss: seq<State>, es: seq<Event>, i: nat, j: nat, tag: nat)
    requires cfg.Valid() && Run(cfg, ss, es) && i <= j < |ss|
    requires forall k :: i <= k <= j ==> tag in ss[k].inflight
    ensures ss[j].inflight[tag] == ss[i].inflight[tag]
  {
    if i < j {
      BioKeepsPlace(cfg, ss, es, i, j - 1, tag);
      RunUndisturbed(cfg, ss, es, j - 1);
    }
  }
}
