/** What becomes of a queued request: an insertion touches one chain and nothing else, a request stays
    queued until it is retired, and R5_OVERWRITE is set on exactly the slots whose writes cover the
    page, up to the scan that is about to set it. */
module StripeQueues {
  import opened AddressMap
  import opened RequestChain
  import opened StripeCore
  import opened StripeInvariant
  import opened StripeProtocol
  import opened StripeSafety
  import opened StripeRuns

  // ----- One insertion

  /** Slot i of stripe x after the insertion of a request into stripe id: the chain of the request's own
      slot and direction may have changed, and nothing else. */
  ghost predicate OnlyJoined(g: Geometry, before: Dev, after: Dev, req: Request, own: bool)
    requires g.Valid()
  {
    after == before.(toread := if own && !req.write then after.toread else before.toread,
                     towrite := if own && req.write then after.towrite else before.towrite)
  }

  /** __add_stripe_bio leaves alone the other direction of its slot, the other slots, the other stripes,
      the table and the lists. */
  lemma AddLeavesOthers(cfg: Config, s: State, t: nat, req: Request, id: nat, x: nat, i: nat)
    requires cfg.Valid() && Reachable(cfg, s) && t in s.threads && s.threads[t] == Adding(req, id)
    requires x in s.core.stripes && i < |s.core.stripes[x].devs|
    ensures Step(cfg, s, Add(t)).Some?
    ensures var c := Step(cfg, s, Add(t)).value.core;
            var own := x == id && i == ComputeSector(cfg.g, req.sector).dataDisk;
            && c.stripes.Keys == s.core.stripes.Keys
            && c.stripes[x] == s.core.stripes[x].(devs := c.stripes[x].devs)
            && |c.stripes[x].devs| == |s.core.stripes[x].devs|
            && OnlyJoined(cfg.g, s.core.stripes[x].devs[i], c.stripes[x].devs[i], req, own)
            && c == s.core.(stripes := c.stripes)
  {
    ReachableInv(cfg, s);
    TableInOrder(cfg, s);
    AddFacts(cfg, s, t, req, id);
    AddStepIs(cfg, s, t, req, id);
    AddOnlyJoins(cfg, s, t, req, id, x, i);
  }

  lemma AddOnlyJoins(cfg: Config, s: State, t: nat, req: Request, id: nat, x: nat, i: nat)
    requires cfg.Valid() && t in s.threads && x in s.core.stripes && i < |s.core.stripes[x].devs|
    requires id in s.core.stripes && ComputeSector(cfg.g, req.sector).dataDisk < |s.core.stripes[id].devs|
    ensures AddStep(cfg, s, t, req, id).Some?
    ensures var c := AddStep(cfg, s, t, req, id).value.core;
            var own := x == id && i == ComputeSector(cfg.g, req.sector).dataDisk;
            && c.stripes.Keys == s.core.stripes.Keys
            && c.stripes[x] == s.core.stripes[x].(devs := c.stripes[x].devs)
            && |c.stripes[x].devs| == |s.core.stripes[x].devs|
            && OnlyJoined(cfg.g, s.core.stripes[x].devs[i], c.stripes[x].devs[i], req, own)
            && c == s.core.(stripes := c.stripes)
  {}

  // ----- What a step keeps of the slots

  /** Same queues and same sector, and the flag at least where it was. */
  ghost predicate SlotKept(a: Dev, b: Dev) {
    b.toread == a.toread && b.towrite == a.towrite && b.sector == a.sector && (a.overwrite ==> b.overwrite)
  }

  ghost predicate SlotsKept(c: Core<nat>, d: Core<nat>, id: nat) {
    && id in c.stripes && id in d.stripes && |d.stripes[id].devs| == |c.stripes[id].devs|
    && forall i :: 0 <= i < |c.stripes[id].devs| ==> SlotKept(c.stripes[id].devs[i], d.stripes[id].devs[i])
  }

  ghost predicate AllKept(c: Core<nat>, d: Core<nat>) {
    forall id :: id in d.stripes ==> SlotsKept(c, d, id)
  }

  lemma SameDevs(c: Core<nat>, d: Core<nat>)
    requires forall id :: id in d.stripes ==> id in c.stripes && d.stripes[id].devs == c.stripes[id].devs
    ensures AllKept(c, d)
  {}

  lemma SetDevKept(c: Core<nat>, id: nat, i: nat, b: Dev)
    requires id in c.stripes && i < |c.stripes[id].devs| && SlotKept(c.stripes[id].devs[i], b)
    ensures AllKept(c, SetDev(c, id, i, b))
  {}

  lemma KeptTwice(c: Core<nat>, d: Core<nat>, e: Core<nat>)
    requires AllKept(c, d) && AllKept(d, e)
    ensures AllKept(c, e)
  {
    forall id | id in e.stripes ensures SlotsKept(c, e, id) {
      assert SlotsKept(c, d, id) && SlotsKept(d, e, id);
    }
  }

  lemma FlagKept(cfg: Config, s: State, t: nat, id: nat, left: nat)
    requires t in s.threads && FlagStep(cfg, s, t, id, left).Some?
    ensures AllKept(s.core, FlagStep(cfg, s, t, id, left).value.core)
  {
    if left > 0 {
      var d := s.core.stripes[id].devs[left - 1];
      SetDevKept(s.core, id, left - 1,
                 d.(wantRead := d.wantRead || d.toread != [], wantWrite := d.wantWrite || d.towrite != []));
    } else {
      SameDevs(s.core, s.core);
    }
  }

  lemma SubmitKept(cfg: Config, s: State, t: nat, id: nat, left: nat, tag: nat)
    requires t in s.threads && SubmitStep(cfg, s, t, id, left, tag).Some?
    ensures AllKept(s.core, SubmitStep(cfg, s, t, id, left, tag).value.core)
  {
    var s' := SubmitStep(cfg, s, t, id, left, tag).value;
    if left > 0 && (s.core.stripes[id].devs[left - 1].wantWrite || s.core.stripes[id].devs[left - 1].wantRead) {
      var d := s.core.stripes[id].devs[left - 1];
      var d' := if d.wantWrite then d.(wantWrite := false) else d.(wantRead := false);
      var c := SetDev(s.core, id, left - 1, d');
      SetDevKept(s.core, id, left - 1, d');
      assert s'.core == if cfg.present[left - 1] then Grab(c, id) else SetHandle(c, id);
      SameDevs(c, s'.core);
      KeptTwice(s.core, c, s'.core);
    } else {
      assert s'.core == s.core;
      SameDevs(s.core, s.core);
    }
  }

  lemma ScanKept(cfg: Config, s: State, t: nat, id: nat, slot: nat)
    requires cfg.Valid() && t in s.threads && ScanStep(cfg, s, t, id, slot).Some?
    ensures AllKept(s.core, ScanStep(cfg, s, t, id, slot).value.core)
  {
    var d := s.core.stripes[id].devs[slot];
    SetDevKept(s.core, id, slot, if Covers(d.towrite, d.sector) then d.(overwrite := true) else d);
  }

  lemma LoopStepKept(cfg: Config, s: State, e: Event)
    requires cfg.Valid() && Running(s) && Step(cfg, s, e).Some? && (e.Start? || e.Scan? || e.Flag? || e.Submit?)
    ensures AllKept(s.core, Step(cfg, s, e).value.core)
  {
    var t, pc := e.t, s.threads[e.t];
    match e
    case Start(_, req) =>
      StartStepIs(cfg, s, t, req);
      SameDevs(s.core, s.core);
    case Scan(_) =>
      ScanStepIs(cfg, s, t, pc.id, pc.slot);
      ScanKept(cfg, s, t, pc.id, pc.slot);
    case Flag(_) =>
      FlagStepIs(cfg, s, t, pc.id, pc.left);
      FlagKept(cfg, s, t, pc.id, pc.left);
    case Submit(_, tag) =>
      SubmitStepIs(cfg, s, t, tag, pc.id, pc.left);
      SubmitKept(cfg, s, t, pc.id, pc.left, tag);
  }

  lemma ReleaseKept(m: State, id: nat)
    requires id in m.core.stripes
    ensures AllKept(m.core, ReleaseIn(m, id).core)
  {
    SameDevs(m.core, ReleaseIn(m, id).core);
  }

  lemma ReleaseStepKept(cfg: Config, s: State, e: Event)
    requires cfg.Valid() && Running(s) && Step(cfg, s, e).Some? && (e.Put? || e.Complete?)
    ensures AllKept(s.core, Step(cfg, s, e).value.core)
  {
    match e
    case Put(t) =>
      PutStepIs(cfg, s, t, s.threads[t].id);
      ReleaseKept(Move(s, t, Idle), s.threads[t].id);
    case Complete(tag) =>
      var id := s.inflight[tag].0;
      CompleteStepIs(cfg, s, tag);
      ReleaseKept(s.(inflight := s.inflight - {tag}, refs := s.refs - multiset{id}), id);
  }

  lemma PoolStepKept(cfg: Config, s: State, e: Event)
    requires cfg.Valid() && Running(s) && Step(cfg, s, e).Some? && (e.Daemon? || e.ShrinkTake? || e.ShrinkDone?)
    ensures AllKept(s.core, Step(cfg, s, e).value.core)
  {
    match e
    case Daemon(t) =>
      DaemonStepIs(cfg, s, t);
      SameDevs(s.core, DaemonTake(s.core));
    case ShrinkTake(t) =>
      ShrinkTakeStepIs(cfg, s, t);
      SameDevs(s.core, TakeFree(s.core));
    case ShrinkDone(t) =>
      ShrinkDoneStepIs(cfg, s, t, s.threads[t].id);
      SameDevs(s.core, ShrinkFree(s.core, s.threads[t].id));
  }

  /** Every step but an insertion, a retirement, a new stripe and a turn of get_active_stripe. */
  lemma PlainStepKept(cfg: Config, s: State, e: Event)
    requires cfg.Valid() && Running(s) && Step(cfg, s, e).Some?
    requires !e.Add? && !e.Retire? && !e.Grow? && !e.Enter? && !e.Resume?
    ensures AllKept(s.core, Step(cfg, s, e).value.core)
  {
    if e.Put? || e.Complete? {
      ReleaseStepKept(cfg, s, e);
    } else if e.Daemon? || e.ShrinkTake? || e.ShrinkDone? {
      PoolStepKept(cfg, s, e);
    } else {
      LoopStepKept(cfg, s, e);
    }
  }

  /** A recycled stripe keeps its queues; the other stripes keep their slots. */
  lemma BodyKept(g: Geometry, c: Core<nat>, sector: nat, pd: nat, noblock: bool)
    requires g.Valid() && (forall k :: k in c.hash ==> c.hash[k] in c.stripes)
    requires forall id :: id in c.inactive ==> id in c.stripes
    ensures match Body(g, c, sector, pd, noblock)
            case Got(id, d) =>
              && d.stripes.Keys == c.stripes.Keys
              && (forall x :: x in c.stripes && (x != id || sector in c.hash) ==> SlotsKept(c, d, x))
              && |d.stripes[id].devs| == |c.stripes[id].devs|
              && forall i :: 0 <= i < |c.stripes[id].devs| ==>
                   && d.stripes[id].devs[i].toread == c.stripes[id].devs[i].toread
                   && d.stripes[id].devs[i].towrite == c.stripes[id].devs[i].towrite
            case _ => true
  {
    if sector in c.hash {
      SameDevs(c, Body(g, c, sector, pd, noblock).core);
    } else if c.inactive != [] {
      assert TakeFree(c).stripes == c.stripes;
    }
  }

  // ----- Queued requests stay

  ghost predicate QueueGrows(a: Dev, b: Dev) {
    multiset(a.toread) <= multiset(b.toread) && multiset(a.towrite) <= multiset(b.towrite)
  }

  ghost predicate QueuesGrow(c: Core<nat>, d: Core<nat>, id: nat)
    requires id in c.stripes && id in d.stripes
  {
    && |d.stripes[id].devs| == |c.stripes[id].devs|
    && forall i :: 0 <= i < |c.stripes[id].devs| ==> QueueGrows(c.stripes[id].devs[i], d.stripes[id].devs[i])
  }

  lemma GrowTwice(c: Core<nat>, d: Core<nat>, e: Core<nat>, id: nat)
    requires id in c.stripes && id in d.stripes && id in e.stripes && QueuesGrow(c, d, id) && QueuesGrow(d, e, id)
    ensures QueuesGrow(c, e, id)
  {
    forall i | 0 <= i < |c.stripes[id].devs| ensures QueueGrows(c.stripes[id].devs[i], e.stripes[id].devs[i]) {
      assert QueueGrows(c.stripes[id].devs[i], d.stripes[id].devs[i]);
      assert QueueGrows(d.stripes[id].devs[i], e.stripes[id].devs[i]);
    }
  }

  lemma SameGrows(c: Core<nat>, d: Core<nat>, id: nat)
    requires id in c.stripes && id in d.stripes && d.stripes[id] == c.stripes[id]
    ensures QueuesGrow(c, d, id)
  {}

  lemma OneBodyGrows(cfg: Config, s: State, t: nat, req: Request, bodies: nat, id: nat)
    requires cfg.Valid() && Running(s) && t in s.threads && id in s.core.stripes
    ensures id in OneBody(cfg, s, t, req, bodies).core.stripes
    ensures QueuesGrow(s.core, OneBody(cfg, s, t, req, bodies).core, id)
  {
    var p := ComputeSector(cfg.g, req.sector);
    BodyKept(cfg.g, s.core, p.sector, p.parityDisk, req.noblock);
    match Body(cfg.g, s.core, p.sector, p.parityDisk, req.noblock)
    case Got(_, d) => assert QueuesGrow(s.core, d, id);
    case _ => SameGrows(s.core, s.core, id);
  }

  lemma BodyGrows(cfg: Config, s: State, e: Event, id: nat)
    requires cfg.Valid() && Running(s) && Step(cfg, s, e).Some? && (e.Enter? || e.Resume?) && id in s.core.stripes
    ensures id in Step(cfg, s, e).value.core.stripes && QueuesGrow(s.core, Step(cfg, s, e).value.core, id)
  {
    var t, pc := e.t, s.threads[e.t];
    if e.Enter? {
      EnterStepIs(cfg, s, t);
      OneBodyGrows(cfg, s, t, pc.req, 1, id);
    } else {
      ResumeStepIs(cfg, s, t);
      OneBodyGrows(cfg, s, t, pc.req, pc.bodies + 1, id);
      SameGrows(s.core, s.core, id);
    }
  }

  lemma SetDevGrows(c: Core<nat>, id: nat, i: nat, b: Dev, x: nat)
    requires id in c.stripes && i < |c.stripes[id].devs| && QueueGrows(c.stripes[id].devs[i], b) && x in c.stripes
    ensures QueuesGrow(c, SetDev(c, id, i, b), x)
  {}

  lemma AddGrows(cfg: Config, s: State, t: nat, req: Request, id: nat, x: nat)
    requires cfg.Valid() && t in s.threads && AddStep(cfg, s, t, req, id).Some? && x in s.core.stripes
    ensures x in AddStep(cfg, s, t, req, id).value.core.stripes
    ensures QueuesGrow(s.core, AddStep(cfg, s, t, req, id).value.core, x)
  {
    var dd, b := ComputeSector(cfg.g, req.sector).dataDisk, Extent(req.sector, req.len);
    var d := s.core.stripes[id].devs[dd];
    var chain := if req.write then d.towrite else d.toread;
    InsertAtMultiset(chain, Seat(chain, b.sector, 0), b);
    match Insert(chain, b)
    case None => SameGrows(s.core, s.core, x);
    case Some(after) =>
      SetDevGrows(s.core, id, dd, if req.write then d.(towrite := after) else d.(toread := after), x);
  }

  lemma StepGrows(cfg: Config, s: State, e: Event, id: nat)
    requires cfg.Valid() && Running(s) && Step(cfg, s, e).Some? && !e.Retire?
    requires id in s.core.stripes && id in Step(cfg, s, e).value.core.stripes
    ensures QueuesGrow(s.core, Step(cfg, s, e).value.core, id)
  {
    if e.Enter? || e.Resume? {
      BodyGrows(cfg, s, e, id);
    } else if e.Add? {
      AddStepIs(cfg, s, e.t, s.threads[e.t].req, s.threads[e.t].id);
      AddGrows(cfg, s, e.t, s.threads[e.t].req, s.threads[e.t].id, id);
    } else if e.Grow? {
      GrowStepIs(cfg, s, e.t, e.id);
    } else {
      PlainStepKept(cfg, s, e);
      assert SlotsKept(s.core, Step(cfg, s, e).value.core, id);
    }
  }

  lemma RunGrows(cfg: Config, ss: seq<State>, es: seq<Event>, k: nat, id: nat)
    requires cfg.Valid() && Run(cfg, ss, es) && k < |es| && !es[k].Retire?
    requires id in ss[k].core.stripes && id in ss[k + 1].core.stripes
    ensures QueuesGrow(ss[k].core, ss[k + 1].core, id)
  {
    RunInv(cfg, ss, es, k);
    TableInOrder(cfg, ss[k]);
    assert StepAt(cfg, ss, es, k);
    StepGrows(cfg, ss[k], es[k], id);
  }

  /** Over any stretch of a run without retirement every request queued on a stripe stays queued in its
      slot and direction, as long as the stripe lives, even when it is recycled. */
  lemma {:induction false} QueuedStays(cfg: Config, ss: seq<State>, es: seq<Event>, i: nat, j: nat, id: nat)
    requires cfg.Valid() && Run(cfg, ss, es) && i <= j < |ss|
    requires forall k :: i <= k <= j ==> id in ss[k].core.stripes
    requires forall k :: i <= k < j ==> !es[k].Retire?
    ensures QueuesGrow(ss[i].core, ss[j].core, id)
  {
    if i < j {
      QueuedStays(cfg, ss, es, i, j - 1, id);
      RunGrows(cfg, ss, es, j - 1, id);
      GrowTwice(ss[i].core, ss[j - 1].core, ss[j].core, id);
    }
  }

  // ----- R5_OVERWRITE

  ghost predicate HasScanner(threads: map<nat, Pc>, id: nat, i: nat) {
    exists t :: t in threads && threads[t] == Scanning(id, i)
  }

  /** A slot whose writes cover its page has the flag, or a thread is about to scan it. */
  ghost predicate SlotMarked(s: State, id: nat, i: nat)
    requires id in s.core.stripes && i < |s.core.stripes[id].devs|
  {
    var d := s.core.stripes[id].devs[i];
    Covers(d.towrite, d.sector) ==> d.overwrite || HasScanner(s.threads, id, i)
  }

  ghost predicate StripeMarked(s: State, id: nat)
    requires id in s.core.stripes
  {
    forall i :: 0 <= i < |s.core.stripes[id].devs| ==> SlotMarked(s, id, i)
  }

  ghost predicate AllMarked(s: State) {
    forall id :: id in s.core.stripes ==> StripeMarked(s, id)
  }

  ghost predicate KeepsScanners(threads: map<nat, Pc>, after: map<nat, Pc>) {
    forall t :: t in threads && threads[t].Scanning? ==> t in after && after[t] == threads[t]
  }

  lemma KeptMarked(s: State, s': State, id: nat)
    requires id in s.core.stripes && StripeMarked(s, id) && SlotsKept(s.core, s'.core, id)
    requires KeepsScanners(s.threads, s'.threads)
    ensures StripeMarked(s', id)
  {
    forall i | 0 <= i < |s'.core.stripes[id].devs| ensures SlotMarked(s', id, i) {
      assert SlotMarked(s, id, i);
      if t :| t in s.threads && s.threads[t] == Scanning(id, i) {
        assert s'.threads[t] == Scanning(id, i);
      }
    }
  }

  /** A step that changes the slots of at most stripe x. */
  lemma MarkedFollows(s: State, s': State, x: nat)
    requires AllMarked(s) && KeepsScanners(s.threads, s'.threads)
    requires forall id :: id in s'.core.stripes && id != x ==> SlotsKept(s.core, s'.core, id)
    requires x in s'.core.stripes ==> StripeMarked(s', x) || SlotsKept(s.core, s'.core, x)
    ensures AllMarked(s')
  {
    forall id | id in s'.core.stripes ensures StripeMarked(s', id) {
      if id != x || !StripeMarked(s', x) {
        KeptMarked(s, s', id);
      }
    }
  }

  lemma NothingCovers(s: nat)
    ensures !Covers([], s)
  {
    assert !CoveredAt([], s);
  }

  lemma IdleMarked(s: State, id: nat)
    requires id in s.core.stripes && AllIdle(s.core.stripes[id].devs)
    ensures StripeMarked(s, id)
  {
    forall i | 0 <= i < |s.core.stripes[id].devs| ensures SlotMarked(s, id, i) {
      NothingCovers(s.core.stripes[id].devs[i].sector);
    }
  }

  // ----- The steps

  lemma LoopScanners(cfg: Config, s: State, e: Event)
    requires cfg.Valid() && Running(s) && Step(cfg, s, e).Some? && (e.Start? || e.Flag? || e.Submit?)
    ensures KeepsScanners(s.threads, Step(cfg, s, e).value.threads)
  {
    var t, pc := e.t, s.threads[e.t];
    match e
    case Start(_, req) => StartStepIs(cfg, s, t, req);
    case Flag(_) => FlagStepIs(cfg, s, t, pc.id, pc.left);
    case Submit(_, tag) =>
      SubmitStepIs(cfg, s, t, tag, pc.id, pc.left);
      SubmitSends(cfg, s, t, pc.id, pc.left, tag);
  }

  lemma PoolScanners(cfg: Config, s: State, e: Event)
    requires cfg.Valid() && Running(s) && Step(cfg, s, e).Some?
    requires e.Put? || e.Complete? || e.Daemon? || e.Grow? || e.ShrinkTake? || e.ShrinkDone?
    ensures KeepsScanners(s.threads, Step(cfg, s, e).value.threads)
  {
    match e
    case Put(t) => PutStepIs(cfg, s, t, s.threads[t].id);
    case Complete(tag) => CompleteStepIs(cfg, s, tag);
    case Daemon(t) => DaemonStepIs(cfg, s, t);
    case Grow(t, id) => GrowStepIs(cfg, s, t, id);
    case ShrinkTake(t) => ShrinkTakeStepIs(cfg, s, t);
    case ShrinkDone(t) => ShrinkDoneStepIs(cfg, s, t, s.threads[t].id);
  }

  lemma PlainMarked(cfg: Config, s: State, e: Event)
    requires cfg.Valid() && Running(s) && AllMarked(s) && Step(cfg, s, e).Some?
    requires !e.Add? && !e.Retire? && !e.Grow? && !e.Enter? && !e.Resume? && !e.Scan?
    ensures AllMarked(Step(cfg, s, e).value)
  {
    PlainStepKept(cfg, s, e);
    if e.Start? || e.Flag? || e.Submit? {
      LoopScanners(cfg, s, e);
    } else {
      PoolScanners(cfg, s, e);
    }
    MarkedFollows(s, Step(cfg, s, e).value, 0);
  }

  lemma GrowMarked(cfg: Config, s: State, t: nat, id: nat)
    requires cfg.Valid() && Running(s) && AllMarked(s) && Step(cfg, s, Grow(t, id)).Some?
    ensures AllMarked(Step(cfg, s, Grow(t, id)).value)
  {
    var s' := Step(cfg, s, Grow(t, id)).value;
    PoolScanners(cfg, s, Grow(t, id));
    GrowStepIs(cfg, s, t, id);
    assert AllIdle(s'.core.stripes[id].devs);
    IdleMarked(s', id);
    MarkedFollows(s, s', id);
  }

  lemma BodyMarked(cfg: Config, s: State, t: nat, req: Request, bodies: nat)
    requires cfg.Valid() && Running(s) && AllMarked(s) && t in s.threads && !s.threads[t].Scanning?
    requires ComputeSector(cfg.g, req.sector).sector in s.core.hash || !HeadBusy(s.core)
    ensures AllMarked(OneBody(cfg, s, t, req, bodies))
  {
    var p, s' := ComputeSector(cfg.g, req.sector), OneBody(cfg, s, t, req, bodies);
    BodyKept(cfg.g, s.core, p.sector, p.parityDisk, req.noblock);
    match Body(cfg.g, s.core, p.sector, p.parityDisk, req.noblock)
    case Got(id, d) =>
      if p.sector !in s.core.hash {
        assert AllIdle(d.stripes[id].devs);
        IdleMarked(s', id);
      }
      MarkedFollows(s, s', id);
    case _ =>
      SameDevs(s.core, s.core);
      MarkedFollows(s, s', 0);
  }

  lemma BodyStepMarked(cfg: Config, s: State, e: Event)
    requires cfg.Valid() && Running(s) && AllMarked(s) && Step(cfg, s, e).Some? && (e.Enter? || e.Resume?)
    requires !EvictsBusy(cfg, s, e)
    ensures AllMarked(Step(cfg, s, e).value)
  {
    var t, pc := e.t, s.threads[e.t];
    if e.Enter? {
      EnterStepIs(cfg, s, t);
      BodyMarked(cfg, s, t, pc.req, 1);
    } else {
      ResumeStepIs(cfg, s, t);
      if s.core.inactive == [] {
        SameDevs(s.core, s.core);
        MarkedFollows(s, Move(s, t, pc.(woken := false)), 0);
      } else {
        BodyMarked(cfg, s, t, pc.req, pc.bodies + 1);
      }
    }
  }

  /** The scanner of a slot sets the flag before it goes on. */
  lemma ScanMarked(cfg: Config, s: State, t: nat, id: nat, slot: nat)
    requires cfg.Valid() && AllMarked(s) && t in s.threads && s.threads[t] == Scanning(id, slot)
    requires ScanStep(cfg, s, t, id, slot).Some?
    ensures AllMarked(ScanStep(cfg, s, t, id, slot).value)
  {
    var s' := ScanStep(cfg, s, t, id, slot).value;
    ScanKept(cfg, s, t, id, slot);
    forall x, i | x in s'.core.stripes && 0 <= i < |s'.core.stripes[x].devs| ensures SlotMarked(s', x, i) {
      assert SlotsKept(s.core, s'.core, x);
      assert StripeMarked(s, x) && SlotMarked(s, x, i);
      if u :| u in s.threads && s.threads[u] == Scanning(x, i) && u != t {
        assert s'.threads[u] == Scanning(x, i);
      }
    }
  }

  /** A write that joins its chain is scanned next. */
  lemma AddMarked(cfg: Config, s: State, t: nat, req: Request, id: nat)
    requires cfg.Valid() && AllMarked(s) && t in s.threads && s.threads[t] == Adding(req, id)
    requires AddStep(cfg, s, t, req, id).Some?
    ensures AllMarked(AddStep(cfg, s, t, req, id).value)
  {
    var s' := AddStep(cfg, s, t, req, id).value;
    var dd := ComputeSector(cfg.g, req.sector).dataDisk;
    forall i | 0 <= i < |s'.core.stripes[id].devs| ensures SlotMarked(s', id, i) {
      assert StripeMarked(s, id) && SlotMarked(s, id, i);
      if s'.core.stripes[id].devs[i].towrite != s.core.stripes[id].devs[i].towrite {
        assert s'.threads[t] == Scanning(id, i);
      } else if u :| u in s.threads && s.threads[u] == Scanning(id, i) {
        assert s'.threads[u] == Scanning(id, i);
      }
    }
    MarkedFollows(s, s', id);
  }

  lemma RetireMarked(s: State, t: nat, id: nat, slot: nat)
    requires AllMarked(s) && t in s.threads && RetireStep(s, t, id, slot).Some?
    ensures AllMarked(RetireStep(s, t, id, slot).value)
  {
    var s' := RetireStep(s, t, id, slot).value;
    forall i | 0 <= i < |s'.core.stripes[id].devs| ensures SlotMarked(s', id, i) {
      assert StripeMarked(s, id) && SlotMarked(s, id, i);
      NothingCovers(s.core.stripes[id].devs[i].sector);
      assert s'.threads == s.threads;
    }
    MarkedFollows(s, s', id);
  }

  lemma StepMarked(cfg: Config, s: State, e: Event)
    requires cfg.Valid() && Running(s) && AllMarked(s) && Step(cfg, s, e).Some? && !EvictsBusy(cfg, s, e)
    ensures AllMarked(Step(cfg, s, e).value)
  {
    if e.Enter? || e.Resume? {
      BodyStepMarked(cfg, s, e);
    } else if e.Add? {
      AddStepIs(cfg, s, e.t, s.threads[e.t].req, s.threads[e.t].id);
      AddMarked(cfg, s, e.t, s.threads[e.t].req, s.threads[e.t].id);
    } else if e.Scan? {
      ScanStepIs(cfg, s, e.t, s.threads[e.t].id, s.threads[e.t].slot);
      ScanMarked(cfg, s, e.t, s.threads[e.t].id, s.threads[e.t].slot);
    } else if e.Grow? {
      GrowMarked(cfg, s, e.t, e.id);
    } else if e.Retire? {
      RetireStepIs(cfg, s, e.t, e.slot);
      RetireMarked(s, e.t, s.threads[e.t].id, e.slot);
    } else {
      PlainMarked(cfg, s, e);
    }
  }

  lemma NextMarked(cfg: Config, ss: seq<State>, es: seq<Event>, k: nat)
    requires cfg.Valid() && Run(cfg, ss, es) && k < |es| && AllMarked(ss[k]) && ss[k + 1].core.fired == {}
    ensures AllMarked(ss[k + 1])
  {
    RunInv(cfg, ss, es, k);
    RunInv(cfg, ss, es, k + 1);
    TableInOrder(cfg, ss[k]);
    assert StepAt(cfg, ss, es, k);
    StepMarked(cfg, ss[k], es[k]);
  }

  lemma {:induction false} RunMarked(cfg: Config, ss: seq<State>, es: seq<Event>, k: nat)
    requires cfg.Valid() && Run(cfg, ss, es) && k < |ss| && ss[k].core.fired == {}
    ensures AllMarked(ss[k])
  {
    if k > 0 {
      assert StepAt(cfg, ss, es, k - 1);
      StepRuns(cfg, ss[k - 1], es[k - 1]);
      RunMarked(cfg, ss, es, k - 1);
      NextMarked(cfg, ss, es, k - 1);
    }
  }

  /** In every reachable state a data slot of a cached stripe has R5_OVERWRITE only if its queued writes
      cover the page, and if they do it has the flag or a thread is about to scan it. */
  lemma OverwriteExactly(cfg: Config, s: State, id: nat, i: nat)
    requires cfg.Valid() && Reachable(cfg, s) && Hashed(s.core, id)
    requires i < |s.core.stripes[id].devs| && i != s.core.stripes[id].pdIdx
    ensures var d := s.core.stripes[id].devs[i];
            && (d.overwrite ==> Covers(d.towrite, d.sector))
            && (Covers(d.towrite, d.sector) && !HasScanner(s.threads, id, i) ==> d.overwrite)
  {
    var ss: seq<State>, es: seq<Event> :| Run(cfg, ss, es) && ss[|es|] == s;
    RunMarked(cfg, ss, es, |es|);
    assert StripeMarked(s, id) && SlotMarked(s, id, i);
    if s.core.stripes[id].devs[i].overwrite {
      OverwriteMeansCovered(cfg, s, id, i);
    }
  }
}
