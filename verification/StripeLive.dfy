/** Runs of the live code, in which queued requests are never retired (src/jraid5.c:706-728 is
    disabled): there a free stripe has requests queued exactly if the table still finds it, so the
    idle-device check of __init_stripe fires exactly when a stripe would serve a second row. */
module StripeLive {
  import opened AddressMap
  import opened RequestChain
  import opened Lists
  import opened StripeCore
  import opened StripeProtocol
  import opened StripeSafety
  import opened StripeRuns

  /** s is reached by a run in which no request is ever retired. */
  ghost predicate LiveReachable(cfg: Config, s: State)
    requires cfg.Valid()
  {
    exists ss: seq<State>, es: seq<Event> ::
      Run(cfg, ss, es) && ss[|es|] == s && forall i :: 0 <= i < |es| ==> !es[i].Retire?
  }

  lemma LiveStep(cfg: Config, s: State, e: Event, s': State)
    requires cfg.Valid() && LiveReachable(cfg, s) && !e.Retire? && Step(cfg, s, e) == Some(s')
    ensures LiveReachable(cfg, s')
  {
    var ss: seq<State>, es: seq<Event> :|
      Run(cfg, ss, es) && ss[|es|] == s && forall i :: 0 <= i < |es| ==> !es[i].Retire?;
    var ss', es' := ss + [s'], es + [e];
    forall i | 0 <= i < |es'| ensures StepAt(cfg, ss', es', i) {
      if i < |es| {
        assert StepAt(cfg, ss, es, i);
      }
    }
    assert Run(cfg, ss', es') && ss'[|es'|] == s';
  }

  function One(pc: Pc): map<nat, Pc> { map[0 := pc] }

  /** No stripes yet, and a single thread. */
  const BORN := State(Core(map[], map[], [], [], 0, {}), One(Idle), map[], multiset{}, map[], 0)

  lemma BornLive(cfg: Config)
    requires cfg.Valid()
    ensures LiveReachable(cfg, BORN)
  {
    var es: seq<Event> := [];
    assert Run(cfg, [BORN], es) && [BORN][|es|] == BORN;
  }

  lemma LiveIsReachable(cfg: Config, s: State)
    requires cfg.Valid() && LiveReachable(cfg, s) && s.core.fired == {}
    ensures Reachable(cfg, s)
  {}

  // ----- Cached stripes stay busy

  ghost predicate HasAdder(threads: map<nat, Pc>, id: nat) {
    exists t :: t in threads && threads[t].Adding? && threads[t].id == id
  }

  /** A cached stripe has a request queued or is about to get its first; one that is not cached has
      none, unless shrink_stripes has just taken it out of the table. */
  ghost predicate Used(s: State, id: nat)
    requires id in s.core.stripes
  {
    if Hashed(s.core, id) then !AllIdle(s.core.stripes[id].devs) || HasAdder(s.threads, id)
    else AllIdle(s.core.stripes[id].devs) || id in Limbo(s.threads)
  }

  ghost predicate AllUsed(s: State) {
    forall id :: id in s.core.stripes ==> Used(s, id)
  }

  /** Threads that are queueing a request or freeing a stripe are left alone. */
  ghost predicate KeepsWorkers(threads: map<nat, Pc>, after: map<nat, Pc>) {
    forall t :: t in threads && (threads[t].Adding? || threads[t].Shrinking?) ==>
      t in after && after[t] == threads[t]
  }

  /** Stripe id is cached, and has requests queued, in d as in c. */
  ghost predicate SameUse(c: Core<nat>, d: Core<nat>, id: nat) {
    && id in c.stripes && id in d.stripes
    && (Hashed(d, id) <==> Hashed(c, id))
    && (AllIdle(d.stripes[id].devs) <==> AllIdle(c.stripes[id].devs))
  }

  lemma WorkersStay(threads: map<nat, Pc>, after: map<nat, Pc>, id: nat)
    requires KeepsWorkers(threads, after)
    ensures HasAdder(threads, id) ==> HasAdder(after, id)
    ensures id in Limbo(threads) ==> id in Limbo(after)
  {
    if t :| t in threads && threads[t].Adding? && threads[t].id == id {
      assert after[t].Adding?;
    }
    if t :| t in threads && threads[t].Shrinking? && threads[t].id == id {
      assert after[t].Shrinking?;
    }
  }

  /** A step that leaves the workers alone, and the use of every stripe but x. */
  lemma UseFollows(s: State, s': State, x: nat)
    requires AllUsed(s) && KeepsWorkers(s.threads, s'.threads)
    requires forall id :: id in s'.core.stripes && id != x ==> SameUse(s.core, s'.core, id)
    requires x in s'.core.stripes ==> Used(s', x) || SameUse(s.core, s'.core, x)
    ensures AllUsed(s')
  {
    forall id | id in s'.core.stripes ensures Used(s', id) {
      WorkersStay(s.threads, s'.threads, id);
      assert id in s.core.stripes ==> Used(s, id);
    }
  }

  // ----- The steps of the loop bodies

  ghost predicate SameUses(c: Core<nat>, d: Core<nat>) {
    forall id :: id in d.stripes ==> SameUse(c, d, id)
  }

  lemma PlainFollows(s: State, s': State)
    requires AllUsed(s) && KeepsWorkers(s.threads, s'.threads) && SameUses(s.core, s'.core)
    ensures AllUsed(s')
  {
    UseFollows(s, s', 0);
  }

  /** One stripe changes, but not its sector, nor whether it has requests queued. */
  lemma OneStripeSameUse(c: Core<nat>, d: Core<nat>, id: nat, sh: Stripe)
    requires d.hash == c.hash && d.stripes == c.stripes[id := sh]
    requires id in c.stripes && sh.sector == c.stripes[id].sector
    requires AllIdle(sh.devs) <==> AllIdle(c.stripes[id].devs)
    ensures SameUses(c, d)
  {}

  lemma QueuesSame(devs: seq<Dev>, i: nat, d: Dev)
    requires i < |devs| && d.toread == devs[i].toread && d.towrite == devs[i].towrite
    ensures AllIdle(devs[i := d]) <==> AllIdle(devs)
  {
    assert forall k :: 0 <= k < |devs| ==> (devs[i := d][k].Idle() <==> devs[k].Idle());
  }

  lemma SetDevSameUse(c: Core<nat>, id: nat, i: nat, d: Dev)
    requires id in c.stripes && i < |c.stripes[id].devs|
    requires d.toread == c.stripes[id].devs[i].toread && d.towrite == c.stripes[id].devs[i].towrite
    ensures SameUses(c, SetDev(c, id, i, d))
  {
    var sh := c.stripes[id];
    QueuesSame(sh.devs, i, d);
    OneStripeSameUse(c, SetDev(c, id, i, d), id, sh.(devs := sh.devs[i := d]));
  }

  lemma FlagUsed(cfg: Config, s: State, t: nat, id: nat, left: nat)
    requires t in s.threads && s.threads[t] == Flagging(id, left) && AllUsed(s)
    requires FlagStep(cfg, s, t, id, left).Some?
    ensures AllUsed(FlagStep(cfg, s, t, id, left).value)
  {
    if left > 0 {
      var d := s.core.stripes[id].devs[left - 1];
      SetDevSameUse(s.core, id, left - 1,
                    d.(wantRead := d.wantRead || d.toread != [], wantWrite := d.wantWrite || d.towrite != []));
    }
    PlainFollows(s, FlagStep(cfg, s, t, id, left).value);
  }

  lemma ScanUsed(cfg: Config, s: State, t: nat, id: nat, slot: nat)
    requires cfg.Valid() && t in s.threads && s.threads[t] == Scanning(id, slot) && AllUsed(s)
    requires ScanStep(cfg, s, t, id, slot).Some?
    ensures AllUsed(ScanStep(cfg, s, t, id, slot).value)
  {
    var d := s.core.stripes[id].devs[slot];
    SetDevSameUse(s.core, id, slot, if Covers(d.towrite, d.sector) then d.(overwrite := true) else d);
    PlainFollows(s, ScanStep(cfg, s, t, id, slot).value);
  }

  lemma SubmitSameUse(cfg: Config, s: State, t: nat, id: nat, left: nat, tag: nat)
    requires t in s.threads && SubmitStep(cfg, s, t, id, left, tag).Some?
    ensures SameUses(s.core, SubmitStep(cfg, s, t, id, left, tag).value.core)
  {
    var s' := SubmitStep(cfg, s, t, id, left, tag).value;
    if left > 0 && (s.core.stripes[id].devs[left - 1].wantWrite || s.core.stripes[id].devs[left - 1].wantRead) {
      var d := s.core.stripes[id].devs[left - 1];
      var d' := if d.wantWrite then d.(wantWrite := false) else d.(wantRead := false);
      var c := SetDev(s.core, id, left - 1, d');
      SetDevSameUse(s.core, id, left - 1, d');
      MarkSameUse(s.core, c, id);
      assert s'.core == SetHandle(c, id) || s'.core == Grab(c, id);
    } else {
      assert s'.core == s.core;
    }
  }

  lemma SubmitUsed(cfg: Config, s: State, t: nat, id: nat, left: nat, tag: nat)
    requires t in s.threads && s.threads[t] == Submitting(id, left) && AllUsed(s)
    requires SubmitStep(cfg, s, t, id, left, tag).Some?
    ensures AllUsed(SubmitStep(cfg, s, t, id, left, tag).value)
  {
    SubmitSameUse(cfg, s, t, id, left, tag);
    PlainFollows(s, SubmitStep(cfg, s, t, id, left, tag).value);
  }

  lemma MarkSameUse(c: Core<nat>, d: Core<nat>, id: nat)
    requires SameUses(c, d) && id in d.stripes
    ensures SameUses(c, SetHandle(d, id)) && SameUses(c, Grab(d, id))
  {
    var sh := d.stripes[id];
    OneStripeSameUse(d, SetHandle(d, id), id, sh.(handle := true));
    OneStripeSameUse(d, Grab(d, id), id, sh.(count := sh.count + 1));
  }

  /** m is s after a thread or a bio has given up its reference to stripe id. */
  lemma ReleaseUsed(s: State, m: State, id: nat)
    requires AllUsed(s) && m.core == s.core && KeepsWorkers(s.threads, m.threads) && id in s.core.stripes
    ensures AllUsed(ReleaseIn(m, id))
  {
    var sh := s.core.stripes[id];
    OneStripeSameUse(s.core, Release(s.core, id).0, id, sh.(count := sh.count - 1));
    PlainFollows(s, ReleaseIn(m, id));
  }

  // ----- get_active_stripe

  lemma HitUsed(s: State, t: nat, req: Request, id: nat)
    requires AllUsed(s) && t in s.threads && !s.threads[t].Adding? && !s.threads[t].Shrinking?
    requires id in s.core.stripes
    ensures AllUsed(Move(s, t, Adding(req, id)).(core := Grab(Hit(s.core, id), id)))
  {
    var sh := s.core.stripes[id];
    OneStripeSameUse(s.core, Grab(Hit(s.core, id), id), id, sh.(count := sh.count + 1));
    PlainFollows(s, Move(s, t, Adding(req, id)).(core := Grab(Hit(s.core, id), id)));
  }

  lemma MissUsed(g: Geometry, s: State, t: nat, req: Request, sector: nat, pd: nat)
    requires g.Valid() && HashOk(s.core) && AllUsed(s)
    requires t in s.threads && !s.threads[t].Adding? && !s.threads[t].Shrinking?
    requires s.core.inactive != [] && s.core.inactive[0] in s.core.stripes && sector !in s.core.hash
    ensures var id := s.core.inactive[0];
            AllUsed(Move(s, t, Adding(req, id)).(core := Grab(InitStripe(g, TakeFree(s.core), id, sector, pd), id)))
  {
    var id := s.core.inactive[0];
    var d := Grab(InitStripe(g, TakeFree(s.core), id, sector, pd), id);
    var s' := Move(s, t, Adding(req, id)).(core := d);
    assert s'.threads[t].Adding? && s'.threads[t].id == id;
    MissSameUse(g, s.core, sector, pd);
    UseFollows(s, s', id);
  }

  lemma MissSameUse(g: Geometry, c: Core<nat>, sector: nat, pd: nat)
    requires g.Valid() && HashOk(c) && c.inactive != [] && c.inactive[0] in c.stripes && sector !in c.hash
    ensures var id := c.inactive[0];
            var d := Grab(InitStripe(g, TakeFree(c), id, sector, pd), id);
            Hashed(d, id) && forall x :: x in d.stripes && x != id ==> SameUse(c, d, x)
  {}

  lemma OneBodyUsed(cfg: Config, s: State, t: nat, req: Request, bodies: nat)
    requires cfg.Valid() && Running(s) && HashOk(s.core) && AllUsed(s)
    requires t in s.threads && !s.threads[t].Adding? && !s.threads[t].Shrinking?
    ensures AllUsed(OneBody(cfg, s, t, req, bodies))
  {
    var p := ComputeSector(cfg.g, req.sector);
    if p.sector in s.core.hash {
      HitUsed(s, t, req, s.core.hash[p.sector]);
    } else if s.core.inactive != [] {
      MissUsed(cfg.g, s, t, req, p.sector, p.parityDisk);
    } else {
      PlainFollows(s, OneBody(cfg, s, t, req, bodies));
    }
  }

  // ----- Queueing

  /** Whether the request is accepted or refused, its chain is not empty afterwards. */
  lemma AddUsed(cfg: Config, s: State, t: nat, req: Request, id: nat)
    requires cfg.Valid() && t in s.threads && s.threads[t] == Adding(req, id) && AllUsed(s)
    requires AddStep(cfg, s, t, req, id).Some? && Hashed(s.core, id)
    ensures AllUsed(AddStep(cfg, s, t, req, id).value)
  {
    var s' := AddStep(cfg, s, t, req, id).value;
    AddFills(cfg, s, t, req, id);
    forall x | x in s'.core.stripes ensures Used(s', x) {
      assert Used(s, x);
      if x != id {
        assert SameUse(s.core, s'.core, x);
        OtherWorkersStay(s.threads, t, s'.threads[t], x);
      }
    }
  }

  lemma AddFills(cfg: Config, s: State, t: nat, req: Request, id: nat)
    requires cfg.Valid() && t in s.threads && s.threads[t] == Adding(req, id)
    requires AddStep(cfg, s, t, req, id).Some? && Hashed(s.core, id)
    ensures var s' := AddStep(cfg, s, t, req, id).value;
            && s'.threads == s.threads[t := s'.threads[t]] && s'.core.hash == s.core.hash
            && s'.core.stripes.Keys == s.core.stripes.Keys
            && Hashed(s'.core, id) && !AllIdle(s'.core.stripes[id].devs)
            && forall x :: x in s.core.stripes && x != id ==> s'.core.stripes[x] == s.core.stripes[x]
  {
    var dd := ComputeSector(cfg.g, req.sector).dataDisk;
    var d := s.core.stripes[id].devs[dd];
    InsertFirst(Extent(req.sector, req.len));
    var s' := AddStep(cfg, s, t, req, id).value;
    assert !s'.core.stripes[id].devs[dd].Idle();
  }

  lemma OtherWorkersStay(threads: map<nat, Pc>, t: nat, pc: Pc, x: nat)
    requires t in threads && (threads[t].Adding? || threads[t].Shrinking?) && threads[t].id != x
    ensures HasAdder(threads, x) ==> HasAdder(threads[t := pc], x)
    ensures x in Limbo(threads) ==> x in Limbo(threads[t := pc])
  {
    var after := threads[t := pc];
    if u :| u in threads && threads[u].Adding? && threads[u].id == x {
      assert after[u] == threads[u];
    }
    if u :| u in threads && threads[u].Shrinking? && threads[u].id == x {
      assert after[u] == threads[u];
    }
  }

  // ----- Growing and shrinking

  lemma GrowUsed(cfg: Config, s: State, t: nat, id: nat)
    requires cfg.Valid() && Running(s) && AllUsed(s) && t in s.threads && s.threads[t] == Idle && id !in s.core.stripes
    ensures AllUsed(Move(s, t, Releasing(id)).(core := GrowOne(cfg.g, s.core, id)))
  {
    var s' := Move(s, t, Releasing(id)).(core := GrowOne(cfg.g, s.core, id));
    assert !Hashed(s'.core, id) && AllIdle(s'.core.stripes[id].devs);
    UseFollows(s, s', id);
  }

  lemma TakeUsed(s: State, t: nat)
    requires AllUsed(s) && t in s.threads && s.threads[t] == Idle && s.core.inactive != []
    ensures AllUsed(Move(s, t, Shrinking(s.core.inactive[0])).(core := TakeFree(s.core)))
  {
    var id := s.core.inactive[0];
    var s' := Move(s, t, Shrinking(id)).(core := TakeFree(s.core));
    assert s'.threads[t].Shrinking? && s'.threads[t].id == id;
    TakeSameUse(s.core);
    UseFollows(s, s', id);
  }

  lemma TakeSameUse(c: Core<nat>)
    requires c.inactive != []
    ensures var d, id := TakeFree(c), c.inactive[0];
            !Hashed(d, id) && forall x :: x in d.stripes && x != id ==> SameUse(c, d, x)
  {}

  lemma FreeUsed(s: State, t: nat, id: nat)
    requires AllUsed(s) && t in s.threads && s.threads[t] == Shrinking(id) && id in s.core.stripes
    ensures AllUsed(Move(s, t, Idle).(core := ShrinkFree(s.core, id)))
  {
    var s' := Move(s, t, Idle).(core := ShrinkFree(s.core, id));
    forall x | x in s'.core.stripes ensures Used(s', x) {
      assert Used(s, x);
      OtherWorkersStay(s.threads, t, Idle, x);
    }
  }

  // ----- Every live step

  lemma BodyStepUsed(cfg: Config, s: State, e: Event)
    requires cfg.Valid() && Running(s) && HashOk(s.core) && AllUsed(s) && Step(cfg, s, e).Some?
    requires e.Enter? || e.Resume?
    ensures AllUsed(Step(cfg, s, e).value)
  {
    var t, pc := e.t, s.threads[e.t];
    if e.Enter? {
      EnterStepIs(cfg, s, t);
      OneBodyUsed(cfg, s, t, pc.req, 1);
    } else {
      ResumeStepIs(cfg, s, t);
      if s.core.inactive == [] {
        PlainFollows(s, Move(s, t, pc.(woken := false)));
      } else {
        OneBodyUsed(cfg, s, t, pc.req, pc.bodies + 1);
      }
    }
  }

  lemma QueueStepUsed(cfg: Config, s: State, e: Event)
    requires cfg.Valid() && Inv(cfg, s) && Running(s) && AllUsed(s) && Step(cfg, s, e).Some?
    requires e.Start? || e.Add? || e.Scan?
    ensures AllUsed(Step(cfg, s, e).value)
  {
    var t, pc := e.t, s.threads[e.t];
    match e
    case Start(_, req) =>
      StartStepIs(cfg, s, t, req);
      PlainFollows(s, Move(s, t, Entering(req)));
    case Add(_) =>
      ThreadOk(cfg, s, t);
      AddStepIs(cfg, s, t, pc.req, pc.id);
      AddUsed(cfg, s, t, pc.req, pc.id);
    case Scan(_) =>
      ScanStepIs(cfg, s, t, pc.id, pc.slot);
      ScanUsed(cfg, s, t, pc.id, pc.slot);
  }

  lemma LoopStepUsed(cfg: Config, s: State, e: Event)
    requires cfg.Valid() && Running(s) && AllUsed(s) && Step(cfg, s, e).Some? && (e.Flag? || e.Submit? || e.Put?)
    ensures AllUsed(Step(cfg, s, e).value)
  {
    var t, pc := e.t, s.threads[e.t];
    match e
    case Flag(_) =>
      FlagStepIs(cfg, s, t, pc.id, pc.left);
      FlagUsed(cfg, s, t, pc.id, pc.left);
    case Submit(_, tag) =>
      SubmitStepIs(cfg, s, t, tag, pc.id, pc.left);
      SubmitUsed(cfg, s, t, pc.id, pc.left, tag);
    case Put(_) =>
      PutStepIs(cfg, s, t, pc.id);
      ReleaseUsed(s, Move(s, t, Idle), pc.id);
  }

  lemma CompleteUsed(cfg: Config, s: State, tag: nat)
    requires cfg.Valid() && Running(s) && AllUsed(s) && Step(cfg, s, Complete(tag)).Some?
    ensures AllUsed(Step(cfg, s, Complete(tag)).value)
  {
    var id := s.inflight[tag].0;
    CompleteStepIs(cfg, s, tag);
    ReleaseUsed(s, s.(inflight := s.inflight - {tag}, refs := s.refs - multiset{id}), id);
  }

  lemma PoolStepUsed(cfg: Config, s: State, e: Event)
    requires cfg.Valid() && Running(s) && AllUsed(s) && Step(cfg, s, e).Some?
    requires e.Daemon? || e.Grow? || e.ShrinkTake? || e.ShrinkDone?
    ensures AllUsed(Step(cfg, s, e).value)
  {
    match e
    case Daemon(t) =>
      DaemonStepIs(cfg, s, t);
      DaemonUsed(cfg, s, t);
    case Grow(t, id) =>
      GrowStepIs(cfg, s, t, id);
      GrowUsed(cfg, s, t, id);
    case ShrinkTake(t) =>
      ShrinkTakeStepIs(cfg, s, t);
      TakeUsed(s, t);
    case ShrinkDone(t) =>
      ShrinkDoneStepIs(cfg, s, t, s.threads[t].id);
      FreeUsed(s, t, s.threads[t].id);
  }

  lemma DaemonUsed(cfg: Config, s: State, t: nat)
    requires Running(s) && AllUsed(s) && t in s.threads && s.threads[t] == Idle && s.core.handleList != []
    ensures AllUsed(Move(s, t, Flagging(s.core.handleList[0], cfg.g.disks)).(core := DaemonTake(s.core)))
  {
    var id := s.core.handleList[0];
    var sh := s.core.stripes[id];
    OneStripeSameUse(s.core, DaemonTake(s.core), id, sh.(count := sh.count + 1));
    PlainFollows(s, Move(s, t, Flagging(id, cfg.g.disks)).(core := DaemonTake(s.core)));
  }

  lemma StepUsed(cfg: Config, s: State, e: Event)
    requires cfg.Valid() && Inv(cfg, s) && AllUsed(s) && !e.Retire? && Step(cfg, s, e).Some?
    ensures AllUsed(Step(cfg, s, e).value)
  {
    Open(cfg, s);
    if e.Enter? || e.Resume? {
      BodyStepUsed(cfg, s, e);
    } else if e.Start? || e.Add? || e.Scan? {
      QueueStepUsed(cfg, s, e);
    } else if e.Flag? || e.Submit? || e.Put? {
      LoopStepUsed(cfg, s, e);
    } else if e.Complete? {
      CompleteUsed(cfg, s, e.tag);
    } else {
      PoolStepUsed(cfg, s, e);
    }
  }

  lemma {:induction false} RunUsed(cfg: Config, ss: seq<State>, es: seq<Event>, k: nat)
    requires cfg.Valid() && Run(cfg, ss, es) && k < |ss| && forall i :: 0 <= i < |es| ==> !es[i].Retire?
    ensures AllUsed(ss[k])
  {
    if k > 0 {
      RunUsed(cfg, ss, es, k - 1);
      RunInv(cfg, ss, es, k - 1);
      assert StepAt(cfg, ss, es, k - 1);
      StepUsed(cfg, ss[k - 1], es[k - 1]);
    }
  }

  lemma LiveUsed(cfg: Config, s: State)
    requires cfg.Valid() && LiveReachable(cfg, s)
    ensures AllUsed(s)
  {
    var ss: seq<State>, es: seq<Event> :|
      Run(cfg, ss, es) && ss[|es|] == s && forall i :: 0 <= i < |es| ==> !es[i].Retire?;
    RunUsed(cfg, ss, es, |es|);
  }

  // ----- What this says about the idle-device check

  /** A free stripe has a request queued exactly if it is still cached: its first row stays with it. */
  lemma FreeBusyExactly(cfg: Config, s: State, id: nat)
    requires cfg.Valid() && LiveReachable(cfg, s) && s.core.fired == {} && id in s.core.inactive
    ensures id in s.core.stripes
    ensures !AllIdle(s.core.stripes[id].devs) <==> Hashed(s.core, id)
  {
    LiveIsReachable(cfg, s);
    ReachableInv(cfg, s);
    Open(cfg, s);
    LiveUsed(cfg, s);
    assert Positioned(s.core, s.refs, Limbo(s.threads), id) && Used(s, id);
    if t :| t in s.threads && s.threads[t].Adding? && s.threads[t].id == id {
      HolderCounted(s, t, id);
    }
  }

  /** In the live code check 497 fires exactly when a row that is not cached is asked for while the
      first free stripe is still cached for another row. */
  lemma LiveFiresExactly(cfg: Config, s: State, e: Event, s': State)
    requires cfg.Valid() && LiveReachable(cfg, s) && !e.Retire? && Step(cfg, s, e) == Some(s')
    ensures s'.core.fired == {497} <==>
            Misses(cfg, s, e) && s.core.inactive != [] && Hashed(s.core, s.core.inactive[0])
    ensures s'.core.fired == {} || s'.core.fired == {497}
  {
    StepRuns(cfg, s, e);
    LiveIsReachable(cfg, s);
    ReachableInv(cfg, s);
    OneStep(cfg, s, e, s');
    if s.core.inactive != [] {
      FreeBusyExactly(cfg, s, s.core.inactive[0]);
    }
  }

  // ----- Rows stay cached

  lemma AddHash(cfg: Config, s: State, t: nat, req: Request, id: nat)
    requires cfg.Valid() && t in s.threads && AddStep(cfg, s, t, req, id).Some?
    ensures AddStep(cfg, s, t, req, id).value.core.hash == s.core.hash
  {}

  lemma FlagHash(cfg: Config, s: State, t: nat, id: nat, left: nat)
    requires t in s.threads && FlagStep(cfg, s, t, id, left).Some?
    ensures FlagStep(cfg, s, t, id, left).value.core.hash == s.core.hash
  {}

  lemma SubmitHash(cfg: Config, s: State, t: nat, id: nat, left: nat, tag: nat)
    requires t in s.threads && SubmitStep(cfg, s, t, id, left, tag).Some?
    ensures SubmitStep(cfg, s, t, id, left, tag).value.core.hash == s.core.hash
  {}

  lemma LoopStepHash(cfg: Config, s: State, e: Event)
    requires cfg.Valid() && Running(s) && Step(cfg, s, e).Some?
    requires e.Start? || e.Add? || e.Scan? || e.Flag? || e.Submit? || e.Put?
    ensures Step(cfg, s, e).value.core.hash == s.core.hash
  {
    var t, pc := e.t, s.threads[e.t];
    match e
    case Start(_, req) => StartStepIs(cfg, s, t, req);
    case Add(_) =>
      AddStepIs(cfg, s, t, pc.req, pc.id);
      AddHash(cfg, s, t, pc.req, pc.id);
    case Scan(_) => ScanStepIs(cfg, s, t, pc.id, pc.slot);
    case Flag(_) =>
      FlagStepIs(cfg, s, t, pc.id, pc.left);
      FlagHash(cfg, s, t, pc.id, pc.left);
    case Submit(_, tag) =>
      SubmitStepIs(cfg, s, t, tag, pc.id, pc.left);
      SubmitHash(cfg, s, t, pc.id, pc.left, tag);
    case Put(_) => PutStepIs(cfg, s, t, pc.id);
  }

  lemma PoolStepHash(cfg: Config, s: State, e: Event)
    requires cfg.Valid() && Running(s) && Step(cfg, s, e).Some?
    requires e.Complete? || e.Daemon? || e.Grow? || e.ShrinkDone?
    ensures Step(cfg, s, e).value.core.hash == s.core.hash
  {
    match e
    case Complete(tag) => CompleteStepIs(cfg, s, tag);
    case Daemon(t) => DaemonStepIs(cfg, s, t);
    case Grow(t, id) => GrowStepIs(cfg, s, t, id);
    case ShrinkDone(t) => ShrinkDoneStepIs(cfg, s, t, s.threads[t].id);
  }

  lemma BodyStepHash(cfg: Config, s: State, e: Event)
    requires cfg.Valid() && Running(s) && Step(cfg, s, e).Some? && (e.Enter? || e.Resume?)
    requires Misses(cfg, s, e) && s.core.inactive != [] ==> !Hashed(s.core, s.core.inactive[0])
    ensures forall x :: x in s.core.hash ==>
              x in Step(cfg, s, e).value.core.hash && Step(cfg, s, e).value.core.hash[x] == s.core.hash[x]
  {
    if e.Enter? {
      EnterStepIs(cfg, s, e.t);
    } else {
      ResumeStepIs(cfg, s, e.t);
    }
  }

  lemma StepRowsStay(cfg: Config, s: State, e: Event, s': State)
    requires cfg.Valid() && LiveReachable(cfg, s) && !e.Retire? && Step(cfg, s, e) == Some(s')
    requires !e.ShrinkTake? && s'.core.fired == {}
    ensures forall x :: x in s.core.hash ==> x in s'.core.hash && s'.core.hash[x] == s.core.hash[x]
  {
    StepRuns(cfg, s, e);
    LiveFiresExactly(cfg, s, e, s');
    if e.Enter? || e.Resume? {
      BodyStepHash(cfg, s, e);
    } else if e.Complete? || e.Daemon? || e.Grow? || e.ShrinkDone? {
      PoolStepHash(cfg, s, e);
    } else {
      LoopStepHash(cfg, s, e);
    }
  }

  /** In a live run that does not shrink the pool, a row that has been cached stays cached, with the
      same stripe. */
  lemma {:induction false} RowsStay(cfg: Config, ss: seq<State>, es: seq<Event>, i: nat, j: nat)
    requires cfg.Valid() && Run(cfg, ss, es) && i <= j < |ss| && ss[j].core.fired == {}
    requires forall k :: 0 <= k < |es| ==> !es[k].Retire? && !es[k].ShrinkTake?
    ensures forall x :: x in ss[i].core.hash ==> x in ss[j].core.hash && ss[j].core.hash[x] == ss[i].core.hash[x]
  {
    if i < j {
      assert StepAt(cfg, ss, es, j - 1);
      StepRuns(cfg, ss[j - 1], es[j - 1]);
      RowsStay(cfg, ss, es, i, j - 1);
      PrefixLive(cfg, ss, es, j - 1);
      StepRowsStay(cfg, ss[j - 1], es[j - 1], ss[j]);
    }
  }

  lemma PrefixLive(cfg: Config, ss: seq<State>, es: seq<Event>, k: nat)
    requires cfg.Valid() && Run(cfg, ss, es) && k <= |es| && forall i :: 0 <= i < |es| ==> !es[i].Retire?
    ensures LiveReachable(cfg, ss[k])
  {
    var ss', es' := ss[..k + 1], es[..k];
    forall i | 0 <= i < k ensures StepAt(cfg, ss', es', i) {
      assert StepAt(cfg, ss, es, i);
    }
    assert Run(cfg, ss', es') && ss'[|es'|] == ss[k];
  }

  /** So all rows that such a run ever caches are in the table at its end, and there are at most as
      many of them as stripes: each stripe serves one row. */
  lemma OneRowPerStripe(cfg: Config, ss: seq<State>, es: seq<Event>)
    requires cfg.Valid() && Run(cfg, ss, es) && ss[|es|].core.fired == {}
    requires forall k :: 0 <= k < |es| ==> !es[k].Retire? && !es[k].ShrinkTake?
    ensures forall k :: 0 <= k < |ss| ==> ss[k].core.hash.Keys <= ss[|es|].core.hash.Keys
    ensures |ss[|es|].core.hash.Keys| <= |ss[|es|].core.stripes.Keys|
  {
    forall k | 0 <= k < |ss| ensures ss[k].core.hash.Keys <= ss[|es|].core.hash.Keys {
      RowsStay(cfg, ss, es, k, |es|);
    }
    var s := ss[|es|];
    RunInv(cfg, ss, es, |es|);
    PrefixLive(cfg, ss, es, |es|);
    LiveIsReachable(cfg, s);
    ReachableInv(cfg, s);
    Open(cfg, s);
    RowsOf(s.core, s.core.stripes.Keys);
    assert s.core.hash.Keys <= (set id | id in s.core.stripes.Keys :: s.core.stripes[id].sector);
    SubsetSize(s.core.hash.Keys, set id | id in s.core.stripes.Keys :: s.core.stripes[id].sector);
  }

  lemma {:induction false} RowsOf(c: Core<nat>, ids: set<nat>)
    requires ids <= c.stripes.Keys
    ensures |set id | id in ids :: c.stripes[id].sector| <= |ids|
  {
    if ids != {} {
      var one :| one in ids;
      RowsOf(c, ids - {one});
      var rest := set id | id in ids - {one} :: c.stripes[id].sector;
      assert (set id | id in ids :: c.stripes[id].sector) == rest + {c.stripes[one].sector};
    }
  }
}
