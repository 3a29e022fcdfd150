/** The source has one bio for each slot of a stripe (src/jraid5.c:813-851). Here is when a slot is
    sent to its member a second time while its bio is in flight: never, if no request finds its row in
    the cache already referenced, and always, if the request is for a slot in flight. */
module StripeResend {
  import opened AddressMap
  import opened RequestChain
  import opened StripeCore
  import opened StripeProtocol
  import opened StripeSafety
  import opened StripeRuns
  import opened StripeLive
  import opened StripeLiveRun

  // ----- Without requests for referenced rows

  ghost predicate RowHeld(cfg: Config, c: Core<nat>, req: Request)
    requires cfg.Valid()
  {
    var x := ComputeSector(cfg.g, req.sector).sector;
    x in c.hash && c.hash[x] in c.stripes && c.stripes[c.hash[x]].count != 0
  }

  /** get_active_stripe finds the row of the request cached by a stripe whose count is not zero: the
      first branch of line 531. */
  ghost predicate Joins(cfg: Config, s: State, e: Event)
    requires cfg.Valid()
  {
    && (e.Enter? || e.Resume?) && e.t in s.threads
    && match s.threads[e.t]
       case Entering(req) => e.Enter? && RowHeld(cfg, s.core, req)
       case Asleep(req, woken, _) => e.Resume? && woken && s.core.inactive != [] && RowHeld(cfg, s.core, req)
       case _ => false
  }

  /** The slots below this one have not been sent by the thread since it got its stripe. */
  function SentFrom(n: nat, pc: Pc): nat {
    match pc
    case Submitting(_, left) => left
    case Releasing(_) => 0
    case _ => n
  }

  predicate SameStripe(pc: Pc, pd: Pc) {
    HeldBy(pc) != multiset{} && HeldBy(pc) == HeldBy(pd)
  }

  /** No two threads hold the same stripe. */
  ghost predicate HoldersApart(threads: map<nat, Pc>) {
    forall t, u :: t in threads && u in threads && t != u ==> !SameStripe(threads[t], threads[u])
  }

  ghost predicate SentAbove(n: nat, pc: Pc, inflight: map<nat, (nat, nat)>) {
    forall tag :: tag in inflight && inflight[tag].0 in HeldBy(pc) ==> SentFrom(n, pc) <= inflight[tag].1
  }

  ghost predicate AllAbove(n: nat, threads: map<nat, Pc>, inflight: map<nat, (nat, nat)>) {
    forall t :: t in threads ==> SentAbove(n, threads[t], inflight)
  }

  /** No two bios in flight belong to one slot. */
  ghost predicate BiosApart(inflight: map<nat, (nat, nat)>) {
    forall a, b :: a in inflight && b in inflight && a != b ==> inflight[a] != inflight[b]
  }

  datatype SoloPart = OneHolder | NotYetSent | OneBio

  ghost predicate SoloHolds(n: nat, threads: map<nat, Pc>, inflight: map<nat, (nat, nat)>, part: SoloPart) {
    match part
    case OneHolder => HoldersApart(threads)
    case NotYetSent => AllAbove(n, threads, inflight)
    case OneBio => BiosApart(inflight)
  }

  /** Every stripe has at most one holder, who has not yet sent a slot that is in flight. Quantified
      over its parts, to stay folded where it is only handed on. */
  ghost predicate Solo(n: nat, threads: map<nat, Pc>, inflight: map<nat, (nat, nat)>) {
    forall part :: SoloHolds(n, threads, inflight, part)
  }

  lemma OpenSolo(n: nat, threads: map<nat, Pc>, inflight: map<nat, (nat, nat)>)
    requires Solo(n, threads, inflight)
    ensures HoldersApart(threads) && AllAbove(n, threads, inflight) && BiosApart(inflight)
  {
    assert SoloHolds(n, threads, inflight, OneHolder);
    assert SoloHolds(n, threads, inflight, NotYetSent);
    assert SoloHolds(n, threads, inflight, OneBio);
  }

  lemma CloseSolo(n: nat, threads: map<nat, Pc>, inflight: map<nat, (nat, nat)>)
    requires HoldersApart(threads) && AllAbove(n, threads, inflight) && BiosApart(inflight)
    ensures Solo(n, threads, inflight)
  {}

  lemma MoveSolo(n: nat, threads: map<nat, Pc>, inflight: map<nat, (nat, nat)>, t: nat, pc: Pc)
    requires Solo(n, threads, inflight) && t in threads
    requires HeldBy(pc) == multiset{} || HeldBy(pc) == HeldBy(threads[t])
    requires HeldBy(pc) != multiset{} ==> SentFrom(n, pc) <= SentFrom(n, threads[t])
    ensures Solo(n, threads[t := pc], inflight)
  {
    OpenSolo(n, threads, inflight);
    assert SentAbove(n, threads[t], inflight);
    CloseSolo(n, threads[t := pc], inflight);
  }

  lemma GrabSolo(n: nat, threads: map<nat, Pc>, inflight: map<nat, (nat, nat)>, t: nat, pc: Pc, id: nat)
    requires Solo(n, threads, inflight) && t in threads && HeldBy(pc) == multiset{id}
    requires Holders(threads, id) == {} && Flyers(inflight, id) == {}
    ensures Solo(n, threads[t := pc], inflight)
  {
    OpenSolo(n, threads, inflight);
    GrabApart(threads, t, pc, id);
    assert SentAbove(n, pc, inflight) by {
      assert forall tag :: tag in inflight && inflight[tag].0 == id ==> tag in Flyers(inflight, id);
    }
    CloseSolo(n, threads[t := pc], inflight);
  }

  lemma GrabApart(threads: map<nat, Pc>, t: nat, pc: Pc, id: nat)
    requires HoldersApart(threads) && t in threads && HeldBy(pc) == multiset{id} && Holders(threads, id) == {}
    ensures HoldersApart(threads[t := pc])
  {
    forall u | u in threads ensures !SameStripe(threads[u], pc) && !SameStripe(pc, threads[u]) {
      assert id in HeldBy(pc);
      assert u !in Holders(threads, id);
    }
  }

  lemma LaunchSolo(n: nat, threads: map<nat, Pc>, inflight: map<nat, (nat, nat)>, t: nat, id: nat, left: nat, tag: nat)
    requires Solo(n, threads, inflight) && t in threads && threads[t] == Submitting(id, left)
    requires 0 < left && tag !in inflight
    ensures Solo(n, threads[t := Submitting(id, left - 1)], inflight[tag := (id, left - 1)])
  {
    var threads', inflight' := threads[t := Submitting(id, left - 1)], inflight[tag := (id, left - 1)];
    OpenSolo(n, threads, inflight);
    LaunchAbove(n, threads, inflight, t, id, left, tag);
    OneApart(inflight, tag, (id, left - 1));
    SameHolders(threads, t, Submitting(id, left - 1));
    CloseSolo(n, threads', inflight');
  }

  lemma HoldsOne(pc: Pc, id: nat)
    ensures id in HeldBy(pc) ==> HeldBy(pc) == multiset{id}
  {}

  lemma LaunchAbove(n: nat, threads: map<nat, Pc>, inflight: map<nat, (nat, nat)>, t: nat, id: nat, left: nat, tag: nat)
    requires HoldersApart(threads) && AllAbove(n, threads, inflight) && t in threads
    requires threads[t] == Submitting(id, left) && 0 < left && tag !in inflight
    ensures forall a :: a in inflight ==> inflight[a] != (id, left - 1)
    ensures AllAbove(n, threads[t := Submitting(id, left - 1)], inflight[tag := (id, left - 1)])
  {
    var threads', inflight' := threads[t := Submitting(id, left - 1)], inflight[tag := (id, left - 1)];
    assert SentAbove(n, threads[t], inflight) && id in HeldBy(threads[t]);
    forall u | u in threads' ensures SentAbove(n, threads'[u], inflight') {
      assert SentAbove(n, threads[u], inflight);
      assert u != t ==> !SameStripe(threads[u], threads[t]);
      HoldsOne(threads[u], id);
    }
  }

  lemma OneApart(inflight: map<nat, (nat, nat)>, tag: nat, slot: (nat, nat))
    requires BiosApart(inflight) && forall a :: a in inflight ==> inflight[a] != slot
    ensures BiosApart(inflight[tag := slot])
  {}

  lemma SameHolders(threads: map<nat, Pc>, t: nat, pc: Pc)
    requires HoldersApart(threads) && t in threads && HeldBy(pc) == HeldBy(threads[t])
    ensures HoldersApart(threads[t := pc])
  {}

  lemma WakeSolo(n: nat, threads: map<nat, Pc>, inflight: map<nat, (nat, nat)>)
    requires Solo(n, threads, inflight)
    ensures Solo(n, WakeAll(threads), inflight)
  {
    OpenSolo(n, threads, inflight);
    forall t | t in threads
      ensures HeldBy(WakeAll(threads)[t]) == HeldBy(threads[t])
      ensures SentAbove(n, WakeAll(threads)[t], inflight)
    {
      assert SentAbove(n, threads[t], inflight);
    }
    CloseSolo(n, WakeAll(threads), inflight);
  }

  lemma LandSolo(n: nat, threads: map<nat, Pc>, inflight: map<nat, (nat, nat)>, tag: nat)
    requires Solo(n, threads, inflight)
    ensures Solo(n, threads, inflight - {tag})
  {
    OpenSolo(n, threads, inflight);
    forall t | t in threads ensures SentAbove(n, threads[t], inflight - {tag}) {
      assert SentAbove(n, threads[t], inflight);
    }
    CloseSolo(n, threads, inflight - {tag});
  }

  ghost predicate SoloIn(cfg: Config, s: State) {
    Solo(cfg.g.disks, s.threads, s.inflight)
  }

  lemma Unreferenced(cfg: Config, s: State, id: nat)
    requires cfg.Valid() && Inv(cfg, s) && (id in s.core.stripes ==> s.core.stripes[id].count == 0)
    ensures Holders(s.threads, id) == {} && Flyers(s.inflight, id) == {}
  {
    Open(cfg, s);
    assert id in s.core.stripes ==> Positioned(s.core, s.refs, Limbo(s.threads), id);
    assert s.refs[id] == 0;
  }

  lemma FreeCount(cfg: Config, s: State, id: nat)
    requires cfg.Valid() && Inv(cfg, s) && (id in s.core.inactive || id in s.core.handleList)
    ensures id in s.core.stripes && s.core.stripes[id].count == 0
  {
    Open(cfg, s);
    assert Positioned(s.core, s.refs, Limbo(s.threads), id);
  }

  /** Thread t gets a stripe that nobody references. */
  lemma GrabFree(cfg: Config, s: State, t: nat, pc: Pc, id: nat)
    requires cfg.Valid() && Inv(cfg, s) && SoloIn(cfg, s) && t in s.threads && HeldBy(pc) == multiset{id}
    requires id in s.core.stripes ==> s.core.stripes[id].count == 0
    ensures Solo(cfg.g.disks, s.threads[t := pc], s.inflight)
  {
    Unreferenced(cfg, s, id);
    GrabSolo(cfg.g.disks, s.threads, s.inflight, t, pc, id);
  }

  lemma BodyGives(g: Geometry, c: Core<nat>, sector: nat, pd: nat, noblock: bool)
    requires g.Valid() && (forall k :: k in c.hash ==> c.hash[k] in c.stripes)
    requires forall id :: id in c.inactive ==> id in c.stripes
    ensures match Body(g, c, sector, pd, noblock)
            case Got(id, _) =>
              if sector in c.hash then id == c.hash[sector] else c.inactive != [] && id == c.inactive[0]
            case Null => sector !in c.hash && c.inactive == [] && noblock
            case MustWait => sector !in c.hash && c.inactive == [] && !noblock
  {}

  /** Where one turn of the loop of get_active_stripe leaves the thread. */
  function BodyPc(cfg: Config, s: State, req: Request, bodies: nat): Pc
    requires cfg.Valid()
  {
    var x := ComputeSector(cfg.g, req.sector).sector;
    if x in s.core.hash then Adding(req, s.core.hash[x])
    else if s.core.inactive != [] then Adding(req, s.core.inactive[0])
    else if req.noblock then Idle else Asleep(req, false, bodies)
  }

  lemma BodyMoves(cfg: Config, s: State, t: nat, req: Request, bodies: nat)
    requires cfg.Valid() && Running(s) && t in s.threads
    ensures OneBody(cfg, s, t, req, bodies).inflight == s.inflight
    ensures OneBody(cfg, s, t, req, bodies).threads == s.threads[t := BodyPc(cfg, s, req, bodies)]
  {
    var p := ComputeSector(cfg.g, req.sector);
    BodyGives(cfg.g, s.core, p.sector, p.parityDisk, req.noblock);
    match Body(cfg.g, s.core, p.sector, p.parityDisk, req.noblock)
    case Got(id, c) =>
      assert OneBody(cfg, s, t, req, bodies) == Move(s, t, Adding(req, id)).(core := c);
    case Null =>
      assert OneBody(cfg, s, t, req, bodies) == Move(s, t, Idle);
    case MustWait =>
      assert OneBody(cfg, s, t, req, bodies) == Move(s, t, Asleep(req, false, bodies));
  }

  lemma BodySolo(cfg: Config, s: State, t: nat, req: Request, bodies: nat)
    requires cfg.Valid() && Inv(cfg, s) && Running(s) && SoloIn(cfg, s) && t in s.threads && !RowHeld(cfg, s.core, req)
    ensures SoloIn(cfg, OneBody(cfg, s, t, req, bodies))
  {
    var x := ComputeSector(cfg.g, req.sector).sector;
    BodyMoves(cfg, s, t, req, bodies);
    if x in s.core.hash {
      GrabFree(cfg, s, t, Adding(req, s.core.hash[x]), s.core.hash[x]);
    } else if s.core.inactive != [] {
      FreeCount(cfg, s, s.core.inactive[0]);
      GrabFree(cfg, s, t, Adding(req, s.core.inactive[0]), s.core.inactive[0]);
    } else {
      MoveSolo(cfg.g.disks, s.threads, s.inflight, t, if req.noblock then Idle else Asleep(req, false, bodies));
    }
  }

  lemma BodyStepSolo(cfg: Config, s: State, e: Event)
    requires cfg.Valid() && Inv(cfg, s) && SoloIn(cfg, s) && Step(cfg, s, e).Some? && !Joins(cfg, s, e)
    requires e.Enter? || e.Resume?
    ensures SoloIn(cfg, Step(cfg, s, e).value)
  {
    var t, pc := e.t, s.threads[e.t];
    if e.Enter? {
      EnterStepIs(cfg, s, t);
      BodySolo(cfg, s, t, pc.req, 1);
    } else {
      ResumeStepIs(cfg, s, t);
      if s.core.inactive == [] {
        MoveSolo(cfg.g.disks, s.threads, s.inflight, t, pc.(woken := false));
      } else {
        BodySolo(cfg, s, t, pc.req, pc.bodies + 1);
      }
    }
  }

  lemma AddSolo(cfg: Config, s: State, t: nat, req: Request, id: nat)
    requires cfg.Valid() && t in s.threads && s.threads[t] == Adding(req, id) && SoloIn(cfg, s)
    requires AddStep(cfg, s, t, req, id).Some?
    ensures SoloIn(cfg, AddStep(cfg, s, t, req, id).value)
  {
    MoveSolo(cfg.g.disks, s.threads, s.inflight, t, AddStep(cfg, s, t, req, id).value.threads[t]);
  }

  lemma FlagSolo(cfg: Config, s: State, t: nat, id: nat, left: nat)
    requires t in s.threads && s.threads[t] == Flagging(id, left) && SoloIn(cfg, s)
    requires FlagStep(cfg, s, t, id, left).Some?
    ensures SoloIn(cfg, FlagStep(cfg, s, t, id, left).value)
  {
    MoveSolo(cfg.g.disks, s.threads, s.inflight, t, FlagStep(cfg, s, t, id, left).value.threads[t]);
  }

  lemma SubmitSolo(cfg: Config, s: State, t: nat, id: nat, left: nat, tag: nat)
    requires t in s.threads && s.threads[t] == Submitting(id, left) && SoloIn(cfg, s)
    requires SubmitStep(cfg, s, t, id, left, tag).Some?
    ensures SoloIn(cfg, SubmitStep(cfg, s, t, id, left, tag).value)
  {
    SubmitSends(cfg, s, t, id, left, tag);
    SentSolo(cfg.g.disks, s.threads, s.inflight, t, id, left, tag);
  }

  lemma SentSolo(n: nat, threads: map<nat, Pc>, inflight: map<nat, (nat, nat)>, t: nat, id: nat, left: nat, tag: nat)
    requires Solo(n, threads, inflight) && t in threads && threads[t] == Submitting(id, left)
    ensures var pc := if left == 0 then Releasing(id) else Submitting(id, left - 1);
            Solo(n, threads[t := pc], inflight)
    ensures 0 < left && tag !in inflight ==>
              Solo(n, threads[t := Submitting(id, left - 1)], inflight[tag := (id, left - 1)])
  {
    MoveSolo(n, threads, inflight, t, if left == 0 then Releasing(id) else Submitting(id, left - 1));
    if 0 < left && tag !in inflight {
      LaunchSolo(n, threads, inflight, t, id, left, tag);
    }
  }

  lemma LoopStepSolo(cfg: Config, s: State, e: Event)
    requires cfg.Valid() && Running(s) && SoloIn(cfg, s) && Step(cfg, s, e).Some?
    requires e.Add? || e.Flag? || e.Submit?
    ensures SoloIn(cfg, Step(cfg, s, e).value)
  {
    var t, pc := e.t, s.threads[e.t];
    match e
    case Add(_) =>
      AddStepIs(cfg, s, t, pc.req, pc.id);
      AddSolo(cfg, s, t, pc.req, pc.id);
    case Flag(_) =>
      FlagStepIs(cfg, s, t, pc.id, pc.left);
      FlagSolo(cfg, s, t, pc.id, pc.left);
    case Submit(_, tag) =>
      SubmitStepIs(cfg, s, t, tag, pc.id, pc.left);
      SubmitSolo(cfg, s, t, pc.id, pc.left, tag);
  }

  lemma SlotStepSolo(cfg: Config, s: State, e: Event)
    requires cfg.Valid() && Running(s) && SoloIn(cfg, s) && Step(cfg, s, e).Some?
    requires e.Start? || e.Scan? || e.Retire?
    ensures SoloIn(cfg, Step(cfg, s, e).value)
  {
    var n := cfg.g.disks;
    match e
    case Start(t, req) =>
      StartStepIs(cfg, s, t, req);
      MoveSolo(n, s.threads, s.inflight, t, Entering(req));
    case Scan(t) =>
      ScanStepIs(cfg, s, t, s.threads[t].id, s.threads[t].slot);
      MoveSolo(n, s.threads, s.inflight, t, Flagging(s.threads[t].id, n));
    case Retire(t, slot) =>
      RetireStepIs(cfg, s, t, slot);
      MoveSolo(n, s.threads, s.inflight, t, s.threads[t]);
  }

  lemma ReleaseSolo(cfg: Config, m: State, id: nat)
    requires id in m.core.stripes && SoloIn(cfg, m)
    ensures SoloIn(cfg, ReleaseIn(m, id))
  {
    WakeSolo(cfg.g.disks, m.threads, m.inflight);
  }

  lemma ReleaseStepSolo(cfg: Config, s: State, e: Event)
    requires cfg.Valid() && Running(s) && SoloIn(cfg, s) && Step(cfg, s, e).Some? && (e.Put? || e.Complete?)
    ensures SoloIn(cfg, Step(cfg, s, e).value)
  {
    match e
    case Put(t) =>
      PutStepIs(cfg, s, t, s.threads[t].id);
      MoveSolo(cfg.g.disks, s.threads, s.inflight, t, Idle);
      ReleaseSolo(cfg, Move(s, t, Idle), s.threads[t].id);
    case Complete(tag) =>
      var id := s.inflight[tag].0;
      CompleteStepIs(cfg, s, tag);
      LandSolo(cfg.g.disks, s.threads, s.inflight, tag);
      ReleaseSolo(cfg, s.(inflight := s.inflight - {tag}, refs := s.refs - multiset{id}), id);
  }

  lemma PoolStepSolo(cfg: Config, s: State, e: Event)
    requires cfg.Valid() && Inv(cfg, s) && SoloIn(cfg, s) && Step(cfg, s, e).Some?
    requires e.Daemon? || e.Grow? || e.ShrinkTake? || e.ShrinkDone?
    ensures SoloIn(cfg, Step(cfg, s, e).value)
  {
    var n := cfg.g.disks;
    match e
    case Daemon(t) =>
      var id := s.core.handleList[0];
      DaemonStepIs(cfg, s, t);
      FreeCount(cfg, s, id);
      GrabFree(cfg, s, t, Flagging(id, n), id);
    case Grow(t, id) =>
      GrowStepIs(cfg, s, t, id);
      GrabFree(cfg, s, t, Releasing(id), id);
    case ShrinkTake(t) =>
      ShrinkTakeStepIs(cfg, s, t);
      MoveSolo(n, s.threads, s.inflight, t, Shrinking(s.core.inactive[0]));
    case ShrinkDone(t) =>
      ShrinkDoneStepIs(cfg, s, t, s.threads[t].id);
      MoveSolo(n, s.threads, s.inflight, t, Idle);
  }

  lemma StepSolo(cfg: Config, s: State, e: Event)
    requires cfg.Valid() && Inv(cfg, s) && SoloIn(cfg, s) && Step(cfg, s, e).Some? && !Joins(cfg, s, e)
    ensures SoloIn(cfg, Step(cfg, s, e).value)
  {
    if e.Enter? || e.Resume? {
      BodyStepSolo(cfg, s, e);
    } else if e.Add? || e.Flag? || e.Submit? {
      LoopStepSolo(cfg, s, e);
    } else if e.Daemon? || e.Grow? || e.ShrinkTake? || e.ShrinkDone? {
      PoolStepSolo(cfg, s, e);
    } else if e.Put? || e.Complete? {
      ReleaseStepSolo(cfg, s, e);
    } else {
      SlotStepSolo(cfg, s, e);
    }
  }

  lemma {:induction false} RunSolo(cfg: Config, ss: seq<State>, es: seq<Event>, k: nat)
    requires cfg.Valid() && Run(cfg, ss, es) && k < |ss|
    requires forall i :: 0 <= i < |es| ==> !Joins(cfg, ss[i], es[i])
    ensures SoloIn(cfg, ss[k])
  {
    if k == 0 {
      CloseSolo(cfg.g.disks, ss[0].threads, ss[0].inflight);
    } else {
      RunSolo(cfg, ss, es, k - 1);
      NextSolo(cfg, ss, es, k - 1);
    }
  }

  lemma NextSolo(cfg: Config, ss: seq<State>, es: seq<Event>, k: nat)
    requires cfg.Valid() && Run(cfg, ss, es) && k < |es| && !Joins(cfg, ss[k], es[k]) && SoloIn(cfg, ss[k])
    ensures SoloIn(cfg, ss[k + 1])
  {
    RunInv(cfg, ss, es, k);
    assert StepAt(cfg, ss, es, k);
    StepSolo(cfg, ss[k], es[k]);
  }

  /** Over any run in which no request finds its row already referenced, no slot has two bios in
      flight, and no stripe has two holders. */
  lemma OneBioPerSlot(cfg: Config, ss: seq<State>, es: seq<Event>, k: nat)
    requires cfg.Valid() && Run(cfg, ss, es) && k < |ss|
    requires forall i :: 0 <= i < |es| ==> !Joins(cfg, ss[i], es[i])
    ensures BiosApart(ss[k].inflight) && HoldersApart(ss[k].threads)
  {
    RunSolo(cfg, ss, es, k);
    OpenSolo(cfg.g.disks, ss[k].threads, ss[k].inflight);
  }

  // ----- With a request for a slot in flight

  ghost predicate OwnStep(cfg: Config, t: nat, s: State, e: Event, s': State)
    requires cfg.Valid()
  {
    Step(cfg, s, e) == Some(s') && !e.Complete? && !e.Retire? && e.t == t
  }

  /** es leads from ss[0] to the last state by steps of thread t alone. */
  ghost predicate Path(cfg: Config, t: nat, ss: seq<State>, es: seq<Event>)
    requires cfg.Valid()
  {
    |ss| == |es| + 1 && forall i, j :: 0 <= i < |es| && j == i + 1 ==> OwnStep(cfg, t, ss[i], es[i], ss[j])
  }

  /** s' is reached from s by steps of thread t alone. */
  ghost predicate Leads(cfg: Config, t: nat, s: State, s': State)
    requires cfg.Valid()
  {
    exists ss, es :: Path(cfg, t, ss, es) && ss[0] == s && ss[|es|] == s'
  }

  lemma LeadsNowhere(cfg: Config, t: nat, s: State)
    requires cfg.Valid()
    ensures Leads(cfg, t, s, s)
  {
    assert Path(cfg, t, [s], []) && [s][0] == s;
  }

  lemma LeadsOn(cfg: Config, t: nat, s: State, m: State, e: Event, s': State)
    requires cfg.Valid() && Leads(cfg, t, s, m) && OwnStep(cfg, t, m, e, s')
    ensures Leads(cfg, t, s, s')
  {
    var ss, es :| Path(cfg, t, ss, es) && ss[0] == s && ss[|es|] == m;
    PathOn(cfg, t, ss, es, e, s');
    assert (ss + [s'])[0] == s && (ss + [s'])[|es + [e]|] == s';
  }

  lemma PathOn(cfg: Config, t: nat, ss: seq<State>, es: seq<Event>, e: Event, s': State)
    requires cfg.Valid() && Path(cfg, t, ss, es) && OwnStep(cfg, t, ss[|es|], e, s')
    ensures Path(cfg, t, ss + [s'], es + [e])
  {
    var ss', es' := ss + [s'], es + [e];
    forall i, j | 0 <= i < |es'| && j == i + 1 ensures OwnStep(cfg, t, ss'[i], es'[i], ss'[j]) {
      if i < |es| {
        assert OwnStep(cfg, t, ss[i], es[i], ss[j]);
      }
    }
  }

  /** Thread t, at pc, has come from s without completing the bio of slot i of stripe id. */
  ghost predicate Chases(cfg: Config, s: State, m: State, t: nat, pc: Pc, id: nat, i: nat, tag: nat)
    requires cfg.Valid()
  {
    && Leads(cfg, t, s, m) && LiveReachable(cfg, m) && m.core.fired == {}
    && t in m.threads && m.threads[t] == pc
    && id in m.core.stripes && i < |m.core.stripes[id].devs| == cfg.g.disks
    && tag in m.inflight && m.inflight[tag] == (id, i)
  }

  lemma ChaseStep(cfg: Config, s: State, m: State, t: nat, e: Event, m': State)
    requires cfg.Valid() && Leads(cfg, t, s, m) && LiveReachable(cfg, m) && m.core.fired == {}
    requires Step(cfg, m, e) == Some(m') && !e.Complete? && e.t == t && !e.Retire? && !Misses(cfg, m, e)
    ensures Leads(cfg, t, s, m') && LiveReachable(cfg, m') && m'.core.fired == {}
  {
    LeadsOn(cfg, t, s, m, e, m');
    LiveStep(cfg, m, e, m');
    LiveInv(cfg, m);
    OneStep(cfg, m, e, m');
  }

  /** The thread gets the stripe that is cached for the row. */
  lemma Joined(cfg: Config, s: State, t: nat, req: Request, tag: nat) returns (m: State)
    requires cfg.Valid() && LiveReachable(cfg, s) && s.core.fired == {} && t in s.threads && s.threads[t] == Idle
    requires var p := ComputeSector(cfg.g, req.sector);
             p.sector in s.core.hash && tag in s.inflight && s.inflight[tag] == (s.core.hash[p.sector], p.dataDisk)
    ensures var p := ComputeSector(cfg.g, req.sector);
            Chases(cfg, s, m, t, Adding(req, s.core.hash[p.sector]), s.core.hash[p.sector], p.dataDisk, tag)
  {
    var p := ComputeSector(cfg.g, req.sector);
    LeadsNowhere(cfg, t, s);
    LiveInv(cfg, s);
    StartStepIs(cfg, s, t, req);
    var s1 := Move(s, t, Entering(req));
    ChaseStep(cfg, s, s, t, Start(t, req), s1);
    LiveInv(cfg, s1);
    EnterStepIs(cfg, s1, t);
    m := OneBody(cfg, s1, t, req, 1);
    ChaseStep(cfg, s, s1, t, Enter(t), m);
    LiveInv(cfg, m);
    AddFacts(cfg, m, t, req, s.core.hash[p.sector]);
  }

  lemma Queued(cfg: Config, s: State, m: State, t: nat, req: Request, id: nat, i: nat, tag: nat) returns (m': State)
    requires cfg.Valid() && i == ComputeSector(cfg.g, req.sector).dataDisk
    requires Chases(cfg, s, m, t, Adding(req, id), id, i, tag)
    ensures Chases(cfg, s, m', t, Flagging(id, cfg.g.disks), id, i, tag)
    ensures !m'.core.stripes[id].devs[i].Idle()
  {
    LiveInv(cfg, m);
    AddStepIs(cfg, m, t, req, id);
    InsertFirst(Extent(req.sector, req.len));
    m' := AddStep(cfg, m, t, req, id).value;
    ChaseStep(cfg, s, m, t, Add(t), m');
    if m'.threads[t].Scanning? {
      m' := Scanned(cfg, s, m', t, id, i, tag);
    }
  }

  lemma Scanned(cfg: Config, s: State, m: State, t: nat, id: nat, i: nat, tag: nat) returns (m': State)
    requires cfg.Valid() && Chases(cfg, s, m, t, Scanning(id, i), id, i, tag)
    requires !m.core.stripes[id].devs[i].Idle()
    ensures Chases(cfg, s, m', t, Flagging(id, cfg.g.disks), id, i, tag)
    ensures !m'.core.stripes[id].devs[i].Idle()
  {
    LiveInv(cfg, m);
    ScanStepIs(cfg, m, t, id, i);
    m' := ScanStep(cfg, m, t, id, i).value;
    ChaseStep(cfg, s, m, t, Scan(t), m');
  }

  ghost predicate Wants(d: Dev) { d.wantRead || d.wantWrite }

  /** The flag loop marks every slot with a queue, also one that is in flight. */
  lemma {:induction false} Marked(cfg: Config, s: State, m: State, t: nat, id: nat, left: nat, i: nat, tag: nat)
    returns (m': State)
    requires cfg.Valid() && left <= cfg.g.disks && Chases(cfg, s, m, t, Flagging(id, left), id, i, tag)
    requires !m.core.stripes[id].devs[i].Idle() && (left <= i ==> Wants(m.core.stripes[id].devs[i]))
    ensures Chases(cfg, s, m', t, Submitting(id, cfg.g.disks), id, i, tag)
    ensures Wants(m'.core.stripes[id].devs[i])
    decreases left
  {
    m' := MarkedOne(cfg, s, m, t, id, left, i, tag);
    if left > 0 {
      m' := Marked(cfg, s, m', t, id, left - 1, i, tag);
    }
  }

  lemma MarkedOne(cfg: Config, s: State, m: State, t: nat, id: nat, left: nat, i: nat, tag: nat) returns (m': State)
    requires cfg.Valid() && left <= cfg.g.disks && Chases(cfg, s, m, t, Flagging(id, left), id, i, tag)
    requires !m.core.stripes[id].devs[i].Idle() && (left <= i ==> Wants(m.core.stripes[id].devs[i]))
    ensures var pc := if left == 0 then Submitting(id, cfg.g.disks) else Flagging(id, left - 1);
            Chases(cfg, s, m', t, pc, id, i, tag)
    ensures !m'.core.stripes[id].devs[i].Idle() && (left - 1 <= i ==> Wants(m'.core.stripes[id].devs[i]))
  {
    LiveInv(cfg, m);
    FlagStepIs(cfg, m, t, id, left);
    m' := FlagStep(cfg, m, t, id, left).value;
    ChaseStep(cfg, s, m, t, Flag(t), m');
  }

  lemma {:induction false} Above(tags: set<nat>) returns (b: nat)
    ensures forall tag :: tag in tags ==> tag < b
  {
    b := 0;
    if tags != {} {
      var one :| one in tags;
      var below := Above(tags - {one});
      b := if one < below then below else one + 1;
      assert forall tag :: tag in tags && tag != one ==> tag in tags - {one};
    }
  }

  /** The submit loop down to slot i. */
  lemma {:induction false} Approached(cfg: Config, s: State, m: State, t: nat, id: nat, left: nat, i: nat, tag: nat)
    returns (m': State)
    requires cfg.Valid() && i < left <= cfg.g.disks && Chases(cfg, s, m, t, Submitting(id, left), id, i, tag)
    requires Wants(m.core.stripes[id].devs[i])
    ensures Chases(cfg, s, m', t, Submitting(id, i + 1), id, i, tag) && Wants(m'.core.stripes[id].devs[i])
    decreases left
  {
    if left == i + 1 {
      m' := m;
    } else {
      m' := PassedBy(cfg, s, m, t, id, left, i, tag);
      m' := Approached(cfg, s, m', t, id, left - 1, i, tag);
    }
  }

  lemma PassedBy(cfg: Config, s: State, m: State, t: nat, id: nat, left: nat, i: nat, tag: nat) returns (m': State)
    requires cfg.Valid() && i + 1 < left <= cfg.g.disks && Chases(cfg, s, m, t, Submitting(id, left), id, i, tag)
    requires Wants(m.core.stripes[id].devs[i])
    ensures Chases(cfg, s, m', t, Submitting(id, left - 1), id, i, tag) && Wants(m'.core.stripes[id].devs[i])
  {
    var spare := Above(m.inflight.Keys);
    LiveInv(cfg, m);
    SubmitStepIs(cfg, m, t, spare, id, left);
    SubmitPasses(cfg, m, t, id, left, i, spare);
    m' := SubmitStep(cfg, m, t, id, left, spare).value;
    ChaseStep(cfg, s, m, t, Submit(t, spare), m');
  }

  lemma SubmitPasses(cfg: Config, m: State, t: nat, id: nat, left: nat, i: nat, spare: nat)
    requires cfg.Valid() && t in m.threads && i + 1 < left <= cfg.g.disks && spare !in m.inflight
    requires id in m.core.stripes && |m.core.stripes[id].devs| == cfg.g.disks
    ensures SubmitStep(cfg, m, t, id, left, spare).Some?
    ensures var m' := SubmitStep(cfg, m, t, id, left, spare).value;
            && m'.threads == m.threads[t := Submitting(id, left - 1)]
            && (forall tag :: tag in m.inflight ==> tag in m'.inflight && m'.inflight[tag] == m.inflight[tag])
            && id in m'.core.stripes && |m'.core.stripes[id].devs| == cfg.g.disks
            && m'.core.stripes[id].devs[i] == m.core.stripes[id].devs[i]
  {
    SubmitSends(cfg, m, t, id, left, spare);
  }

  /** Slot i of stripe id has two bios in flight. */
  ghost predicate TwoBios(s: State, id: nat, i: nat) {
    exists a, b :: a in s.inflight && b in s.inflight && a != b && s.inflight[a] == s.inflight[b] == (id, i)
  }

  lemma SentAgain(cfg: Config, s: State, m: State, t: nat, id: nat, i: nat, tag: nat) returns (m': State)
    requires cfg.Valid() && i < cfg.g.disks && cfg.present[i]
    requires Chases(cfg, s, m, t, Submitting(id, i + 1), id, i, tag) && Wants(m.core.stripes[id].devs[i])
    ensures Leads(cfg, t, s, m') && LiveReachable(cfg, m') && m'.core.fired == {} && TwoBios(m', id, i)
  {
    var spare := Above(m.inflight.Keys);
    LiveInv(cfg, m);
    SubmitStepIs(cfg, m, t, spare, id, i + 1);
    m' := SubmitStep(cfg, m, t, id, i + 1, spare).value;
    ChaseStep(cfg, s, m, t, Submit(t, spare), m');
    assert m'.inflight[spare] == (id, i) && m'.inflight[tag] == (id, i);
  }

  /** In every state that the live code reaches, an idle thread that makes a request for a slot whose
      bio is in flight gets, by its own steps, to sending the slot again before that bio completes;
      also when the request is refused. */
  lemma SecondSends(cfg: Config, s: State, t: nat, req: Request, tag: nat) returns (s': State)
    requires cfg.Valid() && LiveReachable(cfg, s) && s.core.fired == {} && t in s.threads && s.threads[t] == Idle
    requires var p := ComputeSector(cfg.g, req.sector);
             && p.sector in s.core.hash && tag in s.inflight && s.inflight[tag] == (s.core.hash[p.sector], p.dataDisk)
             && p.dataDisk < cfg.g.disks && cfg.present[p.dataDisk]
    ensures Leads(cfg, t, s, s') && LiveReachable(cfg, s') && s'.core.fired == {}
    ensures var p := ComputeSector(cfg.g, req.sector);
            TwoBios(s', s.core.hash[p.sector], p.dataDisk)
  {
    var p := ComputeSector(cfg.g, req.sector);
    var id, i := s.core.hash[p.sector], p.dataDisk;
    s' := Joined(cfg, s, t, req, tag);
    s' := Queued(cfg, s, s', t, req, id, i, tag);
    s' := Marked(cfg, s, s', t, id, cfg.g.disks, i, tag);
    s' := Approached(cfg, s, s', t, id, cfg.g.disks, i, tag);
    s' := SentAgain(cfg, s, s', t, id, i, tag);
  }

  /** Such states exist: for every array, a read of a data member that is present and the same read
      again before its bio completes. */
  lemma TwiceInFlight(cfg: Config, m: nat)
    requires cfg.Valid() && HoldsData(cfg.g, m) && cfg.present[m]
    ensures exists s, id :: LiveReachable(cfg, s) && s.core.fired == {} && TwoBios(s, id, m)
  {
    var none := Pool(cfg, 1, m);
    var req, id := ReadOf(cfg.g, m, 0), none.core.inactive[0];
    ReadHits(cfg.g, m, 0);
    var s0 := Entered(cfg, none, 1, m, 0, req);
    var s1 := Served(cfg, s0.core, s0, id, req, m);
    var s2 := SecondSends(cfg, s1, 0, req, 0);
    assert TwoBios(s2, id, m);
  }
}
