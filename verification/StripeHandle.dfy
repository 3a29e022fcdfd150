/** In the live code of the stripe cache STRIPE_HANDLE, once set, is never cleared. */
module StripeHandle {
  import opened AddressMap
  import opened StripeCore
  import opened StripeProtocol
  import opened StripeSafety
  import opened StripeRuns

  // ----- Where STRIPE_HANDLE is set

  /** From c to d no stripe with STRIPE_HANDLE is freed, recycled or loses the flag. */
  ghost predicate HandleKept(c: Core<nat>, d: Core<nat>) {
    forall id :: id in c.stripes && c.stripes[id].handle ==>
      id in d.stripes && d.stripes[id].handle && d.stripes[id].sector == c.stripes[id].sector
  }

  /** From c to d no stripe gets STRIPE_HANDLE. */
  ghost predicate NoneAdded(c: Core<nat>, d: Core<nat>) {
    forall id :: id in d.stripes && d.stripes[id].handle ==> id in c.stripes && c.stripes[id].handle
  }

  /** The event is a turn of the submit loop for a slot that wants a bio and whose member is missing
      (line 856). */
  ghost predicate Skips(cfg: Config, s: State, e: Event) {
    && e.Submit? && e.t in s.threads
    && match s.threads[e.t]
       case Submitting(id, left) =>
         && 0 < left <= |cfg.present| && !cfg.present[left - 1]
         && id in s.core.stripes && left <= |s.core.stripes[id].devs|
         && (s.core.stripes[id].devs[left - 1].wantWrite || s.core.stripes[id].devs[left - 1].wantRead)
       case _ => false
  }

  /** What the free stripes have in common in a reachable state. */
  ghost predicate FreeUnhandled(s: State) {
    forall id :: id in s.core.inactive || id in Limbo(s.threads) ==>
      id in s.core.stripes && !s.core.stripes[id].handle
  }

  lemma FreeIsUnhandled(cfg: Config, s: State)
    requires cfg.Valid() && Inv(cfg, s)
    ensures FreeUnhandled(s)
  {
    Open(cfg, s);
    forall id | id in s.core.inactive || id in Limbo(s.threads)
      ensures id in s.core.stripes && !s.core.stripes[id].handle
    {
      assert Positioned(s.core, s.refs, Limbo(s.threads), id);
    }
  }

  lemma BodyKeepsHandle(g: Geometry, c: Core<nat>, sector: nat, pd: nat, noblock: bool)
    requires g.Valid() && (forall k :: k in c.hash ==> c.hash[k] in c.stripes)
    requires forall id :: id in c.inactive ==> id in c.stripes && !c.stripes[id].handle
    ensures match Body(g, c, sector, pd, noblock)
            case Got(_, d) => HandleKept(c, d) && NoneAdded(c, d)
            case _ => true
  {}

  lemma OneBodyKeepsHandle(cfg: Config, s: State, t: nat, req: Request, bodies: nat)
    requires cfg.Valid() && Running(s) && FreeUnhandled(s) && t in s.threads
    ensures HandleKept(s.core, OneBody(cfg, s, t, req, bodies).core)
    ensures NoneAdded(s.core, OneBody(cfg, s, t, req, bodies).core)
  {
    var p := ComputeSector(cfg.g, req.sector);
    BodyKeepsHandle(cfg.g, s.core, p.sector, p.parityDisk, req.noblock);
  }

  lemma ReleaseKeepsHandle(s: State, id: nat)
    requires id in s.core.stripes
    ensures HandleKept(s.core, ReleaseIn(s, id).core) && NoneAdded(s.core, ReleaseIn(s, id).core)
  {}

  lemma AddKeepsHandle(cfg: Config, s: State, t: nat, req: Request, id: nat)
    requires cfg.Valid() && t in s.threads && AddStep(cfg, s, t, req, id).Some?
    ensures HandleKept(s.core, AddStep(cfg, s, t, req, id).value.core)
    ensures NoneAdded(s.core, AddStep(cfg, s, t, req, id).value.core)
  {}

  lemma FlagKeepsHandle(cfg: Config, s: State, t: nat, id: nat, left: nat)
    requires t in s.threads && FlagStep(cfg, s, t, id, left).Some?
    ensures HandleKept(s.core, FlagStep(cfg, s, t, id, left).value.core)
    ensures NoneAdded(s.core, FlagStep(cfg, s, t, id, left).value.core)
  {}

  /** A turn of the submit loop changes stripe id alone. */
  lemma SubmitTouches(cfg: Config, s: State, t: nat, id: nat, left: nat, tag: nat)
    requires t in s.threads && s.threads[t] == Submitting(id, left) && SubmitStep(cfg, s, t, id, left, tag).Some?
    ensures var d := SubmitStep(cfg, s, t, id, left, tag).value.core;
            if left == 0 then d == s.core
            else
              && id in s.core.stripes && id in d.stripes
              && d.stripes == s.core.stripes[id := d.stripes[id]]
              && d.stripes[id].sector == s.core.stripes[id].sector
              && (d.stripes[id].handle <==> s.core.stripes[id].handle || Skips(cfg, s, Submit(t, tag)))
  {
    var s' := SubmitStep(cfg, s, t, id, left, tag).value;
    if left > 0 && (s.core.stripes[id].devs[left - 1].wantWrite || s.core.stripes[id].devs[left - 1].wantRead) {
      var d := s.core.stripes[id].devs[left - 1];
      var c := SetDev(s.core, id, left - 1, if d.wantWrite then d.(wantWrite := false) else d.(wantRead := false));
      assert s'.core == if cfg.present[left - 1] then Grab(c, id) else SetHandle(c, id);
    } else {
      assert s'.core == s.core;
    }
  }

  lemma SubmitKeepsHandle(cfg: Config, s: State, t: nat, id: nat, left: nat, tag: nat)
    requires t in s.threads && s.threads[t] == Submitting(id, left) && SubmitStep(cfg, s, t, id, left, tag).Some?
    ensures HandleKept(s.core, SubmitStep(cfg, s, t, id, left, tag).value.core)
    ensures !Skips(cfg, s, Submit(t, tag)) ==> NoneAdded(s.core, SubmitStep(cfg, s, t, id, left, tag).value.core)
  {
    SubmitTouches(cfg, s, t, id, left, tag);
  }

  lemma SkipSetsHandle(cfg: Config, s: State, t: nat, id: nat, left: nat, tag: nat)
    requires t in s.threads && s.threads[t] == Submitting(id, left) && Skips(cfg, s, Submit(t, tag))
    ensures SubmitStep(cfg, s, t, id, left, tag).Some?
    ensures var d := SubmitStep(cfg, s, t, id, left, tag).value.core;
            id in d.stripes && d.stripes[id].handle
  {}

  /** No live step clears STRIPE_HANDLE: a stripe that has it keeps it, and its sector, until the
      end of the run, so it can only go from a holder back to handle_list. Only the submit loop sets
      it, for a member that is missing. */
  lemma HandleSticks(cfg: Config, s: State, e: Event)
    requires cfg.Valid() && Reachable(cfg, s) && Step(cfg, s, e).Some?
    ensures HandleKept(s.core, Step(cfg, s, e).value.core)
    ensures !Skips(cfg, s, e) ==> NoneAdded(s.core, Step(cfg, s, e).value.core)
  {
    ReachableInv(cfg, s);
    FreeIsUnhandled(cfg, s);
    StepKeepsHandle(cfg, s, e);
  }

  lemma RunKeepsHandle(cfg: Config, ss: seq<State>, es: seq<Event>, k: nat)
    requires cfg.Valid() && Run(cfg, ss, es) && k < |es|
    ensures HandleKept(ss[k].core, ss[k + 1].core) && ss[k].core.fired == {}
  {
    RunInv(cfg, ss, es, k);
    assert StepAt(cfg, ss, es, k);
    StepRuns(cfg, ss[k], es[k]);
    FreeIsUnhandled(cfg, ss[k]);
    StepKeepsHandle(cfg, ss[k], es[k]);
  }

  /** Once a stripe has STRIPE_HANDLE it keeps it, and its sector, in any run with or without
      retirement, and is never free again. */
  lemma {:induction false} HandledForever(cfg: Config, ss: seq<State>, es: seq<Event>, i: nat, j: nat, id: nat)
    requires cfg.Valid() && Run(cfg, ss, es) && i <= j < |ss| && ss[j].core.fired == {}
    requires id in ss[i].core.stripes && ss[i].core.stripes[id].handle
    ensures id in ss[j].core.stripes && ss[j].core.stripes[id].handle
    ensures ss[j].core.stripes[id].sector == ss[i].core.stripes[id].sector
    ensures id !in ss[j].core.inactive && id !in Limbo(ss[j].threads)
  {
    if i < j {
      RunKeepsHandle(cfg, ss, es, j - 1);
      HandledForever(cfg, ss, es, i, j - 1, id);
    }
    RunInv(cfg, ss, es, j);
    FreeIsUnhandled(cfg, ss[j]);
  }

  lemma StepKeepsHandle(cfg: Config, s: State, e: Event)
    requires cfg.Valid() && Running(s) && FreeUnhandled(s) && Step(cfg, s, e).Some?
    ensures HandleKept(s.core, Step(cfg, s, e).value.core)
    ensures !Skips(cfg, s, e) ==> NoneAdded(s.core, Step(cfg, s, e).value.core)
  {
    if e.Enter? || e.Resume? {
      EntererKeepsHandle(cfg, s, e);
    } else if e.Put? || e.Add? || e.Flag? || e.Submit? {
      HolderKeepsHandle(cfg, s, e);
    } else if e.Scan? || e.Retire? {
      SlotKeepsHandle(cfg, s, e);
    } else if e.Complete? {
      CompleteKeepsHandle(cfg, s, e.tag);
    } else {
      ThreadKeepsHandle(cfg, s, e);
    }
  }

  lemma CompleteKeepsHandle(cfg: Config, s: State, tag: nat)
    requires cfg.Valid() && Running(s) && Step(cfg, s, Complete(tag)).Some?
    ensures HandleKept(s.core, Step(cfg, s, Complete(tag)).value.core)
    ensures NoneAdded(s.core, Step(cfg, s, Complete(tag)).value.core)
  {
    var id := s.inflight[tag].0;
    CompleteStepIs(cfg, s, tag);
    ReleaseKeepsHandle(s.(inflight := s.inflight - {tag}, refs := s.refs - multiset{id}), id);
  }

  lemma EntererKeepsHandle(cfg: Config, s: State, e: Event)
    requires cfg.Valid() && Running(s) && FreeUnhandled(s) && Step(cfg, s, e).Some? && (e.Enter? || e.Resume?)
    ensures HandleKept(s.core, Step(cfg, s, e).value.core)
    ensures !Skips(cfg, s, e) ==> NoneAdded(s.core, Step(cfg, s, e).value.core)
  {
    if e.Enter? {
      EnterStepIs(cfg, s, e.t);
      OneBodyKeepsHandle(cfg, s, e.t, s.threads[e.t].req, 1);
    } else {
      ResumeStepIs(cfg, s, e.t);
      OneBodyKeepsHandle(cfg, s, e.t, s.threads[e.t].req, s.threads[e.t].bodies + 1);
    }
  }

  lemma HolderKeepsHandle(cfg: Config, s: State, e: Event)
    requires cfg.Valid() && Running(s) && Step(cfg, s, e).Some?
    requires e.Put? || e.Add? || e.Flag? || e.Submit?
    ensures HandleKept(s.core, Step(cfg, s, e).value.core)
    ensures !Skips(cfg, s, e) ==> NoneAdded(s.core, Step(cfg, s, e).value.core)
  {
    var t, pc := e.t, s.threads[e.t];
    match e
    case Add(_) =>
      AddStepIs(cfg, s, t, pc.req, pc.id);
      AddKeepsHandle(cfg, s, t, pc.req, pc.id);
    case Flag(_) =>
      FlagStepIs(cfg, s, t, pc.id, pc.left);
      FlagKeepsHandle(cfg, s, t, pc.id, pc.left);
    case _ =>
      LeaverKeepsHandle(cfg, s, e);
  }

  lemma LeaverKeepsHandle(cfg: Config, s: State, e: Event)
    requires cfg.Valid() && Running(s) && Step(cfg, s, e).Some? && (e.Put? || e.Submit?)
    ensures HandleKept(s.core, Step(cfg, s, e).value.core)
    ensures !Skips(cfg, s, e) ==> NoneAdded(s.core, Step(cfg, s, e).value.core)
  {
    var t, pc := e.t, s.threads[e.t];
    if e.Put? {
      PutStepIs(cfg, s, t, pc.id);
      ReleaseKeepsHandle(Move(s, t, Idle), pc.id);
    } else {
      SubmitStepIs(cfg, s, t, e.tag, pc.id, pc.left);
      SubmitKeepsHandle(cfg, s, t, pc.id, pc.left, e.tag);
    }
  }

  lemma ThreadKeepsHandle(cfg: Config, s: State, e: Event)
    requires cfg.Valid() && Running(s) && FreeUnhandled(s) && Step(cfg, s, e).Some?
    requires e.Start? || e.Daemon? || e.Grow? || e.ShrinkTake? || e.ShrinkDone?
    ensures HandleKept(s.core, Step(cfg, s, e).value.core)
    ensures !Skips(cfg, s, e) ==> NoneAdded(s.core, Step(cfg, s, e).value.core)
  {
    if e.ShrinkDone? {
      assert s.threads[e.t].id in Limbo(s.threads);
    }
  }

  lemma SlotKeepsHandle(cfg: Config, s: State, e: Event)
    requires cfg.Valid() && Running(s) && Step(cfg, s, e).Some? && (e.Scan? || e.Retire?)
    ensures HandleKept(s.core, Step(cfg, s, e).value.core)
    ensures !Skips(cfg, s, e) ==> NoneAdded(s.core, Step(cfg, s, e).value.core)
  {}
}
