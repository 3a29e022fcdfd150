/** A stripe gets STRIPE_HANDLE in some run exactly if a member that holds data is missing. */
module StripeMissing {
  import opened AddressMap
  import opened StripeCore
  import opened StripeProtocol
  import opened StripeSafety
  import opened StripeRuns
  import opened StripeLive
  import opened StripeLiveRun
  import opened StripeHandle

  ghost predicate DataMissing(cfg: Config, m: nat)
    requires cfg.Valid()
  {
    HoldsData(cfg.g, m) && !cfg.present[m]
  }

  ghost predicate AnyHandled(s: State) {
    exists id :: id in s.core.stripes && s.core.stripes[id].handle
  }

  // ----- With every data member present

  /** A slot that wants a bio belongs to a member that holds data. */
  lemma WantsData(g: Geometry, c: Core<nat>, id: nat, i: nat)
    requires g.Valid() && SlotsOk(g, c) && id in c.stripes && i < |c.stripes[id].devs|
    requires c.stripes[id].devs[i].wantRead || c.stripes[id].devs[i].wantWrite
    ensures HoldsData(g, i)
  {
    var sh := c.stripes[id];
    assert Placed(g, sh) || Untouched(g, sh);
    assert Placed(g, sh) ==> SlotOk(g, sh, i);
    ParityInRange(g, Div(sh.sector, g.sectorsPerChunk));
  }

  lemma {:induction false} RunUnhandled(cfg: Config, ss: seq<State>, es: seq<Event>, k: nat)
    requires cfg.Valid() && Run(cfg, ss, es) && k < |ss| && forall m :: !DataMissing(cfg, m)
    ensures !AnyHandled(ss[k])
  {
    if k > 0 {
      RunUnhandled(cfg, ss, es, k - 1);
      NextUnhandled(cfg, ss, es, k - 1);
    }
  }

  lemma NextUnhandled(cfg: Config, ss: seq<State>, es: seq<Event>, k: nat)
    requires cfg.Valid() && Run(cfg, ss, es) && k < |es| && !AnyHandled(ss[k]) && forall m :: !DataMissing(cfg, m)
    ensures !AnyHandled(ss[k + 1])
  {
    RunInv(cfg, ss, es, k);
    assert StepAt(cfg, ss, es, k);
    StepUnhandled(cfg, ss[k], es[k]);
  }

  lemma SkipsMissing(cfg: Config, s: State, e: Event)
    requires cfg.Valid() && Inv(cfg, s) && Skips(cfg, s, e)
    ensures exists m :: DataMissing(cfg, m)
  {
    Open(cfg, s);
    WantsData(cfg.g, s.core, s.threads[e.t].id, s.threads[e.t].left - 1);
    assert DataMissing(cfg, s.threads[e.t].left - 1);
  }

  lemma StepUnhandled(cfg: Config, s: State, e: Event)
    requires cfg.Valid() && Inv(cfg, s) && Step(cfg, s, e).Some? && forall m :: !DataMissing(cfg, m)
    requires !AnyHandled(s)
    ensures !AnyHandled(Step(cfg, s, e).value)
  {
    if Skips(cfg, s, e) {
      SkipsMissing(cfg, s, e);
      assert false;
    }
    FreeIsUnhandled(cfg, s);
    StepRuns(cfg, s, e);
    Open(cfg, s);
    StepKeepsHandle(cfg, s, e);
  }

  lemma QueuedIsHandled(cfg: Config, s: State)
    requires cfg.Valid() && Inv(cfg, s)
    ensures s.core.handleList != [] ==> AnyHandled(s)
  {
    Open(cfg, s);
    assert s.core.handleList != [] ==> Positioned(s.core, s.refs, Limbo(s.threads), s.core.handleList[0]);
  }

  /** As long as every member that holds data is there, handle_list is always empty. */
  lemma NeverHandled(cfg: Config, s: State)
    requires cfg.Valid() && Reachable(cfg, s) && forall m :: !DataMissing(cfg, m)
    ensures !AnyHandled(s) && s.core.handleList == []
  {
    var ss: seq<State>, es: seq<Event> :| Run(cfg, ss, es) && ss[|es|] == s;
    RunUnhandled(cfg, ss, es, |es|);
    ReachableInv(cfg, s);
    QueuedIsHandled(cfg, s);
  }

  // ----- With a data member missing

  /** The submit loop comes to the missing member. */
  lemma Skipped(cfg: Config, b: Core<nat>, s: State, id: nat, m: nat) returns (s': State)
    requires cfg.Valid() && DataMissing(cfg, m) && Serves(cfg, b, s, id, Submitting(id, m + 1), m, true, true, false)
    ensures LiveReachable(cfg, s') && s'.core.fired == {} && AnyHandled(s')
  {
    LiveInv(cfg, s);
    SubmitStepIs(cfg, s, 0, 0, id, m + 1);
    SkipSetsHandle(cfg, s, 0, id, m + 1, 0);
    s' := SubmitStep(cfg, s, 0, id, m + 1, 0).value;
    LiveStep(cfg, s, Submit(0, 0), s');
    OneStep(cfg, s, Submit(0, 0), s');
  }

  /** A run without retirement in which a read of the missing member leaves its stripe handled. */
  lemma CanBeHandled(cfg: Config, m: nat) returns (s: State)
    requires cfg.Valid() && DataMissing(cfg, m)
    ensures LiveReachable(cfg, s) && s.core.fired == {} && AnyHandled(s)
  {
    s := Pool(cfg, 1, m);
    var req, id := ReadOf(cfg.g, m, 0), s.core.inactive[0];
    ReadHits(cfg.g, m, 0);
    s := Entered(cfg, s, 1, m, 0, req);
    var b := s.core;
    s := Added(cfg, b, s, id, req, m);
    s := Flagged(cfg, b, s, id, cfg.g.disks, m);
    s := Reached(cfg, b, s, id, cfg.g.disks, m);
    s := Skipped(cfg, b, s, id, m);
  }

  /** The exact condition: some run, with or without retirement, reaches a stripe with STRIPE_HANDLE
      if and only if some member that holds data is missing. */
  lemma HandledExactly(cfg: Config)
    requires cfg.Valid()
    ensures (exists s :: Reachable(cfg, s) && AnyHandled(s)) <==> exists m :: DataMissing(cfg, m)
    ensures (exists s :: LiveReachable(cfg, s) && s.core.fired == {} && AnyHandled(s)) <==>
            exists m :: DataMissing(cfg, m)
  {
    if m :| DataMissing(cfg, m) {
      var s := CanBeHandled(cfg, m);
      LiveIsReachable(cfg, s);
    } else {
      forall s | Reachable(cfg, s) ensures !AnyHandled(s) {
        NeverHandled(cfg, s);
      }
      forall s | LiveReachable(cfg, s) && s.core.fired == {} ensures Reachable(cfg, s) {
        LiveIsReachable(cfg, s);
      }
    }
  }
}
