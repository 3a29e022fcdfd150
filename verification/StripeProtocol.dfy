/** The stripe cache as a step system: request threads, the jraid5d daemon, I/O completions and the
    threads that grow and shrink the pool, interleaved at the sections under device_lock. */
module StripeProtocol {
  import opened AddressMap
  import opened RequestChain
  import opened StripeCore

  /** present[i] says whether conf->disks[i].jrdev is set. */
  datatype Config = Config(g: Geometry, present: seq<bool>) {
    ghost predicate Valid() { g.Valid() && |present| == g.disks }
  }

  /** A bio handed to jraid5_make_request, and the noblock argument derived from it. */
  datatype Request = Request(sector: nat, len: nat, write: bool, noblock: bool)

  /** Where a thread is between two atomic steps, with the locals it carries. */
  datatype Pc =
    | Idle
    | Entering(req: Request)                           // before get_active_stripe takes the lock
    | Asleep(req: Request, woken: bool, bodies: nat)   // in wait_event_lock_irq; loop bodies so far
    | Adding(req: Request, id: nat)                    // before __add_stripe_bio
    | Scanning(id: nat, slot: nat)                     // before its coverage scan
    | Flagging(id: nat, left: nat)                     // in the first loop of handle_stripe
    | Submitting(id: nat, left: nat)                   // in its submit loop
    | Releasing(id: nat)                               // before release_stripe
    | Shrinking(id: nat)                               // shrink_stripes, after dropping the lock

  /** inflight maps each submitted bio to its stripe and device slot. refs counts the references to
      each stripe; released and clock record when a stripe last came onto a list. The source
      has none of these three. */
  datatype State = State(core: Core<nat>, threads: map<nat, Pc>, inflight: map<nat, (nat, nat)>,
                         refs: multiset<nat>, released: map<nat, nat>, clock: nat)

  datatype Event =
    | Start(t: nat, req: Request)
    | Enter(t: nat)
    | Resume(t: nat)
    | Add(t: nat)
    | Scan(t: nat)
    | Flag(t: nat)
    | Submit(t: nat, tag: nat)
    | Put(t: nat)
    | Complete(tag: nat)
    | Daemon(t: nat)
    | Grow(t: nat, id: nat)
    | ShrinkTake(t: nat)
    | ShrinkDone(t: nat)
    | Retire(t: nat, slot: nat)

  /** The stripe on which a thread holds a reference, as a multiset. */
  function HeldBy(pc: Pc): multiset<nat> {
    match pc
    case Adding(_, id) => multiset{id}
    case Scanning(id, _) => multiset{id}
    case Flagging(id, _) => multiset{id}
    case Submitting(id, _) => multiset{id}
    case Releasing(id) => multiset{id}
    case _ => multiset{}
  }

  /** wake_up(&conf->wait_for_stripe): every sleeper. */
  function WakeAll(threads: map<nat, Pc>): map<nat, Pc> {
    map t | t in threads :: if threads[t].Asleep? then threads[t].(woken := true) else threads[t]
  }

  /** Thread t moves to pc; the references follow. */
  function Move(s: State, t: nat, pc: Pc): State
    requires t in s.threads
  {
    s.(threads := s.threads[t := pc], refs := s.refs - HeldBy(s.threads[t]) + HeldBy(pc))
  }

  /** No step follows a check that has found its condition: BUG() stops the machine. */
  ghost predicate Running(s: State) {
    && s.core.fired == {}
    && (forall k :: k in s.core.hash ==> s.core.hash[k] in s.core.stripes)
    && (forall id :: id in s.core.inactive ==> id in s.core.stripes)
    && (forall id :: id in s.core.handleList ==> id in s.core.stripes)
  }

  ghost function OneBody(cfg: Config, s: State, t: nat, req: Request, bodies: nat): State
    requires cfg.Valid() && Running(s) && t in s.threads
  {
    var p := ComputeSector(cfg.g, req.sector);
    match Body(cfg.g, s.core, p.sector, p.parityDisk, req.noblock)
    case Got(id, c) => Move(s, t, Adding(req, id)).(core := c)
    case Null => Move(s, t, Idle)
    case MustWait => Move(s, t, Asleep(req, false, bodies))
  }

  function SetDev(c: Core<nat>, id: nat, i: nat, d: Dev): Core<nat>
    requires id in c.stripes && i < |c.stripes[id].devs|
  {
    c.(stripes := c.stripes[id := c.stripes[id].(devs := c.stripes[id].devs[i := d])])
  }

  function SetHandle(c: Core<nat>, id: nat): Core<nat>
    requires id in c.stripes
  {
    c.(stripes := c.stripes[id := c.stripes[id].(handle := true)])
  }

  /** Thread t moves to pc and slot i of stripe id becomes d. */
  function Advance(s: State, t: nat, pc: Pc, id: nat, i: nat, d: Dev): State
    requires t in s.threads && id in s.core.stripes && i < |s.core.stripes[id].devs|
  {
    Move(s, t, pc).(core := SetDev(s.core, id, i, d))
  }

  /** __add_stripe_bio up to the unlock; the caller ignores a refusal and goes on. */
  ghost function AddStep(cfg: Config, s: State, t: nat, req: Request, id: nat): Option<State>
    requires cfg.Valid() && t in s.threads
  {
    var dd := ComputeSector(cfg.g, req.sector).dataDisk;
    if id !in s.core.stripes || dd >= |s.core.stripes[id].devs| then None
    else
      var d := s.core.stripes[id].devs[dd];
      match Insert(if req.write then d.towrite else d.toread, Extent(req.sector, req.len))
      case None => Some(Move(s, t, Flagging(id, cfg.g.disks)))
      case Some(chain) =>
        if req.write then Some(Advance(s, t, Scanning(id, dd), id, dd, d.(towrite := chain)))
        else Some(Advance(s, t, Flagging(id, cfg.g.disks), id, dd, d.(toread := chain)))
  }

  ghost function ScanStep(cfg: Config, s: State, t: nat, id: nat, slot: nat): Option<State>
    requires cfg.Valid() && t in s.threads
  {
    if id !in s.core.stripes || slot >= |s.core.stripes[id].devs| then None
    else
      var d := s.core.stripes[id].devs[slot];
      Some(Advance(s, t, Flagging(id, cfg.g.disks), id, slot,
                   if Covers(d.towrite, d.sector) then d.(overwrite := true) else d))
  }

  /** Lines 699-743 for one device; the loop runs downwards. */
  function FlagStep(cfg: Config, s: State, t: nat, id: nat, left: nat): Option<State>
    requires t in s.threads
  {
    if left == 0 then Some(Move(s, t, Submitting(id, cfg.g.disks)))
    else if id !in s.core.stripes || left > |s.core.stripes[id].devs| then None
    else
      var d := s.core.stripes[id].devs[left - 1];
      Some(Advance(s, t, Flagging(id, left - 1), id, left - 1,
                   d.(wantRead := d.wantRead || d.toread != [], wantWrite := d.wantWrite || d.towrite != [])))
  }

  /** atomic_inc(&sh->count) and generic_make_request. */
  function Launch(s: State, id: nat, i: nat, tag: nat): State
    requires id in s.core.stripes
  {
    s.(core := Grab(s.core, id), inflight := s.inflight[tag := (id, i)], refs := s.refs + multiset{id})
  }

  /** Lines 801-858 for one device. */
  function SubmitStep(cfg: Config, s: State, t: nat, id: nat, left: nat, tag: nat): Option<State>
    requires t in s.threads
  {
    if left == 0 then Some(Move(s, t, Releasing(id)))
    else if id !in s.core.stripes || left > |s.core.stripes[id].devs| || left > |cfg.present| then None
    else
      var i := left - 1;
      var d := s.core.stripes[id].devs[i];
      if !d.wantWrite && !d.wantRead then Some(Move(s, t, Submitting(id, i)))
      else
        var cleared := Advance(s, t, Submitting(id, i), id, i,
                               if d.wantWrite then d.(wantWrite := false) else d.(wantRead := false));
        if !cfg.present[i] then Some(cleared.(core := SetHandle(cleared.core, id)))
        else if tag in s.inflight then None
        else Some(Launch(cleared, id, i, tag))
  }

  /** __release_stripe by whoever gives up a reference: a thread or a completed bio. */
  function ReleaseIn(s: State, id: nat): State
    requires id in s.core.stripes
  {
    var (c, wake) := Release(s.core, id);
    var listed := s.core.stripes[id].count == 1;
    s.(core := c, threads := if wake then WakeAll(s.threads) else s.threads,
       released := if listed then s.released[id := s.clock] else s.released,
       clock := if listed then s.clock + 1 else s.clock)
  }

  /** Lines 706-791 are disabled in this version; this step stands for them. The holder of a stripe
      empties the queues of one slot, and its page is no longer wholly overwritten. */
  function RetireStep(s: State, t: nat, id: nat, slot: nat): Option<State>
    requires t in s.threads
  {
    if id !in s.core.stripes || slot >= |s.core.stripes[id].devs| then None
    else
      var d := s.core.stripes[id].devs[slot];
      Some(Advance(s, t, s.threads[t], id, slot, d.(toread := [], towrite := [], overwrite := false)))
  }

  ghost function ThreadStep(cfg: Config, s: State, e: Event): Option<State>
    requires cfg.Valid() && Running(s) && !e.Complete? && e.t in s.threads
  {
    match (e, s.threads[e.t])
    case (Start(t, req), Idle) => Some(Move(s, t, Entering(req)))
    case (Enter(t), Entering(req)) => Some(OneBody(cfg, s, t, req, 1))
    case (Resume(t), Asleep(req, true, bodies)) =>
      if s.core.inactive == [] then Some(Move(s, t, Asleep(req, false, bodies)))
      else Some(OneBody(cfg, s, t, req, bodies + 1))
    case (Add(t), Adding(req, id)) => AddStep(cfg, s, t, req, id)
    case (Scan(t), Scanning(id, slot)) => ScanStep(cfg, s, t, id, slot)
    case (Flag(t), Flagging(id, left)) => FlagStep(cfg, s, t, id, left)
    case (Submit(t, tag), Submitting(id, left)) => SubmitStep(cfg, s, t, id, left, tag)
    case (Put(t), Releasing(id)) =>
      if id !in s.core.stripes then None else Some(ReleaseIn(Move(s, t, Idle), id))
    case (Daemon(t), Idle) =>
      if s.core.handleList == [] then None
      else Some(Move(s, t, Flagging(s.core.handleList[0], cfg.g.disks)).(core := DaemonTake(s.core)))
    case (Grow(t, id), Idle) =>
      if id in s.core.stripes then None
      else Some(Move(s, t, Releasing(id)).(core := GrowOne(cfg.g, s.core, id)))
    case (ShrinkTake(t), Idle) =>
      if s.core.inactive == [] then None
      else Some(Move(s, t, Shrinking(s.core.inactive[0])).(core := TakeFree(s.core)))
    case (ShrinkDone(t), Shrinking(id)) =>
      if id !in s.core.stripes then None else Some(Move(s, t, Idle).(core := ShrinkFree(s.core, id)))
    case (Retire(t, slot), Flagging(id, _)) => RetireStep(s, t, id, slot)
    case (Retire(t, slot), Submitting(id, _)) => RetireStep(s, t, id, slot)
    case (Retire(t, slot), Releasing(id)) => RetireStep(s, t, id, slot)
    case _ => None
  }

  /** One atomic step; None when the event is not possible in s. */
  ghost function Step(cfg: Config, s: State, e: Event): Option<State>
    requires cfg.Valid()
  {
    if !Running(s) then None
    else if e.Complete? then
      if e.tag !in s.inflight || s.inflight[e.tag].0 !in s.core.stripes then None
      else
        var id := s.inflight[e.tag].0;
        Some(ReleaseIn(s.(inflight := s.inflight - {e.tag}, refs := s.refs - multiset{id}), id))
    else if e.t !in s.threads then None
    else ThreadStep(cfg, s, e)
  }

  // ----- The step taken by each event

  lemma EnterStepIs(cfg: Config, s: State, t: nat)
    requires cfg.Valid() && Running(s) && t in s.threads && s.threads[t].Entering?
    ensures Step(cfg, s, Enter(t)) == Some(OneBody(cfg, s, t, s.threads[t].req, 1))
  {}

  lemma ResumeStepIs(cfg: Config, s: State, t: nat)
    requires cfg.Valid() && Running(s) && t in s.threads && s.threads[t].Asleep? && s.threads[t].woken
    ensures Step(cfg, s, Resume(t)) ==
            if s.core.inactive == [] then Some(Move(s, t, s.threads[t].(woken := false)))
            else Some(OneBody(cfg, s, t, s.threads[t].req, s.threads[t].bodies + 1))
  {}

  lemma StartStepIs(cfg: Config, s: State, t: nat, req: Request)
    requires cfg.Valid() && Running(s) && t in s.threads && s.threads[t] == Idle
    ensures Step(cfg, s, Start(t, req)) == Some(Move(s, t, Entering(req)))
  {}

  lemma AddStepIs(cfg: Config, s: State, t: nat, req: Request, id: nat)
    requires cfg.Valid() && Running(s) && t in s.threads && s.threads[t] == Adding(req, id)
    ensures Step(cfg, s, Add(t)) == AddStep(cfg, s, t, req, id)
  {}

  lemma ScanStepIs(cfg: Config, s: State, t: nat, id: nat, slot: nat)
    requires cfg.Valid() && Running(s) && t in s.threads && s.threads[t] == Scanning(id, slot)
    ensures Step(cfg, s, Scan(t)) == ScanStep(cfg, s, t, id, slot)
  {}

  lemma FlagStepIs(cfg: Config, s: State, t: nat, id: nat, left: nat)
    requires cfg.Valid() && Running(s) && t in s.threads && s.threads[t] == Flagging(id, left)
    ensures Step(cfg, s, Flag(t)) == FlagStep(cfg, s, t, id, left)
  {}

  lemma SubmitStepIs(cfg: Config, s: State, t: nat, tag: nat, id: nat, left: nat)
    requires cfg.Valid() && Running(s) && t in s.threads && s.threads[t] == Submitting(id, left)
    ensures Step(cfg, s, Submit(t, tag)) == SubmitStep(cfg, s, t, id, left, tag)
  {}

  /** What a turn of the submit loop does to the threads and to the bios in flight. */
  lemma SubmitSends(cfg: Config, s: State, t: nat, id: nat, left: nat, tag: nat)
    requires t in s.threads && SubmitStep(cfg, s, t, id, left, tag).Some?
    ensures var s' := SubmitStep(cfg, s, t, id, left, tag).value;
            && s'.threads == s.threads[t := if left == 0 then Releasing(id) else Submitting(id, left - 1)]
            && (s'.inflight == s.inflight
                || (0 < left && tag !in s.inflight && s'.inflight == s.inflight[tag := (id, left - 1)]))
  {
    if left > 0 {
      var d := s.core.stripes[id].devs[left - 1];
      if d.wantWrite || d.wantRead {
        var cleared := Advance(s, t, Submitting(id, left - 1), id, left - 1,
                               if d.wantWrite then d.(wantWrite := false) else d.(wantRead := false));
        assert SubmitStep(cfg, s, t, id, left, tag).value ==
               if cfg.present[left - 1] then Launch(cleared, id, left - 1, tag)
               else cleared.(core := SetHandle(cleared.core, id));
      } else {
        assert SubmitStep(cfg, s, t, id, left, tag).value == Move(s, t, Submitting(id, left - 1));
      }
    }
  }

  lemma PutStepIs(cfg: Config, s: State, t: nat, id: nat)
    requires cfg.Valid() && Running(s) && t in s.threads && s.threads[t] == Releasing(id) && id in s.core.stripes
    ensures Step(cfg, s, Put(t)) == Some(ReleaseIn(Move(s, t, Idle), id))
  {}

  lemma CompleteStepIs(cfg: Config, s: State, tag: nat)
    requires cfg.Valid() && Running(s) && tag in s.inflight && s.inflight[tag].0 in s.core.stripes
    ensures var id := s.inflight[tag].0;
            Step(cfg, s, Complete(tag)) ==
            Some(ReleaseIn(s.(inflight := s.inflight - {tag}, refs := s.refs - multiset{id}), id))
  {}

  lemma RetireStepIs(cfg: Config, s: State, t: nat, slot: nat)
    requires cfg.Valid() && Running(s) && t in s.threads
    requires s.threads[t].Flagging? || s.threads[t].Submitting? || s.threads[t].Releasing?
    ensures Step(cfg, s, Retire(t, slot)) == RetireStep(s, t, s.threads[t].id, slot)
  {}

  lemma DaemonStepIs(cfg: Config, s: State, t: nat)
    requires cfg.Valid() && Running(s) && t in s.threads && s.threads[t] == Idle && s.core.handleList != []
    ensures Step(cfg, s, Daemon(t)) ==
            Some(Move(s, t, Flagging(s.core.handleList[0], cfg.g.disks)).(core := DaemonTake(s.core)))
  {}

  lemma GrowStepIs(cfg: Config, s: State, t: nat, id: nat)
    requires cfg.Valid() && Running(s) && t in s.threads && s.threads[t] == Idle && id !in s.core.stripes
    ensures Step(cfg, s, Grow(t, id)) == Some(Move(s, t, Releasing(id)).(core := GrowOne(cfg.g, s.core, id)))
  {}

  lemma ShrinkTakeStepIs(cfg: Config, s: State, t: nat)
    requires cfg.Valid() && Running(s) && t in s.threads && s.threads[t] == Idle && s.core.inactive != []
    ensures Step(cfg, s, ShrinkTake(t)) == Some(Move(s, t, Shrinking(s.core.inactive[0])).(core := TakeFree(s.core)))
  {}

  lemma ShrinkDoneStepIs(cfg: Config, s: State, t: nat, id: nat)
    requires cfg.Valid() && Running(s) && t in s.threads && s.threads[t] == Shrinking(id) && id in s.core.stripes
    ensures Step(cfg, s, ShrinkDone(t)) == Some(Move(s, t, Idle).(core := ShrinkFree(s.core, id)))
  {}

  /** jraid5_run before grow_stripes: no stripe, nobody in the cache. */
  ghost predicate Init(s: State) {
    && s.core == Core(map[], map[], [], [], 0, {})
    && (forall t :: t in s.threads ==> s.threads[t] == Idle)
    && s.inflight == map[] && s.refs == multiset{} && s.released == map[]
  }

  ghost predicate StepAt(cfg: Config, ss: seq<State>, es: seq<Event>, i: nat)
    requires cfg.Valid() && |ss| == |es| + 1 && i < |es|
  {
    Step(cfg, ss[i], es[i]) == Some(ss[i + 1])
  }

  /** ss are the states and es the events of a run. */
  ghost predicate Run(cfg: Config, ss: seq<State>, es: seq<Event>)
    requires cfg.Valid()
  {
    && |ss| == |es| + 1
    && Init(ss[0])
    && forall i :: 0 <= i < |es| ==> StepAt(cfg, ss, es, i)
  }
}
