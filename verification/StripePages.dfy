/** The cache is keyed by the member sector of a request as it is, while a whole page is sent for it
    (src/jraid5.c:834-842). When the requests of a run agree modulo the page, the pages of cached rows
    are disjoint, and when they are aligned, each page stays in its row; otherwise neither holds. */
module StripePages {
  import opened AddressMap
  import Capacity
  import opened RequestChain
  import opened StripeCore
  import opened StripeProtocol
  import opened StripeLive
  import opened StripeLiveRun

  /** The map keeps the position in the page. */
  lemma MapKeepsOffset(g: Geometry, r: nat)
    requires g.Valid() && g.sectorsPerChunk % STRIPE_SECTORS == 0
    ensures ComputeSector(g, r).sector % STRIPE_SECTORS == r % STRIPE_SECTORS
  {
    var spc := g.sectorsPerChunk;
    PlaceByRow(g, r);
    DivModAgain(r, spc);
    OffsetOnly(Div(r, spc), spc, Mod(r, spc));
    OffsetOnly(StripeOf(g, r), spc, Mod(r, spc));
  }

  lemma OffsetOnly(k: nat, spc: nat, o: nat)
    requires spc % STRIPE_SECTORS == 0
    ensures (Mul(k, spc) + o) % STRIPE_SECTORS == o % STRIPE_SECTORS
  {
    var w := spc / STRIPE_SECTORS;
    MulAssoc(k, w, STRIPE_SECTORS);
    DivModAgain(o, STRIPE_SECTORS);
    DivModUnique(k * spc + o, STRIPE_SECTORS, k * w + o / STRIPE_SECTORS, o % STRIPE_SECTORS);
  }

  // ----- Requests that agree modulo the page

  ghost predicate RequestAt(pc: Pc, offset: nat) {
    match pc
    case Entering(req) => req.sector % STRIPE_SECTORS == offset
    case Asleep(req, _, _) => req.sector % STRIPE_SECTORS == offset
    case _ => true
  }

  /** Every cached row and every request on its way to the cache is at this offset in its page. */
  ghost predicate AllAt(s: State, offset: nat) {
    && (forall x :: x in s.core.hash ==> x % STRIPE_SECTORS == offset)
    && (forall t :: t in s.threads ==> RequestAt(s.threads[t], offset))
  }

  ghost predicate StartsAt(e: Event, offset: nat) {
    e.Start? ==> e.req.sector % STRIPE_SECTORS == offset
  }

  lemma BodyAt(cfg: Config, s: State, t: nat, req: Request, bodies: nat, offset: nat)
    requires cfg.Valid() && cfg.g.sectorsPerChunk % STRIPE_SECTORS == 0 && Running(s) && t in s.threads
    requires AllAt(s, offset) && req.sector % STRIPE_SECTORS == offset
    ensures AllAt(OneBody(cfg, s, t, req, bodies), offset)
  {
    MapKeepsOffset(cfg.g, req.sector);
  }

  lemma BodyStepAt(cfg: Config, s: State, e: Event, offset: nat)
    requires cfg.Valid() && cfg.g.sectorsPerChunk % STRIPE_SECTORS == 0 && AllAt(s, offset)
    requires Step(cfg, s, e).Some? && (e.Enter? || e.Resume?)
    ensures AllAt(Step(cfg, s, e).value, offset)
  {
    var t, pc := e.t, s.threads[e.t];
    assert RequestAt(pc, offset);
    if e.Enter? {
      EnterStepIs(cfg, s, t);
      BodyAt(cfg, s, t, pc.req, 1, offset);
    } else {
      ResumeStepIs(cfg, s, t);
      if s.core.inactive != [] {
        BodyAt(cfg, s, t, pc.req, pc.bodies + 1, offset);
      }
    }
  }

  lemma AddAt(cfg: Config, s: State, t: nat, req: Request, id: nat, offset: nat)
    requires cfg.Valid() && t in s.threads && AllAt(s, offset) && AddStep(cfg, s, t, req, id).Some?
    ensures AllAt(AddStep(cfg, s, t, req, id).value, offset)
  {}

  lemma FlagAt(cfg: Config, s: State, t: nat, id: nat, left: nat, offset: nat)
    requires t in s.threads && AllAt(s, offset) && FlagStep(cfg, s, t, id, left).Some?
    ensures AllAt(FlagStep(cfg, s, t, id, left).value, offset)
  {}

  lemma SubmitAt(cfg: Config, s: State, t: nat, id: nat, left: nat, tag: nat, offset: nat)
    requires t in s.threads && AllAt(s, offset) && SubmitStep(cfg, s, t, id, left, tag).Some?
    ensures AllAt(SubmitStep(cfg, s, t, id, left, tag).value, offset)
  {
    SubmitSends(cfg, s, t, id, left, tag);
    SubmitHash(cfg, s, t, id, left, tag);
  }

  lemma LoopStepAt(cfg: Config, s: State, e: Event, offset: nat)
    requires cfg.Valid() && AllAt(s, offset) && StartsAt(e, offset) && Step(cfg, s, e).Some?
    requires e.Start? || e.Add? || e.Scan? || e.Flag? || e.Submit? || e.Retire?
    ensures AllAt(Step(cfg, s, e).value, offset)
  {
    var t, pc := e.t, s.threads[e.t];
    match e
    case Start(_, req) => StartStepIs(cfg, s, t, req);
    case Add(_) =>
      AddStepIs(cfg, s, t, pc.req, pc.id);
      AddAt(cfg, s, t, pc.req, pc.id, offset);
    case Scan(_) => ScanStepIs(cfg, s, t, pc.id, pc.slot);
    case Flag(_) =>
      FlagStepIs(cfg, s, t, pc.id, pc.left);
      FlagAt(cfg, s, t, pc.id, pc.left, offset);
    case Submit(_, tag) =>
      SubmitStepIs(cfg, s, t, tag, pc.id, pc.left);
      SubmitAt(cfg, s, t, pc.id, pc.left, tag, offset);
    case Retire(_, slot) =>
      RetireStepIs(cfg, s, t, slot);
      assert RequestAt(pc, offset);
  }

  lemma ReleaseAt(s: State, id: nat, offset: nat)
    requires id in s.core.stripes && AllAt(s, offset)
    ensures AllAt(ReleaseIn(s, id), offset)
  {
    forall t | t in WakeAll(s.threads) ensures RequestAt(WakeAll(s.threads)[t], offset) {
      assert RequestAt(s.threads[t], offset);
    }
  }

  lemma ReleaseStepAt(cfg: Config, s: State, e: Event, offset: nat)
    requires cfg.Valid() && AllAt(s, offset) && Step(cfg, s, e).Some? && (e.Put? || e.Complete?)
    ensures AllAt(Step(cfg, s, e).value, offset)
  {
    match e
    case Put(t) =>
      PutStepIs(cfg, s, t, s.threads[t].id);
      ReleaseAt(Move(s, t, Idle), s.threads[t].id, offset);
    case Complete(tag) =>
      var id := s.inflight[tag].0;
      CompleteStepIs(cfg, s, tag);
      ReleaseAt(s.(inflight := s.inflight - {tag}, refs := s.refs - multiset{id}), id, offset);
  }

  lemma PoolStepAt(cfg: Config, s: State, e: Event, offset: nat)
    requires cfg.Valid() && AllAt(s, offset) && Step(cfg, s, e).Some?
    requires e.Daemon? || e.Grow? || e.ShrinkTake? || e.ShrinkDone?
    ensures AllAt(Step(cfg, s, e).value, offset)
  {
    match e
    case Daemon(t) =>
      DaemonStepIs(cfg, s, t);
      MoveAt(s, t, Flagging(s.core.handleList[0], cfg.g.disks), DaemonTake(s.core), offset);
    case Grow(t, id) =>
      GrowStepIs(cfg, s, t, id);
      MoveAt(s, t, Releasing(id), GrowOne(cfg.g, s.core, id), offset);
    case ShrinkTake(t) =>
      ShrinkTakeStepIs(cfg, s, t);
      MoveAt(s, t, Shrinking(s.core.inactive[0]), TakeFree(s.core), offset);
    case ShrinkDone(t) =>
      ShrinkDoneStepIs(cfg, s, t, s.threads[t].id);
      MoveAt(s, t, Idle, ShrinkFree(s.core, s.threads[t].id), offset);
  }

  lemma MoveAt(s: State, t: nat, pc: Pc, d: Core<nat>, offset: nat)
    requires AllAt(s, offset) && t in s.threads && RequestAt(pc, offset) && d.hash.Keys <= s.core.hash.Keys
    ensures AllAt(Move(s, t, pc).(core := d), offset)
  {}

  lemma StepAllAt(cfg: Config, s: State, e: Event, offset: nat)
    requires cfg.Valid() && cfg.g.sectorsPerChunk % STRIPE_SECTORS == 0
    requires AllAt(s, offset) && StartsAt(e, offset) && Step(cfg, s, e).Some?
    ensures AllAt(Step(cfg, s, e).value, offset)
  {
    if e.Enter? || e.Resume? {
      BodyStepAt(cfg, s, e, offset);
    } else if e.Put? || e.Complete? {
      ReleaseStepAt(cfg, s, e, offset);
    } else if e.Daemon? || e.Grow? || e.ShrinkTake? || e.ShrinkDone? {
      PoolStepAt(cfg, s, e, offset);
    } else {
      LoopStepAt(cfg, s, e, offset);
    }
  }

  lemma {:induction false} RunAllAt(cfg: Config, ss: seq<State>, es: seq<Event>, k: nat, offset: nat)
    requires cfg.Valid() && cfg.g.sectorsPerChunk % STRIPE_SECTORS == 0
    requires Run(cfg, ss, es) && k < |ss| && forall i :: 0 <= i < |es| ==> StartsAt(es[i], offset)
    ensures AllAt(ss[k], offset)
  {
    if k > 0 {
      RunAllAt(cfg, ss, es, k - 1, offset);
      assert StepAt(cfg, ss, es, k - 1);
      StepAllAt(cfg, ss[k - 1], es[k - 1], offset);
    }
  }

  /** The page sent for row x and the one sent for row y share no sector. */
  ghost predicate Disjoint(x: nat, y: nat) {
    x + STRIPE_SECTORS <= y || y + STRIPE_SECTORS <= x
  }

  /** Over any run whose requests are all at the same offset in their pages, the pages of the cached
      rows are pairwise disjoint. */
  lemma PagesDisjoint(cfg: Config, ss: seq<State>, es: seq<Event>, k: nat, offset: nat)
    requires cfg.Valid() && cfg.g.sectorsPerChunk % STRIPE_SECTORS == 0
    requires Run(cfg, ss, es) && k < |ss| && forall i :: 0 <= i < |es| ==> StartsAt(es[i], offset)
    ensures forall x, y :: x in ss[k].core.hash && y in ss[k].core.hash && x != y ==> Disjoint(x, y)
  {
    RunAllAt(cfg, ss, es, k, offset);
    forall x, y | x in ss[k].core.hash && y in ss[k].core.hash && x != y ensures Disjoint(x, y) {
      assert x % STRIPE_SECTORS == y % STRIPE_SECTORS;
    }
  }

  /** Over any run whose requests are all aligned, the page of a cached row lies in that row, so that
      the same disk holds the parity of all its sectors. */
  lemma PagesInRow(cfg: Config, ss: seq<State>, es: seq<Event>, k: nat, x: nat, o: nat)
    requires cfg.Valid() && cfg.g.sectorsPerChunk % STRIPE_SECTORS == 0
    requires Run(cfg, ss, es) && k < |ss| && forall i :: 0 <= i < |es| ==> StartsAt(es[i], 0)
    requires x in ss[k].core.hash && o < STRIPE_SECTORS
    ensures Div(x + o, cfg.g.sectorsPerChunk) == Div(x, cfg.g.sectorsPerChunk)
    ensures ParityOf(cfg.g, x + o) == ParityOf(cfg.g, x)
  {
    RunAllAt(cfg, ss, es, k, 0);
    Capacity.PageInChunk(x, cfg.g.sectorsPerChunk);
    var spc := cfg.g.sectorsPerChunk;
    DivModAgain(x, spc);
    DivModUnique(x + o, spc, Div(x, spc), Mod(x, spc) + o);
  }

  // ----- Requests that do not

  /** Half a page further in the same row. */
  function HalfPageOn(g: Geometry, m: nat): Request
    requires g.Valid() && HoldsData(g, m)
  {
    var first := ReadOf(g, m, 0);
    first.(sector := first.sector + STRIPE_SECTORS / 2)
  }

  lemma HalfPageHits(g: Geometry, m: nat)
    requires g.Valid() && HoldsData(g, m) && g.sectorsPerChunk % STRIPE_SECTORS == 0
    ensures ComputeSector(g, HalfPageOn(g, m).sector) ==
            Place(RowSector(g, m, 0) + STRIPE_SECTORS / 2, m, ParityOf(g, RowSector(g, m, 0)))
  {
    var spc, x, half := g.sectorsPerChunk, RowSector(g, m, 0), STRIPE_SECTORS / 2;
    var row := if ParityOf(g, 0) != m then 0 else 1;
    assert g.disks * 0 + row == row;
    DivModUnique(x, spc, row, 0);
    DivModUnique(x + half, spc, row, half);
    RowHasData(g, m, 0);
    InverseThenMap(g, x + half, m);
  }

  /** A pool of two stripes after the first read. */
  lemma FirstRead(cfg: Config, m: nat) returns (s: State)
    requires cfg.Valid() && HoldsData(cfg.g, m) && cfg.present[m]
    ensures Rests(cfg, s, 2, m, 1) && s.core.hash.Keys == {RowSector(cfg.g, m, 0)}
  {
    var none := Pool(cfg, 2, m);
    var req, id := ReadOf(cfg.g, m, 0), none.core.inactive[0];
    ReadHits(cfg.g, m, 0);
    RestFacts(cfg, none, 2, m, 0);
    var s0 := Entered(cfg, none, 2, m, 0, req);
    var s1 := Served(cfg, s0.core, s0, id, req, m);
    s := Completed(cfg, s0.core, s1, id, m);
    RestsAgain(cfg, none, 2, m, 0, s);
  }

  /** For every array with a data member m that is present, a run of two reads, half a page apart and
      both mapped to m, caches two rows whose pages overlap on that member. */
  lemma PagesOverlap(cfg: Config, m: nat)
    requires cfg.Valid() && HoldsData(cfg.g, m) && cfg.present[m] && cfg.g.sectorsPerChunk % STRIPE_SECTORS == 0
    ensures var a, b := ReadOf(cfg.g, m, 0).sector, HalfPageOn(cfg.g, m).sector;
            var x, y := ComputeSector(cfg.g, a).sector, ComputeSector(cfg.g, b).sector;
            && ComputeSector(cfg.g, a).dataDisk == m == ComputeSector(cfg.g, b).dataDisk
            && b == a + STRIPE_SECTORS / 2 && x != y && !Disjoint(x, y)
            && exists s :: LiveReachable(cfg, s) && s.core.fired == {} && x in s.core.hash && y in s.core.hash
  {
    ReadHits(cfg.g, m, 0);
    HalfPageHits(cfg.g, m);
    var s := FirstRead(cfg, m);
    s := Entered(cfg, s, 2, m, 1, HalfPageOn(cfg.g, m));
  }

  /** With two members at level 5, the page of a request at the last sector of the first chunk runs
      into a row whose parity is on the same member. */
  lemma PageReachesParity(g: Geometry)
    requires g.Valid() && g.disks == 2 && g.level == Raid5
    ensures var p := ComputeSector(g, g.sectorsPerChunk - 1);
            p.sector == g.sectorsPerChunk - 1 && ParityOf(g, p.sector + 1) == p.dataDisk
  {
    var spc := g.sectorsPerChunk;
    Capacity.MirrorPlace(g, spc - 1);
    FirstRows(g);
    DivModUnique(spc - 1, spc, 0, spc - 1);
    DivModUnique(0, 1, 0, 0);
    DivModUnique(0, 2, 0, 0);
    DivModUnique(1, 2, 0, 1);
    PlaceByRow(g, spc - 1);
    PlaceInRange(g, spc - 1);
  }
}
