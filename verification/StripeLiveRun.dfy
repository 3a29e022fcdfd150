/** Runs of the live code, step by step: reads of one data member, each of another row, use up a pool
    of any size, and the next read of an uncached row fires the idle-device check. */
module StripeLiveRun {
  import opened AddressMap
  import opened RequestChain
  import opened Lists
  import opened StripeCore
  import opened StripeProtocol
  import opened StripeSafety
  import opened StripeRuns
  import opened StripeLive

  lemma LiveInv(cfg: Config, s: State)
    requires cfg.Valid() && LiveReachable(cfg, s) && s.core.fired == {}
    ensures Inv(cfg, s) && Running(s)
  {
    LiveIsReachable(cfg, s);
    ReachableInv(cfg, s);
    Open(cfg, s);
  }

  // ----- Rows

  /** The first member sector of the j-th row, in steps of the disk count, with data on disk m. */
  function RowSector(g: Geometry, m: nat, j: nat): nat
    requires g.Valid()
  {
    Mul(g.disks * j + (if ParityOf(g, 0) != m then 0 else 1), g.sectorsPerChunk)
  }

  lemma RowHasData(g: Geometry, m: nat, j: nat)
    requires g.Valid() && HoldsData(g, m)
    ensures ParityOf(g, RowSector(g, m, j)) != m
  {
    var first := if ParityOf(g, 0) != m then 0 else 1;
    DataRowHasData(g, m);
    FirstRows(g);
    DivModUnique(g.disks * j + first, g.disks, j, first);
    DivModUnique(first, g.disks, 0, first);
    DivModUnique(RowSector(g, m, j), g.sectorsPerChunk, g.disks * j + first, 0);
  }

  lemma RowsGrow(g: Geometry, m: nat, j: nat)
    requires g.Valid()
    ensures RowSector(g, m, j) < RowSector(g, m, j + 1)
  {
    var first := if ParityOf(g, 0) != m then 0 else 1;
    var row := g.disks * j + first;
    assert g.disks * (j + 1) + first == row + g.disks;
    assert (row + g.disks) * g.sectorsPerChunk == row * g.sectorsPerChunk + g.disks * g.sectorsPerChunk;
    MulSign(g.disks, g.sectorsPerChunk);
  }

  /** The read of the first data page of disk m in that row. */
  function ReadOf(g: Geometry, m: nat, j: nat): Request
    requires g.Valid() && HoldsData(g, m)
  {
    RowHasData(g, m, j);
    Request(LogicalSector(g, RowSector(g, m, j), m), STRIPE_SECTORS, false, false)
  }

  lemma ReadHits(g: Geometry, m: nat, j: nat)
    requires g.Valid() && HoldsData(g, m)
    ensures ComputeSector(g, ReadOf(g, m, j).sector).sector == RowSector(g, m, j)
    ensures ComputeSector(g, ReadOf(g, m, j).sector).dataDisk == m
  {
    RowHasData(g, m, j);
    InverseThenMap(g, RowSector(g, m, j), m);
  }

  // ----- The pool between two reads

  /** The pool has n stripes, all free; the last k of inactive_list are cached, for rows before the
      k-th, and there is one thread, which is idle. */
  ghost predicate Rests(cfg: Config, s: State, n: nat, m: nat, k: nat)
    requires cfg.Valid()
  {
    && LiveReachable(cfg, s) && s.core.fired == {}
    && s.threads == One(Idle) && s.inflight == map[]
    && (forall id: nat :: id in s.core.stripes <==> id < n)
    && |s.core.inactive| == n
    && (forall j :: 0 <= j < n ==> (Hashed(s.core, s.core.inactive[j]) <==> n - k <= j))
    && (forall x :: x in s.core.hash ==> x < RowSector(cfg.g, m, k)) && (k == 0 ==> s.core.hash == map[])
  }

  /** grow_stripes makes one more stripe and releases it. */
  lemma Grows(cfg: Config, s: State, n: nat, m: nat) returns (s': State)
    requires cfg.Valid() && Rests(cfg, s, n, m, 0)
    ensures Rests(cfg, s', n + 1, m, 0)
  {
    LiveInv(cfg, s);
    GrowStepIs(cfg, s, 0, n);
    var grown := Move(s, 0, Releasing(n)).(core := GrowOne(cfg.g, s.core, n));
    LiveStep(cfg, s, Grow(0, n), grown);
    OneStep(cfg, s, Grow(0, n), grown);
    PutStepIs(cfg, grown, 0, n);
    s' := Step(cfg, grown, Put(0)).value;
    LiveStep(cfg, grown, Put(0), s');
    OneStep(cfg, grown, Put(0), s');
  }

  lemma {:induction false} Pool(cfg: Config, n: nat, m: nat) returns (s: State)
    requires cfg.Valid()
    ensures Rests(cfg, s, n, m, 0)
  {
    if n == 0 {
      BornLive(cfg);
      s := BORN;
    } else {
      s := Pool(cfg, n - 1, m);
      s := Grows(cfg, s, n - 1, m);
    }
  }

  // ----- One read

  /** Nothing is queued or wanted but a read of slot m: queued says whether it is queued, wanted
      whether it has been flagged and not yet submitted. */
  ghost predicate Waiting(devs: seq<Dev>, m: nat, queued: bool, wanted: bool) {
    forall j :: 0 <= j < |devs| ==>
      && devs[j].towrite == [] && !devs[j].wantWrite
      && (devs[j].toread != [] <==> queued && j == m)
      && (devs[j].wantRead <==> wanted && j == m)
  }

  /** Up to the slots and the count of stripe id, c is b. */
  ghost predicate Frame(b: Core<nat>, c: Core<nat>, id: nat) {
    && c.hash == b.hash && c.inactive == b.inactive && c.stripes.Keys == b.stripes.Keys
    && id in b.stripes && c.stripes[id].sector == b.stripes[id].sector
    && c.stripes[id].handle == b.stripes[id].handle == false
    && forall x :: x in b.stripes && x != id ==> c.stripes[x] == b.stripes[x]
  }

  /** The only thread is at pc and serves a read of slot m with stripe id; b is the cache at the start
      of the read, and flying says whether its bio is in flight. */
  ghost predicate Serves(cfg: Config, b: Core<nat>, s: State, id: nat, pc: Pc, m: nat,
                         queued: bool, wanted: bool, flying: bool)
    requires cfg.Valid()
  {
    && LiveReachable(cfg, s) && s.core.fired == {}
    && s.threads == One(pc) && s.inflight == (if flying then map[0 := (id, m)] else map[])
    && Frame(b, s.core, id) && |s.core.stripes[id].devs| == cfg.g.disks
    && Waiting(s.core.stripes[id].devs, m, queued, wanted)
  }

  /** The stripe taken for an uncached row is the first free one. */
  lemma Entered(cfg: Config, s: State, n: nat, m: nat, k: nat, req: Request) returns (s': State)
    requires cfg.Valid() && Rests(cfg, s, n, m, k) && k < n
    requires ComputeSector(cfg.g, req.sector).sector !in s.core.hash
    ensures Serves(cfg, s'.core, s', s.core.inactive[0], Adding(req, s.core.inactive[0]), m, false, false, false)
    ensures s'.core.inactive == s.core.inactive[1..] && s'.core.stripes.Keys == s.core.stripes.Keys
    ensures s'.core.hash == s.core.hash[ComputeSector(cfg.g, req.sector).sector := s.core.inactive[0]]
    ensures Hashed(s'.core, s.core.inactive[0])
    ensures forall x :: x in s.core.stripes && x != s.core.inactive[0] ==> s'.core.stripes[x] == s.core.stripes[x]
  {
    var id := s.core.inactive[0];
    LiveInv(cfg, s);
    FirstIsNew(cfg, s, n, m, k);
    StartStepIs(cfg, s, 0, req);
    var s1 := Move(s, 0, Entering(req));
    LiveStep(cfg, s, Start(0, req), s1);
    LiveInv(cfg, s1);
    EnterStepIs(cfg, s1, 0);
    s' := OneBody(cfg, s1, 0, req, 1);
    LiveStep(cfg, s1, Enter(0), s');
    var p := ComputeSector(cfg.g, req.sector);
    BodyTakesNew(cfg.g, s.core, id, p.sector, p.parityDisk, req.noblock, m);
  }

  /** What is known of a free stripe that is not cached. */
  lemma FirstIsNew(cfg: Config, s: State, n: nat, m: nat, k: nat)
    requires cfg.Valid() && Rests(cfg, s, n, m, k) && k < n
    ensures var id := s.core.inactive[0];
            && id in s.core.stripes && !Hashed(s.core, id) && AllIdle(s.core.stripes[id].devs)
            && s.core.stripes[id].count == 0 && !s.core.stripes[id].handle
            && |s.core.stripes[id].devs| == cfg.g.disks
  {
    LiveInv(cfg, s);
    Open(cfg, s);
    var id := s.core.inactive[0];
    assert Positioned(s.core, s.refs, Limbo(s.threads), id);
    FreeBusyExactly(cfg, s, id);
  }

  lemma BodyTakesNew(g: Geometry, c: Core<nat>, id: nat, sector: nat, pd: nat, noblock: bool, m: nat)
    requires g.Valid() && c.fired == {} && c.inactive != [] && c.inactive[0] == id && sector !in c.hash
    requires (forall x :: x in c.hash ==> c.hash[x] in c.stripes) && (forall x :: x in c.inactive ==> x in c.stripes)
    requires !Hashed(c, id) && AllIdle(c.stripes[id].devs) && c.stripes[id].count == 0 && !c.stripes[id].handle
    requires |c.stripes[id].devs| == g.disks
    ensures match Body(g, c, sector, pd, noblock)
            case Got(id', d) =>
              && id' == id && d.fired == {} && d.inactive == c.inactive[1..] && d.hash == c.hash[sector := id]
              && d.stripes.Keys == c.stripes.Keys && Hashed(d, id) && !d.stripes[id].handle
              && (forall x :: x in c.stripes && x != id ==> d.stripes[x] == c.stripes[x])
              && |d.stripes[id].devs| == g.disks && Waiting(d.stripes[id].devs, m, false, false)
            case _ => false
  {
    assert RemoveHash(TakeFree(c), id) == TakeFree(c);
  }

  lemma Added(cfg: Config, b: Core<nat>, s: State, id: nat, req: Request, m: nat) returns (s': State)
    requires cfg.Valid() && ComputeSector(cfg.g, req.sector).dataDisk == m < cfg.g.disks && !req.write
    requires Serves(cfg, b, s, id, Adding(req, id), m, false, false, false)
    ensures Serves(cfg, b, s', id, Flagging(id, cfg.g.disks), m, true, false, false)
  {
    LiveInv(cfg, s);
    AddStepIs(cfg, s, 0, req, id);
    InsertFirst(Extent(req.sector, req.len));
    s' := AddStep(cfg, s, 0, req, id).value;
    LiveStep(cfg, s, Add(0), s');
  }

  /** The rest of the flag loop. */
  lemma {:induction false} Flagged(cfg: Config, b: Core<nat>, s: State, id: nat, left: nat, m: nat)
    returns (s': State)
    requires cfg.Valid() && m < cfg.g.disks && left <= cfg.g.disks
    requires Serves(cfg, b, s, id, Flagging(id, left), m, true, left <= m, false)
    ensures Serves(cfg, b, s', id, Submitting(id, cfg.g.disks), m, true, true, false)
    decreases left
  {
    LiveInv(cfg, s);
    FlagStepIs(cfg, s, 0, id, left);
    var next := FlagStep(cfg, s, 0, id, left).value;
    LiveStep(cfg, s, Flag(0), next);
    if left == 0 {
      s' := next;
    } else {
      s' := Flagged(cfg, b, next, id, left - 1, m);
    }
  }

  /** The submit loop down to slot m. */
  lemma {:induction false} Reached(cfg: Config, b: Core<nat>, s: State, id: nat, left: nat, m: nat)
    returns (s': State)
    requires cfg.Valid() && m < left <= cfg.g.disks
    requires Serves(cfg, b, s, id, Submitting(id, left), m, true, true, false)
    ensures Serves(cfg, b, s', id, Submitting(id, m + 1), m, true, true, false)
    decreases left
  {
    if left == m + 1 {
      s' := s;
    } else {
      LiveInv(cfg, s);
      SubmitStepIs(cfg, s, 0, 0, id, left);
      var next := SubmitStep(cfg, s, 0, id, left, 0).value;
      LiveStep(cfg, s, Submit(0, 0), next);
      s' := Reached(cfg, b, next, id, left - 1, m);
    }
  }

  /** The bio for slot m is sent. */
  lemma Launched(cfg: Config, b: Core<nat>, s: State, id: nat, m: nat) returns (s': State)
    requires cfg.Valid() && m < cfg.g.disks && cfg.present[m]
    requires Serves(cfg, b, s, id, Submitting(id, m + 1), m, true, true, false)
    ensures Serves(cfg, b, s', id, Submitting(id, m), m, true, false, true)
  {
    LiveInv(cfg, s);
    SubmitStepIs(cfg, s, 0, 0, id, m + 1);
    s' := SubmitStep(cfg, s, 0, id, m + 1, 0).value;
    LiveStep(cfg, s, Submit(0, 0), s');
  }

  /** The rest of the submit loop. */
  lemma {:induction false} Submitted(cfg: Config, b: Core<nat>, s: State, id: nat, left: nat, m: nat)
    returns (s': State)
    requires cfg.Valid() && left <= cfg.g.disks
    requires Serves(cfg, b, s, id, Submitting(id, left), m, true, false, true)
    ensures Serves(cfg, b, s', id, Releasing(id), m, true, false, true)
    decreases left
  {
    LiveInv(cfg, s);
    SubmitStepIs(cfg, s, 0, 0, id, left);
    var next := SubmitStep(cfg, s, 0, id, left, 0).value;
    LiveStep(cfg, s, Submit(0, 0), next);
    if left == 0 {
      s' := next;
    } else {
      s' := Submitted(cfg, b, next, id, left - 1, m);
    }
  }

  /** The count of the stripe while its bio is in flight. */
  lemma FlyingCount(cfg: Config, s: State, id: nat, pc: Pc, i: nat)
    requires cfg.Valid() && LiveReachable(cfg, s) && s.core.fired == {}
    requires s.threads == One(pc) && s.inflight == map[0 := (id, i)]
    ensures id in s.core.stripes
    ensures s.core.stripes[id].count == 1 + if id in HeldBy(pc) then 1 else 0
  {
    LiveInv(cfg, s);
    LiveIsReachable(cfg, s);
    FlightLives(cfg, s, 0);
    EveryStripeInOnePlace(cfg, s, id);
    assert Holders(s.threads, id) == if id in HeldBy(pc) then {0} else {};
    assert Flyers(s.inflight, id) == {0};
  }

  /** The thread lets the stripe go; the bio still holds it. */
  lemma LetGo(cfg: Config, b: Core<nat>, s: State, id: nat, m: nat) returns (s': State)
    requires cfg.Valid() && Serves(cfg, b, s, id, Releasing(id), m, true, false, true)
    ensures Serves(cfg, b, s', id, Idle, m, true, false, true)
  {
    LiveInv(cfg, s);
    FlyingCount(cfg, s, id, Releasing(id), m);
    PutStepIs(cfg, s, 0, id);
    s' := Step(cfg, s, Put(0)).value;
    LiveStep(cfg, s, Put(0), s');
  }

  /** The bio completes and the stripe is free again, still cached. */
  lemma Completed(cfg: Config, b: Core<nat>, s: State, id: nat, m: nat) returns (s': State)
    requires cfg.Valid() && Serves(cfg, b, s, id, Idle, m, true, false, true)
    ensures LiveReachable(cfg, s') && s'.core.fired == {} && s'.threads == One(Idle) && s'.inflight == map[]
    ensures s'.core.inactive == b.inactive + [id] && s'.core.hash == b.hash
    ensures s'.core.stripes.Keys == b.stripes.Keys
    ensures forall x :: x in b.stripes ==> s'.core.stripes[x].sector == b.stripes[x].sector
  {
    LiveInv(cfg, s);
    FlyingCount(cfg, s, id, Idle, m);
    CompleteStepIs(cfg, s, 0);
    s' := Step(cfg, s, Complete(0)).value;
    LiveStep(cfg, s, Complete(0), s');
    OneStep(cfg, s, Complete(0), s');
  }

  /** From the insertion of the read to its completion. */
  lemma Served(cfg: Config, b: Core<nat>, s: State, id: nat, req: Request, m: nat) returns (s': State)
    requires cfg.Valid() && ComputeSector(cfg.g, req.sector).dataDisk == m < cfg.g.disks && !req.write
    requires cfg.present[m] && Serves(cfg, b, s, id, Adding(req, id), m, false, false, false)
    ensures Serves(cfg, b, s', id, Idle, m, true, false, true)
  {
    s' := Added(cfg, b, s, id, req, m);
    s' := Flagged(cfg, b, s', id, cfg.g.disks, m);
    s' := Reached(cfg, b, s', id, cfg.g.disks, m);
    s' := Launched(cfg, b, s', id, m);
    s' := Submitted(cfg, b, s', id, m, m);
    s' := LetGo(cfg, b, s', id, m);
  }

  /** One read of an uncached row, with a new stripe left for it. */
  lemma Reads(cfg: Config, s: State, n: nat, m: nat, k: nat) returns (s': State)
    requires cfg.Valid() && HoldsData(cfg.g, m) && cfg.present[m] && Rests(cfg, s, n, m, k) && k < n
    ensures Rests(cfg, s', n, m, k + 1)
  {
    var req, id := ReadOf(cfg.g, m, k), s.core.inactive[0];
    ReadHits(cfg.g, m, k);
    RestFacts(cfg, s, n, m, k);
    var s0 := Entered(cfg, s, n, m, k, req);
    var s1 := Served(cfg, s0.core, s0, id, req, m);
    s' := Completed(cfg, s0.core, s1, id, m);
    RestsAgain(cfg, s, n, m, k, s');
  }

  lemma RestFacts(cfg: Config, s: State, n: nat, m: nat, k: nat)
    requires cfg.Valid() && Rests(cfg, s, n, m, k)
    ensures HashOk(s.core) && Distinct(s.core.inactive) && forall x :: x in s.core.inactive ==> x in s.core.stripes
  {
    LiveInv(cfg, s);
    Open(cfg, s);
  }

  lemma RestsAgain(cfg: Config, s: State, n: nat, m: nat, k: nat, s': State)
    requires cfg.Valid() && Rests(cfg, s, n, m, k) && k < n && HashOk(s.core) && Distinct(s.core.inactive)
    requires forall x :: x in s.core.inactive ==> x in s.core.stripes
    requires LiveReachable(cfg, s') && s'.core.fired == {} && s'.threads == One(Idle) && s'.inflight == map[]
    requires s'.core.inactive == s.core.inactive[1..] + [s.core.inactive[0]]
    requires s'.core.hash == s.core.hash[RowSector(cfg.g, m, k) := s.core.inactive[0]]
    requires s'.core.stripes.Keys == s.core.stripes.Keys && Hashed(s'.core, s.core.inactive[0])
    requires forall x :: x in s.core.stripes && x != s.core.inactive[0] ==>
               s'.core.stripes[x].sector == s.core.stripes[x].sector
    ensures Rests(cfg, s', n, m, k + 1)
  {
    var id, row := s.core.inactive[0], RowSector(cfg.g, m, k);
    RowsGrow(cfg.g, m, k);
    forall j | 0 <= j < n ensures Hashed(s'.core, s'.core.inactive[j]) <==> n - (k + 1) <= j {
      if j < n - 1 {
        var x := s.core.inactive[j + 1];
        assert s'.core.inactive[j] == x && x != id && x in s.core.inactive;
        OthersHashed(s.core, s'.core, row, id, x);
      }
    }
  }

  /** A new entry in the table for a sector that was not in it changes nothing for other stripes. */
  lemma OthersHashed(c: Core<nat>, d: Core<nat>, row: nat, id: nat, x: nat)
    requires row !in c.hash && d.hash == c.hash[row := id] && x != id
    requires x in c.stripes && x in d.stripes && d.stripes[x].sector == c.stripes[x].sector
    ensures Hashed(d, x) <==> Hashed(c, x)
  {}

  /** k reads of different rows. */
  lemma {:induction false} AllRead(cfg: Config, n: nat, m: nat, k: nat) returns (s: State)
    requires cfg.Valid() && HoldsData(cfg.g, m) && cfg.present[m] && k <= n
    ensures Rests(cfg, s, n, m, k)
  {
    if k == 0 {
      s := Pool(cfg, n, m);
    } else {
      s := AllRead(cfg, n, m, k - 1);
      s := Reads(cfg, s, n, m, k - 1);
    }
  }

  // ----- The request that is one too many

  /** The request, made now, fires the check as soon as it enters the cache. */
  ghost predicate Doomed(cfg: Config, s: State, req: Request)
    requires cfg.Valid()
  {
    match Step(cfg, s, Start(0, req))
    case None => false
    case Some(e) =>
      match Step(cfg, e, Enter(0))
      case None => false
      case Some(s') => LiveReachable(cfg, s') && s'.core.fired == {497}
  }

  lemma NextFires(cfg: Config, s: State, n: nat, m: nat, req: Request)
    requires cfg.Valid() && Rests(cfg, s, n, m, n) && 0 < n
    requires ComputeSector(cfg.g, req.sector).sector !in s.core.hash
    ensures Doomed(cfg, s, req)
  {
    LiveInv(cfg, s);
    StartStepIs(cfg, s, 0, req);
    var e := Move(s, 0, Entering(req));
    LiveStep(cfg, s, Start(0, req), e);
    LiveInv(cfg, e);
    EnterStepIs(cfg, e, 0);
    var s' := OneBody(cfg, e, 0, req, 1);
    LiveStep(cfg, e, Enter(0), s');
    assert Hashed(s.core, s.core.inactive[0]);
    LiveFiresExactly(cfg, e, Enter(0), s');
  }

  /** The check fires in the live code. For every number of members, chunk size, level and layout,
      every pool of n stripes and every data member m that is present, a run without retirement uses
      the pool up: all stripes are free and cached, nothing is in flight, and every request for a row
      that is not cached fires it, such as the next read of the run. */
  lemma IdleCheckCanFire(cfg: Config, n: nat, m: nat)
    requires cfg.Valid() && HoldsData(cfg.g, m) && cfg.present[m] && 0 < n
    ensures exists s ::
      && Rests(cfg, s, n, m, n) && Doomed(cfg, s, ReadOf(cfg.g, m, n))
      && forall req: Request :: ComputeSector(cfg.g, req.sector).sector !in s.core.hash ==> Doomed(cfg, s, req)
  {
    var s := AllRead(cfg, n, m, n);
    forall req: Request | ComputeSector(cfg.g, req.sector).sector !in s.core.hash ensures Doomed(cfg, s, req) {
      NextFires(cfg, s, n, m, req);
    }
    ReadHits(cfg.g, m, n);
  }
}
