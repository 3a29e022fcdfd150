/** One pass of handle_stripe by a thread that is not disturbed: both of its loops, over all slots. */
module StripePass {
  import opened StripeCore
  import opened StripeProtocol
  import opened StripeSafety
  import opened StripeLive
  import opened StripeLiveRun
  import opened StripeResend

  /** Thread t is at pc, with stripe id, and has come from s by its own steps. */
  ghost predicate At(cfg: Config, s: State, m: State, t: nat, pc: Pc, id: nat)
    requires cfg.Valid()
  {
    && Leads(cfg, t, s, m) && LiveReachable(cfg, m) && m.core.fired == {}
    && t in m.threads && m.threads[t] == pc
    && id in m.core.stripes && |m.core.stripes[id].devs| == cfg.g.disks
  }

  // ----- The flag loop

  function FlagOne(d: Dev): Dev {
    d.(wantRead := d.wantRead || d.toread != [], wantWrite := d.wantWrite || d.towrite != [])
  }

  function FlagDevs(devs: seq<Dev>, left: nat): (r: seq<Dev>)
    ensures |r| == |devs|
  {
    seq(|devs|, j requires 0 <= j < |devs| => if j < left then FlagOne(devs[j]) else devs[j])
  }

  function WithDevs(c: Core<nat>, id: nat, devs: seq<Dev>): Core<nat>
    requires id in c.stripes
  {
    c.(stripes := c.stripes[id := c.stripes[id].(devs := devs)])
  }

  lemma FlagTurn(cfg: Config, s: State, m: State, t: nat, id: nat, left: nat) returns (m': State)
    requires cfg.Valid() && left <= cfg.g.disks && At(cfg, s, m, t, Flagging(id, left), id)
    ensures At(cfg, s, m', t, if left == 0 then Submitting(id, cfg.g.disks) else Flagging(id, left - 1), id)
    ensures m'.inflight == m.inflight
    ensures var devs := m.core.stripes[id].devs;
            m'.core == if left == 0 then m.core
                       else WithDevs(m.core, id, devs[left - 1 := FlagOne(devs[left - 1])])
  {
    LiveInv(cfg, m);
    FlagStepIs(cfg, m, t, id, left);
    m' := FlagStep(cfg, m, t, id, left).value;
    ChaseStep(cfg, s, m, t, Flag(t), m');
  }

  lemma {:induction false} FlagLoop(cfg: Config, s: State, m: State, t: nat, id: nat, left: nat) returns (m': State)
    requires cfg.Valid() && left <= cfg.g.disks && At(cfg, s, m, t, Flagging(id, left), id)
    ensures At(cfg, s, m', t, Submitting(id, cfg.g.disks), id) && m'.inflight == m.inflight
    ensures m'.core == WithDevs(m.core, id, FlagDevs(m.core.stripes[id].devs, left))
    decreases left
  {
    var devs := m.core.stripes[id].devs;
    m' := FlagTurn(cfg, s, m, t, id, left);
    if left == 0 {
      assert FlagDevs(devs, 0) == devs;
    } else {
      assert FlagDevs(devs[left - 1 := FlagOne(devs[left - 1])], left - 1) == FlagDevs(devs, left);
      m' := FlagLoop(cfg, s, m', t, id, left - 1);
    }
  }

  // ----- The submit loop

  function SendOne(d: Dev): Dev {
    if d.wantWrite then d.(wantWrite := false) else d.(wantRead := false)
  }

  function SendDevs(devs: seq<Dev>, left: nat): (r: seq<Dev>)
    ensures |r| == |devs|
  {
    seq(|devs|, j requires 0 <= j < |devs| => if j < left then SendOne(devs[j]) else devs[j])
  }

  /** Between the two there is exactly one bio more for every slot below left that wants one and whose
      member is present. */
  ghost predicate Sends(before: map<nat, (nat, nat)>, after: map<nat, (nat, nat)>, id: nat, devs: seq<Dev>,
                        present: seq<bool>, left: nat)
    requires left <= |devs| == |present|
  {
    && (forall tag :: tag in before ==> tag in after && after[tag] == before[tag])
    && (forall tag :: tag in after && tag !in before ==>
          && after[tag].0 == id && after[tag].1 < left
          && Wants(devs[after[tag].1]) && present[after[tag].1])
    && (forall a, b :: a in after && b in after && a !in before && b !in before && a != b ==> after[a] != after[b])
    && (forall j: nat :: j < left && Wants(devs[j]) && present[j] ==> SentFor(before, after, id, j))
  }

  ghost predicate SentFor(before: map<nat, (nat, nat)>, after: map<nat, (nat, nat)>, id: nat, j: nat) {
    exists tag :: tag in after && tag !in before && after[tag] == (id, j)
  }

  ghost predicate Skipped(devs: seq<Dev>, present: seq<bool>, left: nat)
    requires left <= |devs| == |present|
  {
    exists j :: 0 <= j < left && Wants(devs[j]) && !present[j]
  }

  lemma SubmitTurn(cfg: Config, s: State, m: State, t: nat, id: nat, left: nat)
    returns (m': State, spare: nat)
    requires cfg.Valid() && 0 < left <= cfg.g.disks && At(cfg, s, m, t, Submitting(id, left), id)
    ensures spare !in m.inflight
    ensures At(cfg, s, m', t, Submitting(id, left - 1), id)
    ensures var sh, i := m.core.stripes[id], left - 1;
            && m'.core.stripes[id].devs == sh.devs[i := SendOne(sh.devs[i])]
            && m'.core.stripes[id].handle == (sh.handle || (Wants(sh.devs[i]) && !cfg.present[i]))
            && m'.inflight == if Wants(sh.devs[i]) && cfg.present[i] then m.inflight[spare := (id, i)] else m.inflight
  {
    spare := Above(m.inflight.Keys);
    LiveInv(cfg, m);
    SubmitStepIs(cfg, m, t, spare, id, left);
    SubmitEffect(cfg, m, t, id, left, spare);
    m' := SubmitStep(cfg, m, t, id, left, spare).value;
    ChaseStep(cfg, s, m, t, Submit(t, spare), m');
  }

  lemma SubmitEffect(cfg: Config, m: State, t: nat, id: nat, left: nat, spare: nat)
    requires cfg.Valid() && t in m.threads && 0 < left <= cfg.g.disks && spare !in m.inflight
    requires id in m.core.stripes && |m.core.stripes[id].devs| == cfg.g.disks
    ensures SubmitStep(cfg, m, t, id, left, spare).Some?
    ensures var sh, i := m.core.stripes[id], left - 1;
            var m' := SubmitStep(cfg, m, t, id, left, spare).value;
            && m'.threads == m.threads[t := Submitting(id, i)]
            && id in m'.core.stripes && m'.core.stripes[id].devs == sh.devs[i := SendOne(sh.devs[i])]
            && m'.core.stripes[id].handle == (sh.handle || (Wants(sh.devs[i]) && !cfg.present[i]))
            && m'.inflight == if Wants(sh.devs[i]) && cfg.present[i] then m.inflight[spare := (id, i)] else m.inflight
  {
    var d := m.core.stripes[id].devs[left - 1];
    if Wants(d) {
      SendEffect(cfg, m, t, id, left, spare);
    } else {
      assert SubmitStep(cfg, m, t, id, left, spare).value == Move(m, t, Submitting(id, left - 1));
      assert m.core.stripes[id].devs[left - 1 := SendOne(d)] == m.core.stripes[id].devs;
    }
  }

  lemma SendEffect(cfg: Config, m: State, t: nat, id: nat, left: nat, spare: nat)
    requires cfg.Valid() && t in m.threads && 0 < left <= cfg.g.disks && spare !in m.inflight
    requires id in m.core.stripes && |m.core.stripes[id].devs| == cfg.g.disks
    requires Wants(m.core.stripes[id].devs[left - 1])
    ensures SubmitStep(cfg, m, t, id, left, spare).Some?
    ensures var sh, i := m.core.stripes[id], left - 1;
            var m' := SubmitStep(cfg, m, t, id, left, spare).value;
            && m'.threads == m.threads[t := Submitting(id, i)]
            && id in m'.core.stripes && m'.core.stripes[id].devs == sh.devs[i := SendOne(sh.devs[i])]
            && m'.core.stripes[id].handle == (sh.handle || !cfg.present[i])
            && m'.inflight == if cfg.present[i] then m.inflight[spare := (id, i)] else m.inflight
  {
    var i := left - 1;
    var cleared := Advance(m, t, Submitting(id, i), id, i, SendOne(m.core.stripes[id].devs[i]));
    assert SubmitStep(cfg, m, t, id, left, spare).value ==
           if cfg.present[i] then Launch(cleared, id, i, spare) else cleared.(core := SetHandle(cleared.core, id));
  }

  lemma SubmitEnd(cfg: Config, s: State, m: State, t: nat, id: nat) returns (m': State)
    requires cfg.Valid() && At(cfg, s, m, t, Submitting(id, 0), id)
    ensures At(cfg, s, m', t, Releasing(id), id) && m'.inflight == m.inflight && m'.core == m.core
  {
    LiveInv(cfg, m);
    SubmitStepIs(cfg, m, t, 0, id, 0);
    m' := Move(m, t, Releasing(id));
    ChaseStep(cfg, s, m, t, Submit(t, 0), m');
  }

  lemma {:induction false} SubmitLoop(cfg: Config, s: State, m: State, t: nat, id: nat, left: nat)
    returns (m': State)
    requires cfg.Valid() && left <= cfg.g.disks && At(cfg, s, m, t, Submitting(id, left), id)
    ensures At(cfg, s, m', t, Releasing(id), id)
    ensures m'.core.stripes[id].devs == SendDevs(m.core.stripes[id].devs, left)
    ensures m'.core.stripes[id].handle <==>
            m.core.stripes[id].handle || Skipped(m.core.stripes[id].devs, cfg.present, left)
    ensures Sends(m.inflight, m'.inflight, id, m.core.stripes[id].devs, cfg.present, left)
    decreases left
  {
    var devs := m.core.stripes[id].devs;
    if left == 0 {
      m' := SubmitEnd(cfg, s, m, t, id);
      assert SendDevs(devs, 0) == devs;
    } else {
      var next, spare := SubmitTurn(cfg, s, m, t, id, left);
      m' := SubmitLoop(cfg, s, next, t, id, left - 1);
      TurnAndRest(cfg.present, devs, left);
      SendsOn(m.inflight, next.inflight, m'.inflight, id, devs, SendOne(devs[left - 1]), cfg.present, left, spare);
    }
  }

  lemma TurnAndRest(present: seq<bool>, devs: seq<Dev>, left: nat)
    requires 0 < left <= |devs| == |present|
    ensures var next := devs[left - 1 := SendOne(devs[left - 1])];
            && SendDevs(next, left - 1) == SendDevs(devs, left)
            && (Skipped(devs, present, left) <==>
                  ((Wants(devs[left - 1]) && !present[left - 1]) || Skipped(next, present, left - 1)))
  {
    SkippedOn(devs, SendOne(devs[left - 1]), present, left);
  }

  lemma SkippedOn(devs: seq<Dev>, d: Dev, present: seq<bool>, left: nat)
    requires 0 < left <= |devs| == |present|
    ensures Skipped(devs, present, left) <==>
            (Wants(devs[left - 1]) && !present[left - 1]) || Skipped(devs[left - 1 := d], present, left - 1)
  {
    var after := devs[left - 1 := d];
    assert forall j :: 0 <= j < left - 1 ==> after[j] == devs[j];
    if j :| 0 <= j < left && Wants(devs[j]) && !present[j] {
      assert j < left - 1 ==> Wants(after[j]) && !present[j];
    }
  }

  /** The bio of slot left - 1, and then those of the slots below. */
  lemma SendsOn(before: map<nat, (nat, nat)>, mid: map<nat, (nat, nat)>, after: map<nat, (nat, nat)>, id: nat,
                devs: seq<Dev>, d: Dev, present: seq<bool>, left: nat, spare: nat)
    requires 0 < left <= |devs| == |present| && spare !in before
    requires mid == if Wants(devs[left - 1]) && present[left - 1] then before[spare := (id, left - 1)] else before
    requires Sends(mid, after, id, devs[left - 1 := d], present, left - 1)
    ensures Sends(before, after, id, devs, present, left)
  {
    forall j: nat | j < left && Wants(devs[j]) && present[j] ensures SentFor(before, after, id, j) {
      if j == left - 1 {
        assert after[spare] == (id, j);
      } else {
        assert SentFor(mid, after, id, j);
        var tag :| tag in after && tag !in mid && after[tag] == (id, j);
        assert tag !in before;
      }
    }
  }

  // ----- Both loops

  /** What a slot has to send when the pass comes to it. */
  ghost predicate ToRead(d: Dev) { d.wantRead || d.toread != [] }
  ghost predicate ToWrite(d: Dev) { d.wantWrite || d.towrite != [] }

  /** One bio for each slot that has something to send and whose member is present. */
  ghost predicate OneEach(before: map<nat, (nat, nat)>, after: map<nat, (nat, nat)>, id: nat, devs: seq<Dev>,
                          present: seq<bool>)
    requires |devs| == |present|
  {
    && (forall tag :: tag in before ==> tag in after && after[tag] == before[tag])
    && (forall tag :: tag in after && tag !in before ==> after[tag].0 == id && after[tag].1 < |devs|)
    && (forall a, b :: a in after && b in after && a !in before && b !in before && a != b ==> after[a] != after[b])
    && (forall j: nat :: j < |devs| ==>
          (SentFor(before, after, id, j) <==> (ToRead(devs[j]) || ToWrite(devs[j])) && present[j]))
  }

  /** A slot after the pass: nothing is left to send but the read of a slot that had both. */
  ghost predicate Passed(a: Dev, b: Dev) {
    b == a.(wantWrite := false, wantRead := ToRead(a) && ToWrite(a))
  }

  /** From the head of the flag loop, a thread that is not disturbed sends exactly one bio for each slot
      with something to send and a member, the write before the read, leaves the queues as they are, and
      marks the stripe exactly if a slot had something to send and no member. */
  lemma HandlePass(cfg: Config, s: State, t: nat, id: nat) returns (s': State)
    requires cfg.Valid() && LiveReachable(cfg, s) && s.core.fired == {}
    requires t in s.threads && s.threads[t] == Flagging(id, cfg.g.disks)
    ensures id in s.core.stripes && |s.core.stripes[id].devs| == cfg.g.disks
    ensures At(cfg, s, s', t, Releasing(id), id)
    ensures var devs, after := s.core.stripes[id].devs, s'.core.stripes[id].devs;
            && (forall j :: 0 <= j < cfg.g.disks ==> Passed(devs[j], after[j]))
            && OneEach(s.inflight, s'.inflight, id, devs, cfg.present)
            && (s'.core.stripes[id].handle <==>
                  (s.core.stripes[id].handle
                   || exists j :: 0 <= j < cfg.g.disks && (ToRead(devs[j]) || ToWrite(devs[j])) && !cfg.present[j]))
  {
    LiveInv(cfg, s);
    LeadsNowhere(cfg, t, s);
    HeldLive(cfg, s, t, id);
    var devs := s.core.stripes[id].devs;
    var m := FlagLoop(cfg, s, s, t, id, cfg.g.disks);
    s' := SubmitLoop(cfg, s, m, t, id, cfg.g.disks);
    var flagged := FlagDevs(devs, cfg.g.disks);
    assert forall j :: 0 <= j < cfg.g.disks ==> flagged[j] == FlagOne(devs[j]);
    EachSent(s.inflight, s'.inflight, id, devs, flagged, cfg.present);
  }

  lemma EachSent(before: map<nat, (nat, nat)>, after: map<nat, (nat, nat)>, id: nat, devs: seq<Dev>,
                 flagged: seq<Dev>, present: seq<bool>)
    requires |devs| == |flagged| == |present| && Sends(before, after, id, flagged, present, |devs|)
    requires forall j :: 0 <= j < |devs| ==> flagged[j] == FlagOne(devs[j])
    ensures OneEach(before, after, id, devs, present)
  {
    forall j: nat | j < |devs|
      ensures SentFor(before, after, id, j) <==> (ToRead(devs[j]) || ToWrite(devs[j])) && present[j]
    {
      assert Wants(flagged[j]) <==> ToRead(devs[j]) || ToWrite(devs[j]);
    }
  }
}
