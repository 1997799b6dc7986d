/** One upload at a time: what the startup inequality on the lease buys, and that nothing less would do. */
module InFlight {
  import opened Words
  import opened Holds
  import opened Recency
  import opened Gateway
  import opened Custody
  import opened DoubleSpend
  import Redemption

  /** The body and the upstream's answer are in within both timeouts. */
  function ForwardMs(cfg: Config): nat {
    (cfg.upstreamTimeoutSecs + cfg.bodyReadTimeoutSecs) * 1000
  }

  predicate Uploading(p: Phase) {
    p.Forwarding? || p.Committing?
  }

  /** How late a step of the request may still happen. */
  function DueAt(cfg: Config, commitMs: nat, p: Phase): nat
    requires Uploading(p)
  {
    match p
    case Forwarding(_, leasedAt) => leasedAt + ForwardMs(cfg)
    case Committing(_, _, answeredAt, _) => answeredAt + commitMs
  }

  /** Time does not pass a deadline of an upload, and a table has room for every lease. */
  predicate Timely(cfg: Config, commitMs: nat, s: Sys, e: Event) {
    && (e.Tick? ==>
          forall id | id in s.requests && Uploading(s.requests[id].phase) :: e.to <= DueAt(cfg, commitMs, s.requests[id].phase))
    && (e.TakeLease? && s.store.Table? ==> |s.Holds()| < Max(cfg.maxEntries, 1))
  }

  predicate TimelyRun(cfg: Config, commitMs: nat, chain: Chain, s: Sys, events: seq<Event>)
    requires Legal(cfg, chain, s, events)
    decreases |events|
  {
    events == []
    || (Timely(cfg, commitMs, s, events[0]) && TimelyRun(cfg, commitMs, chain, Step(cfg, chain, s, events[0]), events[1..]))
  }

  predicate OneUploadPerDigest(s: Sys) {
    forall a, b | a in s.requests && b in s.requests && Uploading(s.requests[a].phase) && Uploading(s.requests[b].phase)
      && s.requests[a].digest == s.requests[b].digest :: a == b
  }

  /** Every commit that could be tried now would be accepted. */
  predicate NoCommitLost(s: Sys) {
    forall id | id in s.requests && s.requests[id].phase.Committing? ::
      s.store.CommitReply(s.requests[id].digest, s.now, s.requests[id].phase.token) == CommitOk
  }

  /** While it uploads, a request holds its lease and is within its time. */
  predicate HoldsOn(cfg: Config, commitMs: nat, h: Ledger, now: nat, r: Request) {
    Uploading(r.phase) ==>
      && r.digest in h
      && h[r.digest] == LeasedBy(TokenOf(r.phase), LeasedAtOf(r.phase) + cfg.leaseTtlSecs * 1000)
      && now <= DueAt(cfg, commitMs, r.phase)
      && (r.phase.Committing? ==> r.phase.answeredAt <= r.phase.leasedAt + ForwardMs(cfg))
  }

  predicate Inv(cfg: Config, commitMs: nat, s: Sys) {
    && CustodyInv(cfg, s)
    && (forall id | id in s.requests :: HoldsOn(cfg, commitMs, s.Holds(), s.now, s.requests[id]))
  }

  /** The specification keeps a lease that no step names, drops or ends. */
  lemma {:induction false} LeaseStays(cfg: Config, chain: Chain, s: Sys, e: Event, d: string)
    requires Enabled(cfg, chain, s, e) && !e.Tick? && IsLease(s.Holds(), d)
    requires e.TakeLease? ==> e.victim == None
    requires e.TryCommit? || e.TryRelease? ==> TokenOf(s.requests[e.id].phase) != s.Holds()[d].token
    ensures d in LedgerAfter(cfg, chain, s, e) && LedgerAfter(cfg, chain, s, e)[d] == s.Holds()[d]
  {
  }

  /** Another request's step does not take the lease away. */
  lemma {:induction false} OthersLeaveIt(cfg: Config, commitMs: nat, chain: Chain, s: Sys, e: Event, id: nat)
    requires Inv(cfg, commitMs, s) && Enabled(cfg, chain, s, e) && Timely(cfg, commitMs, s, e) && !e.Tick?
    requires id in s.requests && Uploading(s.requests[id].phase) && e.id != id
    ensures HoldsOn(cfg, commitMs, LedgerAfter(cfg, chain, s, e), s.now, s.requests[id])
  {
    assert HoldsOn(cfg, commitMs, s.Holds(), s.now, s.requests[id]);
    if e.TakeLease? {
      EvictsLeasesOnly(cfg, s.store, s.requests[e.id].digest, s.now, e.victim);
    }
    LeaseStays(cfg, chain, s, e, s.requests[id].digest);
  }

  /** The clock does not take it away either: the lease outlives every deadline of its request. */
  lemma {:induction false} ClockLeavesIt(cfg: Config, commitMs: nat, chain: Chain, s: Sys, e: Event, id: nat)
    requires cfg.LeaseOutlivesRequest() && commitMs < 1000
    requires Inv(cfg, commitMs, s) && Enabled(cfg, chain, s, e) && Timely(cfg, commitMs, s, e) && e.Tick?
    requires id in s.requests && Uploading(s.requests[id].phase)
    ensures HoldsOn(cfg, commitMs, LedgerAfter(cfg, chain, s, e), e.to, s.requests[id])
  {
    assert HoldsOn(cfg, commitMs, s.Holds(), s.now, s.requests[id]);
  }

  lemma {:induction false} TakerHoldsOn(cfg: Config, commitMs: nat, chain: Chain, s: Sys, e: Event)
    requires 0 < cfg.leaseTtlSecs && Sane(cfg, s) && Enabled(cfg, chain, s, e) && e.TakeLease?
    ensures HoldsOn(cfg, commitMs, LedgerAfter(cfg, chain, s, e), s.now,
                    Request(s.requests[e.id].digest, PhaseAfter(cfg, chain, s, e)))
  {
  }

  lemma {:induction false} OnlyTwoStepsUpload(cfg: Config, chain: Chain, s: Sys, e: Event)
    requires Enabled(cfg, chain, s, e) && !e.Tick? && Uploading(PhaseAfter(cfg, chain, s, e))
    ensures e.TakeLease? || e.Answer?
  {
  }

  lemma {:induction false} OwnStepHoldsOn(cfg: Config, commitMs: nat, chain: Chain, s: Sys, e: Event)
    requires 0 < cfg.leaseTtlSecs
    requires Inv(cfg, commitMs, s) && Enabled(cfg, chain, s, e) && !e.Tick? && Uploading(PhaseAfter(cfg, chain, s, e))
    ensures e.id in s.requests
    ensures HoldsOn(cfg, commitMs, LedgerAfter(cfg, chain, s, e), s.now,
                    Request(s.requests[e.id].digest, PhaseAfter(cfg, chain, s, e)))
  {
    OnlyTwoStepsUpload(cfg, chain, s, e);
    if e.TakeLease? {
      TakerHoldsOn(cfg, commitMs, chain, s, e);
    } else {
      assert HoldsOn(cfg, commitMs, s.Holds(), s.now, s.requests[e.id]);
    }
  }

  lemma {:induction false} StepKeepsInv(cfg: Config, commitMs: nat, chain: Chain, s: Sys, e: Event)
    requires cfg.LeaseOutlivesRequest() && commitMs < 1000
    requires Inv(cfg, commitMs, s) && Enabled(cfg, chain, s, e) && Timely(cfg, commitMs, s, e)
    ensures Inv(cfg, commitMs, Step(cfg, chain, s, e))
  {
    var next := Step(cfg, chain, s, e);
    StepKeepsCustody(cfg, chain, s, e);
    StepRefines(cfg, chain, s, e);
    forall id | id in next.requests && Uploading(next.requests[id].phase)
      ensures HoldsOn(cfg, commitMs, next.Holds(), next.now, next.requests[id])
    {
      if e.Tick? {
        ClockLeavesIt(cfg, commitMs, chain, s, e, id);
      } else if e.id != id {
        OthersLeaveIt(cfg, commitMs, chain, s, e, id);
      } else {
        OwnStepHoldsOn(cfg, commitMs, chain, s, e);
      }
    }
  }

  lemma {:induction false} RunKeepsInv(cfg: Config, commitMs: nat, chain: Chain, s: Sys, events: seq<Event>)
    requires cfg.LeaseOutlivesRequest() && commitMs < 1000
    requires Inv(cfg, commitMs, s) && Legal(cfg, chain, s, events) && TimelyRun(cfg, commitMs, chain, s, events)
    ensures Inv(cfg, commitMs, Exec(cfg, chain, s, events))
    decreases |events|
  {
    if events != [] {
      StepKeepsInv(cfg, commitMs, chain, s, events[0]);
      RunKeepsInv(cfg, commitMs, chain, Step(cfg, chain, s, events[0]), events[1..]);
    }
  }

  /** A lease that outlives the request keeps every other upload of its digest out, and no commit is lost. */
  lemma {:induction false} UploadsAreExclusive(cfg: Config, commitMs: nat, chain: Chain, s: Sys, events: seq<Event>)
    requires cfg.LeaseOutlivesRequest() && commitMs < 1000
    requires Initial(cfg, s) && Legal(cfg, chain, s, events) && TimelyRun(cfg, commitMs, chain, s, events)
    ensures OneUploadPerDigest(Exec(cfg, chain, s, events))
    ensures NoCommitLost(Exec(cfg, chain, s, events))
  {
    RunKeepsInv(cfg, commitMs, chain, s, events);
    var end := Exec(cfg, chain, s, events);
    forall id | id in end.requests && Uploading(end.requests[id].phase)
      ensures Owns(end.Holds(), end.requests[id].digest, TokenOf(end.requests[id].phase))
    {
      assert HoldsOn(cfg, commitMs, end.Holds(), end.now, end.requests[id]);
    }
    forall id | id in end.requests && end.requests[id].phase.Committing?
      ensures end.store.CommitReply(end.requests[id].digest, end.now, end.requests[id].phase.token) == CommitOk
    {
      CommittedRefines(cfg, end.store, end.requests[id].digest, end.now, end.requests[id].phase.token);
    }
  }

  // ---- The inequality is the weakest one ----

  /** In every timely run from an empty store, over every chain, a digest has one upload at a time. */
  ghost predicate ExclusiveHolds(cfg: Config, commitMs: nat) {
    forall chain: Chain, s: Sys, events: seq<Event> |
      Initial(cfg, s) && Legal(cfg, chain, s, events) && TimelyRun(cfg, commitMs, chain, s, events) ::
      OneUploadPerDigest(Exec(cfg, chain, s, events))
  }

  lemma {:induction false} OneMoreTimely(cfg: Config, commitMs: nat, chain: Chain, s: Sys, events: seq<Event>, e: Event)
    requires Legal(cfg, chain, s, events) && TimelyRun(cfg, commitMs, chain, s, events)
    requires Enabled(cfg, chain, Exec(cfg, chain, s, events), e) && Timely(cfg, commitMs, Exec(cfg, chain, s, events), e)
    ensures Legal(cfg, chain, s, events + [e]) && TimelyRun(cfg, commitMs, chain, s, events + [e])
    ensures Exec(cfg, chain, s, events + [e]) == Step(cfg, chain, Exec(cfg, chain, s, events), e)
    decreases |events|
  {
    if events == [] {
      assert events + [e] == [e];
      assert [e][1..] == [];
    } else {
      assert (events + [e])[1..] == events[1..] + [e];
      OneMoreTimely(cfg, commitMs, chain, Step(cfg, chain, s, events[0]), events[1..], e);
    }
  }

  /** Both requests are verified at time 0 and wait. */
  lemma {:induction false} TwoVerified(cfg: Config, commitMs: nat, chain: Chain, s: Sys) returns (events: seq<Event>)
    requires chain.eventMs == map["d" := 0] && s == Sys(0, Table(map[], U64_MAX), map[], {}, multiset{})
    ensures Legal(cfg, chain, s, events) && TimelyRun(cfg, commitMs, chain, s, events)
    ensures Exec(cfg, chain, s, events) == s.(requests := map[0 := Request("d", Verified(0)), 1 := Request("d", Verified(0))])
  {
    OneMoreTimely(cfg, commitMs, chain, s, [], Arrive(0, "d"));
    OneMoreTimely(cfg, commitMs, chain, s, [] + [Arrive(0, "d")], Arrive(1, "d"));
    OneMoreTimely(cfg, commitMs, chain, s, [] + [Arrive(0, "d")] + [Arrive(1, "d")], Verify(0));
    events := [] + [Arrive(0, "d")] + [Arrive(1, "d")] + [Verify(0)];
    OneMoreTimely(cfg, commitMs, chain, s, events, Verify(1));
    events := events + [Verify(1)];
    assert Exec(cfg, chain, s, events).requests == map[0 := Request("d", Verified(0)), 1 := Request("d", Verified(0))];
  }

  /** The first request takes the lease, and its time runs out while its upload is still on time. */
  lemma {:induction false} FirstLeaseLapses(cfg: Config, commitMs: nat, chain: Chain, s: Sys) returns (events: seq<Event>)
    requires cfg.InRanges() && !cfg.LeaseOutlivesRequest()
    requires chain == Chain(map["d" := 0], cfg.leaseTtlSecs * 1000) && s == Sys(0, Table(map[], U64_MAX), map[], {}, multiset{})
    ensures Legal(cfg, chain, s, events) && TimelyRun(cfg, commitMs, chain, s, events)
    ensures var (u, lapse) := (Exec(cfg, chain, s, events), cfg.leaseTtlSecs * 1000);
            && u.now == lapse && u.tokens == {"a"}
            && u.store == Table(map["d" := Redemption.Row(false, lapse, "a")], U64_MAX)
            && u.requests == map[0 := Request("d", Forwarding("a", 0)), 1 := Request("d", Verified(0))]
  {
    var lapse := cfg.leaseTtlSecs * 1000;
    events := TwoVerified(cfg, commitMs, chain, s);
    var t := Exec(cfg, chain, s, events);
    assert t.Holds() == map[];
    TakeStep(cfg, chain, t, 0, "a");
    OneMoreTimely(cfg, commitMs, chain, s, events, TakeLease(0, "a", None));
    events := events + [TakeLease(0, "a", None)];
    OneMoreTimely(cfg, commitMs, chain, s, events, Tick(lapse));
    events := events + [Tick(lapse)];
  }

  /** A lease no longer than the timeouts lets a second upload in while the first is still on time. */
  lemma {:induction false} TooShortALease(cfg: Config, commitMs: nat) returns (chain: Chain, s: Sys, events: seq<Event>)
    requires cfg.InRanges() && !cfg.LeaseOutlivesRequest()
    ensures Initial(cfg, s) && Legal(cfg, chain, s, events) && TimelyRun(cfg, commitMs, chain, s, events)
    ensures !OneUploadPerDigest(Exec(cfg, chain, s, events))
  {
    chain := Chain(map["d" := 0], cfg.leaseTtlSecs * 1000);
    s := Sys(0, Table(map[], U64_MAX), map[], {}, multiset{});
    events := FirstLeaseLapses(cfg, commitMs, chain, s);
    var u := Exec(cfg, chain, s, events);
    assert u.Holds() == map[];
    assert "b" !in {"a"} by { assert "b"[0] != "a"[0]; }
    TakeStep(cfg, chain, u, 1, "b");
    OneMoreTimely(cfg, commitMs, chain, s, events, TakeLease(1, "b", None));
    events := events + [TakeLease(1, "b", None)];
    var end := Exec(cfg, chain, s, events);
    assert Uploading(end.requests[0].phase) && Uploading(end.requests[1].phase);
  }

  /** One upload per digest at a time holds exactly under the startup inequality. */
  lemma {:induction false} ExclusiveExactly(cfg: Config, commitMs: nat)
    requires cfg.InRanges() && commitMs < 1000
    ensures ExclusiveHolds(cfg, commitMs) <==> cfg.upstreamTimeoutSecs + cfg.bodyReadTimeoutSecs < cfg.leaseTtlSecs
  {
    if cfg.LeaseOutlivesRequest() {
      forall chain: Chain, s: Sys, events: seq<Event> |
        Initial(cfg, s) && Legal(cfg, chain, s, events) && TimelyRun(cfg, commitMs, chain, s, events)
        ensures OneUploadPerDigest(Exec(cfg, chain, s, events))
      {
        UploadsAreExclusive(cfg, commitMs, chain, s, events);
      }
    } else {
      var chain, s, events := TooShortALease(cfg, commitMs);
    }
  }
}
