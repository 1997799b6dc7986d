/**
 Startup only asks that the retention be no shorter than the event's largest age. This module builds the run
 in which that is too little, and so finds the exact condition for single use.
 */
module DoubleSpend {
  import opened Words
  import opened Holds
  import opened Recency
  import opened Gateway
  import opened SingleUse
  import Redemption

  /** Every run from an empty store, on every chain with this lease delay, spends each digest at most once. */
  ghost predicate SingleUseHolds(cfg: Config, leaseDelayMs: nat) {
    forall chain: Chain, s: Sys, events: seq<Event> |
      chain.leaseDelayMs == leaseDelayMs && Initial(cfg, s) && Legal(cfg, chain, s, events) ::
      NoDoubleSpend(Exec(cfg, chain, s, events))
  }

  lemma {:induction false} OneMore(cfg: Config, chain: Chain, s: Sys, events: seq<Event>, e: Event)
    requires Legal(cfg, chain, s, events) && Enabled(cfg, chain, Exec(cfg, chain, s, events), e)
    ensures Legal(cfg, chain, s, events + [e])
    ensures Exec(cfg, chain, s, events + [e]) == Step(cfg, chain, Exec(cfg, chain, s, events), e)
    decreases |events|
  {
    if events == [] {
      assert events + [e] == [e];
      assert [e][1..] == [];
    } else {
      assert (events + [e])[1..] == events[1..] + [e];
      OneMore(cfg, chain, Step(cfg, chain, s, events[0]), events[1..], e);
    }
  }

  /** Nobody but `id` is in the way: a table with no live row, and a fresh token. */
  predicate ReadyToSpend(cfg: Config, chain: Chain, t: Sys, id: nat, token: string) {
    && Sane(cfg, t)
    && t.store.Table? && t.store.rows.Keys <= {"d"} && ("d" in t.store.rows ==> t.store.rows["d"].expiryMs <= t.now)
    && id in t.requests && t.requests[id].digest == "d"
    && t.requests[id].phase.Verified? && t.now <= t.requests[id].phase.at + chain.leaseDelayMs
    && token !in t.tokens
  }

  lemma {:induction false} TakeStep(cfg: Config, chain: Chain, t: Sys, id: nat, token: string)
    requires ReadyToSpend(cfg, chain, t, id, token)
    ensures var e := TakeLease(id, token, None);
            && Enabled(cfg, chain, t, e)
            && Step(cfg, chain, t, e)
               == t.(store := Table(map["d" := Redemption.Row(false, t.now + cfg.leaseTtlSecs * 1000, token)], t.store.top),
                     requests := t.requests[id := Request("d", Forwarding(token, t.now))],
                     tokens := t.tokens + {token})
  {
    var live := Redemption.Retain(t.store.rows, t.now);
    assert live == map[];
    assert |live| == 0;
    ExpiryInRange(t.now, cfg.leaseTtlSecs, t.store.top);
    assert "d" !in t.Holds();
  }

  lemma {:induction false} CommitStep(cfg: Config, chain: Chain, t: Sys, id: nat, token: string, leaseMs: nat, code: nat)
    requires Sane(cfg, t) && t.now < leaseMs && id in t.requests
    requires t.store.Table? && t.store.rows == map["d" := Redemption.Row(false, leaseMs, token)]
    requires t.requests[id] == Request("d", Committing(token, t.now, t.now, code))
    ensures Enabled(cfg, chain, t, TryCommit(id))
    ensures var u := Step(cfg, chain, t, TryCommit(id));
            && u.now == t.now && u.tokens == t.tokens && Sane(cfg, u)
            && u.store == Table(map["d" := Redemption.Row(true, t.now + cfg.retentionSecs * 1000, "")], t.store.top)
            && u.requests == t.requests[id := Request("d", Done(Upstream(code), t.now))]
  {
    ExpiryInRange(t.now, cfg.retentionSecs, t.store.top);
    assert t.store.CommitReply("d", t.now, token) == CommitOk;
  }

  /** A request for a young event on a free digest spends it at once, on any 2xx. */
  lemma {:induction false} Spend(cfg: Config, chain: Chain, s: Sys, events: seq<Event>, id: nat, token: string, code: nat)
    returns (more: seq<Event>)
    requires 200 <= code < 300
    requires cfg.Accepted() && Legal(cfg, chain, s, events) && ReadyToSpend(cfg, chain, Exec(cfg, chain, s, events), id, token)
    ensures Legal(cfg, chain, s, more)
    ensures var (t, u) := (Exec(cfg, chain, s, events), Exec(cfg, chain, s, more));
            && u.now == t.now && u.tokens == t.tokens + {token} && Sane(cfg, u)
            && u.store == Table(map["d" := Redemption.Row(true, t.now + cfg.retentionSecs * 1000, "")], t.store.top)
            && u.requests == t.requests[id := Request("d", Done(Upstream(code), t.now))]
  {
    var t := Exec(cfg, chain, s, events);
    TakeStep(cfg, chain, t, id, token);
    OneMore(cfg, chain, s, events, TakeLease(id, token, None));
    more := events + [TakeLease(id, token, None)];
    OneMore(cfg, chain, s, more, Answer(id, Status(code)));
    more := more + [Answer(id, Status(code))];
    var t2 := Exec(cfg, chain, s, more);
    CommitStep(cfg, chain, t2, id, token, t.now + cfg.leaseTtlSecs * 1000, code);
    OneMore(cfg, chain, s, more, TryCommit(id));
    more := more + [TryCommit(id)];
    assert Exec(cfg, chain, s, more).requests == t.requests[id := Request("d", Done(Upstream(code), t.now))];
  }

  /** A fresh request arrives and is verified. */
  lemma {:induction false} Admit(cfg: Config, chain: Chain, s: Sys, events: seq<Event>, id: nat) returns (more: seq<Event>)
    requires Legal(cfg, chain, s, events)
    requires var t := Exec(cfg, chain, s, events);
             && id !in t.requests && "d" in chain.eventMs && IsRecent(chain.eventMs["d"], t.now, cfg.consumeMaxAgeSecs)
    ensures Legal(cfg, chain, s, more)
    ensures var t := Exec(cfg, chain, s, events);
            Exec(cfg, chain, s, more) == t.(requests := t.requests[id := Request("d", Verified(t.now))])
  {
    var t := Exec(cfg, chain, s, events);
    OneMore(cfg, chain, s, events, Arrive(id, "d"));
    OneMore(cfg, chain, s, events + [Arrive(id, "d")], Verify(id));
    more := events + [Arrive(id, "d")] + [Verify(id)];
    var u := Exec(cfg, chain, s, more);
    assert u.requests == t.requests[id := Request("d", Verified(t.now))];
  }

  /** Two successes for one digest whenever the retention does not outlast age, skew and delay. */
  lemma {:induction false} TooShortARetention(cfg: Config, leaseDelayMs: nat) returns (chain: Chain, s: Sys, events: seq<Event>)
    requires cfg.Accepted() && !Slack(cfg, leaseDelayMs)
    ensures chain.leaseDelayMs == leaseDelayMs && Initial(cfg, s) && Legal(cfg, chain, s, events)
    ensures !NoDoubleSpend(Exec(cfg, chain, s, events))
  {
    chain := Chain(map["d" := CLOCK_SKEW_MS], leaseDelayMs);
    s := Sys(0, Table(map[], U64_MAX), map[], {}, multiset{});
    events := Admit(cfg, chain, s, [], 0);
    events := Spend(cfg, chain, s, events, 0, "a", 200);
    var t := Exec(cfg, chain, s, events);
    var oldest := CLOCK_SKEW_MS + cfg.consumeMaxAgeSecs * 1000;
    OneMore(cfg, chain, s, events, Tick(oldest));
    events := Admit(cfg, chain, s, events + [Tick(oldest)], 1);
    var lapsed := Max(oldest, cfg.retentionSecs * 1000);
    OneMore(cfg, chain, s, events, Tick(lapsed));
    assert "b" !in {"a"} by { assert "b"[0] != "a"[0]; }
    events := Spend(cfg, chain, s, events + [Tick(lapsed)], 1, "b", 200);
    var u := Exec(cfg, chain, s, events);
    assert Won(u.requests[0]) && Won(u.requests[1]);
  }

  /** Single use holds exactly when the retention exceeds age, skew and delay together. */
  lemma {:induction false} SingleUseExactly(cfg: Config, leaseDelayMs: nat)
    requires cfg.Accepted()
    ensures SingleUseHolds(cfg, leaseDelayMs)
            <==> cfg.consumeMaxAgeSecs * 1000 + CLOCK_SKEW_MS + leaseDelayMs < cfg.retentionSecs * 1000
  {
    if Slack(cfg, leaseDelayMs) {
      forall chain: Chain, s: Sys, events: seq<Event> |
        chain.leaseDelayMs == leaseDelayMs && Initial(cfg, s) && Legal(cfg, chain, s, events)
        ensures NoDoubleSpend(Exec(cfg, chain, s, events))
      {
        AtMostOneSuccess(cfg, chain, s, events);
      }
    } else {
      var chain, s, events := TooShortARetention(cfg, leaseDelayMs);
    }
  }

  /** The defaults leave room for every delay below 25 days less a minute; equal age and retention leave none. */
  lemma {:induction false} DefaultsAndTheEdge(leaseDelayMs: nat)
    ensures var defaults := Config(600, 30, 900, 2_592_000, 432_000, 1_000_000);
            && defaults.Accepted()
            && (SingleUseHolds(defaults, leaseDelayMs) <==> leaseDelayMs < 2_159_940_000)
    ensures var edge := Config(600, 30, 900, 432_000, 432_000, 1_000_000);
            && edge.Accepted()
            && !SingleUseHolds(edge, leaseDelayMs)
  {
    SingleUseExactly(Config(600, 30, 900, 2_592_000, 432_000, 1_000_000), leaseDelayMs);
    SingleUseExactly(Config(600, 30, 900, 432_000, 432_000, 1_000_000), leaseDelayMs);
  }
}
