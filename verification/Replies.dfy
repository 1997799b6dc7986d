/**
 What each step answers, said of the system's steps and of what the store holds: an accepted upload is committed and
 passed on, and every refusal names the state of its digest.
 */
module Replies {
  import opened Words
  import opened Holds
  import opened Gateway
  import opened Custody
  import opened InFlight
  import opened RedeemFlow
  import opened SingleUse

  // ---- An accepted upload is committed ----

  predicate Is2xx(code: nat) {
    200 <= code < 300
  }

  /** Every 2xx answer leads to a commit that can be tried at once, with the lease still in hand. */
  lemma {:induction false} AcceptedUploadCommits(cfg: Config, chain: Chain, s: Sys, id: nat, code: nat)
    requires Sane(cfg, s) && id in s.requests && s.requests[id].phase.Forwarding? && Is2xx(code)
    ensures Enabled(cfg, chain, s, Answer(id, Outcome.Status(code)))
    ensures var (p, t) := (s.requests[id].phase, Step(cfg, chain, s, Answer(id, Outcome.Status(code))));
            && t.requests[id] == Request(s.requests[id].digest, Committing(p.token, p.leasedAt, s.now, code))
            && t.Holds() == s.Holds() && t.now == s.now && Sane(cfg, t)
            && Enabled(cfg, chain, t, TryCommit(id))
  {
    StepRefines(cfg, chain, s, Answer(id, Outcome.Status(code)));
  }

  /** A commit tried by the owner of the lease passes the upstream's answer on and commits the digest. */
  lemma {:induction false} OwnersCommitIsAccepted(cfg: Config, chain: Chain, s: Sys, id: nat)
    requires Sane(cfg, s) && cfg.InRanges() && id in s.requests && s.requests[id].phase.Committing?
    requires Owns(s.Holds(), s.requests[id].digest, s.requests[id].phase.token)
    ensures Enabled(cfg, chain, s, TryCommit(id))
    ensures var (r, t) := (s.requests[id], Step(cfg, chain, s, TryCommit(id)));
            && t.requests[id] == Request(r.digest, Done(Upstream(r.phase.status), s.now))
            && r.digest in t.Holds() && t.Holds()[r.digest] == CommittedUntil(s.now + cfg.retentionSecs * 1000)
  {
    StepRefines(cfg, chain, s, TryCommit(id));
    CommittedRefines(cfg, s.store, s.requests[id].digest, s.now, s.requests[id].phase.token);
  }

  /** Others neither take the lease nor drop it for room. */
  predicate LeaveAlone(id: nat, digest: string, events: seq<Event>) {
    NoneOf(id, events) && forall e | e in events && e.TakeLease? :: e.victim != Some(digest)
  }

  lemma {:induction false} LedgerKeepsLease(cfg: Config, chain: Chain, s: Sys, e: Event, d: string)
    requires Enabled(cfg, chain, s, e) && IsLease(s.Holds(), d)
    requires e.TakeLease? ==> e.victim != Some(d)
    requires e.TryCommit? || e.TryRelease? ==> TokenOf(s.requests[e.id].phase) != s.Holds()[d].token
    requires e.Tick? ==> e.to < s.Holds()[d].expiryMs
    ensures d in LedgerAfter(cfg, chain, s, e) && LedgerAfter(cfg, chain, s, e)[d] == s.Holds()[d]
  {
  }

  /** The clock of a run does not go back. */
  lemma {:induction false} TimeGoesOn(cfg: Config, chain: Chain, s: Sys, events: seq<Event>)
    requires Legal(cfg, chain, s, events)
    ensures s.now <= Exec(cfg, chain, s, events).now
    decreases |events|
  {
    if events != [] {
      TimeGoesOn(cfg, chain, Step(cfg, chain, s, events[0]), events[1..]);
    }
  }

  /** A request keeps its lease until the lease's deadline, whatever the others do, unless it is dropped for room. */
  lemma {:induction false} LeaseLasts(cfg: Config, chain: Chain, s: Sys, events: seq<Event>, id: nat)
    requires CustodyInv(cfg, s) && Legal(cfg, chain, s, events) && id in s.requests
    requires HasLeaseToken(s.requests[id].phase)
    requires Owns(s.Holds(), s.requests[id].digest, TokenOf(s.requests[id].phase))
    requires LeaveAlone(id, s.requests[id].digest, events)
    requires Exec(cfg, chain, s, events).now < s.Holds()[s.requests[id].digest].expiryMs
    ensures var (r, t) := (s.requests[id], Exec(cfg, chain, s, events));
            && CustodyInv(cfg, t) && id in t.requests && t.requests[id] == r
            && Owns(t.Holds(), r.digest, TokenOf(r.phase)) && t.Holds()[r.digest] == s.Holds()[r.digest]
    decreases |events|
  {
    if events != [] {
      var (e, d) := (events[0], s.requests[id].digest);
      var t := Step(cfg, chain, s, e);
      assert e in events && forall f | f in events[1..] :: f in events;
      TimeGoesOn(cfg, chain, t, events[1..]);
      StepKeepsCustody(cfg, chain, s, e);
      StepRefines(cfg, chain, s, e);
      LedgerKeepsLease(cfg, chain, s, e, d);
      LeaseLasts(cfg, chain, t, events[1..], id);
    }
  }

  /** The commit of an upload that was answered, tried after the others' events and within the lease. */
  lemma {:induction false} CommitGoesThrough(cfg: Config, chain: Chain, t: Sys, id: nat, others: seq<Event>)
    requires cfg.InRanges() && CustodyInv(cfg, t) && id in t.requests && t.requests[id].phase.Committing?
    requires Owns(t.Holds(), t.requests[id].digest, t.requests[id].phase.token)
    requires LeaveAlone(id, t.requests[id].digest, others) && Legal(cfg, chain, t, others)
    requires Exec(cfg, chain, t, others).now < t.Holds()[t.requests[id].digest].expiryMs
    ensures var (r, u) := (t.requests[id], Exec(cfg, chain, t, others));
            && Enabled(cfg, chain, u, TryCommit(id))
            && var v := Step(cfg, chain, u, TryCommit(id));
               && v.requests[id] == Request(r.digest, Done(Upstream(r.phase.status), u.now))
               && r.digest in v.Holds() && v.Holds()[r.digest] == CommittedUntil(u.now + cfg.retentionSecs * 1000)
  {
    LeaseLasts(cfg, chain, t, others, id);
    OwnersCommitIsAccepted(cfg, chain, Exec(cfg, chain, t, others), id);
  }

  /** From the answer on: `t` is the state it leads to. */
  lemma {:induction false} AnsweredUploadSucceeds(cfg: Config, chain: Chain, s: Sys, id: nat, code: nat, t: Sys, others: seq<Event>)
    requires cfg.InRanges() && CustodyInv(cfg, s) && Is2xx(code) && id in s.requests && s.requests[id].phase.Forwarding?
    requires Owns(s.Holds(), s.requests[id].digest, s.requests[id].phase.token)
    requires t == Step(cfg, chain, s, Answer(id, Outcome.Status(code)))
    requires LeaveAlone(id, s.requests[id].digest, others) && Legal(cfg, chain, t, others)
    requires Exec(cfg, chain, t, others).now < s.Holds()[s.requests[id].digest].expiryMs
    ensures var (d, u) := (s.requests[id].digest, Exec(cfg, chain, t, others));
            && Enabled(cfg, chain, u, TryCommit(id))
            && var v := Step(cfg, chain, u, TryCommit(id));
               && v.requests[id] == Request(d, Done(Upstream(code), u.now))
               && d in v.Holds() && v.Holds()[d] == CommittedUntil(u.now + cfg.retentionSecs * 1000)
  {
    AcceptedUploadCommits(cfg, chain, s, id, code);
    StepKeepsCustody(cfg, chain, s, Answer(id, Outcome.Status(code)));
    CommitGoesThrough(cfg, chain, t, id, others);
  }

  /**
   In every reachable state, for every 2xx: the holder of a lease whose upload is answered with it ends by passing that
   answer on, with its digest committed for the retention, whatever the others do in between, when its commit reaches
   the store before the lease lapses or is dropped.
   */
  lemma {:induction false} AcceptedUploadSucceeds(
    cfg: Config, chain: Chain, s0: Sys, events: seq<Event>, s: Sys, id: nat, code: nat, t: Sys, others: seq<Event>)
    requires cfg.InRanges() && Initial(cfg, s0) && Legal(cfg, chain, s0, events) && s == Exec(cfg, chain, s0, events)
    requires Is2xx(code) && id in s.requests && s.requests[id].phase.Forwarding?
    requires Owns(s.Holds(), s.requests[id].digest, s.requests[id].phase.token)
    requires t == Step(cfg, chain, s, Answer(id, Outcome.Status(code)))
    requires LeaveAlone(id, s.requests[id].digest, others) && Legal(cfg, chain, t, others)
    requires Exec(cfg, chain, t, others).now < s.Holds()[s.requests[id].digest].expiryMs
    ensures var (d, u) := (s.requests[id].digest, Exec(cfg, chain, t, others));
            && Enabled(cfg, chain, u, TryCommit(id))
            && var v := Step(cfg, chain, u, TryCommit(id));
               && v.requests[id] == Request(d, Done(Upstream(code), u.now))
               && d in v.Holds() && v.Holds()[d] == CommittedUntil(u.now + cfg.retentionSecs * 1000)
  {
    RunKeepsCustody(cfg, chain, s0, events);
    AnsweredUploadSucceeds(cfg, chain, s, id, code, t, others);
  }

  /** A request goes on to release only after a failed upload or behind a failed commit call, never after a 2xx alone. */
  lemma {:induction false} ReleasesOnlyAfterFailure(cfg: Config, chain: Chain, s: Sys, e: Event, id: nat)
    requires Enabled(cfg, chain, s, e) && id in s.requests && !s.requests[id].phase.Releasing?
    requires Step(cfg, chain, s, e).requests[id].phase.Releasing?
    ensures var (before, after) := (s.requests[id].phase, Step(cfg, chain, s, e).requests[id].phase);
            || (e.Answer? && e.outcome.Threw? && after.reply == Raised)
            || (e.Answer? && e.outcome.Status? && !Is2xx(e.outcome.code) && after.reply == Upstream(e.outcome.code))
            || (e.Fault? && before.Committing? && after.reply == BadGateway)
  {
  }

  // ---- What a refusal says ----

  /** Asking for a lease is answered by the state of the digest. */
  lemma {:induction false} LeaseReplies(cfg: Config, chain: Chain, s: Sys, id: nat, token: string, victim: Option<string>)
    requires Sane(cfg, s) && Enabled(cfg, chain, s, TakeLease(id, token, victim)) && s.store.Table?
    ensures var (d, h) := (s.requests[id].digest, s.Holds());
            var p := Step(cfg, chain, s, TakeLease(id, token, victim)).requests[id].phase;
            && (d !in h <==> p == Forwarding(token, s.now))
            && (d in h && h[d].LeasedBy? <==> p == Done(Conflict("leased"), s.now))
            && (d in h && h[d].CommittedUntil? <==> p == Done(Conflict("redeemed"), s.now))
  {
    CodesDiffer();
  }

  lemma {:induction false} CodesDiffer()
    ensures "leased" != "redeemed"
  {
    assert |"leased"| != |"redeemed"|;
  }

  /** Redis reads a taken digest again, and answers by what it holds then. */
  lemma {:induction false} RedisLeaseReplies(cfg: Config, chain: Chain, s: Sys, e: Event)
    requires Sane(cfg, s) && Enabled(cfg, chain, s, e) && s.store.RedisKeys? && (e.TakeLease? || e.Probe?)
    ensures var (d, h, p) := (s.requests[e.id].digest, s.Holds(), Step(cfg, chain, s, e).requests[e.id].phase);
            && (e.TakeLease? ==> if d in h then p == Probing else p == Forwarding(e.token, s.now))
            && (e.Probe? ==> if d in h && h[d].CommittedUntil? then p == Done(Conflict("redeemed"), s.now)
                             else p == Done(Conflict("leased"), s.now))
  {
    if e.Probe? {
      Redis.ReadRefines(s.store.keys, s.requests[e.id].digest, s.now);
    }
  }

  /** A store that cannot answer is never a conflict or a success: unavailable before the lease, a 502 after the upload. */
  lemma {:induction false} FaultReplies(cfg: Config, chain: Chain, s: Sys, e: Event)
    requires Enabled(cfg, chain, s, e) && e.Fault?
    ensures var (p, t) := (s.requests[e.id].phase, Step(cfg, chain, s, e));
            && t.store == s.store
            && (p.Committing? ==> t.requests[e.id].phase == Releasing(p.token, p.leasedAt, BadGateway))
            && (!p.Committing? ==> t.requests[e.id].phase == Done(Unavailable, s.now))
  {
  }

  /** A commit tried without owning the lease is a 502 and changes nothing held. */
  lemma {:induction false} LostCommitReplies(cfg: Config, chain: Chain, s: Sys, id: nat)
    requires Sane(cfg, s) && Enabled(cfg, chain, s, TryCommit(id))
    requires !Owns(s.Holds(), s.requests[id].digest, s.requests[id].phase.token)
    ensures var t := Step(cfg, chain, s, TryCommit(id));
            t.requests[id].phase == Done(BadGateway, s.now) && t.Holds() == s.Holds()
  {
    StepRefines(cfg, chain, s, TryCommit(id));
    CommittedRefines(cfg, s.store, s.requests[id].digest, s.now, s.requests[id].phase.token);
  }

  /** A request is verified exactly when its event is known, at most the age old, and no more than the skew ahead. */
  lemma {:induction false} VerifyReplies(cfg: Config, chain: Chain, s: Sys, id: nat)
    requires Sane(cfg, s) && cfg.InRanges() && Enabled(cfg, chain, s, Verify(id))
    ensures var (d, p) := (s.requests[id].digest, Step(cfg, chain, s, Verify(id)).requests[id].phase);
            var young := d in chain.eventMs && chain.eventMs[d] <= s.now + 60_000
                         && s.now <= chain.eventMs[d] + cfg.consumeMaxAgeSecs * 1000;
            p == if young then Verified(s.now) else Done(Denied, s.now)
  {
  }
}
