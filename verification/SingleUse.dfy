/** What every run of the gateway guarantees about a consume digest: one success, and exactly when. */
module SingleUse {
  import opened Words
  import opened Holds
  import opened Recency
  import opened Gateway
  import Redemption

  /** The request told its caller that the upload succeeded. */
  predicate Won(r: Request) {
    r.phase.Done? && r.phase.reply.IsSuccess()
  }

  /** No digest ever paid for two successes. */
  predicate NoDoubleSpend(s: Sys) {
    forall a, b | a in s.requests && b in s.requests && Won(s.requests[a]) && Won(s.requests[b])
      && s.requests[a].digest == s.requests[b].digest :: a == b
  }

  // ---- The invariant ----

  /** The event of `r`'s digest is no further in the future of `t` than the skew. */
  predicate EventBy(chain: Chain, r: Request, t: nat) {
    r.digest in chain.eventMs && chain.eventMs[r.digest] <= t + CLOCK_SKEW_MS
  }

  predicate RequestOk(cfg: Config, chain: Chain, now: nat, r: Request) {
    match r.phase
    case Verified(at) =>
      at <= now && EventBy(chain, r, at) && at <= chain.eventMs[r.digest] + cfg.consumeMaxAgeSecs * 1000
    case Forwarding(_, leasedAt) => leasedAt <= now && EventBy(chain, r, leasedAt)
    case Committing(_, leasedAt, _, status) => leasedAt <= now && EventBy(chain, r, leasedAt)
    case Releasing(_, _, reply) => !reply.IsSuccess()
    case Done(reply, doneAt) => doneAt <= now && (reply.IsSuccess() ==> EventBy(chain, r, doneAt))
    case _ => true
  }

  predicate RequestsOk(cfg: Config, chain: Chain, s: Sys) {
    forall id | id in s.requests :: RequestOk(cfg, chain, s.now, s.requests[id])
  }

  /** The ledger still knows of a success at `doneAt`, unless its retention is over. */
  predicate Remembers(cfg: Config, h: Ledger, now: nat, digest: string, doneAt: nat) {
    var until := doneAt + cfg.retentionSecs * 1000;
    if digest in h then h[digest] == CommittedUntil(until) else until <= now
  }

  predicate Remembered(cfg: Config, s: Sys, r: Request) {
    Won(r) ==> Remembers(cfg, s.Holds(), s.now, r.digest, r.phase.doneAt)
  }

  predicate AllRemembered(cfg: Config, s: Sys) {
    forall id | id in s.requests :: Remembered(cfg, s, s.requests[id])
  }

  predicate Inv(cfg: Config, chain: Chain, s: Sys) {
    && Sane(cfg, s)
    && RequestsOk(cfg, chain, s)
    && AllRemembered(cfg, s)
    && NoDoubleSpend(s)
  }

  /** The retention outlasts the oldest event a request can still be verified with, skew and delay included. */
  predicate Slack(cfg: Config, leaseDelayMs: nat) {
    cfg.consumeMaxAgeSecs * 1000 + CLOCK_SKEW_MS + leaseDelayMs < cfg.retentionSecs * 1000
  }

  lemma {:induction false} RequestOkLater(cfg: Config, chain: Chain, r: Request, now: nat, later: nat)
    requires RequestOk(cfg, chain, now, r) && now <= later
    ensures RequestOk(cfg, chain, later, r)
  {
  }

  lemma {:induction false} PhaseAfterOk(cfg: Config, chain: Chain, s: Sys, e: Event)
    requires Sane(cfg, s) && Enabled(cfg, chain, s, e) && !e.Tick? && !e.Arrive?
    requires RequestOk(cfg, chain, s.now, s.requests[e.id])
    ensures RequestOk(cfg, chain, s.now, Request(s.requests[e.id].digest, PhaseAfter(cfg, chain, s, e)))
  {
  }

  lemma {:induction false} RequestsStayOk(cfg: Config, chain: Chain, s: Sys, e: Event)
    requires Sane(cfg, s) && RequestsOk(cfg, chain, s) && Enabled(cfg, chain, s, e)
    ensures RequestsOk(cfg, chain, Step(cfg, chain, s, e))
  {
    var next := Step(cfg, chain, s, e);
    forall id | id in next.requests
      ensures RequestOk(cfg, chain, next.now, next.requests[id])
    {
      if !e.Tick? && id == e.id {
        if !e.Arrive? {
          PhaseAfterOk(cfg, chain, s, e);
        }
      } else {
        RequestOkLater(cfg, chain, s.requests[id], s.now, next.now);
      }
    }
  }

  /** A lease can only be taken while the event is young, so never once a success is forgotten. */
  lemma {:induction false} NoLeaseAfterSuccess(cfg: Config, chain: Chain, s: Sys, e: Event, w: Request)
    requires Slack(cfg, chain.leaseDelayMs) && Enabled(cfg, chain, s, e) && e.TakeLease?
    requires RequestOk(cfg, chain, s.now, s.requests[e.id]) && RequestOk(cfg, chain, s.now, w)
    requires Won(w) && s.requests[e.id].digest == w.digest
    requires Remembers(cfg, s.Holds(), s.now, w.digest, w.phase.doneAt)
    ensures w.digest in s.Holds()
  {
  }

  lemma {:induction false} RememberedAfter(cfg: Config, chain: Chain, s: Sys, e: Event, digest: string, doneAt: nat)
    requires Enabled(cfg, chain, s, e) && Remembers(cfg, s.Holds(), s.now, digest, doneAt)
    requires e.TakeLease? ==> Droppable(s.Holds(), e.victim) && (s.requests[e.id].digest == digest ==> digest in s.Holds())
    ensures Remembers(cfg, LedgerAfter(cfg, chain, s, e), if e.Tick? then e.to else s.now, digest, doneAt)
  {
  }

  /** The holds of a digest that is committed or forgotten change only by lapsing. */
  lemma {:induction false} SuccessStaysRemembered(cfg: Config, chain: Chain, s: Sys, e: Event, w: Request)
    requires Slack(cfg, chain.leaseDelayMs) && Sane(cfg, s) && Enabled(cfg, chain, s, e)
    requires RequestsOk(cfg, chain, s) && RequestOk(cfg, chain, s.now, w)
    requires Won(w) && Remembers(cfg, s.Holds(), s.now, w.digest, w.phase.doneAt)
    ensures var next := Step(cfg, chain, s, e);
            Remembers(cfg, next.Holds(), next.now, w.digest, w.phase.doneAt)
  {
    StepRefines(cfg, chain, s, e);
    if e.TakeLease? {
      EvictsLeasesOnly(cfg, s.store, s.requests[e.id].digest, s.now, e.victim);
      if s.requests[e.id].digest == w.digest {
        NoLeaseAfterSuccess(cfg, chain, s, e, w);
      }
    }
    RememberedAfter(cfg, chain, s, e, w.digest, w.phase.doneAt);
  }

  /** Only a commit the store accepted turns a request into a success. */
  lemma {:induction false} SuccessNeedsCommit(cfg: Config, chain: Chain, s: Sys, e: Event, id: nat)
    requires Enabled(cfg, chain, s, e) && RequestsOk(cfg, chain, s)
    requires id in Step(cfg, chain, s, e).requests && Won(Step(cfg, chain, s, e).requests[id])
    ensures id in s.requests && s.requests[id].digest == Step(cfg, chain, s, e).requests[id].digest
    ensures s.requests[id] != Step(cfg, chain, s, e).requests[id] ==> Records(s, e) && e.id == id
  {
    if !e.Tick? && e.id == id && !e.Arrive? {
      assert RequestOk(cfg, chain, s.now, s.requests[id]);
    }
  }

  lemma {:induction false} NewSuccessRemembered(cfg: Config, chain: Chain, s: Sys, e: Event)
    requires Sane(cfg, s) && Enabled(cfg, chain, s, e) && Records(s, e)
    ensures var next := Step(cfg, chain, s, e);
            Remembers(cfg, next.Holds(), next.now, s.requests[e.id].digest, s.now)
    ensures IsLease(s.Holds(), s.requests[e.id].digest)
  {
    StepRefines(cfg, chain, s, e);
    CommittedRefines(cfg, s.store, s.requests[e.id].digest, s.now, s.requests[e.id].phase.token);
  }

  lemma {:induction false} StepKeepsInv(cfg: Config, chain: Chain, s: Sys, e: Event)
    requires Slack(cfg, chain.leaseDelayMs) && Inv(cfg, chain, s) && Enabled(cfg, chain, s, e)
    ensures Inv(cfg, chain, Step(cfg, chain, s, e))
  {
    var next := Step(cfg, chain, s, e);
    StepRefines(cfg, chain, s, e);
    RequestsStayOk(cfg, chain, s, e);
    forall id | id in next.requests && Won(next.requests[id])
      ensures Remembered(cfg, next, next.requests[id])
    {
      SuccessNeedsCommit(cfg, chain, s, e, id);
      if s.requests[id] == next.requests[id] {
        assert Remembered(cfg, s, s.requests[id]);
        SuccessStaysRemembered(cfg, chain, s, e, s.requests[id]);
      } else {
        NewSuccessRemembered(cfg, chain, s, e);
      }
    }
    forall a, b | a in next.requests && b in next.requests && Won(next.requests[a]) && Won(next.requests[b])
      && next.requests[a].digest == next.requests[b].digest
      ensures a == b
    {
      SuccessNeedsCommit(cfg, chain, s, e, a);
      SuccessNeedsCommit(cfg, chain, s, e, b);
      if Records(s, e) {
        NewSuccessRemembered(cfg, chain, s, e);
        assert Remembered(cfg, s, s.requests[a]);
        assert Remembered(cfg, s, s.requests[b]);
      }
    }
  }

  lemma {:induction false} RunKeepsInv(cfg: Config, chain: Chain, s: Sys, events: seq<Event>)
    requires Slack(cfg, chain.leaseDelayMs) && Inv(cfg, chain, s) && Legal(cfg, chain, s, events)
    ensures Inv(cfg, chain, Exec(cfg, chain, s, events))
    decreases |events|
  {
    if events != [] {
      StepKeepsInv(cfg, chain, s, events[0]);
      RunKeepsInv(cfg, chain, Step(cfg, chain, s, events[0]), events[1..]);
    }
  }

  /** In every interleaving, over every store, at most one request per digest succeeds. */
  lemma {:induction false} AtMostOneSuccess(cfg: Config, chain: Chain, s: Sys, events: seq<Event>)
    requires Slack(cfg, chain.leaseDelayMs) && Initial(cfg, s) && Legal(cfg, chain, s, events)
    ensures NoDoubleSpend(Exec(cfg, chain, s, events))
  {
    RunKeepsInv(cfg, chain, s, events);
  }
}
