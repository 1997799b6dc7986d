/**
 Who may touch what: commits match successes one for one, and a request only ever ends the lease it took itself.
 */
module Custody {
  import opened Words
  import opened Soonest
  import opened Holds
  import opened Gateway
  import opened SingleUse
  import Redemption

  // ---- Commits and successes ----

  function Winners(s: Sys, digest: string): set<nat> {
    set id | id in s.requests && Won(s.requests[id]) && s.requests[id].digest == digest
  }

  predicate RecordsFor(s: Sys, e: Event, digest: string) {
    Records(s, e) && s.requests[e.id].digest == digest
  }

  /** Who reports success after a step: whoever did before, and the request whose commit was accepted. */
  lemma {:induction false} WinnersAfter(cfg: Config, chain: Chain, s: Sys, e: Event, digest: string, id: nat)
    requires RequestsOk(cfg, chain, s) && Enabled(cfg, chain, s, e) && StatusesOk(s)
    ensures var records := RecordsFor(s, e, digest);
            && (id in Winners(Step(cfg, chain, s, e), digest) <==> id in Winners(s, digest) || (records && id == e.id))
            && (records ==> e.id !in Winners(s, digest))
  {
    var next := Step(cfg, chain, s, e);
    if id in Winners(next, digest) {
      SuccessNeedsCommit(cfg, chain, s, e, id);
    }
  }

  lemma {:induction false} RecordedAfter(cfg: Config, chain: Chain, s: Sys, e: Event, digest: string)
    requires Enabled(cfg, chain, s, e)
    ensures Step(cfg, chain, s, e).recorded[digest] == s.recorded[digest] + if RecordsFor(s, e, digest) then 1 else 0
  {
  }

  lemma {:induction false} WinnersCount(before: set<nat>, after: set<nat>, id: nat, added: bool)
    requires forall i :: i in after <==> i in before || (added && i == id)
    requires added ==> id !in before
    ensures |after| == |before| + if added then 1 else 0
  {
    assert after == if added then before + {id} else before;
  }

  lemma {:induction false} StepRecordsSuccess(cfg: Config, chain: Chain, s: Sys, e: Event, digest: string)
    requires RequestsOk(cfg, chain, s) && Enabled(cfg, chain, s, e) && StatusesOk(s)
    requires |Winners(s, digest)| == s.recorded[digest]
    ensures var next := Step(cfg, chain, s, e);
            |Winners(next, digest)| == next.recorded[digest]
  {
    var (before, after) := (Winners(s, digest), Winners(Step(cfg, chain, s, e), digest));
    var added := RecordsFor(s, e, digest);
    var acting := if e.Tick? then 0 else e.id;
    forall id
      ensures id in after <==> id in before || (added && id == acting)
      ensures added ==> acting !in before
    {
      WinnersAfter(cfg, chain, s, e, digest, id);
    }
    WinnersCount(before, after, acting, added);
    RecordedAfter(cfg, chain, s, e, digest);
  }

  /** A request that waits for its commit was answered with a 2xx. */
  predicate StatusesOk(s: Sys) {
    forall id | id in s.requests && s.requests[id].phase.Committing? :: 200 <= s.requests[id].phase.status < 300
  }

  lemma {:induction false} StatusesStayOk(cfg: Config, chain: Chain, s: Sys, e: Event)
    requires StatusesOk(s) && Enabled(cfg, chain, s, e)
    ensures StatusesOk(Step(cfg, chain, s, e))
  {
  }

  lemma {:induction false} RunRecordsSuccesses(cfg: Config, chain: Chain, s: Sys, events: seq<Event>, digest: string)
    requires Sane(cfg, s) && RequestsOk(cfg, chain, s) && StatusesOk(s) && Legal(cfg, chain, s, events)
    requires |Winners(s, digest)| == s.recorded[digest]
    ensures var end := Exec(cfg, chain, s, events);
            |Winners(end, digest)| == end.recorded[digest]
    decreases |events|
  {
    if events != [] {
      StepRefines(cfg, chain, s, events[0]);
      RequestsStayOk(cfg, chain, s, events[0]);
      StatusesStayOk(cfg, chain, s, events[0]);
      StepRecordsSuccess(cfg, chain, s, events[0], digest);
      RunRecordsSuccesses(cfg, chain, Step(cfg, chain, s, events[0]), events[1..], digest);
    }
  }

  /** Over every run the commits recorded for a digest are as many as the requests that reported success. */
  lemma {:induction false} CommitsEqualSuccesses(cfg: Config, chain: Chain, s: Sys, events: seq<Event>, digest: string)
    requires Initial(cfg, s) && Legal(cfg, chain, s, events)
    ensures var end := Exec(cfg, chain, s, events);
            |Winners(end, digest)| == end.recorded[digest]
  {
    assert Winners(s, digest) == {};
    RunRecordsSuccesses(cfg, chain, s, events, digest);
  }

  // ---- Leases and their takers ----

  function TokenOf(p: Phase): string
    requires HasLeaseToken(p)
  {
    match p
    case Forwarding(token, _) => token
    case Committing(token, _, _, _) => token
    case Releasing(token, _, _) => token
  }

  function LeasedAtOf(p: Phase): nat
    requires HasLeaseToken(p)
  {
    match p
    case Forwarding(_, leasedAt) => leasedAt
    case Committing(_, leasedAt, _, _) => leasedAt
    case Releasing(_, leasedAt, _) => leasedAt
  }

  /** Tokens on requests were handed out, each to one request. */
  predicate TokensDistinct(s: Sys) {
    && (forall id | id in s.requests && HasLeaseToken(s.requests[id].phase) :: TokenOf(s.requests[id].phase) in s.tokens)
    && (forall a, b | a in s.requests && b in s.requests
          && HasLeaseToken(s.requests[a].phase) && HasLeaseToken(s.requests[b].phase)
          && TokenOf(s.requests[a].phase) == TokenOf(s.requests[b].phase) :: a == b)
  }

  /** A lease in the store with `r`'s token is the one `r` took. */
  predicate OwnLease(cfg: Config, h: Ledger, r: Request) {
    HasLeaseToken(r.phase) ==>
      forall d | d in h && IsLease(h, d) && h[d].token == TokenOf(r.phase) ::
        d == r.digest && h[d] == LeasedBy(TokenOf(r.phase), LeasedAtOf(r.phase) + cfg.leaseTtlSecs * 1000)
  }

  predicate LeasesKnown(s: Sys) {
    forall d | d in s.Holds() && IsLease(s.Holds(), d) :: s.Holds()[d].token in s.tokens
  }

  predicate CustodyInv(cfg: Config, s: Sys) {
    && Sane(cfg, s)
    && TokensDistinct(s)
    && LeasesKnown(s)
    && (forall id | id in s.requests :: OwnLease(cfg, s.Holds(), s.requests[id]))
  }

  lemma {:induction false} LeaseAfterStep(cfg: Config, chain: Chain, s: Sys, e: Event, d: string)
    requires Sane(cfg, s) && Enabled(cfg, chain, s, e)
    requires IsLease(LedgerAfter(cfg, chain, s, e), d)
    ensures || (IsLease(s.Holds(), d) && LedgerAfter(cfg, chain, s, e)[d] == s.Holds()[d])
            || (e.TakeLease? && d == s.requests[e.id].digest && d !in s.Holds()
                && LedgerAfter(cfg, chain, s, e)[d] == LeasedBy(e.token, s.now + cfg.leaseTtlSecs * 1000))
  {
  }

  lemma {:induction false} TokenAfterStep(cfg: Config, chain: Chain, s: Sys, e: Event, id: nat)
    requires Enabled(cfg, chain, s, e)
    requires id in Step(cfg, chain, s, e).requests && HasLeaseToken(Step(cfg, chain, s, e).requests[id].phase)
    ensures var p := Step(cfg, chain, s, e).requests[id].phase;
            && id in s.requests && s.requests[id].digest == Step(cfg, chain, s, e).requests[id].digest
            && (|| (HasLeaseToken(s.requests[id].phase) && TokenOf(s.requests[id].phase) == TokenOf(p)
                    && LeasedAtOf(s.requests[id].phase) == LeasedAtOf(p))
                || (e.TakeLease? && e.id == id && TokenOf(p) == e.token && LeasedAtOf(p) == s.now))
  {
  }

  lemma {:induction false} StepKeepsCustody(cfg: Config, chain: Chain, s: Sys, e: Event)
    requires CustodyInv(cfg, s) && Enabled(cfg, chain, s, e)
    ensures CustodyInv(cfg, Step(cfg, chain, s, e))
  {
    var next := Step(cfg, chain, s, e);
    StepRefines(cfg, chain, s, e);
    forall id | id in next.requests && HasLeaseToken(next.requests[id].phase)
      ensures TokenOf(next.requests[id].phase) in next.tokens
    {
      TokenAfterStep(cfg, chain, s, e, id);
    }
    forall a, b | a in next.requests && b in next.requests
      && HasLeaseToken(next.requests[a].phase) && HasLeaseToken(next.requests[b].phase)
      && TokenOf(next.requests[a].phase) == TokenOf(next.requests[b].phase)
      ensures a == b
    {
      TokenAfterStep(cfg, chain, s, e, a);
      TokenAfterStep(cfg, chain, s, e, b);
    }
    forall d | IsLease(next.Holds(), d)
      ensures next.Holds()[d].token in next.tokens
    {
      LeaseAfterStep(cfg, chain, s, e, d);
    }
    forall id | id in next.requests
      ensures OwnLease(cfg, next.Holds(), next.requests[id])
    {
      var r := next.requests[id];
      if HasLeaseToken(r.phase) {
        TokenAfterStep(cfg, chain, s, e, id);
        forall d | IsLease(next.Holds(), d) && next.Holds()[d].token == TokenOf(r.phase)
          ensures d == r.digest
          ensures next.Holds()[d] == LeasedBy(TokenOf(r.phase), LeasedAtOf(r.phase) + cfg.leaseTtlSecs * 1000)
        {
          LeaseAfterStep(cfg, chain, s, e, d);
          assert OwnLease(cfg, s.Holds(), s.requests[id]);
        }
      }
    }
  }

  lemma {:induction false} RunKeepsCustody(cfg: Config, chain: Chain, s: Sys, events: seq<Event>)
    requires CustodyInv(cfg, s) && Legal(cfg, chain, s, events)
    ensures CustodyInv(cfg, Exec(cfg, chain, s, events))
    decreases |events|
  {
    if events != [] {
      StepKeepsCustody(cfg, chain, s, events[0]);
      RunKeepsCustody(cfg, chain, Step(cfg, chain, s, events[0]), events[1..]);
    }
  }

  lemma {:induction false} EndsOwned(cfg: Config, chain: Chain, s: Sys, e: Event)
    requires Sane(cfg, s) && Enabled(cfg, chain, s, e) && (e.TryCommit? || e.TryRelease?)
    ensures var (h, h', r) := (s.Holds(), LedgerAfter(cfg, chain, s, e), s.requests[e.id]);
            && h' - {r.digest} == h - {r.digest}
            && (h' != h ==> IsLease(h, r.digest) && h[r.digest].token == TokenOf(r.phase))
  {
  }

  lemma {:induction false} EndsOwnLeaseOnly(cfg: Config, chain: Chain, s: Sys, e: Event)
    requires CustodyInv(cfg, s) && Enabled(cfg, chain, s, e) && (e.TryCommit? || e.TryRelease?)
    ensures var (h, h', r) := (s.Holds(), Step(cfg, chain, s, e).Holds(), s.requests[e.id]);
            && h' - {r.digest} == h - {r.digest}
            && (h' != h ==>
                  IsLease(h, r.digest)
                  && h[r.digest] == LeasedBy(TokenOf(r.phase), LeasedAtOf(r.phase) + cfg.leaseTtlSecs * 1000))
  {
    StepRefines(cfg, chain, s, e);
    EndsOwned(cfg, chain, s, e);
    assert OwnLease(cfg, s.Holds(), s.requests[e.id]);
  }

  /**
   In every reachable state a commit or release leaves all other digests alone, and changes its own digest only
   by ending the very lease this request took, whose token nobody else has.
   */
  lemma {:induction false} EndsOnlyItsOwnLease(cfg: Config, chain: Chain, s0: Sys, events: seq<Event>, e: Event)
    requires Initial(cfg, s0) && Legal(cfg, chain, s0, events)
    requires Enabled(cfg, chain, Exec(cfg, chain, s0, events), e) && (e.TryCommit? || e.TryRelease?)
    ensures var s := Exec(cfg, chain, s0, events);
            var (h, h', r) := (s.Holds(), Step(cfg, chain, s, e).Holds(), s.requests[e.id]);
            && h' - {r.digest} == h - {r.digest}
            && (h' != h ==>
                  IsLease(h, r.digest)
                  && h[r.digest] == LeasedBy(TokenOf(r.phase), LeasedAtOf(r.phase) + cfg.leaseTtlSecs * 1000))
            && (forall id | id in s.requests && id != e.id && HasLeaseToken(s.requests[id].phase) ::
                  TokenOf(s.requests[id].phase) != TokenOf(r.phase))
  {
    RunKeepsCustody(cfg, chain, s0, events);
    EndsOwnLeaseOnly(cfg, chain, Exec(cfg, chain, s0, events), e);
  }

  /** The upload failed: an answer that is not a 2xx, a throw, or a commit call that came back as an error. */
  predicate IsFailure(s: Sys, e: Event) {
    match e
    case Answer(id, outcome) => outcome.Status? ==> !(200 <= outcome.code < 300)
    case Fault(id) => id in s.requests && s.requests[id].phase.Committing?
    case _ => false
  }

  /** A failed upload goes on to release its lease, and reports no success. */
  lemma {:induction false} FailureReleases(cfg: Config, chain: Chain, s: Sys, e: Event)
    requires Sane(cfg, s) && Enabled(cfg, chain, s, e) && IsFailure(s, e)
    ensures var (t, p) := (Step(cfg, chain, s, e), s.requests[e.id].phase);
            && t.Holds() == s.Holds() && t.now == s.now && Sane(cfg, t)
            && t.requests[e.id].digest == s.requests[e.id].digest
            && t.requests[e.id].phase.Releasing? && t.requests[e.id].phase.token == TokenOf(p)
            && !t.requests[e.id].phase.reply.IsSuccess()
            && Enabled(cfg, chain, t, TryRelease(e.id, true))
  {
    StepRefines(cfg, chain, s, e);
  }

  /** A holder's release that reaches the store ends the request and frees the digest. */
  lemma {:induction false} ReleaseFrees(cfg: Config, chain: Chain, t: Sys, id: nat)
    requires Sane(cfg, t) && Enabled(cfg, chain, t, TryRelease(id, true))
    requires Owns(t.Holds(), t.requests[id].digest, TokenOf(t.requests[id].phase))
    ensures var u := Step(cfg, chain, t, TryRelease(id, true));
            && Sane(cfg, u) && t.requests[id].digest !in u.Holds()
            && u.requests == t.requests[id := Request(t.requests[id].digest, Done(t.requests[id].phase.reply, t.now))]
  {
    StepRefines(cfg, chain, t, TryRelease(id, true));
  }

  /** Some choice of what to drop always makes room. */
  lemma {:induction false} RoomCanBeMade(cfg: Config, store: Store, key: string, now: nat)
    ensures exists victim :: store.CanEvict(cfg, key, now, victim)
  {
    if store.Table? {
      var live := Redemption.Retain(store.rows, now);
      var leases := Redemption.LeaseDeadlines(live);
      assert leases.Keys == Redemption.LeaseKeys(live);
      if key !in live && Max(cfg.maxEntries, 1) <= |live| && leases.Keys != {} {
        SoonestExists(leases);
        var k :| IsSoonest(leases, k);
        assert store.CanEvict(cfg, key, now, Some(k));
      } else {
        assert store.CanEvict(cfg, key, now, None);
      }
    } else {
      assert store.CanEvict(cfg, key, now, None);
    }
  }

  /** A request that asks for a free digest gets its lease. */
  lemma {:induction false} FreeDigestIsLeased(cfg: Config, chain: Chain, u: Sys, other: nat, token: string, victim: Option<string>)
    requires Sane(cfg, u) && Enabled(cfg, chain, u, TakeLease(other, token, victim)) && u.requests[other].digest !in u.Holds()
    ensures Step(cfg, chain, u, TakeLease(other, token, victim)).requests[other].phase == Forwarding(token, u.now)
  {
  }

  /** The digest can be leased at once: a verified request gets it, whatever has to be dropped for room. */
  predicate LeasableBy(cfg: Config, chain: Chain, u: Sys, other: nat, token: string, victim: Option<string>) {
    && Enabled(cfg, chain, u, TakeLease(other, token, victim))
    && Step(cfg, chain, u, TakeLease(other, token, victim)).requests[other].phase == Forwarding(token, u.now)
  }

  /**
   When the current holder's upload fails, its release can be sent at once; once that reaches the store the holder is
   done with a reply that is no success, the digest is free, and any other request verified for it gets the lease.
   */
  lemma {:induction false} ReleaseFreesTheDigest(cfg: Config, chain: Chain, s: Sys, e: Event, other: nat, token: string)
    requires Sane(cfg, s) && Enabled(cfg, chain, s, e) && IsFailure(s, e)
    requires Owns(s.Holds(), s.requests[e.id].digest, TokenOf(s.requests[e.id].phase))
    requires other in s.requests && other != e.id && s.requests[other].digest == s.requests[e.id].digest
    requires s.requests[other].phase.Verified? && s.now <= s.requests[other].phase.at + chain.leaseDelayMs
    requires token !in s.tokens
    ensures var t := Step(cfg, chain, s, e);
            && Enabled(cfg, chain, t, TryRelease(e.id, true))
            && var u := Step(cfg, chain, t, TryRelease(e.id, true));
               && u.requests[e.id].phase.Done? && !u.requests[e.id].phase.reply.IsSuccess()
               && s.requests[e.id].digest !in u.Holds()
               && exists victim :: LeasableBy(cfg, chain, u, other, token, victim)
  {
    FailureReleases(cfg, chain, s, e);
    var t := Step(cfg, chain, s, e);
    ReleaseFrees(cfg, chain, t, e.id);
    var u := Step(cfg, chain, t, TryRelease(e.id, true));
    RoomCanBeMade(cfg, u.store, u.requests[other].digest, u.now);
    var victim :| u.store.CanEvict(cfg, u.requests[other].digest, u.now, victim);
    FreeDigestIsLeased(cfg, chain, u, other, token, victim);
    assert LeasableBy(cfg, chain, u, other, token, victim);
  }
}
