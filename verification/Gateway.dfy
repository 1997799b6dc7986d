/**
 The redemption flow as a system: any number of requests, each a step machine with one store call or one
 upstream call per step, interleaved in any order over one store, while the clock runs, leases lapse, store
 calls fail and requests die.
 */
module Gateway {
  import opened Words
  import opened Holds
  import opened Recency
  import Redemption
  import Redis

  // ---- Configuration ----

  datatype Config = Config(
    upstreamTimeoutSecs: nat,
    bodyReadTimeoutSecs: nat,
    leaseTtlSecs: nat,
    retentionSecs: nat,
    consumeMaxAgeSecs: nat,
    maxEntries: nat)
  {
    /** The ranges startup enforces on each value alone. */
    predicate InRanges() {
      && 1 <= upstreamTimeoutSecs <= 3600
      && 1 <= bodyReadTimeoutSecs <= 3600
      && 30 <= leaseTtlSecs <= 86_400
      && 3600 <= retentionSecs <= 31_536_000
      && 60 <= consumeMaxAgeSecs <= 31_536_000
      && 1 <= maxEntries <= 100_000_000
    }

    /** The lease outlives the body read and the upstream call together. */
    predicate LeaseOutlivesRequest() {
      upstreamTimeoutSecs + bodyReadTimeoutSecs < leaseTtlSecs
    }

    /** What startup accepts: the ranges and the two inequalities. */
    predicate Accepted() {
      && InRanges()
      && LeaseOutlivesRequest()
      && consumeMaxAgeSecs <= retentionSecs
    }

    /** The clock leaves room for the longest deadline in every store's word. */
    predicate InRange(now: nat) {
      now + (leaseTtlSecs + retentionSecs) * 1000 <= I64_MAX
    }
  }

  /** When each consume event happened, and the longest time from verifying it to asking for the lease. */
  datatype Chain = Chain(eventMs: map<string, nat>, leaseDelayMs: nat)

  // ---- The store ----

  /** `Table` is the hash map, or the SQL rows read as rows of it; `top` is the word its clock saturates at. */
  datatype Store =
    | Table(rows: Redemption.Rows, top: nat)
    | RedisKeys(keys: Redis.Keys)
  {
    predicate WellFormed() {
      match this
      case Table(_, top) => I64_MAX <= top
      case RedisKeys(keys) => Redis.WellFormed(keys)
    }

    function View(now: nat): Ledger {
      match this
      case Table(rows, _) => Redemption.View(rows, now)
      case RedisKeys(keys) => Redis.View(keys, now)
    }

    predicate CanEvict(cfg: Config, key: string, now: nat, victim: Option<string>) {
      match this
      case Table(rows, _) =>
        var live := Redemption.Retain(rows, now);
        if key in live then victim == None else Redemption.IsVictim(live, cfg.maxEntries, victim)
      case RedisKeys(_) => victim == None
    }

    function Leased(cfg: Config, key: string, now: nat, token: string, victim: Option<string>): Store {
      match this
      case Table(rows, top) =>
        Table(Redemption.TryLeaseRows(rows, key, now, ExpiryMs(now, cfg.leaseTtlSecs, top), token, victim), top)
      case RedisKeys(keys) =>
        RedisKeys(Redis.SetNxKeys(keys, key, now, token, now + Min(cfg.leaseTtlSecs * 1000, U64_MAX)))
    }

    function Committed(cfg: Config, key: string, now: nat, token: string): Store {
      match this
      case Table(rows, top) =>
        Table(Redemption.CommitRows(rows, key, token, now, ExpiryMs(now, cfg.retentionSecs, top)), top)
      case RedisKeys(keys) =>
        RedisKeys(Redis.CommitKeys(keys, key, token, now, now + Min(cfg.retentionSecs * 1000, U64_MAX)))
    }

    function CommitReply(key: string, now: nat, token: string): Commit {
      match this
      case Table(rows, _) =>
        if Redemption.HoldsLease(rows, key, token) && now < rows[key].expiryMs then CommitOk else Lost
      case RedisKeys(keys) =>
        if Redis.Get(keys, key, now) == Some(Redis.LeaseValue(token)) then CommitOk else Lost
    }

    function Released(key: string, now: nat, token: string): Store {
      match this
      case Table(rows, top) => Table(Redemption.ReleaseRows(rows, key, token), top)
      case RedisKeys(keys) => RedisKeys(Redis.ReleaseKeys(keys, key, token, now))
    }
  }

  // ---- One request ----

  datatype Reply =
    | Upstream(status: nat)
    | Conflict(code: string)
    | Denied
    | Unavailable
    | BadGateway
    | Raised
  {
    /** The caller saw the upload succeed. */
    predicate IsSuccess() {
      Upstream? && 200 <= status < 300
    }
  }

  /** What the upstream call ends with; only the TypeScript flow can see it throw. */
  datatype Outcome = Status(code: nat) | Threw

  datatype Phase =
    | Arrived
    | Verified(at: nat)
    | Probing                                       // Redis only: the SET found the key taken
    | Forwarding(token: string, leasedAt: nat)
    | Committing(token: string, leasedAt: nat, answeredAt: nat, status: nat)
    | Releasing(token: string, leasedAt: nat, reply: Reply)
    | Done(reply: Reply, doneAt: nat)
    | Died

  datatype Request = Request(digest: string, phase: Phase)

  predicate HasLeaseToken(p: Phase) {
    p.Forwarding? || p.Committing? || p.Releasing?
  }

  function AfterLeaseReply(lease: Lease, now: nat): Phase {
    match lease
    case LeaseOk(token) => Forwarding(token, now)
    case Leased => Done(Conflict("leased"), now)
    case Redeemed => Done(Conflict("redeemed"), now)
  }

  function AfterForward(token: string, leasedAt: nat, outcome: Outcome, now: nat): Phase {
    match outcome
    case Status(code) =>
      if 200 <= code < 300 then Committing(token, leasedAt, now, code) else Releasing(token, leasedAt, Upstream(code))
    case Threw => Releasing(token, leasedAt, Raised)
  }

  function AfterCommitReply(answer: Commit, status: nat, now: nat): Phase {
    match answer
    case CommitOk => Done(Upstream(status), now)
    case Lost => Done(BadGateway, now)
  }

  /** An awaited store call came back as an error; it had no effect. */
  function AfterFault(p: Phase, now: nat): Phase
    requires p.Verified? || p.Probing? || p.Committing?
  {
    match p
    case Committing(token, leasedAt, _, _) => Releasing(token, leasedAt, BadGateway)
    case Verified(_) => Done(Unavailable, now)
    case Probing => Done(Unavailable, now)
  }

  // ---- The system ----

  datatype Sys = Sys(
    now: nat,
    store: Store,
    requests: map<nat, Request>,
    tokens: set<string>,              // every owner token handed out so far
    recorded: multiset<string>)       // one entry per commit the store answered Ok
  {
    function Holds(): Ledger {
      store.View(now)
    }
  }

  datatype Event =
    | Tick(to: nat)
    | Arrive(id: nat, digest: string)
    | Verify(id: nat)
    | Refuse(id: nat)
    | TakeLease(id: nat, token: string, victim: Option<string>)
    | Probe(id: nat)
    | Answer(id: nat, outcome: Outcome)
    | TryCommit(id: nat)
    | TryRelease(id: nat, reached: bool)  // a release that does not reach the store is only logged
    | Fault(id: nat)
    | Die(id: nat)

  predicate Enabled(cfg: Config, chain: Chain, s: Sys, e: Event) {
    match e
    case Tick(to) => s.now <= to && cfg.InRange(to)
    case Arrive(id, _) => id !in s.requests
    case Verify(id) => id in s.requests && s.requests[id].phase.Arrived?
    case Refuse(id) => id in s.requests && s.requests[id].phase.Arrived?
    case TakeLease(id, token, victim) =>
      && id in s.requests
      && s.requests[id].phase.Verified?
      && s.now <= s.requests[id].phase.at + chain.leaseDelayMs
      && token !in s.tokens
      && s.store.CanEvict(cfg, s.requests[id].digest, s.now, victim)
    case Probe(id) => id in s.requests && s.requests[id].phase.Probing? && s.store.RedisKeys?
    case Answer(id, _) => id in s.requests && s.requests[id].phase.Forwarding?
    case TryCommit(id) => id in s.requests && s.requests[id].phase.Committing?
    case TryRelease(id, _) => id in s.requests && s.requests[id].phase.Releasing?
    case Fault(id) =>
      id in s.requests && (s.requests[id].phase.Verified? || s.requests[id].phase.Probing? || s.requests[id].phase.Committing?)
    case Die(id) => id in s.requests && !s.requests[id].phase.Done?
  }

  /** The phase the acting request moves to. */
  function PhaseAfter(cfg: Config, chain: Chain, s: Sys, e: Event): Phase
    requires Enabled(cfg, chain, s, e) && !e.Tick?
  {
    if e.Arrive? then Arrived
    else
      var Request(d, p) := s.requests[e.id];
      match e
      case Verify(_) =>
        if d in chain.eventMs && IsRecent(chain.eventMs[d], s.now, cfg.consumeMaxAgeSecs) then Verified(s.now)
        else Done(Denied, s.now)
      case Refuse(_) => Done(Denied, s.now)
      case TakeLease(_, token, _) =>
        var lease := LeaseAnswer(s.Holds(), d, token);
        if s.store.RedisKeys? && !lease.LeaseOk? then Probing else AfterLeaseReply(lease, s.now)
      case Probe(_) => AfterLeaseReply(Redis.ReadAnswer(Redis.Get(s.store.keys, d, s.now)), s.now)
      case Answer(_, outcome) => AfterForward(p.token, p.leasedAt, outcome, s.now)
      case TryCommit(_) => AfterCommitReply(s.store.CommitReply(d, s.now, p.token), p.status, s.now)
      case TryRelease(_, _) => Done(p.reply, s.now)
      case Fault(_) => AfterFault(p, s.now)
      case Die(_) => Died
  }

  function StoreAfter(cfg: Config, chain: Chain, s: Sys, e: Event): Store
    requires Enabled(cfg, chain, s, e)
  {
    match e
    case TakeLease(id, token, victim) => s.store.Leased(cfg, s.requests[id].digest, s.now, token, victim)
    case TryCommit(id) => s.store.Committed(cfg, s.requests[id].digest, s.now, s.requests[id].phase.token)
    case TryRelease(id, reached) =>
      if reached then s.store.Released(s.requests[id].digest, s.now, s.requests[id].phase.token) else s.store
    case _ => s.store
  }

  predicate Records(s: Sys, e: Event) {
    && e.TryCommit?
    && e.id in s.requests && s.requests[e.id].phase.Committing?
    && s.store.CommitReply(s.requests[e.id].digest, s.now, s.requests[e.id].phase.token).CommitOk?
  }

  function Step(cfg: Config, chain: Chain, s: Sys, e: Event): Sys
    requires Enabled(cfg, chain, s, e)
  {
    if e.Tick? then s.(now := e.to)
    else
      var digest := if e.Arrive? then e.digest else s.requests[e.id].digest;
      Sys(s.now,
          StoreAfter(cfg, chain, s, e),
          s.requests[e.id := Request(digest, PhaseAfter(cfg, chain, s, e))],
          if e.TakeLease? then s.tokens + {e.token} else s.tokens,
          if Records(s, e) then s.recorded + multiset{digest} else s.recorded)
  }

  predicate Legal(cfg: Config, chain: Chain, s: Sys, events: seq<Event>)
    decreases |events|
  {
    events == [] || (Enabled(cfg, chain, s, events[0]) && Legal(cfg, chain, Step(cfg, chain, s, events[0]), events[1..]))
  }

  function Exec(cfg: Config, chain: Chain, s: Sys, events: seq<Event>): Sys
    requires Legal(cfg, chain, s, events)
    decreases |events|
  {
    if events == [] then s else Exec(cfg, chain, Step(cfg, chain, s, events[0]), events[1..])
  }

  predicate IsEmpty(store: Store) {
    match store
    case Table(rows, top) => rows == map[] && I64_MAX <= top
    case RedisKeys(keys) => keys == map[]
  }

  /** No request yet, an empty store. */
  predicate Initial(cfg: Config, s: Sys) {
    && IsEmpty(s.store)
    && s.requests == map[] && s.tokens == {} && s.recorded == multiset{}
    && cfg.InRange(s.now)
  }

  // ---- The store as the specification sees it ----

  predicate Sane(cfg: Config, s: Sys) {
    s.store.WellFormed() && cfg.InRange(s.now)
  }

  /** What one event does to the holds, in terms of the specification alone. */
  function LedgerAfter(cfg: Config, chain: Chain, s: Sys, e: Event): Ledger
    requires Enabled(cfg, chain, s, e)
  {
    var h := s.Holds();
    match e
    case Tick(to) => Live(h, to)
    case TakeLease(id, token, victim) =>
      AfterLease(h, s.requests[id].digest, s.now, LeasedBy(token, s.now + cfg.leaseTtlSecs * 1000), victim)
    case TryCommit(id) =>
      AfterCommit(h, s.requests[id].digest, s.requests[id].phase.token, s.now, s.now + cfg.retentionSecs * 1000)
    case TryRelease(id, reached) =>
      if reached then AfterRelease(h, s.requests[id].digest, s.requests[id].phase.token) else h
    case _ => h
  }

  lemma {:induction false} TableLeasedRefines(cfg: Config, store: Store, key: string, now: nat, token: string, victim: Option<string>)
    requires store.Table? && store.WellFormed() && cfg.InRange(now)
    ensures store.Leased(cfg, key, now, token, victim).WellFormed()
    ensures store.Leased(cfg, key, now, token, victim).View(now)
            == AfterLease(store.View(now), key, now, LeasedBy(token, now + cfg.leaseTtlSecs * 1000), victim)
  {
    var expiryMs := ExpiryMs(now, cfg.leaseTtlSecs, store.top);
    ExpiryInRange(now, cfg.leaseTtlSecs, store.top);
    Redemption.LeaseRefines(store.rows, key, now, expiryMs, token, victim);
  }

  lemma {:induction false} RedisLeasedRefines(cfg: Config, store: Store, key: string, now: nat, token: string)
    requires store.RedisKeys? && store.WellFormed() && cfg.InRange(now)
    ensures store.Leased(cfg, key, now, token, None).WellFormed()
    ensures store.Leased(cfg, key, now, token, None).View(now)
            == AfterLease(store.View(now), key, now, LeasedBy(token, now + cfg.leaseTtlSecs * 1000), None)
  {
    Redis.SetNxRefines(store.keys, key, now, token, now + cfg.leaseTtlSecs * 1000);
  }

  lemma {:induction false} LeasedRefines(cfg: Config, store: Store, key: string, now: nat, token: string, victim: Option<string>)
    requires store.WellFormed() && cfg.InRange(now) && (store.RedisKeys? ==> victim == None)
    ensures store.Leased(cfg, key, now, token, victim).WellFormed()
    ensures store.Leased(cfg, key, now, token, victim).View(now)
            == AfterLease(store.View(now), key, now, LeasedBy(token, now + cfg.leaseTtlSecs * 1000), victim)
  {
    if store.Table? {
      TableLeasedRefines(cfg, store, key, now, token, victim);
    } else {
      RedisLeasedRefines(cfg, store, key, now, token);
    }
  }

  /** A store forgets at most a lease, and a table with room forgets nothing. */
  lemma {:induction false} EvictsLeasesOnly(cfg: Config, store: Store, key: string, now: nat, victim: Option<string>)
    requires store.CanEvict(cfg, key, now, victim)
    ensures Droppable(store.View(now), victim)
    ensures |store.View(now)| < Max(cfg.maxEntries, 1) ==> victim == None
  {
    if store.Table? && key !in Redemption.Retain(store.rows, now) {
      Redemption.VictimIsLease(store.rows, now, cfg.maxEntries, victim);
    }
  }

  lemma {:induction false} TableCommittedRefines(cfg: Config, store: Store, key: string, now: nat, token: string)
    requires store.Table? && store.WellFormed() && cfg.InRange(now)
    ensures store.Committed(cfg, key, now, token).View(now)
            == AfterCommit(store.View(now), key, token, now, now + cfg.retentionSecs * 1000)
    ensures store.CommitReply(key, now, token) == CommitAnswer(store.View(now), key, token)
  {
    ExpiryInRange(now, cfg.retentionSecs, store.top);
    Redemption.CommitRefines(store.rows, key, token, now, ExpiryMs(now, cfg.retentionSecs, store.top));
  }

  lemma {:induction false} CommittedRefines(cfg: Config, store: Store, key: string, now: nat, token: string)
    requires store.WellFormed() && cfg.InRange(now)
    ensures store.Committed(cfg, key, now, token).WellFormed()
    ensures store.Committed(cfg, key, now, token).View(now)
            == AfterCommit(store.View(now), key, token, now, now + cfg.retentionSecs * 1000)
    ensures store.CommitReply(key, now, token) == CommitAnswer(store.View(now), key, token)
  {
    if store.Table? {
      TableCommittedRefines(cfg, store, key, now, token);
    } else {
      Redis.CommitRefines(store.keys, key, token, now, now + cfg.retentionSecs * 1000);
    }
  }

  lemma {:induction false} ReleasedRefines(store: Store, key: string, now: nat, token: string)
    requires store.WellFormed()
    ensures store.Released(key, now, token).WellFormed()
    ensures store.Released(key, now, token).View(now) == AfterRelease(store.View(now), key, token)
  {
    match store
    case Table(rows, _) => Redemption.ReleaseRefines(rows, key, token, now);
    case RedisKeys(keys) => Redis.ReleaseRefines(keys, key, token, now);
  }

  lemma {:induction false} TickRefines(store: Store, now: nat, later: nat)
    requires now <= later
    ensures store.View(later) == Live(store.View(now), later)
  {
    match store
    case Table(rows, _) => Redemption.ViewTick(rows, now, later);
    case RedisKeys(keys) => Redis.ViewTick(keys, now, later);
  }

  lemma {:induction false} StoreAfterRefines(cfg: Config, chain: Chain, s: Sys, e: Event)
    requires Sane(cfg, s) && Enabled(cfg, chain, s, e) && !e.Tick?
    ensures StoreAfter(cfg, chain, s, e).WellFormed()
    ensures StoreAfter(cfg, chain, s, e).View(s.now) == LedgerAfter(cfg, chain, s, e)
  {
    match e
    case TakeLease(id, token, victim) => LeasedRefines(cfg, s.store, s.requests[id].digest, s.now, token, victim);
    case TryCommit(id) => CommittedRefines(cfg, s.store, s.requests[id].digest, s.now, s.requests[id].phase.token);
    case TryRelease(id, _) => ReleasedRefines(s.store, s.requests[id].digest, s.now, s.requests[id].phase.token);
    case _ =>
  }

  /** Over every store, each event moves the holds exactly as the specification says. */
  lemma {:induction false} StepRefines(cfg: Config, chain: Chain, s: Sys, e: Event)
    requires Sane(cfg, s) && Enabled(cfg, chain, s, e)
    ensures Sane(cfg, Step(cfg, chain, s, e))
    ensures Step(cfg, chain, s, e).Holds() == LedgerAfter(cfg, chain, s, e)
  {
    if e.Tick? {
      TickRefines(s.store, s.now, e.to);
    } else {
      StoreAfterRefines(cfg, chain, s, e);
    }
  }

  /** Holds only ever contain deadlines that are still to come. */
  lemma {:induction false} HoldsAreLive(s: Sys)
    ensures forall k | k in s.Holds() :: s.now < s.Holds()[k].expiryMs
  {
  }
}
