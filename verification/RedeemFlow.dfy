/**
 The redemption flow as the one method it is in the code, and as its request's own steps in a run of the system:
 between any two of them every other request may have changed the table.
 */
module RedeemFlow {
  import opened Words
  import opened Holds
  import opened Gateway
  import Redemption

  /** Which store calls come back as errors. */
  datatype Faults = Faults(lease: bool, commit: bool, release: bool)

  /** What the outside decides for one request. */
  datatype Script = Script(token: string, victim: Option<string>, outcome: Outcome, faults: Faults)

  /** The clock and the table as a request finds them at one of its steps. */
  datatype Moment = Moment(now: u64, rows: Redemption.Rows)

  predicate InFlow(p: Phase) {
    p.Verified? || p.Forwarding? || p.Committing? || p.Releasing?
  }

  /** The request's next step. */
  function NextEvent(id: nat, p: Phase, script: Script): Event
    requires InFlow(p)
  {
    match p
    case Verified(_) => if script.faults.lease then Fault(id) else TakeLease(id, script.token, script.victim)
    case Forwarding(_, _) => Answer(id, script.outcome)
    case Committing(_, _, _, _) => if script.faults.commit then Fault(id) else TryCommit(id)
    case Releasing(_, _, _) => TryRelease(id, !script.faults.release)
  }

  /** The system as far as one step of one request can tell. */
  function Alone(m: Moment, id: nat, key: string, p: Phase): Sys {
    Sys(m.now, Table(m.rows, U64_MAX), map[id := Request(key, p)], {}, multiset{})
  }

  /** Where a request is, and what its last step left in the store. */
  datatype Position = Position(phase: Phase, store: Store)

  /** The system's steps of one request, one at each moment, until it is done. */
  function Play(cfg: Config, chain: Chain, id: nat, key: string, at: Position, script: Script, moments: seq<Moment>): Position
    decreases |moments|
  {
    if moments == [] || !InFlow(at.phase) then at
    else
      var (s, e) := (Alone(moments[0], id, key, at.phase), NextEvent(id, at.phase, script));
      if !Enabled(cfg, chain, s, e) then at
      else
        var t := Step(cfg, chain, s, e);
        Play(cfg, chain, id, key, Position(t.requests[id].phase, t.store), script, moments[1..])
  }

  /** One more moment played. */
  lemma {:induction false} PlayStep(cfg: Config, chain: Chain, id: nat, key: string, at: Position, script: Script,
                                    m: Moment, moments: seq<Moment>)
    requires InFlow(at.phase) && Enabled(cfg, chain, Alone(m, id, key, at.phase), NextEvent(id, at.phase, script))
    ensures var t := Step(cfg, chain, Alone(m, id, key, at.phase), NextEvent(id, at.phase, script));
            Play(cfg, chain, id, key, at, script, [m] + moments)
            == Play(cfg, chain, id, key, Position(t.requests[id].phase, t.store), script, moments)
  {
    assert ([m] + moments)[1..] == moments;
  }

  /** The lease as the table grants it is the system's step. */
  lemma {:induction false} LeaseStep(cfg: Config, chain: Chain, id: nat, key: string, script: Script, m: Moment)
    requires !script.faults.lease && CanDrop(cfg, m, key, script.victim)
    ensures var (s, e) := (Alone(m, id, key, Verified(m.now)), TakeLease(id, script.token, script.victim));
            && Enabled(cfg, chain, s, e)
            && var t := Step(cfg, chain, s, e);
               && t.requests[id].phase == AfterLeaseReply(Redemption.TryLeaseAnswer(m.rows, key, m.now, script.token), m.now)
               && t.store == Table(Redemption.TryLeaseRows(m.rows, key, m.now, ExpiryMs(m.now, cfg.leaseTtlSecs, U64_MAX),
                                                           script.token, script.victim), U64_MAX)
  {
    Redemption.LeaseRefines(m.rows, key, m.now, m.now + 1, script.token, script.victim);
  }

  /** An accepted or lost commit is the system's step. */
  lemma {:induction false} CommitStep(cfg: Config, chain: Chain, id: nat, key: string, p: Phase, m: Moment)
    requires p.Committing?
    ensures var (s, e) := (Alone(m, id, key, p), TryCommit(id));
            && Enabled(cfg, chain, s, e)
            && var t := Step(cfg, chain, s, e);
               && t.requests[id].phase == AfterCommitReply(CommitReplyOf(m, key, p.token), p.status, m.now)
               && t.store == Table(Redemption.CommitRows(m.rows, key, p.token, m.now,
                                                         ExpiryMs(m.now, cfg.retentionSecs, U64_MAX)), U64_MAX)
  {
  }

  function CommitReplyOf(m: Moment, key: string, token: string): Commit {
    if Redemption.HoldsLease(m.rows, key, token) && m.now < m.rows[key].expiryMs then CommitOk else Lost
  }

  /** A commit call that fails leaves the store alone and goes on to release. */
  lemma {:induction false} CommitFaultStep(cfg: Config, chain: Chain, id: nat, key: string, p: Phase, m: Moment)
    requires p.Committing?
    ensures var (s, e) := (Alone(m, id, key, p), Fault(id));
            && Enabled(cfg, chain, s, e)
            && var t := Step(cfg, chain, s, e);
               t.requests[id].phase == Releasing(p.token, p.leasedAt, BadGateway) && t.store == Table(m.rows, U64_MAX)
  {
  }

  predicate CanDrop(cfg: Config, m: Moment, key: string, victim: Option<string>) {
    var live := Redemption.Retain(m.rows, m.now);
    if key in live then victim == None else Redemption.IsVictim(live, cfg.maxEntries, victim)
  }

  /** The first moment played: where the answer to the lease leaves the request and the table. */
  lemma {:induction false} PlayLease(cfg: Config, chain: Chain, id: nat, key: string, script: Script, m: Moment, rest: seq<Moment>)
    requires !script.faults.lease ==> CanDrop(cfg, m, key, script.victim)
    ensures var start := Position(Verified(m.now), Table(m.rows, U64_MAX));
            Play(cfg, chain, id, key, start, script, [m] + rest)
            == Play(cfg, chain, id, key, Leased(cfg, key, script, m), script, rest)
  {
    var start := Position(Verified(m.now), Table(m.rows, U64_MAX));
    if !script.faults.lease {
      LeaseStep(cfg, chain, id, key, script, m);
    }
    PlayStep(cfg, chain, id, key, start, script, m, rest);
  }

  function Leased(cfg: Config, key: string, script: Script, m: Moment): Position {
    if script.faults.lease then Position(Done(Unavailable, m.now), Table(m.rows, U64_MAX))
    else
      Position(AfterLeaseReply(Redemption.TryLeaseAnswer(m.rows, key, m.now, script.token), m.now),
               Table(Redemption.TryLeaseRows(m.rows, key, m.now, ExpiryMs(m.now, cfg.leaseTtlSecs, U64_MAX),
                                             script.token, script.victim), U64_MAX))
  }

  /** The request ends at `end`, wherever its last steps found the clock. */
  predicate EndsWith(end: Position, reply: Reply, rows: Redemption.Rows) {
    end.phase.Done? && end.phase.reply == reply && end.store == Table(rows, U64_MAX)
  }

  /** The best-effort release, in the table as it is by then. */
  method ReleaseLease(
    ghost cfg: Config, ghost chain: Chain, ghost id: nat, table: Redemption.RedemptionTable, key: string, ghost at: Position,
    ghost script: Script, reached: bool, token: string, m: Moment, ghost rest: seq<Moment>)
    requires at.phase.Releasing? && at.phase.token == token && reached == !script.faults.release
    modifies table
    ensures EndsWith(Play(cfg, chain, id, key, at, script, [m] + rest), at.phase.reply, table.rows)
  {
    PlayStep(cfg, chain, id, key, at, script, m, rest);
    table.rows := m.rows;
    if reached {
      table.Release(key, token);
    }
  }

  /** After a 2xx: the commit, and the release when the commit call fails. */
  method CommitUpload(
    cfg: Config, ghost chain: Chain, ghost id: nat, table: Redemption.RedemptionTable, key: string, ghost at: Position,
    ghost script: Script, faults: Faults, token: string, status: nat, third: Moment, fourth: Moment) returns (reply: Reply)
    requires cfg.InRanges()
    requires at.phase.Committing? && at.phase.token == token && at.phase.status == status && faults == script.faults
    modifies table
    ensures EndsWith(Play(cfg, chain, id, key, at, script, [third, fourth]), reply, table.rows)
  {
    assert [third, fourth] == [third] + [fourth];
    CommitFaultStep(cfg, chain, id, key, at.phase, third);
    CommitStep(cfg, chain, id, key, at.phase, third);
    PlayStep(cfg, chain, id, key, at, script, third, [fourth]);
    if faults.commit {
      ghost var releasing := Position(Releasing(token, at.phase.leasedAt, BadGateway), Table(third.rows, U64_MAX));
      assert [fourth] == [fourth] + [];
      ReleaseLease(cfg, chain, id, table, key, releasing, script, !faults.release, token, fourth, []);
      return BadGateway;
    }
    table.rows := third.rows;
    var answer := table.CommitKey(key, token, third.now, cfg.retentionSecs);
    match answer {
      case CommitOk => return Upstream(status);
      case Lost => return BadGateway;
    }
  }

  /** From the lease on: forward, then commit a 2xx and release anything else. */
  method Forward(
    cfg: Config, ghost chain: Chain, ghost id: nat, table: Redemption.RedemptionTable, key: string, ghost at: Position,
    ghost script: Script, outcome: Outcome, faults: Faults, token: string, second: Moment, third: Moment, fourth: Moment)
    returns (reply: Reply)
    requires cfg.InRanges()
    requires at.phase.Forwarding? && at.phase.token == token && outcome == script.outcome && faults == script.faults
    modifies table
    ensures EndsWith(Play(cfg, chain, id, key, at, script, [second, third, fourth]), reply, table.rows)
  {
    assert [second, third, fourth] == [second] + [third, fourth] && [third, fourth] == [third] + [fourth];
    PlayStep(cfg, chain, id, key, at, script, second, [third, fourth]);
    ghost var answered :=
      Position(AfterForward(token, at.phase.leasedAt, outcome, second.now), Table(second.rows, U64_MAX));
    if outcome.Threw? {
      ReleaseLease(cfg, chain, id, table, key, answered, script, !faults.release, token, third, [fourth]);
      return Raised;
    }
    if !(200 <= outcome.code < 300) {
      ReleaseLease(cfg, chain, id, table, key, answered, script, !faults.release, token, third, [fourth]);
      return Upstream(outcome.code);
    }
    reply := CommitUpload(cfg, chain, id, table, key, answered, script, faults, token, outcome.code, third, fourth);
  }

  /**
   `first` is when the lease is asked for, `second` when the upstream has answered, `third` and `fourth` when the
   commit or a release reaches the store. The reply and the table are those of the system's steps at these moments.
   */
  method RedeemAndForward(
    cfg: Config, ghost chain: Chain, ghost id: nat, table: Redemption.RedemptionTable, key: string, token: string,
    outcome: Outcome, faults: Faults, first: u64, second: Moment, third: Moment, fourth: Moment)
    returns (reply: Reply, ghost victim: Option<string>)
    requires cfg.InRanges()
    modifies table
    ensures var moments := [Moment(first, old(table.rows)), second, third, fourth];
            var start := Position(Verified(first), Table(old(table.rows), U64_MAX));
            EndsWith(Play(cfg, chain, id, key, start, Script(token, victim, outcome, faults), moments), reply, table.rows)
  {
    victim := None;
    ghost var m := Moment(first, table.rows);
    ghost var rest := [second, third, fourth];
    assert [m, second, third, fourth] == [m] + rest;
    if faults.lease {
      PlayLease(cfg, chain, id, key, Script(token, victim, outcome, faults), m, rest);
      return Unavailable, victim;
    }
    var lease, evicted := table.TryLease(key, first, cfg.leaseTtlSecs, cfg.maxEntries, token);
    victim := if key in Redemption.Retain(m.rows, first) then None else evicted;
    ghost var script := Script(token, victim, outcome, faults);
    PlayLease(cfg, chain, id, key, script, m, rest);
    match lease {
      case Redeemed => reply := Conflict("redeemed");
      case Leased => reply := Conflict("leased");
      case LeaseOk(_) =>
        ghost var at := Leased(cfg, key, script, m);
        reply := Forward(cfg, chain, id, table, key, at, script, outcome, faults, token, second, third, fourth);
    }
  }

  // ---- What a reply of success means ----

  /** A 2xx is passed on exactly when the commit was accepted, and then the key is kept for the retention. */
  lemma {:induction false} SuccessIsRecorded(cfg: Config, chain: Chain, id: nat, key: string, p: Phase, m: Moment)
    requires p.Committing? && 200 <= p.status < 300
    ensures Enabled(cfg, chain, Alone(m, id, key, p), TryCommit(id))
    ensures var t := Step(cfg, chain, Alone(m, id, key, p), TryCommit(id));
            && t.store.Table?
            && (t.requests[id].phase == Done(Upstream(p.status), m.now) <==>
                  Redemption.HoldsLease(m.rows, key, p.token) && m.now < m.rows[key].expiryMs)
            && (t.requests[id].phase == Done(Upstream(p.status), m.now) ==>
                  key in t.store.rows
                  && t.store.rows[key] == Redemption.Row(true, ExpiryMs(m.now, cfg.retentionSecs, U64_MAX), ""))
  {
    CommitStep(cfg, chain, id, key, p, m);
  }

  /** After a failed commit whose release arrives the request holds no lease. */
  lemma {:induction false} FailedCommitHoldsNothing(cfg: Config, chain: Chain, id: nat, key: string, p: Phase, m: Moment, later: Moment)
    requires p.Committing?
    ensures Enabled(cfg, chain, Alone(m, id, key, p), Fault(id))
    ensures var q := Step(cfg, chain, Alone(m, id, key, p), Fault(id)).requests[id].phase;
            && Enabled(cfg, chain, Alone(later, id, key, q), TryRelease(id, true))
            && var t := Step(cfg, chain, Alone(later, id, key, q), TryRelease(id, true));
               && t.store.Table? && !Redemption.HoldsLease(t.store.rows, key, p.token)
               && t.requests[id].phase == Done(BadGateway, later.now)
  {
    CommitFaultStep(cfg, chain, id, key, p, m);
  }

  /**
   Any 2xx while the lease is held: the flow goes on to its commit, passes the upstream's own status on and leaves the
   key committed for the retention.
   */
  lemma {:induction false} UploadIsPlayed(cfg: Config, chain: Chain, id: nat, key: string, at: Position, script: Script,
                                          answered: Moment, m: Moment, rest: seq<Moment>)
    requires at.phase.Forwarding? && script.outcome.Status? && 200 <= script.outcome.code < 300 && !script.faults.commit
    requires key in m.rows && m.rows[key] == Redemption.Row(false, m.rows[key].expiryMs, at.phase.token)
    requires m.now < m.rows[key].expiryMs
    ensures var end := Play(cfg, chain, id, key, at, script, [answered, m] + rest);
            && end.phase == Done(Upstream(script.outcome.code), m.now)
            && end.store == Table(m.rows[key := Redemption.Row(true, ExpiryMs(m.now, cfg.retentionSecs, U64_MAX), "")], U64_MAX)
  {
    assert [answered, m] + rest == [answered] + ([m] + rest);
    PlayStep(cfg, chain, id, key, at, script, answered, [m] + rest);
    var committing := Committing(at.phase.token, at.phase.leasedAt, answered.now, script.outcome.code);
    CommitStep(cfg, chain, id, key, committing, m);
    PlayStep(cfg, chain, id, key, Position(committing, Table(answered.rows, U64_MAX)), script, m, rest);
  }

  /** What a request on its way can still report: success only through a commit. */
  predicate IsHonest(p: Phase) {
    && InFlow(p)
    && (p.Committing? ==> 200 <= p.status < 300)
    && (p.Releasing? ==> !p.reply.IsSuccess())
  }

  /** Whatever the moments hold, a flow that ends with success leaves its key committed. */
  lemma {:induction false} SuccessLeavesCommit(cfg: Config, chain: Chain, id: nat, key: string, at: Position, script: Script,
                                               moments: seq<Moment>)
    requires IsHonest(at.phase)
    ensures var end := Play(cfg, chain, id, key, at, script, moments);
            end.phase.Done? && end.phase.reply.IsSuccess() ==>
              end.store.Table? && key in end.store.rows && end.store.rows[key].committed
    decreases |moments|
  {
    if moments != [] {
      var (s, e) := (Alone(moments[0], id, key, at.phase), NextEvent(id, at.phase, script));
      if Enabled(cfg, chain, s, e) {
        var t := Step(cfg, chain, s, e);
        if at.phase.Committing? && e.TryCommit? {
          CommitStep(cfg, chain, id, key, at.phase, moments[0]);
        }
        if InFlow(t.requests[id].phase) {
          SuccessLeavesCommit(cfg, chain, id, key, Position(t.requests[id].phase, t.store), script, moments[1..]);
        }
      }
    }
  }

  // ---- The same steps, in a run of the whole system ----

  /** The step sees the clock, the store and its own request, nothing else. */
  lemma {:induction false} StepIsLocal(cfg: Config, chain: Chain, s: Sys, id: nat, script: Script)
    requires id in s.requests && InFlow(s.requests[id].phase) && s.store.Table? && s.store.top == U64_MAX && s.now <= U64_MAX
    requires Enabled(cfg, chain, s, NextEvent(id, s.requests[id].phase, script))
    ensures var r := s.requests[id];
            var (a, e) := (Alone(Moment(s.now, s.store.rows), id, r.digest, r.phase), NextEvent(id, r.phase, script));
            && Enabled(cfg, chain, a, e)
            && Step(cfg, chain, a, e).requests[id] == Step(cfg, chain, s, e).requests[id]
            && Step(cfg, chain, a, e).store == Step(cfg, chain, s, e).store
  {
  }

  predicate NoneOf(id: nat, events: seq<Event>) {
    forall e | e in events :: e.Tick? || e.id != id
  }

  lemma {:induction false} OthersKeepRequest(cfg: Config, chain: Chain, s: Sys, events: seq<Event>, id: nat)
    requires Legal(cfg, chain, s, events) && NoneOf(id, events) && id in s.requests
    ensures id in Exec(cfg, chain, s, events).requests && Exec(cfg, chain, s, events).requests[id] == s.requests[id]
    decreases |events|
  {
    if events != [] {
      assert events[0] in events;
      OthersKeepRequest(cfg, chain, Step(cfg, chain, s, events[0]), events[1..], id);
    }
  }

  /** Before each of its own steps a request lets the others run: `others[0]`, then `others[1]`, and so on. */
  predicate Weaves(cfg: Config, chain: Chain, s: Sys, id: nat, script: Script, others: seq<seq<Event>>)
    decreases |others|
  {
    && id in s.requests
    && (others == [] || !InFlow(s.requests[id].phase) ||
        (&& Legal(cfg, chain, s, others[0]) && NoneOf(id, others[0])
         && var t := Exec(cfg, chain, s, others[0]);
            && id in t.requests && t.requests[id] == s.requests[id]
            && t.store.Table? && t.store.top == U64_MAX && t.now <= U64_MAX
            && Enabled(cfg, chain, t, NextEvent(id, t.requests[id].phase, script))
            && Weaves(cfg, chain, Step(cfg, chain, t, NextEvent(id, t.requests[id].phase, script)), id, script, others[1..])))
  }

  /** The events of such a run, in order. */
  function Woven(cfg: Config, chain: Chain, s: Sys, id: nat, script: Script, others: seq<seq<Event>>): seq<Event>
    requires Weaves(cfg, chain, s, id, script, others)
    decreases |others|
  {
    if others == [] || !InFlow(s.requests[id].phase) then []
    else
      var t := Exec(cfg, chain, s, others[0]);
      var e := NextEvent(id, t.requests[id].phase, script);
      others[0] + [e] + Woven(cfg, chain, Step(cfg, chain, t, e), id, script, others[1..])
  }

  /** What the request finds at each of its own steps. */
  function Moments(cfg: Config, chain: Chain, s: Sys, id: nat, script: Script, others: seq<seq<Event>>): seq<Moment>
    requires Weaves(cfg, chain, s, id, script, others)
    decreases |others|
  {
    if others == [] || !InFlow(s.requests[id].phase) then []
    else
      var t := Exec(cfg, chain, s, others[0]);
      var e := NextEvent(id, t.requests[id].phase, script);
      [Moment(t.now, t.store.rows)] + Moments(cfg, chain, Step(cfg, chain, t, e), id, script, others[1..])
  }

  lemma {:induction false} RunsJoin(cfg: Config, chain: Chain, s: Sys, a: seq<Event>, b: seq<Event>)
    requires Legal(cfg, chain, s, a) && Legal(cfg, chain, Exec(cfg, chain, s, a), b)
    ensures Legal(cfg, chain, s, a + b) && Exec(cfg, chain, s, a + b) == Exec(cfg, chain, Exec(cfg, chain, s, a), b)
    decreases |a|
  {
    if a == [] {
      assert a + b == b;
    } else {
      assert (a + b)[1..] == a[1..] + b;
      RunsJoin(cfg, chain, Step(cfg, chain, s, a[0]), a[1..], b);
    }
  }

  lemma {:induction false} OneThenRest(cfg: Config, chain: Chain, t: Sys, e: Event, rest: seq<Event>)
    requires Enabled(cfg, chain, t, e) && Legal(cfg, chain, Step(cfg, chain, t, e), rest)
    ensures Legal(cfg, chain, t, [e] + rest) && Exec(cfg, chain, t, [e] + rest) == Exec(cfg, chain, Step(cfg, chain, t, e), rest)
  {
    assert ([e] + rest)[1..] == rest;
  }

  lemma {:induction false} RunThroughStep(cfg: Config, chain: Chain, s: Sys, before: seq<Event>, e: Event, rest: seq<Event>)
    requires Legal(cfg, chain, s, before) && Enabled(cfg, chain, Exec(cfg, chain, s, before), e)
    requires Legal(cfg, chain, Step(cfg, chain, Exec(cfg, chain, s, before), e), rest)
    ensures Legal(cfg, chain, s, before + [e] + rest)
    ensures Exec(cfg, chain, s, before + [e] + rest)
            == Exec(cfg, chain, Step(cfg, chain, Exec(cfg, chain, s, before), e), rest)
  {
    OneThenRest(cfg, chain, Exec(cfg, chain, s, before), e, rest);
    RunsJoin(cfg, chain, s, before, [e] + rest);
    assert before + [e] + rest == before + ([e] + rest);
  }

  /** An own step in the system is one more moment played. */
  lemma {:induction false} OwnStepIsPlayed(cfg: Config, chain: Chain, t: Sys, id: nat, script: Script, store: Store, rest: seq<Moment>)
    requires id in t.requests && InFlow(t.requests[id].phase) && t.store.Table? && t.store.top == U64_MAX && t.now <= U64_MAX
    requires Enabled(cfg, chain, t, NextEvent(id, t.requests[id].phase, script))
    ensures var (r, u) := (t.requests[id], Step(cfg, chain, t, NextEvent(id, t.requests[id].phase, script)));
            && u.requests[id].digest == r.digest
            && Play(cfg, chain, id, r.digest, Position(r.phase, store), script, [Moment(t.now, t.store.rows)] + rest)
               == Play(cfg, chain, id, r.digest, Position(u.requests[id].phase, u.store), script, rest)
  {
    StepIsLocal(cfg, chain, t, id, script);
    PlayStep(cfg, chain, id, t.requests[id].digest, Position(t.requests[id].phase, store), script,
             Moment(t.now, t.store.rows), rest);
  }

  /** The others' turn and the request's next own step. */
  lemma {:induction false} NextOwnStep(cfg: Config, chain: Chain, s: Sys, id: nat, script: Script, others: seq<seq<Event>>)
    returns (t: Sys, e: Event, u: Sys)
    requires Weaves(cfg, chain, s, id, script, others) && others != [] && InFlow(s.requests[id].phase)
    ensures Legal(cfg, chain, s, others[0]) && t == Exec(cfg, chain, s, others[0])
    ensures id in t.requests && t.requests[id] == s.requests[id]
    ensures t.store.Table? && t.store.top == U64_MAX && t.now <= U64_MAX
    ensures e == NextEvent(id, s.requests[id].phase, script)
    ensures Enabled(cfg, chain, t, e) && u == Step(cfg, chain, t, e) && Weaves(cfg, chain, u, id, script, others[1..])
    ensures Woven(cfg, chain, s, id, script, others) == others[0] + [e] + Woven(cfg, chain, u, id, script, others[1..])
    ensures Moments(cfg, chain, s, id, script, others)
            == [Moment(t.now, t.store.rows)] + Moments(cfg, chain, u, id, script, others[1..])
  {
    t := Exec(cfg, chain, s, others[0]);
    e := NextEvent(id, t.requests[id].phase, script);
    u := Step(cfg, chain, t, e);
  }

  /**
   In every run of the system, whatever the others do between a request's steps, the request and the store end as
   playing its own steps at the moments it found says. So what is proved of every run holds of the method.
   */
  lemma {:induction false} FlowIsARun(cfg: Config, chain: Chain, s: Sys, id: nat, script: Script, others: seq<seq<Event>>)
    requires Weaves(cfg, chain, s, id, script, others)
    ensures Legal(cfg, chain, s, Woven(cfg, chain, s, id, script, others))
    ensures var end := Exec(cfg, chain, s, Woven(cfg, chain, s, id, script, others));
            && id in end.requests
            && Position(end.requests[id].phase, end.store)
               == Play(cfg, chain, id, s.requests[id].digest, Position(s.requests[id].phase, s.store), script,
                       Moments(cfg, chain, s, id, script, others))
    decreases |others|
  {
    if others != [] && InFlow(s.requests[id].phase) {
      var t, e, u := NextOwnStep(cfg, chain, s, id, script, others);
      var rest := Woven(cfg, chain, u, id, script, others[1..]);
      FlowIsARun(cfg, chain, u, id, script, others[1..]);
      OwnStepIsPlayed(cfg, chain, t, id, script, s.store, Moments(cfg, chain, u, id, script, others[1..]));
      RunThroughStep(cfg, chain, s, others[0], e, rest);
    }
  }
}
