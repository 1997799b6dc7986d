/** The in-memory redemption table: a hash map mutated in place, its cap, and its refinement of `Holds`. */
module Redemption {
  import opened Words
  import opened Soonest
  import opened Holds

  datatype Row = Row(committed: bool, expiryMs: nat, token: string)

  type Rows = map<string, Row>

  /** What `retain` keeps when the clock reads `now`. */
  function Retain(rows: Rows, now: nat): Rows {
    map k | k in rows && now < rows[k].expiryMs :: rows[k]
  }

  function LeaseDeadlines(rows: Rows): map<string, nat> {
    map k | k in rows && !rows[k].committed :: rows[k].expiryMs
  }

  function LeaseKeys(rows: Rows): set<string> {
    set k | k in rows && !rows[k].committed
  }

  function CommitKeys(rows: Rows): set<string> {
    set k | k in rows && rows[k].committed
  }

  /** The row a full table gives up: a soonest-to-expire lease, or nothing when there is no lease. */
  predicate IsVictim(rows: Rows, maxEntries: nat, victim: Option<string>) {
    var full := Max(maxEntries, 1) <= |rows|;
    match victim
    case Some(v) => full && IsSoonest(LeaseDeadlines(rows), v)
    case None => !full || LeaseKeys(rows) == {}
  }

  function TryLeaseRows(rows: Rows, key: string, now: nat, expiryMs: nat, token: string, victim: Option<string>): Rows {
    var live := Retain(rows, now);
    if key in live then live else Without(live, victim)[key := Row(false, expiryMs, token)]
  }

  function TryLeaseAnswer(rows: Rows, key: string, now: nat, token: string): Lease {
    if key !in rows || rows[key].expiryMs <= now then LeaseOk(token)
    else if rows[key].committed then Redeemed
    else Leased
  }

  predicate HoldsLease(rows: Rows, key: string, token: string) {
    key in rows && !rows[key].committed && rows[key].token == token
  }

  function CommitRows(rows: Rows, key: string, token: string, now: nat, expiryMs: nat): Rows {
    if HoldsLease(rows, key, token) && now < rows[key].expiryMs then rows[key := Row(true, expiryMs, "")] else rows
  }

  function ReleaseRows(rows: Rows, key: string, token: string): Rows {
    if HoldsLease(rows, key, token) then Without(rows, Some(key)) else rows
  }

  class RedemptionTable {
    var rows: Rows

    constructor ()
      ensures rows == map[]
    {
      rows := map[];
    }

    method TryLease(key: string, now: u64, leaseTtlSecs: u64, maxEntries: nat, newToken: string)
      returns (lease: Lease, ghost victim: Option<string>)
      modifies this
      ensures key !in Retain(old(rows), now) ==> IsVictim(Retain(old(rows), now), maxEntries, victim)
      ensures rows == TryLeaseRows(old(rows), key, now, ExpiryMs(now, leaseTtlSecs, U64_MAX), newToken, victim)
      ensures lease == TryLeaseAnswer(old(rows), key, now, newToken)
    {
      victim := None;
      rows := Retain(rows, now);
      if key in rows {
        var r := rows[key];
        if r.committed {
          return Redeemed, victim;
        }
        if now < r.expiryMs {
          return Leased, victim;
        }
      }
      if Max(maxEntries, 1) <= |rows| {
        var leases := LeaseDeadlines(rows);
        assert leases.Keys == LeaseKeys(rows);
        if leases.Keys != {} {
          SoonestExists(leases);
          var oldest :| oldest in leases && IsSoonest(leases, oldest);
          victim := Some(oldest);
          rows := Without(rows, Some(oldest));
        }
      }
      rows := rows[key := Row(false, ExpiryMs(now, leaseTtlSecs, U64_MAX), newToken)];
      lease := LeaseOk(newToken);
    }

    method CommitKey(key: string, token: string, now: u64, retentionSecs: u64) returns (answer: Commit)
      modifies this
      ensures rows == CommitRows(old(rows), key, token, now, ExpiryMs(now, retentionSecs, U64_MAX))
      ensures answer == if HoldsLease(old(rows), key, token) && now < old(rows)[key].expiryMs then CommitOk else Lost
    {
      if key in rows && !rows[key].committed && rows[key].token == token && now < rows[key].expiryMs {
        rows := rows[key := Row(true, ExpiryMs(now, retentionSecs, U64_MAX), "")];
        answer := CommitOk;
      } else {
        answer := Lost;
      }
    }

    method Release(key: string, token: string)
      modifies this
      ensures rows == ReleaseRows(old(rows), key, token)
    {
      if key in rows && !rows[key].committed && rows[key].token == token {
        rows := Without(rows, Some(key));
      }
    }
  }

  /** Only a full table gives a row up, and then a lease that no other lease expires before. */
  lemma {:induction false} GivesUpSoonestLease(rows: Rows, maxEntries: nat, victim: Option<string>)
    requires IsVictim(rows, maxEntries, victim)
    ensures match victim
            case None => |rows| < Max(maxEntries, 1) || forall k | k in rows :: rows[k].committed
            case Some(v) =>
              && Max(maxEntries, 1) <= |rows| && v in rows && !rows[v].committed
              && forall k | k in rows && !rows[k].committed :: rows[v].expiryMs <= rows[k].expiryMs
  {
    match victim
    case None =>
      forall k | k in rows && !rows[k].committed
        ensures k in LeaseKeys(rows)
      {
      }
    case Some(v) =>
      forall k | k in rows && !rows[k].committed
        ensures rows[v].expiryMs <= rows[k].expiryMs
      {
        assert k in LeaseDeadlines(rows);
      }
  }

  // ---- Refinement of the per-digest machine ----

  function HoldOf(r: Row): Hold {
    if r.committed then CommittedUntil(r.expiryMs) else LeasedBy(r.token, r.expiryMs)
  }

  /** What the rows mean when the clock reads `now`. */
  function View(rows: Rows, now: nat): Ledger {
    map k | k in rows && now < rows[k].expiryMs :: HoldOf(rows[k])
  }

  /** Time alone only lets holds lapse. */
  lemma {:induction false} ViewTick(rows: Rows, now: nat, later: nat)
    requires now <= later
    ensures View(rows, later) == Live(View(rows, now), later)
  {
  }

  lemma {:induction false} ViewRetain(rows: Rows, now: nat)
    ensures View(Retain(rows, now), now) == View(rows, now)
    ensures Retain(rows, now).Keys == View(rows, now).Keys
    ensures |Retain(rows, now)| == |View(rows, now)|
  {
    assert Retain(rows, now).Keys == View(rows, now).Keys;
    assert |Retain(rows, now)| == |Retain(rows, now).Keys|;
    assert |View(rows, now)| == |View(rows, now).Keys|;
  }

  lemma {:induction false} ViewPut(rows: Rows, key: string, r: Row, now: nat)
    ensures View(rows[key := r], now) == Put(View(rows, now), key, HoldOf(r), now)
  {
  }

  lemma {:induction false} ViewWithout(rows: Rows, victim: Option<string>, now: nat)
    ensures View(Without(rows, victim), now) == Drop(View(rows, now), victim)
  {
  }

  /** A lease attempt on the table is a lease attempt on the machine of every digest. */
  lemma {:induction false} LeaseRefines(rows: Rows, key: string, now: nat, expiryMs: nat, token: string, victim: Option<string>)
    ensures View(TryLeaseRows(rows, key, now, expiryMs, token, victim), now)
            == AfterLease(View(rows, now), key, now, LeasedBy(token, expiryMs), victim)
    ensures TryLeaseAnswer(rows, key, now, token) == LeaseAnswer(View(rows, now), key, token)
  {
    var live := Retain(rows, now);
    ViewRetain(rows, now);
    ViewWithout(live, victim, now);
    ViewPut(Without(live, victim), key, Row(false, expiryMs, token), now);
  }

  /** Making room costs a lease, and only when the live rows fill the table. */
  lemma {:induction false} VictimIsLease(rows: Rows, now: nat, maxEntries: nat, victim: Option<string>)
    requires IsVictim(Retain(rows, now), maxEntries, victim)
    ensures Droppable(View(rows, now), victim)
    ensures |View(rows, now)| < Max(maxEntries, 1) ==> victim == None
  {
    ViewRetain(rows, now);
    if victim.Some? {
      assert victim.value in LeaseDeadlines(Retain(rows, now));
    }
  }

  lemma {:induction false} CommitRefines(rows: Rows, key: string, token: string, now: nat, expiryMs: nat)
    ensures View(CommitRows(rows, key, token, now, expiryMs), now) == AfterCommit(View(rows, now), key, token, now, expiryMs)
    ensures HoldsLease(rows, key, token) && now < rows[key].expiryMs <==> Owns(View(rows, now), key, token)
  {
    ViewPut(rows, key, Row(true, expiryMs, ""), now);
  }

  lemma {:induction false} ReleaseRefines(rows: Rows, key: string, token: string, now: nat)
    ensures View(ReleaseRows(rows, key, token), now) == AfterRelease(View(rows, now), key, token)
  {
    ViewWithout(rows, Some(key), now);
  }

  // ---- Runs of one table under a fixed cap ----

  datatype Op =
    | LeaseOp(key: string, now: nat, expiryMs: nat, token: string, victim: Option<string>)
    | CommitOp(key: string, token: string, now: nat, expiryMs: nat)
    | ReleaseOp(key: string, token: string)

  predicate Possible(rows: Rows, maxEntries: nat, op: Op) {
    op.LeaseOp? && op.key !in Retain(rows, op.now) ==> IsVictim(Retain(rows, op.now), maxEntries, op.victim)
  }

  function Apply(rows: Rows, op: Op): Rows {
    match op
    case LeaseOp(key, now, expiryMs, token, victim) => TryLeaseRows(rows, key, now, expiryMs, token, victim)
    case CommitOp(key, token, now, expiryMs) => CommitRows(rows, key, token, now, expiryMs)
    case ReleaseOp(key, token) => ReleaseRows(rows, key, token)
  }

  function Run(rows: Rows, ops: seq<Op>): Rows
    decreases |ops|
  {
    if ops == [] then rows else Run(Apply(rows, ops[0]), ops[1..])
  }

  predicate PossibleRun(rows: Rows, maxEntries: nat, ops: seq<Op>)
    decreases |ops|
  {
    ops == [] || (Possible(rows, maxEntries, ops[0]) && PossibleRun(Apply(rows, ops[0]), maxEntries, ops[1..]))
  }

  predicate WithinCap(rows: Rows, maxEntries: nat) {
    |LeaseKeys(rows)| <= Max(maxEntries - |CommitKeys(rows)|, 1)
  }

  lemma {:induction false} Partition(rows: Rows)
    ensures |rows| == |LeaseKeys(rows)| + |CommitKeys(rows)|
  {
    assert rows.Keys == LeaseKeys(rows) + CommitKeys(rows);
    assert LeaseKeys(rows) !! CommitKeys(rows);
    assert |rows| == |rows.Keys|;
  }

  lemma {:induction false} RetainWithinCap(rows: Rows, maxEntries: nat, now: nat)
    requires WithinCap(rows, maxEntries)
    ensures WithinCap(Retain(rows, now), maxEntries)
  {
    SubsetSize(LeaseKeys(Retain(rows, now)), LeaseKeys(rows));
    SubsetSize(CommitKeys(Retain(rows, now)), CommitKeys(rows));
  }

  lemma {:induction false} InsertedLease(live: Rows, key: string, expiryMs: nat, token: string, victim: Option<string>)
    requires key !in live && (victim.Some? ==> victim.value in LeaseKeys(live))
    ensures var after := Without(live, victim)[key := Row(false, expiryMs, token)];
            && CommitKeys(after) == CommitKeys(live)
            && |LeaseKeys(after)| == |LeaseKeys(live)| + if victim.Some? then 0 else 1
  {
    var after := Without(live, victim)[key := Row(false, expiryMs, token)];
    match victim
    case None =>
      assert LeaseKeys(after) == LeaseKeys(live) + {key};
    case Some(v) =>
      assert LeaseKeys(after) == LeaseKeys(live) - {v} + {key};
  }

  lemma {:induction false} LeaseWithinCap(rows: Rows, maxEntries: nat, op: Op)
    requires WithinCap(rows, maxEntries) && op.LeaseOp? && Possible(rows, maxEntries, op)
    ensures WithinCap(Apply(rows, op), maxEntries)
  {
    var live := Retain(rows, op.now);
    assert LeaseDeadlines(live).Keys == LeaseKeys(live);
    RetainWithinCap(rows, maxEntries, op.now);
    if op.key !in live {
      Partition(live);
      InsertedLease(live, op.key, op.expiryMs, op.token, op.victim);
    }
  }

  lemma {:induction false} ApplyWithinCap(rows: Rows, maxEntries: nat, op: Op)
    requires WithinCap(rows, maxEntries) && Possible(rows, maxEntries, op)
    ensures WithinCap(Apply(rows, op), maxEntries)
  {
    var after := Apply(rows, op);
    match op
    case LeaseOp(_, _, _, _, _) =>
      LeaseWithinCap(rows, maxEntries, op);
    case CommitOp(key, token, now, _) =>
      if after != rows {
        assert key in LeaseKeys(rows);
        assert LeaseKeys(after) == LeaseKeys(rows) - {key};
        assert CommitKeys(after) == CommitKeys(rows) + {key};
      }
    case ReleaseOp(key, token) =>
      assert LeaseKeys(after) <= LeaseKeys(rows);
      SubsetSize(LeaseKeys(after), LeaseKeys(rows));
      assert CommitKeys(after) == CommitKeys(rows);
  }

  lemma {:induction false} RunWithinCap(rows: Rows, maxEntries: nat, ops: seq<Op>)
    requires WithinCap(rows, maxEntries) && PossibleRun(rows, maxEntries, ops)
    ensures WithinCap(Run(rows, ops), maxEntries)
    decreases |ops|
  {
    if ops != [] {
      ApplyWithinCap(rows, maxEntries, ops[0]);
      RunWithinCap(Apply(rows, ops[0]), maxEntries, ops[1..]);
    }
  }

  /** Every reachable table holds at most max(cap - commits, 1) leases. */
  lemma {:induction false} ReachableWithinCap(maxEntries: nat, ops: seq<Op>)
    requires PossibleRun(map[], maxEntries, ops)
    ensures |LeaseKeys(Run(map[], ops))| <= Max(maxEntries - |CommitKeys(Run(map[], ops))|, 1)
  {
    RunWithinCap(map[], maxEntries, ops);
  }

  // ---- When the cap bounds the rows ----

  /** A lease is granted: its key is free. */
  predicate Grants(rows: Rows, op: Op) {
    op.LeaseOp? && op.key !in Retain(rows, op.now)
  }

  /** After granting a lease the rows are within the cap exactly when the commits alone had left room. */
  lemma {:induction false} GrantWithinCap(rows: Rows, maxEntries: nat, op: Op)
    requires Grants(rows, op) && Possible(rows, maxEntries, op)
    requires |Retain(rows, op.now)| <= Max(maxEntries, 1)
    ensures |Apply(rows, op)| <= Max(maxEntries, 1) <==> |CommitKeys(Retain(rows, op.now))| < Max(maxEntries, 1)
  {
    var live := Retain(rows, op.now);
    assert LeaseDeadlines(live).Keys == LeaseKeys(live);
    Partition(live);
    InsertedLease(live, op.key, op.expiryMs, op.token, op.victim);
    Partition(Apply(rows, op));
  }

  lemma {:induction false} OthersAddNothing(rows: Rows, op: Op)
    requires !Grants(rows, op)
    ensures |Apply(rows, op)| <= |rows|
  {
    SubsetSize(Apply(rows, op).Keys, rows.Keys);
  }

  /** The rows stay within the cap at every moment of a run. */
  predicate RowsWithinCap(rows: Rows, maxEntries: nat, ops: seq<Op>)
    decreases |ops|
  {
    |rows| <= Max(maxEntries, 1) && (ops == [] || RowsWithinCap(Apply(rows, ops[0]), maxEntries, ops[1..]))
  }

  /** No lease of a run is granted while commits alone fill the cap. */
  predicate CommitsLeaveRoom(rows: Rows, maxEntries: nat, ops: seq<Op>)
    decreases |ops|
  {
    ops == [] ||
    (&& (Grants(rows, ops[0]) ==> |CommitKeys(Retain(rows, ops[0].now))| < Max(maxEntries, 1))
     && CommitsLeaveRoom(Apply(rows, ops[0]), maxEntries, ops[1..]))
  }

  /** The cap bounds the rows throughout a run exactly when no lease is granted while commits alone fill it. */
  lemma {:induction false} CapBoundsRowsExactly(rows: Rows, maxEntries: nat, ops: seq<Op>)
    requires |rows| <= Max(maxEntries, 1) && PossibleRun(rows, maxEntries, ops)
    ensures RowsWithinCap(rows, maxEntries, ops) <==> CommitsLeaveRoom(rows, maxEntries, ops)
    decreases |ops|
  {
    if ops != [] {
      var (op, next) := (ops[0], Apply(rows, ops[0]));
      if Grants(rows, op) {
        SubsetSize(Retain(rows, op.now).Keys, rows.Keys);
        GrantWithinCap(rows, maxEntries, op);
      } else {
        OthersAddNothing(rows, op);
      }
      if |next| <= Max(maxEntries, 1) {
        CapBoundsRowsExactly(next, maxEntries, ops[1..]);
      }
    }
  }

  /** Whatever the run, the rows exceed the cap by no more than one lease beside the commits. */
  lemma {:induction false} ReachableRows(maxEntries: nat, ops: seq<Op>)
    requires PossibleRun(map[], maxEntries, ops)
    ensures |Run(map[], ops)| <= Max(maxEntries, |CommitKeys(Run(map[], ops))| + 1)
  {
    ReachableWithinCap(maxEntries, ops);
    Partition(Run(map[], ops));
  }

  /** With a cap of one, a commit and the next lease make two rows. */
  lemma {:induction false} CommitAndLeaseExceedCap()
    ensures var ops := [LeaseOp("a", 0, 10, "t", None), CommitOp("a", "t", 0, 100), LeaseOp("b", 0, 10, "u", None)];
            PossibleRun(map[], 1, ops) && |Run(map[], ops)| == 2
  {
    var (lease, commit, second) := (LeaseOp("a", 0, 10, "t", None), CommitOp("a", "t", 0, 100), LeaseOp("b", 0, 10, "u", None));
    var ops := [lease, commit, second];
    assert ops[1..] == [commit, second] && [commit, second][1..] == [second] && [second][1..] == [];
    assert "a"[0] != "b"[0];
    var one: Rows := map["a" := Row(false, 10, "t")];
    var two: Rows := map["a" := Row(true, 100, "")];
    assert Retain(map[], 0) == map[] && Apply(map[], lease) == one;
    assert Apply(one, commit) == two;
    assert Retain(two, 0) == two && |two| == 1;
    assert LeaseDeadlines(two) == map[] && LeaseKeys(two) == {};
    assert Apply(two, second) == map["a" := Row(true, 100, ""), "b" := Row(false, 10, "u")];
  }

  /** No run removes or alters a commit while its retention lasts, whatever the cap. */
  lemma {:induction false} CommitSurvives(rows: Rows, maxEntries: nat, ops: seq<Op>, key: string)
    requires key in rows && rows[key].committed && PossibleRun(rows, maxEntries, ops)
    requires forall op | op in ops && op.LeaseOp? :: op.now < rows[key].expiryMs
    ensures key in Run(rows, ops) && Run(rows, ops)[key] == rows[key]
    decreases |ops|
  {
    if ops != [] {
      var next := Apply(rows, ops[0]);
      assert ops[0] in ops;
      assert key in next && next[key] == rows[key];
      CommitSurvives(next, maxEntries, ops[1..], key);
    }
  }
}
