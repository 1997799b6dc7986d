/** Fixed-window rate limiting: the capped in-memory table and the Durable Object's swept one. */
module Rates {
  import opened Words
  import opened Soonest

  const RATE_WINDOW_MS: nat := 60_000

  datatype Window = Window(start: nat, count: nat)

  type Rows = map<string, Window>

  predicate IsRunning(w: Window, now: nat) {
    SaturatingSub(now, w.start) < RATE_WINDOW_MS
  }

  /** The windows that have not ended: also what `prune` keeps. */
  function Running(rows: Rows, now: nat): Rows {
    map k | k in rows && IsRunning(rows[k], now) :: rows[k]
  }

  function Starts(rows: Rows): map<string, nat> {
    map k | k in rows :: rows[k].start
  }

  predicate IsVictim(running: Rows, maxKeys: nat, victim: Option<string>) {
    match victim
    case Some(v) => Max(maxKeys, 1) <= |running| && IsSoonest(Starts(running), v)
    case None => |running| < Max(maxKeys, 1)
  }

  /** The window a request is charged to: the stored one while it runs, else a fresh one. */
  function Current(rows: Rows, key: string, now: nat): Window {
    if key in rows && IsRunning(rows[key], now) then rows[key] else Window(now, 0)
  }

  predicate Allows(rows: Rows, key: string, now: nat, maxPerMin: nat) {
    maxPerMin == 0 || Current(rows, key, now).count < maxPerMin
  }

  predicate MakesRoom(rows: Rows, key: string, maxKeys: nat) {
    key !in rows && Max(maxKeys, 1) <= |rows|
  }

  function Charged(rows: Rows, key: string, w: Window): Rows {
    rows[key := Window(w.start, w.count + 1)]
  }

  function CheckRows(rows: Rows, key: string, now: nat, maxPerMin: nat, maxKeys: nat, victim: Option<string>): Rows {
    if maxPerMin == 0 || !Allows(rows, key, now, maxPerMin) then rows
    else
      var room := if MakesRoom(rows, key, maxKeys) then Without(Running(rows, now), victim) else rows;
      Charged(room, key, Current(rows, key, now))
  }

  class RateTable {
    var rows: Rows

    constructor ()
      ensures rows == map[]
    {
      rows := map[];
    }

    method CheckCapped(key: string, now: u64, maxPerMin: u64, maxKeys: nat)
      returns (allowed: bool, ghost victim: Option<string>)
      modifies this
      ensures allowed == Allows(old(rows), key, now, maxPerMin)
      ensures MakesRoom(old(rows), key, maxKeys) && maxPerMin != 0 && allowed
              ==> IsVictim(Running(old(rows), now), maxKeys, victim)
      ensures rows == CheckRows(old(rows), key, now, maxPerMin, maxKeys, victim)
    {
      victim := None;
      if maxPerMin == 0 {
        return true, victim;
      }
      var start, count := now, 0;
      if key in rows {
        var w := rows[key];
        if SaturatingSub(now, w.start) < RATE_WINDOW_MS {
          start, count := w.start, w.count;
        }
      }
      if maxPerMin <= count {
        return false, victim;
      }
      if key !in rows && Max(maxKeys, 1) <= |rows| {
        Prune(now);
        if Max(maxKeys, 1) <= |rows| {
          var starts := Starts(rows);
          assert starts.Keys == rows.Keys;
          SoonestExists(starts);
          var soonest :| soonest in starts && IsSoonest(starts, soonest);
          victim := Some(soonest);
          rows := Without(rows, Some(soonest));
        }
      }
      rows := rows[key := Window(start, count + 1)];
      allowed := true;
    }

    method Prune(now: u64)
      modifies this
      ensures rows == Running(old(rows), now)
    {
      rows := map k | k in rows && SaturatingSub(now, rows[k].start) < RATE_WINDOW_MS :: rows[k];
    }
  }

  // ---- Ended windows never matter ----

  /** One request with the budget it is charged against. */
  datatype Request = Request(key: string, now: nat, maxPerMin: nat)

  /** A fixed rule for which of several equally old windows a full table gives up. */
  ghost predicate IsChoice(pick: Rows -> string) {
    forall m: Rows | m.Keys != {} :: IsSoonest(Starts(m), pick(m))
  }

  function VictimBy(pick: Rows -> string, running: Rows, maxKeys: nat): Option<string> {
    if Max(maxKeys, 1) <= |running| then Some(pick(running)) else None
  }

  function StepBy(pick: Rows -> string, rows: Rows, q: Request, maxKeys: nat): Rows {
    CheckRows(rows, q.key, q.now, q.maxPerMin, maxKeys, VictimBy(pick, Running(rows, q.now), maxKeys))
  }

  predicate WithinCap(rows: Rows, maxKeys: nat) {
    |rows| <= Max(maxKeys, 1)
  }

  /** Only a full table gives a window up, and then one that no other began before. */
  lemma {:induction false} GivesUpOldest(running: Rows, maxKeys: nat, victim: Option<string>)
    requires IsVictim(running, maxKeys, victim)
    ensures match victim
            case None => |running| < Max(maxKeys, 1)
            case Some(v) =>
              Max(maxKeys, 1) <= |running| && v in running && forall k | k in running :: running[v].start <= running[k].start
  {
    if victim.Some? {
      forall k | k in running
        ensures running[victim.value].start <= running[k].start
      {
        assert k in Starts(running) && Starts(running)[k] == running[k].start;
      }
    }
  }

  lemma {:induction false} RunningFits(rows: Rows, now: nat)
    ensures |Running(rows, now)| <= |rows|
  {
    SubsetSize(Running(rows, now).Keys, rows.Keys);
  }

  lemma {:induction false} RoomMade(running: Rows, maxKeys: nat, victim: Option<string>)
    requires WithinCap(running, maxKeys) && IsVictim(running, maxKeys, victim)
    ensures |Without(running, victim)| < Max(maxKeys, 1)
  {
    if victim.Some? {
      assert victim.value in Starts(running);
      assert Without(running, victim).Keys == running.Keys - {victim.value};
    }
  }

  lemma {:induction false} ChargedSize(rows: Rows, key: string, w: Window)
    ensures |Charged(rows, key, w)| <= |rows| + if key in rows then 0 else 1
  {
    assert Charged(rows, key, w).Keys == rows.Keys + {key};
    if key in rows {
      assert rows.Keys + {key} == rows.Keys;
    }
  }

  lemma {:induction false} StepWithinCap(rows: Rows, key: string, now: nat, maxPerMin: nat, maxKeys: nat, victim: Option<string>)
    requires WithinCap(rows, maxKeys)
    requires MakesRoom(rows, key, maxKeys) ==> IsVictim(Running(rows, now), maxKeys, victim)
    ensures WithinCap(CheckRows(rows, key, now, maxPerMin, maxKeys, victim), maxKeys)
  {
    var w := Current(rows, key, now);
    if MakesRoom(rows, key, maxKeys) {
      var room := Without(Running(rows, now), victim);
      RunningFits(rows, now);
      RoomMade(Running(rows, now), maxKeys, victim);
      ChargedSize(room, key, w);
    } else {
      ChargedSize(rows, key, w);
    }
  }

  lemma {:induction false} VictimByIsVictim(pick: Rows -> string, running: Rows, maxKeys: nat)
    requires IsChoice(pick)
    ensures IsVictim(running, maxKeys, VictimBy(pick, running, maxKeys))
  {
  }

  lemma {:induction false} RunningCharged(rows: Rows, key: string, w: Window, now: nat)
    requires IsRunning(w, now)
    ensures Running(Charged(rows, key, w), now) == Charged(Running(rows, now), key, w)
  {
  }

  lemma {:induction false} SameKeysWhenFull(rows: Rows, now: nat)
    requires |rows| <= |Running(rows, now)|
    ensures Running(rows, now) == rows
  {
    var r := Running(rows, now);
    assert rows.Keys == r.Keys + (rows.Keys - r.Keys);
    assert |rows.Keys - r.Keys| == 0;
  }

  lemma {:induction false} CurrentIsRunning(rows: Rows, key: string, now: nat)
    ensures IsRunning(Current(rows, key, now), now)
    ensures Current(rows, key, now) == Current(Running(rows, now), key, now)
  {
  }

  /** The running windows after a request depend only on the running windows before it. */
  lemma {:induction false} RunningAfter(pick: Rows -> string, rows: Rows, q: Request, maxKeys: nat)
    requires WithinCap(rows, maxKeys)
    ensures var r := Running(rows, q.now);
            && Allows(rows, q.key, q.now, q.maxPerMin) == Allows(r, q.key, q.now, q.maxPerMin)
            && Running(StepBy(pick, rows, q, maxKeys), q.now) == StepBy(pick, r, q, maxKeys)
  {
    var r := Running(rows, q.now);
    PruneInvisible(rows, q.now, q.now);
    CurrentIsRunning(rows, q.key, q.now);
    if Max(maxKeys, 1) <= |r| {
      SameKeysWhenFull(rows, q.now);
    }
    var victim := VictimBy(pick, r, maxKeys);
    var room := if MakesRoom(rows, q.key, maxKeys) then Without(r, victim) else rows;
    assert Running(room, q.now) == if MakesRoom(r, q.key, maxKeys) then Without(r, victim) else r;
    RunningCharged(room, q.key, Current(r, q.key, q.now), q.now);
  }

  /** Pruning at any earlier moment leaves the running windows as they are. */
  lemma {:induction false} PruneInvisible(rows: Rows, earlier: nat, now: nat)
    requires earlier <= now
    ensures Running(Running(rows, earlier), now) == Running(rows, now)
  {
  }

  function PruneAll(rows: Rows, times: seq<nat>): Rows {
    if times == [] then rows else PruneAll(Running(rows, times[0]), times[1..])
  }

  lemma {:induction false} PruneAllInvisible(rows: Rows, times: seq<nat>, now: nat)
    requires forall t | t in times :: t <= now
    ensures Running(PruneAll(rows, times), now) == Running(rows, now)
    ensures |PruneAll(rows, times)| <= |rows|
    decreases |times|
  {
    if times != [] {
      assert times[0] in times;
      PruneInvisible(rows, times[0], now);
      RunningFits(rows, times[0]);
      assert forall t | t in times[1..] :: t in times;
      PruneAllInvisible(Running(rows, times[0]), times[1..], now);
    }
  }

  /** The verdicts of a table that is pruned at `prunes[i]` before request `i`. */
  function Verdicts(pick: Rows -> string, rows: Rows, qs: seq<Request>, prunes: seq<seq<nat>>, maxKeys: nat): seq<bool>
    requires |prunes| == |qs|
    decreases |qs|
  {
    if qs == [] then []
    else
      var pruned := PruneAll(rows, prunes[0]);
      [Allows(pruned, qs[0].key, qs[0].now, qs[0].maxPerMin)]
      + Verdicts(pick, StepBy(pick, pruned, qs[0], maxKeys), qs[1..], prunes[1..], maxKeys)
  }

  /** A clock that does not go back, and prunes that happen no later than the request they precede. */
  predicate Orderly(last: nat, qs: seq<Request>, prunes: seq<seq<nat>>)
    requires |prunes| == |qs|
    decreases |qs|
  {
    qs == [] ||
    (&& last <= qs[0].now
     && (forall t | t in prunes[0] :: t <= qs[0].now)
     && Orderly(qs[0].now, qs[1..], prunes[1..]))
  }

  predicate Agree(a: Rows, b: Rows, now: nat) {
    Running(a, now) == Running(b, now)
  }

  lemma {:induction false} AgreeLater(a: Rows, b: Rows, now: nat, later: nat)
    requires Agree(a, b, now) && now <= later
    ensures Agree(a, b, later)
  {
    PruneInvisible(a, now, later);
    PruneInvisible(b, now, later);
  }

  /** Tables that agree on their running windows answer alike for ever, whenever each of them is pruned. */
  lemma {:induction false} PruningChangesNoVerdict(
    pick: Rows -> string, a: Rows, b: Rows, last: nat, qs: seq<Request>, pa: seq<seq<nat>>, pb: seq<seq<nat>>, maxKeys: nat)
    requires |pa| == |qs| == |pb|
    requires IsChoice(pick) && Agree(a, b, last) && WithinCap(a, maxKeys) && WithinCap(b, maxKeys)
    requires Orderly(last, qs, pa) && Orderly(last, qs, pb)
    ensures Verdicts(pick, a, qs, pa, maxKeys) == Verdicts(pick, b, qs, pb, maxKeys)
    decreases |qs|
  {
    if qs != [] {
      var q := qs[0];
      AgreeLater(a, b, last, q.now);
      var (x, y) := (PruneAll(a, pa[0]), PruneAll(b, pb[0]));
      PruneAllInvisible(a, pa[0], q.now);
      PruneAllInvisible(b, pb[0], q.now);
      RunningAfter(pick, x, q, maxKeys);
      RunningAfter(pick, y, q, maxKeys);
      var (x', y') := (StepBy(pick, x, q, maxKeys), StepBy(pick, y, q, maxKeys));
      VictimByIsVictim(pick, Running(x, q.now), maxKeys);
      StepWithinCap(x, q.key, q.now, q.maxPerMin, maxKeys, VictimBy(pick, Running(x, q.now), maxKeys));
      StepWithinCap(y, q.key, q.now, q.maxPerMin, maxKeys, VictimBy(pick, Running(y, q.now), maxKeys));
      PruningChangesNoVerdict(pick, x', y', q.now, qs[1..], pa[1..], pb[1..], maxKeys);
    }
  }

  // ---- The Durable Object's table: no cap, a random sweep ----

  /** `DELETE FROM rate WHERE start < now - 60000`. */
  function Swept(rows: Rows, now: nat): Rows {
    map k | k in rows && now - RATE_WINDOW_MS <= rows[k].start :: rows[k]
  }

  function SweptCheckRows(rows: Rows, key: string, now: nat, maxPerMin: nat, coin: bool): Rows {
    if maxPerMin == 0 || !Allows(rows, key, now, maxPerMin) then rows
    else Charged(if coin then Swept(rows, now) else rows, key, Current(rows, key, now))
  }

  function SweptVerdicts(rows: Rows, qs: seq<Request>, coins: seq<bool>): seq<bool>
    requires |coins| == |qs|
    decreases |qs|
  {
    if qs == [] then []
    else [Allows(rows, qs[0].key, qs[0].now, qs[0].maxPerMin)]
         + SweptVerdicts(SweptCheckRows(rows, qs[0].key, qs[0].now, qs[0].maxPerMin, coins[0]), qs[1..], coins[1..])
  }

  lemma {:induction false} SweptRunningAfter(rows: Rows, q: Request, coin: bool)
    ensures var r := Running(rows, q.now);
            && Allows(rows, q.key, q.now, q.maxPerMin) == Allows(r, q.key, q.now, q.maxPerMin)
            && Running(SweptCheckRows(rows, q.key, q.now, q.maxPerMin, coin), q.now)
               == SweptCheckRows(r, q.key, q.now, q.maxPerMin, false)
  {
    var r := Running(rows, q.now);
    assert Current(rows, q.key, q.now) == Current(r, q.key, q.now);
    var w := Current(r, q.key, q.now);
    assert IsRunning(Window(w.start, w.count + 1), q.now);
    assert Running(Charged(rows, q.key, w), q.now) == Charged(r, q.key, w);
    assert Running(Charged(Swept(rows, q.now), q.key, w), q.now) == Charged(r, q.key, w);
  }

  /**
   Whatever the coins say, the swept table answers like a capped table that never fills, however that one is
   pruned.
   */
  lemma {:induction false} SweepChangesNoVerdict(
    pick: Rows -> string, a: Rows, b: Rows, last: nat, qs: seq<Request>, coins: seq<bool>, prunes: seq<seq<nat>>, maxKeys: nat)
    requires |coins| == |qs| == |prunes|
    requires IsChoice(pick) && Agree(a, b, last) && |b| + |qs| < maxKeys
    requires Orderly(last, qs, prunes)
    ensures SweptVerdicts(a, qs, coins) == Verdicts(pick, b, qs, prunes, maxKeys)
    decreases |qs|
  {
    if qs != [] {
      var q := qs[0];
      AgreeLater(a, b, last, q.now);
      var y := PruneAll(b, prunes[0]);
      PruneAllInvisible(b, prunes[0], q.now);
      SweptRunningAfter(a, q, coins[0]);
      RunningAfter(pick, y, q, maxKeys);
      RunningFits(y, q.now);
      RunningFits(b, q.now);
      var y' := StepBy(pick, y, q, maxKeys);
      assert y'.Keys <= y.Keys + {q.key};
      SubsetSize(y'.Keys, y.Keys + {q.key});
      SweepChangesNoVerdict(pick, SweptCheckRows(a, q.key, q.now, q.maxPerMin, coins[0]), y', q.now, qs[1..], coins[1..], prunes[1..], maxKeys);
    }
  }

  // ---- Whole histories of the capped table ----

  datatype Event =
    | Check(key: string, now: nat, maxPerMin: nat, victim: Option<string>)
    | Prune(now: nat)

  function Apply(rows: Rows, e: Event, maxKeys: nat): Rows {
    match e
    case Check(key, now, maxPerMin, victim) => CheckRows(rows, key, now, maxPerMin, maxKeys, victim)
    case Prune(now) => Running(rows, now)
  }

  predicate Possible(rows: Rows, e: Event, maxKeys: nat) {
    e.Check? && MakesRoom(rows, e.key, maxKeys) ==> IsVictim(Running(rows, e.now), maxKeys, e.victim)
  }

  function Run(rows: Rows, events: seq<Event>, maxKeys: nat): Rows
    decreases |events|
  {
    if events == [] then rows else Run(Apply(rows, events[0], maxKeys), events[1..], maxKeys)
  }

  predicate PossibleRun(rows: Rows, events: seq<Event>, maxKeys: nat)
    decreases |events|
  {
    events == [] || (Possible(rows, events[0], maxKeys) && PossibleRun(Apply(rows, events[0], maxKeys), events[1..], maxKeys))
  }

  /** Over any run the capped table never holds more than max(cap, 1) windows. */
  lemma {:induction false} RunWithinCap(rows: Rows, events: seq<Event>, maxKeys: nat)
    requires WithinCap(rows, maxKeys) && PossibleRun(rows, events, maxKeys)
    ensures WithinCap(Run(rows, events, maxKeys), maxKeys)
    decreases |events|
  {
    if events != [] {
      var e := events[0];
      match e {
        case Check(key, now, maxPerMin, victim) => StepWithinCap(rows, key, now, maxPerMin, maxKeys, victim);
        case Prune(now) => RunningFits(rows, now);
      }
      RunWithinCap(Apply(rows, e, maxKeys), events[1..], maxKeys);
    }
  }

  /** Requests of `key` admitted while `from <= now < to`. */
  function Admitted(rows: Rows, events: seq<Event>, maxKeys: nat, key: string, from: nat, to: nat): nat
    decreases |events|
  {
    if events == [] then 0
    else
      var e := events[0];
      (if e.Check? && e.key == key && from <= e.now < to && Allows(rows, key, e.now, e.maxPerMin) then 1 else 0)
      + Admitted(Apply(rows, e, maxKeys), events[1..], maxKeys, key, from, to)
  }

  /** The clock does not go back, `key` always has the budget `budget`, and its window is never evicted. */
  predicate Steady(last: nat, events: seq<Event>, key: string, budget: nat)
    decreases |events|
  {
    events == [] ||
    (var e := events[0];
     && last <= e.now
     && (e.Check? ==> (e.key == key ==> e.maxPerMin == budget) && e.victim != Some(key))
     && Steady(e.now, events[1..], key, budget))
  }

  /** Whole windows between `from` and `t`. */
  function WindowsSince(from: nat, t: nat): nat
    requires from <= t
  {
    (t - from) / RATE_WINDOW_MS
  }

  /** How many admissions since `from` the state at time `last` can account for. */
  function Credit(rows: Rows, key: string, last: nat, from: nat, budget: nat): nat {
    if key in rows then
      var w := rows[key];
      if w.start < from then w.count else budget * (1 + WindowsSince(from, w.start)) + w.count
    else if last < from then 0
    else budget * (1 + WindowsSince(from, last))
  }

  predicate Sound(rows: Rows, key: string, last: nat, budget: nat) {
    key in rows ==> rows[key].start <= last && rows[key].count <= budget
  }

  lemma {:induction false} MoreWindows(from: nat, t: nat, u: nat, budget: nat)
    requires from <= t <= u
    ensures budget * (1 + WindowsSince(from, t)) <= budget * (1 + WindowsSince(from, u))
    ensures t + RATE_WINDOW_MS <= u ==> budget * (1 + WindowsSince(from, t)) + budget <= budget * (1 + WindowsSince(from, u))
  {
    var (a, b) := (1 + WindowsSince(from, t), 1 + WindowsSince(from, u));
    assert a <= b;
    assert budget * b == budget * a + budget * (b - a);
    if t + RATE_WINDOW_MS <= u {
      assert 1 <= b - a;
      assert budget * (b - a) >= budget;
    }
  }

  /** Passing time only raises the credit of a key whose window is gone. */
  lemma {:induction false} AbsentCredit(rows: Rows, key: string, last: nat, now: nat, from: nat, budget: nat)
    requires last <= now && Sound(rows, key, last, budget)
    requires key in rows ==> !IsRunning(rows[key], now)
    ensures from <= now ==> Credit(rows, key, last, from, budget) <= budget * (1 + WindowsSince(from, now))
  {
    if from <= now {
      if key in rows {
        if from <= rows[key].start {
          MoreWindows(from, rows[key].start, now, budget);
        } else {
          MoreWindows(from, from, now, budget);
        }
      } else if from <= last {
        MoreWindows(from, last, now, budget);
      }
    }
  }

  lemma {:induction false} StepCredit(rows: Rows, e: Event, maxKeys: nat, key: string, last: nat, from: nat, budget: nat)
    requires 0 < budget && Sound(rows, key, last, budget)
    requires last <= e.now && (e.Check? ==> (e.key == key ==> e.maxPerMin == budget) && e.victim != Some(key))
    ensures var after := Apply(rows, e, maxKeys);
            && Sound(after, key, e.now, budget)
            && (from <= e.now ==>
                Credit(rows, key, last, from, budget)
                + (if e.Check? && e.key == key && Allows(rows, key, e.now, e.maxPerMin) then 1 else 0)
                <= Credit(after, key, e.now, from, budget))
  {
    if !(key in rows && IsRunning(rows[key], e.now)) {
      AbsentCredit(rows, key, last, e.now, from, budget);
    }
  }

  lemma {:induction false} FewerWindows(from: nat, t: nat, k: nat)
    requires from <= t < from + k * RATE_WINDOW_MS
    ensures 1 + WindowsSince(from, t) <= k
  {
    assert t - from < k * RATE_WINDOW_MS;
  }

  lemma {:induction false} TimesBudget(n: nat, k: nat, budget: nat)
    requires n <= k
    ensures budget * n + budget <= (k + 1) * budget
  {
    assert (k + 1) * budget == budget * n + budget + (k - n) * budget;
    assert 0 <= (k - n) * budget;
  }

  lemma {:induction false} CreditCapped(rows: Rows, key: string, last: nat, from: nat, budget: nat, k: nat)
    requires Sound(rows, key, last, budget) && from <= last < from + k * RATE_WINDOW_MS
    ensures Credit(rows, key, last, from, budget) <= (k + 1) * budget
  {
    var t := if key in rows && from <= rows[key].start then rows[key].start else last;
    FewerWindows(from, t, k);
    TimesBudget(1 + WindowsSince(from, t), k, budget);
    TimesBudget(0, k, budget);
  }

  lemma {:induction false} NoneAfter(rows: Rows, events: seq<Event>, maxKeys: nat, key: string, from: nat, to: nat, last: nat, budget: nat)
    requires to <= last && Steady(last, events, key, budget)
    ensures Admitted(rows, events, maxKeys, key, from, to) == 0
    decreases |events|
  {
    if events != [] {
      NoneAfter(Apply(rows, events[0], maxKeys), events[1..], maxKeys, key, from, to, events[0].now, budget);
    }
  }

  lemma {:induction false} AdmittedWithin(
    rows: Rows, events: seq<Event>, maxKeys: nat, key: string, from: nat, k: nat, last: nat, budget: nat, already: nat)
    requires 0 < budget && Steady(last, events, key, budget) && Sound(rows, key, last, budget)
    requires already <= (k + 1) * budget
    requires if last < from then already == 0 else already <= Credit(rows, key, last, from, budget)
    ensures already + Admitted(rows, events, maxKeys, key, from, from + k * RATE_WINDOW_MS) <= (k + 1) * budget
    decreases |events|
  {
    if events != [] {
      var e := events[0];
      var to := from + k * RATE_WINDOW_MS;
      var after := Apply(rows, e, maxKeys);
      StepCredit(rows, e, maxKeys, key, last, from, budget);
      if to <= e.now {
        NoneAfter(after, events[1..], maxKeys, key, from, to, e.now, budget);
      } else {
        var counted := e.Check? && e.key == key && from <= e.now && Allows(rows, key, e.now, e.maxPerMin);
        var next := already + if counted then 1 else 0;
        if from <= e.now {
          CreditCapped(after, key, e.now, from, budget, k);
        }
        AdmittedWithin(after, events[1..], maxKeys, key, from, k, e.now, budget, next);
      }
    }
  }

  /** Any interval of `k` minutes admits at most `k + 1` budgets of a key that is never evicted. */
  lemma {:induction false} AdmissionBound(events: seq<Event>, maxKeys: nat, key: string, from: nat, k: nat, budget: nat)
    requires 0 < budget && Steady(0, events, key, budget)
    ensures Admitted(map[], events, maxKeys, key, from, from + k * RATE_WINDOW_MS) <= (k + 1) * budget
  {
    assert 0 <= (k + 1) * budget;
    assert 0 <= budget * (1 + WindowsSince(0, 0));
    AdmittedWithin(map[], events, maxKeys, key, from, k, 0, budget, 0);
  }
}
