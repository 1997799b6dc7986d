/** What a rate limit owes a caller: nobody is refused before the budget of the running minute is used up. */
module Budgets {
  import opened Rates
  import opened Words

  /** One request and the verdict it got. */
  datatype Answered = Answered(key: string, now: nat, budget: nat, allowed: bool)

  /** How many requests of `key` a log admits from `from` on. */
  function AdmittedSince(log: seq<Answered>, key: string, from: nat): nat {
    if log == [] then 0
    else
      var last := log[|log| - 1];
      AdmittedSince(log[..|log| - 1], key, from) + if last.key == key && last.allowed && from <= last.now then 1 else 0
  }

  /** Every window of `after` is one of `before`: some may have been pruned, swept or evicted. */
  predicate OnlyForgets(before: Rows, after: Rows) {
    forall k | k in after :: k in before && after[k] == before[k]
  }

  /** A table with nothing forgotten but the request charged to it. */
  function Booked(rows: Rows, a: Answered): Rows {
    if a.budget == 0 || !a.allowed then rows else Charged(rows, a.key, Current(rows, a.key, a.now))
  }

  /** `log` are the verdicts of a table that starts empty, and `tables` what it held around each of them. */
  predicate IsHistory(log: seq<Answered>, tables: seq<Rows>) {
    && |tables| == |log| + 1 && tables[0] == map[]
    && (forall i | 0 <= i < |log| ::
          && log[i].allowed == Allows(tables[i], log[i].key, log[i].now, log[i].budget)
          && OnlyForgets(Booked(tables[i], log[i]), tables[i + 1]))
    && (forall i, j | 0 <= i <= j < |log| :: log[i].now <= log[j].now)
  }

  lemma {:induction false} HistoryPrefix(log: seq<Answered>, tables: seq<Rows>)
    requires IsHistory(log, tables) && log != []
    ensures IsHistory(log[..|log| - 1], tables[..|log|])
  {
  }

  /** Every count in the table is backed by that many admissions since its window began. */
  lemma {:induction false} CountsAreAdmissions(log: seq<Answered>, tables: seq<Rows>, key: string)
    requires IsHistory(log, tables) && key in tables[|log|]
    ensures var w := tables[|log|][key]; log != [] && w.start <= log[|log| - 1].now && w.count <= AdmittedSince(log, key, w.start)
    decreases |log|
  {
    var n := |log| - 1;
    HistoryPrefix(log, tables);
    assert OnlyForgets(Booked(tables[n], log[n]), tables[n + 1]);
    if key in tables[n] {
      CountsAreAdmissions(log[..n], tables[..n + 1], key);
      assert log[n - 1].now <= log[n].now;
    }
  }

  /**
   A request is refused only when its whole budget was spent: at least that many requests of its key were admitted in
   a window that began less than 60,000 ms before it. A budget of 0 never refuses.
   */
  lemma {:induction false} RefusedOnlyWhenSpent(log: seq<Answered>, tables: seq<Rows>, i: nat)
    requires IsHistory(log, tables) && i < |log| && !log[i].allowed
    ensures 0 < log[i].budget
    ensures exists from: nat :: from <= log[i].now < from + 60_000 && log[i].budget <= AdmittedSince(log[..i], log[i].key, from)
  {
    var (key, now) := (log[i].key, log[i].now);
    assert IsHistory(log[..i], tables[..i + 1]);
    assert key in tables[i];
    var w := tables[i][key];
    CountsAreAdmissions(log[..i], tables[..i + 1], key);
    assert log[i - 1].now <= now;
    assert w.start <= now < w.start + 60_000 && log[i].budget <= AdmittedSince(log[..i], key, w.start);
  }

  lemma {:induction false} LaterAdmitsFewer(log: seq<Answered>, key: string, from: nat, later: nat)
    requires from <= later
    ensures AdmittedSince(log, key, later) <= AdmittedSince(log, key, from)
    decreases |log|
  {
    if log != [] {
      LaterAdmitsFewer(log[..|log| - 1], key, from, later);
    }
  }

  /**
   So as long as fewer than `budget` requests of a key were admitted within the last 60,000 ms, the next one is let
   in: on an empty table, or a minute after the last admission, the next `budget` requests all are.
   */
  lemma {:induction false} LetInWithinBudget(log: seq<Answered>, tables: seq<Rows>, i: nat)
    requires IsHistory(log, tables) && i < |log|
    requires log[i].budget == 0 || AdmittedSince(log[..i], log[i].key, SaturatingSub(log[i].now, 59_999)) < log[i].budget
    ensures log[i].allowed
  {
    if !log[i].allowed {
      RefusedOnlyWhenSpent(log, tables, i);
      var from: nat :| from <= log[i].now < from + 60_000 && log[i].budget <= AdmittedSince(log[..i], log[i].key, from);
      LaterAdmitsFewer(log[..i], log[i].key, SaturatingSub(log[i].now, 59_999), from);
    }
  }

  // ---- The exact verdict while a key's window is not evicted ----

  /** The minute a key is in, and how much of it is spent, read off the verdicts alone. */
  function Minute(log: seq<Answered>, key: string): Option<Window> {
    if log == [] then None
    else
      var (last, before) := (log[|log| - 1], Minute(log[..|log| - 1], key));
      if last.key != key || !last.allowed || last.budget == 0 then before
      else if before.Some? && last.now < before.value.start + 60_000 then Some(Window(before.value.start, before.value.count + 1))
      else Some(Window(last.now, 1))
  }

  function Spent(log: seq<Answered>, key: string, now: nat): nat {
    var minute := Minute(log, key);
    if minute.Some? && now < minute.value.start + 60_000 then minute.value.count else 0
  }

  /** Only ended windows of `key` are dropped between one request and the next. */
  predicate NeverEvicts(log: seq<Answered>, tables: seq<Rows>, key: string)
    requires IsHistory(log, tables)
  {
    forall i | 0 <= i < |log| - 1 ::
      var booked := Booked(tables[i], log[i]);
      key in booked && log[i + 1].now < booked[key].start + 60_000 ==> key in tables[i + 1]
  }

  lemma {:induction false} MinuteIsTable(log: seq<Answered>, tables: seq<Rows>, key: string, i: nat)
    requires IsHistory(log, tables) && NeverEvicts(log, tables, key) && i < |log|
    ensures key in tables[i] ==> tables[i][key].start <= log[i].now
    ensures Minute(log[..i], key).Some? ==> Minute(log[..i], key).value.start <= log[i].now
    ensures var (minute, now) := (Minute(log[..i], key), log[i].now);
            && ((key in tables[i] && now < tables[i][key].start + 60_000) <==> (minute.Some? && now < minute.value.start + 60_000))
            && (key in tables[i] && now < tables[i][key].start + 60_000 ==> tables[i][key] == minute.value)
    decreases i
  {
    if 0 < i {
      MinuteIsTable(log, tables, key, i - 1);
      assert log[..i][..i - 1] == log[..i - 1];
      var booked := Booked(tables[i - 1], log[i - 1]);
      assert OnlyForgets(booked, tables[i - 1 + 1]);
      assert log[i - 1].now <= log[i].now;
      assert key in booked && log[i - 1 + 1].now < booked[key].start + 60_000 ==> key in tables[i - 1 + 1];
    }
  }

  /**
   While the window of a key is not evicted, its verdicts are exactly those of the budget: it is let in if and only if
   less than the budget is spent in the minute its first admission opened.
   */
  lemma {:induction false} VerdictExactly(log: seq<Answered>, tables: seq<Rows>, i: nat)
    requires IsHistory(log, tables) && i < |log| && NeverEvicts(log, tables, log[i].key)
    ensures log[i].allowed <==> log[i].budget == 0 || Spent(log[..i], log[i].key, log[i].now) < log[i].budget
  {
    MinuteIsTable(log, tables, log[i].key, i);
  }

  // ---- The two tables only ever forget ----

  lemma {:induction false} PrunesForget(rows: Rows, times: seq<nat>)
    ensures OnlyForgets(rows, PruneAll(rows, times))
    decreases |times|
  {
    if times != [] {
      PrunesForget(Running(rows, times[0]), times[1..]);
    }
  }

  /** One request to the capped table, whichever window it gives up, and any prunes after it. */
  ghost predicate CappedStep(before: Rows, a: Answered, after: Rows, maxKeys: nat) {
    exists victim, times :: after == PruneAll(CheckRows(before, a.key, a.now, a.budget, maxKeys, victim), times)
  }

  /** One request to the Durable Object's table, swept or not, and any prunes after it. */
  ghost predicate SweptStep(before: Rows, a: Answered, after: Rows) {
    exists coin, times :: after == PruneAll(SweptCheckRows(before, a.key, a.now, a.budget, coin), times)
  }

  /** A run of requests to one of the two tables, from an empty one, with a clock that does not go back. */
  ghost predicate IsLog(log: seq<Answered>, tables: seq<Rows>, maxKeys: nat) {
    && |tables| == |log| + 1 && tables[0] == map[]
    && (forall i | 0 <= i < |log| ::
          && log[i].allowed == Allows(tables[i], log[i].key, log[i].now, log[i].budget)
          && (CappedStep(tables[i], log[i], tables[i + 1], maxKeys) || SweptStep(tables[i], log[i], tables[i + 1])))
    && (forall i, j | 0 <= i <= j < |log| :: log[i].now <= log[j].now)
  }

  lemma {:induction false} StepForgets(before: Rows, a: Answered, after: Rows, maxKeys: nat)
    requires CappedStep(before, a, after, maxKeys) || SweptStep(before, a, after)
    requires a.allowed == Allows(before, a.key, a.now, a.budget)
    ensures OnlyForgets(Booked(before, a), after)
  {
    if CappedStep(before, a, after, maxKeys) {
      var victim, times :| after == PruneAll(CheckRows(before, a.key, a.now, a.budget, maxKeys, victim), times);
      PrunesForget(CheckRows(before, a.key, a.now, a.budget, maxKeys, victim), times);
    } else {
      var coin, times :| after == PruneAll(SweptCheckRows(before, a.key, a.now, a.budget, coin), times);
      PrunesForget(SweptCheckRows(before, a.key, a.now, a.budget, coin), times);
    }
  }

  lemma {:induction false} LogsAreHistories(log: seq<Answered>, tables: seq<Rows>, maxKeys: nat)
    requires IsLog(log, tables, maxKeys)
    ensures IsHistory(log, tables)
  {
    forall i | 0 <= i < |log|
      ensures OnlyForgets(Booked(tables[i], log[i]), tables[i + 1])
    {
      StepForgets(tables[i], log[i], tables[i + 1], maxKeys);
    }
  }

  /** Both tables, whatever they evict, prune or sweep, let every request in until its budget is spent. */
  lemma {:induction false} BothLetInWithinBudget(log: seq<Answered>, tables: seq<Rows>, maxKeys: nat, i: nat)
    requires IsLog(log, tables, maxKeys) && i < |log|
    ensures !log[i].allowed ==>
      && 0 < log[i].budget
      && exists from: nat :: from <= log[i].now < from + 60_000 && log[i].budget <= AdmittedSince(log[..i], log[i].key, from)
    ensures AdmittedSince(log[..i], log[i].key, SaturatingSub(log[i].now, 59_999)) < log[i].budget ==> log[i].allowed
  {
    LogsAreHistories(log, tables, maxKeys);
    if !log[i].allowed {
      RefusedOnlyWhenSpent(log, tables, i);
    }
    if AdmittedSince(log[..i], log[i].key, SaturatingSub(log[i].now, 59_999)) < log[i].budget {
      LetInWithinBudget(log, tables, i);
    }
  }
}
