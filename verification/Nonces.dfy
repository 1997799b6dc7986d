/** The challenge nonces: a capped map with deadlines, taken at most once, and its whole histories. */
module Nonces {
  import opened Words
  import opened Soonest

  /** Nonce to deadline. */
  type Rows = map<string, nat>

  function Retain(rows: Rows, now: nat): Rows {
    map k | k in rows && now < rows[k] :: rows[k]
  }

  /** A full table gives up one soonest-to-expire nonce. */
  predicate IsVictim(rows: Rows, maxEntries: nat, victim: Option<string>) {
    var full := Max(maxEntries, 1) <= |rows|;
    match victim
    case Some(v) => full && IsSoonest(rows, v)
    case None => !full
  }

  function IssueRows(rows: Rows, nonce: string, now: nat, expiryMs: nat, victim: Option<string>): Rows {
    Without(Retain(rows, now), victim)[nonce := expiryMs]
  }

  predicate TakeAnswer(rows: Rows, nonce: string, now: nat) {
    nonce in rows && now < rows[nonce]
  }

  class NonceTable {
    var rows: Rows

    constructor ()
      ensures rows == map[]
    {
      rows := map[];
    }

    method Issue(nonce: string, now: u64, ttlSecs: u64, maxEntries: nat)
      returns (expiry: nat, ghost victim: Option<string>)
      modifies this
      ensures IsVictim(Retain(old(rows), now), maxEntries, victim)
      ensures expiry == ExpiryMs(now, ttlSecs, U64_MAX)
      ensures rows == IssueRows(old(rows), nonce, now, expiry, victim)
    {
      victim := None;
      rows := Retain(rows, now);
      if Max(maxEntries, 1) <= |rows| {
        SoonestExists(rows);
        var oldest :| oldest in rows && IsSoonest(rows, oldest);
        victim := Some(oldest);
        rows := Without(rows, Some(oldest));
      }
      expiry := ExpiryMs(now, ttlSecs, U64_MAX);
      rows := rows[nonce := expiry];
    }

    method TakeIfValid(nonce: string, now: u64) returns (valid: bool)
      modifies this
      ensures valid == TakeAnswer(old(rows), nonce, now)
      ensures rows == Without(old(rows), Some(nonce))
    {
      if nonce in rows {
        var expiry := rows[nonce];
        rows := Without(rows, Some(nonce));
        valid := now < expiry;
      } else {
        valid := false;
        assert rows == Without(rows, Some(nonce));
      }
    }

    method Prune(now: u64)
      modifies this
      ensures rows == Retain(old(rows), now)
    {
      rows := Retain(rows, now);
    }
  }

  // ---- Histories ----

  datatype Event =
    | Issue(nonce: string, now: nat, expiryMs: nat, victim: Option<string>)
    | Take(nonce: string, now: nat)
    | Prune(now: nat)

  predicate Possible(rows: Rows, maxEntries: nat, e: Event) {
    e.Issue? ==> IsVictim(Retain(rows, e.now), maxEntries, e.victim)
  }

  function Apply(rows: Rows, e: Event): Rows {
    match e
    case Issue(nonce, now, expiryMs, victim) => IssueRows(rows, nonce, now, expiryMs, victim)
    case Take(nonce, _) => Without(rows, Some(nonce))
    case Prune(now) => Retain(rows, now)
  }

  function Run(rows: Rows, events: seq<Event>): Rows
    decreases |events|
  {
    if events == [] then rows else Run(Apply(rows, events[0]), events[1..])
  }

  predicate PossibleRun(rows: Rows, maxEntries: nat, events: seq<Event>)
    decreases |events|
  {
    events == [] || (Possible(rows, maxEntries, events[0]) && PossibleRun(Apply(rows, events[0]), maxEntries, events[1..]))
  }

  /** How often `nonce` was issued. */
  function IssuesOf(events: seq<Event>, nonce: string): nat {
    if events == [] then 0
    else (if events[0].Issue? && events[0].nonce == nonce then 1 else 0) + IssuesOf(events[1..], nonce)
  }

  /** How often `nonce` was taken successfully. */
  function TakesOf(rows: Rows, events: seq<Event>, nonce: string): nat
    decreases |events|
  {
    if events == [] then 0
    else (if events[0].Take? && events[0].nonce == nonce && TakeAnswer(rows, nonce, events[0].now) then 1 else 0)
         + TakesOf(Apply(rows, events[0]), events[1..], nonce)
  }

  function Issues(events: seq<Event>): nat {
    if events == [] then 0 else (if events[0].Issue? then 1 else 0) + Issues(events[1..])
  }

  function Takes(rows: Rows, events: seq<Event>): nat
    decreases |events|
  {
    if events == [] then 0
    else (if events[0].Take? && TakeAnswer(rows, events[0].nonce, events[0].now) then 1 else 0)
         + Takes(Apply(rows, events[0]), events[1..])
  }

  /** Each issue of a nonce pays for at most one successful take, whatever is evicted, pruned or replayed. */
  lemma {:induction false} TakenAtMostOncePerIssue(rows: Rows, events: seq<Event>, nonce: string)
    ensures TakesOf(rows, events, nonce) + (if nonce in Run(rows, events) then 1 else 0)
            <= IssuesOf(events, nonce) + (if nonce in rows then 1 else 0)
    decreases |events|
  {
    if events != [] {
      TakenAtMostOncePerIssue(Apply(rows, events[0]), events[1..], nonce);
    }
  }

  lemma {:induction false} ApplySize(rows: Rows, e: Event)
    ensures |Apply(rows, e)| + (if e.Take? && TakeAnswer(rows, e.nonce, e.now) then 1 else 0)
            <= |rows| + if e.Issue? then 1 else 0
  {
    var after := Apply(rows, e);
    match e
    case Issue(nonce, now, _, victim) =>
      assert after.Keys <= rows.Keys + {nonce};
      SubsetSize(after.Keys, rows.Keys + {nonce});
    case Take(nonce, _) =>
      assert after.Keys == rows.Keys - {nonce};
    case Prune(_) =>
      SubsetSize(after.Keys, rows.Keys);
  }

  /** Conservation: successful takes plus nonces still stored never exceed the nonces issued. */
  lemma {:induction false} Conservation(rows: Rows, events: seq<Event>)
    ensures Takes(rows, events) + |Run(rows, events)| <= Issues(events) + |rows|
    decreases |events|
  {
    if events != [] {
      ApplySize(rows, events[0]);
      Conservation(Apply(rows, events[0]), events[1..]);
    }
  }

  /** After a challenge or a prune nothing that has expired is stored, and nothing else that has not is gone. */
  lemma {:induction false} NothingExpiredStays(rows: Rows, e: Event, k: string)
    requires e.Issue? || e.Prune?
    requires e.Issue? ==> k != e.nonce && e.victim != Some(k)
    ensures k in Apply(rows, e) <==> k in rows && e.now < rows[k]
    ensures k in Apply(rows, e) ==> Apply(rows, e)[k] == rows[k]
  {
  }

  // ---- The cap ----

  predicate WithinCap(rows: Rows, maxEntries: nat) {
    |rows| <= Max(maxEntries, 1)
  }

  lemma {:induction false} RetainFits(rows: Rows, now: nat)
    ensures |Retain(rows, now)| <= |rows|
  {
    SubsetSize(Retain(rows, now).Keys, rows.Keys);
  }

  lemma {:induction false} RoomMade(live: Rows, maxEntries: nat, victim: Option<string>)
    requires WithinCap(live, maxEntries) && IsVictim(live, maxEntries, victim)
    ensures |Without(live, victim)| < Max(maxEntries, 1)
  {
    if victim.Some? {
      assert Without(live, victim).Keys == live.Keys - {victim.value};
    }
  }

  lemma {:induction false} ApplyWithinCap(rows: Rows, maxEntries: nat, e: Event)
    requires WithinCap(rows, maxEntries) && Possible(rows, maxEntries, e)
    ensures WithinCap(Apply(rows, e), maxEntries)
  {
    match e
    case Issue(nonce, now, expiryMs, victim) =>
      RetainFits(rows, now);
      RoomMade(Retain(rows, now), maxEntries, victim);
      assert Apply(rows, e).Keys == Without(Retain(rows, now), victim).Keys + {nonce};
    case Take(nonce, _) =>
      SubsetSize(Apply(rows, e).Keys, rows.Keys);
    case Prune(now) =>
      RetainFits(rows, now);
  }

  /** Over every run the table never holds more than max(cap, 1) nonces. */
  lemma {:induction false} RunWithinCap(rows: Rows, maxEntries: nat, events: seq<Event>)
    requires WithinCap(rows, maxEntries) && PossibleRun(rows, maxEntries, events)
    ensures |Run(rows, events)| <= Max(maxEntries, 1)
    decreases |events|
  {
    if events != [] {
      ApplyWithinCap(rows, maxEntries, events[0]);
      RunWithinCap(Apply(rows, events[0]), maxEntries, events[1..]);
    }
  }

  // ---- How much it takes to push a live nonce out ----

  /** Every (nonce, deadline) the history issued. */
  function Issued(events: seq<Event>): set<(string, nat)> {
    if events == [] then {}
    else (if events[0].Issue? then {(events[0].nonce, events[0].expiryMs)} else {}) + Issued(events[1..])
  }

  /** Nonces other than `nonce` issued with a deadline no earlier than `expiryMs`. */
  function Rivals(issued: set<(string, nat)>, nonce: string, expiryMs: nat): set<string> {
    set p | p in issued && p.0 != nonce && expiryMs <= p.1 :: p.0
  }

  /** One time to live, a clock that does not go back from `last`, nonces not already stored. */
  predicate Orderly(rows: Rows, ttlSecs: nat, top: nat, last: nat, events: seq<Event>)
    decreases |events|
  {
    events == [] ||
    (var e := events[0];
     && last <= e.now
     && (e.Issue? ==> e.expiryMs == ExpiryMs(e.now, ttlSecs, top) && e.nonce !in rows)
     && Orderly(Apply(rows, e), ttlSecs, top, e.now, events[1..]))
  }

  /** The step that evicts a live nonce leaves at least a whole table of longer-lived others behind. */
  lemma {:induction false} EvictionNeedsRivals(rows: Rows, maxEntries: nat, e: Event, nonce: string, known: set<(string, nat)>)
    requires e.Issue? && Possible(rows, maxEntries, e) && e.nonce !in rows
    requires nonce in rows && e.now < rows[nonce] <= e.expiryMs && nonce !in Apply(rows, e)
    requires rows.Items <= known
    ensures Max(maxEntries, 1) <= |Rivals(known + {(e.nonce, e.expiryMs)}, nonce, rows[nonce])|
  {
    var live := Retain(rows, e.now);
    assert e.victim == Some(nonce);
    var others := live.Keys - {nonce} + {e.nonce};
    assert |others| == |live|;
    var rivals := Rivals(known + {(e.nonce, e.expiryMs)}, nonce, rows[nonce]);
    forall k | k in others
      ensures k in rivals
    {
      var p := (k, if k == e.nonce then e.expiryMs else rows[k]);
      if k != e.nonce {
        assert p in rows.Items;
      }
      assert p in known + {(e.nonce, e.expiryMs)} && p.0 != nonce && rows[nonce] <= p.1;
    }
    SubsetSize(others, rivals);
  }

  lemma {:induction false} RivalsGrow(a: set<(string, nat)>, b: set<(string, nat)>, nonce: string, expiryMs: nat)
    requires a <= b
    ensures |Rivals(a, nonce, expiryMs)| <= |Rivals(b, nonce, expiryMs)|
  {
    SubsetSize(Rivals(a, nonce, expiryMs), Rivals(b, nonce, expiryMs));
  }

  lemma {:induction false} ItemsKnown(rows: Rows, e: Event, known: set<(string, nat)>)
    requires rows.Items <= known
    ensures Apply(rows, e).Items <= known + Issued([e])
  {
    var after := Apply(rows, e);
    forall p | p in after.Items
      ensures p in known + Issued([e])
    {
      if e.Issue? && p.0 == e.nonce {
        assert p == (e.nonce, e.expiryMs);
      } else {
        assert p in rows.Items;
      }
    }
  }

  lemma {:induction false} StaysUnlessCrowdedOut(
    rows: Rows, maxEntries: nat, ttlSecs: nat, top: nat, last: nat, events: seq<Event>, nonce: string, known: set<(string, nat)>)
    requires PossibleRun(rows, maxEntries, events) && Orderly(rows, ttlSecs, top, last, events)
    requires rows.Items <= known
    requires nonce in rows && rows[nonce] <= ExpiryMs(last, ttlSecs, top)
    requires forall e | e in events :: e.now < rows[nonce] && !(e.Take? && e.nonce == nonce)
    ensures || (nonce in Run(rows, events) && Run(rows, events)[nonce] == rows[nonce])
            || Max(maxEntries, 1) <= |Rivals(known + Issued(events), nonce, rows[nonce])|
    decreases |events|
  {
    if events != [] {
      var e := events[0];
      assert e in events;
      var next := Apply(rows, e);
      assert known + Issued([e]) + Issued(events[1..]) == known + Issued(events);
      if nonce in next {
        ItemsKnown(rows, e, known);
        StaysUnlessCrowdedOut(next, maxEntries, ttlSecs, top, e.now, events[1..], nonce, known + Issued([e]));
      } else {
        EvictionNeedsRivals(rows, maxEntries, e, nonce, known);
        assert Issued([e]) == {(e.nonce, e.expiryMs)};
        RivalsGrow(known + Issued([e]), known + Issued(events), nonce, rows[nonce]);
      }
    }
  }

  function LastTime(last: nat, events: seq<Event>): nat {
    if events == [] then last else events[|events| - 1].now
  }

  lemma {:induction false} RunSplits(rows: Rows, maxEntries: nat, a: seq<Event>, b: seq<Event>)
    requires PossibleRun(rows, maxEntries, a + b)
    ensures PossibleRun(Run(rows, a), maxEntries, b)
    ensures Run(rows, a + b) == Run(Run(rows, a), b)
    ensures Issued(a + b) == Issued(a) + Issued(b)
    decreases |a|
  {
    if a == [] {
      assert a + b == b;
    } else {
      assert (a + b)[1..] == a[1..] + b;
      RunSplits(Apply(rows, a[0]), maxEntries, a[1..], b);
    }
  }

  lemma {:induction false} OrderSplits(rows: Rows, ttlSecs: nat, top: nat, last: nat, a: seq<Event>, b: seq<Event>)
    requires Orderly(rows, ttlSecs, top, last, a + b)
    ensures Orderly(Run(rows, a), ttlSecs, top, LastTime(last, a), b)
    decreases |a|
  {
    if a == [] {
      assert a + b == b;
    } else {
      assert (a + b)[1..] == a[1..] + b;
      OrderSplits(Apply(rows, a[0]), ttlSecs, top, a[0].now, a[1..], b);
    }
  }

  lemma {:induction false} RunItemsKnown(rows: Rows, events: seq<Event>, known: set<(string, nat)>)
    requires rows.Items <= known
    ensures Run(rows, events).Items <= known + Issued(events)
    decreases |events|
  {
    if events != [] {
      ItemsKnown(rows, events[0], known);
      RunItemsKnown(Apply(rows, events[0]), events[1..], known + Issued([events[0]]));
      assert known + Issued([events[0]]) + Issued(events[1..]) == known + Issued(events);
    }
  }

  /** From the issuing step on. */
  lemma {:induction false} IssuedThenMissing(
    start: Rows, maxEntries: nat, ttlSecs: nat, top: nat, last: nat, rest: seq<Event>, known: set<(string, nat)>)
    requires rest != [] && rest[0].Issue?
    requires PossibleRun(start, maxEntries, rest) && Orderly(start, ttlSecs, top, last, rest)
    requires start.Items <= known
    requires forall e | e in rest[1..] :: e.now < rest[0].expiryMs && !(e.Take? && e.nonce == rest[0].nonce)
    ensures || (rest[0].nonce in Run(start, rest) && Run(start, rest)[rest[0].nonce] == rest[0].expiryMs)
            || Max(maxEntries, 1) <= |Rivals(known + Issued(rest), rest[0].nonce, rest[0].expiryMs)|
  {
    var issue, after := rest[0], rest[1..];
    ItemsKnown(start, issue, known);
    assert known + Issued([issue]) + Issued(after) == known + Issued(rest);
    StaysUnlessCrowdedOut(Apply(start, issue), maxEntries, ttlSecs, top, issue.now, after, issue.nonce, known + Issued([issue]));
  }

  lemma {:induction false} StartKnown(before: seq<Event>)
    ensures Run(map[], before).Items <= Issued(before)
  {
    RunItemsKnown(map[], before, {});
    assert {} + Issued(before) == Issued(before);
  }

  /**
   A nonce that is neither taken nor expired can only be missing when the history issued at least `cap`
   other nonces that expire no earlier.
   */
  lemma {:induction false} MissingOnlyWhenCrowdedOut(maxEntries: nat, ttlSecs: nat, top: nat, before: seq<Event>, rest: seq<Event>)
    requires rest != [] && rest[0].Issue?
    requires PossibleRun(map[], maxEntries, before + rest) && Orderly(map[], ttlSecs, top, 0, before + rest)
    requires forall e | e in rest[1..] :: e.now < rest[0].expiryMs && !(e.Take? && e.nonce == rest[0].nonce)
    ensures var (nonce, expiryMs, end) := (rest[0].nonce, rest[0].expiryMs, Run(map[], before + rest));
            || (nonce in end && end[nonce] == expiryMs)
            || Max(maxEntries, 1) <= |Rivals(Issued(before + rest), nonce, expiryMs)|
  {
    RunSplits(map[], maxEntries, before, rest);
    OrderSplits(map[], ttlSecs, top, 0, before, rest);
    StartKnown(before);
    var start := Run(map[], before);
    IssuedThenMissing(start, maxEntries, ttlSecs, top, LastTime(0, before), rest, Issued(before));
  }

  // ---- What a caller may rely on ----

  lemma {:induction false} TimesAfter(rows: Rows, ttlSecs: nat, top: nat, last: nat, a: seq<Event>, b: seq<Event>)
    requires Orderly(rows, ttlSecs, top, last, a + b) && b != [] && b[0].Issue?
    ensures b[0].expiryMs == ExpiryMs(b[0].now, ttlSecs, top)
  {
    OrderSplits(rows, ttlSecs, top, last, a, b);
  }

  /**
   A nonce issued, not taken since and not crowded out by `cap` others that expire no earlier is accepted at any
   moment before its time to live is over.
   */
  lemma {:induction false} AcceptedInTime(
    maxEntries: nat, ttlSecs: nat, top: nat, before: seq<Event>, issue: Event, after: seq<Event>, now: nat)
    requires issue.Issue?
    requires PossibleRun(map[], maxEntries, before + ([issue] + after))
    requires Orderly(map[], ttlSecs, top, 0, before + ([issue] + after))
    requires forall e | e in after :: e.now <= now && !(e.Take? && e.nonce == issue.nonce)
    requires issue.now + ttlSecs * 1000 <= top && now < issue.now + ttlSecs * 1000
    requires |Rivals(Issued(before + ([issue] + after)), issue.nonce, issue.now + ttlSecs * 1000)| < Max(maxEntries, 1)
    ensures TakeAnswer(Run(map[], before + ([issue] + after)), issue.nonce, now)
  {
    var rest := [issue] + after;
    assert rest[1..] == after;
    TimesAfter(map[], ttlSecs, top, 0, before, rest);
    ExpiryInRange(issue.now, ttlSecs, top);
    MissingOnlyWhenCrowdedOut(maxEntries, ttlSecs, top, before, rest);
  }

  /** What is stored was issued with that deadline. */
  lemma {:induction false} StoredWasIssued(events: seq<Event>, nonce: string)
    requires nonce in Run(map[], events)
    ensures (nonce, Run(map[], events)[nonce]) in Issued(events)
  {
    StartKnown(events);
    assert (nonce, Run(map[], events)[nonce]) in Run(map[], events).Items;
  }

  /** A nonce is accepted only before a deadline it was issued with. */
  lemma {:induction false} AcceptedWasIssued(events: seq<Event>, nonce: string, now: nat)
    requires TakeAnswer(Run(map[], events), nonce, now)
    ensures exists expiryMs: nat :: (nonce, expiryMs) in Issued(events) && now < expiryMs
  {
    StoredWasIssued(events, nonce);
  }
}
