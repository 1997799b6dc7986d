/** Does an address own a usable pass: the paginated scan, and the cache in front of it. */
module Ownership {
  import opened Words
  import opened Soonest
  import opened ChainResponses
  import opened ProtoWire

  /** Pages read before a listing is judged too long to decide. */
  const MAX_PAGES: nat := 100

  /** Answers the cache keeps. */
  const MAX_ENTRIES: nat := 10_000

  // ---- The listing ----

  /** What the node answers for a page token; `None` is a failed call. */
  type Node = Option<Bytes> -> Option<Bytes>

  /** How a page is read: whether it holds a wanted pass, and where the next page starts. */
  datatype Reading = Reading(holds: Bytes -> bool, next: Bytes -> Option<Bytes>)

  /** The gateway's reading, for one gate. */
  function PassesFor(forms: Forms, gate: Option<Bytes>): Reading {
    Reading(resp => ResponseHasOwned(forms, resp, gate), resp => NextToken(resp))
  }

  /** The token page `k` is asked for with; `None` past the end of the listing. */
  function Cursor(node: Node, page: Reading, k: nat): Option<Option<Bytes>> {
    if k == 0 then Some(None)
    else
      match Cursor(node, page, k - 1)
      case None => None
      case Some(token) =>
        match node(token)
        case None => None
        case Some(resp) => match page.next(resp) case None => None case Some(t) => Some(Some(t))
  }

  /** Page `k` of the listing, if there is one and the node answers for it. */
  function PageAt(node: Node, page: Reading, k: nat): Option<Bytes> {
    match Cursor(node, page, k) case None => None case Some(token) => node(token)
  }

  predicate PassOnPage(node: Node, page: Reading, k: nat) {
    PageAt(node, page, k).Some? && page.holds(PageAt(node, page, k).value)
  }

  /** Some page of the whole listing holds a usable pass. */
  ghost predicate HasPass(node: Node, page: Reading) {
    exists k: nat :: PassOnPage(node, page, k)
  }

  lemma {:induction false} EndsForGood(node: Node, page: Reading, n: nat, k: nat)
    requires Cursor(node, page, n) == None && n <= k
    ensures Cursor(node, page, k) == None
    decreases k
  {
    if n < k {
      EndsForGood(node, page, n, k - 1);
    }
  }

  /** Nothing follows the page that leads nowhere. */
  lemma {:induction false} NothingAfter(node: Node, page: Reading, n: nat)
    requires Cursor(node, page, n) == None && forall k: nat | k < n :: !PassOnPage(node, page, k)
    ensures !HasPass(node, page)
  {
    forall k: nat
      ensures !PassOnPage(node, page, k)
    {
      if n <= k {
        EndsForGood(node, page, n, k);
      }
    }
  }

  lemma {:induction false} WrittenPage(node: Node, p: Page, forms: Forms, gate: Option<Bytes>, k: nat)
    requires |Encode(p.wire)| <= U64_MAX && p.WellFormed()
    requires PageAt(node, PassesFor(forms, gate), k) == Some(Encode(p.wire))
    ensures PassOnPage(node, PassesFor(forms, gate), k) <==> exists o | o in p.objects :: Grants(forms, o, gate)
  {
    OwnedExactly(forms, p, gate);
  }

  /** A listing of written pages holds a pass exactly when some object on some page is one. */
  lemma {:induction false} WrittenListing(node: Node, pages: seq<Page>, forms: Forms, gate: Option<Bytes>)
    requires forall i | 0 <= i < |pages| ::
               && |Encode(pages[i].wire)| <= U64_MAX && pages[i].WellFormed()
               && PageAt(node, PassesFor(forms, gate), i) == Some(Encode(pages[i].wire))
    requires Cursor(node, PassesFor(forms, gate), |pages|) == None
    ensures HasPass(node, PassesFor(forms, gate))
            <==> exists i, o | 0 <= i < |pages| && o in pages[i].objects :: Grants(forms, o, gate)
  {
    var page := PassesFor(forms, gate);
    if k: nat :| PassOnPage(node, page, k) {
      if |pages| <= k {
        EndsForGood(node, page, |pages|, k);
      }
      WrittenPage(node, pages[k], forms, gate, k);
    }
    if i, o :| 0 <= i < |pages| && o in pages[i].objects && Grants(forms, o, gate) {
      WrittenPage(node, pages[i], forms, gate, i);
    }
  }

  // ---- The scan ----

  datatype ScanError = TimedOut | CallFailed | TooLong

  /** Page `i` is read, holds no pass and leads on. */
  predicate Quiet(node: Node, page: Reading, i: nat) {
    && PageAt(node, page, i).Some? && !page.holds(PageAt(node, page, i).value)
    && page.next(PageAt(node, page, i).value).Some?
  }

  lemma {:induction false} QuietUpTo(node: Node, page: Reading, n: nat)
    requires forall i: nat | i < n :: Quiet(node, page, i)
    ensures forall k: nat | k < n :: !PassOnPage(node, page, k)
    ensures Cursor(node, page, n).Some?
  {
    assert 0 < n ==> Quiet(node, page, n - 1);
    forall k: nat | k < n
      ensures !PassOnPage(node, page, k)
    {
      assert Quiet(node, page, k);
    }
  }

  /** `clock(0)` is read when a scan starts, `clock(i + 1)` before its call `i`: more than the time-out after. */
  predicate Late(clock: nat -> nat, timeoutMs: nat, i: nat) {
    clock(0) + timeoutMs < clock(i + 1)
  }

  /** How a scan of `calls` calls ends: all of them in time, and all but the last for pages that lead on. */
  ghost predicate ScanEnds(
    node: Node, page: Reading, clock: nat -> nat, timeoutMs: nat, r: Result<bool, ScanError>, calls: nat)
  {
    && calls <= 100
    && (forall i: nat | i < calls :: !Late(clock, timeoutMs, i))
    && (forall i: nat | i + 1 < calls :: Quiet(node, page, i))
    && match r
       case Success(owns) =>
         && 0 < calls && PageAt(node, page, calls - 1).Some?
         && (owns <==> page.holds(PageAt(node, page, calls - 1).value))
         && (owns || page.next(PageAt(node, page, calls - 1).value) == None)
       case Failure(CallFailed) =>
         0 < calls && Cursor(node, page, calls - 1).Some? && node(Cursor(node, page, calls - 1).value) == None
       case Failure(TimedOut) => calls < 100 && (0 < calls ==> Quiet(node, page, calls - 1)) && Late(clock, timeoutMs, calls)
       case Failure(TooLong) => calls == 100 && Quiet(node, page, 99)
  }

  method ScanOwned(node: Node, page: Reading, clock: nat -> nat, timeoutMs: nat)
    returns (r: Result<bool, ScanError>, calls: nat)
    ensures calls <= MAX_PAGES
    ensures r.Success? ==> (r.value <==> HasPass(node, page))
    ensures r == Failure(TimedOut) ==> timeoutMs < SaturatingSub(clock(calls + 1), clock(0))
    ensures r == Failure(CallFailed) ==> 0 < calls && Cursor(node, page, calls - 1).Some? && PageAt(node, page, calls - 1) == None
    ensures r == Failure(TooLong) ==> calls == MAX_PAGES && Cursor(node, page, calls).Some?
                                      && forall k: nat | k < calls :: !PassOnPage(node, page, k)
    ensures ScanEnds(node, page, clock, timeoutMs, r, calls)
  {
    var started := clock(0);
    var token: Option<Bytes> := None;
    calls := 0;
    for i := 0 to MAX_PAGES
      invariant calls == i && Cursor(node, page, i) == Some(token)
      invariant forall k: nat | k < i :: Quiet(node, page, k) && !Late(clock, timeoutMs, k)
    {
      if timeoutMs < SaturatingSub(clock(i + 1), started) {
        return Failure(TimedOut), calls;
      }
      var resp := node(token);
      calls := calls + 1;
      if resp == None {
        return Failure(CallFailed), calls;
      }
      if page.holds(resp.value) {
        assert PassOnPage(node, page, i);
        return Success(true), calls;
      }
      var next := page.next(resp.value);
      if next == None {
        QuietUpTo(node, page, i);
        NothingAfter(node, page, i + 1);
        return Success(false), calls;
      }
      token := Some(next.value);
    }
    QuietUpTo(node, page, calls);
    r := Failure(TooLong);
  }

  /** No two endings fit one node and one clock. */
  lemma {:induction false} OneEnding(
    node: Node, page: Reading, clock: nat -> nat, timeoutMs: nat,
    r: Result<bool, ScanError>, calls: nat, r': Result<bool, ScanError>, calls': nat)
    requires ScanEnds(node, page, clock, timeoutMs, r, calls) && ScanEnds(node, page, clock, timeoutMs, r', calls')
    ensures r == r' && calls == calls'
  {
    var (late, late') := (Late(clock, timeoutMs, calls), Late(clock, timeoutMs, calls'));
    var quiet := 0 < calls && Quiet(node, page, calls - 1);
    var quiet' := 0 < calls' && Quiet(node, page, calls' - 1);
    assert !(calls < calls') && !(calls' < calls);
  }

  /**
   The listing has an end within `most` pages, the node answers for each of them, and the clock is in time before
   each.
   */
  ghost predicate CanBeRead(node: Node, page: Reading, clock: nat -> nat, timeoutMs: nat, most: nat) {
    exists n: nat | 0 < n <= most ::
      Cursor(node, page, n) == None && forall k: nat | k < n :: PageAt(node, page, k).Some? && !Late(clock, timeoutMs, k)
  }

  /** An answer is that of the whole listing. */
  lemma {:induction false} AnswersRight(
    node: Node, page: Reading, clock: nat -> nat, timeoutMs: nat, r: Result<bool, ScanError>, calls: nat)
    requires ScanEnds(node, page, clock, timeoutMs, r, calls) && r.Success?
    ensures r.value <==> HasPass(node, page)
  {
    QuietUpTo(node, page, calls - 1);
    assert r.value <==> PassOnPage(node, page, calls - 1);
    if !r.value {
      NothingAfter(node, page, calls);
    }
  }

  lemma {:induction false} NoFailure(
    node: Node, page: Reading, clock: nat -> nat, timeoutMs: nat, r: Result<bool, ScanError>, calls: nat, n: nat)
    requires ScanEnds(node, page, clock, timeoutMs, r, calls) && 0 < n <= 100 && Cursor(node, page, n) == None
    requires forall k: nat | k < n :: PageAt(node, page, k).Some? && !Late(clock, timeoutMs, k)
    ensures r.Success?
  {
    assert !Quiet(node, page, n - 1);
    assert calls <= n;
    assert 0 < calls ==> PageAt(node, page, calls - 1).Some?;
  }

  /** A scan of such a listing of at most 100 pages answers. */
  lemma {:induction false} ReadableIsAnswered(
    node: Node, page: Reading, clock: nat -> nat, timeoutMs: nat, r: Result<bool, ScanError>, calls: nat)
    requires ScanEnds(node, page, clock, timeoutMs, r, calls) && CanBeRead(node, page, clock, timeoutMs, 100)
    ensures r == Success(HasPass(node, page))
  {
    var n: nat :| 0 < n <= 100 && Cursor(node, page, n) == None
      && forall k: nat | k < n :: PageAt(node, page, k).Some? && !Late(clock, timeoutMs, k);
    NoFailure(node, page, clock, timeoutMs, r, calls, n);
    AnswersRight(node, page, clock, timeoutMs, r, calls);
  }

  /** A listing as a node serves it: each page leads to the next by its token, and the last one leads nowhere. */
  ghost predicate Serves(node: Node, page: Reading, resps: seq<Bytes>, tokens: seq<Bytes>) {
    && |resps| == |tokens| + 1
    && node(None) == Some(resps[0])
    && (forall i | 0 <= i < |tokens| :: page.next(resps[i]) == Some(tokens[i]) && node(Some(tokens[i])) == Some(resps[i + 1]))
    && page.next(resps[|tokens|]) == None
  }

  lemma {:induction false} ServedPage(node: Node, page: Reading, resps: seq<Bytes>, tokens: seq<Bytes>, k: nat)
    requires Serves(node, page, resps, tokens) && k < |resps|
    ensures PageAt(node, page, k) == Some(resps[k])
    ensures Cursor(node, page, k + 1) == if k < |tokens| then Some(Some(tokens[k])) else None
    decreases k
  {
    if 0 < k {
      ServedPage(node, page, resps, tokens, k - 1);
    }
  }

  /** The scan of a listing of at most 100 pages, all read in time, says whether one of them holds a pass. */
  lemma {:induction false} ServedIsAnswered(
    node: Node, page: Reading, resps: seq<Bytes>, tokens: seq<Bytes>, clock: nat -> nat, timeoutMs: nat,
    r: Result<bool, ScanError>, calls: nat)
    requires Serves(node, page, resps, tokens) && |resps| <= 100
    requires forall i | 1 <= i <= |resps| :: clock(i) <= clock(0) + timeoutMs
    requires ScanEnds(node, page, clock, timeoutMs, r, calls)
    ensures r == Success(exists i | 0 <= i < |resps| :: page.holds(resps[i]))
  {
    forall k: nat | k < |resps|
      ensures PageAt(node, page, k) == Some(resps[k]) && !Late(clock, timeoutMs, k)
    {
      ServedPage(node, page, resps, tokens, k);
    }
    var n := |resps|;
    ServedPage(node, page, resps, tokens, n - 1);
    assert Cursor(node, page, n) == None;
    ReadableIsAnswered(node, page, clock, timeoutMs, r, calls);
    if k: nat :| PassOnPage(node, page, k) {
      if n <= k {
        EndsForGood(node, page, n, k);
      }
      assert page.holds(resps[k]);
    }
    if i :| 0 <= i < n && page.holds(resps[i]) {
      assert PassOnPage(node, page, i);
    }
  }

  /** A listing of more pages than that is not decided, unless one of the first 100 holds a pass. */
  lemma {:induction false} TooLongIsRefused(
    node: Node, page: Reading, resps: seq<Bytes>, tokens: seq<Bytes>, clock: nat -> nat, timeoutMs: nat,
    r: Result<bool, ScanError>, calls: nat)
    requires Serves(node, page, resps, tokens) && 100 < |resps|
    requires forall i | 1 <= i <= 100 :: clock(i) <= clock(0) + timeoutMs
    requires ScanEnds(node, page, clock, timeoutMs, r, calls)
    ensures r == if exists i | 0 <= i < 100 :: page.holds(resps[i]) then Success(true) else Failure(TooLong)
  {
    forall k: nat | k < 100
      ensures Quiet(node, page, k) <==> !page.holds(resps[k])
      ensures PageAt(node, page, k) == Some(resps[k]) && !Late(clock, timeoutMs, k)
    {
      ServedPage(node, page, resps, tokens, k);
    }
    if 0 < calls {
      ServedPage(node, page, resps, tokens, calls - 1);
      assert Cursor(node, page, calls - 1).Some?;
    }
    if r != Success(true) {
      forall i | 0 <= i < 100
        ensures !page.holds(resps[i])
      {
        assert Quiet(node, page, i);
      }
    }
  }

  // ---- The cache ----

  datatype Entry = Entry(owns: bool, expiryMs: nat)

  type Entries = map<string, Entry>

  function Deadlines(entries: Entries): map<string, nat> {
    map k | k in entries :: entries[k].expiryMs
  }

  function Live(entries: Entries, now: nat): Entries {
    map k | k in entries && now < entries[k].expiryMs :: entries[k]
  }

  predicate IsVictim(entries: Entries, victim: Option<string>) {
    match victim
    case Some(v) => MAX_ENTRIES <= |entries| && IsSoonest(Deadlines(entries), v)
    case None => |entries| < MAX_ENTRIES
  }

  function Answer(entries: Entries, key: string, now: nat): Option<bool> {
    if key in entries && now < entries[key].expiryMs then Some(entries[key].owns) else None
  }

  /** The cache with room for one more. */
  function Roomy(entries: Entries, now: nat, victim: Option<string>): Entries {
    Without(Live(entries, now), victim)
  }

  function Stored(entries: Entries, key: string, owns: bool, now: nat, ttlMs: nat, victim: Option<string>): Entries {
    Roomy(entries, now, victim)[key := Entry(owns, now + ttlMs)]
  }

  /** The code adds the deadline on 64-bit words with overflow checks on. */
  predicate DeadlineFits(now: nat, ttlMs: nat) {
    now + ttlMs <= U64_MAX
  }

  class OwnershipCache {
    var entries: Entries

    constructor ()
      ensures entries == map[]
    {
      entries := map[];
    }

    method Lookup(key: string, now: u64) returns (hit: Option<bool>)
      ensures hit == Answer(entries, key, now)
    {
      if key in entries && now < entries[key].expiryMs {
        return Some(entries[key].owns);
      }
      hit := None;
    }

    /** `ok` is false when adding the deadline panics, after room has been made. */
    method Store(key: string, owns: bool, now: u64, ttlMs: u64) returns (ok: bool, ghost victim: Option<string>)
      modifies this
      ensures IsVictim(Live(old(entries), now), victim)
      ensures ok <==> DeadlineFits(now, ttlMs)
      ensures entries == if ok then Stored(old(entries), key, owns, now, ttlMs, victim) else Roomy(old(entries), now, victim)
    {
      victim := None;
      entries := Live(entries, now);
      if MAX_ENTRIES <= |entries| {
        var deadlines := Deadlines(entries);
        assert deadlines.Keys == entries.Keys;
        SoonestExists(deadlines);
        var oldest :| oldest in deadlines && IsSoonest(deadlines, oldest);
        victim := Some(oldest);
        entries := Without(entries, Some(oldest));
      }
      if U64_MAX < now + ttlMs {
        return false, victim;
      }
      entries := entries[key := Entry(owns, now + ttlMs)];
      ok := true;
    }

    /**
     One check: `now` when it starts, `after` when its scan has ended. `meanwhile` is what the checks running beside
     this one leave in the cache while it scans. `ok` is false when storing the answer panics.
     */
    method OwnsNft(key: string, now: u64, after: u64, ttlMs: u64, meanwhile: Entries,
                   node: Node, page: Reading, clock: nat -> nat, timeoutMs: nat)
      returns (r: Result<bool, ScanError>, ok: bool, ghost victim: Option<string>)
      modifies this
      ensures var hit := Answer(old(entries), key, now);
              if ttlMs != 0 && hit.Some? then ok && r == Success(hit.value) && entries == old(entries)
              else
                && (r.Success? ==> (r.value <==> HasPass(node, page)))
                && (exists calls :: ScanEnds(node, page, clock, timeoutMs, r, calls))
                && (CanBeRead(node, page, clock, timeoutMs, 100) ==> r == Success(HasPass(node, page)))
                && (if r.Success? && ttlMs != 0 then
                      && (ok <==> DeadlineFits(after, ttlMs)) && IsVictim(Live(meanwhile, after), victim)
                      && entries == if ok then Stored(meanwhile, key, r.value, after, ttlMs, victim)
                                    else Roomy(meanwhile, after, victim)
                    else ok && entries == meanwhile)
    {
      ok, victim := true, None;
      if ttlMs != 0 {
        var hit := Lookup(key, now);
        if hit.Some? {
          return Success(hit.value), true, victim;
        }
      }
      var calls;
      r, calls := ScanOwned(node, page, clock, timeoutMs);
      if CanBeRead(node, page, clock, timeoutMs, 100) {
        ReadableIsAnswered(node, page, clock, timeoutMs, r, calls);
      }
      entries := meanwhile;
      if r.Success? && ttlMs != 0 {
        ok, victim := Store(key, r.value, after, ttlMs);
      }
    }
  }

  // ---- Runs: any number of checks, whose scans end in any order ----

  /** A scan for `key` of the listing `node` served it ended at `now` with `owns`. */
  datatype Ended = Ended(key: string, node: Node, page: Reading, owns: bool, now: nat, victim: Option<string>) {
    /** It answered as scans do. */
    ghost predicate IsScan() {
      owns <==> HasPass(node, page)
    }
  }

  function Run(events: seq<Ended>, ttlMs: nat): Entries {
    if events == [] then map[]
    else
      var (before, e) := (Run(events[..|events| - 1], ttlMs), events[|events| - 1]);
      Stored(before, e.key, e.owns, e.now, ttlMs, e.victim)
  }

  predicate Possible(events: seq<Ended>, ttlMs: nat) {
    events == [] ||
    (var (before, e) := (events[..|events| - 1], events[|events| - 1]);
     && Possible(before, ttlMs) && DeadlineFits(e.now, ttlMs)
     && IsVictim(Live(Run(before, ttlMs), e.now), e.victim))
  }

  /** The place of the last scan to end for `key`. */
  function LastFor(events: seq<Ended>, key: string): (i: Option<nat>)
    ensures i.Some? ==> i.value < |events| && events[i.value].key == key
    ensures i.Some? ==> forall j | i.value < j < |events| :: events[j].key != key
    ensures i.None? ==> forall j | 0 <= j < |events| :: events[j].key != key
  {
    if events == [] then None
    else if events[|events| - 1].key == key then Some(|events| - 1)
    else LastFor(events[..|events| - 1], key)
  }

  lemma {:induction false} EntryIsLast(events: seq<Ended>, ttlMs: nat, key: string)
    requires key in Run(events, ttlMs)
    ensures var last := LastFor(events, key);
            last.Some? && Run(events, ttlMs)[key] == Entry(events[last.value].owns, events[last.value].now + ttlMs)
    decreases |events|
  {
    var (before, e) := (events[..|events| - 1], events[|events| - 1]);
    if e.key != key {
      EntryIsLast(before, ttlMs, key);
    }
  }

  /**
   A hit at `now` says whether the listing read by the last scan to end for its key held a usable pass, and that scan
   ended less than one time to live before.
   */
  lemma {:induction false} HitIsRecent(events: seq<Ended>, ttlMs: nat, key: string, now: nat)
    requires forall i | 0 <= i < |events| :: events[i].IsScan()
    requires Answer(Run(events, ttlMs), key, now).Some?
    ensures var (hit, last) := (Answer(Run(events, ttlMs), key, now).value, LastFor(events, key));
            && last.Some?
            && (hit <==> HasPass(events[last.value].node, events[last.value].page))
            && now < events[last.value].now + ttlMs
  {
    EntryIsLast(events, ttlMs, key);
  }

  /** The answer of the last scan to end for `key` has neither expired nor been given up since. */
  predicate IsKept(events: seq<Ended>, ttlMs: nat, key: string, now: nat) {
    var last := LastFor(events, key);
    && last.Some? && now < events[last.value].now + ttlMs
    && forall j | last.value < j < |events| :: events[j].now <= now && events[j].victim != Some(key)
  }

  /** Until it expires, an answer that no full cache gave up is a hit. */
  lemma {:induction false} HitWhileFresh(events: seq<Ended>, ttlMs: nat, key: string, now: nat)
    requires IsKept(events, ttlMs, key, now)
    ensures Answer(Run(events, ttlMs), key, now) == Some(events[LastFor(events, key).value].owns)
    decreases |events|
  {
    var (before, e) := (events[..|events| - 1], events[|events| - 1]);
    if e.key != key {
      HitWhileFresh(before, ttlMs, key, now);
    }
  }

  lemma {:induction false} VictimIsOldest(live: Entries, key: string)
    requires IsVictim(live, Some(key))
    ensures key in live && 10_000 <= |live| && forall k | k in live :: live[key].expiryMs <= live[k].expiryMs
  {
    forall k | k in live
      ensures live[key].expiryMs <= live[k].expiryMs
    {
      assert k in Deadlines(live);
    }
  }

  /** A full cache gives up an answer only when none of the others it holds expires earlier. */
  lemma {:induction false} GivenUpLast(events: seq<Ended>, ttlMs: nat, key: string)
    requires events != [] && Possible(events, ttlMs) && events[|events| - 1].victim == Some(key)
    ensures var live := Live(Run(events[..|events| - 1], ttlMs), events[|events| - 1].now);
            && key in live && 10_000 <= |live| && forall k | k in live :: live[key].expiryMs <= live[k].expiryMs
  {
    VictimIsOldest(Live(Run(events[..|events| - 1], ttlMs), events[|events| - 1].now), key);
  }

  /** After an answer is stored nothing that has expired is kept, and only the one given up is lost. */
  lemma {:induction false} NothingExpiredStays(entries: Entries, e: Ended, ttlMs: nat, k: string)
    requires k != e.key && e.victim != Some(k)
    ensures var after := Stored(entries, e.key, e.owns, e.now, ttlMs, e.victim);
            && (k in after <==> k in entries && e.now < entries[k].expiryMs)
            && (k in after ==> after[k] == entries[k])
  {
  }

  lemma {:induction false} RoomMade(entries: Entries, victim: Option<string>)
    requires |entries| <= MAX_ENTRIES && IsVictim(entries, victim)
    ensures |Without(entries, victim)| < MAX_ENTRIES
  {
    if victim.Some? {
      assert victim.value in Deadlines(entries);
      assert Without(entries, victim).Keys == entries.Keys - {victim.value};
    }
  }

  lemma {:induction false} StoredSize(entries: Entries, e: Ended, ttlMs: nat)
    requires |entries| <= MAX_ENTRIES && IsVictim(Live(entries, e.now), e.victim)
    ensures |Stored(entries, e.key, e.owns, e.now, ttlMs, e.victim)| <= MAX_ENTRIES
  {
    var live := Live(entries, e.now);
    SubsetSize(live.Keys, entries.Keys);
    RoomMade(live, e.victim);
    var kept := Without(live, e.victim);
    assert Stored(entries, e.key, e.owns, e.now, ttlMs, e.victim).Keys == kept.Keys + {e.key};
  }

  /** The cache never holds more than its cap, however many misses run at once. */
  lemma {:induction false} RunWithinCap(events: seq<Ended>, ttlMs: nat)
    requires Possible(events, ttlMs)
    ensures |Run(events, ttlMs)| <= MAX_ENTRIES
    decreases |events|
  {
    if events != [] {
      var (before, e) := (events[..|events| - 1], events[|events| - 1]);
      RunWithinCap(before, ttlMs);
      StoredSize(Run(before, ttlMs), e, ttlMs);
    }
  }
}
