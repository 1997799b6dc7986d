/**
 Region shards of the nonce store. A nonce carries its shard's tag, so a take finds the shard that issued it; the
 shards together answer like one global table.
 */
module Shards {
  import opened Words
  import Nonces

  /** The continent tags and the global one. */
  const NONCE_SHARDS: seq<string> := ["af", "an", "as", "eu", "na", "oc", "sa", "g"]

  const GLOBAL := "g"

  /** The index of the first dot, or the length when there is none. */
  function FirstDot(s: string): (i: nat)
    ensures i <= |s|
    ensures forall k | 0 <= k < i :: s[k] != '.'
    ensures i < |s| ==> s[i] == '.'
  {
    if s == [] || s[0] == '.' then 0 else 1 + FirstDot(s[1..])
  }

  /** The shard a nonce names: the global one without a tag, none for an unknown tag. */
  function ShardOfNonce(nonce: string): Option<string> {
    var dot := FirstDot(nonce);
    if dot == 0 || dot == |nonce| then Some(GLOBAL)
    else if nonce[..dot] in NONCE_SHARDS then Some(nonce[..dot])
    else None
  }

  function ToLower(c: char): char {
    if 'A' <= c <= 'Z' then c - 'A' + 'a' else c
  }

  function Lowered(s: string): string {
    seq(|s|, i requires 0 <= i < |s| => ToLower(s[i]))
  }

  function RegionOf(globalMode: bool, continent: Option<string>): (region: string)
    ensures region in NONCE_SHARDS
  {
    assert NONCE_SHARDS[7] == GLOBAL;
    if globalMode then GLOBAL
    else
      match continent
      case Some(c) => if Lowered(c) in NONCE_SHARDS then Lowered(c) else GLOBAL
      case None => GLOBAL
  }

  /** A continent with a shard of its own, in either case, gets that shard; everything else is global. */
  lemma {:induction false} OwnContinent(continent: string, region: string)
    requires region in {"af", "an", "as", "eu", "na", "oc", "sa"}
    requires |continent| == 2
    requires forall i | 0 <= i < 2 :: continent[i] == region[i] || continent[i] as int + 32 == region[i] as int
    ensures RegionOf(false, Some(continent)) == region
    ensures RegionOf(true, Some(continent)) == RegionOf(false, None) == RegionOf(true, None) == "g"
  {
    assert Lowered(continent) == region;
    assert region in NONCE_SHARDS by {
      assert forall i | 0 <= i < 8 :: NONCE_SHARDS[i] in NONCE_SHARDS;
    }
  }

  /** What is no such continent is global. */
  lemma {:induction false} OtherContinent(continent: string)
    requires RegionOf(false, Some(continent)) != "g"
    ensures exists i | 0 <= i < 7 :: ["af", "an", "as", "eu", "na", "oc", "sa"][i] == RegionOf(false, Some(continent))
    ensures |continent| == 2 && Lowered(continent) == RegionOf(false, Some(continent))
  {
    var i :| 0 <= i < |NONCE_SHARDS| && NONCE_SHARDS[i] == Lowered(continent);
    assert ["af", "an", "as", "eu", "na", "oc", "sa"][i] == NONCE_SHARDS[i];
  }

  function Tagged(region: string, body: string): string {
    region + "." + body
  }

  lemma {:induction false} TagsHaveNoDot(region: string)
    requires region in NONCE_SHARDS
    ensures region != [] && '.' !in region
  {
    var i :| 0 <= i < |NONCE_SHARDS| && NONCE_SHARDS[i] == region;
    assert |region| <= 2 && forall c | c in region :: 'a' <= c <= 'z' by {
      assert NONCE_SHARDS == ["af", "an", "as", "eu", "na", "oc", "sa", "g"];
    }
  }

  lemma {:induction false} DotOfTagged(region: string, body: string)
    requires '.' !in region
    ensures FirstDot(Tagged(region, body)) == |region|
    decreases |region|
  {
    if region != [] {
      assert region[0] in region;
      assert Tagged(region, body)[1..] == Tagged(region[1..], body);
      DotOfTagged(region[1..], body);
    }
  }

  /** Whatever its body, an issued nonce routes back to the shard that issued it. */
  lemma {:induction false} RoutesBack(region: string, body: string)
    requires region in NONCE_SHARDS
    ensures ShardOfNonce(Tagged(region, body)) == Some(region)
  {
    TagsHaveNoDot(region);
    DotOfTagged(region, body);
    assert Tagged(region, body)[..|region|] == region;
  }

  lemma {:induction false} DotFound(nonce: string, dot: nat)
    requires dot < |nonce| && nonce[dot] == '.' && '.' !in nonce[..dot]
    ensures FirstDot(nonce) == dot
  {
    assert nonce == nonce[..dot] + "." + nonce[dot + 1..];
    DotOfTagged(nonce[..dot], nonce[dot + 1..]);
  }

  /** No dot, or nothing before it, is no tag: the global shard. Any other text before the first dot has to be a tag. */
  lemma {:induction false} RoutesExactly(nonce: string)
    ensures '.' !in nonce || nonce[0] == '.' ==> ShardOfNonce(nonce) == Some("g")
    ensures forall dot: nat | 0 < dot < |nonce| && nonce[dot] == '.' && '.' !in nonce[..dot] ::
              ShardOfNonce(nonce)
              == if nonce[..dot] in {"af", "an", "as", "eu", "na", "oc", "sa", "g"} then Some(nonce[..dot]) else None
  {
    forall dot: nat | 0 < dot < |nonce| && nonce[dot] == '.' && '.' !in nonce[..dot]
      ensures FirstDot(nonce) == dot
    {
      DotFound(nonce, dot);
    }
    assert forall i | 0 <= i < 8 :: NONCE_SHARDS[i] in NONCE_SHARDS;
  }

  // ---- Histories over the shards and over one table ----

  /** Shard tag to its table; a shard nobody has touched is not there. */
  type Fleet = map<string, Nonces.Rows>

  datatype Event =
    | Issue(region: string, body: string, now: nat, expiryMs: nat, victim: Option<string>)
    | Take(nonce: string, now: nat)

  function Table(fleet: Fleet, shard: string): Nonces.Rows {
    if shard in fleet then fleet[shard] else map[]
  }

  /** A full shard gives up `victim`. */
  function OnFleet(fleet: Fleet, e: Event): Fleet {
    match e
    case Issue(region, body, now, expiryMs, victim) =>
      fleet[region := Nonces.IssueRows(Table(fleet, region), Tagged(region, body), now, expiryMs, victim)]
    case Take(nonce, _) =>
      match ShardOfNonce(nonce)
      case None => fleet
      case Some(shard) => fleet[shard := Without(Table(fleet, shard), Some(nonce))]
  }

  /** One global table without a cap. */
  function OnOne(rows: Nonces.Rows, e: Event): Nonces.Rows {
    match e
    case Issue(region, body, now, expiryMs, _) => Nonces.IssueRows(rows, Tagged(region, body), now, expiryMs, None)
    case Take(nonce, _) => Without(rows, Some(nonce))
  }

  predicate FleetAnswer(fleet: Fleet, nonce: string, now: nat) {
    match ShardOfNonce(nonce)
    case None => false
    case Some(shard) => Nonces.TakeAnswer(Table(fleet, shard), nonce, now)
  }

  function FleetAnswers(fleet: Fleet, events: seq<Event>): seq<bool>
    decreases |events|
  {
    if events == [] then []
    else (if events[0].Take? then [FleetAnswer(fleet, events[0].nonce, events[0].now)] else [])
         + FleetAnswers(OnFleet(fleet, events[0]), events[1..])
  }

  function OneAnswers(rows: Nonces.Rows, events: seq<Event>): seq<bool>
    decreases |events|
  {
    if events == [] then []
    else (if events[0].Take? then [Nonces.TakeAnswer(rows, events[0].nonce, events[0].now)] else [])
         + OneAnswers(OnOne(rows, events[0]), events[1..])
  }

  predicate Orderly(last: nat, events: seq<Event>)
    decreases |events|
  {
    events == [] ||
    (&& last <= events[0].now
     && (events[0].Issue? ==> events[0].region in NONCE_SHARDS)
     && Orderly(events[0].now, events[1..]))
  }

  /** No shard reaches its cap. */
  predicate NeverFull(events: seq<Event>) {
    forall i | 0 <= i < |events| :: events[i].Issue? ==> events[i].victim == None
  }

  predicate IsLive(rows: Nonces.Rows, nonce: string, expiryMs: nat, now: nat) {
    nonce in rows && rows[nonce] == expiryMs && now < expiryMs
  }

  predicate InFleet(fleet: Fleet, nonce: string, expiryMs: nat, now: nat) {
    ShardOfNonce(nonce).Some? && IsLive(Table(fleet, ShardOfNonce(nonce).value), nonce, expiryMs, now)
  }

  /** The same nonces are live in the fleet, each in the shard its tag names, and in the one table. */
  ghost predicate SameLive(fleet: Fleet, rows: Nonces.Rows, now: nat) {
    forall nonce: string, expiryMs: nat ::
      InFleet(fleet, nonce, expiryMs, now) <==> IsLive(rows, nonce, expiryMs, now)
  }

  lemma {:induction false} AnswersAgree(fleet: Fleet, rows: Nonces.Rows, last: nat, nonce: string, now: nat)
    requires SameLive(fleet, rows, last) && last <= now
    ensures FleetAnswer(fleet, nonce, now) == Nonces.TakeAnswer(rows, nonce, now)
  {
    if nonce in rows {
      assert InFleet(fleet, nonce, rows[nonce], last) <==> IsLive(rows, nonce, rows[nonce], last);
    }
    match ShardOfNonce(nonce)
    case None =>
    case Some(shard) =>
      var table := Table(fleet, shard);
      if nonce in table {
        assert InFleet(fleet, nonce, table[nonce], last) <==> IsLive(rows, nonce, table[nonce], last);
      }
  }

  lemma {:induction false} StepKeepsSameLive(fleet: Fleet, rows: Nonces.Rows, last: nat, e: Event)
    requires SameLive(fleet, rows, last) && last <= e.now
    requires e.Issue? ==> e.region in NONCE_SHARDS && e.victim == None
    ensures SameLive(OnFleet(fleet, e), OnOne(rows, e), e.now)
  {
    if e.Issue? {
      RoutesBack(e.region, e.body);
    }
    forall nonce: string, expiryMs: nat
      ensures InFleet(OnFleet(fleet, e), nonce, expiryMs, e.now) <==> IsLive(OnOne(rows, e), nonce, expiryMs, e.now)
    {
      assert InFleet(fleet, nonce, expiryMs, last) <==> IsLive(rows, nonce, expiryMs, last);
    }
  }

  lemma {:induction false} AgreeFromHere(fleet: Fleet, rows: Nonces.Rows, last: nat, events: seq<Event>)
    requires SameLive(fleet, rows, last) && Orderly(last, events) && NeverFull(events)
    ensures FleetAnswers(fleet, events) == OneAnswers(rows, events)
    decreases |events|
  {
    if events != [] {
      var e := events[0];
      if e.Take? {
        AnswersAgree(fleet, rows, last, e.nonce, e.now);
      }
      StepKeepsSameLive(fleet, rows, last, e);
      AgreeFromHere(OnFleet(fleet, e), OnOne(rows, e), e.now, events[1..]);
    }
  }

  /** Over every history in which no shard fills up the shards give the same take verdicts as one global table. */
  lemma {:induction false} ShardsAnswerAsOne(events: seq<Event>)
    requires Orderly(0, events) && NeverFull(events)
    ensures FleetAnswers(map[], events) == OneAnswers(map[], events)
  {
    AgreeFromHere(map[], map[], 0, events);
  }

  // ---- Under caps ----

  /** What is live in the fleet is live in the one table. */
  ghost predicate NoMoreLive(fleet: Fleet, rows: Nonces.Rows, now: nat) {
    forall nonce: string, expiryMs: nat ::
      InFleet(fleet, nonce, expiryMs, now) ==> IsLive(rows, nonce, expiryMs, now)
  }

  lemma {:induction false} StepKeepsNoMoreLive(fleet: Fleet, rows: Nonces.Rows, last: nat, e: Event)
    requires NoMoreLive(fleet, rows, last) && last <= e.now && (e.Issue? ==> e.region in NONCE_SHARDS)
    ensures NoMoreLive(OnFleet(fleet, e), OnOne(rows, e), e.now)
  {
    if e.Issue? {
      RoutesBack(e.region, e.body);
    }
    forall nonce: string, expiryMs: nat | InFleet(OnFleet(fleet, e), nonce, expiryMs, e.now)
      ensures IsLive(OnOne(rows, e), nonce, expiryMs, e.now)
    {
      assert InFleet(fleet, nonce, expiryMs, last) ==> IsLive(rows, nonce, expiryMs, last);
    }
  }

  lemma {:induction false} AnswersNoMore(fleet: Fleet, rows: Nonces.Rows, last: nat, nonce: string, now: nat)
    requires NoMoreLive(fleet, rows, last) && last <= now && FleetAnswer(fleet, nonce, now)
    ensures Nonces.TakeAnswer(rows, nonce, now)
  {
    var table := Table(fleet, ShardOfNonce(nonce).value);
    assert InFleet(fleet, nonce, table[nonce], last);
  }

  lemma {:induction false} NoMoreFromHere(fleet: Fleet, rows: Nonces.Rows, last: nat, events: seq<Event>)
    requires NoMoreLive(fleet, rows, last) && Orderly(last, events)
    ensures |FleetAnswers(fleet, events)| == |OneAnswers(rows, events)|
    ensures forall i | 0 <= i < |FleetAnswers(fleet, events)| :: FleetAnswers(fleet, events)[i] ==> OneAnswers(rows, events)[i]
    decreases |events|
  {
    if events != [] {
      var e := events[0];
      if e.Take? && FleetAnswer(fleet, e.nonce, e.now) {
        AnswersNoMore(fleet, rows, last, e.nonce, e.now);
      }
      StepKeepsNoMoreLive(fleet, rows, last, e);
      NoMoreFromHere(OnFleet(fleet, e), OnOne(rows, e), e.now, events[1..]);
    }
  }

  /** With caps, and whatever full shards give up, the shards accept no take the one uncapped table would refuse. */
  lemma {:induction false} CappedShardsAcceptNoMore(events: seq<Event>)
    requires Orderly(0, events)
    ensures var (fleet, one) := (FleetAnswers(map[], events), OneAnswers(map[], events));
            |fleet| == |one| && forall i | 0 <= i < |fleet| :: fleet[i] ==> one[i]
  {
    NoMoreFromHere(map[], map[], 0, events);
  }

  /** A nonce with an unknown tag is refused and touches no shard, whatever the fleet holds. */
  lemma {:induction false} UnknownTagTouchesNothing(fleet: Fleet, nonce: string, now: nat)
    requires 0 < FirstDot(nonce) < |nonce| && nonce[..FirstDot(nonce)] !in NONCE_SHARDS
    ensures !FleetAnswer(fleet, nonce, now)
    ensures OnFleet(fleet, Take(nonce, now)) == fleet
  {
  }

  // ---- What one table's results say of the shards ----

  /** The same event on a table of nonces. */
  function OnNonces(e: Event): Nonces.Event {
    match e
    case Issue(region, body, now, expiryMs, _) => Nonces.Issue(Tagged(region, body), now, expiryMs, None)
    case Take(nonce, now) => Nonces.Take(nonce, now)
  }

  /** The global table the shards are compared with is a nonce table like any other. */
  lemma {:induction false} OneIsNonceTable(rows: Nonces.Rows, e: Event)
    ensures OnOne(rows, e) == Nonces.Apply(rows, OnNonces(e))
  {
  }

  /** How often the fleet accepted `nonce`. */
  function FleetTakesOf(fleet: Fleet, events: seq<Event>, nonce: string): nat
    decreases |events|
  {
    if events == [] then 0
    else (if events[0].Take? && events[0].nonce == nonce && FleetAnswer(fleet, nonce, events[0].now) then 1 else 0)
         + FleetTakesOf(OnFleet(fleet, events[0]), events[1..], nonce)
  }

  function FleetIssuesOf(events: seq<Event>, nonce: string): nat {
    if events == [] then 0
    else (if events[0].Issue? && Tagged(events[0].region, events[0].body) == nonce then 1 else 0)
         + FleetIssuesOf(events[1..], nonce)
  }

  /** Where its tag says. */
  predicate IsHeld(fleet: Fleet, nonce: string) {
    ShardOfNonce(nonce).Some? && nonce in Table(fleet, ShardOfNonce(nonce).value)
  }

  lemma {:induction false} StepHolds(fleet: Fleet, e: Event, nonce: string)
    requires e.Issue? ==> e.region in NONCE_SHARDS
    ensures IsHeld(OnFleet(fleet, e), nonce) ==> IsHeld(fleet, nonce) || (e.Issue? && Tagged(e.region, e.body) == nonce)
    ensures e.Take? && e.nonce == nonce ==> !IsHeld(OnFleet(fleet, e), nonce)
  {
    if e.Issue? {
      RoutesBack(e.region, e.body);
    }
  }

  /** Over every history the fleet, capped or not, accepts a nonce at most as often as it was issued. */
  lemma {:induction false} FleetTakesOncePerIssue(fleet: Fleet, last: nat, events: seq<Event>, nonce: string)
    requires Orderly(last, events)
    ensures FleetTakesOf(fleet, events, nonce) <= FleetIssuesOf(events, nonce) + if IsHeld(fleet, nonce) then 1 else 0
    decreases |events|
  {
    if events != [] {
      StepHolds(fleet, events[0], nonce);
      FleetTakesOncePerIssue(OnFleet(fleet, events[0]), events[0].now, events[1..], nonce);
    }
  }
}
