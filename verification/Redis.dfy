/**
 The shared Redis store for redemptions. A key is a string value with a deadline and is gone once the clock
 reaches it. A lease attempt is two commands, so other clients may run in between.
 */
module Redis {
  import opened Words
  import opened Holds

  const COMMITTED := "committed"
  const LEASE_PREFIX := "leased:"

  datatype Entry = Entry(value: string, deadline: nat)

  /** The keys under the redemption prefix, by digest. */
  type Keys = map<string, Entry>

  function LeaseValue(token: string): string {
    LEASE_PREFIX + token
  }

  predicate WellFormed(keys: Keys) {
    forall k | k in keys :: keys[k].value == COMMITTED || LEASE_PREFIX <= keys[k].value
  }

  function Get(keys: Keys, key: string, now: nat): Option<string> {
    if key in keys && now < keys[key].deadline then Some(keys[key].value) else None
  }

  /** SET key leased:token NX PX ttl. */
  function SetNxKeys(keys: Keys, key: string, now: nat, token: string, deadline: nat): Keys {
    if Get(keys, key, now).Some? then keys else keys[key := Entry(LeaseValue(token), deadline)]
  }

  function CommitKeys(keys: Keys, key: string, token: string, now: nat, deadline: nat): Keys {
    if Get(keys, key, now) == Some(LeaseValue(token)) then keys[key := Entry(COMMITTED, deadline)] else keys
  }

  function ReleaseKeys(keys: Keys, key: string, token: string, now: nat): Keys {
    if Get(keys, key, now) == Some(LeaseValue(token)) then keys - {key} else keys
  }

  function ReadAnswer(value: Option<string>): Lease {
    if value == Some(COMMITTED) then Redeemed else Leased
  }

  class RedisStore {
    var keys: Keys

    constructor ()
      ensures keys == map[]
    {
      keys := map[];
    }

    /** `meanwhile` is what the other clients leave behind between the two commands. */
    method TryLease(key: string, leaseTtlSecs: u64, token: string, now: nat, meanwhile: Keys, later: nat) returns (lease: Lease)
      modifies this
      ensures var before := Get(old(keys), key, now);
              && (before.None? ==>
                    lease == LeaseOk(token) && keys == SetNxKeys(old(keys), key, now, token, now + Min(leaseTtlSecs * 1000, U64_MAX)))
              && (before.Some? ==> lease == ReadAnswer(Get(meanwhile, key, later)) && keys == meanwhile)
    {
      var claimed: Option<string> := None;
      if Get(keys, key, now).None? {
        keys := keys[key := Entry(LeaseValue(token), now + Min(leaseTtlSecs * 1000, U64_MAX))];
        claimed := Some("OK");
      }
      if claimed.Some? {
        return LeaseOk(token);
      }
      keys := meanwhile;
      var cur := Get(keys, key, later);
      lease := if cur == Some(COMMITTED) then Redeemed else Leased;
    }

    method CommitKey(key: string, token: string, now: nat, retentionSecs: u64) returns (answer: Commit)
      modifies this
      ensures keys == CommitKeys(old(keys), key, token, now, now + Min(retentionSecs * 1000, U64_MAX))
      ensures answer == if Get(old(keys), key, now) == Some(LeaseValue(token)) then CommitOk else Lost
    {
      if Get(keys, key, now) == Some(LeaseValue(token)) {
        keys := keys[key := Entry(COMMITTED, now + Min(retentionSecs * 1000, U64_MAX))];
        answer := CommitOk;
      } else {
        answer := Lost;
      }
    }

    method Release(key: string, token: string, now: nat)
      modifies this
      ensures keys == ReleaseKeys(old(keys), key, token, now)
    {
      if Get(keys, key, now) == Some(LeaseValue(token)) {
        keys := keys - {key};
      }
    }
  }

  // ---- Refinement ----

  function HoldOf(e: Entry): Hold {
    if e.value == COMMITTED then CommittedUntil(e.deadline)
    else LeasedBy(if LEASE_PREFIX <= e.value then e.value[|LEASE_PREFIX|..] else "", e.deadline)
  }

  function View(keys: Keys, now: nat): Ledger {
    map k | k in keys && now < keys[k].deadline :: HoldOf(keys[k])
  }

  lemma {:induction false} ViewTick(keys: Keys, now: nat, later: nat)
    requires now <= later
    ensures View(keys, later) == Live(View(keys, now), later)
  {
  }

  /** A lease value says whose lease it is, and never reads as a commit. */
  lemma {:induction false} LeaseValueReads(token: string, e: Entry)
    requires e.value == COMMITTED || LEASE_PREFIX <= e.value
    ensures LeaseValue(token) != COMMITTED
    ensures HoldOf(e).LeasedBy? && HoldOf(e).token == token <==> e.value == LeaseValue(token)
  {
    assert LeaseValue(token)[0] == 'l' && COMMITTED[0] == 'c';
    if LEASE_PREFIX <= e.value {
      assert e.value == LEASE_PREFIX + e.value[|LEASE_PREFIX|..];
    }
    assert LeaseValue(token)[|LEASE_PREFIX|..] == token;
  }

  lemma {:induction false} ViewPut(keys: Keys, key: string, e: Entry, now: nat)
    ensures View(keys[key := e], now) == Put(View(keys, now), key, HoldOf(e), now)
  {
  }

  lemma {:induction false} SetNxRefines(keys: Keys, key: string, now: nat, token: string, deadline: nat)
    requires WellFormed(keys)
    ensures WellFormed(SetNxKeys(keys, key, now, token, deadline))
    ensures View(SetNxKeys(keys, key, now, token, deadline), now)
            == AfterLease(View(keys, now), key, now, LeasedBy(token, deadline), None)
    ensures Get(keys, key, now).None? <==> LeaseAnswer(View(keys, now), key, token).LeaseOk?
  {
    var e := Entry(LeaseValue(token), deadline);
    LeaseValueReads(token, e);
    ViewPut(keys, key, e, now);
  }

  lemma {:induction false} ReadRefines(keys: Keys, key: string, now: nat)
    requires WellFormed(keys)
    ensures ReadAnswer(Get(keys, key, now)) == Redeemed <==> key in View(keys, now) && View(keys, now)[key].CommittedUntil?
  {
  }

  lemma {:induction false} CommitRefines(keys: Keys, key: string, token: string, now: nat, deadline: nat)
    requires WellFormed(keys)
    ensures WellFormed(CommitKeys(keys, key, token, now, deadline))
    ensures View(CommitKeys(keys, key, token, now, deadline), now) == AfterCommit(View(keys, now), key, token, now, deadline)
    ensures Get(keys, key, now) == Some(LeaseValue(token)) <==> Owns(View(keys, now), key, token)
  {
    if key in keys {
      LeaseValueReads(token, keys[key]);
    }
    ViewPut(keys, key, Entry(COMMITTED, deadline), now);
  }

  lemma {:induction false} ReleaseRefines(keys: Keys, key: string, token: string, now: nat)
    requires WellFormed(keys)
    ensures WellFormed(ReleaseKeys(keys, key, token, now))
    ensures View(ReleaseKeys(keys, key, token, now), now) == AfterRelease(View(keys, now), key, token)
  {
    if key in keys {
      LeaseValueReads(token, keys[key]);
    }
    assert View(keys - {key}, now) == View(keys, now) - {key};
  }

  // ---- The two-command lease under interference ----

  /** The answer of an attempt that saw `first` at its SET and `second` at its GET. */
  function TwoStepAnswer(first: Ledger, second: Ledger, key: string, token: string): Lease {
    if key !in first then LeaseOk(token)
    else if key in second && second[key].CommittedUntil? then Redeemed
    else Leased
  }

  lemma {:induction false} TwoStepRefines(first: Keys, second: Keys, key: string, token: string, now: nat, later: nat)
    requires WellFormed(first) && WellFormed(second)
    ensures (if Get(first, key, now).None? then LeaseOk(token) else ReadAnswer(Get(second, key, later)))
            == TwoStepAnswer(View(first, now), View(second, later), key, token)
  {
    ReadRefines(second, key, later);
  }

  /**
   The attempt answers as one atomic attempt at its SET or at its GET would have, unless a commit seen by the
   SET has lapsed by the GET: then it says `Leased` of a digest that was committed and is now free.
   */
  lemma {:induction false} TwoStepIsAtomic(first: Ledger, second: Ledger, key: string, token: string)
    ensures var answer := TwoStepAnswer(first, second, key, token);
            (answer == LeaseAnswer(first, key, token) || answer == LeaseAnswer(second, key, token))
            <==> !(key in first && first[key].CommittedUntil? && key !in second)
  {
  }

  /** Such a run exists: the retention of a commit ends between the two commands. */
  lemma {:induction false} LapseBetweenCommands()
    ensures var keys: Keys := map["d" := Entry(COMMITTED, 10)];
            && WellFormed(keys)
            && TwoStepAnswer(View(keys, 9), View(keys, 10), "d", "t") == Leased
            && LeaseAnswer(View(keys, 9), "d", "t") == Redeemed
            && LeaseAnswer(View(keys, 10), "d", "t") == LeaseOk("t")
  {
    var keys: Keys := map["d" := Entry(COMMITTED, 10)];
    assert "d" in View(keys, 9);
    assert "d" !in View(keys, 10);
  }
}
