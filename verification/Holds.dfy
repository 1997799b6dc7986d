/**
 The specification every redemption store refines: one small machine per consume digest, which is free,
 leased by an owner token until a deadline, or committed until a deadline. A digest whose deadline is
 reached is free again. `Drop` is the one liberty a store has: it may forget a lease, never a commit.
 */
module Holds {
  import opened Words

  datatype Hold =
    | LeasedBy(token: string, expiryMs: nat)
    | CommittedUntil(expiryMs: nat)

  /** The digests that are not free. */
  type Ledger = map<string, Hold>

  datatype Lease = LeaseOk(token: string) | Leased | Redeemed

  datatype Commit = CommitOk | Lost

  /** The clock reached `now`: holds whose deadline has passed are gone. */
  function Live(h: Ledger, now: nat): Ledger {
    map k | k in h && now < h[k].expiryMs :: h[k]
  }

  predicate IsLease(h: Ledger, key: string) {
    key in h && h[key].LeasedBy?
  }

  /** Only a lease can be dropped. */
  predicate Droppable(h: Ledger, victim: Option<string>) {
    victim.Some? ==> IsLease(h, victim.value)
  }

  function Drop(h: Ledger, victim: Option<string>): Ledger {
    match victim
    case None => h
    case Some(k) => h - {k}
  }

  /** `key` now has this hold, unless its deadline is already past. */
  function Put(h: Ledger, key: string, hold: Hold, now: nat): Ledger {
    if now < hold.expiryMs then h[key := hold] else h - {key}
  }

  function LeaseAnswer(h: Ledger, key: string, token: string): Lease {
    if key !in h then LeaseOk(token)
    else if h[key].CommittedUntil? then Redeemed
    else Leased
  }

  /** Claiming `key`: only a free digest changes, and a store that makes room forgets one lease first. */
  function AfterLease(h: Ledger, key: string, now: nat, hold: Hold, victim: Option<string>): Ledger {
    if key in h then h else Put(Drop(h, victim), key, hold, now)
  }

  predicate Owns(h: Ledger, key: string, token: string) {
    IsLease(h, key) && h[key].token == token
  }

  function CommitAnswer(h: Ledger, key: string, token: string): Commit {
    if Owns(h, key, token) then CommitOk else Lost
  }

  function AfterCommit(h: Ledger, key: string, token: string, now: nat, until: nat): Ledger {
    if Owns(h, key, token) then Put(h, key, CommittedUntil(until), now) else h
  }

  function AfterRelease(h: Ledger, key: string, token: string): Ledger {
    if Owns(h, key, token) then Drop(h, Some(key)) else h
  }
}
