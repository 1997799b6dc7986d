/**
 The SQLite-backed Durable Object: three tables and the statements each operation runs on them. Every
 operation leaves the tables as the in-memory ones would be left.
 */
module DurableObject {
  import opened Words
  import opened Soonest
  import opened Holds
  import Redemption
  import Nonces
  import Rates

  const LEASED := "leased"
  const COMMITTED := "committed"

  /** A row of `redemptions`; the primary key is the map's key. */
  datatype SqlRow = SqlRow(state: string, expiry: nat, token: Option<string>) {
    predicate WellFormed() {
      || (state == LEASED && token.Some?)
      || (state == COMMITTED && token.None?)
    }
  }

  type Redemptions = map<string, SqlRow>

  predicate WellFormed(rows: Redemptions) {
    forall k | k in rows :: rows[k].WellFormed()
  }

  function RowOf(r: SqlRow): Redemption.Row {
    Redemption.Row(r.state == COMMITTED, r.expiry, if r.token.Some? then r.token.value else "")
  }

  /** The SQL rows as rows of the in-memory table. */
  function RowsOf(rows: Redemptions): Redemption.Rows {
    map k | k in rows :: RowOf(rows[k])
  }

  function LeasedDeadlines(rows: Redemptions): map<string, nat> {
    map k | k in rows && rows[k].state == LEASED :: rows[k].expiry
  }

  lemma {:induction false} StatesDiffer()
    ensures LEASED != COMMITTED
  {
    assert |LEASED| != |COMMITTED|;
  }

  lemma {:induction false} SameSize(rows: Redemptions)
    ensures |RowsOf(rows)| == |rows|
  {
    assert RowsOf(rows).Keys == rows.Keys;
    assert |rows.Keys| == |rows| && |RowsOf(rows).Keys| == |RowsOf(rows)|;
  }

  lemma {:induction false} Inserted(rows: Redemptions, key: string, r: SqlRow)
    ensures RowsOf(rows[key := r]) == RowsOf(rows)[key := RowOf(r)]
  {
  }

  /** What the conditional DELETE of a release keeps. */
  function Kept(rows: Redemptions, key: string, token: string): Redemptions {
    map k | k in rows && !(k == key && rows[k].state == LEASED && rows[k].token == Some(token)) :: rows[k]
  }

  lemma {:induction false} KeptIsReleased(rows: Redemptions, key: string, token: string)
    requires WellFormed(rows)
    ensures WellFormed(Kept(rows, key, token))
    ensures RowsOf(Kept(rows, key, token)) == Redemption.ReleaseRows(RowsOf(rows), key, token)
  {
    StatesDiffer();
    if key in rows {
      assert RowsOf(rows)[key] == RowOf(rows[key]);
    }
  }

  class NonceRateState {
    var nonces: Nonces.Rows
    var rate: Rates.Rows
    var redemptions: Redemptions

    predicate Valid()
      reads this
    {
      WellFormed(redemptions)
    }

    constructor ()
      ensures Valid() && nonces == map[] && rate == map[] && redemptions == map[]
    {
      nonces, rate, redemptions := map[], map[], map[];
    }

    method Issue(nonce: string, now: nat, ttlSecs: nat, maxEntries: nat) returns (expiry: nat, ghost victim: Option<string>)
      modifies this`nonces
      ensures Nonces.IsVictim(Nonces.Retain(old(nonces), now), maxEntries, victim)
      ensures expiry == ExpiryMs(now, ttlSecs, I64_MAX)
      ensures nonces == Nonces.IssueRows(old(nonces), nonce, now, expiry, victim)
    {
      victim := None;
      expiry := ExpiryMs(now, ttlSecs, I64_MAX);
      // DELETE FROM nonces WHERE expiry <= now
      nonces := map k | k in nonces && !(nonces[k] <= now) :: nonces[k];
      assert nonces == Nonces.Retain(old(nonces), now);
      if Max(maxEntries, 1) <= |nonces| {
        SoonestExists(nonces);
        var soonest :| soonest in nonces && IsSoonest(nonces, soonest);
        victim := Some(soonest);
        nonces := map k | k in nonces && k != soonest :: nonces[k];
      }
      nonces := nonces[nonce := expiry];
    }

    method TakeIfValid(nonce: string, now: nat) returns (valid: bool)
      modifies this`nonces
      ensures valid == Nonces.TakeAnswer(old(nonces), nonce, now)
      ensures nonces == Without(old(nonces), Some(nonce))
    {
      if nonce !in nonces {
        assert nonces == Without(nonces, Some(nonce));
        return false;
      }
      var expiry := nonces[nonce];
      nonces := map k | k in nonces && k != nonce :: nonces[k];
      valid := now < expiry;
    }

    method RateCheck(addr: string, maxPerMin: nat, now: nat, coin: bool) returns (allowed: bool)
      modifies this`rate
      ensures allowed == Rates.Allows(old(rate), addr, now, maxPerMin)
      ensures rate == Rates.SweptCheckRows(old(rate), addr, now, maxPerMin, coin)
    {
      if maxPerMin == 0 {
        return true;
      }
      var start, count := now, 0;
      if addr in rate {
        var r := rate[addr];
        if now - r.start < 60_000 {
          start, count := r.start, r.count;
        }
      }
      if maxPerMin <= count {
        return false;
      }
      if coin {
        // DELETE FROM rate WHERE start < now - 60000
        rate := map k | k in rate && !(rate[k].start < now - 60_000) :: rate[k];
        assert rate == Rates.Swept(old(rate), now);
      }
      rate := rate[addr := Rates.Window(start, count + 1)];
      allowed := true;
    }

    /** DELETE ... WHERE state = 'leased' AND expiry <= now, then the same for 'committed'. */
    method DropExpired(now: nat)
      requires Valid()
      modifies this`redemptions
      ensures Valid() && RowsOf(redemptions) == Redemption.Retain(RowsOf(old(redemptions)), now)
    {
      redemptions := map k | k in redemptions && !(redemptions[k].state == LEASED && redemptions[k].expiry <= now) :: redemptions[k];
      redemptions := map k | k in redemptions && !(redemptions[k].state == COMMITTED && redemptions[k].expiry <= now) :: redemptions[k];
    }

    /** DELETE ... WHERE key = (SELECT key ... WHERE state = 'leased' ORDER BY expiry ASC LIMIT 1). */
    method EvictSoonestLease() returns (ghost victim: Option<string>)
      requires Valid()
      modifies this`redemptions
      ensures Valid() && RowsOf(redemptions) == Without(RowsOf(old(redemptions)), victim)
      ensures var before := RowsOf(old(redemptions));
              match victim
              case Some(v) => IsSoonest(Redemption.LeaseDeadlines(before), v)
              case None => Redemption.LeaseKeys(before) == {}
    {
      StatesDiffer();
      victim := None;
      var leases := LeasedDeadlines(redemptions);
      assert leases == Redemption.LeaseDeadlines(RowsOf(redemptions));
      assert leases.Keys == Redemption.LeaseKeys(RowsOf(redemptions));
      if leases.Keys != {} {
        SoonestExists(leases);
        var soonest :| soonest in leases && IsSoonest(leases, soonest);
        victim := Some(soonest);
        redemptions := map k | k in redemptions && k != soonest :: redemptions[k];
      }
    }

    method LeaseKey(key: string, now: nat, ttlSecs: nat, maxEntries: nat, token: string)
      returns (lease: Lease, ghost victim: Option<string>)
      requires Valid()
      modifies this`redemptions
      ensures Valid()
      ensures var live := Redemption.Retain(RowsOf(old(redemptions)), now);
              key !in live ==> Redemption.IsVictim(live, maxEntries, victim)
      ensures RowsOf(redemptions)
              == Redemption.TryLeaseRows(RowsOf(old(redemptions)), key, now, ExpiryMs(now, ttlSecs, I64_MAX), token, victim)
      ensures lease == Redemption.TryLeaseAnswer(RowsOf(old(redemptions)), key, now, token)
    {
      StatesDiffer();
      victim := None;
      DropExpired(now);
      ghost var live := RowsOf(redemptions);
      if key in redemptions {
        var r := redemptions[key];
        assert live[key] == RowOf(r);
        if r.state == COMMITTED {
          return Redeemed, victim;
        }
        if r.state == LEASED && now < r.expiry {
          return Leased, victim;
        }
      }
      SameSize(redemptions);
      if Max(maxEntries, 1) <= |redemptions| {
        victim := EvictSoonestLease();
      }
      var expiry := ExpiryMs(now, ttlSecs, I64_MAX);
      Inserted(redemptions, key, SqlRow(LEASED, expiry, Some(token)));
      redemptions := redemptions[key := SqlRow(LEASED, expiry, Some(token))];
      lease := LeaseOk(token);
    }

    method CommitKey(key: string, token: string, now: nat, retentionSecs: nat) returns (answer: Commit)
      requires Valid()
      modifies this`redemptions
      ensures Valid()
      ensures var before := RowsOf(old(redemptions));
              && RowsOf(redemptions) == Redemption.CommitRows(before, key, token, now, ExpiryMs(now, retentionSecs, I64_MAX))
              && answer == if Redemption.HoldsLease(before, key, token) && now < before[key].expiryMs then CommitOk else Lost
    {
      StatesDiffer();
      // SELECT 1 ... WHERE key = ? AND state = 'leased' AND token = ? AND expiry > ?
      var live := key in redemptions && redemptions[key].state == LEASED && redemptions[key].token == Some(token)
                  && now < redemptions[key].expiry;
      if !live {
        return Lost;
      }
      // UPDATE ... SET state = 'committed', expiry = ?, token = NULL WHERE key = ? AND state = 'leased' AND token = ?
      redemptions := redemptions[key := SqlRow(COMMITTED, ExpiryMs(now, retentionSecs, I64_MAX), None)];
      answer := CommitOk;
    }

    method Release(key: string, token: string)
      requires Valid()
      modifies this`redemptions
      ensures Valid()
      ensures RowsOf(redemptions) == Redemption.ReleaseRows(RowsOf(old(redemptions)), key, token)
    {
      KeptIsReleased(redemptions, key, token);
      // DELETE FROM redemptions WHERE key = ? AND state = 'leased' AND token = ?
      redemptions := Kept(redemptions, key, token);
    }
  }
}
