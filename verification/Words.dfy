/** Machine words, saturating arithmetic and the one generic datatype every module shares. */
module Words {
  datatype Option<+T> = None | Some(value: T)

  datatype Result<+T, +E> = Success(value: T) | Failure(error: E)

  const U32_MAX: int := 0xFFFF_FFFF
  const U64_MAX: int := 0xFFFF_FFFF_FFFF_FFFF
  const I64_MAX: int := 0x7FFF_FFFF_FFFF_FFFF
  const I64_MIN: int := -0x8000_0000_0000_0000

  type u8 = n: int | 0 <= n < 256
  type u32 = n: int | 0 <= n <= U32_MAX
  type u64 = n: int | 0 <= n <= U64_MAX

  type Bytes = seq<u8>

  function Min(a: int, b: int): int {
    if a <= b then a else b
  }

  function Max(a: int, b: int): int {
    if a <= b then b else a
  }

  /** `a.saturating_sub(b)` on an unsigned word. */
  function SaturatingSub(a: nat, b: nat): nat {
    if a < b then 0 else a - b
  }

  /** `now.saturating_add(secs.saturating_mul(1000))` on a word whose largest value is `top`. */
  function ExpiryMs(now: nat, secs: nat, top: nat): nat {
    Min(now + Min(secs * 1000, top), top)
  }

  /** While the clock plus the time to live fits the word, saturation never shows. */
  lemma {:induction false} ExpiryInRange(now: nat, secs: nat, top: nat)
    requires now + secs * 1000 <= top
    ensures ExpiryMs(now, secs, top) == now + secs * 1000
  {
  }

  /** Past that the deadline is the largest there is. */
  lemma {:induction false} ExpirySaturates(now: nat, secs: nat, top: nat)
    requires now <= top < now + secs * 1000
    ensures ExpiryMs(now, secs, top) == top
  {
  }

  /** A table after it gave up `victim`, if it had to. */
  function Without<K, V>(table: map<K, V>, victim: Option<K>): map<K, V> {
    match victim
    case None => table
    case Some(k) => table - {k}
  }

  lemma {:induction false} SubsetSize<T>(a: set<T>, b: set<T>)
    requires a <= b
    ensures |a| <= |b|
  {
    assert b == a + (b - a);
  }

  lemma {:induction false} MulMono(a: nat, b: nat, c: nat)
    requires a <= b
    ensures a * c <= b * c
  {
  }
}

/** The rule by which every capped table makes room: the entry with the least deadline goes first. */
module Soonest {
  /** `key` has the least deadline of `m`; equal deadlines leave the choice open. */
  predicate IsSoonest(m: map<string, nat>, key: string) {
    key in m && forall k | k in m :: m[key] <= m[k]
  }

  lemma {:induction false} SoonestExists(m: map<string, nat>)
    requires m.Keys != {}
    ensures exists key :: IsSoonest(m, key)
    decreases |m|
  {
    var key :| key in m;
    var rest := m - {key};
    if rest.Keys == {} {
      assert m.Keys == {key};
      assert IsSoonest(m, key);
    } else {
      assert |rest| < |m|;
      SoonestExists(rest);
      var other :| IsSoonest(rest, other);
      assert IsSoonest(m, if m[key] <= m[other] then key else other) by {
        forall k | k in m
          ensures m[if m[key] <= m[other] then key else other] <= m[k]
        {
          if k != key { assert k in rest; }
        }
      }
    }
  }
}
