/** Numbers as digits, most significant first, in any base. */
module Positional {
  import opened Words

  function Num(digits: seq<nat>, base: nat): nat {
    if digits == [] then 0 else Num(digits[..|digits| - 1], base) * base + digits[|digits| - 1]
  }

  /** The digits of `n` with no leading zero; none at all for 0. */
  function Rep(n: nat, base: nat): seq<nat>
    requires 2 <= base
    decreases n
  {
    if n == 0 then []
    else
      DivLess(n, base);
      Rep(n / base, base) + [n % base]
  }

  function Pow(base: nat, n: nat): (p: nat)
    ensures 0 < base ==> 0 < p
  {
    if n == 0 then 1 else base * Pow(base, n - 1)
  }

  function Zeros(n: nat): seq<nat> {
    seq(n, _ => 0)
  }

  predicate AreDigits(digits: seq<nat>, base: nat) {
    forall i | 0 <= i < |digits| :: digits[i] < base
  }

  predicate NoLeadingZero(digits: seq<nat>) {
    digits != [] ==> digits[0] != 0
  }

  lemma {:induction false} DivLess(n: nat, base: nat)
    requires 2 <= base && 0 < n
    ensures n / base < n
  {
    var q := n / base;
    assert n == q * base + n % base;
    if n <= q {
      MulMono(2, base, q);
    }
  }

  lemma {:induction false} DivUnique(q: nat, r: nat, base: nat)
    requires r < base
    ensures (q * base + r) / base == q && (q * base + r) % base == r
  {
    var n := q * base + r;
    var (p, s) := (n / base, n % base);
    assert n == p * base + s;
    if p < q {
      MulMono(p + 1, q, base);
    }
    if q < p {
      MulMono(q + 1, p, base);
    }
  }

  lemma {:induction false} RepShape(n: nat, base: nat)
    requires 2 <= base
    ensures AreDigits(Rep(n, base), base) && NoLeadingZero(Rep(n, base))
    ensures n != 0 ==> Rep(n, base) != []
    decreases n
  {
    if n != 0 {
      DivLess(n, base);
      RepShape(n / base, base);
      if n / base == 0 {
        assert n % base == n;
      }
    }
  }

  lemma {:induction false} NumPush(high: seq<nat>, low: nat, base: nat)
    ensures Num(high + [low], base) == Num(high, base) * base + low
  {
    assert (high + [low])[..|high|] == high;
  }

  lemma {:induction false} NumOfQuotient(n: nat, base: nat, high: seq<nat>)
    requires 2 <= base && Num(high, base) == n / base
    ensures Num(high + [n % base], base) == n
  {
    NumPush(high, n % base, base);
  }

  /** Writing a number and reading it back. */
  lemma {:induction false} NumOfRep(n: nat, base: nat)
    requires 2 <= base
    ensures Num(Rep(n, base), base) == n
    decreases n
  {
    if n != 0 {
      DivLess(n, base);
      NumOfRep(n / base, base);
      NumOfQuotient(n, base, Rep(n / base, base));
    }
  }

  lemma {:induction false} NumPositive(digits: seq<nat>, base: nat)
    requires 0 < base && digits != [] && digits[0] != 0
    ensures 0 < Num(digits, base)
    decreases |digits|
  {
    if 1 < |digits| {
      NumPositive(digits[..|digits| - 1], base);
      MulMono(1, base, Num(digits[..|digits| - 1], base));
    }
  }

  /** Reading digits that do not start with a zero and writing them back. */
  lemma {:induction false} RepOfNum(digits: seq<nat>, base: nat)
    requires 2 <= base && AreDigits(digits, base) && NoLeadingZero(digits)
    ensures Rep(Num(digits, base), base) == digits
    decreases |digits|
  {
    if digits != [] {
      var (high, low) := (digits[..|digits| - 1], digits[|digits| - 1]);
      NumPositive(digits, base);
      RepOfNum(high, base);
      DivUnique(Num(high, base), low, base);
      assert high + [low] == digits;
    }
  }

  lemma {:induction false} ZerosAddNothing(n: nat, digits: seq<nat>, base: nat)
    ensures Num(Zeros(n) + digits, base) == Num(digits, base)
    decreases n + |digits|
  {
    var all := Zeros(n) + digits;
    if digits != [] {
      assert all[..|all| - 1] == Zeros(n) + digits[..|digits| - 1];
      ZerosAddNothing(n, digits[..|digits| - 1], base);
    } else if 0 < n {
      assert all[..n - 1] == Zeros(n - 1) + digits;
      ZerosAddNothing(n - 1, digits, base);
    }
  }

  lemma {:induction false} NumBelow(digits: seq<nat>, base: nat)
    requires AreDigits(digits, base)
    ensures Num(digits, base) < Pow(base, |digits|)
    decreases |digits|
  {
    if digits != [] {
      var high := Num(digits[..|digits| - 1], base);
      var p := Pow(base, |digits| - 1);
      NumBelow(digits[..|digits| - 1], base);
      MulMono(high + 1, p, base);
      assert (high + 1) * base == high * base + base;
    }
  }

  /** A number below `base` to the `m` needs at most `m` digits. */
  lemma {:induction false} RepAtMost(n: nat, base: nat, m: nat)
    requires 2 <= base && n < Pow(base, m)
    ensures |Rep(n, base)| <= m
    decreases m
  {
    if n != 0 {
      var q := n / base;
      DivLess(n, base);
      assert n == q * base + n % base;
      if Pow(base, m - 1) <= q {
        MulMono(Pow(base, m - 1), q, base);
      }
      RepAtMost(q, base, m - 1);
    }
  }

  lemma {:induction false} PowMono(small: nat, large: nat, m: nat)
    requires small <= large
    ensures Pow(small, m) <= Pow(large, m)
  {
    if m != 0 {
      var (p, q) := (Pow(small, m - 1), Pow(large, m - 1));
      PowMono(small, large, m - 1);
      MulMono(small, large, q);
      MulMono(p, q, small);
    }
  }

  lemma {:induction false} PowGrows(base: nat, a: nat, b: nat)
    requires 1 <= base && a <= b
    ensures Pow(base, a) <= Pow(base, b)
    decreases b
  {
    if a < b {
      PowGrows(base, a, b - 1);
      MulMono(1, base, Pow(base, b - 1));
    }
  }

  /** A larger base never needs more digits. */
  lemma {:induction false} LargerBaseIsShorter(n: nat, small: nat, large: nat)
    requires 2 <= small <= large
    ensures |Rep(n, large)| <= |Rep(n, small)|
  {
    var m := |Rep(n, small)|;
    NumOfRep(n, small);
    RepShape(n, small);
    NumBelow(Rep(n, small), small);
    PowMono(small, large, m);
    RepAtMost(n, large, m);
  }

  lemma {:induction false} MulAssociates(a: nat, b: nat, c: nat)
    ensures a * (b * c) == a * b * c
  {
  }

  lemma {:induction false} PowSum(base: nat, a: nat, b: nat)
    ensures Pow(base, a + b) == Pow(base, a) * Pow(base, b)
    decreases a
  {
    if a != 0 {
      PowSum(base, a - 1, b);
      MulAssociates(base, Pow(base, a - 1), Pow(base, b));
    }
  }
}
