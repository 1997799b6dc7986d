/** Decimal text: what a run of digits writes, and the numbers read back from it. */
module DecimalText {
  import opened AsciiText
  import opened Positional
  import opened Words

  function DigitText(digits: seq<nat>): Bytes
    requires AreDigits(digits, 10)
  {
    seq<u8>(|digits|, i requires 0 <= i < |digits| => digits[i] + 48)
  }

  /** `n` in decimal behind some zeros; nothing at all for no zeros and `n == 0`. */
  function WrittenNumber(zeros: nat, n: nat): Bytes {
    RepShape(n, 10);
    DigitText(Zeros(zeros) + Rep(n, 10))
  }

  /** `text` is digits that write `n`. */
  ghost predicate Writes(text: Bytes, n: nat) {
    text != [] && exists zeros :: text == WrittenNumber(zeros, n)
  }

  lemma {:induction false} ValuesOfText(digits: seq<nat>)
    requires AreDigits(digits, 10)
    ensures AllDigits(DigitText(digits)) && DigitValues(DigitText(digits)) == digits
  {
  }

  lemma {:induction false} WrittenReads(zeros: nat, n: nat)
    ensures AllDigits(WrittenNumber(zeros, n)) && Decimal(WrittenNumber(zeros, n)) == n
  {
    RepShape(n, 10);
    ValuesOfText(Zeros(zeros) + Rep(n, 10));
    ZerosAddNothing(zeros, Rep(n, 10), 10);
    NumOfRep(n, 10);
  }

  lemma {:induction false} LeadingZero(digits: seq<nat>)
    requires digits != [] && digits[0] == 0
    ensures Num(digits, 10) == Num(digits[1..], 10)
  {
    assert digits == Zeros(1) + digits[1..];
    ZerosAddNothing(1, digits[1..], 10);
  }

  lemma {:induction false} OneMoreZero(zeros: nat, digits: seq<nat>)
    ensures Zeros(zeros + 1) + digits == [0] + (Zeros(zeros) + digits)
  {
  }

  /** Digits are some zeros and then a number that starts with another digit. */
  lemma {:induction false} ZerosThenNumber(digits: seq<nat>) returns (zeros: nat)
    requires AreDigits(digits, 10)
    ensures digits == Zeros(zeros) + Rep(Num(digits, 10), 10)
    decreases |digits|
  {
    if digits != [] && digits[0] == 0 {
      var rest := ZerosThenNumber(digits[1..]);
      LeadingZero(digits);
      OneMoreZero(rest, Rep(Num(digits, 10), 10));
      zeros := rest + 1;
    } else {
      zeros := 0;
      RepOfNum(digits, 10);
      assert Zeros(0) + digits == digits;
    }
  }

  /** Text writes a number exactly when it is a run of digits whose value is that number. */
  lemma {:induction false} WritesExactly(text: Bytes, n: nat)
    ensures Writes(text, n) <==> IsDigits(text) && Decimal(text) == n
  {
    if zeros :| text != [] && text == WrittenNumber(zeros, n) {
      WrittenReads(zeros, n);
    }
    if IsDigits(text) && Decimal(text) == n {
      var zeros := ZerosThenNumber(DigitValues(text));
      RepShape(n, 10);
      assert text == WrittenNumber(zeros, n);
    }
  }

  /** No text writes two numbers. */
  lemma {:induction false} WritesOne(text: Bytes, m: nat, n: nat)
    requires Writes(text, m) && Writes(text, n)
    ensures m == n
  {
    WritesExactly(text, m);
    WritesExactly(text, n);
  }

  /** The text of a number with no more digits than needed. */
  lemma {:induction false} NumeralWrites(n: nat)
    requires 0 < n
    ensures Writes(WrittenNumber(0, n), n)
  {
    RepShape(n, 10);
  }

  lemma {:induction false} TwoDigits(text: Bytes)
    requires |text| == 2 && AllDigits(text)
    ensures Decimal(text) == (text[0] - 48) * 10 + (text[1] - 48)
  {
    var d := DigitValues(text);
    assert d == [d[0]] + [d[1]] && [d[0]] == d[..0] + [d[0]];
    NumPush(d[..0], d[0], 10);
    NumPush([d[0]], d[1], 10);
  }

  /** The most significant digit comes first. */
  lemma {:induction false} SomeNumerals()
    ensures Writes(Ascii("70"), 70) && Writes(Ascii("07"), 7)
  {
    TwoDigits(Ascii("70"));
    TwoDigits(Ascii("07"));
    WritesExactly(Ascii("70"), 70);
    WritesExactly(Ascii("07"), 7);
  }
}
