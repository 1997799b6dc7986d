/** Text as bytes: ASCII literals and decimal digits. */
module AsciiText {
  import opened Positional
  import opened Words

  function Ascii(s: string): Bytes
    requires forall i | 0 <= i < |s| :: s[i] as int < 128
  {
    seq<u8>(|s|, i requires 0 <= i < |s| => s[i] as int)
  }

  predicate AllDigits(text: Bytes) {
    forall i | 0 <= i < |text| :: 48 <= text[i] < 58
  }

  predicate IsDigits(text: Bytes) {
    text != [] && AllDigits(text)
  }

  function DigitValues(text: Bytes): seq<nat>
    requires AllDigits(text)
  {
    seq(|text|, i requires 0 <= i < |text| => text[i] - 48)
  }

  /** The number a run of decimal digits writes. */
  function Decimal(text: Bytes): nat
    requires AllDigits(text)
  {
    Num(DigitValues(text), 10)
  }

  lemma {:induction false} DecimalBelow(text: Bytes)
    requires AllDigits(text)
    ensures Decimal(text) < Pow(10, |text|)
  {
    NumBelow(DigitValues(text), 10);
  }
}
