/** Generated peer identifiers: the text "peer" followed by a decimal counter. */
module PeerIds {

  function Digit(d: nat): (c: char)
    requires d < 10
  {
    ['0', '1', '2', '3', '4', '5', '6', '7', '8', '9'][d]
  }

  /** The decimal text of a counter, without leading zeros. */
  function Decimal(n: nat): (s: string)
    ensures |s| > 0
  {
    if n < 10 then [Digit(n)] else Decimal(n / 10) + [Digit(n % 10)]
  }

  function DigitValue(c: char): (d: nat)
  {
    if '0' <= c <= '9' then (c as int) - ('0' as int) else 0
  }

  /** Reads a decimal text back. */
  function Value(s: string): (n: nat)
  {
    if s == "" then 0 else 10 * Value(s[..|s| - 1]) + DigitValue(s[|s| - 1])
  }

  function PeerName(n: nat): (id: string)
    ensures id != ""
  {
    "peer" + Decimal(n)
  }

  /** Reading the decimal text of a counter gives the counter back. */
  lemma {:induction false} ValueOfDecimal(n: nat)
    ensures Value(Decimal(n)) == n
  {
    if n >= 10 {
      ValueOfDecimal(n / 10);
      var s := Decimal(n);
      assert s[..|s| - 1] == Decimal(n / 10);
    } else {
      var s := Decimal(n);
      assert s[..|s| - 1] == "";
    }
  }

  /** An identifier is "peer" and the counter in decimal digits, which read as the counter; the first is "peer1". */
  lemma PeerNameReads(n: nat)
    ensures PeerName(n)[..4] == "peer" && Value(PeerName(n)[4..]) == n
    ensures PeerName(1) == "peer1" && PeerName(20) == "peer20"
  {
    assert PeerName(n)[4..] == Decimal(n);
    ValueOfDecimal(n);
  }

  /** Distinct counters give distinct peer identifiers. */
  lemma PeerNameInjective(m: nat, n: nat)
    ensures PeerName(m) == PeerName(n) ==> m == n
  {
    assert PeerName(m)[4..] == Decimal(m);
    assert PeerName(n)[4..] == Decimal(n);
    ValueOfDecimal(m);
    ValueOfDecimal(n);
  }
}
