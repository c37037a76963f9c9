/**
 * The two pieces of Java text formatting the controller's messages rely on:
 * string concatenation of an `int` (Integer.toString) and `List.toString()`.
 */
module JavaText {

  predicate IsDigit(c: char) {
    '0' <= c <= '9'
  }

  predicate AllDigits(s: string) {
    forall i :: 0 <= i < |s| ==> IsDigit(s[i])
  }

  function DigitValue(c: char): (d: nat)
    requires IsDigit(c)
    ensures d < 10
  {
    c as int - '0' as int
  }

  function DigitChar(d: nat): (c: char)
    requires d < 10
    ensures IsDigit(c) && DigitValue(c) == d
  {
    ('0' as int + d) as char
  }

  /** Decimal text of a non-negative number: at least one digit, no leading zero. */
  function NatToDecimal(n: nat): (s: string)
    ensures |s| >= 1 && AllDigits(s)
    ensures s[0] == '0' ==> n == 0
    decreases n
  {
    if n < 10 then [DigitChar(n)] else NatToDecimal(n / 10) + [DigitChar(n % 10)]
  }

  /** Reads back a run of decimal digits. */
  function ParseNat(s: string): nat
    requires AllDigits(s)
  {
    if s == [] then 0 else ParseNat(s[..|s| - 1]) * 10 + DigitValue(s[|s| - 1])
  }

  lemma {:induction false} NatDecimalRoundTrip(n: nat)
    ensures ParseNat(NatToDecimal(n)) == n
  {
    if n >= 10 {
      var s := NatToDecimal(n);
      assert s[..|s| - 1] == NatToDecimal(n / 10);
      NatDecimalRoundTrip(n / 10);
    }
  }

  /** Integer.toString: a minus sign for negative values, then the digits of the magnitude. */
  function IntToDecimal(n: int): (s: string)
    ensures |s| >= 1
    ensures s[0] == '-' <==> n < 0
  {
    if n < 0 then "-" + NatToDecimal(-n) else NatToDecimal(n)
  }

  predicate IsDecimalText(s: string) {
    if |s| >= 1 && s[0] == '-' then AllDigits(s[1..]) else AllDigits(s)
  }

  function ParseInt(s: string): int
    requires IsDecimalText(s)
  {
    if |s| >= 1 && s[0] == '-' then 0 - ParseNat(s[1..]) else ParseNat(s)
  }

  /** The text an id is printed as in a message determines the id. */
  lemma IntDecimalRoundTrip(n: int)
    ensures IsDecimalText(IntToDecimal(n)) && ParseInt(IntToDecimal(n)) == n
  {
    if n < 0 {
      assert IntToDecimal(n)[1..] == NatToDecimal(-n);
      NatDecimalRoundTrip(-n);
    } else {
      NatDecimalRoundTrip(n);
    }
  }

  lemma IntDecimalInjective(a: int, b: int)
    requires IntToDecimal(a) == IntToDecimal(b)
    ensures a == b
  {
    IntDecimalRoundTrip(a);
    IntDecimalRoundTrip(b);
  }

  /** The items of a list separated by ", ", as AbstractCollection.toString writes them. */
  function Join(items: seq<string>): string
  {
    if |items| == 0 then ""
    else if |items| == 1 then items[0]
    else items[0] + ", " + Join(items[1..])
  }

  /** List.toString(): the joined items between square brackets. */
  function ListText(items: seq<string>): (s: string)
    ensures |s| >= 2 && s[0] == '[' && s[|s| - 1] == ']'
    ensures items == [] ==> s == "[]"
    ensures |items| == 1 ==> s == "[" + items[0] + "]"
  {
    "[" + Join(items) + "]"
  }

  /** Joining one more item puts ", " and the item after the earlier ones. */
  lemma {:induction false} JoinSnoc(items: seq<string>, x: string)
    requires items != []
    ensures Join(items + [x]) == Join(items) + ", " + x
    decreases |items|
  {
    var all := items + [x];
    if |items| == 1 {
      assert all[1..] == [x];
    } else {
      assert all[1..] == items[1..] + [x];
      JoinSnoc(items[1..], x);
    }
  }

  /** The printed list of a further item is the earlier list with ", item" before the closing bracket. */
  lemma ListTextSnoc(items: seq<string>, x: string)
    requires items != []
    ensures ListText(items + [x]) == ListText(items)[..|ListText(items)| - 1] + ", " + x + "]"
  {
    JoinSnoc(items, x);
    assert ListText(items)[..|ListText(items)| - 1] == "[" + Join(items);
  }

}
