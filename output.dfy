/** Output file names (main.go, saveImageToFile): fmt.Sprintf("%d.png", i). */
module Output {

  const Extension: string := ".png"

  function DigitChar(d: nat): (ch: char)
    requires d < 10
    ensures '0' <= ch <= '9' && DigitValue(ch) == d
  {
    ('0' as int + d) as char
  }

  function DigitValue(ch: char): nat
  {
    if '0' <= ch <= '9' then (ch - '0') as nat else 0
  }

  /** The decimal digits of n, without leading zeros. */
  function Digits(n: nat): (s: string)
    ensures |s| > 0
    ensures forall k :: 0 <= k < |s| ==> '0' <= s[k] <= '9'
    ensures s[0] == '0' ==> n == 0
  {
    if n < 10 then [DigitChar(n)] else Digits(n / 10) + [DigitChar(n % 10)]
  }

  /** %d: a minus sign for negative values, then the digits. */
  function Decimal(i: int): (r: string)
    ensures |r| > 0 && (r[0] == '-' <==> i < 0)
  {
    if i < 0 then "-" + Digits(-i) else Digits(i)
  }

  function OutputFileName(i: int): (name: string)
    ensures |name| > |Extension| && name[|name| - |Extension|..] == Extension
  {
    Decimal(i) + Extension
  }

  /** Reading a digit string back as a number. */
  function DigitsValue(s: string): nat
  {
    if |s| == 0 then 0 else 10 * DigitsValue(s[..|s| - 1]) + DigitValue(s[|s| - 1])
  }

  function ParseDecimal(s: string): int
  {
    if |s| > 0 && s[0] == '-' then 0 - DigitsValue(s[1..]) else DigitsValue(s)
  }

  lemma {:induction false} DigitsRoundTrip(n: nat)
    ensures DigitsValue(Digits(n)) == n
  {
    if n >= 10 {
      var s := Digits(n);
      assert s[..|s| - 1] == Digits(n / 10) && s[|s| - 1] == DigitChar(n % 10);
      DigitsRoundTrip(n / 10);
    }
  }

  /** Parsing the printed index gives the index back. */
  lemma DecimalRoundTrip(i: int)
    ensures ParseDecimal(Decimal(i)) == i
  {
    var s := Decimal(i);
    if i < 0 {
      var d := Digits(-i);
      assert s == "-" + d && s[0] == '-' && s[1..] == d;
      DigitsRoundTrip(-i);
    } else {
      assert s == Digits(i) && s[0] != '-';
      DigitsRoundTrip(i);
    }
  }

  /** Different indices are saved under different file names. */
  lemma OutputFileNamesDistinct(i: int, j: int)
    requires i != j
    ensures OutputFileName(i) != OutputFileName(j)
  {
    var a, b := OutputFileName(i), OutputFileName(j);
    if a == b {
      assert Decimal(i) == a[..|a| - |Extension|];
      assert Decimal(j) == b[..|b| - |Extension|];
      DecimalRoundTrip(i);
      DecimalRoundTrip(j);
    }
  }
}
