/**
 * A stand-in for JavaScript's `parseFloat` as the controller uses it on hot
 * tokens: an optional sign, decimal digits, an optional fraction; whatever
 * follows the longest such prefix is ignored, and a token with no digit in
 * that prefix is not a number.
 */
module NumberParsing {
  import opened Types

  predicate IsDigit(c: char) { '0' <= c <= '9' }

  /** Length of the longest prefix of `s` made of decimal digits. */
  function DigitRun(s: string): (n: nat)
    ensures n <= |s|
    ensures forall i :: 0 <= i < n ==> IsDigit(s[i])
    ensures n < |s| ==> !IsDigit(s[n])
  {
    if s != [] && IsDigit(s[0]) then 1 + DigitRun(s[1..]) else 0
  }

  function DigitValue(c: char): nat
    requires IsDigit(c)
  {
    c as int - '0' as int
  }

  /** The value of a string of decimal digits, most significant digit first. */
  function DigitsValue(ds: string): nat
    requires forall i :: 0 <= i < |ds| ==> IsDigit(ds[i])
  {
    if ds == [] then 0 else DigitsValue(ds[..|ds| - 1]) * 10 + DigitValue(ds[|ds| - 1])
  }

  function Pow10(n: nat): (r: nat)
    ensures r >= 1
  {
    if n == 0 then 1 else 10 * Pow10(n - 1)
  }

  /** The value of the digits after a decimal point: 0.d1d2... */
  function FractionValue(ds: string): (v: real)
    requires forall i :: 0 <= i < |ds| ==> IsDigit(ds[i])
    ensures 0.0 <= v
  {
    DigitsValue(ds) as real / Pow10(|ds|) as real
  }

  /**
   * The number a token starts with, if any. A token that starts with a
   * digit always parses, to a non-negative value; a token that starts with
   * anything other than a digit, a sign or a point never does.
   */
  function ParseNumber(token: string): (r: Option<real>)
    ensures r.Some? ==> exists i :: 0 <= i < |token| && IsDigit(token[i])
    ensures |token| > 0 && IsDigit(token[0]) ==> r.Some? && r.value >= 0.0
    ensures |token| > 0 && !IsDigit(token[0]) && token[0] !in "+-." ==> r == None
  {
    var negative := |token| > 0 && token[0] == '-';
    var body := if |token| > 0 && (token[0] == '-' || token[0] == '+') then token[1..] else token;
    var n := DigitRun(body);
    var rest := body[n..];
    var f := if |rest| > 0 && rest[0] == '.' then DigitRun(rest[1..]) else 0;
    if n == 0 && f == 0 then None
    else
      var fraction := if f == 0 then 0.0 else FractionValue(rest[1..1 + f]);
      var magnitude := DigitsValue(body[..n]) as real + fraction;
      Some(if negative then -magnitude else magnitude)
  }

  /** "30" and "30%" both read as 30: the trailing percent sign is ignored. */
  lemma ParseThirty()
    ensures ParseNumber("30") == Some(30.0)
    ensures ParseNumber("30%") == Some(30.0)
  {
    assert DigitRun("") == 0;
    assert DigitRun("%") == 0;
    assert DigitRun("0") == 1;
    assert DigitRun("0%") == 1;
    assert DigitRun("30") == 2;
    assert DigitRun("30%") == 2;
    assert "30"[..2] == "30" && "30%"[..2] == "30";
    assert "30"[..1] == "3";
    assert DigitsValue("30") == 30;
  }

  /** A leading currency sign or a word is not a number; "8%" reads as 8. */
  lemma ParseCurrencyAndWords()
    ensures ParseNumber("$80") == None
    ensures ParseNumber("percent") == None
    ensures ParseNumber("8%") == Some(8.0)
  {
    assert DigitRun("%") == 0;
    assert DigitRun("8%") == 1;
    assert "8%"[..1] == "8";
    assert DigitsValue("8") == 8;
  }

  lemma ParseEighty()
    ensures ParseNumber("80") == Some(80.0)
  {
    assert DigitRun("") == 0;
    assert DigitRun("0") == 1;
    assert DigitRun("80") == 2;
    assert "80"[..2] == "80" && "80"[2..] == "";
    assert "80"[..1] == "8";
    assert DigitsValue("80") == 80;
  }

  /** A fraction after the point is read as tenths, hundredths, ... */
  lemma ParseDecimal()
    ensures ParseNumber("2.5") == Some(2.5)
  {
    var rest := "2.5"[1..];
    assert rest == ".5";
    assert rest[1..] == "5";
    assert DigitRun("") == 0;
    assert DigitRun("5") == 1;
    assert DigitRun(".5") == 0;
    assert DigitRun("2.5") == 1;
    assert "2.5"[..1] == "2";
    assert rest[1..2] == "5";
    assert DigitsValue("2") == 2;
    assert DigitsValue("5") == 5;
    assert Pow10(1) == 10;
  }
}
