/** The few pieces of java.lang.String and java.lang.StringBuilder that the
    lessons rely on: substring search, decimal rendering of a row number by
    string concatenation, and an appendable buffer. */
module Text {

  /** `s.contains(t)`: t occurs in s at some offset (case-sensitive). The
      empty string occurs everywhere, s contains its own prefixes, and a
      longer string never occurs. */
  predicate Contains(s: string, t: string): (found: bool)
    ensures t == [] ==> found
    ensures t <= s ==> found
    ensures found ==> |t| <= |s|
  {
    assert s[0..] == s;
    exists i :: 0 <= i <= |s| && t <= s[i..]
  }

  /** What a string contains, any string around it contains too. */
  lemma ContainsInContext(a: string, s: string, b: string, t: string)
    requires Contains(s, t)
    ensures Contains(a + s + b, t)
  {
    var i :| 0 <= i <= |s| && t <= s[i..];
    var w := a + s + b;
    assert w[|a| + i..][..|t|] == s[i..][..|t|];
  }

  function DigitChar(d: nat): (c: char)
    requires d < 10
    ensures '0' <= c <= '9' && c as int - '0' as int == d
  {
    ('0' as int + d) as char
  }

  predicate AllDigits(s: string)
  {
    forall k :: 0 <= k < |s| ==> '0' <= s[k] <= '9'
  }

  /** How Java prints a non-negative int when it is concatenated to a
      string: its decimal digits, without leading zeros. */
  function DecimalString(n: nat): (s: string)
    ensures |s| > 0 && AllDigits(s)
    ensures s[0] == '0' ==> s == "0"
    decreases n
  {
    if n < 10 then [DigitChar(n)] else DecimalString(n / 10) + [DigitChar(n % 10)]
  }

  /** The number a string of decimal digits denotes. */
  function DecimalValue(s: string): nat
    requires AllDigits(s)
  {
    if s == [] then 0
    else DecimalValue(s[..|s| - 1]) * 10 + (s[|s| - 1] as int - '0' as int)
  }

  /** Reading the printed number back gives the number. */
  lemma {:induction false} DecimalRoundTrip(n: nat)
    ensures DecimalValue(DecimalString(n)) == n
  {
    if n >= 10 {
      var s := DecimalString(n / 10);
      var t := s + [DigitChar(n % 10)];
      assert t[..|t| - 1] == s;
      DecimalRoundTrip(n / 10);
    }
  }

  /** A java.lang.StringBuilder: a character buffer that only grows. */
  class StringBuilder {
    var content: string

    constructor ()
      ensures content == ""
    {
      content := "";
    }

    method Append(s: string)
      modifies this
      ensures content == old(content) + s
    {
      content := content + s;
    }

    function ToString(): string
      reads this
    {
      content
    }
  }
}
