/** The two Python 2 string conversions the readers apply to grid cells:
    int() and str.isdigit().  Cells come from str.split(), so they never hold
    whitespace. */
module PyStr {
  import opened Arena

  predicate IsDigit(c: char)
  {
    '0' <= c <= '9'
  }

  /** str.isdigit() of a byte string: nonempty and only ASCII digits. */
  predicate IsDigits(s: string)
  {
    |s| > 0 && forall i :: 0 <= i < |s| ==> IsDigit(s[i])
  }

  /** The decimal value of a string of digits. */
  function DigitsValue(s: string): nat
    requires forall i :: 0 <= i < |s| ==> IsDigit(s[i])
    decreases |s|
  {
    if s == [] then 0 else 10 * DigitsValue(s[..|s| - 1]) + DigitVal(s[|s| - 1])
  }

  function DigitVal(c: char): nat
    requires IsDigit(c)
  {
    c as int - '0' as int
  }

  /** int(s): an optional sign followed by at least one digit; any other
      string raises ValueError (None here). */
  function ParseInt(s: string): (r: Option<int>)
    ensures r.Some? <==> IsDigits(s) || (|s| > 1 && (s[0] == '-' || s[0] == '+') && IsDigits(s[1..]))
    ensures IsDigits(s) ==> r == Some(DigitsValue(s))
    ensures r.Some? && s[0] == '-' ==> r.value == -(DigitsValue(s[1..]) as int)
    ensures r.Some? && s[0] == '+' ==> r.value == DigitsValue(s[1..])
  {
    if IsDigits(s) then Some(DigitsValue(s))
    else if |s| > 1 && s[0] == '-' && IsDigits(s[1..]) then Some(-(DigitsValue(s[1..]) as int))
    else if |s| > 1 && s[0] == '+' && IsDigits(s[1..]) then Some(DigitsValue(s[1..]))
    else None
  }

  /** The decimal numeral of n, as the corpus writes node numbers. */
  function Show(n: nat): (s: string)
    ensures IsDigits(s)
    decreases n
  {
    var d := ['0' + (n % 10) as char];
    if n < 10 then d else Show(n / 10) + d
  }

  /** Reading back a written number gives the number. */
  lemma {:induction false} ParseShow(n: nat)
    ensures ParseInt(Show(n)) == Some(n)
    decreases n
  {
    ValueShow(n);
  }

  lemma {:induction false} ValueShow(n: nat)
    ensures DigitsValue(Show(n)) == n
    decreases n
  {
    var s := Show(n);
    if n >= 10 {
      ValueShow(n / 10);
      assert s[..|s| - 1] == Show(n / 10);
    }
  }
}
