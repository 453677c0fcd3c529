/** Integers as text: what operator<< writes for an int, and what std::stoi reads back. */
module Numbers {
  import opened Errors

  /** The range of a 32-bit C++ int; std::stoi reports anything outside it as out of range. */
  const IntMin: int := -0x8000_0000
  const IntMax: int := 0x7fff_ffff

  predicate InIntRange(n: int) {
    IntMin <= n <= IntMax
  }

  predicate IsDigit(ch: char) {
    '0' <= ch <= '9'
  }

  /** The characters isspace accepts in the C locale: blank, \t, \n, \v, \f, \r. */
  predicate IsSpace(ch: char) {
    ch == ' ' || 9 <= ch as int <= 13
  }

  predicate AllDigits(s: string) {
    forall k :: 0 <= k < |s| ==> IsDigit(s[k])
  }

  function DigitChar(d: int): (ch: char)
    requires 0 <= d < 10
    ensures IsDigit(ch)
  {
    ('0' as int + d) as char
  }

  /** Decimal digits of n, most significant first. */
  function NatToString(n: nat): (s: string)
    ensures |s| > 0 && AllDigits(s)
  {
    if n < 10 then [DigitChar(n)] else NatToString(n / 10) + [DigitChar(n % 10)]
  }

  /** The text operator<< writes for n: a minus sign for negatives, then the decimal digits. */
  function IntToString(n: int): (s: string)
    ensures |s| > 0 && (s[0] == '-' <==> n < 0)
    ensures AllDigits(if n < 0 then s[1..] else s)
  {
    if n < 0 then "-" + NatToString(-n) else NatToString(n)
  }

  /** The number a run of decimal digits denotes. */
  function DigitsValue(s: string): nat
    requires AllDigits(s)
  {
    if s == [] then 0 else DigitsValue(s[..|s| - 1]) * 10 + (s[|s| - 1] as int - '0' as int)
  }

  /** s without its leading white space. */
  function SkipSpaces(s: string): string {
    if s != [] && IsSpace(s[0]) then SkipSpaces(s[1..]) else s
  }

  /** Length of the longest prefix of s made of digits. */
  function DigitRun(s: string): (n: nat)
    ensures n <= |s| && AllDigits(s[..n])
    ensures n < |s| ==> !IsDigit(s[n])
  {
    if s != [] && IsDigit(s[0]) then
      var n := 1 + DigitRun(s[1..]);
      assert s[..n] == [s[0]] + s[1..][..n - 1];
      n
    else 0
  }

  /** std::stoi in base 10: skip leading white space, take an optional sign and the longest run
      of digits (at least one), ignore whatever follows; no digits is invalid_argument, a value
      outside int is out_of_range. */
  function Stoi(s: string): (r: Result<int>)
    ensures r.Success? ==> InIntRange(r.value)
  {
    var t := SkipSpaces(s);
    if t != [] && (t[0] == '-' || t[0] == '+') then SignedDigits(t[1..], t[0] == '-')
    else SignedDigits(t, false)
  }

  /** The digits at the front of u, negated when a minus sign preceded them. */
  function SignedDigits(u: string, negative: bool): (r: Result<int>)
    ensures r.Success? ==> InIntRange(r.value)
  {
    var n := DigitRun(u);
    if n == 0 then Failure(MalformedFile)
    else
      var magnitude: int := DigitsValue(u[..n]);
      var v: int := if negative then -magnitude else magnitude;
      if InIntRange(v) then Success(v) else Failure(NumberOutOfRange)
  }

  lemma {:induction false} DigitsValueOfNatToString(n: nat)
    ensures DigitsValue(NatToString(n)) == n
  {
    if n >= 10 {
      var s := NatToString(n);
      assert s[..|s| - 1] == NatToString(n / 10);
      DigitsValueOfNatToString(n / 10);
    }
  }

  lemma {:induction false} SkipSpacesPrefix(pad: string, t: string)
    requires forall k :: 0 <= k < |pad| ==> IsSpace(pad[k])
    requires t != [] && !IsSpace(t[0])
    ensures SkipSpaces(pad + t) == t
  {
    if pad != [] {
      assert (pad + t)[1..] == pad[1..] + t;
      SkipSpacesPrefix(pad[1..], t);
    }
  }

  lemma DigitRunOfDigits(s: string)
    requires AllDigits(s)
    ensures DigitRun(s) == |s|
  {
  }

  lemma SignedDigitsOfNatToString(m: nat, negative: bool, v: int)
    requires v == if negative then -(m as int) else m
    ensures SignedDigits(NatToString(m), negative) == if InIntRange(v) then Success(v) else Failure(NumberOutOfRange)
  {
    var digits := NatToString(m);
    DigitRunOfDigits(digits);
    assert digits[..|digits|] == digits;
    DigitsValueOfNatToString(m);
  }

  /** std::stoi reads back what operator<< wrote, after any leading white space, when it fits
      in an int, and reports it out of range otherwise. */
  lemma StoiOfIntToString(pad: string, n: int)
    requires forall k :: 0 <= k < |pad| ==> IsSpace(pad[k])
    ensures Stoi(pad + IntToString(n)) == if InIntRange(n) then Success(n) else Failure(NumberOutOfRange)
  {
    var s := IntToString(n);
    var t := SkipSpaces(pad + s);
    assert t == s by { SkipSpacesPrefix(pad, s); }
    if n < 0 {
      var d := NatToString(-n);
      assert t[0] == '-' && t[1..] == d by { assert s == "-" + d; }
      SignedDigitsOfNatToString(-n, true, n);
    } else {
      var d := NatToString(n);
      assert t == d && IsDigit(t[0]);
      SignedDigitsOfNatToString(n, false, n);
    }
  }
}
