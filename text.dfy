/** Character and string helpers with the semantics of the C/C++ library calls the generator uses:
    decimal rendering as by ostream <<, ::tolower and ::isspace in the "C" locale, and
    std::string::find returning npos (modelled as -1). */
module Text {

  predicate IsDigit(c: char) { '0' <= c <= '9' }

  predicate AllDigits(s: string) { forall i :: 0 <= i < |s| ==> IsDigit(s[i]) }

  /** ::isspace in the "C" locale. */
  predicate IsSpace(c: char) { c == ' ' || c == '\t' || c == '\n' || c == 11 as char || c == 12 as char || c == '\r' }

  function DigitChar(d: nat): (c: char)
    requires d < 10
    ensures IsDigit(c) && (c as int) - ('0' as int) == d
  {
    ['0', '1', '2', '3', '4', '5', '6', '7', '8', '9'][d]
  }

  function DigitValue(c: char): (d: nat)
    requires IsDigit(c)
    ensures d < 10
  {
    (c as int) - ('0' as int)
  }

  /** Value of a string of decimal digits, most significant first. */
  function DigitsValue(s: string): nat
    requires AllDigits(s)
  {
    if s == [] then 0 else 10 * DigitsValue(s[..|s| - 1]) + DigitValue(s[|s| - 1])
  }

  /** A natural number in canonical decimal: no leading zero except for 0 itself. */
  function NatToString(n: nat): (s: string)
    ensures |s| >= 1 && AllDigits(s)
    ensures |s| > 1 ==> s[0] != '0'
  {
    if n < 10 then [DigitChar(n)] else NatToString(n / 10) + [DigitChar(n % 10)]
  }

  /** Decimal rendering of an int, as ostream << does it. */
  function IntToString(n: int): string
  {
    if n < 0 then "-" + NatToString(-n) else NatToString(n)
  }

  lemma {:induction false} NatToStringValue(n: nat)
    ensures DigitsValue(NatToString(n)) == n
  {
    if n >= 10 {
      NatToStringValue(n / 10);
      var s := NatToString(n);
      assert s[..|s| - 1] == NatToString(n / 10);
    }
  }

  lemma NatToStringInjective(a: nat, b: nat)
    requires NatToString(a) == NatToString(b)
    ensures a == b
  {
    NatToStringValue(a);
    NatToStringValue(b);
  }

  /** The rendering starts with '-' exactly for negative numbers. */
  lemma SignShown(n: int)
    ensures |IntToString(n)| >= 1 && (IntToString(n)[0] == '-' <==> n < 0)
  {
    if n >= 0 {
      assert IsDigit(NatToString(n)[0]);
    }
  }

  /** Distinct numbers render differently. */
  lemma IntToStringInjective(a: int, b: int)
    requires IntToString(a) == IntToString(b)
    ensures a == b
  {
    SignShown(a);
    SignShown(b);
    if a < 0 && b < 0 {
      assert IntToString(a)[1..] == NatToString(-a);
      assert IntToString(b)[1..] == NatToString(-b);
      NatToStringInjective(-a, -b);
    } else if a >= 0 && b >= 0 {
      NatToStringInjective(a, b);
    }
  }

  /** ::tolower in the "C" locale: only 'A'..'Z' change. */
  function Lower(c: char): (r: char)
    ensures 'A' <= c <= 'Z' ==> 'a' <= r <= 'z' && (r as int) - (c as int) == 32
    ensures !('A' <= c <= 'Z') ==> r == c
  {
    if 'A' <= c <= 'Z' then (c as int + 32) as char else c
  }

  function LowerString(s: string): (r: string)
    ensures |r| == |s| && forall i :: 0 <= i < |s| ==> r[i] == Lower(s[i])
  {
    if s == [] then [] else [Lower(s[0])] + LowerString(s[1..])
  }

  /** s.find(c, from), with npos written -1. */
  function Find(s: string, c: char, from: nat): (r: int)
    ensures r == -1 || (from <= r < |s| && s[r] == c)
    decreases |s| - from
  {
    if from >= |s| then -1 else if s[from] == c then from else Find(s, c, from + 1)
  }

  /** No c lies between from and what Find returns (the end of s when it returns -1). */
  lemma {:induction false} FindSkips(s: string, c: char, from: nat, i: nat)
    requires from <= i < |s| && (Find(s, c, from) == -1 || i < Find(s, c, from))
    ensures s[i] != c
    decreases |s| - from
  {
    if from < i {
      FindSkips(s, c, from + 1, i);
    }
  }

  /** FindSkips for every position at once. */
  lemma FindSkipsAll(s: string, c: char, from: nat)
    ensures forall i :: from <= i < |s| && (Find(s, c, from) == -1 || i < Find(s, c, from)) ==> s[i] != c
  {
    forall i | from <= i < |s| && (Find(s, c, from) == -1 || i < Find(s, c, from)) {
      FindSkips(s, c, from, i);
    }
  }

  /** Find passes over positions that are not c. */
  lemma {:induction false} FindPast(s: string, c: char, from: nat, to: nat)
    requires from <= to <= |s| && forall i :: from <= i < to ==> s[i] != c
    ensures Find(s, c, from) == Find(s, c, to)
    decreases |s| - from
  {
    if from < to {
      FindPast(s, c, from + 1, to);
    }
  }

  /** Find passes over a slice without c. */
  lemma FindPastSlice(s: string, c: char, from: nat, to: nat)
    requires from <= to <= |s| && Find(s[from..to], c, 0) == -1
    ensures Find(s, c, from) == Find(s, c, to)
  {
    var p := s[from..to];
    FindSkipsAll(p, c, 0);
    forall i | from <= i < to
      ensures s[i] != c
    {
      assert s[i] == p[i - from];
    }
    FindPast(s, c, from, to);
  }

  /** Find returns the first c at or after from. */
  lemma {:induction false} FindIs(s: string, c: char, from: nat, k: int)
    requires from <= |s|
    requires k == -1 || (from <= k < |s| && s[k] == c)
    requires forall i :: from <= i < |s| && (k == -1 || i < k) ==> s[i] != c
    ensures Find(s, c, from) == k
    decreases |s| - from
  {
    if from < |s| && from != k {
      FindIs(s, c, from + 1, k);
    }
  }

  /** s.substr(pos, len) when pos <= |s|: at most len characters from pos; len < 0 stands for npos. */
  function Substr(s: string, pos: nat, len: int): (r: string)
    requires pos <= |s|
    ensures len < 0 || pos + len >= |s| ==> r == s[pos..]
    ensures 0 <= len && pos + len < |s| ==> r == s[pos..pos + len]
  {
    if len < 0 || pos + len >= |s| then s[pos..] else s[pos..pos + len]
  }

  /** s[j] for 0 <= j <= |s|: std::string yields '\0' at index size(). */
  function CharAt(s: string, j: nat): char
    requires j <= |s|
  {
    if j == |s| then '\0' else s[j]
  }

  function Pow10(n: nat): (r: nat)
    ensures r >= 1
  {
    if n == 0 then 1 else 10 * Pow10(n - 1)
  }

  /** The digits of a followed by those of b. */
  lemma {:induction false} DigitsValueAppend(a: string, b: string)
    requires AllDigits(a) && AllDigits(b)
    ensures AllDigits(a + b)
    ensures DigitsValue(a + b) == DigitsValue(a) * Pow10(|b|) + DigitsValue(b)
  {
    var ab := a + b;
    assert AllDigits(ab) by {
      assert forall i :: 0 <= i < |ab| ==> ab[i] == (if i < |a| then a[i] else b[i - |a|]);
    }
    if b != [] {
      var b0 := b[..|b| - 1];
      assert ab[..|ab| - 1] == a + b0;
      assert AllDigits(b0) by { assert forall i :: 0 <= i < |b0| ==> b0[i] == b[i]; }
      DigitsValueAppend(a, b0);
      assert DigitsValue(ab) == 10 * DigitsValue(a + b0) + DigitValue(b[|b| - 1]);
      assert DigitsValue(b) == 10 * DigitsValue(b0) + DigitValue(b[|b| - 1]);
      TimesTen(DigitsValue(a), Pow10(|b0|));
    } else {
      assert ab == a;
    }
  }

  lemma TimesTen(x: int, p: int)
    ensures 10 * (x * p) == x * (10 * p)
  {
  }

  /** The value of n digits is below 10^n. */
  lemma {:induction false} DigitsValueBound(s: string)
    requires AllDigits(s)
    ensures DigitsValue(s) < Pow10(|s|)
  {
    if s != [] {
      var s0 := s[..|s| - 1];
      assert AllDigits(s0) by { assert forall i :: 0 <= i < |s0| ==> s0[i] == s[i]; }
      DigitsValueBound(s0);
    }
  }

  /** The first position at or after i that is not a space (isspace), or |s|. */
  function SkipSpaces(s: string, i: nat): (j: nat)
    requires i <= |s|
    ensures i <= j <= |s| && (j < |s| ==> !IsSpace(s[j]))
    ensures forall k :: i <= k < j ==> IsSpace(s[k])
    decreases |s| - i
  {
    if i < |s| && IsSpace(s[i]) then SkipSpaces(s, i + 1) else i
  }

  /** The end of the run of decimal digits starting at i. */
  function DigitRun(s: string, i: nat): (j: nat)
    requires i <= |s|
    ensures i <= j <= |s| && (j < |s| ==> !IsDigit(s[j]))
    ensures AllDigits(s[i..j])
    decreases |s| - i
  {
    if i < |s| && IsDigit(s[i]) then
      var j := DigitRun(s, i + 1);
      assert forall k :: 0 <= k < j - i ==> s[i..j][k] == s[i + k];
      j
    else i
  }

  /** On a string of digits the run reaches its end. */
  lemma DigitRunAll(s: string, i: nat)
    requires i <= |s| && AllDigits(s[i..])
    ensures DigitRun(s, i) == |s|
    decreases |s| - i
  {
    if i < |s| {
      assert s[i] == s[i..][0];
      var t := s[i + 1..];
      assert forall k :: 0 <= k < |t| ==> t[k] == s[i..][k + 1];
      DigitRunAll(s, i + 1);
    }
  }
}

