/** The command-line front end of src/UserInterface.cpp: key=value lookup in an argument vector,
    the typed parsers built on it (with the C library conversions stoi and stod), the grouping of
    the command line into global options and operator specifications, the global operator list,
    the factory registry, and the parsing of a factory's category and parameter descriptions. */
module UserInterface {
  import opened Results
  import opened Text
  import opened Bits

  // ---------------------------------------------------------------- getVal

  /** An argument is a key=value pair when it has an '=' that is not its first character. */
  predicate IsPair(a: string) { Find(a, '=', 0) > 0 }

  function KeyOf(a: string): string
    requires IsPair(a)
  {
    LowerString(a[..Find(a, '=', 0)])
  }

  function ValueOf(a: string): string
    requires IsPair(a)
  {
    a[Find(a, '=', 0) + 1..]
  }

  /** The lookup getVal performs from position i on, key being lower-case already: the value of
      the first entry whose key matches, with that entry removed, or "" and the arguments
      unchanged; an entry that is not a pair met before the match is an error. */
  function Scan(args: seq<string>, key: string, i: nat): Result<(string, seq<string>)>
    requires 1 <= i <= |args|
    decreases |args| - i
  {
    if i == |args| then Ok(("", args))
    else if !IsPair(args[i]) then Err("This doesn't seem to be a key=value pair: " + args[i])
    else if KeyOf(args[i]) == key then Ok((ValueOf(args[i]), args[..i] + args[i + 1..]))
    else Scan(args, key, i + 1)
  }

  /** getVal's result, args[0] being the operator name and never looked at. */
  function LookUp(args: seq<string>, keyArg: string): Result<(string, seq<string>)>
    requires |args| >= 1
  {
    Scan(args, LowerString(keyArg), 1)
  }

  /** The entries before i are pairs with a key other than key. */
  predicate Passed(args: seq<string>, key: string, i: nat)
    requires i <= |args|
  {
    forall j :: 1 <= j < i ==> IsPair(args[j]) && KeyOf(args[j]) != key
  }

  /** What getVal computes, case by case: an error at the first malformed entry, the value and
      the rest at the first matching pair, or "" with nothing removed when no entry matches. */
  lemma ScanCases(args: seq<string>, key: string, i: nat)
    requires 1 <= i <= |args| && Passed(args, key, i)
    ensures Scan(args, key, i).Err? <==>
      exists e :: i <= e < |args| && Passed(args, key, e) && !IsPair(args[e])
    ensures forall m :: i <= m < |args| && Passed(args, key, m) && IsPair(args[m]) && KeyOf(args[m]) == key ==>
      Scan(args, key, i) == Ok((ValueOf(args[m]), args[..m] + args[m + 1..]))
    ensures Passed(args, key, |args|) ==> Scan(args, key, i) == Ok(("", args))
  {
    ScanError(args, key, i);
    forall m | i <= m < |args| && Passed(args, key, m) && IsPair(args[m]) && KeyOf(args[m]) == key
      ensures Scan(args, key, i) == Ok((ValueOf(args[m]), args[..m] + args[m + 1..]))
    {
      ScanMatch(args, key, i, m);
    }
    if Passed(args, key, |args|) {
      ScanNone(args, key, i);
    }
  }

  /** The lookup fails exactly when a malformed entry comes before any match. */
  lemma {:induction false} ScanError(args: seq<string>, key: string, i: nat)
    requires 1 <= i <= |args| && Passed(args, key, i)
    ensures Scan(args, key, i).Err? <==>
      exists e :: i <= e < |args| && Passed(args, key, e) && !IsPair(args[e])
    decreases |args| - i
  {
    if i < |args| && IsPair(args[i]) && KeyOf(args[i]) != key {
      assert Passed(args, key, i + 1);
      ScanError(args, key, i + 1);
      forall e | i <= e < |args| && Passed(args, key, e) && !IsPair(args[e])
        ensures e > i
      {
      }
    } else if i < |args| && IsPair(args[i]) {
      forall e | i < e < |args|
        ensures !Passed(args, key, e)
      {
        assert !(IsPair(args[i]) && KeyOf(args[i]) != key);
      }
    }
  }

  /** The first matching pair, with only non-matching pairs before it, gives the result. */
  lemma {:induction false} ScanMatch(args: seq<string>, key: string, i: nat, m: nat)
    requires 1 <= i <= m < |args| && Passed(args, key, m) && IsPair(args[m]) && KeyOf(args[m]) == key
    ensures Scan(args, key, i) == Ok((ValueOf(args[m]), args[..m] + args[m + 1..]))
    decreases m - i
  {
    if i < m {
      assert IsPair(args[i]) && KeyOf(args[i]) != key;
      ScanMatch(args, key, i + 1, m);
    }
  }

  /** With no match and no malformed entry, the lookup gives "" and the arguments unchanged. */
  lemma {:induction false} ScanNone(args: seq<string>, key: string, i: nat)
    requires 1 <= i <= |args| && Passed(args, key, |args|)
    ensures Scan(args, key, i) == Ok(("", args))
    decreases |args| - i
  {
    if i < |args| {
      assert IsPair(args[i]) && KeyOf(args[i]) != key;
      ScanNone(args, key, i + 1);
    }
  }

  /** getVal: the keys are compared in lower case; the matching entry is erased. */
  method GetVal(args: seq<string>, keyArg: string) returns (r: Result<(string, seq<string>)>)
    requires |args| >= 1
    ensures r == LookUp(args, keyArg)
  {
    var key := LowerString(keyArg);
    var i := 1;
    while i < |args|
      invariant 1 <= i <= |args|
      invariant Scan(args, key, 1) == Scan(args, key, i)
    {
      var eqPos := Find(args[i], '=', 0);
      if eqPos == -1 || eqPos == 0 {
        return Err("This doesn't seem to be a key=value pair: " + args[i]);
      }
      var k := LowerString(args[i][..eqPos]);
      if k == key {
        var val := args[i][eqPos + 1..];
        return Ok((val, args[..i] + args[i + 1..]));
      }
      i := i + 1;
    }
    r := Ok(("", args));
  }

  // ---------------------------------------------------------------- typed parsers

  /** The value a parser goes on with: the one given, else (for an operator parameter) the
      factory's default defaultVal, "" standing for none. A missing generic option yields None,
      the variable being left as it was; a missing parameter without default is an error. When
      useDefault is false (parseStrictlyPositiveInt on the global options) the empty value is
      kept and fails the conversion. */
  function Fetch(args: seq<string>, key: string, defaultVal: string, genericOption: bool, useDefault: bool): (r: Result<(Option<string>, seq<string>)>)
    requires |args| >= 1
    ensures r.Err? <==> (LookUp(args, key).Err?
      || (LookUp(args, key).value.0 == "" && !genericOption && useDefault && defaultVal == ""))
    ensures r.Ok? ==> r.value.1 == LookUp(args, key).value.1
    ensures r.Ok? ==> (r.value.0.None? <==> LookUp(args, key).value.0 == "" && genericOption)
    ensures r.Ok? && LookUp(args, key).value.0 != "" ==> r.value.0 == Some(LookUp(args, key).value.0)
    ensures r.Ok? && LookUp(args, key).value.0 == "" && !genericOption ==> r.value.0 == Some(if useDefault then defaultVal else "")
  {
    match LookUp(args, key)
    case Err(m) => Err(m)
    case Ok((val, rest)) =>
      if val != "" then Ok((Some(val), rest))
      else if genericOption then Ok((None, rest))
      else if !useDefault then Ok((Some(""), rest))
      else if defaultVal == "" then Err(args[0] + ": argument " + key + " not provided, and there doesn't seem to be a default value.")
      else Ok((Some(defaultVal), rest))
  }

  predicate IsTrueWord(v: string) { v == "1" || v == "yes" || v == "true" || v == "Yes" || v == "True" }
  predicate IsFalseWord(v: string) { v == "0" || v == "no" || v == "false" || v == "No" || v == "False" }

  /** The test parseBoolean applies to the value. */
  function BooleanValue(v: string): (r: Result<bool>)
    ensures r == Ok(true) <==> IsTrueWord(v)
    ensures r == Ok(false) <==> IsFalseWord(v)
    ensures r.Err? <==> !IsTrueWord(v) && !IsFalseWord(v)
  {
    if IsTrueWord(v) then Ok(true)
    else if IsFalseWord(v) then Ok(false)
    else Err("expected boolean, got " + v)
  }

  const IntMin: int := -0x8000_0000
  const IntMax: int := 0x7FFF_FFFF

  /** The digit loop of the C conversions: the run of decimal digits from i, each appended to
      the accumulator acc. Gives the end of the run and the accumulated value. */
  function ScanDigits(s: string, i: nat, acc: nat): (r: (nat, nat))
    requires i <= |s|
    ensures i <= r.0 <= |s| && (r.0 < |s| ==> !IsDigit(s[r.0]))
    decreases |s| - i
  {
    if i < |s| && IsDigit(s[i]) then ScanDigits(s, i + 1, 10 * acc + DigitValue(s[i])) else (i, acc)
  }

  /** The scan stops at the first non-digit j, and its value is that of the digits already
      read (p) followed by s[i..j]. */
  lemma {:induction false} ScanDigitsValue(s: string, i: nat, j: nat, p: string)
    requires i <= j <= |s| && AllDigits(s[i..j]) && (j < |s| ==> !IsDigit(s[j])) && AllDigits(p)
    ensures AllDigits(p + s[i..j])
    ensures ScanDigits(s, i, DigitsValue(p)) == (j, DigitsValue(p + s[i..j]))
    decreases j - i
  {
    var q := p + s[i..j];
    assert AllDigits(q) by {
      assert forall k :: 0 <= k < |q| ==> q[k] == (if k < |p| then p[k] else s[i..j][k - |p|]);
    }
    if i < j {
      assert s[i] == s[i..j][0];
      var p1 := p + [s[i]];
      assert AllDigits(p1) by {
        assert forall k :: 0 <= k < |p1| ==> p1[k] == (if k < |p| then p[k] else s[i]);
      }
      assert p1[..|p1| - 1] == p;
      assert DigitsValue(p1) == 10 * DigitsValue(p) + DigitValue(s[i]);
      var t := s[i + 1..j];
      assert forall k :: 0 <= k < |t| ==> t[k] == s[i..j][k + 1];
      ScanDigitsValue(s, i + 1, j, p1);
      assert p1 + s[i + 1..j] == q;
    } else {
      assert q == p;
    }
  }

  /** std::stoi(s, &end): leading spaces, an optional sign and at least one digit, converted in
      base 10; invalid_argument when there is no digit, out_of_range outside the int range.
      Gives the value and end, the position after the last digit. */
  function Stoi(s: string): (r: Result<(int, nat)>)
    ensures r.Ok? ==> IntMin <= r.value.0 <= IntMax && r.value.1 <= |s|
  {
    var (negative, i1) := SignAt(s, SkipSpaces(s, 0));
    var (e, n) := ScanDigits(s, i1, 0);
    if e == i1 then Err("invalid_argument: stoi")
    else
      var v: int := if negative then 0 - n else n;
      if v < IntMin || v > IntMax then Err("out_of_range: stoi") else Ok((v, e))
  }

  /** The value test of parseInt: stoi must consume the whole, non-empty string. */
  function IntValue(v: string): Result<int>
  {
    match Stoi(v)
    case Err(m) => Err(m)
    case Ok((x, end)) => if |v| == 0 || |v| != end then Err("expecting an int, got " + v) else Ok(x)
  }

  /** Every int is read back by parseInt from its decimal rendering. */
  lemma IntValueOfString(n: int)
    requires IntMin <= n <= IntMax
    ensures IntValue(IntToString(n)) == Ok(n)
  {
    StoiOfString(n);
  }

  /** stoi reads the whole decimal rendering of n back as n. */
  lemma StoiOfString(n: int)
    requires IntMin <= n <= IntMax
    ensures Stoi(IntToString(n)) == Ok((n, |IntToString(n)|))
  {
    var s := IntToString(n);
    var m: nat := if n < 0 then -n else n;
    var i1: nat := if n < 0 then 1 else 0;
    SignedRendering(n);
    ScanDigitsValue(s, i1, |s|, "");
    assert "" + s[i1..|s|] == NatToString(m);
    NatToStringValue(m);
  }

  /** The rendering of n: no leading space, a '-' exactly for a negative n, then the digits of |n|. */
  lemma SignedRendering(n: int)
    ensures var i1: nat := if n < 0 then 1 else 0;
      && SkipSpaces(IntToString(n), 0) == 0
      && SignAt(IntToString(n), 0) == (n < 0, i1)
      && i1 <= |IntToString(n)|
      && IntToString(n)[i1..|IntToString(n)|] == NatToString(if n < 0 then -n else n)
  {
    var s := IntToString(n);
    SignShown(n);
    var m: nat := if n < 0 then -n else n;
    var d := NatToString(m);
    var i1: nat := if n < 0 then 1 else 0;
    assert s[i1..] == d;
    if n >= 0 {
      assert s[0] == d[0] && IsDigit(d[0]);
    }
    assert SkipSpaces(s, 0) == 0;
    assert s[i1..|s|] == d;
  }

  /** An optional sign at i: whether it is '-', and where the number proper starts. */
  function SignAt(s: string, i: nat): (r: (bool, nat))
    requires i <= |s|
    ensures r.0 <==> i < |s| && s[i] == '-'
    ensures r.1 == (if i < |s| && (s[i] == '-' || s[i] == '+') then i + 1 else i)
  {
    if i < |s| && (s[i] == '-' || s[i] == '+') then (s[i] == '-', i + 1) else (false, i)
  }

  /** The digits of a stod numeral from i1, with at most one '.': the value of all its digits,
      the number of digits after the point, and its end; None when it has no digit. */
  function Mantissa(s: string, i1: nat): (r: Option<(nat, nat, nat)>)
    requires i1 <= |s|
    ensures r.Some? ==> i1 < r.value.2 <= |s|
  {
    var (a, whole) := ScanDigits(s, i1, 0);
    if a < |s| && s[a] == '.' then
      var (b, n) := ScanDigits(s, a + 1, whole);
      if a == i1 && b == a + 1 then None else Some((n, b - a - 1, b))
    else if a == i1 then None
    else Some((whole, 0, a))
  }

  /** The optional exponent of a stod numeral at b: 'e' or 'E', an optional sign and at least
      one digit. Its value and the end of the numeral, which stays b (exponent 0) when the
      exponent is absent or has no digit. */
  function ExponentPart(s: string, b: nat): (r: (int, nat))
    requires b <= |s|
    ensures b <= r.1 <= |s|
    ensures r.1 == b ==> r.0 == 0
    ensures b == |s| || (s[b] != 'e' && s[b] != 'E') ==> r == (0, b)
  {
    if b < |s| && (s[b] == 'e' || s[b] == 'E') then
      var (negative, k1) := SignAt(s, b + 1);
      var (c, d) := ScanDigits(s, k1, 0);
      if c == k1 then (0, b) else (if negative then 0 - d else d, c)
    else (0, b)
  }

  /** n with k decimal zeros appended. */
  function ShiftUp(n: nat, k: nat): nat
  {
    if k == 0 then n else 10 * ShiftUp(n, k - 1)
  }

  /** n with its k last decimal digits dropped. */
  function ShiftDown(n: nat, k: nat): nat
  {
    if k == 0 then n else ShiftDown(n / 10, k - 1)
  }

  lemma {:induction false} ShiftUpIsProduct(n: nat, k: nat)
    ensures ShiftUp(n, k) == n * Pow10(k)
  {
    if k > 0 {
      ShiftUpIsProduct(n, k - 1);
      TimesTen(n, Pow10(k - 1));
    }
  }

  /** ShiftDown is the quotient by 10^k, rounded down. */
  lemma {:induction false} ShiftDownIsQuotient(n: nat, k: nat)
    ensures ShiftDown(n, k) * Pow10(k) <= n < (ShiftDown(n, k) + 1) * Pow10(k)
  {
    if k > 0 {
      var q := n / 10;
      ShiftDownIsQuotient(q, k - 1);
      var t := ShiftDown(q, k - 1);
      var p := Pow10(k - 1);
      TimesTen(t, p);
      TimesTen(t + 1, p);
      assert 10 * (t * p) <= 10 * q <= n;
      assert n < 10 * q + 10 <= 10 * ((t + 1) * p);
    }
  }

  /** Dropping the digits of f from the value of a + f leaves the value of a. */
  lemma {:induction false} ShiftDownDigits(a: string, f: string)
    requires AllDigits(a) && AllDigits(f) && AllDigits(a + f)
    ensures ShiftDown(DigitsValue(a + f), |f|) == DigitsValue(a)
  {
    if f != [] {
      var f0 := f[..|f| - 1];
      var af := a + f;
      assert af[..|af| - 1] == a + f0;
      assert AllDigits(f0) by { assert forall k :: 0 <= k < |f0| ==> f0[k] == f[k]; }
      assert AllDigits(a + f0) by { assert forall k :: 0 <= k < |a + f0| ==> (a + f0)[k] == af[k]; }
      assert DigitsValue(af) / 10 == DigitsValue(a + f0);
      ShiftDownDigits(a, f0);
    } else {
      assert a + f == a;
    }
  }

  /** n * 10^(ex - fracLen) truncated toward zero, n being the digits of a numeral with fracLen
      digits after the point and ex its exponent. */
  function ScaleTruncated(n: nat, fracLen: nat, ex: int): nat
  {
    if ex >= fracLen then ShiftUp(n, ex - fracLen) else ShiftDown(n, fracLen - ex)
  }

  /** std::stod(s, &end) on decimal numerals: spaces, a sign, digits with at most one '.', at
      least one digit, and an optional exponent. The value, converted to int as parseFloat does
      through "int intval", truncated toward zero, and end. */
  function StodTruncated(s: string): (r: Result<(int, nat)>)
    ensures r.Ok? ==> IntMin <= r.value.0 <= IntMax && r.value.1 <= |s|
  {
    var (negative, i1) := SignAt(s, SkipSpaces(s, 0));
    match Mantissa(s, i1)
    case None => Err("invalid_argument: stod")
    case Some((n, fracLen, b)) =>
      var (ex, end) := ExponentPart(s, b);
      match ToInt(negative, ScaleTruncated(n, fracLen, ex))
      case Err(m) => Err(m)
      case Ok(v) => Ok((v, end))
  }

  /** The conversion "int intval = d" of a double of magnitude t (truncated already), which is
      undefined behaviour out of the int range. */
  function ToInt(negative: bool, t: nat): (r: Result<int>)
    ensures r.Ok? <==> (if negative then IntMin <= 0 - t else t <= IntMax)
    ensures r.Ok? ==> r.value == (if negative then 0 - t else t)
  {
    var v: int := if negative then 0 - t else t;
    if v < IntMin || v > IntMax then Err("undefined: double out of the int range") else Ok(v)
  }

  /** The value test of parseFloat. */
  function FloatValue(v: string): Result<int>
  {
    match StodTruncated(v)
    case Err(m) => Err(m)
    case Ok((x, end)) => if |v| == 0 || |v| != end then Err("expecting a float, got " + v) else Ok(x)
  }

  /** parseFloat keeps only the integer part: digits a, a point and digits f give a, with
      the sign kept. stod rounds to the nearest double before the conversion to int truncates;
      with at most 15 digits the numeral lies at least 10^-|f| below a + 1, which is more than
      half an ulp of a + 1, so the nearest double still lies in [a, a + 1) and the truncation of
      the exact value, which the model computes, is the source's. */
  lemma FloatValueTruncates(a: string, f: string, negative: bool)
    requires |a| >= 1 && AllDigits(a) && AllDigits(f) && DigitsValue(a) <= IntMax
    requires |a| + |f| <= 15
    ensures FloatValue((if negative then "-" else "") + a + "." + f) == Ok(if negative then 0 - DigitsValue(a) else DigitsValue(a))
  {
    var sg := if negative then "-" else "";
    NumeralParts(sg, a, f);
    FloatValueOfParts(sg + a + "." + f, negative, |sg|, a, f);
  }

  /** FloatValueTruncates on a string described by its pieces. */
  lemma FloatValueOfParts(s: string, negative: bool, i1: nat, a: string, f: string)
    requires |a| >= 1 && AllDigits(a) && AllDigits(f) && DigitsValue(a) <= IntMax
    requires i1 == (if negative then 1 else 0) && |s| == i1 + |a| + 1 + |f|
    requires !IsSpace(s[0]) && (s[0] == '-' <==> negative) && s[0] != '+'
    requires s[i1..i1 + |a|] == a && s[i1 + |a|] == '.' && s[i1 + |a| + 1..] == f
    ensures FloatValue(s) == Ok(if negative then 0 - DigitsValue(a) else DigitsValue(a))
  {
    assert SkipSpaces(s, 0) == 0;
    assert SignAt(s, 0) == (negative, i1);
    var n := MantissaOfNumeral(s, i1, a, f);
    assert ExponentPart(s, |s|) == (0, |s|);
    StodOfParts(s, negative, i1, n, |f|, |s|, 0, |s|, DigitsValue(a));
  }

  /** stod from the results of its parts. */
  lemma StodOfParts(s: string, negative: bool, i1: nat, n: nat, fracLen: nat, b: nat, ex: int, end: nat, t: nat)
    requires SignAt(s, SkipSpaces(s, 0)) == (negative, i1) && i1 <= |s|
    requires Mantissa(s, i1) == Some((n, fracLen, b)) && b <= |s| && ExponentPart(s, b) == (ex, end)
    requires ScaleTruncated(n, fracLen, ex) == t && t <= IntMax
    ensures StodTruncated(s) == Ok((if negative then 0 - t else t, end))
  {
  }

  /** The mantissa a.f read from i1, ending the string: its digits give back a once the
      fraction is dropped. */
  lemma MantissaOfNumeral(s: string, i1: nat, a: string, f: string) returns (n: nat)
    requires i1 + |a| < |s| && |a| >= 1 && AllDigits(a) && AllDigits(f)
    requires s[i1..i1 + |a|] == a && s[i1 + |a|] == '.' && s[i1 + |a| + 1..] == f
    ensures Mantissa(s, i1) == Some((n, |f|, |s|))
    ensures ScaleTruncated(n, |f|, 0) == DigitsValue(a)
  {
    var p := i1 + |a|;
    WholeDigits(s, i1, a);
    assert s[p + 1..|s|] == f;
    ScanDigitsValue(s, p + 1, |s|, a);
    n := DigitsValue(a + f);
    MantissaOfScans(s, i1, p, DigitsValue(a), n);
    ShiftDownDigits(a, f);
  }

  /** The integer part a of the numeral is scanned from i1 up to the '.'. */
  lemma WholeDigits(s: string, i1: nat, a: string)
    requires i1 + |a| < |s| && AllDigits(a) && s[i1..i1 + |a|] == a && s[i1 + |a|] == '.'
    ensures ScanDigits(s, i1, 0) == (i1 + |a|, DigitsValue(a))
  {
    assert "" + a == a;
    ScanDigitsValue(s, i1, i1 + |a|, "");
  }

  /** Mantissa from the results of its two scans. */
  lemma MantissaOfScans(s: string, i1: nat, p: nat, whole: nat, n: nat)
    requires i1 < p < |s| && s[p] == '.'
    requires ScanDigits(s, i1, 0) == (p, whole) && ScanDigits(s, p + 1, whole) == (|s|, n)
    ensures Mantissa(s, i1) == Some((n, |s| - p - 1, |s|))
  {
  }

  /** The pieces of the numeral sign + a + "." + f. */
  lemma NumeralParts(sg: string, a: string, f: string)
    requires |sg| <= 1 && (|sg| == 1 ==> sg[0] == '-') && |a| >= 1 && AllDigits(a) && AllDigits(f)
    ensures var s := sg + a + "." + f;
      && !IsSpace(s[0]) && (s[0] == '-' <==> |sg| == 1) && s[0] != '+'
      && s[|sg|..|sg| + |a|] == a && s[|sg| + |a|] == '.' && s[|sg| + |a| + 1..] == f
  {
    var s := sg + a + "." + f;
    assert s[|sg|] == a[0] && IsDigit(a[0]);
    assert s[|sg|..|sg| + |a|] == a;
    assert s[|sg| + |a| + 1..] == f;
  }

  /** parseBoolean for key: the new value of the variable (None: left unchanged) and the
      remaining arguments. */
  function ParseBoolean(args: seq<string>, key: string, defaultVal: string, genericOption: bool): (r: Result<(Option<bool>, seq<string>)>)
    requires |args| >= 1
    ensures var f := Fetch(args, key, defaultVal, genericOption, true);
      && (f.Err? ==> r.Err?)
      && (f.Ok? && f.value.0.None? ==> r == Ok((None, f.value.1)))
      && (f.Ok? && f.value.0.Some? ==>
            && (r == Ok((Some(true), f.value.1)) <==> IsTrueWord(f.value.0.value))
            && (r == Ok((Some(false), f.value.1)) <==> IsFalseWord(f.value.0.value))
            && (r.Err? <==> (!IsTrueWord(f.value.0.value) && !IsFalseWord(f.value.0.value))))
  {
    var (v, rest) :- Fetch(args, key, defaultVal, genericOption, true);
    if v.None? then Ok((None, rest))
    else
      var b :- BooleanValue(v.value);
      Ok((Some(b), rest))
  }

  /** parseInt, parsePositiveInt (bound 0) and parseStrictlyPositiveInt (bound 1): the value
      must be a whole int not below the bound (none for parseInt). */
  function ParseIntAtLeast(args: seq<string>, key: string, defaultVal: string, genericOption: bool, useDefault: bool, bound: Option<int>): (r: Result<(Option<int>, seq<string>)>)
    requires |args| >= 1
    ensures var f := Fetch(args, key, defaultVal, genericOption, useDefault);
      && (f.Err? ==> r.Err?)
      && (f.Ok? && f.value.0.None? ==> r == Ok((None, f.value.1)))
      && (f.Ok? && f.value.0.Some? ==>
            var x := IntValue(f.value.0.value);
            && (r.Err? <==> (x.Err? || (bound.Some? && x.value < bound.value)))
            && (r.Ok? ==> r == Ok((Some(x.value), f.value.1))))
  {
    var (v, rest) :- Fetch(args, key, defaultVal, genericOption, useDefault);
    if v.None? then Ok((None, rest))
    else
      var x :- IntValue(v.value);
      if bound.Some? && x < bound.value then Err("expecting strictly positive value for " + key + ", got " + v.value)
      else Ok((Some(x), rest))
  }

  function ParseInt(args: seq<string>, key: string, defaultVal: string, genericOption: bool): Result<(Option<int>, seq<string>)>
    requires |args| >= 1
  {
    ParseIntAtLeast(args, key, defaultVal, genericOption, true, None)
  }

  function ParsePositiveInt(args: seq<string>, key: string, defaultVal: string, genericOption: bool): Result<(Option<int>, seq<string>)>
    requires |args| >= 1
  {
    ParseIntAtLeast(args, key, defaultVal, genericOption, true, Some(0))
  }

  /** On the global options ("$$initialOptions$$" in args[0]) no default is looked up. */
  function ParseStrictlyPositiveInt(args: seq<string>, key: string, defaultVal: string, genericOption: bool): Result<(Option<int>, seq<string>)>
    requires |args| >= 1
  {
    ParseIntAtLeast(args, key, defaultVal, genericOption, args[0] != InitialOptionsTag, Some(1))
  }

  /** parsePositiveInt accepts 0, which parseStrictlyPositiveInt rejects. */
  lemma ZeroIsPositiveNotStrictly(name: string, key: string)
    requires name != InitialOptionsTag && |key| >= 1 && !HasEq(key)
    ensures ParsePositiveInt([name, key + "=0"], key, "", false) == Ok((Some(0), [name]))
    ensures ParseStrictlyPositiveInt([name, key + "=0"], key, "", false).Err?
  {
    var args := [name, key + "=0"];
    var a := key + "=0";
    assert a[|key|] == '=' && a[..|key|] == key && a[|key| + 1..] == "0";
    assert forall i :: 0 <= i < |key| ==> a[i] == key[i];
    FindSkipsAll(key, '=', 0);
    FindIs(a, '=', 0, |key|);
    assert LookUp(args, key) == Ok(("0", [name])) by {
      assert args[..1] + args[2..] == [name];
    }
    assert IntValue("0") == Ok(0) by {
      assert SkipSpaces("0", 0) == 0;
      assert ScanDigits("0", 0, 0) == (1, 0);
    }
  }

  function ParseFloat(args: seq<string>, key: string, defaultVal: string, genericOption: bool): (r: Result<(Option<int>, seq<string>)>)
    requires |args| >= 1
    ensures var f := Fetch(args, key, defaultVal, genericOption, true);
      && (f.Err? ==> r.Err?)
      && (f.Ok? && f.value.0.None? ==> r == Ok((None, f.value.1)))
      && (f.Ok? && f.value.0.Some? ==>
            var x := FloatValue(f.value.0.value);
            && (r.Err? <==> x.Err?)
            && (r.Ok? ==> r == Ok((Some(x.value), f.value.1))))
  {
    var (v, rest) :- Fetch(args, key, defaultVal, genericOption, true);
    if v.None? then Ok((None, rest))
    else
      var x :- FloatValue(v.value);
      Ok((Some(x), rest))
  }

  // ---------------------------------------------------------------- parseAll

  const InitialOptionsTag: string := "$$initialOptions$$"

  predicate HasEq(a: string) { Find(a, '=', 0) != -1 }

  function Flatten(specs: seq<seq<string>>): seq<string>
  {
    if specs == [] then [] else Flatten(specs[..|specs| - 1]) + specs[|specs| - 1]
  }

  /** An operator specification: its name, which has no '=', then its options, which do. */
  predicate IsSpec(spec: seq<string>)
  {
    |spec| >= 1 && !HasEq(spec[0]) && forall j :: 1 <= j < |spec| ==> HasEq(spec[j])
  }

  /** The grouping loops of parseAll on the arguments after the program name: the leading
      options go to the global options (after the tag), and each other argument opens an
      operator specification collecting the options that follow it. */
  method GroupArguments(argv: seq<string>) returns (initialOptions: seq<string>, operatorSpecs: seq<seq<string>>)
    ensures |initialOptions| >= 1 && initialOptions[0] == InitialOptionsTag
    ensures forall j :: 1 <= j < |initialOptions| ==> HasEq(initialOptions[j])
    ensures forall t :: 0 <= t < |operatorSpecs| ==> IsSpec(operatorSpecs[t])
    ensures initialOptions[1..] + Flatten(operatorSpecs) == argv
  {
    var options, args := LeadingOptions(argv);
    initialOptions := [InitialOptionsTag] + options;
    assert initialOptions[1..] == options;
    operatorSpecs := [];
    while |args| > 0
      invariant forall t :: 0 <= t < |operatorSpecs| ==> IsSpec(operatorSpecs[t])
      invariant options + Flatten(operatorSpecs) + args == argv
      invariant |args| > 0 ==> !HasEq(args[0])
    {
      var specOptions, rest := LeadingOptions(args[1..]);
      var opSpec := [args[0]] + specOptions;
      assert IsSpec(opSpec) by {
        assert forall j :: 1 <= j < |opSpec| ==> opSpec[j] == specOptions[j - 1];
      }
      assert opSpec + rest == args;
      assert Flatten(operatorSpecs + [opSpec]) == Flatten(operatorSpecs) + opSpec by {
        assert (operatorSpecs + [opSpec])[..|operatorSpecs|] == operatorSpecs;
      }
      operatorSpecs, args := operatorSpecs + [opSpec], rest;
    }
  }

  /** The options at the head of args (the arguments with an '='), and what follows them. */
  method LeadingOptions(args: seq<string>) returns (options: seq<string>, rest: seq<string>)
    ensures options + rest == args
    ensures forall j :: 0 <= j < |options| ==> HasEq(options[j])
    ensures |rest| > 0 ==> !HasEq(rest[0])
  {
    options, rest := [], args;
    while |rest| > 0 && HasEq(rest[0])
      invariant options + rest == args
      invariant forall j :: 0 <= j < |options| ==> HasEq(options[j])
    {
      options, rest := options + [rest[0]], rest[1..];
    }
  }

  datatype Command = FullDoc | BuildHtmlDoc | Generate(initialOptions: seq<string>, operatorSpecs: seq<seq<string>>)

  /** The trivial cases of parseAll, then the grouping; argv[0] is the program name. */
  method ParseAll(argv: seq<string>) returns (c: Command)
    requires |argv| >= 1
    ensures |argv| == 1 <==> c == FullDoc
    ensures c == BuildHtmlDoc <==> |argv| == 2 && argv[1] == "BuildHTMLDoc"
    ensures c.Generate? ==> (|c.initialOptions| >= 1 && c.initialOptions[1..] + Flatten(c.operatorSpecs) == argv[1..]
      && (forall t :: 0 <= t < |c.operatorSpecs| ==> IsSpec(c.operatorSpecs[t])))
  {
    if |argv| == 1 {
      return FullDoc;
    }
    if |argv| == 2 && argv[1] == "BuildHTMLDoc" {
      return BuildHtmlDoc;
    }
    var initialOptions, operatorSpecs := GroupArguments(argv[1..]);
    c := Generate(initialOptions, operatorSpecs);
  }

  // ---------------------------------------------------------------- operator list and factories

  /** An operator, identified by its object id; only its name is compared. */
  datatype Operator = Operator(name: string, id: nat)

  /** A parameter of an operator factory: name(type)[=default]:description. */
  datatype Parameter = Parameter(name: string, ptype: string, defaultVal: string, doc: string)

  /** The parameter tables of a factory: the names in order (repeated ones included) and, per
      name, the type, the default ("" when mandatory) and the description of its last entry. */
  datatype ParamTable = ParamTable(names: seq<string>, types: map<string, string>, defaults: map<string, string>, docs: map<string, string>)
  {
    function Add(p: Parameter): ParamTable
    {
      ParamTable(names + [p.name], types[p.name := p.ptype], defaults[p.name := p.defaultVal], docs[p.name := p.doc])
    }
  }

  const NoParams := ParamTable([], map[], map[], map[])

  datatype OperatorFactory = OperatorFactory(name: string, description: string, categories: seq<string>, params: ParamTable, extraHTMLDoc: string)

  /** The ';'-separated fields of s from start, the last one ending the string; no field for
      an empty rest or after a final ';'. */
  function Fields(s: string, start: nat): seq<string>
    requires start <= |s|
    decreases |s| - start
  {
    if start == |s| then []
    else
      var e := Find(s, ';', start);
      if e == -1 then [s[start..]] else [s[start..e]] + Fields(s, e + 1)
  }

  /** The fields of s that are not empty. */
  function NonEmpty(fields: seq<string>): seq<string>
  {
    if fields == [] then [] else (if fields[0] == [] then [] else [fields[0]]) + NonEmpty(fields[1..])
  }

  function Join(parts: seq<string>): string
  {
    if parts == [] then [] else if |parts| == 1 then parts[0] else parts[0] + ";" + Join(parts[1..])
  }

  lemma NonEmptyAppend(a: seq<string>, b: seq<string>)
    ensures NonEmpty(a + b) == NonEmpty(a) + NonEmpty(b)
  {
    if a != [] {
      assert (a + b)[1..] == a[1..] + b;
      NonEmptyAppend(a[1..], b);
    } else {
      assert a + b == b;
    }
  }

  /** One step of the split loops: a part is kept when it is not empty. */
  lemma KeepNonEmpty(done: seq<string>, part: string, rest: seq<string>)
    ensures (if part != [] then done + [part] else done) + NonEmpty(rest) == done + NonEmpty([part] + rest)
  {
    assert ([part] + rest)[1..] == rest;
  }

  /** Splitting a ';'-joined list of non-empty, ';'-free categories gives the list back. */
  lemma FieldsOfJoin(parts: seq<string>)
    requires forall k :: 0 <= k < |parts| ==> parts[k] != [] && Find(parts[k], ';', 0) == -1
    ensures Fields(Join(parts), 0) == parts
  {
    var s := Join(parts);
    assert s[0..] == s;
    FieldsAfter(s, 0, parts);
  }

  /** The same for a join that lies at the end of s from start. */
  lemma {:induction false} FieldsAfter(s: string, start: nat, parts: seq<string>)
    requires start <= |s| && s[start..] == Join(parts)
    requires forall k :: 0 <= k < |parts| ==> parts[k] != [] && Find(parts[k], ';', 0) == -1
    ensures Fields(s, start) == parts
    decreases |parts|
  {
    if parts != [] {
      var e := start + |parts[0]|;
      JoinHead(s, start, parts);
      FieldsFirst(s, start, e);
      if |parts| > 1 {
        FieldsAfter(s, e + 1, parts[1..]);
        assert parts == [parts[0]] + parts[1..];
      }
    }
  }

  /** A field from start to e, with a ';' or the end of s at e. */
  lemma FieldsFirst(s: string, start: nat, e: nat)
    requires start < e <= |s| && Find(s[start..e], ';', 0) == -1 && (e < |s| ==> s[e] == ';')
    ensures e == |s| ==> Fields(s, start) == [s[start..]]
    ensures e < |s| ==> Fields(s, start) == [s[start..e]] + Fields(s, e + 1)
  {
    FindPastSlice(s, ';', start, e);
    if e < |s| {
      FindAt(s, ';', e);
      FieldsAt(s, start, e);
    } else {
      FieldsLast(s, start);
    }
  }

  /** With no ';' from start on, the rest of s is the one remaining field. */
  lemma FieldsLast(s: string, start: nat)
    requires start < |s| && Find(s, ';', start) == Find(s, ';', |s|)
    ensures Fields(s, start) == [s[start..]]
  {
    assert Find(s, ';', |s|) == -1;
  }

  /** Where a join lies at the end of s from start: its first part, then either the end of s or
      a ';' and the join of the other parts. */
  lemma JoinHead(s: string, start: nat, parts: seq<string>)
    requires start <= |s| && s[start..] == Join(parts) && parts != []
    ensures start + |parts[0]| <= |s| && s[start..start + |parts[0]|] == parts[0]
    ensures |parts| == 1 ==> s[start..] == parts[0]
    ensures |parts| > 1 ==> var e := start + |parts[0]|;
      e < |s| && s[e] == ';' && s[e + 1..] == Join(parts[1..])
  {
    var p := parts[0];
    var e := start + |p|;
    var t := s[start..];
    if |parts| > 1 {
      assert t == p + ";" + Join(parts[1..]);
      assert s[e] == t[|p|];
      assert s[e + 1..] == t[|p| + 1..];
    }
    assert t[..|p|] == p;
    SuffixPrefix(s, start, |p|);
  }

  /** The first n characters of the suffix from start are s[start..start + n]. */
  lemma SuffixPrefix(s: string, start: nat, n: nat)
    requires start + n <= |s|
    ensures s[start..][..n] == s[start..start + n]
  {
  }

  lemma FieldsAt(s: string, start: nat, e: nat)
    requires start <= e < |s| && e == Find(s, ';', start)
    ensures Fields(s, start) == [s[start..e]] + Fields(s, e + 1)
  {
  }

  lemma FindAt(s: string, c: char, e: nat)
    requires e < |s| && s[e] == c
    ensures Find(s, c, e) == e
  {
  }

  /** The category loop of the OperatorFactory constructor: the non-empty ';'-separated parts. */
  method SplitCategories(categories: string) returns (cats: seq<string>)
    ensures cats == NonEmpty(Fields(categories, 0))
  {
    ghost var whole := NonEmpty(Fields(categories, 0));
    cats := [];
    var start := 0;
    assert [] + whole == whole;
    while start < |categories|
      invariant 0 <= start <= |categories|
      invariant cats + NonEmpty(Fields(categories, start)) == whole
      decreases |categories| - start
    {
      var end := Find(categories, ';', start);
      var part := if end == -1 then categories[start..] else categories[start..end];
      ghost var cats0 := cats;
      if part != [] {
        cats := cats + [part];
      }
      SplitStep(categories, start, end, cats0, cats, whole);
      if end == -1 {
        return;
      }
      start := end + 1;
    }
  }

  /** The loop step of SplitCategories, whole being the parts the loop started from. */
  lemma SplitStep(s: string, start: nat, end: int, done: seq<string>, cats: seq<string>, whole: seq<string>)
    requires start < |s| && end == Find(s, ';', start)
    requires var part := if end == -1 then s[start..] else s[start..end];
      cats == (if part != [] then done + [part] else done)
    requires done + NonEmpty(Fields(s, start)) == whole
    ensures end == -1 ==> cats == whole
    ensures end != -1 ==> start <= end < |s| && cats + NonEmpty(Fields(s, end + 1)) == whole
  {
    var part := if end == -1 then s[start..] else s[start..end];
    var rest := if end == -1 then [] else Fields(s, end + 1);
    FieldsHead(s, start, end);
    KeepNonEmpty(done, part, rest);
    if end == -1 {
      assert cats + NonEmpty(rest) == cats;
    }
  }

  /** The first field from start and the fields after it. */
  lemma FieldsHead(s: string, start: nat, end: int)
    requires start < |s| && end == Find(s, ';', start)
    ensures Fields(s, start) == [if end == -1 then s[start..] else s[start..end]] + (if end == -1 then [] else Fields(s, end + 1))
  {
  }

  /** The first position at or after j that is not a blank ' ', or |s| (where the C string
      has its terminating null character). */
  function BlankEnd(s: string, j: nat): (k: nat)
    requires j <= |s|
    ensures j <= k <= |s| && (k < |s| ==> s[k] != ' ')
    decreases |s| - j
  {
    if j < |s| && s[j] == ' ' then BlankEnd(s, j + 1) else j
  }

  /** Everything BlankEnd skips is a blank. */
  lemma {:induction false} BlankEndSkips(s: string, j: nat, i: nat)
    requires j <= i < |s| && i < BlankEnd(s, j)
    ensures s[i] == ' '
    decreases |s| - j
  {
    if j < i {
      BlankEndSkips(s, j + 1, i);
    }
  }

  /** The parameter fields from start: like Fields, but the blanks after each ';' are skipped. */
  function ParameterFields(s: string, start: nat): seq<string>
    requires start <= |s|
    decreases |s| - start
  {
    if start == |s| then []
    else
      var e := Find(s, ';', start);
      if e == -1 then [s[start..]] else [s[start..e]] + ParameterFields(s, BlankEnd(s, e + 1))
  }

  predicate IsParameterType(t: string) { t == "bool" || t == "int" || t == "real" || t == "string" }

  /** The description after the ':' at position j, leading blanks removed. */
  function DocAfter(part: string, j: nat): string
    requires j < |part|
  {
    part[BlankEnd(part, j + 1)..]
  }

  /** One parameter description name(type)[=default]:description, with the C++ index rules:
      find yields -1 when the character is absent, a negative length given to substr means
      "to the end", and part[size()] is the null character. The name is what precedes the first
      '(', the type lies between it and the first ')', and a default runs up to the first ':'
      of the part. A '=' with no ':' in the part reads part[-1], undefined behaviour. */
  function ParameterOf(part: string): (r: Result<Parameter>)
    ensures r.Ok? ==> IsParameterType(r.value.ptype)
  {
    var nameEnd := Find(part, '(', 0);
    var typeEnd := Find(part, ')', 0);
    var ptype := Substr(part, nameEnd + 1, typeEnd - nameEnd - 1);
    if !IsParameterType(ptype) then Err("OperatorFactory: Type (" + ptype + ")  not a supported type.")
    else
      var (defaultVal, doc) :- DefaultAndDoc(part, typeEnd + 1);
      Ok(Parameter(Substr(part, 0, nameEnd), ptype, defaultVal, doc))
  }

  /** The rest of a parameter description from j, just after the type's ')': an optional
      =default, then the ':' and the description. */
  function DefaultAndDoc(part: string, j: nat): Result<(string, string)>
    requires j <= |part|
  {
    if CharAt(part, j) == '=' then
      var defaultValEnd := Find(part, ':', 0);
      if defaultValEnd == -1 then Err("undefined: part[-1] read")
      else Ok((Substr(part, j + 1, defaultValEnd - (j + 1)), DocAfter(part, defaultValEnd)))
    else if CharAt(part, j) == ':' then Ok(("", DocAfter(part, j)))
    else Err("OperatorFactory: Error parsing parameter description")
  }

  /** The parameter loop of the constructor on its fields: empty fields are skipped, the first
      malformed one is the error. */
  function CollectParameters(fields: seq<string>, acc: ParamTable): Result<ParamTable>
  {
    if fields == [] then Ok(acc)
    else if fields[0] == [] then CollectParameters(fields[1..], acc)
    else
      match ParameterOf(fields[0])
      case Err(m) => Err(m)
      case Ok(p) => CollectParameters(fields[1..], acc.Add(p))
  }

  /** parameters.erase(remove(..., '\n')): the string without its newlines, in order. */
  function WithoutNewlines(s: string): (r: string)
    ensures forall k :: 0 <= k < |r| ==> r[k] != '\n'
    ensures forall c :: c != '\n' ==> multiset(r)[c] == multiset(s)[c]
  {
    if s == [] then []
    else
      assert s == [s[0]] + s[1..];
      (if s[0] == '\n' then [] else [s[0]]) + WithoutNewlines(s[1..])
  }

  /** A string without newlines is kept as it is. */
  lemma {:induction false} NoNewlinesKept(s: string)
    requires forall k :: 0 <= k < |s| ==> s[k] != '\n'
    ensures WithoutNewlines(s) == s
  {
    if s != [] {
      NoNewlinesKept(s[1..]);
      assert [s[0]] + s[1..] == s;
    }
  }

  /** The removal works piece by piece, so the characters kept stay in their order. */
  lemma {:induction false} WithoutNewlinesAppend(a: string, b: string)
    ensures WithoutNewlines(a + b) == WithoutNewlines(a) + WithoutNewlines(b)
  {
    if a != [] {
      assert (a + b)[1..] == a[1..] + b;
      WithoutNewlinesAppend(a[1..], b);
    } else {
      assert a + b == b;
    }
  }

  /** The factory the constructor builds, or the exception it throws. */
  function FactoryOf(name: string, description: string, categories: string, parameters: string, extraHTMLDoc: string): Result<OperatorFactory>
  {
    var params :- CollectParameters(ParameterFields(WithoutNewlines(parameters), 0), NoParams);
    Ok(OperatorFactory(name, description, NonEmpty(Fields(categories, 0)), params, extraHTMLDoc))
  }

  /** The OperatorFactory constructor. */
  method NewOperatorFactory(name: string, description: string, categories: string, parameters: string, extraHTMLDoc: string)
    returns (r: Result<OperatorFactory>)
    ensures r == FactoryOf(name, description, categories, parameters, extraHTMLDoc)
  {
    var cats := SplitCategories(categories);
    var ps := WithoutNewlines(parameters);
    var table := ParseParameters(ps);
    if table.Err? {
      return Err(table.msg);
    }
    r := Ok(OperatorFactory(name, description, cats, table.value, extraHTMLDoc));
  }

  /** The parameter loop of the constructor, on the parameters without newlines. */
  method ParseParameters(ps: string) returns (r: Result<ParamTable>)
    ensures r == CollectParameters(ParameterFields(ps, 0), NoParams)
  {
    var table := NoParams;
    var start := 0;
    while start < |ps|
      invariant 0 <= start <= |ps|
      invariant CollectParameters(ParameterFields(ps, start), table) == CollectParameters(ParameterFields(ps, 0), NoParams)
      decreases |ps| - start
    {
      var next;
      r, next := ParameterIteration(ps, start, table);
      TurnProgress(ps, start, table);
      if r.Err? || next == -1 {
        return;
      }
      table, start := r.value, next;
    }
    r := Ok(table);
  }

  /** One turn of the parameter loop from start: the field up to the next ';' is parsed when
      it is not empty, then the blanks after the ';' are skipped. The position is -1 after the
      last field or a malformed one. */
  function Turn(ps: string, start: nat, table: ParamTable): (Result<ParamTable>, int)
    requires start < |ps|
  {
    var end := Find(ps, ';', start);
    var part := if end == -1 then ps[start..] else ps[start..end];
    Step(ps, end, part, ParameterOf(part), table)
  }

  /** The turn once the field part, which ends at end (-1: at the end of ps), is parsed. */
  function Step(ps: string, end: int, part: string, parsed: Result<Parameter>, table: ParamTable): (Result<ParamTable>, int)
    requires end == -1 || 0 <= end < |ps|
  {
    if part != [] && parsed.Err? then (Err(parsed.msg), -1)
    else
      var t := if part == [] then table else table.Add(parsed.value);
      (Ok(t), if end == -1 then -1 else BlankEnd(ps, end + 1))
  }

  /** A turn either ends the parse with its result or moves forward to a position from which
      the remaining fields give the same result. */
  lemma TurnProgress(ps: string, start: nat, table: ParamTable)
    requires start < |ps|
    ensures var (r, next) := Turn(ps, start, table);
      && (r.Err? || next == -1 ==> r == CollectParameters(ParameterFields(ps, start), table))
      && (r.Ok? && next != -1 ==>
            && start < next <= |ps|
            && CollectParameters(ParameterFields(ps, next), r.value) == CollectParameters(ParameterFields(ps, start), table))
  {
    var end := Find(ps, ';', start);
    var part := if end == -1 then ps[start..] else ps[start..end];
    var parsed := ParameterOf(part);
    assert Turn(ps, start, table) == Step(ps, end, part, parsed, table);
    ParameterTurn(ps, start, table, end, part);
    StepProgress(ps, start, table, end, part, parsed);
  }

  /** TurnProgress once the field is parsed. */
  lemma StepProgress(ps: string, start: nat, table: ParamTable, end: int, part: string, parsed: Result<Parameter>)
    requires start < |ps| && (end == -1 || start <= end < |ps|)
    requires part != [] && parsed.Err? ==>
      CollectParameters(ParameterFields(ps, start), table) == Err(parsed.msg)
    requires !(part != [] && parsed.Err?) && end == -1 ==>
      CollectParameters(ParameterFields(ps, start), table) == Ok(if part == [] then table else table.Add(parsed.value))
    requires !(part != [] && parsed.Err?) && end != -1 ==>
      CollectParameters(ParameterFields(ps, BlankEnd(ps, end + 1)), if part == [] then table else table.Add(parsed.value))
      == CollectParameters(ParameterFields(ps, start), table)
    ensures var (r, next) := Step(ps, end, part, parsed, table);
      && (r.Err? || next == -1 ==> r == CollectParameters(ParameterFields(ps, start), table))
      && (r.Ok? && next != -1 ==>
            && start < next <= |ps|
            && CollectParameters(ParameterFields(ps, next), r.value) == CollectParameters(ParameterFields(ps, start), table))
  {
  }

  /** The body of the parameter loop. */
  method ParameterIteration(ps: string, start: nat, table: ParamTable) returns (r: Result<ParamTable>, next: int)
    requires start < |ps|
    ensures (r, next) == Turn(ps, start, table)
  {
    var end := Find(ps, ';', start);
    var part := if end == -1 then ps[start..] else ps[start..end];
    var parsed := ParameterOf(part);
    assert Turn(ps, start, table) == Step(ps, end, part, parsed, table);
    r, next := StepOn(ps, end, part, parsed, table);
  }

  /** The rest of the loop body, once the field is parsed: a malformed field ends the loop,
      otherwise the table takes the parameter and the blanks after the ';' are skipped. */
  method StepOn(ps: string, end: int, part: string, parsed: Result<Parameter>, table: ParamTable)
    returns (r: Result<ParamTable>, next: int)
    requires end == -1 || 0 <= end < |ps|
    ensures (r, next) == Step(ps, end, part, parsed, table)
  {
    if part != [] && parsed.Err? {
      r, next := Err(parsed.msg), -1;
    } else {
      r := Ok(if part == [] then table else table.Add(parsed.value));
      if end == -1 {
        next := -1;
      } else {
        next := SkipBlanks(ps, end + 1);
      }
    }
  }

  /** while (parameters[start] == ' ') start++; the null character at the end stops it. */
  method SkipBlanks(s: string, j: nat) returns (k: nat)
    requires j <= |s|
    ensures k == BlankEnd(s, j)
  {
    k := j;
    while k < |s| && s[k] == ' '
      invariant j <= k <= |s| && BlankEnd(s, k) == BlankEnd(s, j)
      decreases |s| - k
    {
      k := k + 1;
    }
  }

  /** One turn of the constructor's parameter loop: a malformed field ends the parse with its
      error; otherwise the field extends the table, and the rest of the fields, after the
      blanks that follow the ';', are parsed from there. */
  lemma ParameterTurn(s: string, start: nat, done: ParamTable, end: int, part: string)
    requires start < |s| && end == Find(s, ';', start)
    requires part == if end == -1 then s[start..] else s[start..end]
    ensures part != [] && ParameterOf(part).Err? ==>
      CollectParameters(ParameterFields(s, start), done) == Err(ParameterOf(part).msg)
    ensures !(part != [] && ParameterOf(part).Err?) && end == -1 ==>
      CollectParameters(ParameterFields(s, start), done) == Ok(NextTable(done, part))
    ensures !(part != [] && ParameterOf(part).Err?) && end != -1 ==>
      && start <= end < |s|
      && CollectParameters(ParameterFields(s, BlankEnd(s, end + 1)), NextTable(done, part))
         == CollectParameters(ParameterFields(s, start), done)
  {
    var rest := if end == -1 then [] else ParameterFields(s, BlankEnd(s, end + 1));
    FieldsSplit(s, start, end, part);
    CollectStep(part, rest, done);
  }

  /** The fields from start are the part up to the first ';' and then those after its blanks. */
  lemma FieldsSplit(s: string, start: nat, end: int, part: string)
    requires start < |s| && end == Find(s, ';', start)
    requires part == if end == -1 then s[start..] else s[start..end]
    ensures end != -1 ==> start <= end < |s|
    ensures ParameterFields(s, start) == [part] + (if end == -1 then [] else ParameterFields(s, BlankEnd(s, end + 1)))
  {
  }

  /** Collecting a first field: its error, or the table it leads to for the rest. */
  lemma CollectStep(part: string, rest: seq<string>, done: ParamTable)
    ensures part != [] && ParameterOf(part).Err? ==> CollectParameters([part] + rest, done) == Err(ParameterOf(part).msg)
    ensures !(part != [] && ParameterOf(part).Err?) ==>
      CollectParameters([part] + rest, done) == CollectParameters(rest, NextTable(done, part))
  {
    assert ([part] + rest)[0] == part;
    assert ([part] + rest)[1..] == rest;
  }

  /** The table after one field that is empty or well-formed. */
  function NextTable(done: ParamTable, part: string): ParamTable
    requires !(part != [] && ParameterOf(part).Err?)
  {
    if part == [] then done else done.Add(ParameterOf(part).value)
  }

  /** The blanks from j end at k. */
  lemma BlankEndIs(s: string, j: nat, k: nat)
    requires j <= k <= |s| && (forall i :: j <= i < k ==> s[i] == ' ') && (k < |s| ==> s[k] != ' ')
    ensures BlankEnd(s, j) == k
    decreases k - j
  {
    if j < k {
      BlankEndIs(s, j + 1, k);
    }
  }

  /** The characters of the four type names. */
  lemma TypeCharacters(t: string)
    requires IsParameterType(t)
    ensures forall i :: 0 <= i < |t| ==> t[i] != '(' && t[i] != ')' && t[i] != ':' && t[i] != '='
  {
  }

  /** A well-formed description is read back: a name without '(', ')' or ':', one of the four
      types, a default without ':', and a description that does not start with a blank. */
  lemma ParameterOfWellFormed(n: string, t: string, d: string, doc: string, blanks: string)
    requires Find(n, '(', 0) == -1 && Find(n, ')', 0) == -1 && Find(n, ':', 0) == -1
    requires IsParameterType(t) && Find(d, ':', 0) == -1
    requires (forall i :: 0 <= i < |blanks| ==> blanks[i] == ' ') && (doc == [] || doc[0] != ' ')
    ensures ParameterOf(n + "(" + t + ")=" + d + ":" + blanks + doc) == Ok(Parameter(n, t, d, doc))
  {
    var part := n + "(" + t + ")=" + d + ":" + blanks + doc;
    var a := |n|;
    var b := a + 1 + |t|;
    var c := b + 2 + |d|;
    var e := c + 1 + |blanks|;
    assert part[..a] == n && part[a + 1..b] == t && part[b + 2..c] == d && part[c + 1..e] == blanks && part[e..] == doc;
    assert part[a] == '(' && part[b] == ')' && part[b + 1] == '=' && part[c] == ':';
    ParameterOfPieces(part, a, b, c, e);
  }

  /** The same without a default: name(type):description. */
  lemma ParameterOfWellFormedNoDefault(n: string, t: string, doc: string, blanks: string)
    requires Find(n, '(', 0) == -1 && Find(n, ')', 0) == -1 && Find(n, ':', 0) == -1
    requires IsParameterType(t)
    requires (forall i :: 0 <= i < |blanks| ==> blanks[i] == ' ') && (doc == [] || doc[0] != ' ')
    ensures ParameterOf(n + "(" + t + "):" + blanks + doc) == Ok(Parameter(n, t, "", doc))
  {
    var part := n + "(" + t + "):" + blanks + doc;
    var a := |n|;
    var b := a + 1 + |t|;
    var c := b + 1;
    var e := c + 1 + |blanks|;
    assert part[..a] == n && part[a + 1..b] == t && part[c + 1..e] == blanks && part[e..] == doc;
    assert part[a] == '(' && part[b] == ')' && part[c] == ':';
    ParameterOfPiecesNoDefault(part, a, b, e);
  }

  /** The name and the type of a part whose first '(' is at a and first ')' at b. */
  lemma ParameterHead(part: string, a: nat, b: nat)
    requires a < b < |part| && part[a] == '(' && part[b] == ')'
    requires Find(part[..a], '(', 0) == -1 && Find(part[..a], ')', 0) == -1 && IsParameterType(part[a + 1..b])
    ensures Find(part, '(', 0) == a && Find(part, ')', 0) == b
    ensures Substr(part, 0, a) == part[..a] && Substr(part, a + 1, b - a - 1) == part[a + 1..b]
  {
    var n, t := part[..a], part[a + 1..b];
    TypeCharacters(t);
    FindSkipsAll(n, '(', 0);
    FindSkipsAll(n, ')', 0);
    assert forall i :: 0 <= i < a ==> part[i] == n[i];
    assert forall i :: a < i < b ==> part[i] == t[i - a - 1];
    FindIs(part, '(', 0, a);
    FindIs(part, ')', 0, b);
  }

  /** The first ':' of name(type)=default:description. */
  lemma ColonIs(part: string, a: nat, b: nat, c: nat)
    requires a < b && b + 2 <= c < |part| && part[a] == '(' && part[b] == ')' && part[b + 1] == '=' && part[c] == ':'
    requires Find(part[..a], ':', 0) == -1 && IsParameterType(part[a + 1..b]) && Find(part[b + 2..c], ':', 0) == -1
    ensures Find(part, ':', 0) == c
  {
    var n, t, d := part[..a], part[a + 1..b], part[b + 2..c];
    TypeCharacters(t);
    FindSkipsAll(n, ':', 0);
    FindSkipsAll(d, ':', 0);
    assert forall i :: 0 <= i < a ==> part[i] == n[i];
    assert forall i :: a < i < b ==> part[i] == t[i - a - 1];
    assert forall i :: b + 2 <= i < c ==> part[i] == d[i - b - 2];
    FindIs(part, ':', 0, c);
  }

  /** ParameterOf on name(type)=default:description, the '(' at a, the ')' at b, the ':' at c
      and the description at e. */
  lemma ParameterOfPieces(part: string, a: nat, b: nat, c: nat, e: nat)
    requires a < b && b + 2 <= c < |part| && c < e <= |part|
    requires part[a] == '(' && part[b] == ')' && part[b + 1] == '=' && part[c] == ':'
    requires Find(part[..a], '(', 0) == -1 && Find(part[..a], ')', 0) == -1 && Find(part[..a], ':', 0) == -1
    requires IsParameterType(part[a + 1..b]) && Find(part[b + 2..c], ':', 0) == -1
    requires (forall i :: c + 1 <= i < e ==> part[i] == ' ') && (e < |part| ==> part[e] != ' ')
    ensures ParameterOf(part) == Ok(Parameter(part[..a], part[a + 1..b], part[b + 2..c], part[e..]))
  {
    ParameterHead(part, a, b);
    ColonIs(part, a, b, c);
    DefaultPieces(part, b, c, e);
  }

  /** DefaultAndDoc after the ')' at b, with the '=' at b + 1, the first ':' of the part at c
      and the description at e. */
  lemma DefaultPieces(part: string, b: nat, c: nat, e: nat)
    requires b + 2 <= c < |part| && c < e <= |part| && part[b + 1] == '=' && Find(part, ':', 0) == c
    requires (forall i :: c + 1 <= i < e ==> part[i] == ' ') && (e < |part| ==> part[e] != ' ')
    ensures DefaultAndDoc(part, b + 1) == Ok((part[b + 2..c], part[e..]))
  {
    BlankEndIs(part, c + 1, e);
    assert DocAfter(part, c) == part[e..];
    assert CharAt(part, b + 1) == '=';
    assert Substr(part, b + 2, c - (b + 2)) == part[b + 2..c];
  }

  /** ParameterOf on name(type):description. */
  lemma ParameterOfPiecesNoDefault(part: string, a: nat, b: nat, e: nat)
    requires a < b && b + 1 < |part| && b + 1 < e <= |part|
    requires part[a] == '(' && part[b] == ')' && part[b + 1] == ':'
    requires Find(part[..a], '(', 0) == -1 && Find(part[..a], ')', 0) == -1
    requires IsParameterType(part[a + 1..b])
    requires (forall i :: b + 2 <= i < e ==> part[i] == ' ') && (e < |part| ==> part[e] != ' ')
    ensures ParameterOf(part) == Ok(Parameter(part[..a], part[a + 1..b], "", part[e..]))
  {
    ParameterHead(part, a, b);
    BlankEndIs(part, b + 2, e);
    assert DocAfter(part, b + 1) == part[e..];
    assert CharAt(part, b + 1) == ':';
    assert DefaultAndDoc(part, b + 1) == Ok(("", part[e..]));
  }

  // ---------------------------------------------------------------- the static state

  predicate HasOperatorNamed(ops: seq<Operator>, name: string)
  {
    exists i :: 0 <= i < |ops| && ops[i].name == name
  }

  predicate DistinctNames(ops: seq<Operator>)
  {
    forall i, j :: 0 <= i < j < |ops| ==> ops[i].name != ops[j].name
  }

  /** The global operator list after addToGlobalOpList(op): op is appended unless an operator
      of the same name is already there. */
  function WithOperator(ops: seq<Operator>, op: Operator): seq<Operator>
  {
    if HasOperatorNamed(ops, op.name) then ops else ops + [op]
  }

  /** Adding an operator keeps the old entries, in order, and leaves exactly one more name
      when it is new. */
  lemma WithOperatorNames(ops: seq<Operator>, op: Operator, name: string)
    ensures var r := WithOperator(ops, op);
      && r[..|ops|] == ops && |r| <= |ops| + 1
      && (HasOperatorNamed(r, name) <==> HasOperatorNamed(ops, name) || name == op.name)
      && (|r| == |ops| + 1 <==> !HasOperatorNamed(ops, op.name))
  {
    var r := WithOperator(ops, op);
    if !HasOperatorNamed(ops, op.name) {
      assert r[|ops|].name == op.name;
      if HasOperatorNamed(ops, name) {
        var i :| 0 <= i < |ops| && ops[i].name == name;
        assert r[i] == ops[i];
      }
    }
  }

  /** Operator names stay distinct, and adding an operator of a name already present changes
      nothing. */
  lemma WithOperatorDistinct(ops: seq<Operator>, op: Operator, op': Operator)
    requires DistinctNames(ops)
    ensures DistinctNames(WithOperator(ops, op))
    ensures op'.name == op.name ==> WithOperator(WithOperator(ops, op), op') == WithOperator(ops, op)
  {
    var r := WithOperator(ops, op);
    assert r[|r| - 1].name == op.name || r == ops;
    assert HasOperatorNamed(r, op.name) by {
      if r != ops {
        assert r[|ops|].name == op.name;
      }
    }
  }

  /** The registry invariant: one factory per name in the index list, and the name map sends
      each of these names to its factory; other names in the map (left by lookups of unknown
      names) hold a null entry, written None. */
  predicate RegistryValid(byIndex: seq<OperatorFactory>, byName: map<string, Option<OperatorFactory>>)
  {
    && (forall i, j :: 0 <= i < j < |byIndex| ==> byIndex[i].name != byIndex[j].name)
    && (forall i :: 0 <= i < |byIndex| ==> byIndex[i].name in byName && byName[byIndex[i].name] == Some(byIndex[i]))
    && (forall n :: n in byName && byName[n].Some? ==> byName[n].value.name == n && byName[n].value in byIndex)
  }

  /** registerFactory on the two tables: an exception when the name map already has the name,
      else the factory is appended to the list and entered in the map. */
  function Register(byIndex: seq<OperatorFactory>, byName: map<string, Option<OperatorFactory>>, f: OperatorFactory)
    : Result<(seq<OperatorFactory>, map<string, Option<OperatorFactory>>)>
  {
    if f.name in byName then Err("OperatorFactory - Factory with name '" + f.name + " has already been registered.")
    else Ok((byIndex + [f], byName[f.name := Some(f)]))
  }

  /** getFactoryByName: sm_factoriesByName[name], which for an unknown name inserts and returns a
      null entry. */
  function LookUpFactory(byName: map<string, Option<OperatorFactory>>, name: string)
    : (Option<OperatorFactory>, map<string, Option<OperatorFactory>>)
  {
    if name in byName then (byName[name], byName) else (None, byName[name := None])
  }

  /** Registration keeps the invariant, and the factory registered is then found by its name. */
  lemma {:induction false} RegisterKeepsValid(byIndex: seq<OperatorFactory>, byName: map<string, Option<OperatorFactory>>, f: OperatorFactory)
    requires RegistryValid(byIndex, byName)
    ensures var r := Register(byIndex, byName, f);
      && (r.Err? <==> f.name in byName)
      && (r.Ok? ==> RegistryValid(r.value.0, r.value.1) && LookUpFactory(r.value.1, f.name) == (Some(f), r.value.1))
  {
    if f.name !in byName {
      var ix, nm := byIndex + [f], byName[f.name := Some(f)];
      forall i | 0 <= i < |byIndex|
        ensures byIndex[i].name != f.name
      {
      }
      forall n | n in nm && nm[n].Some?
        ensures nm[n].value.name == n && nm[n].value in ix
      {
        if n != f.name {
          var i :| 0 <= i < |byIndex| && byIndex[i] == nm[n].value;
          assert ix[i] == byIndex[i];
        } else {
          assert ix[|byIndex|] == f;
        }
      }
    }
  }

  /** A lookup keeps the invariant and registers nothing; after a lookup of an unknown name,
      registering a factory of that name is refused. */
  lemma LookUpKeepsValid(byIndex: seq<OperatorFactory>, byName: map<string, Option<OperatorFactory>>, name: string, f: OperatorFactory)
    requires RegistryValid(byIndex, byName)
    ensures var (r, m) := LookUpFactory(byName, name);
      && RegistryValid(byIndex, m)
      && (r.Some? <==> exists i :: 0 <= i < |byIndex| && byIndex[i].name == name)
      && (r.Some? ==> r.value.name == name && r.value in byIndex)
      && (f.name == name ==> Register(byIndex, m, f).Err?)
  {
    var (r, m) := LookUpFactory(byName, name);
    if exists i :: 0 <= i < |byIndex| && byIndex[i].name == name {
      var i :| 0 <= i < |byIndex| && byIndex[i].name == name;
      assert byName[name] == Some(byIndex[i]);
    }
    if r.Some? {
      var i :| 0 <= i < |byIndex| && byIndex[i] == r.value;
    }
  }

  /** The static members of UserInterface that the front end keeps: the level-0 operators and
      the two factory tables. */
  class UserInterfaceState {
    var globalOpList: seq<Operator>
    var factoriesByIndex: seq<OperatorFactory>
    var factoriesByName: map<string, Option<OperatorFactory>>

    constructor ()
      ensures globalOpList == [] && factoriesByIndex == [] && factoriesByName == map[]
      ensures Valid()
    {
      globalOpList, factoriesByIndex, factoriesByName := [], [], map[];
    }

    predicate Valid()
      reads this
    {
      DistinctNames(globalOpList) && RegistryValid(factoriesByIndex, factoriesByName)
    }

    /** addToGlobalOpList: the whole list is scanned for an operator of the same name; op is
        appended when there is none. */
    method AddToGlobalOpList(op: Operator)
      modifies this
      ensures globalOpList == WithOperator(old(globalOpList), op)
      ensures factoriesByIndex == old(factoriesByIndex) && factoriesByName == old(factoriesByName)
      ensures old(Valid()) ==> Valid()
    {
      var alreadyPresent := false;
      var i := 0;
      while i < |globalOpList|
        invariant 0 <= i <= |globalOpList|
        invariant alreadyPresent <==> exists j :: 0 <= j < i && globalOpList[j].name == op.name
      {
        if op.name == globalOpList[i].name {
          alreadyPresent := true;
        }
        i := i + 1;
      }
      ghost var ops := globalOpList;
      if !alreadyPresent {
        globalOpList := globalOpList + [op];
      }
      if DistinctNames(ops) {
        WithOperatorDistinct(ops, op, op);
      }
    }

    /** registerFactory. */
    method RegisterFactory(f: OperatorFactory) returns (r: Result<()>)
      modifies this
      ensures var reg := Register(old(factoriesByIndex), old(factoriesByName), f);
        && (r.Err? <==> reg.Err?)
        && (reg.Ok? ==> factoriesByIndex == reg.value.0 && factoriesByName == reg.value.1)
        && (reg.Err? ==> factoriesByIndex == old(factoriesByIndex) && factoriesByName == old(factoriesByName))
      ensures globalOpList == old(globalOpList)
      ensures old(Valid()) ==> Valid()
    {
      if f.name in factoriesByName {
        return Err("OperatorFactory - Factory with name '" + f.name + " has already been registered.");
      }
      if RegistryValid(factoriesByIndex, factoriesByName) {
        RegisterKeepsValid(factoriesByIndex, factoriesByName, f);
      }
      factoriesByIndex := factoriesByIndex + [f];
      factoriesByName := factoriesByName[f.name := Some(f)];
      r := Ok(());
    }

    /** getFactoryByName. */
    method GetFactoryByName(name: string) returns (r: Option<OperatorFactory>)
      modifies this
      ensures (r, factoriesByName) == LookUpFactory(old(factoriesByName), name)
      ensures globalOpList == old(globalOpList) && factoriesByIndex == old(factoriesByIndex)
      ensures old(Valid()) ==> Valid()
    {
      if RegistryValid(factoriesByIndex, factoriesByName) {
        LookUpKeepsValid(factoriesByIndex, factoriesByName, name, OperatorFactory(name, "", [], NoParams, ""));
      }
      if name !in factoriesByName {
        factoriesByName := factoriesByName[name := None];
      }
      r := factoriesByName[name];
    }
  }
}
