/** The integer multiplier of src/IntMult/IntMultiplier.cpp: its guard-bit computation, operand
    orientation, the small multiplication table used when the whole product fits in a few LUTs,
    the reference model (emulate) and the signal-name suffixing. */
module IntMult {
  import opened Bits
  import opened Text
  import opened Results

  /** tabulatedMultiplierP: the whole product is read from one table. */
  predicate Tabulated(lutInputs: int, wX: int, wY: int)
  {
    wX + wY <= lutInputs + 2
  }

  /** ulperror after i steps of the guard-bit loop: 1 + sum of (j+1)*2^j for 1 <= j <= i. */
  function UlpError(i: nat): nat
  {
    if i == 0 then 1 else UlpError(i - 1) + (i + 1) * Pow2(i)
  }

  lemma {:induction false} UlpErrorClosedForm(i: nat)
    ensures UlpError(i) == i * Pow2(i + 1) + 1
  {
    if i > 0 {
      UlpErrorClosedForm(i - 1);
      var p := Pow2(i);
      assert Pow2(i + 1) == 2 * p;
      assert UlpError(i) == (i - 1) * p + 1 + (i + 1) * p;
      SumOfMultiples(i, p);
    }
  }

  lemma SumOfMultiples(i: int, p: int)
    ensures (i - 1) * p + 1 + (i + 1) * p == i * (2 * p) + 1
  {
  }

  /** The error bound after i steps needs at least i+1 bits. */
  lemma UlpErrorBits(i: nat)
    ensures BitLen(UlpError(i)) >= i + 1
  {
    UlpErrorClosedForm(i);
    var e := UlpError(i);
    assert e >= Pow2(i) by {
      if i > 0 {
        assert Pow2(i + 1) == 2 * Pow2(i);
        assert i * Pow2(i + 1) >= Pow2(i + 1);
      }
    }
    BitLenBounds(e);
    if BitLen(e) <= i {
      Pow2Monotone(BitLen(e), i);
    }
  }

  /** i is the number of truncated columns the guard-bit loop settles on for a product that drops d
      bits: the first step whose error bound needs d bits. */
  predicate IsUlpIndex(d: int, i: nat)
  {
    BitLen(UlpError(i)) >= d && forall j :: 0 <= j < i ==> BitLen(UlpError(j)) < d
  }

  /** The while loop shared by both neededGuardBits versions. */
  method UlpSearch(d: int) returns (i: nat)
    ensures IsUlpIndex(d, i)
    ensures d >= 1 ==> i < d
    ensures d <= 1 ==> i == 0
  {
    i := 0;
    var ulperror := 1;
    UlpErrorBits(0);
    while d > BitLen(ulperror)
      invariant ulperror == UlpError(i)
      invariant forall j :: 0 <= j < i ==> BitLen(UlpError(j)) < d
      invariant d >= 1 ==> i < d
      decreases d - i
    {
      UlpErrorBits(i);
      i := i + 1;
      ulperror := ulperror + (i + 1) * Pow2(i);
    }
  }

  /** The guard bits g of a product of wX+wY bits rounded to wOut bits: g is the number of bits
      kept below the output once the truncation error bound is taken into account. */
  predicate IsGuardBits(wX: int, wY: int, wOut: int, g: int)
  {
    var d := wX + wY - wOut;
    1 <= g <= d && IsUlpIndex(d, d - g)
  }

  method NeededGuardBits(lutInputs: int, wX: int, wY: int, wOut: int) returns (g: int)
    ensures wOut >= wX + wY || Tabulated(lutInputs, wX, wY) ==> g == 0
    ensures !(wOut >= wX + wY || Tabulated(lutInputs, wX, wY)) ==> IsGuardBits(wX, wY, wOut, g)
  {
    if wOut >= wX + wY || Tabulated(lutInputs, wX, wY) {
      g := 0;
    } else {
      var i := UlpSearch(wX + wY - wOut);
      g := wX + wY - i - wOut;
    }
  }

  /** The operator state that initialize fills in. */
  class IntMultiplier {
    var wXdecl: int
    var wYdecl: int
    var wFullP: int
    var wX: int
    var wY: int

    constructor (wXdecl: int, wYdecl: int)
      ensures this.wXdecl == wXdecl && this.wYdecl == wYdecl
      ensures wFullP == 0 && wX == 0 && wY == 0
    {
      this.wXdecl := wXdecl;
      this.wYdecl := wYdecl;
      wFullP := 0;
      wX := 0;
      wY := 0;
    }

    /** After a successful initialize, wX is the wider operand and wY the narrower one, the
        declared pair swapped exactly when wYdecl > wXdecl. */
    predicate Oriented()
      reads this
    {
      wY <= wX && wFullP == wXdecl + wYdecl
      && (if wYdecl > wXdecl then wX == wYdecl && wY == wXdecl else wX == wXdecl && wY == wYdecl)
    }

    method Initialize() returns (r: Result<()>)
      modifies this
      ensures r.Err? <==> wXdecl < 0 || wYdecl < 0
      ensures r.Err? ==> unchanged(this)
      ensures r.Ok? ==> Oriented()
      ensures wXdecl == old(wXdecl) && wYdecl == old(wYdecl)
    {
      if wXdecl < 0 || wYdecl < 0 {
        return Err("negative input size");
      }
      wFullP := wXdecl + wYdecl;
      if wYdecl > wXdecl {
        wX, wY := wYdecl, wXdecl;
      } else {
        wX, wY := wXdecl, wYdecl;
      }
      return Ok(());
    }
  }

  /** The value a d-bit field v stands for, read as unsigned or as two's complement. */
  function OperandValue(v: nat, d: nat, signed: bool): int
  {
    if signed then SignedValue(v, d) else v
  }

  lemma OperandValueBound(v: nat, d: nat, signed: bool)
    requires v < Pow2(d) && (signed ==> d >= 1)
    ensures -(Pow2(d) as int) < OperandValue(v, d, signed) < Pow2(d)
  {
    if signed {
      SignedValueRange(v, d);
      assert Pow2(d) == 2 * Pow2(d - 1);
    }
  }

  lemma MulAbsBound(a: int, b: int, ba: int, bb: int)
    requires -ba < a < ba && -bb < b < bb
    ensures -(ba * bb) < a * b < ba * bb
  {
    var ua: nat := if a < 0 then -a else a;
    var ub: nat := if b < 0 then -b else b;
    MulStrict(ua, ub, ba, bb);
    MulSigns(a, b, ua, ub);
  }

  lemma MulSigns(a: int, b: int, ua: nat, ub: nat)
    requires ua == (if a < 0 then -a else a) && ub == (if b < 0 then -b else b)
    ensures a * b == ua * ub || a * b == -(ua * ub)
  {
    if a < 0 && b < 0 {
      assert a * b == (-a) * (-b);
    } else if a < 0 {
      assert a * b == -((-a) * b);
    } else if b < 0 {
      assert a * b == -(a * (-b));
    }
  }

  /** The (possibly negated) product of the two operand fields packed in table index yx = (y << dx) + x. */
  function TableProduct(dx: nat, dy: nat, negate: bool, signedX: bool, signedY: bool, yx: nat): int
  {
    var x := OperandValue(LowPart(yx, Pow2(dx)), dx, signedX);
    var y := OperandValue(HighPart(yx, Pow2(dx)), dy, signedY);
    if negate then -(x * y) else x * y
  }

  lemma TableProductBound(dx: nat, dy: nat, negate: bool, signedX: bool, signedY: bool, yx: nat)
    requires yx < Pow2(dx + dy) && (signedX ==> dx >= 1) && (signedY ==> dy >= 1)
    ensures -(Pow2(dx + dy) as int) < TableProduct(dx, dy, negate, signedX, signedY, yx) < Pow2(dx + dy)
  {
    var p, q := Pow2(dx), Pow2(dy);
    Pow2Add(dx, dy);
    var lo, hi := LowPart(yx, p), HighPart(yx, p);
    assert hi < q by {
      if hi >= q {
        MulLeMono(q, hi, p);
      }
    }
    OperandValueBound(lo, dx, signedX);
    OperandValueBound(hi, dy, signedY);
    MulAbsBound(OperandValue(lo, dx, signedX), OperandValue(hi, dy, signedY), p, q);
  }

  /** r is v / 2^k rounded to nearest, ties rounded up. */
  predicate RoundsToNearest(r: int, v: int, k: nat)
    requires k >= 1
  {
    r * Pow2(k) - Pow2(k - 1) <= v < r * Pow2(k) + Pow2(k - 1)
  }

  /** (v + 2^(k-1)) >> k rounds v / 2^k to nearest; for v < 2^(n+k) the result is at most 2^n. */
  lemma RoundingShift(v: nat, n: nat, k: nat)
    requires k >= 1 && v < Pow2(n + k)
    ensures RoundsToNearest(HighPart(v + Pow2(k - 1), Pow2(k)), v, k)
    ensures HighPart(v + Pow2(k - 1), Pow2(k)) <= Pow2(n)
  {
    var t, h := Pow2(k), Pow2(k - 1);
    assert t == 2 * h;
    var r := HighPart(v + h, t);
    assert (r + 1) * t == r * t + t;
    Pow2Add(n, k);
    var m := Pow2(n);
    assert (m + 1) * t == m * t + t;
    MulLtCancel(r, m + 1, t);
  }

  /** Only one value rounds each way. */
  lemma RoundsToNearestUnique(r1: int, r2: int, v: int, k: nat)
    requires k >= 1 && RoundsToNearest(r1, v, k) && RoundsToNearest(r2, v, k)
    ensures r1 == r2
  {
    var p := Pow2(k);
    assert p == 2 * Pow2(k - 1);
    assert -p < (r1 - r2) * p < p;
    MulBelow(r1 - r2, p);
  }

  /** A negative value made non-negative by adding 2^w, as the mpz code does. */
  function WrapNegative(p: int, m: int): int
  {
    if p < 0 then p + m else p
  }

  /** For -m < p < m, adding m to a negative p is reduction modulo m. */
  lemma WrapNegativeIsMod(p: int, m: int)
    requires -m < p < m
    ensures WrapNegative(p, m) == p % m
  {
    if p < 0 {
      ModUnique(p, m, -1, p + m);
    } else {
      ModUnique(p, m, 0, p);
    }
  }

  /** The low operand of an index, computed as yx minus the high one shifted back, is its low part. */
  lemma LowOperand(yx: nat, m: nat, x: int, y: nat)
    requires m > 0 && y == HighPart(yx, m) && x == yx - y * m
    ensures x == LowPart(yx, m)
  {
  }

  /** SmallMultTable::function: the entry for index yx. The product is wrapped to its dx+dy-bit
      two's complement and, when the table is narrower than the product, rounded to nearest. */
  function SmallMultTableEntry(dx: nat, dy: nat, wOut: nat, negate: bool, signedX: bool, signedY: bool, yx: nat): (r: nat)
    requires yx < Pow2(dx + dy) && (signedX ==> dx >= 1) && (signedY ==> dy >= 1)
    ensures wOut >= dx + dy ==> r == TableProduct(dx, dy, negate, signedX, signedY, yx) % Pow2(dx + dy)
    ensures wOut < dx + dy ==> (r <= Pow2(wOut)
      && RoundsToNearest(r, TableProduct(dx, dy, negate, signedX, signedY, yx) % Pow2(dx + dy), dx + dy - wOut))
  {
    var wF := dx + dy;
    var m := Pow2(wF);
    var y := HighPart(yx, Pow2(dx));
    var x := yx - y * Pow2(dx);
    LowOperand(yx, Pow2(dx), x, y);
    var p := OperandValue(x, dx, signedX) * OperandValue(y, dy, signedY);
    var p1 := if negate then -p else p;
    assert p1 == TableProduct(dx, dy, negate, signedX, signedY, yx);
    TableProductBound(dx, dy, negate, signedX, signedY, yx);
    WrapNegativeIsMod(p1, m);
    var w := WrapNegative(p1, m);
    if wOut < wF then
      var tr := wF - wOut;
      RoundingShift(w, wOut, tr);
      HighPart(w + Pow2(tr - 1), Pow2(tr))
    else
      w
  }

  /** The exact product emulate starts from, for the input patterns X and Y. */
  function ExactProduct(wXdecl: nat, wYdecl: nat, signedIO: bool, negate: bool, X: nat, Y: nat): int
  {
    var p := OperandValue(X, wXdecl, signedIO) * OperandValue(Y, wYdecl, signedIO);
    if negate then -p else p
  }

  /** emulate: the expected outputs. Without truncation the single output is the two's complement of
      the exact product on wXdecl+wYdecl bits; with truncation the outputs are its round-down and its
      round-up (mod 2^wOut) on wOut bits, either of which a faithful multiplier may return. */
  function ExpectedOutputs(wXdecl: nat, wYdecl: nat, wOut: nat, signedIO: bool, negate: bool, X: nat, Y: nat): (outs: seq<nat>)
    requires X < Pow2(wXdecl) && Y < Pow2(wYdecl)
    requires signedIO ==> wXdecl >= 1 && wYdecl >= 1
    ensures var P := ExactProduct(wXdecl, wYdecl, signedIO, negate, X, Y) % Pow2(wXdecl + wYdecl);
      && (wOut >= wXdecl + wYdecl ==> outs == [P])
      && (wOut < wXdecl + wYdecl ==>
            var k := wXdecl + wYdecl - wOut;
            |outs| == 2 && outs[0] < Pow2(wOut)
            && outs[0] * Pow2(k) <= P < (outs[0] + 1) * Pow2(k)
            && outs[1] == (outs[0] + 1) % Pow2(wOut))
  {
    var wFullP := wXdecl + wYdecl;
    var m := Pow2(wFullP);
    var sx := OperandValue(X, wXdecl, signedIO);
    var sy := OperandValue(Y, wYdecl, signedIO);
    var p := if negate then -(sx * sy) else sx * sy;
    OperandValueBound(X, wXdecl, signedIO);
    OperandValueBound(Y, wYdecl, signedIO);
    Pow2Add(wXdecl, wYdecl);
    MulAbsBound(sx, sy, Pow2(wXdecl), Pow2(wYdecl));
    WrapNegativeIsMod(p, m);
    var r := WrapNegative(p, m);
    if wOut >= wFullP then
      [r]
    else
      var k := wFullP - wOut;
      var q := HighPart(r, Pow2(k));
      Pow2Add(wOut, k);
      MulLtCancel(q, Pow2(wOut), Pow2(k));
      [q, (q + 1) % Pow2(wOut)]
  }

  /** The suffix addUID appends: "_m" and the multiplier uid, then "b" and the block uid unless it is -1. */
  function UidSuffix(multiplierUid: int, blockUid: int): string
  {
    "_m" + IntToString(multiplierUid) + (if blockUid != -1 then "b" + IntToString(blockUid) else "")
  }

  /** addUID: a signal name made unique to this multiplier instance and block. */
  function AddUid(name: string, multiplierUid: int, blockUid: int): (s: string)
    ensures |s| > |name| + 2 && s[..|name|] == name && s[|name|] == '_'
  {
    name + UidSuffix(multiplierUid, blockUid)
  }

  lemma IntToStringChars(n: int)
    ensures forall k :: 0 <= k < |IntToString(n)| ==> IntToString(n)[k] == '-' || IsDigit(IntToString(n)[k])
  {
  }

  /** The underscore that starts the suffix is its only one. */
  lemma UidSuffixUnderscore(u: int, b: int, k: nat)
    requires 1 <= k < |UidSuffix(u, b)|
    ensures UidSuffix(u, b)[k] != '_'
  {
    IntToStringChars(u);
    IntToStringChars(b);
    var su := IntToString(u);
    var s := UidSuffix(u, b);
    if k >= 2 + |su| && b != -1 {
      assert s[k] == ("b" + IntToString(b))[k - 2 - |su|];
    } else if k >= 2 {
      assert s[k] == su[k - 2];
    }
  }

  /** Within one multiplier, distinct (name, block) pairs give distinct signal names. */
  lemma AddUidInjective(n1: string, n2: string, u: int, b1: int, b2: int)
    requires AddUid(n1, u, b1) == AddUid(n2, u, b2)
    ensures n1 == n2 && b1 == b2
  {
    var s := AddUid(n1, u, b1);
    var s1, s2 := UidSuffix(u, b1), UidSuffix(u, b2);
    if |n1| < |n2| {
      UidSuffixUnderscore(u, b1, |n2| - |n1|);
    } else if |n2| < |n1| {
      UidSuffixUnderscore(u, b2, |n1| - |n2|);
    } else {
      assert n1 == s[..|n1|] == n2;
      assert s1 == s[|n1|..] == s2;
      var pre := "_m" + IntToString(u);
      var t1 := s1[|pre|..];
      var t2 := s2[|pre|..];
      assert t1 == (if b1 != -1 then "b" + IntToString(b1) else "");
      assert t2 == (if b2 != -1 then "b" + IntToString(b2) else "");
      if b1 != -1 && b2 != -1 {
        assert IntToString(b1) == t1[1..] == t2[1..] == IntToString(b2);
        IntToStringInjective(b1, b2);
      }
    }
  }
}
