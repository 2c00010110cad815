/** The shift-and-add constant multiplier of src/ConstMult/IntConstMult.cpp: the binary expansion
    of the constant n, its Booth (canonical signed-digit) recoding, the depth of a shift-and-add
    tree and the balanced adder tree built from the recoded digits. */
module IntConstMult {
  import opened Bits

  /** Value of a little-endian digit sequence: the sum of d[i] * 2^i. */
  function DigitsValue(d: seq<int>): int
  {
    if |d| == 0 then 0 else DigitsValue(d[..|d| - 1]) + d[|d| - 1] * Pow2(|d| - 1)
  }

  /** Number of nonzero digits. */
  function NonZeroCount(d: seq<int>): nat
  {
    if |d| == 0 then 0 else NonZeroCount(d[..|d| - 1]) + (if d[|d| - 1] != 0 then 1 else 0)
  }

  predicate IsBinary(d: seq<int>) { forall i :: 0 <= i < |d| ==> 0 <= d[i] <= 1 }

  predicate IsSignedDigits(d: seq<int>) { forall i :: 0 <= i < |d| ==> -1 <= d[i] <= 1 }

  lemma DigitsValuePrefix(d: seq<int>, i: nat)
    requires i < |d|
    ensures DigitsValue(d[..i + 1]) == DigitsValue(d[..i]) + d[i] * Pow2(i)
    ensures NonZeroCount(d[..i + 1]) == NonZeroCount(d[..i]) + (if d[i] != 0 then 1 else 0)
  {
    assert d[..i + 1][..i] == d[..i];
  }

  /** Changing one digit changes the value by the difference at that weight. */
  lemma {:induction false} DigitsUpdate(d: seq<int>, k: nat, v: int)
    requires k < |d|
    ensures DigitsValue(d[k := v]) == DigitsValue(d) + (v - d[k]) * Pow2(k)
    ensures NonZeroCount(d[k := v]) == NonZeroCount(d) - (if d[k] != 0 then 1 else 0) + (if v != 0 then 1 else 0)
  {
    var e := d[k := v];
    var n := |d| - 1;
    if k == n {
      assert e[..n] == d[..n];
    } else {
      assert e[..n] == d[..n][k := v];
      DigitsUpdate(d[..n], k, v);
    }
  }

  /** Trailing zero digits add nothing. */
  lemma {:induction false} ZeroTail(d: seq<int>, i: nat)
    requires i <= |d| && forall j :: i <= j < |d| ==> d[j] == 0
    ensures DigitsValue(d) == DigitsValue(d[..i]) && NonZeroCount(d) == NonZeroCount(d[..i])
  {
    if i < |d| {
      var n := |d| - 1;
      ZeroTail(d[..n], i);
      assert d[..n][..i] == d[..i];
    } else {
      assert d[..i] == d;
    }
  }

  /** Signed digits of length m stay strictly within 2^m in magnitude. */
  lemma {:induction false} SignedDigitsBound(d: seq<int>)
    requires IsSignedDigits(d)
    ensures -(Pow2(|d|) as int) < DigitsValue(d) < Pow2(|d|)
  {
    if |d| > 0 {
      var n := |d| - 1;
      SignedDigitsBound(d[..n]);
      assert Pow2(|d|) == 2 * Pow2(n);
    }
  }

  /** The constructor's loop: bits[l] = nn % 2, nn >>= 1, until nn == 0, in an array of intlog2(n) entries. */
  method BinaryDigits(n: nat) returns (bits: array<int>)
    ensures bits.Length == BitLen(n)
    ensures IsBinary(bits[..]) && DigitsValue(bits[..]) == n
  {
    bits := new int[BitLen(n)];
    var nn: nat := n;
    var l := 0;
    while nn != 0
      invariant 0 <= l && l + BitLen(nn) == bits.Length
      invariant IsBinary(bits[..l])
      invariant n == DigitsValue(bits[..l]) + nn * Pow2(l)
      decreases nn
    {
      bits[l] := nn % 2;
      DigitsValuePrefix(bits[..], l);
      assert bits[..l + 1][..l] == bits[..l];
      assert Pow2(l + 1) == 2 * Pow2(l);
      HalveStep(nn, Pow2(l));
      l := l + 1;
      nn := nn / 2;
    }
    assert bits[..l] == bits[..];
  }

  lemma HalveStep(nn: nat, p: int)
    ensures nn * p == (nn % 2) * p + (nn / 2) * (2 * p)
  {
    assert nn == nn % 2 + 2 * (nn / 2);
  }

  /** Digit j of b, with the extra b[|b|] = 0 that recodeBooth appends. */
  function BitAt(b: seq<int>, j: nat): int
  {
    if j < |b| then b[j] else 0
  }

  /** Carry into position i of the recoding: c[0] = 0 and c[i+1] = 1 iff b[i] + b[i+1] + c[i] >= 2. */
  function Carry(b: seq<int>, i: nat): (c: int)
    ensures 0 <= c <= 1
  {
    if i == 0 then 0 else if BitAt(b, i - 1) + BitAt(b, i) + Carry(b, i - 1) >= 2 then 1 else 0
  }

  /** The canonical signed-digit recoding of b: digit i is b[i] + c[i] - 2c[i+1],
      and the extra top digit is the final carry. */
  function Csd(b: seq<int>): (d: seq<int>)
    ensures |d| == |b| + 1
  {
    seq(|b| + 1, i requires 0 <= i <= |b| => if i < |b| then b[i] + Carry(b, i) - 2 * Carry(b, i + 1) else Carry(b, |b|))
  }

  lemma {:induction false} CsdPrefixValue(b: seq<int>, i: nat)
    requires i <= |b|
    ensures DigitsValue(Csd(b)[..i]) + Carry(b, i) * Pow2(i) == DigitsValue(b[..i])
  {
    if i > 0 {
      var d := Csd(b);
      CsdPrefixValue(b, i - 1);
      DigitsValuePrefix(d, i - 1);
      DigitsValuePrefix(b, i - 1);
      assert Pow2(i) == 2 * Pow2(i - 1);
      assert d[i - 1] == b[i - 1] + Carry(b, i - 1) - 2 * Carry(b, i);
      CarryStep(b[i - 1], Carry(b, i - 1), Carry(b, i), Pow2(i - 1));
    }
  }

  lemma CarryStep(x: int, c0: int, c1: int, p: int)
    ensures (x + c0 - 2 * c1) * p + c1 * (2 * p) == x * p + c0 * p
  {
  }

  /** Recoding keeps the value. */
  lemma CsdValue(b: seq<int>)
    ensures DigitsValue(Csd(b)) == DigitsValue(b)
  {
    var d := Csd(b);
    CsdPrefixValue(b, |b|);
    DigitsValuePrefix(d, |b|);
    assert d[..|b| + 1] == d;
    assert b[..|b|] == b;
  }

  /** Every recoded digit is -1, 0 or 1. */
  lemma CsdDigits(b: seq<int>)
    requires IsBinary(b)
    ensures IsSignedDigits(Csd(b))
  {
  }

  /** The recoding is non-adjacent: a nonzero digit is always followed by a zero one. */
  lemma CsdNonAdjacent(b: seq<int>, i: nat)
    requires IsBinary(b) && i < |b|
    ensures Csd(b)[i] != 0 ==> Csd(b)[i + 1] == 0
  {
    var d := Csd(b);
    if d[i] != 0 {
      assert Carry(b, i + 1) == BitAt(b, i + 1);
      if i + 1 < |b| {
        assert Carry(b, i + 2) == BitAt(b, i + 1);
      }
    }
  }

  /** recodeBooth's copy b of the bits, with the extra zero b[nsize]. */
  method PadBits(bits: array<int>) returns (b: array<int>)
    ensures fresh(b)
    ensures b.Length == bits.Length + 1
    ensures forall j :: 0 <= j <= bits.Length ==> b[j] == BitAt(bits[..], j)
  {
    var nsize := bits.Length;
    b := new int[nsize + 1];
    var i := 0;
    while i < nsize
      invariant 0 <= i <= nsize
      invariant forall j :: 0 <= j < i ==> b[j] == bits[j]
    {
      b[i] := bits[i];
      i := i + 1;
    }
    b[nsize] := 0;
  }

  /** The carry loop of recodeBooth, before the rewriting step. */
  method BoothDigits(bits: array<int>) returns (code: array<int>)
    requires IsBinary(bits[..])
    ensures fresh(code)
    ensures code[..] == Csd(bits[..])
  {
    var nsize := bits.Length;
    var b := PadBits(bits);
    ghost var bs := bits[..];
    var c := new int[nsize + 1];
    code := new int[nsize + 1];
    c[0] := 0;
    var i := 0;
    while i < nsize
      invariant 0 <= i <= nsize
      invariant forall j :: 0 <= j <= nsize ==> b[j] == BitAt(bs, j)
      invariant c[i] == Carry(bs, i)
      invariant Recoded(bs, code[..], i)
    {
      var carry := if b[i] + b[i + 1] + c[i] >= 2 then 1 else 0;
      assert carry == Carry(bs, i + 1);
      c[i + 1] := carry;
      ghost var before := code[..];
      code[i] := b[i] + c[i] - 2 * carry;
      RecodeStep(bs, before, i, code[i]);
      assert code[..] == before[i := code[i]];
      i := i + 1;
    }
    code[nsize] := c[nsize];
    CsdByDigits(bs, code[..]);
  }

  /** Digits 0 to i - 1 of d are those of the recoding of b. */
  predicate Recoded(b: seq<int>, d: seq<int>, i: nat)
  {
    i <= |d| && forall j :: 0 <= j < i && j < |b| ==> d[j] == b[j] + Carry(b, j) - 2 * Carry(b, j + 1)
  }

  /** One turn of the carry loop recodes one more digit. */
  lemma RecodeStep(b: seq<int>, d: seq<int>, i: nat, v: int)
    requires Recoded(b, d, i) && i < |d| && i < |b| && v == b[i] + Carry(b, i) - 2 * Carry(b, i + 1)
    ensures Recoded(b, d[i := v], i + 1)
  {
  }

  lemma CsdByDigits(b: seq<int>, d: seq<int>)
    requires |d| == |b| + 1 && d[|b|] == Carry(b, |b|)
    requires Recoded(b, d, |b|)
    ensures d == Csd(b)
  {
  }

  /** The digit pattern (-1, 0, 1) at positions j, j+1, j+2. */
  predicate MinusZeroPlus(d: seq<int>, j: nat)
    requires j + 2 < |d|
  {
    d[j] == -1 && d[j + 1] == 0 && d[j + 2] == 1
  }

  /** (-1, 0, 1) and (1, 1, 0) at weights 2^i, 2^(i+1), 2^(i+2) both stand for 3 * 2^i. */
  lemma RewriteKeepsValue(d: seq<int>, i: nat)
    requires i + 2 < |d| && MinusZeroPlus(d, i)
    ensures DigitsValue(d[i := 1][i + 1 := 1][i + 2 := 0]) == DigitsValue(d)
    ensures NonZeroCount(d[i := 1][i + 1 := 1][i + 2 := 0]) == NonZeroCount(d)
  {
    var d1 := d[i := 1];
    var d2 := d1[i + 1 := 1];
    DigitsUpdate(d, i, 1);
    DigitsUpdate(d1, i + 1, 1);
    DigitsUpdate(d2, i + 2, 0);
    assert Pow2(i + 1) == 2 * Pow2(i) && Pow2(i + 2) == 2 * Pow2(i + 1);
  }

  /** The third loop of recodeBooth: from the top down, (-1, 0, 1) becomes (1, 1, 0), since one
      addition of x is cheaper than a subtraction. The test reads code[i+2] only after code[i] == -1
      and code[i+1] == 0, which at i = nsize-1 cannot both hold, so the read stays in bounds. */
  method RewriteMinusZeroPlus(code: array<int>)
    requires code.Length >= 2 && IsSignedDigits(code[..])
    requires code[code.Length - 2] == -1 ==> code[code.Length - 1] != 0
    modifies code
    ensures IsSignedDigits(code[..])
    ensures DigitsValue(code[..]) == DigitsValue(old(code[..]))
    ensures NonZeroCount(code[..]) == NonZeroCount(old(code[..]))
    ensures forall j :: 0 <= j && j + 2 < code.Length ==> !MinusZeroPlus(code[..], j)
  {
    ghost var d := code[..];
    var i := code.Length - 2;
    while i >= 0
      invariant -1 <= i <= code.Length - 2
      invariant Rewritten(d, code[..], i)
    {
      ghost var before := code[..];
      if code[i] == -1 && code[i + 1] == 0 && code[i + 2] == 1 {
        code[i] := 1;
        code[i + 1] := 1;
        code[i + 2] := 0;
      }
      RewriteStep(d, before, i);
      assert code[..] == RewriteAt(before, i);
      i := i - 1;
    }
  }

  /** The state of the rewriting loop above position i: digits, value and nonzero count as in
      d, the top pair not (-1, 0), and no (-1, 0, 1) left at positions above i. */
  predicate Rewritten(d: seq<int>, c: seq<int>, i: int)
  {
    && |c| == |d| >= 2
    && IsSignedDigits(c)
    && (c[|c| - 2] == -1 ==> c[|c| - 1] != 0)
    && DigitsValue(c) == DigitsValue(d)
    && NonZeroCount(c) == NonZeroCount(d)
    && forall j: nat :: i < j && j + 2 < |c| ==> !MinusZeroPlus(c, j)
  }

  /** One turn of the loop: the digits after position i is looked at. */
  function RewriteAt(c: seq<int>, i: nat): seq<int>
    requires i + 1 < |c|
  {
    if i + 2 < |c| && MinusZeroPlus(c, i) then c[i := 1][i + 1 := 1][i + 2 := 0] else c
  }

  lemma RewriteStep(d: seq<int>, c: seq<int>, i: nat)
    requires i + 1 < |c| && Rewritten(d, c, i)
    ensures Rewritten(d, RewriteAt(c, i), i - 1)
  {
    if i + 2 < |c| && MinusZeroPlus(c, i) {
      var c2 := c[i := 1][i + 1 := 1][i + 2 := 0];
      RewriteKeepsValue(c, i);
      forall j: nat | i <= j && j + 2 < |c2|
        ensures !MinusZeroPlus(c2, j)
      {
        if j > i + 2 {
          assert MinusZeroPlus(c2, j) == MinusZeroPlus(c, j);
        }
      }
    }
  }

  /** The last loop of recodeBooth: nonZeroInBoothCode. */
  method CountNonZero(code: array<int>) returns (count: nat)
    ensures count == NonZeroCount(code[..])
  {
    count := 0;
    var i := 0;
    while i < code.Length
      invariant 0 <= i <= code.Length
      invariant count == NonZeroCount(code[..i])
    {
      DigitsValuePrefix(code[..], i);
      if code[i] != 0 {
        count := count + 1;
      }
      i := i + 1;
    }
    assert code[..i] == code[..];
  }

  /** recodeBooth: signed digits BoothCode[0..nsize] of the same value as bits, with no (-1, 0, 1)
      pattern left, and nonZeroInBoothCode counting the nonzero ones, which are as few as in the
      canonical signed-digit recoding. */
  method RecodeBooth(bits: array<int>) returns (code: array<int>, nonZero: nat)
    requires IsBinary(bits[..])
    ensures code.Length == bits.Length + 1
    ensures IsSignedDigits(code[..]) && DigitsValue(code[..]) == DigitsValue(bits[..])
    ensures forall j :: 0 <= j && j + 2 < code.Length ==> !MinusZeroPlus(code[..], j)
    ensures nonZero == NonZeroCount(code[..]) == NonZeroCount(Csd(bits[..]))
  {
    code := BoothDigits(bits);
    CsdValue(bits[..]);
    CsdDigits(bits[..]);
    if bits.Length >= 1 {
      var n := bits.Length;
      if code[n - 1] != 0 {
        CsdNonAdjacent(bits[..], n - 1);
      }
      RewriteMinusZeroPlus(code);
    }
    nonZero := CountNonZero(code);
  }

  /** Once the first i digits hold every nonzero digit, the rest are zero. */
  lemma {:induction false} CountTail(d: seq<int>, i: nat)
    requires i <= |d| && NonZeroCount(d[..i]) == NonZeroCount(d)
    ensures forall j :: i <= j < |d| ==> d[j] == 0
  {
    if i < |d| {
      var n := |d| - 1;
      assert d[..n][..i] == d[..i];
      CountMonotone(d, i, n);
      CountTail(d[..n], i);
      assert forall j :: i <= j < n ==> d[..n][j] == d[j];
    }
  }

  /** Counting over a longer prefix never gives fewer nonzero digits. */
  lemma {:induction false} CountMonotone(d: seq<int>, i: nat, k: nat)
    requires i <= k <= |d|
    ensures NonZeroCount(d[..i]) <= NonZeroCount(d[..k])
  {
    if i < k {
      CountMonotone(d, i, k - 1);
      DigitsValuePrefix(d, k - 1);
    }
  }

  /** With no nonzero digit the value is 0. */
  lemma {:induction false} NoDigitsNoValue(d: seq<int>)
    requires NonZeroCount(d) == 0
    ensures DigitsValue(d) == 0
  {
    if |d| > 0 {
      NoDigitsNoValue(d[..|d| - 1]);
    }
  }

  /** The scan while (BoothCode[i] == 0) i++, started where a nonzero digit is still ahead. It
      stops at the next nonzero digit, having skipped only zeros. */
  method NextNonZero(code: seq<int>, from: nat) returns (i: nat)
    requires from <= |code| && NonZeroCount(code[..from]) < NonZeroCount(code)
    ensures from <= i < |code| && code[i] != 0
    ensures forall j :: from <= j < i ==> code[j] == 0
    ensures NonZeroCount(code[..i]) == NonZeroCount(code[..from])
    ensures DigitsValue(code[..i]) == DigitsValue(code[..from])
  {
    assert code[..|code|] == code;
    i := from;
    while code[i] == 0
      invariant from <= i < |code|
      invariant forall j :: from <= j < i ==> code[j] == 0
      invariant NonZeroCount(code[..i]) == NonZeroCount(code[..from])
      invariant DigitsValue(code[..i]) == DigitsValue(code[..from])
      decreases |code| - i
    {
      DigitsValuePrefix(code, i);
      i := i + 1;
    }
  }

  /** A node of the shift-and-add DAG, as far as this builder uses it: X is the input,
      Add(i, s, j) computes i * 2^s + j, Shift(i, s) computes i * 2^s and Neg(i) computes -i. */
  datatype ShiftAddOp = X | Add(i: ShiftAddOp, s: nat, j: ShiftAddOp) | Shift(i: ShiftAddOp, s: nat) | Neg(i: ShiftAddOp)

  /** c << s, written as s doublings. */
  function Scale(c: int, s: nat): int
  {
    if s == 0 then c else 2 * Scale(c, s - 1)
  }

  lemma {:induction false} ScaleIsMul(c: int, s: nat)
    ensures Scale(c, s) == c * Pow2(s)
  {
    if s > 0 {
      ScaleIsMul(c, s - 1);
    }
  }

  lemma {:induction false} ScaleAdd(a: int, b: int, s: nat)
    ensures Scale(a + b, s) == Scale(a, s) + Scale(b, s)
  {
    if s > 0 {
      ScaleAdd(a, b, s - 1);
    }
  }

  lemma {:induction false} ScaleScale(c: int, s: nat, t: nat)
    ensures Scale(Scale(c, s), t) == Scale(c, s + t)
  {
    if t > 0 {
      ScaleScale(c, s, t - 1);
    }
  }

  lemma {:induction false} ScaleTimes(c: int, x: int, s: nat)
    ensures Scale(c * x, s) == Scale(c, s) * x
  {
    if s > 0 {
      ScaleTimes(c, x, s - 1);
    }
  }

  /** computeConstant: the constant by which a node multiplies the input. */
  function Constant(t: ShiftAddOp): int
  {
    match t
    case X => 1
    case Add(i, s, j) => Scale(Constant(i), s) + Constant(j)
    case Shift(i, s) => Scale(Constant(i), s)
    case Neg(i) => -Constant(i)
  }

  /** The value the node's signal carries for input x. */
  function Eval(t: ShiftAddOp, x: int): int
  {
    match t
    case X => x
    case Add(i, s, j) => Scale(Eval(i, x), s) + Eval(j, x)
    case Shift(i, s) => Scale(Eval(i, x), s)
    case Neg(i) => -Eval(i, x)
  }

  /** Every node multiplies its input by its constant. */
  lemma {:induction false} EvalIsConstantTimesInput(t: ShiftAddOp, x: int)
    ensures Eval(t, x) == Constant(t) * x
  {
    match t
    case X =>
    case Add(i, s, j) =>
      EvalIsConstantTimesInput(i, x);
      EvalIsConstantTimesInput(j, x);
      AddTimes(Eval(i, x), Constant(i), Eval(j, x), Constant(j), s, x);
    case Shift(i, s) =>
      EvalIsConstantTimesInput(i, x);
      ScaleTimes(Constant(i), x, s);
    case Neg(i) =>
      EvalIsConstantTimesInput(i, x);
      NegTimes(Eval(i, x), Constant(i), x);
  }

  /** The adder node: (ci x << s) + cj x is ((ci << s) + cj) x. */
  lemma AddTimes(ei: int, ci: int, ej: int, cj: int, s: nat, x: int)
    requires ei == ci * x && ej == cj * x
    ensures Scale(ei, s) + ej == (Scale(ci, s) + cj) * x
  {
    ScaleTimes(ci, x, s);
    SumTimes(Scale(ci, s), cj, x);
  }

  lemma SumTimes(a: int, b: int, x: int)
    ensures a * x + b * x == (a + b) * x
  {
  }

  lemma NegTimes(e: int, c: int, x: int)
    requires e == c * x
    ensures -e == -c * x
  {
  }

  /** The adders and negations of t, a shared operand counted once per use. */
  function Operations(t: ShiftAddOp): nat
  {
    match t
    case X => 0
    case Add(i, _, j) => 1 + Operations(i) + Operations(j)
    case Shift(i, _) => Operations(i)
    case Neg(i) => 1 + Operations(i)
  }

  /** compute_tree_depth: adders and negations count one level each, shifts are free wiring,
      so no path is longer than the operations of the tree. */
  function TreeDepth(t: ShiftAddOp): (d: nat)
    ensures d <= Operations(t)
  {
    match t
    case X => 0
    case Add(i, _, j) => 1 + (if TreeDepth(i) >= TreeDepth(j) then TreeDepth(i) else TreeDepth(j))
    case Shift(i, _) => TreeDepth(i)
    case Neg(i) => 1 + TreeDepth(i)
  }

  /** Rounds of the pairwise reduction, k -> ceil(k / 2), until one operand is left. */
  function HalvingRounds(k: nat): nat
    requires k >= 1
  {
    if k == 1 then 0 else 1 + HalvingRounds((k + 1) / 2)
  }

  /** The number of rounds is ceil(log2 k): the least r with k <= 2^r. */
  lemma {:induction false} HalvingRoundsIsCeilLog2(k: nat)
    requires k >= 1
    ensures k <= Pow2(HalvingRounds(k))
    ensures k >= 2 ==> Pow2(HalvingRounds(k) - 1) < k
  {
    if k >= 2 {
      var h := (k + 1) / 2;
      HalvingRoundsIsCeilLog2(h);
      var r := HalvingRounds(h);
      assert Pow2(r + 1) == 2 * Pow2(r);
      if h >= 2 {
        assert Pow2(r) == 2 * Pow2(r - 1);
      }
    }
  }

  /** The sum of Constant(ls[t]) * 2^(ss[t] + g): the operands of a reduction level with their
      weights, g being the global shift. */
  function Weighted(ls: seq<ShiftAddOp>, ss: seq<nat>, g: nat): int
    requires |ls| == |ss|
  {
    if |ls| == 0 then 0
    else Weighted(ls[..|ls| - 1], ss[..|ss| - 1], g) + Scale(Constant(ls[|ls| - 1]), ss[|ss| - 1] + g)
  }

  lemma WeightedPrefix(ls: seq<ShiftAddOp>, ss: seq<nat>, g: nat, n: nat)
    requires |ls| == |ss| && n < |ls|
    ensures Weighted(ls[..n + 1], ss[..n + 1], g) == Weighted(ls[..n], ss[..n], g) + Scale(Constant(ls[n]), ss[n] + g)
  {
    assert ls[..n + 1][..n] == ls[..n] && ss[..n + 1][..n] == ss[..n];
  }

  /** One adder of a reduction round: b * 2^(s1 - s0) + a, at weight s0, stands for a at weight
      s0 plus b at weight s1. */
  lemma PairStep(a: ShiftAddOp, b: ShiftAddOp, s0: nat, s1: nat, g: nat)
    requires s0 <= s1
    ensures Scale(Constant(Add(b, s1 - s0, a)), s0 + g) == Scale(Constant(a), s0 + g) + Scale(Constant(b), s1 + g)
  {
    ScaleAdd(Scale(Constant(b), s1 - s0), Constant(a), s0 + g);
    ScaleScale(Constant(b), s1 - s0, s0 + g);
  }

  /** PairStep for a result r that is known to be the adder of the pair. */
  lemma PairLast(r: ShiftAddOp, q: nat, a: ShiftAddOp, b: ShiftAddOp, s0: nat, s1: nat, g: nat)
    requires s0 <= s1 && r == Add(b, s1 - s0, a) && q == s0
    ensures Scale(Constant(r), q + g) == Scale(Constant(a), s0 + g) + Scale(Constant(b), s1 + g)
  {
    PairStep(a, b, s0, s1, g);
  }

  /** shifts[0..k] never decreases, so every adder shift is non-negative. */
  predicate Ascending(shifts: seq<nat>, k: nat)
    requires k <= |shifts|
  {
    forall t :: 0 <= t && t + 1 < k ==> shifts[t] <= shifts[t + 1]
  }

  /** The initial level of buildMultBoothTree: one operand per nonzero digit, X for +1 and the
      shared negation of X for -1, its shift relative to the lowest nonzero digit at gs; the last
      (most significant) digit of a positive constant is +1, so its operand is X. */
  method InitialLevel(code: seq<int>, nonZero: nat, gs: nat) returns (level: array<ShiftAddOp>, shifts: array<nat>)
    requires IsSignedDigits(code) && DigitsValue(code) >= 1
    requires nonZero == NonZeroCount(code) && nonZero >= 2
    requires gs < |code| && code[gs] != 0 && NonZeroCount(code[..gs]) == 0
    ensures fresh(level) && fresh(shifts)
    ensures level.Length == nonZero && shifts.Length == nonZero
    ensures LevelOk(level[..], shifts[..], gs, DigitsValue(code), 1)
  {
    var ls, ss, i := FillLevel(code, nonZero, gs);
    LastDigitIsOne(code, i, nonZero);
    var sh: nat := i - gs;
    var ls2, ss2 := ls + [X], ss + [sh];
    assert ls2[..|ls|] == ls && ss2[..|ss|] == ss;
    AppendOperand(ls2, ss2, gs, |ls|, code, i);
    assert ls2[..|ls| + 1] == ls2 && ss2[..|ss| + 1] == ss2;
    level := new ShiftAddOp[nonZero](t requires 0 <= t < nonZero => ls2[t]);
    shifts := new nat[nonZero](t requires 0 <= t < nonZero => ss2[t]);
    assert level[..] == ls2 && shifts[..] == ss2;
  }

  /** The operand of a nonzero digit: X for +1, the negation of X for -1. */
  function Operand(d: int): (op: ShiftAddOp)
    requires d == 1 || d == -1
    ensures Constant(op) == d && TreeDepth(op) <= 1
  {
    if d == 1 then X else Neg(X)
  }

  /** After the first j operands: ls and ss hold the operands and relative shifts for the
      nonzero digits below i, and i is the next nonzero digit. */
  predicate Filled(code: seq<int>, ls: seq<ShiftAddOp>, ss: seq<nat>, gs: nat, i: nat, j: nat)
  {
    && |ls| == j && |ss| == j
    && gs <= i < |code| && code[i] != 0 && (j == 0 ==> i == gs)
    && NonZeroCount(code[..i]) == j
    && DigitsValue(code[..i]) == Weighted(ls, ss, gs)
    && (j > 0 ==> ss[0] == 0 && ss[j - 1] <= i - gs)
    && Ascending(ss, j)
    && forall t :: 0 <= t < j ==> TreeDepth(ls[t]) <= 1
  }

  lemma FillStep(code: seq<int>, ls: seq<ShiftAddOp>, ss: seq<nat>, gs: nat, i: nat, j: nat, i2: nat)
    requires IsSignedDigits(code) && Filled(code, ls, ss, gs, i, j)
    requires i < i2 < |code| && code[i2] != 0
    requires NonZeroCount(code[..i2]) == NonZeroCount(code[..i + 1])
    requires DigitsValue(code[..i2]) == DigitsValue(code[..i + 1])
    ensures Filled(code, ls + [Operand(code[i])], ss + [i - gs], gs, i2, j + 1)
  {
    var ls2, ss2 := ls + [Operand(code[i])], ss + [i - gs];
    assert ls2[..j] == ls && ss2[..j] == ss;
    AppendOperand(ls2, ss2, gs, j, code, i);
    assert ls2[..j + 1] == ls2 && ss2[..j + 1] == ss2;
  }

  /** The first loop of buildMultBoothTree: the operands of all nonzero digits but the last, the
      scan stopping at the last nonzero digit i. */
  method FillLevel(code: seq<int>, nonZero: nat, gs: nat) returns (ls: seq<ShiftAddOp>, ss: seq<nat>, i: nat)
    requires IsSignedDigits(code)
    requires nonZero == NonZeroCount(code) && nonZero >= 2
    requires gs < |code| && code[gs] != 0 && NonZeroCount(code[..gs]) == 0
    ensures Filled(code, ls, ss, gs, i, nonZero - 1)
  {
    NoDigitsNoValue(code[..gs]);
    ls, ss := [], [];
    i := gs;
    var j := 0;
    while j < nonZero - 1
      invariant 0 <= j <= nonZero - 1
      invariant Filled(code, ls, ss, gs, i, j)
    {
      DigitsValuePrefix(code, i);
      var next := NextNonZero(code, i + 1);
      FillStep(code, ls, ss, gs, i, j, next);
      ls, ss := ls + [Operand(code[i])], ss + [i - gs];
      i, j := next, j + 1;
    }
  }

  /** Adding the operand of digit i to a level that holds the digits below i gives the digits
      up to i. */
  lemma AppendOperand(ls: seq<ShiftAddOp>, ss: seq<nat>, g: nat, j: nat, code: seq<int>, i: nat)
    requires j < |ls| == |ss| && i < |code| && ss[j] + g == i && Constant(ls[j]) == code[i] != 0
    requires Weighted(ls[..j], ss[..j], g) == DigitsValue(code[..i])
    ensures Weighted(ls[..j + 1], ss[..j + 1], g) == DigitsValue(code[..i + 1])
    ensures NonZeroCount(code[..i + 1]) == NonZeroCount(code[..i]) + 1
  {
    WeightedPrefix(ls, ss, g, j);
    DigitsValuePrefix(code, i);
    ScaleIsMul(code[i], i);
  }

  /** At the last nonzero digit i of a positive signed-digit constant the digit is +1, and the
      digits up to i hold the whole value. */
  lemma LastDigitIsOne(d: seq<int>, i: nat, nonZero: nat)
    requires IsSignedDigits(d) && DigitsValue(d) >= 1 && nonZero == NonZeroCount(d)
    requires i < |d| && d[i] != 0 && NonZeroCount(d[..i]) == nonZero - 1
    ensures d[i] == 1 && DigitsValue(d) == DigitsValue(d[..i + 1])
  {
    DigitsValuePrefix(d, i);
    CountTail(d, i + 1);
    ZeroTail(d, i + 1);
    SignedDigitsBound(d[..i]);
    TopDigit(DigitsValue(d), DigitsValue(d[..i]), d[i], Pow2(i));
  }

  lemma TopDigit(v: int, a: int, t: int, p: int)
    requires t == -1 || t == 1
    requires -p < a < p && v == a + t * p && v >= 1
    ensures t == 1 && v == a + p
  {
  }

  /** The adder that a reduction round makes of the pair (2t, 2t+1). */
  function PairOp(L: seq<ShiftAddOp>, S: seq<nat>, t: nat): ShiftAddOp
    requires 2 * t + 1 < |L| && 2 * t + 1 < |S| && S[2 * t] <= S[2 * t + 1]
  {
    Add(L[2 * t + 1], S[2 * t + 1] - S[2 * t], L[2 * t])
  }

  /** The operands after one reduction round of the first k operands (L, S): ceil(k/2) of them,
      the adders of the pairs followed, for odd k, by the last operand unchanged. */
  function RoundLevel(L: seq<ShiftAddOp>, S: seq<nat>, k: nat): (r: seq<ShiftAddOp>)
    requires k <= |L| == |S| && Ascending(S, k)
    ensures |r| == (k + 1) / 2
  {
    seq((k + 1) / 2, t requires 0 <= t < (k + 1) / 2 => if t < k / 2 then PairOp(L, S, t) else L[2 * t])
  }

  /** Their shifts: each result keeps the shift of its lower operand. */
  function RoundShifts(S: seq<nat>, k: nat): (r: seq<nat>)
    requires k <= |S|
    ensures |r| == (k + 1) / 2
  {
    seq((k + 1) / 2, t requires 0 <= t < (k + 1) / 2 => S[2 * t])
  }

  /** A reduction round keeps the weighted sum of the operands. */
  lemma {:induction false} RoundWeighted(L: seq<ShiftAddOp>, S: seq<nat>, k: nat, gs: nat)
    requires 1 <= k <= |L| == |S| && Ascending(S, k)
    ensures Weighted(RoundLevel(L, S, k), RoundShifts(S, k), gs) == Weighted(L[..k], S[..k], gs)
  {
    if k == 1 {
      RoundOfOne(L, S, gs);
    } else if k == 2 {
      RoundOfTwo(L, S, gs);
    } else {
      var k2 := if k % 2 == 0 then k - 2 else k - 1;
      PrefixRound(L, S, k, k2);
      RoundWeighted(L, S, k2, gs);
      RoundExtend(L, S, k, k2, gs);
    }
  }

  lemma RoundOfOne(L: seq<ShiftAddOp>, S: seq<nat>, gs: nat)
    requires 1 <= |L| == |S|
    ensures Weighted(RoundLevel(L, S, 1), RoundShifts(S, 1), gs) == Weighted(L[..1], S[..1], gs)
  {
    assert RoundLevel(L, S, 1) == [L[0]] == L[..1];
    assert RoundShifts(S, 1) == [S[0]] == S[..1];
  }

  lemma RoundOfTwo(L: seq<ShiftAddOp>, S: seq<nat>, gs: nat)
    requires 2 <= |L| == |S| && S[0] <= S[1]
    ensures Weighted(RoundLevel(L, S, 2), RoundShifts(S, 2), gs) == Weighted(L[..2], S[..2], gs)
  {
    var r := PairOp(L, S, 0);
    assert RoundLevel(L, S, 2) == [r];
    assert RoundShifts(S, 2) == [S[0]];
    WeightedSingle(r, S[0], gs);
    PairStep(L[0], L[1], S[0], S[1], gs);
    WeightedPrefixTwo(L, S, gs, 2);
    assert L[..0] == [] && S[..0] == [];
  }

  lemma WeightedSingle(r: ShiftAddOp, q: nat, g: nat)
    ensures Weighted([r], [q], g) == Scale(Constant(r), q + g)
  {
    assert [r][..0] == [] && [q][..0] == [];
  }

  /** The last result of a round of k operands adds the weight of operands k2..k-1. */
  lemma RoundExtend(L: seq<ShiftAddOp>, S: seq<nat>, k: nat, k2: nat, gs: nat)
    requires 3 <= k <= |L| == |S| && Ascending(S, k) && k2 == (if k % 2 == 0 then k - 2 else k - 1)
    requires Ascending(S, k2)
    requires RoundLevel(L, S, k)[..(k2 + 1) / 2] == RoundLevel(L, S, k2)
    requires RoundShifts(S, k)[..(k2 + 1) / 2] == RoundShifts(S, k2)
    requires Weighted(RoundLevel(L, S, k2), RoundShifts(S, k2), gs) == Weighted(L[..k2], S[..k2], gs)
    ensures Weighted(RoundLevel(L, S, k), RoundShifts(S, k), gs) == Weighted(L[..k], S[..k], gs)
  {
    var R, Q := RoundLevel(L, S, k), RoundShifts(S, k);
    var m := (k + 1) / 2 - 1;
    assert m == (k2 + 1) / 2 && 2 * m == k2 && k / 2 == (if k % 2 == 0 then m + 1 else m);
    if k % 2 == 0 {
      assert 2 * m + 1 == k - 1;
      assert R[m] == PairOp(L, S, m) && Q[m] == S[k - 2];
      ExtendEven(L, S, k, gs, R, Q, m);
    } else {
      assert R[m] == L[k - 1] && Q[m] == S[k - 1];
      ExtendOdd(L, S, k, gs, R, Q, m);
    }
  }

  /** Extending a round by the adder of the pair (k-2, k-1). */
  lemma ExtendEven(L: seq<ShiftAddOp>, S: seq<nat>, k: nat, gs: nat, R: seq<ShiftAddOp>, Q: seq<nat>, m: nat)
    requires 2 <= k <= |L| == |S| && |R| == |Q| == m + 1 && S[k - 2] <= S[k - 1]
    requires R[m] == Add(L[k - 1], S[k - 1] - S[k - 2], L[k - 2]) && Q[m] == S[k - 2]
    requires Weighted(R[..m], Q[..m], gs) == Weighted(L[..k - 2], S[..k - 2], gs)
    ensures Weighted(R, Q, gs) == Weighted(L[..k], S[..k], gs)
  {
    assert R[..m] == R[..|R| - 1] && Q[..m] == Q[..|Q| - 1];
    PairLast(R[m], Q[m], L[k - 2], L[k - 1], S[k - 2], S[k - 1], gs);
    var t0, t1 := Scale(Constant(L[k - 2]), S[k - 2] + gs), Scale(Constant(L[k - 1]), S[k - 1] + gs);
    assert Weighted(R, Q, gs) == Weighted(L[..k - 2], S[..k - 2], gs) + t0 + t1;
    WeightedPrefixTwo(L, S, gs, k);
  }

  lemma WeightedLast(ls: seq<ShiftAddOp>, ss: seq<nat>, g: nat, k: nat)
    requires |ls| == |ss| && 1 <= k <= |ls|
    ensures Weighted(ls[..k], ss[..k], g) == Weighted(ls[..k - 1], ss[..k - 1], g) + Scale(Constant(ls[k - 1]), ss[k - 1] + g)
  {
    WeightedPrefix(ls, ss, g, k - 1);
  }

  lemma WeightedPrefixTwo(ls: seq<ShiftAddOp>, ss: seq<nat>, g: nat, k: nat)
    requires |ls| == |ss| && 2 <= k <= |ls|
    ensures Weighted(ls[..k], ss[..k], g)
         == Weighted(ls[..k - 2], ss[..k - 2], g) + Scale(Constant(ls[k - 2]), ss[k - 2] + g) + Scale(Constant(ls[k - 1]), ss[k - 1] + g)
  {
    WeightedPrefix(ls, ss, g, k - 1);
    WeightedPrefix(ls, ss, g, k - 2);
  }

  /** Extending a round by the operand k-1 unchanged. */
  lemma ExtendOdd(L: seq<ShiftAddOp>, S: seq<nat>, k: nat, gs: nat, R: seq<ShiftAddOp>, Q: seq<nat>, m: nat)
    requires 1 <= k <= |L| == |S| && |R| == |Q| == m + 1
    requires R[m] == L[k - 1] && Q[m] == S[k - 1]
    requires Weighted(R[..m], Q[..m], gs) == Weighted(L[..k - 1], S[..k - 1], gs)
    ensures Weighted(R, Q, gs) == Weighted(L[..k], S[..k], gs)
  {
    assert R[..m] == R[..|R| - 1] && Q[..m] == Q[..|Q| - 1];
    WeightedLast(L, S, gs, k);
  }

  /** A reduction round keeps the shifts in order and the lowest shift, and adds one adder
      level. */
  lemma RoundShape(L: seq<ShiftAddOp>, S: seq<nat>, k: nat, depth: nat)
    requires 1 <= k <= |L| == |S| && Ascending(S, k)
    requires forall t :: 0 <= t < k ==> TreeDepth(L[t]) <= depth
    ensures RoundShifts(S, k)[0] == S[0] && Ascending(RoundShifts(S, k), (k + 1) / 2)
    ensures forall t :: 0 <= t < (k + 1) / 2 ==> TreeDepth(RoundLevel(L, S, k)[t]) <= depth + 1
  {
    var Q := RoundShifts(S, k);
    forall t | 0 <= t && t + 1 < (k + 1) / 2
      ensures Q[t] <= Q[t + 1]
    {
      assert S[2 * t] <= S[2 * t + 1] <= S[2 * t + 2];
    }
  }

  /** Rounds of k and of a smaller k2 of the same parity class agree on the first ceil(k2/2). */
  lemma PrefixRound(L: seq<ShiftAddOp>, S: seq<nat>, k: nat, k2: nat)
    requires 1 <= k2 < k <= |L| == |S| && Ascending(S, k) && k2 % 2 == 0
    ensures Ascending(S, k2)
    ensures RoundLevel(L, S, k)[..(k2 + 1) / 2] == RoundLevel(L, S, k2)
    ensures RoundShifts(S, k)[..(k2 + 1) / 2] == RoundShifts(S, k2)
  {
  }

  /** One round of the reduction loop, in place: for j < k/2, level[j] becomes the adder of
      level[2j+1] shifted by shifts[2j+1] - shifts[2j] and level[2j], at shifts[2j]; for odd k the
      last operand moves down to position k/2. Returns the new k. */
  method HalveLevel(level: array<ShiftAddOp>, shifts: array<nat>, k: nat) returns (nk: nat)
    requires level.Length == shifts.Length && 2 <= k <= level.Length
    requires Ascending(shifts[..], k)
    modifies level, shifts
    ensures nk == (k + 1) / 2
    ensures level[..nk] == RoundLevel(old(level[..]), old(shifts[..]), k)
    ensures shifts[..nk] == RoundShifts(old(shifts[..]), k)
  {
    ghost var L, S := level[..], shifts[..];
    var half := k / 2;
    var j := 0;
    while j < half
      invariant 0 <= j <= half
      invariant Halved(L, S, k, level[..], shifts[..], j)
    {
      ghost var lv, sh := level[..], shifts[..];
      PairTurn(L, S, k, lv, sh, j);
      level[j] := Add(level[2 * j + 1], shifts[2 * j + 1] - shifts[2 * j], level[2 * j]);
      shifts[j] := shifts[2 * j];
      assert level[..] == lv[j := Add(lv[2 * j + 1], sh[2 * j + 1] - sh[2 * j], lv[2 * j])];
      assert shifts[..] == sh[j := sh[2 * j]];
      j := j + 1;
    }
    HalveFinish(L, S, k, level[..], shifts[..]);
    if 2 * half != k {
      ghost var lv, sh := level[..], shifts[..];
      level[half] := level[2 * half];
      shifts[half] := shifts[2 * half];
      assert level[..] == lv[half := lv[2 * half]];
      assert shifts[..] == sh[half := sh[2 * half]];
      nk := half + 1;
    } else {
      nk := half;
    }
  }

  /** The arrays (lv, sh) after j turns of the pairing loop over the first k operands (L, S):
      the first j entries hold the pairs' adders and shifts, the others are untouched. */
  predicate Halved(L: seq<ShiftAddOp>, S: seq<nat>, k: nat, lv: seq<ShiftAddOp>, sh: seq<nat>, j: nat)
  {
    && k <= |L| == |S| == |lv| == |sh| && Ascending(S, k) && 2 * j <= k
    && (forall t :: j <= t < |lv| ==> lv[t] == L[t])
    && (forall t :: j <= t < |sh| ==> sh[t] == S[t])
    && (forall t :: 0 <= t < j ==> lv[t] == PairOp(L, S, t))
    && (forall t :: 0 <= t < j ==> sh[t] == S[2 * t])
  }

  /** One turn of the pairing loop: entry j takes the adder of operands 2j and 2j + 1. */
  lemma PairTurn(L: seq<ShiftAddOp>, S: seq<nat>, k: nat, lv: seq<ShiftAddOp>, sh: seq<nat>, j: nat)
    requires Halved(L, S, k, lv, sh, j) && 2 * j + 1 < k
    ensures sh[2 * j] <= sh[2 * j + 1]
    ensures Halved(L, S, k, lv[j := Add(lv[2 * j + 1], sh[2 * j + 1] - sh[2 * j], lv[2 * j])], sh[j := sh[2 * j]], j + 1)
  {
    assert lv[2 * j + 1] == L[2 * j + 1] && lv[2 * j] == L[2 * j];
    assert sh[2 * j + 1] == S[2 * j + 1] && sh[2 * j] == S[2 * j];
  }

  /** After the loop, the first k/2 entries are the round's pairs; for odd k the last operand,
      moved down to k/2, completes it. */
  lemma HalveFinish(L: seq<ShiftAddOp>, S: seq<nat>, k: nat, lv: seq<ShiftAddOp>, sh: seq<nat>)
    requires Halved(L, S, k, lv, sh, k / 2)
    ensures 2 * (k / 2) == k ==> lv[..k / 2] == RoundLevel(L, S, k) && sh[..k / 2] == RoundShifts(S, k)
    ensures 2 * (k / 2) != k ==>
      && lv[k / 2 := lv[2 * (k / 2)]][..k / 2 + 1] == RoundLevel(L, S, k)
      && sh[k / 2 := sh[2 * (k / 2)]][..k / 2 + 1] == RoundShifts(S, k)
  {
  }

  /** buildMultBoothTree: a balanced tree of adders whose constant is the recoded constant, with
      at most ceil(log2 nonZero) adder levels above one level of negation. */
  method BuildMultBoothTree(code: seq<int>, nonZero: nat) returns (result: ShiftAddOp)
    requires IsSignedDigits(code) && DigitsValue(code) >= 1
    requires nonZero == NonZeroCount(code)
    ensures nonZero >= 1
    ensures Constant(result) == DigitsValue(code)
    ensures TreeDepth(result) <= HalvingRounds(nonZero) + 1
  {
    if nonZero == 0 {
      NoDigitsNoValue(code);
    }
    assert code[..0] == [];
    var gs := NextNonZero(code, 0);
    if nonZero == 1 {
      LastDigitIsOne(code, gs, nonZero);
      NoDigitsNoValue(code[..gs]);
      AppendGlobalShift(code, gs);
      result := if gs == 0 then X else Shift(X, gs);
    } else {
      var level, shifts := InitialLevel(code, nonZero, gs);
      var k := nonZero;
      assert level[..k] == level[..] && shifts[..k] == shifts[..];
      ghost var rounds := 0;
      while k != 1
        invariant 1 <= k <= level.Length == shifts.Length
        invariant LevelOk(level[..k], shifts[..k], gs, DigitsValue(code), rounds + 1)
        invariant HalvingRounds(k) + rounds == HalvingRounds(nonZero)
        decreases k
      {
        ghost var L, S, k0 := level[..], shifts[..], k;
        RoundStep(L, S, k, gs, DigitsValue(code), rounds + 1);
        k := HalveLevel(level, shifts, k);
        rounds := rounds + 1;
      }
      WeightedPrefix(level[..], shifts[..], gs, 0);
      assert level[..1][..0] == [];
      result := if gs == 0 then level[0] else Shift(level[0], gs);
    }
  }

  /** A reduction level: operands ls at relative shifts ss, lowest shift 0 and ascending, of total
      weight v under the global shift g, each operand at most depth adders and negations deep. */
  predicate LevelOk(ls: seq<ShiftAddOp>, ss: seq<nat>, g: nat, v: int, depth: nat)
  {
    && 1 <= |ls| == |ss|
    && Weighted(ls, ss, g) == v
    && ss[0] == 0 && Ascending(ss, |ss|)
    && forall t :: 0 <= t < |ls| ==> TreeDepth(ls[t]) <= depth
  }

  /** One reduction round keeps a level well formed, and adds one to its depth. */
  lemma RoundStep(L: seq<ShiftAddOp>, S: seq<nat>, k: nat, g: nat, v: int, depth: nat)
    requires 2 <= k <= |L| == |S| && LevelOk(L[..k], S[..k], g, v, depth)
    ensures Ascending(S, k)
    ensures LevelOk(RoundLevel(L, S, k), RoundShifts(S, k), g, v, depth + 1)
  {
    assert forall t :: 0 <= t < k ==> L[..k][t] == L[t] && S[..k][t] == S[t];
    RoundWeighted(L, S, k, g);
    RoundShape(L, S, k, depth);
  }

  /** A power of two 2^gs: the single digit is 1 at gs. */
  lemma AppendGlobalShift(code: seq<int>, gs: nat)
    requires gs < |code| && code[gs] == 1 && DigitsValue(code) == DigitsValue(code[..gs + 1]) && DigitsValue(code[..gs]) == 0
    ensures DigitsValue(code) == Scale(1, gs)
  {
    DigitsValuePrefix(code, gs);
    ScaleIsMul(1, gs);
  }

  /** The operator built by the IntConstMult constructor for an input of xsize bits and the
      constant n: the binary digits of n, their Booth recoding, and the adder tree whose
      constant is n. */
  class IntConstMultOp {
    const xsize: nat
    const n: nat
    var nsize: nat
    var rsize: nat
    var bits: array<int>
    var boothCode: array<int>
    var nonZeroInBoothCode: nat
    var implementation: ShiftAddOp

    constructor (xsize: nat, n: nat)
      requires n >= 1
      ensures this.xsize == xsize && this.n == n
      ensures nsize == BitLen(n) && rsize == nsize + xsize
      ensures bits.Length == nsize && IsBinary(bits[..]) && DigitsValue(bits[..]) == n
      ensures boothCode.Length == nsize + 1 && IsSignedDigits(boothCode[..]) && DigitsValue(boothCode[..]) == n
      ensures nonZeroInBoothCode == NonZeroCount(boothCode[..]) >= 1
      ensures Constant(implementation) == n
      ensures TreeDepth(implementation) <= HalvingRounds(nonZeroInBoothCode) + 1
    {
      this.xsize := xsize;
      this.n := n;
      nsize := BitLen(n);
      rsize := BitLen(n) + xsize;
      var b := BinaryDigits(n);
      var code, count := RecodeBooth(b);
      var tree := BuildMultBoothTree(code[..], count);
      bits, boothCode, nonZeroInBoothCode, implementation := b, code, count, tree;
    }
  }

  /** The output R of rsize = intlog2(n) + xsize bits holds every product n * X. */
  lemma ProductFits(n: nat, xsize: nat, x: nat)
    requires x < Pow2(xsize)
    ensures n * x < Pow2(BitLen(n) + xsize)
  {
    BitLenBounds(n);
    Pow2Add(BitLen(n), xsize);
    MulStrict(n, x, Pow2(BitLen(n)), Pow2(xsize));
  }
}
