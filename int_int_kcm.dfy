/** The integer KCM multiplier by an integer constant (src/ConstMult/IntIntKCM.cpp): its output
    width, the cut of X into LUT-sized digits with the last digit sign- or zero-extended, and the
    reference behaviour emulate checks against. */
module IntIntKcm {
  import opened Bits
  import opened Results

  datatype Kcm = Kcm(wIn: nat, c: nat, signedInput: bool, wOut: nat)

  /** The constructor: a negative constant is refused; the output has intlog2(C) + wIn bits. */
  function NewKcm(wIn: nat, c: int, signedInput: bool): (r: Result<Kcm>)
    ensures r.Ok? <==> c >= 0
    ensures r.Ok? ==> r.value.wIn == wIn && r.value.c == c && r.value.signedInput == signedInput
    ensures r.Ok? ==> r.value.wOut >= wIn && c < Pow2(r.value.wOut - wIn)
    ensures r.Ok? && c > 0 ==> r.value.wOut > wIn && Pow2(r.value.wOut - wIn - 1) <= c
  {
    if c < 0 then Err("IntIntKCM: only positive constants are supported")
    else
      BitLenBounds(c);
      Ok(Kcm(wIn, c, signedInput, BitLen(c) + wIn))
  }

  // ---------------------------------------------------------------- digits

  /** nbOfTables = ceil(wIn / lutWidth). */
  function NbOfTables(wIn: nat, lutWidth: nat): (n: nat)
    requires lutWidth >= 1
  {
    if wIn % lutWidth == 0 then wIn / lutWidth else wIn / lutWidth + 1
  }

  /** lastLutWidth: the bits of the top digit, a whole LUT when lutWidth divides wIn. */
  function LastLutWidth(wIn: nat, lutWidth: nat): (w: nat)
    requires lutWidth >= 1
  {
    if wIn % lutWidth == 0 then lutWidth else wIn % lutWidth
  }

  /** The full digits and the top one make up wIn exactly; the top one has 1 to lutWidth bits, so
      nbOfTables is the least number of LUT-wide digits that hold wIn bits. */
  lemma DigitsCoverInput(wIn: nat, lutWidth: nat)
    requires lutWidth >= 1 && wIn >= 1
    ensures NbOfTables(wIn, lutWidth) >= 1
    ensures 1 <= LastLutWidth(wIn, lutWidth) <= lutWidth
    ensures lutWidth * (NbOfTables(wIn, lutWidth) - 1) + LastLutWidth(wIn, lutWidth) == wIn
    ensures lutWidth * (NbOfTables(wIn, lutWidth) - 1) < wIn <= lutWidth * NbOfTables(wIn, lutWidth)
  {
    var q, r := wIn / lutWidth, wIn % lutWidth;
    var n := NbOfTables(wIn, lutWidth);
    assert wIn == lutWidth * q + r;
    if r == 0 {
      assert q >= 1;
      assert n == q;
      MulPred(n, lutWidth);
    } else {
      assert n - 1 == q;
      MulPred(n, lutWidth);
    }
  }

  /** A w-bit value sign-extended to `to` bits: the bits from w up are copies of bit w - 1. */
  function SignExtend(v: nat, w: nat, to: nat): (r: nat)
    requires 1 <= w <= to && v < Pow2(w)
    ensures r < Pow2(to)
    ensures SignedValue(r, to) == SignedValue(v, w)
  {
    Pow2Monotone(w, to);
    if w == to then v
    else
      Pow2Strict(w - 1, to - 1);
      Pow2Strict(w, to);
      if v >= Pow2(w - 1) then v + Pow2(to) - Pow2(w) else v
  }

  /** The top digit d(nb-1): the bits of X from lutWidth*(nb-1) up, sign-extended for a signed
      input and zero-extended otherwise to a whole LUT. */
  function TopDigit(x: nat, wIn: nat, lutWidth: nat, signedInput: bool): (d: nat)
    requires lutWidth >= 1 && wIn >= 1 && x < Pow2(wIn)
    ensures d < Pow2(lutWidth)
  {
    DigitsCoverInput(wIn, lutWidth);
    var low := lutWidth * (NbOfTables(wIn, lutWidth) - 1);
    var last := LastLutWidth(wIn, lutWidth);
    var h := HighPart(x, Pow2(low));
    TopBelow(x, low, last);
    Pow2Monotone(last, lutWidth);
    if signedInput then SignExtend(h, last, lutWidth) else h
  }

  lemma TopBelow(x: nat, low: nat, last: nat)
    requires x < Pow2(low + last)
    ensures HighPart(x, Pow2(low)) < Pow2(last)
  {
    Pow2Add(low, last);
    var h := HighPart(x, Pow2(low));
    if h >= Pow2(last) {
      MulLeMono(Pow2(last), h, Pow2(low));
    }
  }

  /** The digits recombine: the full digits below weight 2^(lutWidth*(nb-1)) plus the top digit
      at that weight give X back, read unsigned or, for a signed input, in two's complement. */
  lemma DigitsRecombine(x: nat, wIn: nat, lutWidth: nat, signedInput: bool)
    requires lutWidth >= 1 && wIn >= 1 && x < Pow2(wIn)
    ensures var low := lutWidth * (NbOfTables(wIn, lutWidth) - 1);
      var top := TopDigit(x, wIn, lutWidth, signedInput);
      var rest := ChunksValue(x, NbOfTables(wIn, lutWidth) - 1, lutWidth);
      && (!signedInput ==> x == rest + top * Pow2(low))
      && (signedInput ==> SignedValue(x, wIn) == rest + SignedValue(top, lutWidth) * Pow2(low))
  {
    DigitsCoverInput(wIn, lutWidth);
    var low := lutWidth * (NbOfTables(wIn, lutWidth) - 1);
    var last := LastLutWidth(wIn, lutWidth);
    var p := Pow2(low);
    var h, l := HighPart(x, p), LowPart(x, p);
    TopBelow(x, low, last);
    ChunksLowBits(x, NbOfTables(wIn, lutWidth) - 1, lutWidth);
    if signedInput {
      SignedSplit(x, p, h, l, low, last);
    }
  }

  /** Reading the top `last` bits as signed reads the whole low + last bits as signed. */
  lemma SignedSplit(x: nat, p: nat, h: nat, l: nat, low: nat, last: nat)
    requires last >= 1 && p == Pow2(low) && x == h * p + l && l < p && h < Pow2(last)
    ensures SignedValue(x, low + last) == l + SignedValue(h, last) * p
  {
    Pow2Split(low, last);
    SignedSplitProducts(x, p, h, l, Pow2(last - 1), Pow2(last), Pow2(low + last - 1), Pow2(low + last));
  }

  /** The powers of two at the sign bit and above it, split at bit low. */
  lemma Pow2Split(low: nat, last: nat)
    requires last >= 1
    ensures Pow2(last) == 2 * Pow2(last - 1)
    ensures Pow2(low + last - 1) == Pow2(last - 1) * Pow2(low)
    ensures Pow2(low + last) == Pow2(last) * Pow2(low)
  {
    Pow2Add(last - 1, low);
    Pow2Add(last, low);
  }

  /** The arithmetic of SignedSplit, with the powers of two as plain numbers. */
  lemma SignedSplitProducts(x: int, p: nat, h: int, l: int, t: int, top: int, tp: int, topp: int)
    requires top == 2 * t && tp == t * p && topp == top * p
    requires x == h * p + l && 0 <= l < p && h < top
    ensures (if x >= tp then x - topp else x) == l + (if h >= t then h - top else h) * p
  {
    if h >= t {
      MulLeMono(t, h, p);
      assert (h - top) * p == h * p - top * p;
    } else {
      MulLeMono(h, t - 1, p);
      assert (t - 1) * p == t * p - p;
    }
  }

  // ---------------------------------------------------------------- emulate

  /** The value of X: two's complement when the input is signed. */
  function InputValue(k: Kcm, x: nat): (v: int)
    ensures !k.signedInput ==> v == x
    ensures k.signedInput && k.wIn >= 1 ==> v == SignedValue(x, k.wIn)
  {
    if k.signedInput && x > Pow2(k.wIn) / 2 - 1 then x - Pow2(k.wIn) else x
  }

  /** emulate: X (decoded) times C, a negative product wrapped by 2^wOut; either way the result
      is congruent to X*C modulo 2^wOut. */
  function Emulate(k: Kcm, x: nat): (r: int)
    ensures r % Pow2(k.wOut) == (InputValue(k, x) * k.c) % Pow2(k.wOut)
  {
    var svR := InputValue(k, x) * k.c;
    DivAddMultiple(svR, 1, Pow2(k.wOut));
    if svR < 0 then Pow2(k.wOut) + svR else svR
  }

  /** For a constructed multiplier and an input of wIn bits, the expected output is a wOut-bit
      pattern congruent to X*C: the product fits wOut bits, signed or not. */
  lemma EmulateFits(wIn: nat, c: nat, signedInput: bool, x: nat)
    requires NewKcm(wIn, c, signedInput).Ok? && x < Pow2(wIn)
    ensures var k := NewKcm(wIn, c, signedInput).value;
      && 0 <= Emulate(k, x) < Pow2(k.wOut)
      && Emulate(k, x) % Pow2(k.wOut) == (InputValue(k, x) * c) % Pow2(k.wOut)
  {
    var k := NewKcm(wIn, c, signedInput).value;
    Pow2Add(wIn, k.wOut - wIn);
    assert wIn + (k.wOut - wIn) == k.wOut;
    WrapProduct(InputValue(k, x), c, Pow2(wIn), Pow2(k.wOut - wIn), Pow2(k.wOut));
  }

  /** The arithmetic of EmulateFits: a product of a number below 2^wIn in magnitude and a constant
      below 2^(wOut - wIn), wrapped once by 2^wOut when negative, is its residue modulo 2^wOut. */
  lemma WrapProduct(v: int, c: nat, pin: nat, pc: nat, m: int)
    requires m == pin * pc && c < pc && -(pin as int) <= v < pin
    ensures var w := if v * c < 0 then m + v * c else v * c;
      0 <= w < m && w % m == (v * c) % m
  {
    if v >= 0 {
      MulStrict(v, c, pin, pc);
      ModUnique(v * c, m, 0, v * c);
    } else if c == 0 {
      ModUnique(0, m, 0, 0);
    } else {
      MulLeMono(-v, pin, c);
      MulLeMono(c, pc, pin);
      assert -(v * c) <= m;
      if v * c == -m {
        ModUnique(v * c, m, -1, 0);
        ModUnique(0, m, 0, 0);
      } else {
        DivAddMultiple(v * c, 1, m);
        ModUnique(m + v * c, m, 0, m + v * c);
      }
    }
  }
}
