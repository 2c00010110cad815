/** The combinational Karatsuba multiplier (src/Karatsuba.cpp): the recursive split of
    X(L downto R) * Y(L downto R) into three smaller products, and the zero_generator helper that
    writes the zero padding of the VHDL it emits. */
module Karatsuba {
  import opened Bits

  // ---------------------------------------------------------------- zero_generator

  /** n zeros, none for n <= 0. */
  function Zeros(n: int): (s: string)
    ensures |s| == (if n > 0 then n else 0)
    ensures forall i :: 0 <= i < |s| ==> s[i] == '0'
  {
    if n <= 0 then "" else Zeros(n - 1) + "0"
  }

  /** The string zero_generator returns: the zeros with no quote (margins -2), a left quote (-1),
      a right quote (1), or both (0 and any other value). */
  function ZeroString(n: int, margins: int): (s: string)
    ensures var z := if n > 0 then n else 0;
      && (margins == -2 ==> |s| == z && forall i :: 0 <= i < z ==> s[i] == '0')
      && (margins == -1 ==> |s| == z + 1 && s[0] == '"' && forall i :: 1 <= i <= z ==> s[i] == '0')
      && (margins == 1 ==> |s| == z + 1 && s[z] == '"' && forall i :: 0 <= i < z ==> s[i] == '0')
      && (margins != -2 && margins != -1 && margins != 1 ==>
            |s| == z + 2 && s[0] == '"' && s[z + 1] == '"' && forall i :: 1 <= i <= z ==> s[i] == '0')
  {
    var zeros := Zeros(n);
    if margins == -2 then zeros
    else if margins == -1 then "\"" + zeros
    else if margins == 1 then zeros + "\""
    else "\"" + zeros + "\""
  }

  /** zero_generator: the loop appending the zeros, then the choice of quotes. */
  method ZeroGenerator(n: int, margins: int) returns (s: string)
    ensures s == ZeroString(n, margins)
  {
    var zeros := "";
    var i := 1;
    while i <= n
      invariant 1 <= i && (n >= 1 ==> i <= n + 1) && (n < 1 ==> i == 1)
      invariant zeros == Zeros(i - 1)
      decreases n - i
    {
      zeros := zeros + "0";
      i := i + 1;
    }
    assert zeros == Zeros(n);
    var left := "\"" + zeros;
    var full := left + "\"";
    var right := zeros + "\"";
    if margins == -2 {
      s := zeros;
    } else if margins == -1 {
      s := left;
    } else if margins == 0 {
      s := full;
    } else if margins == 1 {
      s := right;
    } else {
      s := full;
    }
  }

  // ---------------------------------------------------------------- the split

  /** basisBits, the half of the terms each of x0, y0 gets: termWidth/2 rounded up. */
  function BasisBits(termWidth: nat): (b: nat)
    ensures termWidth == 2 * b || termWidth == 2 * b - 1
  {
    if termWidth % 2 == 0 then termWidth / 2 else termWidth / 2 + 1
  }

  /** A bit range X(l downto r). */
  datatype Range = Range(l: int, r: int)

  function Width(g: Range): int
  {
    g.l - g.r + 1
  }

  /** What BuildCombinationalKaratsuba does with X(L downto R): one product when the terms fit the
      target's multiplier, else three recursive products, on the sums x0 + x1 (the signals
      t1_LeftTerm and t1_RightTerm, bits basisBits downto 0), on the low halves and on the high
      halves of the terms. */
  datatype Call = Leaf | Split(center: Range, low: Range, high: Range)

  function Step(L: int, R: int, multiplierXWidth: int): Call
    requires L - R + 1 >= 1
  {
    if L - R + 1 <= multiplierXWidth then Leaf
    else
      var termWidth := L - R + 1;
      var b := BasisBits(termWidth);
      var e := if termWidth % 2 == 0 then 1 else 2;
      Split(Range(b, 0), Range(L - b + e - 1, L - 2 * b + e), Range(L, L - b + e))
  }

  /** The recursion stops exactly when the terms fit the multiplier. Otherwise the low half is
      the basisBits bits from R up, the high half the rest up to L, and the sums have basisBits + 1
      bits; with a multiplier of at least 3 bits every recursive call is on narrower terms. */
  lemma SplitShape(L: int, R: int, multiplierXWidth: int)
    requires L - R + 1 >= 1
    ensures Step(L, R, multiplierXWidth).Leaf? <==> L - R + 1 <= multiplierXWidth
    ensures var c := Step(L, R, multiplierXWidth);
      var termWidth := L - R + 1;
      c.Split? ==>
        && Width(c.low) == BasisBits(termWidth) && c.low.r == R
        && c.high.l == L && c.high.r == c.low.l + 1 && Width(c.high) == termWidth - BasisBits(termWidth)
        && Width(c.high) <= Width(c.low)
        && c.center == Range(BasisBits(termWidth), 0) && Width(c.center) == BasisBits(termWidth) + 1
        && (multiplierXWidth >= 3 ==> 1 <= Width(c.high) && Width(c.center) < termWidth)
  {
  }

  /** The product the generated architecture computes, with x and y the values of X(L downto R)
      and Y(L downto R): t2 * 2^(2 basisBits) + (t1 - t0 - t2) * 2^basisBits + t0 with
      t0 = x0*y0, t1 = (x0+x1)*(y0+y1) and t2 = x1*y1, each by the same construction. */
  function Product(x: nat, y: nat, L: int, R: int, multiplierXWidth: int): int
    requires L - R + 1 >= 1 && multiplierXWidth >= 3
    decreases L - R
  {
    SplitShape(L, R, multiplierXWidth);
    match Step(L, R, multiplierXWidth)
    case Leaf => x * y
    case Split(c, lo, hi) =>
      var p := Pow2(Width(lo));
      var x0, x1 := LowPart(x, p), HighPart(x, p);
      var y0, y1 := LowPart(y, p), HighPart(y, p);
      var t1 := Product(x0 + x1, y0 + y1, c.l, c.r, multiplierXWidth);
      var t0 := Product(x0, y0, lo.l, lo.r, multiplierXWidth);
      var t2 := Product(x1, y1, hi.l, hi.r, multiplierXWidth);
      Combine(t0, t1, t2, p, Pow2(2 * Width(lo)))
  }

  /** The recombination of the three sub-products at weights pp = p^2, p and 1. */
  function Combine(t0: int, t1: int, t2: int, p: int, pp: int): int
  {
    t2 * pp + (t1 - t0 - t2) * p + t0
  }

  /** The construction multiplies: for terms of L - R + 1 bits it computes X*Y. */
  lemma {:induction false} ProductCorrect(x: nat, y: nat, L: int, R: int, multiplierXWidth: int)
    requires L - R + 1 >= 1 && multiplierXWidth >= 3
    requires x < Pow2(L - R + 1) && y < Pow2(L - R + 1)
    ensures Product(x, y, L, R, multiplierXWidth) == x * y
    decreases L - R
  {
    SplitShape(L, R, multiplierXWidth);
    match Step(L, R, multiplierXWidth)
    case Leaf =>
    case Split(c, lo, hi) =>
      var p := Pow2(Width(lo));
      var x0, x1 := LowPart(x, p), HighPart(x, p);
      var y0, y1 := LowPart(y, p), HighPart(y, p);
      SubTermsFit(x, y, L, R, multiplierXWidth);
      ProductCorrect(x0 + x1, y0 + y1, c.l, c.r, multiplierXWidth);
      ProductCorrect(x0, y0, lo.l, lo.r, multiplierXWidth);
      ProductCorrect(x1, y1, hi.l, hi.r, multiplierXWidth);
      SplitCorrect(x, y, L, R, multiplierXWidth);
  }

  /** One level of ProductCorrect: correct sub-products give a correct product. */
  lemma SplitCorrect(x: nat, y: nat, L: int, R: int, multiplierXWidth: int)
    requires L - R + 1 >= 1 && multiplierXWidth >= 3 && Step(L, R, multiplierXWidth).Split?
    requires x < Pow2(L - R + 1) && y < Pow2(L - R + 1)
    requires var Split(c, lo, hi) := Step(L, R, multiplierXWidth);
      var p := Pow2(Width(lo));
      var x0, x1 := LowPart(x, p), HighPart(x, p);
      var y0, y1 := LowPart(y, p), HighPart(y, p);
      && Product(x0 + x1, y0 + y1, c.l, c.r, multiplierXWidth) == (x0 + x1) * (y0 + y1)
      && Product(x0, y0, lo.l, lo.r, multiplierXWidth) == x0 * y0
      && Product(x1, y1, hi.l, hi.r, multiplierXWidth) == x1 * y1
    ensures Product(x, y, L, R, multiplierXWidth) == x * y
  {
    var Split(c, lo, hi) := Step(L, R, multiplierXWidth);
    var p := Pow2(Width(lo));
    var x0, x1 := LowPart(x, p), HighPart(x, p);
    var y0, y1 := LowPart(y, p), HighPart(y, p);
    SubTermsFit(x, y, L, R, multiplierXWidth);
    ProductSplit(x, y, L, R, multiplierXWidth);
    Recombine(x, y, x0, x1, y0, y1, p, Pow2(2 * Width(lo)),
      Product(x0, y0, lo.l, lo.r, multiplierXWidth),
      Product(x0 + x1, y0 + y1, c.l, c.r, multiplierXWidth),
      Product(x1, y1, hi.l, hi.r, multiplierXWidth));
  }

  /** The terms of the three sub-products fit their ranges, and the high weight is the square
      of the low one. */
  lemma SubTermsFit(x: nat, y: nat, L: int, R: int, multiplierXWidth: int)
    requires L - R + 1 >= 1 && multiplierXWidth >= 3 && Step(L, R, multiplierXWidth).Split?
    requires x < Pow2(L - R + 1) && y < Pow2(L - R + 1)
    ensures var Split(c, lo, hi) := Step(L, R, multiplierXWidth);
      var p := Pow2(Width(lo));
      && 1 <= Width(c) && 1 <= Width(lo) && 1 <= Width(hi)
      && LowPart(x, p) + HighPart(x, p) < Pow2(Width(c)) && LowPart(y, p) + HighPart(y, p) < Pow2(Width(c))
      && LowPart(x, p) < Pow2(Width(lo)) && LowPart(y, p) < Pow2(Width(lo))
      && HighPart(x, p) < Pow2(Width(hi)) && HighPart(y, p) < Pow2(Width(hi))
      && Pow2(2 * Width(lo)) == p * p
  {
    SplitShape(L, R, multiplierXWidth);
    var b := Width(Step(L, R, multiplierXWidth).low);
    HalvesFit(x, b, L - R + 1);
    HalvesFit(y, b, L - R + 1);
    Pow2Add(b, b);
    assert 2 * b == b + b;
  }

  /** One level of the construction: the product of the terms is recombined from the three
      sub-products. */
  lemma ProductSplit(x: nat, y: nat, L: int, R: int, multiplierXWidth: int)
    requires L - R + 1 >= 1 && multiplierXWidth >= 3 && Step(L, R, multiplierXWidth).Split?
    ensures var Split(c, lo, hi) := Step(L, R, multiplierXWidth);
      var p := Pow2(Width(lo));
      var x0, x1 := LowPart(x, p), HighPart(x, p);
      var y0, y1 := LowPart(y, p), HighPart(y, p);
      var t1 := Product(x0 + x1, y0 + y1, c.l, c.r, multiplierXWidth);
      var t0 := Product(x0, y0, lo.l, lo.r, multiplierXWidth);
      var t2 := Product(x1, y1, hi.l, hi.r, multiplierXWidth);
      Product(x, y, L, R, multiplierXWidth) == Combine(t0, t1, t2, p, Pow2(2 * Width(lo)))
  {
  }

  /** The three sub-products, each correct, recombine to X*Y. */
  lemma Recombine(x: int, y: int, x0: int, x1: int, y0: int, y1: int, p: int, pp: int, t0: int, t1: int, t2: int)
    requires pp == p * p && x == x1 * p + x0 && y == y1 * p + y0
    requires t0 == x0 * y0 && t1 == (x0 + x1) * (y0 + y1) && t2 == x1 * y1
    ensures Combine(t0, t1, t2, p, pp) == x * y
  {
    KaratsubaIdentity(x0, x1, y0, y1, p, pp);
  }

  /** The halves of a w-bit term cut at b >= w - b: the low one below 2^b, the high one below
      2^(w-b), their sum below 2^(b+1). */
  lemma HalvesFit(x: nat, b: nat, w: nat)
    requires x < Pow2(w) && b <= w <= 2 * b
    ensures HighPart(x, Pow2(b)) < Pow2(w - b)
    ensures LowPart(x, Pow2(b)) + HighPart(x, Pow2(b)) < Pow2(b + 1)
  {
    var p := Pow2(b);
    Pow2Add(b, w - b);
    var h := HighPart(x, p);
    if h >= Pow2(w - b) {
      MulLeMono(Pow2(w - b), h, p);
    }
    Pow2Monotone(w - b, b);
  }

  /** Three products make the four: (x1 P + x0)(y1 P + y0). */
  lemma KaratsubaIdentity(x0: int, x1: int, y0: int, y1: int, p: int, pp: int)
    requires pp == p * p
    ensures x1 * y1 * pp + ((x0 + x1) * (y0 + y1) - x0 * y0 - x1 * y1) * p + x0 * y0 == (x1 * p + x0) * (y1 * p + y0)
  {
    assert (x0 + x1) * (y0 + y1) - x0 * y0 - x1 * y1 == x0 * y1 + x1 * y0;
  }
}
