/** The bit-heap squarer (src/IntSquarerBitheap.cpp, the compressed architecture): X is cut into
    17-bit slices, each slice is squared and each pair of slices multiplied, and the bits of these
    sub-products go into a bit heap at the weights that make the heap's sum X*X. */
module IntSquarer {
  import opened Bits

  /** The width of a slice, a DSP block's input on the Xilinx targets. */
  const SliceSize := 17

  /** A bit of the heap: its weight (column) and its value. */
  datatype HeapBit = HeapBit(weight: nat, value: nat)

  /** The number the heap's bits add up to. */
  function HeapValue(heap: seq<HeapBit>): nat
  {
    if heap == [] then 0 else HeapValue(heap[..|heap| - 1]) + heap[|heap| - 1].value * Pow2(heap[|heap| - 1].weight)
  }

  /** nbSlices = wIn/17 + 1, one less when 17 divides wIn. */
  function NbSlices(wIn: nat): (n: nat)
    ensures wIn >= 1 ==> n >= 1 && SliceSize * (n - 1) < wIn <= SliceSize * n
    ensures wIn == 0 ==> n == 0
  {
    var n := wIn / SliceSize + 1;
    if wIn % SliceSize == 0 then n - 1 else n
  }

  /** emulate: the square of X. */
  function Emulate(x: nat): nat
  {
    x * x
  }

  // ---------------------------------------------------------------- the square of a sum

  /** t[0] + ... + t[n-1]. */
  function Total(t: seq<int>, n: nat): int
    requires n <= |t|
  {
    if n == 0 then 0 else Total(t, n - 1) + t[n - 1]
  }

  /** t[0]^2 + ... + t[n-1]^2: the squares of the slices. */
  function Squares(t: seq<int>, n: nat): int
    requires n <= |t|
  {
    if n == 0 then 0 else Squares(t, n - 1) + t[n - 1] * t[n - 1]
  }

  /** The doubled products of slice i with slices i+1 to m-1: one row of the cross products. */
  function Row(t: seq<int>, i: nat, m: nat): int
    requires i < |t| && m <= |t|
  {
    if m <= i + 1 then 0 else Row(t, i, m - 1) + 2 * t[i] * t[m - 1]
  }

  /** The rows 0 to k-1, each up to slice m-1. */
  function Cross(t: seq<int>, k: nat, m: nat): int
    requires k <= |t| && m <= |t|
  {
    if k == 0 then 0 else Cross(t, k - 1, m) + Row(t, k - 1, m)
  }

  /** Extending every row below k by slice n adds slice n times twice the total below k. */
  lemma {:induction false} CrossColumn(t: seq<int>, k: nat, n: nat)
    requires k <= n < |t|
    ensures Cross(t, k, n + 1) == Cross(t, k, n) + 2 * t[n] * Total(t, k)
  {
    if k > 0 {
      CrossColumn(t, k - 1, n);
      assert Row(t, k - 1, n + 1) == Row(t, k - 1, n) + 2 * t[k - 1] * t[n];
      assert 2 * t[n] * Total(t, k - 1) + 2 * t[k - 1] * t[n] == 2 * t[n] * Total(t, k);
    }
  }

  /** The square of a sum is the sum of the squares plus every doubled cross product. */
  lemma {:induction false} SquareOfTotal(t: seq<int>, n: nat)
    requires n <= |t|
    ensures Total(t, n) * Total(t, n) == Squares(t, n) + Cross(t, n, n)
  {
    if n > 0 {
      SquareOfTotal(t, n - 1);
      CrossColumn(t, n - 1, n - 1);
      var a, b := Total(t, n - 1), t[n - 1];
      assert (a + b) * (a + b) == a * a + 2 * b * a + b * b;
    }
  }

  // ---------------------------------------------------------------- weights

  /** Slice i of X at its weight, 2^(17 i). */
  function Term(x: nat, i: nat): nat
  {
    Chunk(x, i, SliceSize) * Pow2(SliceSize * i)
  }

  function Terms(x: nat, n: nat): (t: seq<int>)
    ensures |t| == n
  {
    seq(n, i requires 0 <= i < n => Term(x, i))
  }

  /** The slices at their weights add up to X once X has at most 17 n bits. */
  lemma {:induction false} TermsTotal(x: nat, n: nat, m: nat)
    requires n <= m
    ensures Total(Terms(x, m), n) == ChunksValue(x, n, SliceSize)
  {
    if n > 0 {
      TermsTotal(x, n - 1, m);
    }
  }

  /** The square of slice i at weight 34 i is the square of its term. */
  lemma SquareWeight(x: nat, i: nat)
    ensures Chunk(x, i, SliceSize) * Chunk(x, i, SliceSize) * Pow2(2 * SliceSize * i) == Term(x, i) * Term(x, i)
  {
    Pow2Add(SliceSize * i, SliceSize * i);
    WeightProduct(Chunk(x, i, SliceSize), Chunk(x, i, SliceSize), Pow2(SliceSize * i), Pow2(SliceSize * i), 1, Pow2(2 * SliceSize * i));
  }

  /** The product of slices i and j at weight 17(i+j) + 1 is their doubled cross product. */
  lemma CrossWeight(x: nat, i: nat, j: nat)
    ensures Chunk(x, i, SliceSize) * Chunk(x, j, SliceSize) * Pow2(SliceSize * (i + j) + 1) == 2 * Term(x, i) * Term(x, j)
  {
    Pow2Add(SliceSize * i, SliceSize * j);
    Pow2Add(SliceSize * (i + j), 1);
    assert Pow2(1) == 2;
    WeightProduct(Chunk(x, i, SliceSize), Chunk(x, j, SliceSize), Pow2(SliceSize * i), Pow2(SliceSize * j), 2, Pow2(SliceSize * (i + j) + 1));
  }

  lemma WeightProduct(a: int, b: int, p: int, q: int, c: int, w: int)
    requires w == p * q * c
    ensures a * b * w == c * (a * p) * (b * q)
  {
  }

  // ---------------------------------------------------------------- the heap

  /** The loop adding the 2*17 low bits of a sub-product v at weights offset to offset + 33. */
  method AddProduct(heap: seq<HeapBit>, v: nat, offset: nat) returns (h: seq<HeapBit>)
    requires v < Pow2(2 * SliceSize)
    ensures HeapValue(h) == HeapValue(heap) + v * Pow2(offset)
    ensures |h| == |heap| + 2 * SliceSize && h[..|heap|] == heap
    ensures forall b :: b in h[|heap|..] ==> offset <= b.weight < offset + 2 * SliceSize
  {
    h := heap;
    for j := 0 to 2 * SliceSize
      invariant Added(heap, h, v, offset, j)
    {
      var bit := HeapBit(j + offset, Bit(v, j));
      AddStep(heap, h, v, offset, j);
      h := h + [bit];
    }
    ModUnique(v, Pow2(2 * SliceSize), 0, v);
  }

  /** h is heap with the low j bits of v added at weights offset to offset + j - 1. */
  predicate Added(heap: seq<HeapBit>, h: seq<HeapBit>, v: nat, offset: nat, j: nat)
  {
    && HeapValue(h) == HeapValue(heap) + (v % Pow2(j)) * Pow2(offset)
    && |h| == |heap| + j && h[..|heap|] == heap
    && forall b :: b in h[|heap|..] ==> offset <= b.weight < offset + j
  }

  /** One turn of the loop of AddProduct adds bit j of v at weight offset + j. */
  lemma AddStep(heap: seq<HeapBit>, h: seq<HeapBit>, v: nat, offset: nat, j: nat)
    requires Added(heap, h, v, offset, j)
    ensures Added(heap, h + [HeapBit(j + offset, Bit(v, j))], v, offset, j + 1)
  {
    var bit := HeapBit(j + offset, Bit(v, j));
    LowBitsStep(v, j);
    Pow2Add(j, offset);
    BitWeight(v % Pow2(j), Bit(v, j), Pow2(j), Pow2(offset));
    assert (h + [bit])[..|h|] == h;
    assert (h + [bit])[..|heap|] == heap;
    assert (h + [bit])[|heap|..] == h[|heap|..] + [bit];
  }

  lemma BitWeight(low: int, b: int, p: int, q: int)
    ensures (low + b * p) * q == low * q + b * (p * q)
  {
  }

  /** The constructor's compressed architecture: the slices, then the bits of the squares and of
      the cross products in the order the source adds them. The source's heap has 2*wIn columns
      and addBit drops a bit of weight 2*wIn or more; the model keeps those bits. They are all
      zero, each weighted sub-product being at most X*X < 2^(2*wIn), and R is taken modulo
      2^(2*wIn) anyway. The heap's sum is X*X and R, its low 2*wIn bits, is what emulate
      expects. */
  method Squarer(x: nat, wIn: nat) returns (nbSlices: nat, slices: seq<nat>, heap: seq<HeapBit>, r: nat)
    requires x < Pow2(wIn)
    ensures nbSlices == NbSlices(wIn) && |slices| == nbSlices
    ensures forall i :: 0 <= i < nbSlices ==> slices[i] == Chunk(x, i, SliceSize)
    ensures HeapValue(heap) == x * x
    ensures r == Emulate(x)
  {
    nbSlices := wIn / SliceSize + 1;
    if wIn % SliceSize == 0 {
      nbSlices := nbSlices - 1;
    }
    // the input is padded to 17 nbSlices bits, which leaves its value as it is
    slices := [];
    for i := 0 to nbSlices
      invariant |slices| == i
      invariant forall k :: 0 <= k < i ==> slices[k] == Chunk(x, k, SliceSize)
    {
      slices := slices + [Chunk(x, i, SliceSize)];
    }
    ghost var t := Terms(x, nbSlices);
    SliceWeights(x, slices, t);
    heap := AddSquares(t, slices);
    heap := AddCrossProducts(t, slices, heap);
    HeapIsSquare(x, wIn, nbSlices);
    r := HeapValue(heap) % Pow2(2 * wIn);
    SquareFits(x, wIn);
  }

  /** Slice i is below 2^17, its square at weight 34 i is t[i]^2 and its product with slice j at
      weight 17(i+j) + 1 is 2 t[i] t[j]. */
  predicate Weighted(t: seq<int>, slices: seq<nat>)
  {
    && |t| == |slices|
    && (forall k :: 0 <= k < |slices| ==> slices[k] < Pow2(SliceSize))
    && (forall k :: 0 <= k < |slices| ==> slices[k] * slices[k] * Pow2(2 * k * SliceSize) == t[k] * t[k])
    && (forall k, l :: 0 <= k < l < |slices| ==> slices[k] * slices[l] * Pow2((k + l) * SliceSize + 1) == 2 * t[k] * t[l])
  }

  lemma SliceWeights(x: nat, slices: seq<nat>, t: seq<int>)
    requires t == Terms(x, |slices|)
    requires forall k :: 0 <= k < |slices| ==> slices[k] == Chunk(x, k, SliceSize)
    ensures Weighted(t, slices)
  {
    SquaresWeighted(x, slices, t);
    CrossWeighted(x, slices, t);
  }

  lemma SquaresWeighted(x: nat, slices: seq<nat>, t: seq<int>)
    requires t == Terms(x, |slices|)
    requires forall k :: 0 <= k < |slices| ==> slices[k] == Chunk(x, k, SliceSize)
    ensures forall k :: 0 <= k < |slices| ==> slices[k] * slices[k] * Pow2(2 * k * SliceSize) == t[k] * t[k]
  {
    forall k | 0 <= k < |slices|
      ensures slices[k] * slices[k] * Pow2(2 * k * SliceSize) == t[k] * t[k]
    {
      SquareStep(x, t, k, slices[k] * slices[k], 2 * k * SliceSize);
    }
  }

  lemma CrossWeighted(x: nat, slices: seq<nat>, t: seq<int>)
    requires t == Terms(x, |slices|)
    requires forall k :: 0 <= k < |slices| ==> slices[k] == Chunk(x, k, SliceSize)
    ensures forall k, l :: 0 <= k < l < |slices| ==> slices[k] * slices[l] * Pow2((k + l) * SliceSize + 1) == 2 * t[k] * t[l]
  {
    forall k, l | 0 <= k < l < |slices|
      ensures slices[k] * slices[l] * Pow2((k + l) * SliceSize + 1) == 2 * t[k] * t[l]
    {
      RowStep(x, t, k, l, slices[k], slices[l]);
    }
  }

  /** The squares, slice i at weight 34 i. */
  method AddSquares(ghost t: seq<int>, slices: seq<nat>) returns (heap: seq<HeapBit>)
    requires Weighted(t, slices)
    ensures HeapValue(heap) == Squares(t, |slices|)
  {
    heap := [];
    for i := 0 to |slices|
      invariant HeapValue(heap) == Squares(t, i)
    {
      var v, offset := slices[i] * slices[i], 2 * i * SliceSize;
      SliceBelow(slices[i], slices[i]);
      heap := AddProduct(heap, v, offset);
    }
  }

  /** The cross products, slices i < j at weight 17(i+j) + 1, which doubles them. */
  method AddCrossProducts(ghost t: seq<int>, slices: seq<nat>, heap0: seq<HeapBit>) returns (heap: seq<HeapBit>)
    requires Weighted(t, slices)
    ensures HeapValue(heap) == HeapValue(heap0) + Cross(t, |slices|, |slices|)
  {
    heap := heap0;
    for i := 0 to |slices|
      invariant HeapValue(heap) == HeapValue(heap0) + Cross(t, i, |slices|)
    {
      heap := AddRow(t, slices, i, heap);
    }
  }

  /** Row i of the cross products: slice i times each slice j > i. */
  method AddRow(ghost t: seq<int>, slices: seq<nat>, i: nat, heap0: seq<HeapBit>) returns (heap: seq<HeapBit>)
    requires Weighted(t, slices) && i < |slices|
    ensures HeapValue(heap) == HeapValue(heap0) + Row(t, i, |slices|)
  {
    heap := heap0;
    for j := i + 1 to |slices|
      invariant HeapValue(heap) == HeapValue(heap0) + Row(t, i, j)
    {
      var v, offset := slices[i] * slices[j], (i + j) * SliceSize + 1;
      SliceBelow(slices[i], slices[j]);
      heap := AddProduct(heap, v, offset);
    }
  }

  /** Square i at weight 34 i is the square of term i. */
  lemma SquareStep(x: nat, t: seq<int>, i: nat, v: nat, offset: nat)
    requires t == Terms(x, |t|) && i < |t|
    requires v == Chunk(x, i, SliceSize) * Chunk(x, i, SliceSize) && offset == 2 * i * SliceSize
    ensures v * Pow2(offset) == t[i] * t[i]
  {
    SquareWeight(x, i);
    assert offset == 2 * SliceSize * i;
  }

  /** The product of slices i and j at weight 17(i+j) + 1 is twice the product of their terms. */
  lemma RowStep(x: nat, t: seq<int>, i: nat, j: nat, a: nat, b: nat)
    requires t == Terms(x, |t|) && i < j < |t|
    requires a == Chunk(x, i, SliceSize) && b == Chunk(x, j, SliceSize)
    ensures a * b * Pow2((i + j) * SliceSize + 1) == 2 * t[i] * t[j]
  {
    CrossWeight(x, i, j);
    assert (i + j) * SliceSize + 1 == SliceSize * (i + j) + 1;
  }

  /** What the heap adds up to is X*X. */
  lemma HeapIsSquare(x: nat, wIn: nat, n: nat)
    requires x < Pow2(wIn) && n == NbSlices(wIn)
    ensures Squares(Terms(x, n), n) + Cross(Terms(x, n), n, n) == x * x
  {
    SquareOfTotal(Terms(x, n), n);
    TermsTotal(x, n, n);
    ChunksLowBits(x, n, SliceSize);
    PaddingKeepsValue(x, wIn, n);
  }

  lemma SliceBelow(a: nat, b: nat)
    requires a < Pow2(SliceSize) && b < Pow2(SliceSize)
    ensures a * b < Pow2(2 * SliceSize)
  {
    MulStrict(a, b, Pow2(SliceSize), Pow2(SliceSize));
    Pow2Add(SliceSize, SliceSize);
  }

  /** X fits in its 17 nbSlices padded bits. */
  lemma PaddingKeepsValue(x: nat, wIn: nat, n: nat)
    requires x < Pow2(wIn) && n == NbSlices(wIn)
    ensures LowPart(x, Pow2(SliceSize * n)) == x
  {
    Pow2Monotone(wIn, SliceSize * n);
    ModUnique(x, Pow2(SliceSize * n), 0, x);
  }

  /** The square of a wIn-bit number has at most 2 wIn bits. */
  lemma SquareFits(x: nat, wIn: nat)
    requires x < Pow2(wIn)
    ensures (x * x) % Pow2(2 * wIn) == x * x
  {
    Pow2Add(wIn, wIn);
    assert 2 * wIn == wIn + wIn;
    ProductFits(x, Pow2(wIn), Pow2(2 * wIn));
  }

  lemma ProductFits(a: nat, p: nat, m: nat)
    requires a < p && m == p * p
    ensures (a * a) % m == a * a
  {
    MulStrict(a, a, p, p);
    ModUnique(a * a, m, 0, a * a);
  }
}
