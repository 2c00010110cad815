/** The pipelined integer adder (src/IntAdder.cpp): how a wIn-bit addition is cut into k chunks
    of alpha bits with a last chunk of beta bits, the chunk size and index arrays the constructor
    fills, the choice among the classical, alternative and short-latency architectures, the LUT
    cost of the classical one, and the reference behaviour emulate checks against. */
module IntAdder {
  import opened Bits
  import opened Results

  /** The chunking: chunks of alpha bits, beta bits in the last one, k chunks in all. */
  datatype Params = Params(alpha: int, beta: int, k: int)

  /** updateParameters without input slack; alpha is the sub-adder size the target suggests. */
  function UpdateParameters(wIn: nat, alpha: nat): (r: Params)
    requires alpha >= 1
    ensures r.alpha == alpha
    ensures wIn == alpha ==> r.k == 1 && r.beta == 0
    ensures wIn != alpha ==> 0 < r.beta <= alpha && alpha * (r.k - 1) + r.beta == wIn
    ensures r.k >= 1 <==> wIn >= 1
  {
    if wIn == alpha then Params(alpha, 0, 1)
    else
      var q, m := wIn / alpha, wIn % alpha;
      ChunkArithmetic(wIn, alpha, q, m);
      var beta := if m == 0 then alpha else m;
      var k := if m == 0 then q else q + 1;
      Params(alpha, beta, k)
  }

  lemma ChunkArithmetic(wIn: nat, alpha: nat, q: int, m: int)
    requires alpha >= 1 && q == wIn / alpha && m == wIn % alpha
    ensures m == 0 ==> alpha * (q - 1) + alpha == wIn
    ensures wIn == alpha * q + m
  {
  }

  // ---------------------------------------------------------------- chunk arrays

  /** The chunk sizes the constructor stores in cSize, least significant chunk first: the first
      chunk (of gamma bits in the slack design, alpha otherwise), alpha bits for the middle ones,
      beta for the last; a single chunk of wIn bits when k <= 1. */
  function ChunkSizes(wIn: nat, k: int, first: int, alpha: int, beta: int): (s: seq<int>)
    ensures |s| == if k > 1 then k else 1
  {
    if k > 1 then [first] + seq(k - 2, _ => alpha) + [beta] else [wIn]
  }

  /** The chunks of the no-slack design add up to the input width. */
  lemma ChunksCover(wIn: nat, alpha: nat)
    requires alpha >= 1 && wIn >= 1
    ensures var p := UpdateParameters(wIn, alpha);
      Sum(ChunkSizes(wIn, p.k, alpha, alpha, p.beta)) == wIn
  {
    var p := UpdateParameters(wIn, alpha);
    if p.k > 1 {
      SumOfChunks(alpha, alpha, p.beta, p.k - 2);
      MulIsProduct(p.k - 2, alpha);
      assert alpha + alpha * (p.k - 2) == alpha * (p.k - 1);
    } else {
      assert [wIn][..0] == [];
    }
  }

  /** The sum of a first chunk, n middle chunks and a last chunk. */
  lemma {:induction false} SumOfChunks(first: int, alpha: int, beta: int, n: nat)
    ensures Sum([first] + seq(n, _ => alpha) + [beta]) == first + Mul(n, alpha) + beta
  {
    SumOfMiddle(first, alpha, n);
    var s := [first] + seq(n, _ => alpha);
    assert (s + [beta])[..|s|] == s;
  }

  lemma {:induction false} SumOfMiddle(first: int, alpha: int, n: nat)
    ensures Sum([first] + seq(n, _ => alpha)) == first + Mul(n, alpha)
  {
    var s := [first] + seq(n, _ => alpha);
    if n == 0 {
      assert s[..0] == [];
    } else {
      SumOfMiddle(first, alpha, n - 1);
      assert s[..|s| - 1] == [first] + seq(n - 1, _ => alpha);
    }
  }

  /** Mul(k, m), k copies of m added together, is k * m. */
  lemma {:induction false} MulIsProduct(k: nat, m: int)
    ensures Mul(k, m) == m * k
  {
    if k > 0 {
      MulIsProduct(k - 1, m);
    }
  }

  /** The constructor's chunk arrays: cSize from ChunkSizes (k + 1 entries when k > 1, the last
      one unused) and cIndex[i], the index just above chunk i, as the running sum of the sizes. */
  method Chunks(wIn: nat, k0: int, first: int, alpha: int, beta: int) returns (k: nat, cSize: array<int>, cIndex: array<int>)
    ensures k == if k0 > 1 then k0 else 1
    ensures cSize.Length == (if k0 > 1 then k0 + 1 else 1) && cIndex.Length == k
    ensures cSize[..k] == ChunkSizes(wIn, k0, first, alpha, beta)
    ensures forall i :: 0 <= i < k ==> cIndex[i] == Sum(cSize[..i + 1])
  {
    if k0 > 1 {
      k := k0;
      cSize := new int[k + 1];
      cSize[0] := first;
      for i := 1 to k - 1
        invariant cSize[0] == first
        invariant forall j :: 1 <= j < i ==> cSize[j] == alpha
      {
        cSize[i] := alpha;
      }
      cSize[k - 1] := beta;
      assert cSize[..k] == ChunkSizes(wIn, k0, first, alpha, beta);
    } else {
      k := 1;
      cSize := new int[1];
      cSize[0] := wIn;
      assert cSize[..k] == [wIn];
    }
    cIndex := RunningSums(cSize, k);
  }

  /** The second loop of the chunking: cIndex[i], the index just above chunk i, is the sum of the
      sizes of chunks 0 to i. */
  method RunningSums(cSize: array<int>, k: nat) returns (cIndex: array<int>)
    requires 1 <= k <= cSize.Length
    ensures fresh(cIndex) && cIndex.Length == k
    ensures forall i :: 0 <= i < k ==> cIndex[i] == Sum(cSize[..i + 1])
  {
    cIndex := new int[k];
    cIndex[0] := cSize[0];
    assert cSize[..1] == [cSize[0]];
    for i := 1 to k
      invariant forall j :: 0 <= j < i ==> cIndex[j] == Sum(cSize[..j + 1])
    {
      cIndex[i] := cIndex[i - 1] + cSize[i];
      SumPrefix(cSize[..], i);
      assert cSize[..][..i + 1] == cSize[..i + 1] && cSize[..][..i] == cSize[..i];
    }
  }

  // ---------------------------------------------------------------- emulate

  /** emulate: X + Y + Cin with bit wIn cleared, so that no carry comes out. */
  function Emulate(x: nat, y: nat, cin: nat, wIn: nat): (r: nat)
    ensures x < Pow2(wIn) && y < Pow2(wIn) && cin <= 1 ==> r == (x + y + cin) % Pow2(wIn)
  {
    var s := x + y + cin;
    if x < Pow2(wIn) && y < Pow2(wIn) && cin <= 1 then
      SumWraps(s, wIn);
      ClearBit(s, wIn)
    else
      ClearBit(s, wIn)
  }

  /** A sum below 2^(wIn+1) loses exactly its carry when bit wIn is cleared. */
  lemma SumWraps(s: nat, wIn: nat)
    requires s < 2 * Pow2(wIn)
    ensures ClearBit(s, wIn) == s % Pow2(wIn)
  {
    var p := Pow2(wIn);
    if s >= p {
      ModUnique(s, p, 1, s - p);
      ModUnique(1, 2, 0, 1);
    } else {
      ModUnique(s, p, 0, s);
      ModUnique(0, 2, 0, 0);
    }
  }

  // ---------------------------------------------------------------- selection

  /** The optimisation objective passed to the constructor. */
  datatype OptimizeType = Logic | Register | Slice | Latency | Unknown

  /** The costs of the three architectures for one objective. */
  datatype Costs = Costs(classical: int, alternative: int, shortLatency: int)

  function CostOf(c: Costs, i: nat): int
  {
    if i == 0 then c.classical else if i == 1 then c.alternative else c.shortLatency
  }

  function Min(a: int, b: int): int
  {
    if a <= b then a else b
  }

  /** The index of the cheapest architecture: 0 classical, 1 alternative, 2 short-latency, the
      earlier one winning a tie. The source's "Error in cost evaluation" branch would need a
      minimum equal to none of the three costs and is left out. */
  function Best(c: Costs): (r: nat)
    ensures r <= 2
    ensures CostOf(c, r) <= c.classical && CostOf(c, r) <= c.alternative && CostOf(c, r) <= c.shortLatency
    ensures r >= 1 ==> c.classical > CostOf(c, r)
    ensures r == 2 ==> c.alternative > c.shortLatency
  {
    var best := Min(Min(c.classical, c.alternative), c.shortLatency);
    if best == c.classical then 0 else if best == c.alternative then 1 else 2
  }

  /** implementationSelector: on the Xilinx targets the cheapest architecture for the objective,
      short-latency for the latency objective; any other target or objective ends the program. */
  function ImplementationSelector(xilinx: bool, opt: OptimizeType, lut: Costs, reg: Costs, slice: Costs): (r: Result<nat>)
    ensures r.Ok? <==> xilinx && opt != Unknown
    ensures r.Ok? ==> r.value <= 2
    ensures xilinx && opt == Latency ==> r == Ok(2)
  {
    if !xilinx then Err("IntAdder: no implementation for this target")
    else match opt
      case Logic => Ok(Best(lut))
      case Register => Ok(Best(reg))
      case Slice => Ok(Best(slice))
      case Latency => Ok(2)
      case Unknown => Err("IntAdder: optimization parameter must be 0, 1 or 2")
  }

  /** The selection is never worse than the classical architecture for the objective. */
  lemma SelectionNoWorse(opt: OptimizeType, lut: Costs, reg: Costs, slice: Costs)
    requires opt == Logic || opt == Register || opt == Slice
    ensures var c := if opt == Logic then lut else if opt == Register then reg else slice;
      var r := ImplementationSelector(true, opt, lut, reg, slice);
      r.Ok? && CostOf(c, r.value) <= c.classical && (r.value != 0 ==> CostOf(c, r.value) < c.classical)
  {
  }

  // ---------------------------------------------------------------- cost

  /** getLutCostClassical without input slack: wIn for one chunk, alpha + beta for two and
      (4k - 9) alpha + 3 beta for more. */
  function LutCostClassical(wIn: nat, alpha: nat): (r: int)
    requires alpha >= 1
  {
    var p := UpdateParameters(wIn, alpha);
    if p.k == 1 then wIn
    else if p.k == 2 then alpha + p.beta
    else (4 * p.k - 9) * alpha + 3 * p.beta
  }

  /** Up to two chunks the cost is one LUT per bit; beyond, it is 4 wIn - 5 alpha - beta, still at
      least one LUT per bit. */
  lemma LutCostClosedForm(wIn: nat, alpha: nat)
    requires alpha >= 1 && wIn >= 1
    ensures var p := UpdateParameters(wIn, alpha);
      && (p.k <= 2 ==> LutCostClassical(wIn, alpha) == wIn)
      && (p.k >= 3 ==> LutCostClassical(wIn, alpha) == 4 * wIn - 5 * alpha - p.beta)
      && LutCostClassical(wIn, alpha) >= wIn
  {
    var p := UpdateParameters(wIn, alpha);
    if p.k >= 3 {
      CostIdentity(p.k, alpha, p.beta, wIn);
    }
  }

  lemma CostIdentity(k: int, alpha: int, beta: int, wIn: int)
    requires k >= 3 && alpha >= 1 && beta >= 0 && alpha * (k - 1) + beta == wIn
    ensures (4 * k - 9) * alpha + 3 * beta == 4 * wIn - 5 * alpha - beta
    ensures (4 * k - 9) * alpha + 3 * beta >= wIn
  {
    assert (4 * k - 9) * alpha == 4 * (alpha * (k - 1)) - 5 * alpha;
    MulLeMono(k - 1, 4 * k - 9, alpha);
  }
}
