/** The integer helpers of the truncated tiling multiplier of src/IntTruncMultiplier.cpp. Its
    board is mirrored with respect to the one of module Tiling: convertCoordinates reflects the
    corners through (vnme, vmme). It marks blocks with the same fillMatrix (Tiling.FillMatrix),
    checks positions against the grid, the squarer diagonal and the truncation line, sorts
    blocks by descending corner, bounds a block's product, and counts the DSPs left after the
    Stratix binding. */
module TruncTiling {
  import opened Bits
  import opened Results
  import opened Tiling

  // ---------------------------------------------------------------- isValidPosition

  /** isValidPosition: inside the grid (vnme - extraW columns, vmme - extraH rows), not above the
      diagonal for a squarer, and not past the truncation line when there is one. */
  function IsValidPosition(x: int, y: int, vnme: int, vmme: int, extraW: int, extraH: int, isSquarer: bool, truncationOffset: int): bool
  {
    if x >= vnme - extraW || y >= vmme - extraH || x < 0 || y < 0 then false
    else if isSquarer && x > y then false
    else if truncationOffset > 0 && x - truncationOffset > y then false
    else true
  }

  /** The valid positions form a staircase: moving down (larger y, still in the grid) or to the
      right (smaller x, still non-negative) keeps a position valid, and without squarer or
      truncation every grid position is valid. */
  lemma ValidPositionStaircase(x: int, y: int, x': int, y': int, vnme: int, vmme: int, extraW: int, extraH: int, isSquarer: bool, t: int)
    ensures IsValidPosition(x, y, vnme, vmme, extraW, extraH, isSquarer, t) && 0 <= x' <= x && y <= y' < vmme - extraH
      ==> IsValidPosition(x', y', vnme, vmme, extraW, extraH, isSquarer, t)
    ensures IsValidPosition(x, y, vnme, vmme, extraW, extraH, isSquarer, t) ==> 0 <= x < vnme - extraW && 0 <= y < vmme - extraH
    ensures !isSquarer && t <= 0 ==>
      (IsValidPosition(x, y, vnme, vmme, extraW, extraH, isSquarer, t) <==> 0 <= x < vnme - extraW && 0 <= y < vmme - extraH)
    ensures IsValidPosition(x, y, vnme, vmme, extraW, extraH, isSquarer, t) ==> (isSquarer ==> x <= y) && (t > 0 ==> x <= y + t)
  {
  }

  // ---------------------------------------------------------------- convertCoordinates

  /** convertCoordinatesKeepNeg: each corner reflected through (vnme, vmme); the reflected
      top-right corner comes from the bottom-left one and the other way round. */
  function MirrorKeepNeg(c: Block, vnme: int, vmme: int): (r: Block)
    ensures WellFormed(c) ==> WellFormed(r)
    ensures r.xbl - r.xtr == c.xbl - c.xtr && r.ybl - r.ytr == c.ybl - c.ytr
  {
    Block(vnme - c.xbl - 1, vmme - c.ybl - 1, vnme - c.xtr - 1, vmme - c.ytr - 1)
  }

  /** Reflecting twice gives the block back. */
  lemma MirrorInvolution(c: Block, vnme: int, vmme: int)
    ensures MirrorKeepNeg(MirrorKeepNeg(c, vnme, vmme), vnme, vmme) == c
  {
  }

  /** convertCoordinates: the same reflection, then the bottom-left corner clamped from above to
      (wInX-1, wInY-1) and the top-right corner clamped from below to (0, 0). */
  function Mirror(c: Block, vnme: int, vmme: int, wInX: int, wInY: int): (r: Block)
    ensures var k := MirrorKeepNeg(c, vnme, vmme);
      && r.xbl == (if k.xbl >= wInX then wInX - 1 else k.xbl)
      && r.ybl == (if k.ybl >= wInY then wInY - 1 else k.ybl)
      && r.xtr == (if k.xtr < 0 then 0 else k.xtr)
      && r.ytr == (if k.ytr < 0 then 0 else k.ytr)
  {
    var ax, ay := c.xbl, c.ybl;
    var bx := vnme - c.xtr - 1;
    var bx' := if bx >= wInX then wInX - 1 else bx;
    var bY := vmme - c.ytr - 1;
    var bY' := if bY >= wInY then wInY - 1 else bY;
    var tx := vnme - ax - 1;
    var tx' := if tx < 0 then 0 else tx;
    var ty := vmme - ay - 1;
    var ty' := if ty < 0 then 0 else ty;
    Block(tx', ty', bx', bY')
  }

  /** A block whose reflection lies within the inputs is not clamped, and a clamped block lies
      within [0, wInX-1] x [0, wInY-1] whenever its reflection meets that range. */
  lemma MirrorClamp(c: Block, vnme: int, vmme: int, wInX: int, wInY: int)
    ensures var k := MirrorKeepNeg(c, vnme, vmme);
      && (0 <= k.xtr && 0 <= k.ytr && k.xbl < wInX && k.ybl < wInY ==> Mirror(c, vnme, vmme, wInX, wInY) == k)
      && (WellFormed(c) && wInX > 0 && wInY > 0 && k.xbl >= 0 && k.ybl >= 0 && k.xtr < wInX && k.ytr < wInY ==>
            var r := Mirror(c, vnme, vmme, wInX, wInY);
            WellFormed(r) && 0 <= r.xtr && r.xbl <= wInX - 1 && 0 <= r.ytr && r.ybl <= wInY - 1)
  {
  }

  // ---------------------------------------------------------------- sortDSPs

  /** a may stand before b after sortDSPs: a larger top-right y, or the same y and an x at least
      as large. */
  predicate Precedes(a: Option<Block>, b: Option<Block>)
  {
    a.Some? && b.Some? && (a.value.ytr > b.value.ytr || (a.value.ytr == b.value.ytr && a.value.xtr >= b.value.xtr))
  }

  lemma PrecedesTransitive(a: Option<Block>, b: Option<Block>, c: Option<Block>)
    requires Precedes(a, b) && Precedes(b, c)
    ensures Precedes(a, c)
  {
  }

  predicate DescendingBelow(s: seq<Option<Block>>, i: int)
  {
    forall p, q :: 0 <= p < i && p < q < |s| ==> Precedes(s[p], s[q])
  }

  /** sortDSPs: the exchange sort that swaps config[i] and config[j] (i < j) when config[j] has
      the larger y, or the same y and the larger x. Every entry is dereferenced. */
  method SortDSPs(config: array<Option<Block>>)
    requires AllPlaced(config[..])
    modifies config
    ensures AllPlaced(config[..])
    ensures forall p, q :: 0 <= p < q < config.Length ==> Precedes(config[p], config[q])
    ensures multiset(config[..]) == multiset(old(config[..]))
  {
    var n := config.Length;
    var i := 0;
    while i < n - 1
      invariant 0 <= i <= if n == 0 then 0 else n - 1
      invariant AllPlaced(config[..])
      invariant DescendingBelow(config[..], i)
      invariant multiset(config[..]) == multiset(old(config[..]))
    {
      ExchangePass(config, i);
      i := i + 1;
    }
    if n > 0 {
      assert forall q :: 0 <= q < n ==> Precedes(config[q], config[q]);
    }
  }

  /** The inner loop of sortDSPs. */
  method ExchangePass(config: array<Option<Block>>, i: int)
    requires 0 <= i < config.Length && AllPlaced(config[..]) && DescendingBelow(config[..], i)
    modifies config
    ensures AllPlaced(config[..]) && DescendingBelow(config[..], i + 1)
    ensures multiset(config[..]) == multiset(old(config[..]))
  {
    var n := config.Length;
    var j := i + 1;
    while j < n
      invariant i + 1 <= j <= n
      invariant AllPlaced(config[..])
      invariant DescendingBelow(config[..], i)
      invariant FirstFrom(config[..], i, j)
      invariant multiset(config[..]) == multiset(old(config[..]))
    {
      ghost var before := config[..];
      PassStep(before, i, j);
      var iy, jy := config[i].value.ytr, config[j].value.ytr;
      var ix, jx := config[i].value.xtr, config[j].value.xtr;
      if iy < jy || (iy == jy && ix < jx) {
        config[i], config[j] := config[j], config[i];
      }
      assert config[..] == PassTurn(before, i, j);
      j := j + 1;
    }
  }

  /** Entry i precedes every entry from i + 1 to j - 1. */
  predicate FirstFrom(s: seq<Option<Block>>, i: int, j: int)
  {
    forall q :: i < q < j && q < |s| && 0 <= i ==> Precedes(s[i], s[q])
  }

  /** Whether entry j has the larger y, or the same y and the larger x, than entry i. */
  predicate Outranks(s: seq<Option<Block>>, i: int, j: int)
    requires 0 <= i < j < |s| && s[i].Some? && s[j].Some?
  {
    s[i].value.ytr < s[j].value.ytr || (s[i].value.ytr == s[j].value.ytr && s[i].value.xtr < s[j].value.xtr)
  }

  /** One turn of the inner loop: entries i and j exchanged when j outranks i. */
  function PassTurn(s: seq<Option<Block>>, i: int, j: int): seq<Option<Block>>
    requires 0 <= i < j < |s| && s[i].Some? && s[j].Some?
  {
    if Outranks(s, i, j) then s[i := s[j]][j := s[i]] else s
  }

  /** A turn keeps the blocks, their placement and the order of the first i entries, and
      extends the range i precedes by j. */
  lemma PassStep(s: seq<Option<Block>>, i: int, j: int)
    requires 0 <= i < j < |s| && AllPlaced(s) && DescendingBelow(s, i) && FirstFrom(s, i, j)
    ensures var t := PassTurn(s, i, j);
      multiset(t) == multiset(s) && AllPlaced(t) && DescendingBelow(t, i) && FirstFrom(t, i, j + 1)
  {
    if Outranks(s, i, j) {
      SwapKeepsPlaced(s, i, j);
      SwapKeepsDescending(s, i, j);
      SwapKeepsFirst(s, i, j);
    } else {
      KeepFirst(s, i, j);
    }
  }

  /** Exchanging entries i and j keeps the order of the first i entries. */
  lemma SwapKeepsDescending(s: seq<Option<Block>>, i: int, j: int)
    requires 0 <= i < j < |s| && DescendingBelow(s, i)
    ensures DescendingBelow(s[i := s[j]][j := s[i]], i)
  {
    var t := s[i := s[j]][j := s[i]];
    forall p, q | 0 <= p < i && p < q < |t|
      ensures Precedes(t[p], t[q])
    {
      if q == i {
        assert Precedes(s[p], s[j]);
      } else if q == j {
        assert Precedes(s[p], s[i]);
      }
    }
  }

  /** Bringing the outranking entry j forward to i keeps i first up to j. */
  lemma SwapKeepsFirst(s: seq<Option<Block>>, i: int, j: int)
    requires 0 <= i < j < |s| && s[i].Some? && s[j].Some? && FirstFrom(s, i, j) && Outranks(s, i, j)
    ensures FirstFrom(s[i := s[j]][j := s[i]], i, j + 1)
  {
    var t := s[i := s[j]][j := s[i]];
    forall q | i < q < j + 1
      ensures Precedes(t[i], t[q])
    {
      if q < j {
        assert t[q] == s[q];
        PrecedesTransitive(s[j], s[i], s[q]);
      }
    }
  }

  /** Without an exchange, i stays first up to j when j does not outrank it. */
  lemma KeepFirst(s: seq<Option<Block>>, i: int, j: int)
    requires 0 <= i < j < |s| && s[i].Some? && s[j].Some? && FirstFrom(s, i, j) && !Outranks(s, i, j)
    ensures FirstFrom(s, i, j + 1)
  {
  }

  // ---------------------------------------------------------------- evalMaxValue and emulate

  /** evalMaxValue(w, h) = (2^w - 1)(2^h - 1), the largest product of a w-bit and an h-bit
      unsigned number; it fits in w + h bits. */
  function EvalMaxValue(w: nat, h: nat): (r: nat)
    ensures r < Pow2(w + h)
    ensures forall x: nat, y: nat {:trigger x * y} :: x < Pow2(w) && y < Pow2(h) ==> x * y <= r
  {
    var l, m := Pow2(w) - 1, Pow2(h) - 1;
    assert forall x: nat, y: nat {:trigger x * y} :: x <= l && y <= m ==> x * y <= l * m by {
      forall x: nat, y: nat | x <= l && y <= m
        ensures x * y <= l * m
      {
        MulLeMono(x, l, y);
        MulLeMono(y, m, l);
      }
    }
    MulStrict(l, m, Pow2(w), Pow2(h));
    Pow2Add(w, h);
    l * m
  }

  /** emulate: the product shifted right by targetPrecision, then the same plus one; the exact
      product lies between the two outputs scaled back. */
  function Emulate(X: nat, Y: nat, targetPrecision: nat): (outs: seq<nat>)
    ensures |outs| == 2 && outs[1] == outs[0] + 1
    ensures outs[0] * Pow2(targetPrecision) <= X * Y < outs[1] * Pow2(targetPrecision)
  {
    var q := HighPart(X * Y, Pow2(targetPrecision));
    [q, q + 1]
  }

  // ---------------------------------------------------------------- bindDSPs4Stratix

  /** The number of non-null entries of the configuration. */
  function Placed(config: seq<Option<Block>>): (n: nat)
    ensures n <= |config|
  {
    if config == [] then 0 else Placed(config[..|config| - 1]) + (if config[|config| - 1].Some? then 1 else 0)
  }

  /** How many of the adder counts equal v. */
  function Occurrences(adders: seq<int>, v: int): (n: nat)
    ensures n <= |adders|
  {
    if adders == [] then 0 else Occurrences(adders[..|adders| - 1], v) + (if adders[|adders| - 1] == v then 1 else 0)
  }

  /** The count that bindDSPs4Stratix returns for DSPs whose adder counts (1 to 3,
      from the binding step) are listed: pairs, triplets and quadruplets share a DSP. */
  function BoundCount(adders: seq<int>): int
  {
    |adders| - Occurrences(adders, 1) / 2 - Occurrences(adders, 2) * 2 / 3 - Occurrences(adders, 3) * 3 / 4
  }

  /** The first loop of bindDSPs4Stratix: the nulls are subtracted from nrDSPs. */
  method CountPlaced(config: array<Option<Block>>) returns (count: int)
    ensures count == Placed(config[..])
  {
    count := config.Length;
    for i := 0 to config.Length
      invariant count == config.Length - i + Placed(config[..i])
    {
      assert config[..i + 1][..i] == config[..i];
      if config[i] == None {
        count := count - 1;
      }
    }
    assert config[..config.Length] == config[..];
  }

  /** The counting loop and the result of bindDSPs4Stratix, on the adder counts of the first
      DSPcount entries. */
  method StratixCount(adders: seq<int>) returns (count: int)
    requires forall i :: 0 <= i < |adders| ==> 1 <= adders[i] <= 3
    ensures count == BoundCount(adders)
  {
    var pair := [0, 0, 0];
    for i := 0 to |adders|
      invariant |pair| == 3
      invariant forall v :: 0 <= v < 3 ==> pair[v] == Occurrences(adders[..i], v + 1)
    {
      assert adders[..i + 1][..i] == adders[..i];
      var v := adders[i] - 1;
      pair := pair[v := pair[v] + 1];
    }
    assert adders[..|adders|] == adders;
    count := |adders| - pair[0] / 2 - pair[1] * 2 / 3 - pair[2] * 3 / 4;
  }

  /** Each adder count is 1, 2 or 3, so the counts sum to the number of DSPs. */
  lemma {:induction false} OccurrencesSum(adders: seq<int>)
    requires forall i :: 0 <= i < |adders| ==> 1 <= adders[i] <= 3
    ensures Occurrences(adders, 1) + Occurrences(adders, 2) + Occurrences(adders, 3) == |adders|
  {
    if adders != [] {
      OccurrencesSum(adders[..|adders| - 1]);
    }
  }

  /** Binding never needs more DSPs than there are blocks, and saves at most three in four. */
  lemma BoundCountRange(adders: seq<int>)
    requires forall i :: 0 <= i < |adders| ==> 1 <= adders[i] <= 3
    ensures 4 * BoundCount(adders) >= |adders| && BoundCount(adders) <= |adders|
  {
    OccurrencesSum(adders);
  }
}
