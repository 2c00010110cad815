/** The integer helpers of the DSP tiling multiplier of src/IntMultipliers/IntTilingMult.cpp:
    marking a block's rectangle on the tiling board, the overlap test between blocks, the
    exchange sort of the configuration, the coordinate conversion back to the multiplier's
    input ranges, the trial positions proposed for a block next to its predecessor, and the
    reference product. The tiling board is x (columns, the X operand) by y (rows, the Y
    operand); a block's top-right corner holds its smallest coordinates and its bottom-left
    corner its largest. */
module Tiling {
  import opened Bits
  import opened Results

  /** A DSP block on the board: top-right corner (xtr, ytr), bottom-left corner (xbl, ybl). */
  datatype Block = Block(xtr: int, ytr: int, xbl: int, ybl: int)

  predicate WellFormed(b: Block) { b.xtr <= b.xbl && b.ytr <= b.ybl }

  // ---------------------------------------------------------------- fillMatrix

  /** Cell (row i, column j) lies in the rectangle [tlx, brx] x [tly, bry] and on the lw x lh board. */
  predicate InFill(i: int, j: int, lw: int, lh: int, tlx: int, tly: int, brx: int, bry: int)
  {
    tlx <= j <= brx && tly <= i <= bry && 0 <= i < lh && 0 <= j < lw
  }

  /** fillMatrix: value is written into the cells of the rectangle that lie on the board, and
      into no other cell. The matrix has at least lh rows of at least lw cells. */
  method FillMatrix(matrix: array2<int>, lw: int, lh: int, tlx: int, tly: int, brx: int, bry: int, value: int)
    requires lh <= matrix.Length0 && lw <= matrix.Length1
    modifies matrix
    ensures forall i, j :: 0 <= i < matrix.Length0 && 0 <= j < matrix.Length1 ==>
      matrix[i, j] == if InFill(i, j, lw, lh, tlx, tly, brx, bry) then value else old(matrix[i, j])
  {
    var j := tlx;
    while j <= brx
      invariant j == tlx || tlx < j <= brx + 1
      invariant forall i, c :: 0 <= i < matrix.Length0 && 0 <= c < matrix.Length1 ==>
        matrix[i, c] == if InFill(i, c, lw, lh, tlx, tly, j - 1, bry) then value else old(matrix[i, c])
      decreases brx - j
    {
      FillColumn(matrix, lw, lh, j, tly, bry, value);
      j := j + 1;
    }
  }

  /** The inner loop of fillMatrix: column j, rows tly to bry. */
  method FillColumn(matrix: array2<int>, lw: int, lh: int, j: int, tly: int, bry: int, value: int)
    requires lh <= matrix.Length0 && lw <= matrix.Length1
    modifies matrix
    ensures forall i, c :: 0 <= i < matrix.Length0 && 0 <= c < matrix.Length1 ==>
      matrix[i, c] == if c == j && tly <= i <= bry && i < lh && j < lw then value else old(matrix[i, c])
  {
    var i := tly;
    while i <= bry
      invariant i == tly || tly < i <= bry + 1
      invariant forall r, c :: 0 <= r < matrix.Length0 && 0 <= c < matrix.Length1 ==>
        matrix[r, c] == if c == j && tly <= r < i && r < lh && j < lw then value else old(matrix[r, c])
      decreases bry - i
    {
      if j > -1 && i > -1 && i < lh && j < lw {
        matrix[i, j] := value;
      }
      i := i + 1;
    }
  }

  // ---------------------------------------------------------------- checkOverlap

  /** The ten-case test of checkOverlap, config[index] being a and config[i] being b: a corner
      of one block inside the other (eight cases), or one block crossing the other (two). */
  predicate OverlapTest(a: Block, b: Block)
  {
    var (xtr1, ytr1, xbl1, ybl1) := (a.xtr, a.ytr, a.xbl, a.ybl);
    var (xtr2, ytr2, xbl2, ybl2) := (b.xtr, b.ytr, b.xbl, b.ybl);
    || ((xtr2 <= xbl1) && (ytr2 <= ybl1) && (xtr2 >= xtr1) && (ytr2 >= ytr1))
    || ((xbl2 <= xbl1) && (ybl2 <= ybl1) && (xbl2 >= xtr1) && (ybl2 >= ytr1))
    || ((xtr2 <= xbl1) && (ybl2 <= ybl1) && (xtr2 >= xtr1) && (ybl2 >= ytr1))
    || ((xbl2 <= xbl1) && (ytr2 <= ybl1) && (xbl2 >= xtr1) && (ytr2 >= ytr1))
    || ((xbl2 >= xbl1) && (ybl2 <= ybl1) && (ytr2 >= ytr1) && (xtr2 <= xtr1))
    || ((xtr1 <= xbl2) && (ytr1 <= ybl2) && (xtr1 >= xtr2) && (ytr1 >= ytr2))
    || ((xbl1 <= xbl2) && (ybl1 <= ybl2) && (xbl1 >= xtr2) && (ybl1 >= ytr2))
    || ((xtr1 <= xbl2) && (ybl1 <= ybl2) && (xtr1 >= xtr2) && (ybl1 >= ytr2))
    || ((xbl1 <= xbl2) && (ytr1 <= ybl2) && (xbl1 >= xtr2) && (ytr1 >= ytr2))
    || ((xbl1 >= xbl2) && (ybl1 <= ybl2) && (ytr1 >= ytr2) && (xtr1 <= xtr2))
  }

  /** Two blocks share a cell of the board (their closed rectangles meet). */
  predicate Intersect(a: Block, b: Block)
  {
    a.xtr <= b.xbl && b.xtr <= a.xbl && a.ytr <= b.ybl && b.ytr <= a.ybl
  }

  /** On well-formed blocks the ten cases are exactly rectangle intersection, so the test is
      also symmetric. */
  lemma OverlapTestIsIntersection(a: Block, b: Block)
    requires WellFormed(a) && WellFormed(b)
    ensures OverlapTest(a, b) <==> Intersect(a, b)
    ensures OverlapTest(a, b) <==> OverlapTest(b, a)
  {
  }

  /** checkOverlap: block index against every non-null block of lower index. */
  method CheckOverlap(config: array<Option<Block>>, index: int) returns (overlap: bool)
    requires 0 <= index < config.Length && config[index].Some?
    ensures overlap <==> exists i :: 0 <= i < index && config[i].Some? && OverlapTest(config[index].value, config[i].value)
  {
    var a := config[index].value;
    var i := 0;
    while i < index
      invariant 0 <= i <= index
      invariant forall k :: 0 <= k < i && config[k].Some? ==> !OverlapTest(a, config[k].value)
    {
      if config[i].Some? {
        if OverlapTest(a, config[i].value) {
          return true;
        }
      }
      i := i + 1;
    }
    return false;
  }

  // ---------------------------------------------------------------- sortDSPs

  /** The sort key of sortDSPs: the sum of the top-right coordinates. */
  function CornerSum(o: Option<Block>): int
  {
    if o.Some? then o.value.xtr + o.value.ytr else 0
  }

  predicate AllPlaced(s: seq<Option<Block>>)
  {
    forall k :: 0 <= k < |s| ==> s[k].Some?
  }

  predicate SortedByCornerSum(s: seq<Option<Block>>)
  {
    forall p, q :: 0 <= p < q < |s| ==> CornerSum(s[p]) <= CornerSum(s[q])
  }

  /** sortDSPs: the exchange sort that swaps config[i] and config[j] (i < j) whenever the key
      of config[i] is larger. Every entry is dereferenced, so none may be null. */
  method SortDSPs(config: array<Option<Block>>)
    requires AllPlaced(config[..])
    modifies config
    ensures AllPlaced(config[..])
    ensures SortedByCornerSum(config[..])
    ensures multiset(config[..]) == multiset(old(config[..]))
  {
    var n := config.Length;
    var i := 0;
    while i < n - 1
      invariant 0 <= i <= if n == 0 then 0 else n - 1
      invariant AllPlaced(config[..])
      invariant SortedBelow(config[..], i)
      invariant multiset(config[..]) == multiset(old(config[..]))
    {
      ExchangePass(config, i);
      i := i + 1;
    }
  }

  /** The entries before i are in place: each is at most every later entry. */
  predicate SortedBelow(s: seq<Option<Block>>, i: int)
  {
    forall p, q :: 0 <= p < i && p < q < |s| ==> CornerSum(s[p]) <= CornerSum(s[q])
  }

  /** The inner loop of sortDSPs: config[i] is exchanged with every later entry of smaller key,
      which leaves the smallest key at i. */
  method ExchangePass(config: array<Option<Block>>, i: int)
    requires 0 <= i < config.Length && AllPlaced(config[..]) && SortedBelow(config[..], i)
    modifies config
    ensures AllPlaced(config[..]) && SortedBelow(config[..], i + 1)
    ensures multiset(config[..]) == multiset(old(config[..]))
  {
    var n := config.Length;
    var j := i + 1;
    while j < n
      invariant i + 1 <= j <= n
      invariant AllPlaced(config[..])
      invariant SortedBelow(config[..], i)
      invariant LeastFrom(config[..], i, j)
      invariant multiset(config[..]) == multiset(old(config[..]))
    {
      ghost var before := config[..];
      PassStep(before, i, j);
      if CornerSum(config[i]) > CornerSum(config[j]) {
        config[i], config[j] := config[j], config[i];
      }
      assert config[..] == PassTurn(before, i, j);
      j := j + 1;
    }
  }

  /** Entry i has the least corner sum among entries i to j - 1. */
  predicate LeastFrom(s: seq<Option<Block>>, i: int, j: int)
  {
    forall q :: i < q < j && q < |s| && 0 <= i ==> CornerSum(s[i]) <= CornerSum(s[q])
  }

  /** One turn of the inner loop: entries i and j exchanged when j has the smaller corner sum. */
  function PassTurn(s: seq<Option<Block>>, i: int, j: int): seq<Option<Block>>
    requires 0 <= i < j < |s|
  {
    if CornerSum(s[i]) > CornerSum(s[j]) then s[i := s[j]][j := s[i]] else s
  }

  /** A turn keeps the blocks, their placement and the order of the first i entries, and
      extends the least-from-i range by j. */
  lemma PassStep(s: seq<Option<Block>>, i: int, j: int)
    requires 0 <= i < j < |s| && AllPlaced(s) && SortedBelow(s, i) && LeastFrom(s, i, j)
    ensures var t := PassTurn(s, i, j);
      multiset(t) == multiset(s) && AllPlaced(t) && SortedBelow(t, i) && LeastFrom(t, i, j + 1)
  {
    if CornerSum(s[i]) > CornerSum(s[j]) {
      SwapKeepsPlaced(s, i, j);
      SwapKeepsSorted(s, i, j);
      SwapKeepsLeast(s, i, j);
    } else {
      KeepLeast(s, i, j);
    }
  }

  /** Exchanging two entries keeps the blocks and their placement. */
  lemma SwapKeepsPlaced(s: seq<Option<Block>>, i: int, j: int)
    requires 0 <= i < j < |s| && AllPlaced(s)
    ensures multiset(s[i := s[j]][j := s[i]]) == multiset(s) && AllPlaced(s[i := s[j]][j := s[i]])
  {
  }

  /** Without an exchange, i stays the least up to j when j is not smaller. */
  lemma KeepLeast(s: seq<Option<Block>>, i: int, j: int)
    requires 0 <= i < j < |s| && LeastFrom(s, i, j) && CornerSum(s[i]) <= CornerSum(s[j])
    ensures LeastFrom(s, i, j + 1)
  {
  }

  /** Exchanging entries i and j keeps the order of the first i entries. */
  lemma SwapKeepsSorted(s: seq<Option<Block>>, i: int, j: int)
    requires 0 <= i < j < |s| && SortedBelow(s, i)
    ensures SortedBelow(s[i := s[j]][j := s[i]], i)
  {
    var t := s[i := s[j]][j := s[i]];
    forall p, q | 0 <= p < i && p < q < |t|
      ensures CornerSum(t[p]) <= CornerSum(t[q])
    {
      if q == i {
        assert CornerSum(s[p]) <= CornerSum(s[j]);
      } else if q == j {
        assert CornerSum(s[p]) <= CornerSum(s[i]);
      }
    }
  }

  /** Bringing the smaller entry j forward to i keeps i the least up to j. */
  lemma SwapKeepsLeast(s: seq<Option<Block>>, i: int, j: int)
    requires 0 <= i < j < |s| && LeastFrom(s, i, j) && CornerSum(s[i]) > CornerSum(s[j])
    ensures LeastFrom(s[i := s[j]][j := s[i]], i, j + 1)
  {
    var t := s[i := s[j]][j := s[i]];
    forall q | i < q < j + 1
      ensures CornerSum(t[i]) <= CornerSum(t[q])
    {
      if q < j {
        assert t[q] == s[q];
      }
    }
  }

  // ---------------------------------------------------------------- convertCoordinates

  /** convertCoordinatesKeepNeg: the corners moved from the board, which has extraW columns and
      extraH rows of margin, to the input ranges. */
  function ConvertCoordinatesKeepNeg(c: Block, extraW: int, extraH: int): (r: Block)
    ensures r.xbl - r.xtr == c.xbl - c.xtr && r.ybl - r.ytr == c.ybl - c.ytr
    ensures r.xtr + extraW == c.xtr && r.ytr + extraH == c.ytr
  {
    Block(c.xtr - extraW, c.ytr - extraH, c.xbl - extraW, c.ybl - extraH)
  }

  /** convertCoordinates: the same, with the bottom-left corner pulled back to wInX-1 and wInY-1
      when it falls past the last input bit; nothing else is clamped. */
  function ConvertCoordinates(c: Block, extraW: int, extraH: int, wInX: int, wInY: int): (r: Block)
    ensures var k := ConvertCoordinatesKeepNeg(c, extraW, extraH);
      && r.xtr == k.xtr && r.ytr == k.ytr
      && r.xbl <= wInX - 1 && r.ybl <= wInY - 1
      && (k.xbl < wInX ==> r.xbl == k.xbl) && (k.ybl < wInY ==> r.ybl == k.ybl)
      && (k.xbl >= wInX ==> r.xbl == wInX - 1) && (k.ybl >= wInY ==> r.ybl == wInY - 1)
  {
    var (tx, ty, bx, bY) := (c.xtr - extraW, c.ytr - extraH, c.xbl - extraW, c.ybl - extraH);
    Block(tx, ty, if bx >= wInX then wInX - 1 else bx, if bY >= wInY then wInY - 1 else bY)
  }

  // ---------------------------------------------------------------- replace: trial positions

  /** The displacements from the previous block's top-right corner that replace tries, for a
      previous block of w x h: below it, to its left, and a target-dependent third one. */
  function Displacements(w: int, h: int, targetID: string): (d: seq<(int, int)>)
    ensures |d| == 3 && d[0] == (0, h) && d[1] == (w, 0)
  {
    var mind := if w < h then w else h;
    var (mindX, mindY) :=
      if targetID == "Virtex5" then (-(if w - h < 0 then h - w else w - h), h)
      else if targetID == "StratixII" || targetID == "StratixIII" || targetID == "StratixIV" then (-w, h)
      else (mind, mind);
    [(0, h), (w, 0), (mindX, mindY)]
  }

  /** The test that guards the third position, as the source writes it: StratixIV is named twice
      and StratixIII not at all. */
  predicate ExtraPositionAsWritten(w: int, h: int, targetID: string)
  {
    w != h || (targetID == "StratixII" || targetID == "StratixIV" || targetID == "StratixIV")
  }

  /** The same test with the three Stratix families that the displacement itself singles out. */
  predicate ExtraPosition(w: int, h: int, targetID: string)
  {
    w != h || (targetID == "StratixII" || targetID == "StratixIII" || targetID == "StratixIV")
  }

  /** A trial position strictly inside the board. */
  predicate OnBoard(p: (int, int), vnme: int, vmme: int)
  {
    0 < p.0 < vnme && 0 < p.1 < vmme
  }

  /** The positions pushed, in order, for displacements d from (x, y), the third one only when
      extra holds. */
  function Candidates(x: int, y: int, d: seq<(int, int)>, extra: bool, vnme: int, vmme: int): (ps: seq<(int, int)>)
    requires |d| == 3
    ensures forall k :: 0 <= k < |ps| ==> OnBoard(ps[k], vnme, vmme)
    ensures |ps| <= 3
  {
    var c := seq(3, i requires 0 <= i < 3 => (x + d[i].0, y + d[i].1));
    (if OnBoard(c[0], vnme, vmme) then [c[0]] else [])
    + (if OnBoard(c[1], vnme, vmme) then [c[1]] else [])
    + (if OnBoard(c[2], vnme, vmme) && extra then [c[2]] else [])
  }

  /** The candidate loop of replace for block index > 0, whose predecessor has its top-right
      corner at (x, y) and is w x h, with the corrected guard for the third position. */
  method TrialPositions(x: int, y: int, w: int, h: int, targetID: string, vnme: int, vmme: int)
    returns (ps: seq<(int, int)>)
    ensures ps == Candidates(x, y, Displacements(w, h, targetID), ExtraPosition(w, h, targetID), vnme, vmme)
  {
    var d := Displacements(w, h, targetID);
    var extra := ExtraPosition(w, h, targetID);
    ps := [];
    for i := 0 to 3
      invariant ps == CandidatesUpTo(x, y, d, extra, vnme, vmme, i)
    {
      var x1 := x + d[i].0;
      var y1 := y + d[i].1;
      if x1 < vnme && y1 < vmme && x1 > 0 && y1 > 0 {
        if i != 2 || extra {
          ps := ps + [(x1, y1)];
        }
      }
    }
    CandidatesUpToAll(x, y, d, extra, vnme, vmme);
  }

  /** The positions pushed by the first k turns of the candidate loop. */
  function CandidatesUpTo(x: int, y: int, d: seq<(int, int)>, extra: bool, vnme: int, vmme: int, k: nat): seq<(int, int)>
    requires |d| == 3 && k <= 3
  {
    if k == 0 then []
    else
      var c := (x + d[k - 1].0, y + d[k - 1].1);
      CandidatesUpTo(x, y, d, extra, vnme, vmme, k - 1) + (if OnBoard(c, vnme, vmme) && (k - 1 != 2 || extra) then [c] else [])
  }

  lemma CandidatesUpToAll(x: int, y: int, d: seq<(int, int)>, extra: bool, vnme: int, vmme: int)
    requires |d| == 3
    ensures CandidatesUpTo(x, y, d, extra, vnme, vmme, 3) == Candidates(x, y, d, extra, vnme, vmme)
  {
    var c := seq(3, i requires 0 <= i < 3 => (x + d[i].0, y + d[i].1));
    var k0 := if OnBoard(c[0], vnme, vmme) then [c[0]] else [];
    var k1 := if OnBoard(c[1], vnme, vmme) then [c[1]] else [];
    var k2 := if OnBoard(c[2], vnme, vmme) && extra then [c[2]] else [];
    assert CandidatesUpTo(x, y, d, extra, vnme, vmme, 1) == k0;
    assert CandidatesUpTo(x, y, d, extra, vnme, vmme, 2) == k0 + k1;
    assert CandidatesUpTo(x, y, d, extra, vnme, vmme, 3) == k0 + k1 + k2;
  }

  /** On StratixIII with a square predecessor the diagonal position is never tried as written,
      although the displacement computed for it is the Stratix one; with the corrected guard it
      is. Example: predecessor 18 x 18 at (30, 30) on a 100 x 100 board. */
  lemma StratixIIIDiagonalDropped()
    ensures !ExtraPositionAsWritten(18, 18, "StratixIII") && ExtraPosition(18, 18, "StratixIII")
    ensures Candidates(30, 30, Displacements(18, 18, "StratixIII"), ExtraPositionAsWritten(18, 18, "StratixIII"), 100, 100)
      == [(30, 48), (48, 30)]
    ensures Candidates(30, 30, Displacements(18, 18, "StratixIII"), ExtraPosition(18, 18, "StratixIII"), 100, 100)
      == [(30, 48), (48, 30), (12, 48)]
  {
    var d := Displacements(18, 18, "StratixIII");
    assert "StratixIII" != "Virtex5";
    assert "StratixIII" != "StratixII";
    assert "StratixIII" != "StratixIV";
    assert d == [(0, 18), (18, 0), (-18, 18)];
  }

  /** The two guards differ only for StratixIII with a square predecessor. */
  lemma ExtraPositionDifference(w: int, h: int, targetID: string)
    ensures ExtraPositionAsWritten(w, h, targetID) != ExtraPosition(w, h, targetID) <==> w == h && targetID == "StratixIII"
  {
    if targetID == "StratixIII" {
      assert "StratixIII" != "StratixII";
      assert "StratixIII" != "StratixIV";
    }
  }

  // ---------------------------------------------------------------- initTiling

  /** initTiling with the outcome of the placement search passed in: placed[i] is where replace
      put block i, or None when it found no position, in which case the block goes to the board
      corner (vn, vm). The configuration has nrDSPs entries, the ones past dspCount null. */
  method InitTiling(nrDSPs: nat, dspCount: nat, placed: seq<Option<Block>>, vn: int, vm: int, w: int, h: int)
    returns (config: array<Option<Block>>)
    requires dspCount <= nrDSPs && |placed| == dspCount
    ensures fresh(config) && config.Length == nrDSPs
    ensures forall i :: dspCount <= i < nrDSPs ==> config[i] == None
    ensures forall i :: 0 <= i < dspCount ==>
      config[i] == Some(if placed[i].Some? then placed[i].value else Block(vn, vm, vn + w, vm + h))
  {
    config := new Option<Block>[nrDSPs];
    for i := 0 to nrDSPs
      invariant forall k :: 0 <= k < i ==> config[k] == None
    {
      config[i] := None;
    }
    for i := 0 to dspCount
      invariant forall k :: dspCount <= k < nrDSPs ==> config[k] == None
      invariant forall k :: 0 <= k < i ==>
        config[k] == Some(if placed[k].Some? then placed[k].value else Block(vn, vm, vn + w, vm + h))
    {
      if placed[i].Some? {
        config[i] := placed[i];
      } else {
        config[i] := Some(Block(vn, vm, vn + w, vm + h));
      }
    }
  }

  // ---------------------------------------------------------------- emulate

  /** emulate: the exact product, which fits the wX + wY output bits. */
  function Emulate(wX: nat, wY: nat, X: nat, Y: nat): (r: nat)
    requires X < Pow2(wX) && Y < Pow2(wY)
    ensures r < Pow2(wX + wY)
  {
    MulStrict(X, Y, Pow2(wX), Pow2(wY));
    Pow2Add(wX, wY);
    X * Y
  }
}
