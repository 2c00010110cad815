/** The bit heap of src/BitHeap.cpp: one list of weighted bits per column (weight), each list kept
    in arrival order, one uid counter per column, the weight below which the columns are already
    compressed, and the constant bits gathered aside as one integer. */
module BitHeapModel {
  import opened Bits
  import opened Results

  /** A bit of the heap: the heap's guid, its uid in its column, its weight, its type, and the
      cycle and critical path at which it arrives. */
  datatype WeightedBit = WeightedBit(guid: int, uid: int, weight: nat, btype: int, cycle: int, criticalPath: int)

  /** The arrival order of bits in a column: lexicographic on (cycle, critical path). */
  predicate Le(a: WeightedBit, b: WeightedBit)
  {
    a.cycle < b.cycle || (a.cycle == b.cycle && a.criticalPath <= b.criticalPath)
  }

  predicate Sorted(l: seq<WeightedBit>)
  {
    forall i, j :: 0 <= i < j < |l| ==> Le(l[i], l[j])
  }

  /** The first position whose bit arrives no earlier than b, or |l|: where list::insert puts b. */
  function InsertPos(l: seq<WeightedBit>, b: WeightedBit): (p: nat)
    ensures p <= |l|
    ensures forall i :: 0 <= i < p ==> !Le(b, l[i])
    ensures p < |l| ==> Le(b, l[p])
  {
    if l == [] then 0 else if Le(b, l[0]) then 0 else 1 + InsertPos(l[1..], b)
  }

  function Insert(l: seq<WeightedBit>, b: WeightedBit): seq<WeightedBit>
  {
    var p := InsertPos(l, b);
    l[..p] + [b] + l[p..]
  }

  /** Inserting keeps a column sorted, adds exactly b, and grows it by one. */
  lemma InsertSorted(l: seq<WeightedBit>, b: WeightedBit)
    requires Sorted(l)
    ensures Sorted(Insert(l, b))
    ensures multiset(Insert(l, b)) == multiset(l) + multiset{b}
    ensures |Insert(l, b)| == |l| + 1
  {
    var p := InsertPos(l, b);
    var r := Insert(l, b);
    assert l == l[..p] + l[p..];
    forall i, j | 0 <= i < j < |r|
      ensures Le(r[i], r[j])
    {
      InsertPairOrdered(l, b, p, i, j);
    }
  }

  /** One pair of positions of the column after b is inserted at p. */
  lemma InsertPairOrdered(l: seq<WeightedBit>, b: WeightedBit, p: nat, i: nat, j: nat)
    requires Sorted(l) && p == InsertPos(l, b) && i < j < |l| + 1
    ensures Le(Insert(l, b)[i], Insert(l, b)[j])
  {
    var r := l[..p] + [b] + l[p..];
    assert Insert(l, b) == r;
    assert r[p] == b;
    assert forall k :: 0 <= k < p ==> r[k] == l[k];
    assert forall k :: p < k < |r| ==> r[k] == l[k - 1];
    if j < p {
    } else if j == p {
    } else if i < p {
      assert Le(b, l[p]);
    } else if i == p {
      if j - 1 > p {
        assert Le(l[p], l[j - 1]);
      }
    } else {
    }
  }

  /** A well-formed column w with uid counter next: sorted, every bit of this heap and of
      weight w, with distinct uids below next. */
  predicate ColumnOk(l: seq<WeightedBit>, guid: int, w: nat, next: int)
  {
    && Sorted(l)
    && (forall i :: 0 <= i < |l| ==> l[i].guid == guid && l[i].weight == w && 0 <= l[i].uid < next)
    && (forall i, j :: 0 <= i < j < |l| ==> l[i].uid != l[j].uid)
  }

  /** A bit with a fresh uid can be inserted into a well-formed column. */
  lemma InsertColumnOk(l: seq<WeightedBit>, guid: int, w: nat, next: int, b: WeightedBit)
    requires ColumnOk(l, guid, w, next)
    requires b.guid == guid && b.weight == w && b.uid == next && next >= 0
    ensures ColumnOk(Insert(l, b), guid, w, next + 1)
  {
    InsertSorted(l, b);
    var r := Insert(l, b);
    forall i | 0 <= i < |r|
      ensures r[i].guid == guid && r[i].weight == w && 0 <= r[i].uid < next + 1
    {
      InsertAt(l, b, i);
    }
    forall i, j | 0 <= i < j < |r|
      ensures r[i].uid != r[j].uid
    {
      InsertAt(l, b, i);
      InsertAt(l, b, j);
    }
  }

  /** Position i of the column after b is inserted: a bit of l, shifted up by one past b. */
  lemma InsertAt(l: seq<WeightedBit>, b: WeightedBit, i: nat)
    requires i < |l| + 1
    ensures var p := InsertPos(l, b);
      Insert(l, b)[i] == if i < p then l[i] else if i == p then b else l[i - 1]
  {
  }

  /** Dropping bits from either end keeps a column well formed. */
  lemma SliceColumnOk(l: seq<WeightedBit>, guid: int, w: nat, next: int, a: nat, e: nat)
    requires ColumnOk(l, guid, w, next) && a <= e <= |l|
    ensures ColumnOk(l[a..e], guid, w, next)
  {
    var r := l[a..e];
    assert forall i :: 0 <= i < |r| ==> r[i] == l[a + i];
  }

  /** A counter may grow without harm. */
  lemma RaiseColumnOk(l: seq<WeightedBit>, guid: int, w: nat, next: int, next2: int)
    requires ColumnOk(l, guid, w, next) && next <= next2
    ensures ColumnOk(l, guid, w, next2)
  {
  }

  /** The bit of a column that holds exactly one, as concatenateLSBColumns reads it. */
  function ColumnBit(l: seq<WeightedBit>): Option<WeightedBit>
  {
    if |l| == 1 then Some(l[0]) else None
  }

  /** The first column at or above from whose height exceeds one, or the end of the heap. */
  function FirstTall(bits: seq<seq<WeightedBit>>, from: nat): (w: nat)
    ensures from <= w && (w > from ==> w <= |bits|)
    ensures forall i :: from <= i < w ==> i < |bits| && |bits[i]| <= 1
    ensures w < |bits| ==> |bits[w]| > 1
    decreases |bits| - from
  {
    if from >= |bits| || |bits[from]| > 1 then from else FirstTall(bits, from + 1)
  }

  /** A bit getLatestBit can pick: its running maximum starts at cycle 0 and critical path 0,
      so a bit must arrive after cycle 0, or at cycle 0 with a critical path of at least 0. */
  predicate Pickable(x: WeightedBit)
  {
    x.cycle > 0 || (x.cycle == 0 && x.criticalPath >= 0)
  }

  /** No bit of the columns lo to hi - 1 is pickable: getLatestBit then returns null. */
  predicate NoLatest(bits: seq<seq<WeightedBit>>, lo: int, hi: int)
  {
    forall i, k :: lo <= i < hi && 0 <= i < |bits| && 0 <= k < |bits[i]| ==> !Pickable(bits[i][k])
  }

  /** b is what getLatestBit may hold after seeing x: nothing, and x is not pickable, or a bit
      arriving no earlier than x. */
  predicate Beats(b: Option<WeightedBit>, x: WeightedBit)
  {
    if b.None? then !Pickable(x) else Le(x, b.value)
  }

  /** The heap after concatenateLSBColumns moved minWeight from m0 to m: the columns m0 to m - 1
      of b0 are emptied, every other column is kept, and the chunk holds their bits, most
      significant first. */
  predicate Concatenated(b0: seq<seq<WeightedBit>>, m0: nat, bits: seq<seq<WeightedBit>>, m: nat,
                         chunk: seq<Option<WeightedBit>>)
  {
    && m0 <= m && |bits| == |b0| && (m > m0 ==> m <= |b0|)
    && (forall i :: m0 <= i < m ==> bits[i] == [])
    && (forall i :: 0 <= i < |bits| && !(m0 <= i < m) ==> bits[i] == b0[i])
    && |chunk| == m - m0
    && forall j :: 0 <= j < |chunk| ==> chunk[j] == ColumnBit(b0[m - 1 - j])
  }

  /** The value of the complemented low size bits of x: sum of (1 - bit i of x) * 2^i. */
  function NotBitsValue(x: nat, size: nat): nat
  {
    if size == 0 then 0 else NotBitsValue(x, size - 1) + (1 - Bit(x, size - 1)) * Pow2(size - 1)
  }

  /** The complemented bits of x < 2^size are worth 2^size - 1 - x. */
  lemma {:induction false} NotBitsValueIsComplement(x: nat, size: nat)
    ensures NotBitsValue(x, size) == Pow2(size) - 1 - x % Pow2(size)
  {
    if size > 0 {
      NotBitsValueIsComplement(x, size - 1);
      LowBitsStep(x, size - 1);
      ComplementStep(x % Pow2(size - 1), Bit(x, size - 1), Pow2(size - 1), Pow2(size));
    }
  }

  /** Complementing one more bit b at weight p: (p - 1 - low) + (1 - b) p == 2p - 1 - (low + b p). */
  lemma ComplementStep(low: int, b: int, p: int, p2: int)
    requires p2 == 2 * p
    ensures p - 1 - low + (1 - b) * p == p2 - 1 - (low + b * p)
  {
  }

  /** What subtractUnsignedBitVector adds to the heap: the complemented bits of x at weight,
      a one at weight, and ones from weight + size up to maxWeight, which together are
      2^maxWeight - x * 2^weight, the opposite of x * 2^weight modulo 2^maxWeight. */
  lemma SubtractionIsNegation(x: nat, size: nat, weight: nat, maxWeight: nat)
    requires x < Pow2(size) && size + weight <= maxWeight
    ensures NotBitsValue(x, size) * Pow2(weight) + Pow2(weight) + (Pow2(maxWeight) - Pow2(size + weight))
         == Pow2(maxWeight) - x * Pow2(weight)
  {
    NotBitsValueIsComplement(x, size);
    assert x % Pow2(size) == x by { ModUnique(x, Pow2(size), 0, x); }
    Pow2Add(size, weight);
    NotTimes(NotBitsValue(x, size), Pow2(size), x, Pow2(weight));
  }

  lemma NotTimes(v: int, p: int, x: int, q: int)
    requires v == p - 1 - x
    ensures v * q + q == p * q - x * q
  {
  }

  /** The columns after the second loop of concatenateLSBColumns has emptied i + 1 to hi - 1. */
  predicate ClearedAbove(bits: seq<seq<WeightedBit>>, b0: seq<seq<WeightedBit>>, i: int, hi: int)
  {
    |bits| == |b0| && forall c :: 0 <= c < |bits| ==> bits[c] == (if i < c < hi then [] else b0[c])
  }

  /** The bits taken so far, from column hi - 1 downwards. */
  predicate TakenDown(chunk: seq<Option<WeightedBit>>, b0: seq<seq<WeightedBit>>, hi: int)
  {
    forall j :: 0 <= j < |chunk| && 0 <= hi - 1 - j < |b0| ==> chunk[j] == ColumnBit(b0[hi - 1 - j])
  }

  /** Emptying column i extends the emptied range down to i. */
  lemma ClearStep(bits: seq<seq<WeightedBit>>, b0: seq<seq<WeightedBit>>, i: int, hi: int)
    requires 0 <= i < hi <= |b0| && ClearedAbove(bits, b0, i, hi)
    ensures ClearedAbove(bits[i := []], b0, i - 1, hi)
    ensures bits[i] == b0[i]
  {
  }

  /** Appending the bit of the next column down keeps the taken bits in order. */
  lemma TakeStep(chunk: seq<Option<WeightedBit>>, b0: seq<seq<WeightedBit>>, hi: int, b: Option<WeightedBit>)
    requires TakenDown(chunk, b0, hi) && 0 <= hi - 1 - |chunk| < |b0| && b == ColumnBit(b0[hi - 1 - |chunk|])
    ensures TakenDown(chunk + [b], b0, hi)
  {
  }

  class BitHeap {
    const maxWeight: nat
    const guid: int
    var uid: seq<int>
    var bits: seq<seq<WeightedBit>>
    var minWeight: nat
    var constantBits: int
    var chunkDoneIndex: nat

    predicate Valid()
      reads this
    {
      && |uid| == maxWeight && |bits| == maxWeight
      && forall w :: 0 <= w < maxWeight ==> uid[w] >= 0 && ColumnOk(bits[w], guid, w, uid[w])
    }

    /** The constructor: maxWeight empty columns, every uid counter at 0. The source leaves
        minWeight uninitialised; the model starts it at 0. */
    constructor (maxWeight: nat, guid: int)
      ensures Valid()
      ensures this.maxWeight == maxWeight && this.guid == guid
      ensures uid == seq(maxWeight, w => 0) && bits == seq(maxWeight, w => [])
      ensures minWeight == 0 && constantBits == 0 && chunkDoneIndex == 0
    {
      this.maxWeight := maxWeight;
      this.guid := guid;
      uid := seq(maxWeight, w => 0);
      bits := seq(maxWeight, w => []);
      minWeight := 0;
      constantBits := 0;
      chunkDoneIndex := 0;
    }

    /** newUid: the current uid of column w, after which the counter moves on. */
    method NewUid(w: nat) returns (u: int)
      requires Valid() && w < maxWeight
      modifies this
      ensures Valid()
      ensures u == old(uid[w]) && uid == old(uid)[w := u + 1]
      ensures bits == old(bits) && minWeight == old(minWeight)
      ensures constantBits == old(constantBits) && chunkDoneIndex == old(chunkDoneIndex)
    {
      u := uid[w];
      RaiseColumnOk(bits[w], guid, w, u, u + 1);
      uid := uid[w := u + 1];
    }

    function CurrentHeight(w: nat): nat
      reads this
      requires w < |bits|
    {
      |bits[w]|
    }

    /** addBit: a bit of weight w >= maxWeight is ignored; otherwise a new bit with the next uid
        of its column is inserted before the first bit that arrives no earlier. */
    method AddBit(w: nat, btype: int, cycle: int, criticalPath: int)
      requires Valid()
      modifies this
      ensures Valid()
      ensures w >= maxWeight ==> bits == old(bits) && uid == old(uid)
      ensures w < maxWeight ==>
        && uid == old(uid)[w := old(uid[w]) + 1]
        && bits == old(bits)[w := Insert(old(bits[w]), WeightedBit(guid, old(uid[w]), w, btype, cycle, criticalPath))]
        && CurrentHeight(w) == old(CurrentHeight(w)) + 1
      ensures minWeight == old(minWeight) && constantBits == old(constantBits) && chunkDoneIndex == old(chunkDoneIndex)
    {
      if w >= maxWeight {
        return;
      }
      var u := NewUid(w);
      var bit := WeightedBit(guid, u, w, btype, cycle, criticalPath);
      var l := bits[w];
      var count := 0;
      while count < |l| && !Le(bit, l[count])
        invariant 0 <= count <= |l|
        invariant forall i :: 0 <= i < count ==> !Le(bit, l[i])
      {
        count := count + 1;
      }
      assert count == InsertPos(l, bit);
      InsertColumnOk(l, guid, w, u, bit);
      InsertSorted(l, bit);
      bits := bits[w := l[..count] + [bit] + l[count..]];
    }

    /** removeBit: dir 0 drops the first bit of the column, dir 1 the last, any other dir
        nothing. */
    method RemoveBit(weight: nat, dir: int)
      requires Valid() && weight < maxWeight
      requires dir == 0 || dir == 1 ==> |bits[weight]| >= 1
      modifies this
      ensures Valid()
      ensures var l := old(bits[weight]);
        bits == old(bits)[weight := if dir == 0 then l[1..] else if dir == 1 then l[..|l| - 1] else l]
      ensures uid == old(uid) && minWeight == old(minWeight)
      ensures constantBits == old(constantBits) && chunkDoneIndex == old(chunkDoneIndex)
    {
      var l := bits[weight];
      if dir == 0 {
        SliceColumnOk(l, guid, weight, uid[weight], 1, |l|);
        bits := bits[weight := l[1..]];
      } else if dir == 1 {
        SliceColumnOk(l, guid, weight, uid[weight], 0, |l| - 1);
        bits := bits[weight := l[..|l| - 1]];
      }
    }

    /** removeCompressedBits: red bits leave the front of column c. */
    method RemoveCompressedBits(c: nat, red: int)
      requires Valid() && c < maxWeight && red <= |bits[c]|
      modifies this
      ensures Valid()
      ensures var r := if red > 0 then red else 0;
        bits == old(bits)[c := old(bits[c])[r..]] && CurrentHeight(c) == old(CurrentHeight(c)) - r
      ensures uid == old(uid) && minWeight == old(minWeight)
      ensures constantBits == old(constantBits) && chunkDoneIndex == old(chunkDoneIndex)
    {
      ghost var l0 := bits[c];
      var r := red;
      while r > 0
        invariant Valid() && r <= |bits[c]|
        invariant if red > 0 then 0 <= r else r == red
        invariant var done := if red > 0 then red - r else 0;
          0 <= done <= |l0| && bits == old(bits)[c := l0[done..]]
        invariant uid == old(uid) && minWeight == old(minWeight)
        invariant constantBits == old(constantBits) && chunkDoneIndex == old(chunkDoneIndex)
      {
        RemoveBit(c, 0);
        r := r - 1;
      }
    }

    /** getMaxHeight: the height of the tallest column, 0 for a heap without bits. */
    method GetMaxHeight() returns (max: nat)
      requires Valid()
      ensures forall i :: 0 <= i < maxWeight ==> |bits[i]| <= max
      ensures max == 0 || exists i :: 0 <= i < maxWeight && |bits[i]| == max
    {
      max := 0;
      var i := 0;
      while i < maxWeight
        invariant 0 <= i <= maxWeight
        invariant forall j :: 0 <= j < i ==> |bits[j]| <= max
        invariant max == 0 || exists j :: 0 <= j < i && |bits[j]| == max
      {
        if |bits[i]| > max {
          max := |bits[i]|;
        }
        i := i + 1;
      }
    }

    /** getLatestBit: the latest bit of columns lsb to msb, by (cycle, critical path), the later
        one of two equal bits; None (the source's null) when no bit there is pickable. */
    method GetLatestBit(lsb: nat, msb: nat) returns (b: Option<WeightedBit>)
      requires lsb <= msb ==> msb < |bits|
      ensures b.None? <==> NoLatest(bits, lsb, msb + 1)
      ensures b.Some? ==> Pickable(b.value) && exists i :: lsb <= i <= msb && i < |bits| && b.value in bits[i]
      ensures forall i, k :: lsb <= i <= msb && i < |bits| && 0 <= k < |bits[i]| ==> Beats(b, bits[i][k])
    {
      var maxCycle := 0;
      var maxCP := 0;
      b := None;
      ghost var at, pos := 0, 0;
      var w := lsb;
      while w <= msb
        invariant w == lsb || lsb <= w <= msb + 1
        invariant maxCycle == (if b.Some? then b.value.cycle else 0)
        invariant maxCP == (if b.Some? then b.value.criticalPath else 0)
        invariant b.Some? ==> Pickable(b.value) && lsb <= at < w && at < |bits| && pos < |bits[at]| && bits[at][pos] == b.value
        invariant forall i, k :: lsb <= i < w && i < |bits| && 0 <= k < |bits[i]| ==> Beats(b, bits[i][k])
      {
        var l := bits[w];
        var k := 0;
        while k < |l|
          invariant 0 <= k <= |l|
          invariant maxCycle == (if b.Some? then b.value.cycle else 0)
          invariant maxCP == (if b.Some? then b.value.criticalPath else 0)
          invariant b.Some? ==> Pickable(b.value) && lsb <= at <= w && at < |bits| && pos < |bits[at]| && bits[at][pos] == b.value
          invariant forall i, j :: lsb <= i < w && i < |bits| && 0 <= j < |bits[i]| ==> Beats(b, bits[i][j])
          invariant forall j :: 0 <= j < k ==> Beats(b, l[j])
        {
          if maxCycle < l[k].cycle {
            maxCycle := l[k].cycle;
            maxCP := l[k].criticalPath;
            b := Some(l[k]);
            at, pos := w, k;
          } else if maxCycle == l[k].cycle && maxCP <= l[k].criticalPath {
            maxCP := l[k].criticalPath;
            b := Some(l[k]);
            at, pos := w, k;
          }
          k := k + 1;
        }
        w := w + 1;
      }
      if b.Some? {
        assert Pickable(bits[at][pos]);
      }
    }

    /** concatenateLSBColumns: the columns from minWeight up to the first column holding more
        than one bit are already compressed. Their bits (None for an empty column, most
        significant first) form one chunk of the result, those columns are emptied, and
        minWeight moves past them. The operator's cycle is taken from getLatestBit over those
        columns; when it finds no bit (all of them empty, say) the source dereferences null,
        which is the error here, and the heap is left as it was. */
    method ConcatenateLSBColumns() returns (r: Result<seq<Option<WeightedBit>>>)
      requires Valid()
      modifies this
      ensures Valid()
      ensures var w := FirstTall(old(bits), old(minWeight));
        r.Err? <==> w != old(minWeight) && NoLatest(old(bits), old(minWeight), w)
      ensures r.Err? ==> bits == old(bits) && minWeight == old(minWeight) && chunkDoneIndex == old(chunkDoneIndex)
      ensures r.Ok? ==> minWeight == FirstTall(old(bits), old(minWeight))
      ensures r.Ok? ==> Concatenated(old(bits), old(minWeight), bits, minWeight, r.value)
      ensures r.Ok? ==> chunkDoneIndex == old(chunkDoneIndex) + (if minWeight != old(minWeight) then 1 else 0)
      ensures uid == old(uid) && constantBits == old(constantBits)
    {
      var w := CompressedUpTo();
      var noLatest := NoLatestBelow(w);
      if noLatest {
        return Err("getLatestBit found no bit: null dereference");
      }
      var chunk := ConcatenateUpTo(w);
      r := Ok(chunk);
    }

    /** Whether concatenateLSBColumns asks getLatestBit for the columns minWeight to w - 1 and
        gets null back. */
    method NoLatestBelow(w: nat) returns (none: bool)
      requires w == FirstTall(bits, minWeight)
      ensures none <==> w != minWeight && NoLatest(bits, minWeight, w)
    {
      none := false;
      if w != minWeight {
        var latest := GetLatestBit(minWeight, w - 1);
        none := latest.None?;
      }
    }

    /** The rest of concatenateLSBColumns once the scan has stopped at w: the columns from
        minWeight to w - 1 give up their bits and minWeight moves to w. */
    method ConcatenateUpTo(w: nat) returns (chunk: seq<Option<WeightedBit>>)
      requires Valid() && w == FirstTall(bits, minWeight)
      modifies this
      ensures Valid()
      ensures minWeight == w
      ensures Concatenated(old(bits), old(minWeight), bits, minWeight, chunk)
      ensures chunkDoneIndex == old(chunkDoneIndex) + (if w != old(minWeight) then 1 else 0)
      ensures uid == old(uid) && constantBits == old(constantBits)
    {
      ghost var b0 := bits;
      chunk := [];
      if w != minWeight {
        chunk := TakeColumns(minWeight, w);
        assert Concatenated(b0, minWeight, bits, w, chunk);
        chunkDoneIndex := chunkDoneIndex + 1;
      } else {
        assert Concatenated(b0, minWeight, bits, w, chunk);
      }
      minWeight := w;
    }

    /** The first loop of concatenateLSBColumns: the first column from minWeight on whose height
        exceeds one, or the end of the heap. */
    method CompressedUpTo() returns (w: nat)
      ensures w == FirstTall(bits, minWeight)
    {
      w := minWeight;
      var alreadyCompressed := true;
      while w < |bits| && alreadyCompressed
        invariant minWeight <= w
        invariant minWeight < w ==> w <= |bits|
        invariant forall i :: minWeight <= i < w ==> |bits[i]| <= 1
        invariant !alreadyCompressed ==> w < |bits| && |bits[w]| > 1
        decreases |bits| - w, alreadyCompressed
      {
        if CurrentHeight(w) > 1 {
          alreadyCompressed := false;
        } else {
          w := w + 1;
        }
      }
      FirstTallAt(bits, minWeight, w);
    }

    /** The second loop of concatenateLSBColumns: columns hi-1 down to lo, each holding at most
        one bit, give up their bit (None for an empty column) and are left empty. */
    method TakeColumns(lo: nat, hi: nat) returns (chunk: seq<Option<WeightedBit>>)
      requires Valid() && lo < hi <= maxWeight
      requires forall i :: lo <= i < hi ==> |bits[i]| <= 1
      modifies this
      ensures Valid() && |bits| == |old(bits)|
      ensures forall c :: 0 <= c < |bits| ==> bits[c] == (if lo <= c < hi then [] else old(bits[c]))
      ensures |chunk| == hi - lo
      ensures forall j :: 0 <= j < |chunk| ==> chunk[j] == ColumnBit(old(bits[hi - 1 - j]))
      ensures uid == old(uid) && minWeight == old(minWeight)
      ensures constantBits == old(constantBits) && chunkDoneIndex == old(chunkDoneIndex)
    {
      ghost var b0 := bits;
      chunk := [];
      var i: int := hi - 1;
      while lo <= i
        invariant lo - 1 <= i < hi && |chunk| == hi - 1 - i
        invariant Valid() && |bits| == |b0|
        invariant ClearedAbove(bits, b0, i, hi)
        invariant TakenDown(chunk, b0, hi)
        invariant uid == old(uid) && minWeight == old(minWeight)
        invariant constantBits == old(constantBits) && chunkDoneIndex == old(chunkDoneIndex)
        decreases i + 1
      {
        ghost var before := bits;
        var b := TakeColumn(i);
        ClearStep(before, b0, i, hi);
        TakeStep(chunk, b0, hi, b);
        chunk := chunk + [b];
        i := i - 1;
      }
    }

    /** One column of at most one bit: its bit, if any, is removed with removeBit(i, 0). */
    method TakeColumn(i: nat) returns (b: Option<WeightedBit>)
      requires Valid() && i < maxWeight && |bits[i]| <= 1
      modifies this
      ensures Valid() && bits == old(bits)[i := []]
      ensures b == ColumnBit(old(bits[i]))
      ensures uid == old(uid) && minWeight == old(minWeight)
      ensures constantBits == old(constantBits) && chunkDoneIndex == old(chunkDoneIndex)
    {
      if CurrentHeight(i) == 1 {
        b := Some(bits[i][0]);
        RemoveBit(i, 0);
      } else {
        b := None;
      }
    }

    /** subtractUnsignedBitVector: the complement of each of the size bits of x goes into column
        weight + i (bits beyond maxWeight are ignored), and 2^weight plus the ones from
        weight + size to maxWeight go into the constant; SubtractionIsNegation states what
        this sums to. */
    method SubtractUnsignedBitVector(weight: nat, size: nat, cycle: int, criticalPath: int)
      requires Valid()
      modifies this
      ensures Valid()
      ensures forall c :: 0 <= c < maxWeight ==>
        if weight <= c < weight + size then
          uid[c] == old(uid[c]) + 1
          && bits[c] == Insert(old(bits[c]), WeightedBit(guid, old(uid[c]), c, 1, cycle, criticalPath))
        else uid[c] == old(uid[c]) && bits[c] == old(bits[c])
      ensures constantBits == old(constantBits) + Pow2(weight)
        + (if size + weight < maxWeight then Pow2(maxWeight) - Pow2(size + weight) else 0)
      ensures minWeight == old(minWeight) && chunkDoneIndex == old(chunkDoneIndex)
    {
      var i := 0;
      while i < size
        invariant 0 <= i <= size && Valid()
        invariant forall c :: 0 <= c < maxWeight ==>
          if weight <= c < weight + i then
            uid[c] == old(uid[c]) + 1
            && bits[c] == Insert(old(bits[c]), WeightedBit(guid, old(uid[c]), c, 1, cycle, criticalPath))
          else uid[c] == old(uid[c]) && bits[c] == old(bits[c])
        invariant minWeight == old(minWeight) && chunkDoneIndex == old(chunkDoneIndex)
        invariant constantBits == old(constantBits)
      {
        AddBit(weight + i, 1, cycle, criticalPath);
        i := i + 1;
      }
      constantBits := constantBits + Pow2(weight);
      if size + weight < maxWeight {
        ghost var b1, u1 := bits, uid;
        var j := size + weight;
        while j < maxWeight
          invariant size + weight <= j <= maxWeight
          invariant constantBits == old(constantBits) + Pow2(weight) + Pow2(j) - Pow2(size + weight)
          invariant bits == b1 && uid == u1 && minWeight == old(minWeight) && chunkDoneIndex == old(chunkDoneIndex)
        {
          assert Pow2(j + 1) == 2 * Pow2(j);
          constantBits := constantBits + Pow2(j);
          j := j + 1;
        }
      }
    }
  }

  /** The scan of concatenateLSBColumns stops where FirstTall does. */
  lemma FirstTallAt(bits: seq<seq<WeightedBit>>, from: nat, w: nat)
    requires from <= w && (from < w ==> w <= |bits|)
    requires forall i :: from <= i < w ==> |bits[i]| <= 1
    requires w < |bits| ==> |bits[w]| > 1
    requires w >= |bits| ==> w == from || w == |bits|
    ensures FirstTall(bits, from) == w
    decreases w - from
  {
    if from < w {
      FirstTallAt(bits, from + 1, w);
    }
  }
}
