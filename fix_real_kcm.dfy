/** The integer side of the KCM multiplier by a real constant (src/ConstMult/FixRealKCMBH.cpp):
    how the input is cut into table addresses, how many guard bits the tables need, and how a
    table entry is decoded from and re-encoded into two's complement. The constant itself, its
    MPFR evaluation and the rounding of the products are not modelled: a table entry takes the
    rounded product as a parameter. */
module FixRealKcm {
  import opened Bits

  // ---------------------------------------------------------------- the input split

  /** The split of the constructor and of neededGuardBits: a first digit of lutWidth bits, then
      digits of lutWidth - 1 bits (the tools pack a LUT and an addition together), the last one
      holding what is left. A last digit of at most lutWidth/2 bits is merged into digit 1 and the
      digits after it are recomputed. The merge only happens when there is a digit before the last
      one; see SplitAsWritten for the source, which also merges a lone first digit into the unset
      diSize[1]. The source's buffer holds 714 entries; here it is sized to the input. */
  method Split(wIn: int, lutWidth: int) returns (diSize: array<int>, nbOfTables: nat)
    requires lutWidth >= 2
    ensures nbOfTables <= diSize.Length && diSize[..nbOfTables] == Layout(wIn, lutWidth)
    ensures SplitShape(diSize[..nbOfTables], wIn, lutWidth)
  {
    diSize := new int[if wIn > 2 then wIn + 1 else 3];
    diSize[0] := lutWidth;
    assert diSize[..1] == [lutWidth];
    var currentSize, counter := FillDigits(diSize, wIn, lutWidth, 1, diSize[0]);
    ghost var filled := diSize[..];
    nbOfTables := counter;
    counter := counter - 1;
    SetLast(diSize, counter, wIn, currentSize);
    if counter >= 1 && diSize[counter] <= lutWidth / 2 {
      // Better to move the remaining bits to the first tables than to have them in a new table.
      MulOrder(0, counter - 1, lutWidth - 1);
      MergeReady(diSize[..], filled, counter, wIn, lutWidth, currentSize);
      nbOfTables := MergeLast(diSize, wIn, lutWidth, counter);
    } else {
      if counter >= 1 {
        MulOrder(0, counter - 1, lutWidth - 1);
      }
      FirstPassShape(diSize[..nbOfTables], wIn, lutWidth);
      if counter >= 1 {
        FirstPassLayout(diSize[..nbOfTables], wIn, lutWidth, counter, diSize[counter]);
      } else {
        assert diSize[..nbOfTables] == [wIn];
      }
    }
  }

  /** The digits after the first one as the first pass lays them out: rest bits cut into
      digits of m bits, the last one taking what is left. */
  function Digits(rest: int, m: int): (t: seq<int>)
    requires m >= 1
    ensures |t| >= 1
    decreases rest
  {
    if rest <= m then [rest] else [m] + Digits(rest - m, m)
  }

  /** k digits of m bits. */
  function Full(k: nat, m: int): (f: seq<int>)
    ensures |f| == k && forall j :: 0 <= j < k ==> f[j] == m
  {
    if k == 0 then [] else Full(k - 1, m) + [m]
  }

  /** The split the source computes: one digit when the input fits one table; otherwise a
      first digit of lutWidth bits, then the first pass's digits, unless the last of them r has
      at most lutWidth/2 bits and one comes before it: then r is added to digit 1 and the digits
      after it are one fewer. */
  function Layout(wIn: int, lutWidth: int): seq<int>
    requires lutWidth >= 2
  {
    if wIn <= lutWidth then [wIn]
    else
      var t := Digits(wIn - lutWidth, lutWidth - 1);
      var r := t[|t| - 1];
      if |t| == 1 || r > lutWidth / 2 then [lutWidth] + t
      else [lutWidth, lutWidth - 1 + r] + Full(|t| - 2, lutWidth - 1)
  }

  /** Every layout meets the split's promise. */
  lemma LayoutShape(wIn: int, lutWidth: int)
    requires lutWidth >= 2
    ensures SplitShape(Layout(wIn, lutWidth), wIn, lutWidth)
  {
    if wIn > lutWidth {
      var t := Digits(wIn - lutWidth, lutWidth - 1);
      DigitsSum(wIn - lutWidth, lutWidth - 1);
      if |t| == 1 || t[|t| - 1] > lutWidth / 2 {
        KeptShape(t, wIn, lutWidth);
      } else {
        MovedShape(|t|, t[|t| - 1], wIn, lutWidth);
      }
    }
  }

  /** The first pass's digits t after the first one, when the last is kept. */
  lemma KeptShape(t: seq<int>, wIn: int, lutWidth: int)
    requires lutWidth >= 2 && wIn > lutWidth && |t| >= 1 && Sum(t) == wIn - lutWidth
    requires 1 <= t[|t| - 1] <= lutWidth - 1 && forall j :: 0 <= j < |t| - 1 ==> t[j] == lutWidth - 1
    requires |t| == 1 || t[|t| - 1] > lutWidth / 2
    ensures SplitShape([lutWidth] + t, wIn, lutWidth)
  {
    SumCons(lutWidth, t);
    if t[|t| - 1] > lutWidth / 2 {
      FirstPassShape([lutWidth] + t, wIn, lutWidth);
    } else {
      MergedShape([lutWidth] + t, wIn, lutWidth, t[0], 1);
    }
  }

  /** The first pass ended on digit c >= 2 with r bits, which are moved into digit 1. */
  lemma MovedShape(c: nat, r: int, wIn: int, lutWidth: int)
    requires lutWidth >= 2 && c >= 2 && 1 <= r <= lutWidth / 2 && wIn - lutWidth == Mul(c - 1, lutWidth - 1) + r
    ensures SplitShape([lutWidth, lutWidth - 1 + r] + Full(c - 2, lutWidth - 1), wIn, lutWidth)
  {
    var d := [lutWidth, lutWidth - 1 + r] + Full(c - 2, lutWidth - 1);
    MovedSum(c, r, lutWidth);
    MovedDigits(d, lutWidth, r, c);
    MergedShape(d, wIn, lutWidth, r, c);
  }

  /** The merged digits sum to what the first pass's digits cover. */
  lemma MovedSum(c: nat, r: int, lutWidth: int)
    requires c >= 2
    ensures Sum([lutWidth, lutWidth - 1 + r] + Full(c - 2, lutWidth - 1)) == lutWidth + Mul(c - 1, lutWidth - 1) + r
  {
    SumFull(c - 2, lutWidth - 1);
    SumFrontTwo(lutWidth, lutWidth - 1 + r, Full(c - 2, lutWidth - 1));
  }

  /** The digits after the merge of r into digit 1, the first pass having ended on digit c. */
  lemma MovedDigits(d: seq<int>, lutWidth: int, r: int, c: nat)
    requires c >= 2 && d == [lutWidth, lutWidth - 1 + r] + Full(c - 2, lutWidth - 1)
    ensures Merged(d, lutWidth, r, c)
  {
  }

  /** k digits of m bits sum to k times m. */
  lemma {:induction false} SumFull(k: nat, m: int)
    ensures Sum(Full(k, m)) == Mul(k, m)
  {
    if k > 0 {
      SumFull(k - 1, m);
      assert (Full(k - 1, m) + [m])[..k - 1] == Full(k - 1, m);
    }
  }

  /** Two digits put in front add to the sum. */
  lemma SumFrontTwo(x: int, a: int, u: seq<int>)
    ensures Sum([x, a] + u) == x + a + Sum(u)
  {
    SumCons(a, u);
    SumCons(x, [a] + u);
    assert [x, a] + u == [x] + ([a] + u);
  }

  /** With 6-input LUTs an 18-bit input is cut 6, 7, 5: the 2-bit last digit of the first pass
      6, 5, 5, 2 goes into digit 1. */
  lemma LayoutExample()
    ensures Layout(18, 6) == [6, 7, 5]
  {
    assert Digits(12, 5) == [5, 5, 2] by {
      assert Digits(2, 5) == [2];
      assert Digits(7, 5) == [5, 2];
    }
    assert Full(1, 5) == [5] by {
      assert Full(0, 5) == [];
    }
  }

  /** The first digit put in front adds to the sum. */
  lemma {:induction false} SumCons(x: int, t: seq<int>)
    ensures Sum([x] + t) == x + Sum(t)
    decreases |t|
  {
    if t == [] {
      assert [x] + t == [x];
      assert [x][..0] == [];
    } else {
      SumCons(x, t[..|t| - 1]);
      assert ([x] + t)[..|t|] == [x] + t[..|t| - 1];
    }
  }

  /** The first pass's digits sum to what they cut: full digits, and a last one of 1 to m bits. */
  lemma {:induction false} DigitsSum(rest: int, m: int)
    requires m >= 1 && rest >= 1
    ensures var t := Digits(rest, m); Sum(t) == rest && 1 <= t[|t| - 1] <= m
    ensures var t := Digits(rest, m); rest == Mul(|t| - 1, m) + t[|t| - 1]
    ensures var t := Digits(rest, m); forall j :: 0 <= j < |t| - 1 ==> t[j] == m
    decreases rest
  {
    var t := Digits(rest, m);
    if rest <= m {
      assert t == [rest];
      assert t[..0] == [];
    } else {
      DigitsSum(rest - m, m);
      SumCons(m, Digits(rest - m, m));
    }
  }

  /** k full digits of m bits and a last one of r bits. */
  lemma {:induction false} DigitsOf(k: nat, m: int, r: int)
    requires m >= 1 && 1 <= r <= m
    ensures var t := Digits(Mul(k, m) + r, m); |t| == k + 1 && t[k] == r && forall j :: 0 <= j < k ==> t[j] == m
  {
    if k > 0 {
      DigitsOf(k - 1, m, r);
      assert Mul(k, m) + r - m == Mul(k - 1, m) + r;
    }
  }

  /** The digits of the first pass, when they are not merged, are the layout. */
  lemma FirstPassLayout(d: seq<int>, wIn: int, lutWidth: int, c: nat, r: int)
    requires lutWidth >= 2 && c >= 1 && 1 <= r <= lutWidth - 1 && wIn == lutWidth + Mul(c - 1, lutWidth - 1) + r
    requires c == 1 || r > lutWidth / 2
    requires |d| == c + 1 && d[0] == lutWidth && d[c] == r && forall k :: 1 <= k < c ==> d[k] == lutWidth - 1
    ensures d == Layout(wIn, lutWidth)
  {
    DigitsOf(c - 1, lutWidth - 1, r);
    var t := Digits(wIn - lutWidth, lutWidth - 1);
    assert d == [lutWidth] + t by {
      forall k | 1 <= k <= c
        ensures d[k] == t[k - 1]
      {
      }
    }
  }

  /** The digits after a merge are the layout. */
  lemma MergedLayout(d: seq<int>, wIn: int, lutWidth: int, c: nat, r: int)
    requires lutWidth >= 2 && c >= 1 && 1 <= r <= lutWidth / 2 && wIn == lutWidth + Mul(c - 1, lutWidth - 1) + r
    requires Merged(d, lutWidth, r, c)
    ensures d == Layout(wIn, lutWidth)
  {
    if c == 1 {
      FirstPassLayout(d, wIn, lutWidth, c, r);
    } else {
      MovedLayout(wIn, lutWidth, c, r);
      MergedIsMoved(d, lutWidth, r, c);
    }
  }

  /** The layout when the first pass ends on digit c >= 2 with r <= lutWidth/2 bits. */
  lemma MovedLayout(wIn: int, lutWidth: int, c: nat, r: int)
    requires lutWidth >= 2 && c >= 2 && 1 <= r <= lutWidth / 2 && wIn == lutWidth + Mul(c - 1, lutWidth - 1) + r
    ensures Layout(wIn, lutWidth) == [lutWidth, lutWidth - 1 + r] + Full(c - 2, lutWidth - 1)
  {
    DigitsOf(c - 1, lutWidth - 1, r);
  }

  /** Merged digits are the first two followed by full digits. */
  lemma MergedIsMoved(d: seq<int>, lutWidth: int, r: int, c: nat)
    requires c >= 2 && Merged(d, lutWidth, r, c)
    ensures d == [lutWidth, lutWidth - 1 + r] + Full(c - 2, lutWidth - 1)
  {
    var e := [lutWidth, lutWidth - 1 + r] + Full(c - 2, lutWidth - 1);
    forall k | 2 <= k < c
      ensures d[k] == e[k]
    {
    }
  }

  /** The digits after the merge of the last digit r of a first pass that ended on digit c:
      [lutWidth, r] when c is 1, otherwise c digits, digit 1 holding lutWidth - 1 + r bits and
      the ones after it lutWidth - 1. */
  predicate Merged(d: seq<int>, lutWidth: int, r: int, c: nat)
  {
    && |d| >= 2 && d[0] == lutWidth
    && (c == 1 ==> |d| == 2 && d[1] == r)
    && (c >= 2 ==> |d| == c && d[1] == lutWidth - 1 + r && forall k :: 2 <= k < |d| ==> d[k] == lutWidth - 1)
  }

  /** After the first pass and the setting of its last digit c: the digits the merge starts
      from, with wIn written in terms of them. */
  lemma MergeReady(d: seq<int>, filled: seq<int>, c: nat, wIn: int, lutWidth: int, currentSize: int)
    requires lutWidth >= 2 && 1 <= c < |d| == |filled| && d[..c] == filled[..c]
    requires filled[0] == lutWidth && forall k :: 1 <= k <= c ==> filled[k] == lutWidth - 1
    requires d[c] == wIn - (currentSize - filled[c]) && d[c] <= lutWidth / 2
    requires currentSize == lutWidth + Mul(c, lutWidth - 1) && currentSize - (lutWidth - 1) < wIn
    ensures d[0] == lutWidth && forall k :: 1 <= k < c ==> d[k] == lutWidth - 1
    ensures 1 <= d[c] <= lutWidth / 2 && wIn == lutWidth + Mul(c - 1, lutWidth - 1) + d[c]
  {
    assert forall k :: 0 <= k < c ==> d[k] == d[..c][k];
  }

  /** What the split promises: the digits sum to wIn; an input that fits one LUT is one digit;
      otherwise the first digit has lutWidth bits, digit 1 at least lutWidth - 1 and at most
      lutWidth - 1 + lutWidth/2 (when it took the merged bits), the digits between it and the
      last lutWidth - 1 each, every digit at least one bit, and a last digit of three or more is
      full or more than half full. */
  predicate SplitShape(d: seq<int>, wIn: int, lutWidth: int)
  {
    && |d| >= 1 && Sum(d) == wIn
    && (wIn <= lutWidth ==> |d| == 1 && d[0] == wIn)
    && (wIn > lutWidth ==> |d| >= 2 && d[0] == lutWidth)
    && (forall k :: 1 <= k < |d| ==> 1 <= d[k] <= if k == 1 then lutWidth - 1 + lutWidth / 2 else lutWidth - 1)
    && (forall k :: 1 <= k < |d| - 1 ==> d[k] >= lutWidth - 1)
    && (forall k :: 2 <= k < |d| - 1 ==> d[k] == lutWidth - 1)
    && (|d| >= 3 ==> d[|d| - 1] > lutWidth / 2 || d[|d| - 1] == lutWidth - 1)
  }

  /** The first pass alone, when its last digit is not merged. */
  lemma FirstPassShape(d: seq<int>, wIn: int, lutWidth: int)
    requires lutWidth >= 2 && |d| >= 1 && Sum(d) == wIn
    requires |d| == 1 ==> d[0] == wIn && wIn <= lutWidth
    requires |d| >= 2 ==> d[0] == lutWidth && wIn > lutWidth && 1 <= d[|d| - 1] <= lutWidth - 1 && d[|d| - 1] > lutWidth / 2
    requires forall k :: 1 <= k < |d| - 1 ==> d[k] == lutWidth - 1
    ensures SplitShape(d, wIn, lutWidth)
  {
  }

  /** The merge and the second pass: the last digit c (at most lutWidth/2 bits) is added into
      digit 1 and the digits from 2 on are laid out again. */
  method MergeLast(diSize: array<int>, wIn: int, lutWidth: int, c: nat) returns (nbOfTables: nat)
    requires lutWidth >= 2 && 1 <= c < diSize.Length && wIn < diSize.Length
    requires diSize[0] == lutWidth && forall k :: 1 <= k < c ==> diSize[k] == lutWidth - 1
    requires 1 <= diSize[c] <= lutWidth / 2 && Sum(diSize[..c + 1]) == wIn
    requires wIn == lutWidth + Mul(c - 1, lutWidth - 1) + diSize[c]
    modifies diSize
    ensures nbOfTables <= diSize.Length && diSize[..nbOfTables] == Layout(wIn, lutWidth)
    ensures SplitShape(diSize[..nbOfTables], wIn, lutWidth)
  {
    ghost var r := diSize[c];
    ghost var first := if c == 1 then 2 * r else lutWidth - 1 + r;
    MergeArith(c, lutWidth - 1, wIn, lutWidth, r);
    diSize[1] := diSize[1] + diSize[c];
    assert diSize[1] == first;
    var currentSize := diSize[0] + diSize[1];
    SumTwo(diSize[..]);
    assert diSize[..][..2] == diSize[..2];
    nbOfTables := SecondPass(diSize, wIn, lutWidth, c, r, currentSize);
    MergedLayout(diSize[..nbOfTables], wIn, lutWidth, c, r);
  }

  /** The second pass after the merge: digits of lutWidth - 1 bits from digit 2 on until wIn is
      covered, then the last digit set to what is left. */
  method SecondPass(diSize: array<int>, wIn: int, lutWidth: int, ghost c: nat, ghost r: int, start: int) returns (nbOfTables: nat)
    requires lutWidth >= 2 && 1 <= r <= lutWidth / 2 && c >= 1 && 2 < diSize.Length && wIn < diSize.Length
    requires diSize[0] == lutWidth && diSize[1] == (if c == 1 then 2 * r else lutWidth - 1 + r)
    requires start == diSize[0] + diSize[1] && Sum(diSize[..2]) == start
    requires c >= 2 ==> wIn - start == Mul(c - 2, lutWidth - 1)
    requires c == 1 ==> wIn == lutWidth + r
    modifies diSize
    ensures nbOfTables <= diSize.Length && Merged(diSize[..nbOfTables], lutWidth, r, c)
    ensures SplitShape(diSize[..nbOfTables], wIn, lutWidth)
  {
    var currentSize, counter := FillDigits(diSize, wIn, lutWidth, 2, start);
    ghost var filled := diSize[..];
    if c >= 2 {
      CounterMatches(c, counter, lutWidth - 1, wIn, currentSize, start);
    } else {
      NoSecondPass(counter, lutWidth - 1, wIn, currentSize, start);
    }
    nbOfTables := counter;
    counter := counter - 1;
    SetLast(diSize, counter, wIn, currentSize);
    assert diSize[..nbOfTables][..counter] == diSize[..counter];
    MergeDone(diSize[..nbOfTables], filled, wIn, lutWidth, currentSize, r, c);
  }

  /** What the second pass has left to cover after the merge: for c >= 2, c - 2 digits of m
      bits; for c = 1, the merged digit already covers wIn with r bits to spare. */
  lemma MergeArith(c: nat, m: int, wIn: int, lutWidth: int, r: int)
    requires c >= 1 && wIn == lutWidth + Mul(c - 1, m) + r
    ensures c >= 2 ==> wIn - (lutWidth + m + r) == Mul(c - 2, m)
    ensures c == 1 ==> wIn == lutWidth + r
  {
  }

  /** The first two digits sum to their sum. */
  lemma SumTwo(s: seq<int>)
    requires |s| >= 2
    ensures Sum(s[..2]) == s[0] + s[1]
  {
    SumPrefix(s, 1);
    SumPrefix(s, 0);
    assert s[..0] == [];
  }

  /** A pass that starts at or past wIn adds no digit. */
  lemma NoSecondPass(counter: nat, m: int, wIn: int, current: int, current0: int)
    requires m >= 1 && counter >= 2 && current0 >= wIn
    requires current == current0 + Mul(counter - 2, m) && (counter > 2 ==> current - m < wIn)
    ensures counter == 2 && current == current0
  {
  }

  /** The digits after the merge, the second pass and the setting of the last digit, from the
      digits `filled` the second pass left. */
  lemma MergeDone(d: seq<int>, filled: seq<int>, wIn: int, lutWidth: int, currentSize: int, r: int, c: nat)
    requires lutWidth >= 2 && 1 <= r <= lutWidth / 2 && c >= 1 && 2 <= |d| <= |filled|
    requires d[..|d| - 1] == filled[..|d| - 1] && d[|d| - 1] == wIn - (currentSize - filled[|d| - 1])
    requires Sum(d) == wIn && wIn > lutWidth
    requires filled[0] == lutWidth && filled[1] == (if c == 1 then 2 * r else lutWidth - 1 + r)
    requires forall k :: 2 <= k < |d| ==> filled[k] == lutWidth - 1
    requires c == 1 ==> currentSize == lutWidth + 2 * r && wIn == lutWidth + r && |d| == 2
    requires c >= 2 ==> |d| == c && currentSize == wIn
    ensures Merged(d, lutWidth, r, c)
    ensures SplitShape(d, wIn, lutWidth)
  {
    assert d[0] == d[..|d| - 1][0];
    forall k | 1 <= k < |d| - 1
      ensures d[k] == filled[k]
    {
      assert d[k] == d[..|d| - 1][k];
    }
    MergedShape(d, wIn, lutWidth, r, c);
  }

  /** The second pass stops at the digit the first pass ended on, with the digits summing to wIn
      exactly. */
  lemma CounterMatches(c: nat, counter: nat, m: int, wIn: int, current: int, current0: int)
    requires m >= 1 && c >= 2 && counter >= 2
    requires wIn - current0 == Mul(c - 2, m) && current == current0 + Mul(counter - 2, m)
    requires current >= wIn && (counter > 2 ==> current - m < wIn)
    ensures counter == c && current == wIn
  {
    MulOrder(counter - 2, c - 2, m);
    MulOrder(c - 2, counter - 2, m);
    if counter > 2 {
      MulOrder(counter - 3, c - 2, m);
      assert Mul(counter - 2, m) == Mul(counter - 3, m) + m;
    }
  }

  /** The layout after a merge meets the split's promise. */
  lemma MergedShape(d: seq<int>, wIn: int, lutWidth: int, r: int, c: nat)
    requires lutWidth >= 2 && 1 <= r <= lutWidth / 2 && |d| >= 2 && Sum(d) == wIn && wIn > lutWidth
    requires d[0] == lutWidth && c >= 1
    requires c == 1 ==> |d| == 2 && d[1] == r
    requires c >= 2 ==> d[1] == lutWidth - 1 + r && forall k :: 2 <= k < |d| ==> d[k] == lutWidth - 1
    ensures SplitShape(d, wIn, lutWidth)
  {
  }

  /** The while loop of the split, run from digit `start` with the digits before it summing to
      currentSize0: digits of lutWidth - 1 bits are appended until they cover wIn. */
  method FillDigits(diSize: array<int>, wIn: int, lutWidth: int, start: nat, currentSize0: int)
    returns (currentSize: int, counter: nat)
    requires lutWidth >= 2 && 1 <= start <= currentSize0 && start < diSize.Length && wIn < diSize.Length
    requires Sum(diSize[..start]) == currentSize0
    modifies diSize
    ensures start <= counter <= currentSize && counter < diSize.Length
    ensures diSize[..start] == old(diSize[..start])
    ensures forall k :: start <= k < counter ==> diSize[k] == lutWidth - 1
    ensures Sum(diSize[..counter]) == currentSize && currentSize >= wIn
    ensures currentSize == currentSize0 + Mul(counter - start, lutWidth - 1)
    ensures counter > start ==> currentSize - (lutWidth - 1) < wIn
  {
    currentSize, counter := currentSize0, start;
    while currentSize < wIn
      invariant start <= counter <= currentSize && counter < diSize.Length
      invariant diSize[..start] == old(diSize[..start])
      invariant forall k :: start <= k < counter ==> diSize[k] == lutWidth - 1
      invariant Sum(diSize[..counter]) == currentSize
      invariant currentSize == currentSize0 + Mul(counter - start, lutWidth - 1)
      invariant counter > start ==> currentSize - (lutWidth - 1) < wIn
      decreases wIn - currentSize
    {
      ghost var prefix := diSize[..counter];
      diSize[counter] := lutWidth - 1;
      assert diSize[..counter] == prefix;
      assert diSize[..start] == prefix[..start];
      SumPrefix(diSize[..], counter);
      assert diSize[..][..counter + 1] == diSize[..counter + 1];
      currentSize := currentSize + diSize[counter];
      counter := counter + 1;
    }
  }

  /** diSize[counter] = wIn - (currentSize - diSize[counter]): the last digit takes what is left,
      so the digits sum to wIn. */
  method SetLast(diSize: array<int>, counter: nat, wIn: int, currentSize: int)
    requires counter < diSize.Length && Sum(diSize[..counter + 1]) == currentSize
    modifies diSize
    ensures diSize[..counter] == old(diSize[..counter]) && diSize[counter + 1..] == old(diSize[counter + 1..])
    ensures diSize[counter] == wIn - (currentSize - old(diSize[counter]))
    ensures Sum(diSize[..counter + 1]) == wIn
  {
    SumPrefix(old(diSize[..]), counter);
    assert old(diSize[..])[..counter + 1] == old(diSize[..counter + 1]);
    assert old(diSize[..])[..counter] == old(diSize[..counter]);
    diSize[counter] := wIn - (currentSize - diSize[counter]);
    SumPrefix(diSize[..], counter);
    assert diSize[..][..counter + 1] == diSize[..counter + 1];
    assert diSize[..][..counter] == diSize[..counter];
  }

  /** Mul is strictly increasing in the count. */
  lemma {:induction false} MulOrder(k1: nat, k2: nat, m: int)
    requires m >= 1
    ensures k1 < k2 ==> Mul(k1, m) + m <= Mul(k2, m)
  {
    if k1 < k2 {
      if k1 + 1 < k2 {
        MulOrder(k1, k2 - 1, m);
      }
    }
  }

  /** The loop of the split on its own: from currentSize, add step-bit digits until wIn is
      covered; the result is the final size and digit counter. */
  function Pass(wIn: int, step: int, currentSize: int, counter: int): (r: (int, int))
    requires step >= 1
    ensures r.1 >= counter
    decreases wIn - currentSize
  {
    if currentSize < wIn then Pass(wIn, step, currentSize + step, counter + 1) else (currentSize, counter)
  }

  /** nbOfTables as the source computes it, with `unset` standing for whatever diSize[1] holds
      before it is written: the merge also runs when the only digit is the first one, and then
      adds into diSize[1], which was never set. */
  function SplitAsWritten(wIn: int, lutWidth: int, unset: int): (nbOfTables: int)
    requires lutWidth >= 2
  {
    var (current, count) := Pass(wIn, lutWidth - 1, lutWidth, 1);
    var last := count - 1;
    var dLast := wIn - (current - if last == 0 then lutWidth else lutWidth - 1);
    if dLast <= lutWidth / 2 then
      var d1 := (if last == 0 then unset else if last == 1 then dLast else lutWidth - 1) + dLast;
      var d0 := if last == 0 then dLast else lutWidth;
      Pass(wIn, lutWidth - 1, d0 + d1, 2).1
    else count
  }

  /** As written, an input of at most lutWidth/2 bits, which fits one table, is counted as at
      least two tables, and how many depends on the unset entry: with 6-input LUTs and a 2-bit
      input, an unset entry of 0 gives 2 tables and one of -10 gives 4. */
  lemma UnsetDigitCounted(wIn: int, lutWidth: int, unset: int)
    requires lutWidth >= 2 && wIn <= lutWidth / 2
    ensures SplitAsWritten(wIn, lutWidth, unset) >= 2
  {
    assert Pass(wIn, lutWidth - 1, lutWidth, 1) == (lutWidth, 1);
  }

  /** With 6-input LUTs and a 2-bit input, an unset entry of 0 gives 2 tables and one of -10
      gives 4, where a single table is meant. */
  lemma UnsetDigitExample()
    ensures SplitAsWritten(2, 6, 0) == 2 && SplitAsWritten(2, 6, -10) == 4
  {
    assert Pass(2, 5, 6, 1) == (6, 1);
    assert Pass(2, 5, 4, 2) == (4, 2);
    assert Pass(2, 5, 4, 4) == (4, 4);
    assert Pass(2, 5, -1, 3) == Pass(2, 5, 4, 4);
    assert Pass(2, 5, -6, 2) == Pass(2, 5, -1, 3);
  }

  // ---------------------------------------------------------------- guard bits

  /** ceil(log2(n)) for n >= 1. */
  function CeilLog2(n: nat): (r: nat)
    requires n >= 1
    ensures n <= Pow2(r) && (r >= 1 ==> Pow2(r - 1) < n)
  {
    BitLenBounds(n - 1);
    BitLen(n - 1)
  }

  /** neededGuardBits for a target error of 1/2 + 2^-k ulps (one ulp is k = 1): none for at
      most two tables when the target is one ulp (two correctly rounded tables sum faithfully),
      otherwise ceil(log2(nbOfTables / ((targetUlpError - 1/2) 2^-lsbOut))) - 1 - lsbOut, which
      is ceil(log2(nbOfTables)) + k - 1 whatever lsbOut: the nbOfTables half-ulp errors of the
      tables then stay below 2^-k ulps of the result. */
  method NeededGuardBits(wIn: int, lutWidth: int, k: nat) returns (g: int, nbOfTables: nat)
    requires lutWidth >= 2
    ensures nbOfTables == |Layout(wIn, lutWidth)| >= 1
    ensures k == 1 && nbOfTables <= 2 ==> g == 0
    ensures !(k == 1 && nbOfTables <= 2) ==>
      g + 1 - k >= 0 && nbOfTables <= Pow2(g + 1 - k) && (g - k >= 0 ==> Pow2(g - k) < nbOfTables)
    ensures k == 1 && wIn < 2 * lutWidth ==> g == 0
  {
    var diSize;
    diSize, nbOfTables := Split(wIn, lutWidth);
    ShapeCount(diSize[..nbOfTables], wIn, lutWidth);
    if nbOfTables <= 2 && k == 1 {
      g := 0;
    } else {
      g := CeilLog2(nbOfTables) + k - 1;
    }
  }

  /** A split has at least one digit, and at most two below 2*lutWidth bits. */
  lemma ShapeCount(d: seq<int>, wIn: int, lutWidth: int)
    requires SplitShape(d, wIn, lutWidth)
    ensures |d| >= 1 && (wIn < 2 * lutWidth ==> |d| <= 2)
  {
    ShapeWidth(d, wIn, lutWidth);
  }

  /** Three or more digits cover at least 2*lutWidth bits. */
  lemma ShapeWidth(d: seq<int>, wIn: int, lutWidth: int)
    requires SplitShape(d, wIn, lutWidth)
    ensures |d| >= 3 ==> wIn >= 2 * lutWidth
  {
    if |d| >= 3 {
      SumLowerBound(d, 0, lutWidth);
      SumLowerBound(d, 1, lutWidth);
      SumTail(d, 2);
    }
  }

  /** Sum of the prefixes: the first n digits sum to at least their first one plus one per
      further digit when every digit after the first has a bit. */
  lemma {:induction false} SumLowerBound(d: seq<int>, n: nat, lutWidth: int)
    requires n < |d| && forall k :: 1 <= k < |d| ==> 1 <= d[k]
    ensures Sum(d[..n + 1]) == Sum(d[..n]) + d[n]
    ensures n == 0 ==> Sum(d[..1]) == d[0]
  {
    SumPrefix(d, n);
    assert d[..0] == [];
  }

  /** The digits after the first n sum to at least their number. */
  lemma {:induction false} SumTail(d: seq<int>, n: nat)
    requires 1 <= n <= |d| && forall k :: 1 <= k < |d| ==> 1 <= d[k]
    ensures n < |d| ==> Sum(d) >= Sum(d[..n]) + (|d| - n)
    decreases |d| - n
  {
    if n < |d| {
      SumTail(d, n + 1);
      SumPrefix(d, n);
      if n + 1 == |d| {
        assert d[..n + 1] == d;
      }
    }
  }

  // ---------------------------------------------------------------- the tables

  /** The architecture: a single correctly rounded table when the input has at most
      lutWidth + 1 bits, otherwise one table per digit of the split. */
  predicate SingleTable(wIn: int, lutWidth: int)
  {
    wIn <= lutWidth + 1
  }

  /** The generic architecture always has at least two tables to add. */
  method TableCount(wIn: int, lutWidth: int) returns (single: bool, nbOfTables: nat)
    requires lutWidth >= 2
    ensures single <==> SingleTable(wIn, lutWidth)
    ensures single ==> nbOfTables == 1
    ensures !single ==> nbOfTables >= 2
  {
    single := wIn <= lutWidth + 1;
    if single {
      nbOfTables := 1;
    } else {
      var diSize;
      diSize, nbOfTables := Split(wIn, lutWidth);
    }
  }

  /** The digit a table address stands for: a one-bit address as it is, otherwise the address
      read in two's complement when the input is signed. */
  function TableDigit(x0: int, wIn: nat, signedInput: bool): int
  {
    if wIn < 2 then x0
    else if signedInput && x0 > Pow2(wIn - 1) - 1 then x0 - Pow2(wIn)
    else x0
  }

  /** The decoded digit is the two's-complement value of the address, so it agrees with the
      address modulo 2^wIn and lies in the signed range. */
  lemma TableDigitSigned(x0: int, wIn: nat)
    requires 2 <= wIn && 0 <= x0 < Pow2(wIn)
    ensures TableDigit(x0, wIn, true) == SignedValue(x0, wIn)
    ensures -(Pow2(wIn - 1) as int) <= TableDigit(x0, wIn, true) < Pow2(wIn - 1)
    ensures TableDigit(x0, wIn, true) % Pow2(wIn) == x0
  {
    SignedValueRange(x0, wIn);
  }

  /** FixRealKCMBHTable::function, given the correctly rounded scaled product of the digit by the
      constant: for a signed input whose digit is negative, 2^wOut is added to give the two's
      complement pattern back. */
  function TableValue(x0: int, wIn: nat, wOut: nat, signedInput: bool, product: int): (v: int)
    ensures v == product || v == product + Pow2(wOut)
    ensures 0 <= x0 < Pow2(wIn) ==> (v != product <==> wIn >= 2 && signedInput && TableDigit(x0, wIn, signedInput) < 0)
  {
    if wIn >= 2 && signedInput && x0 > Pow2(wIn - 1) - 1 then product + Pow2(wOut) else product
  }

  /** A negative product of at most wOut bits becomes its wOut-bit two's-complement pattern. */
  lemma TableValueEncodes(x0: int, wIn: nat, wOut: nat, product: int)
    requires 2 <= wIn && 0 <= x0 < Pow2(wIn) && x0 >= Pow2(wIn - 1) && -(Pow2(wOut) as int) <= product < 0
    ensures 0 <= TableValue(x0, wIn, wOut, true, product) < Pow2(wOut)
    ensures TableValue(x0, wIn, wOut, true, product) % Pow2(wOut) == product % Pow2(wOut)
  {
    DivAddMultiple(product, 1, Pow2(wOut));
  }
}
