/** The older integer multiplier of src/IntMultiplier.cpp. It shares the guard-bit loop and the
    emulate arithmetic with module IntMult, but differs in its interface: wOut is validated and
    defaulted inside initialize, guard bits are zero exactly for the untruncated product, and its
    small multiplication table wraps negative products with the output width. */
module IntMultiplierLegacy {
  import opened Bits
  import opened Results
  import IntMult

  /** neededGuardBits of this version: no tabulation test, and the loop runs unless wOut == wX+wY. */
  method NeededGuardBits(wX: int, wY: int, wOut: int) returns (g: int)
    ensures g == 0 <==> wX + wY == wOut
    ensures wOut < wX + wY ==> IntMult.IsGuardBits(wX, wY, wOut, g)
    ensures wOut > wX + wY ==> g == wX + wY - wOut
  {
    if wX + wY == wOut {
      g := 0;
    } else {
      var i := IntMult.UlpSearch(wX + wY - wOut);
      g := wX + wY - i - wOut;
    }
  }

  /** The widths a successful initialize leaves: consistent with the declared ones, and wY <= wX
      with the operands swapped exactly when wYdecl > wXdecl. */
  predicate Consistent(wXdecl: int, wYdecl: int, wFull: int, wOut: int, wTruncated: int, g: int, weightShift: int, wX: int, wY: int)
  {
    && 0 <= wXdecl && 0 <= wYdecl
    && wFull == wXdecl + wYdecl
    && 0 <= wOut <= wFull
    && wTruncated == wFull - wOut
    && (g == 0 <==> wTruncated == 0)
    && (wTruncated > 0 ==> IntMult.IsGuardBits(wXdecl, wYdecl, wOut, g))
    && weightShift == wFull - (wOut + g)
    && wY <= wX
    && (if wYdecl > wXdecl then wX == wYdecl && wY == wXdecl else wX == wXdecl && wY == wYdecl)
  }

  /** The widths initialize derives from validated sizes and the guard bits for them. */
  lemma Configured(wXdecl: int, wYdecl: int, out: int, guard: int)
    requires 0 <= wXdecl && 0 <= wYdecl && 0 <= out <= wXdecl + wYdecl
    requires guard == 0 <==> wXdecl + wYdecl == out
    requires out < wXdecl + wYdecl ==> IntMult.IsGuardBits(wXdecl, wYdecl, out, guard)
    ensures var wFull := wXdecl + wYdecl;
      Consistent(wXdecl, wYdecl, wFull, out, wFull - out, guard, wFull - (out + guard),
        if wYdecl > wXdecl then wYdecl else wXdecl, if wYdecl > wXdecl then wXdecl else wYdecl)
  {
  }

  /** The operator state that initialize fills in. */
  class IntMultiplier {
    var wXdecl: int
    var wYdecl: int
    var wOut: int
    var signedIO: bool
    var wFull: int
    var wTruncated: int
    var g: int
    var weightShift: int
    var wX: int
    var wY: int

    constructor (wXdecl: int, wYdecl: int, wOut: int, signedIO: bool)
      ensures this.wXdecl == wXdecl && this.wYdecl == wYdecl && this.wOut == wOut && this.signedIO == signedIO
      ensures wFull == 0 && wTruncated == 0 && g == 0 && weightShift == 0 && wX == 0 && wY == 0
    {
      this.wXdecl := wXdecl;
      this.wYdecl := wYdecl;
      this.wOut := wOut;
      this.signedIO := signedIO;
      wFull := 0;
      wTruncated := 0;
      g := 0;
      weightShift := 0;
      wX := 0;
      wY := 0;
    }

    /** The state a successful initialize leaves: widths consistent, and wY <= wX with the
        operands swapped exactly when wYdecl > wXdecl. */
    predicate Initialized()
      reads this
    {
      Consistent(wXdecl, wYdecl, wFull, wOut, wTruncated, g, weightShift, wX, wY)
    }

    method Initialize() returns (r: Result<()>)
      modifies this
      ensures r.Err? <==> old(wOut) < 0 || wXdecl < 0 || wYdecl < 0 || old(wOut) > wXdecl + wYdecl
      ensures r.Err? ==> (wOut == old(wOut) && wTruncated == old(wTruncated) && g == old(g)
        && weightShift == old(weightShift) && wX == old(wX) && wY == old(wY)
        && wFull == (if old(wOut) < 0 || wXdecl < 0 || wYdecl < 0 then old(wFull) else wXdecl + wYdecl))
      ensures r.Ok? ==> Initialized() && wOut == (if old(wOut) == 0 then wFull else old(wOut))
      ensures wXdecl == old(wXdecl) && wYdecl == old(wYdecl) && signedIO == old(signedIO)
    {
      if wOut < 0 || wXdecl < 0 || wYdecl < 0 {
        return Err("negative input/output size");
      }
      wFull := wXdecl + wYdecl;
      if wOut > wFull {
        return Err("wOut too large for the multiplier");
      }
      var out := if wOut == 0 then wFull else wOut;
      var guard := NeededGuardBits(wXdecl, wYdecl, out);
      var swap := wYdecl > wXdecl;
      var x, y := if swap then wYdecl else wXdecl, if swap then wXdecl else wYdecl;
      Configured(wXdecl, wYdecl, out, guard);
      wOut, wTruncated, g, weightShift, wX, wY := out, wFull - out, guard, wFull - (out + guard), x, y;
      return Ok(());
    }

    /** checkTiling: the DSP count of a tiling with blocks of wxDSP x wyDSP bits. Along each axis
        one block of full width is used if it fits, and the rest is covered by the fewest blocks
        of the block width (one bit less when the operands are signed). */
    method CheckTiling(wxDSP: int, wyDSP: int) returns (count: int, horDSP: int, verDSP: int)
      requires 0 <= wX && 0 <= wY
      requires wxDSP >= (if signedIO then 2 else 1) && wyDSP >= (if signedIO then 2 else 1)
      ensures count == horDSP * verDSP
      ensures var s := if signedIO then 1 else 0;
        && DspCount(wX, wxDSP, wxDSP - s, horDSP)
        && DspCount(wY, wyDSP, wyDSP - s, verDSP)
    {
      var widthOnX, widthOnY := wX, wY;
      var wx, wy := wxDSP, wyDSP;
      var hor := 0;
      if widthOnX >= wx {
        hor := hor + 1;
        widthOnX := widthOnX - wx;
      }
      if signedIO {
        wx := wx - 1;
      }
      horDSP := CeilDiv(widthOnX, wx) + hor;
      var ver := 0;
      if widthOnY >= wy {
        ver := ver + 1;
        widthOnY := widthOnY - wy;
      }
      if signedIO {
        wy := wy - 1;
      }
      verDSP := CeilDiv(widthOnY, wy) + ver;
      count := verDSP * horDSP;
    }
  }

  /** q = ceil(a / b): the fewest blocks of b bits covering a bits. */
  predicate IsCeilDiv(q: int, a: int, b: int)
  {
    q * b >= a && (q - 1) * b < a
  }

  /** int(ceil(double(a) / double(b))) for a >= 0 and b >= 1. */
  function CeilDiv(a: int, b: int): (q: int)
    requires a >= 0 && b >= 1
    ensures q >= 0 && IsCeilDiv(q, a, b)
  {
    var q := (a + b - 1) / b;
    Bits.ModUnique(a + b - 1, b, q, (a + b - 1) % b);
    q
  }

  /** n blocks along an axis of w bits: one block of d bits when w >= d, the rest of dRest bits. */
  predicate DspCount(w: int, d: int, dRest: int, n: int)
  {
    var first := if w >= d then 1 else 0;
    IsCeilDiv(n - first, w - first * d, dRest)
  }

  /** SmallMultTable::function as written in this file: a negative product is made non-negative
      by adding 2^wOut rather than 2^(dx+dy) before the rounding step. */
  function SmallMultTableEntryAsWritten(dx: nat, dy: nat, wOut: nat, negate: bool, signedX: bool, signedY: bool, yx: nat): (r: int)
    requires yx < Pow2(dx + dy) && (signedX ==> dx >= 1) && (signedY ==> dy >= 1)
    ensures wOut >= dx + dy ==> r == IntMult.TableProduct(dx, dy, negate, signedX, signedY, yx) % Pow2(wOut)
  {
    var wF := dx + dy;
    var y := HighPart(yx, Pow2(dx));
    var x := yx - y * Pow2(dx);
    var p := IntMult.OperandValue(x, dx, signedX) * IntMult.OperandValue(y, dy, signedY);
    var p1 := if negate then -p else p;
    IntMult.TableProductBound(dx, dy, negate, signedX, signedY, yx);
    var w := IntMult.WrapNegative(p1, Pow2(wOut));
    if wOut < wF then
      var tr := wF - wOut;
      (w + Pow2(tr - 1)) / Pow2(tr)
    else
      Pow2Monotone(wF, wOut);
      IntMult.WrapNegativeIsMod(p1, Pow2(wOut));
      w
  }

  /** A 2x2 signed table rounded to 3 bits, at x = -1, y = 1: the product -1 rounds to 0, which
      the corrected entry gives, but the entry as written is 4, that is -4 on three bits. */
  lemma SmallMultTableRoundingCounterexample()
    ensures IntMult.TableProduct(2, 2, false, true, true, 7) == -1
    ensures SmallMultTableEntryAsWritten(2, 2, 3, false, true, true, 7) == 4
    ensures IntMult.SmallMultTableEntry(2, 2, 3, false, true, true, 7) % Pow2(3) == 0
  {
    assert Pow2(2) == 4 && Pow2(3) == 8 && Pow2(4) == 16;
    assert IntMult.TableProduct(2, 2, false, true, true, 7) == -1;
    var e := IntMult.SmallMultTableEntry(2, 2, 3, false, true, true, 7);
    assert IntMult.RoundsToNearest(e, 15, 1);
    IntMult.RoundsToNearestUnique(e, 8, 15, 1);
  }

  /** emulate of this version, for an initialized multiplier: without truncation the output is the
      exact product modulo 2^wFull; with wTruncated bits dropped, the round-down and the round-up. */
  function Emulate(wXdecl: nat, wYdecl: nat, wTruncated: nat, signedIO: bool, negate: bool, X: nat, Y: nat): (outs: seq<nat>)
    requires wTruncated <= wXdecl + wYdecl
    requires X < Pow2(wXdecl) && Y < Pow2(wYdecl)
    requires signedIO ==> wXdecl >= 1 && wYdecl >= 1
    ensures var P := IntMult.ExactProduct(wXdecl, wYdecl, signedIO, negate, X, Y) % Pow2(wXdecl + wYdecl);
      && (wTruncated == 0 ==> outs == [P])
      && (wTruncated > 0 ==>
            |outs| == 2 && outs[0] * Pow2(wTruncated) <= P < (outs[0] + 1) * Pow2(wTruncated)
            && outs[1] == (outs[0] + 1) % Pow2(wXdecl + wYdecl - wTruncated))
  {
    IntMult.ExpectedOutputs(wXdecl, wYdecl, wXdecl + wYdecl - wTruncated, signedIO, negate, X, Y)
  }
}
