/** The precision schedule computed by the constructor of the iterative logarithm architecture
    (src/fplog/LogArch.cpp): stage i works on a Z that starts at bit p[i] and holds s[i] bits, each
    stage after the first adds a[i] - 1 = 3 leading zeros, and the iteration stops once 2*p[i]
    reaches wF + 2, which the source comments as enough for faithful rounding. */
module LogArch {

  /** gLog, the guard bits of the architecture. */
  const GLog := 3

  /** target_prec = wF + ((wF+1) >> 1) + gLog. An arithmetic right shift is floor division by 2,
      which is what Dafny's division by a positive number computes. */
  function TargetPrec(wF: int): int
  {
    wF + (wF + 1) / 2 + GLog
  }

  /** p[i]: p[0] = 0, p[1] = a[0] - 1, and then a[i] - 1 = 3 more per stage. */
  function P(i: nat): (r: int)
  {
    if i == 0 then 0 else A(0) - 1 + 3 * (i - 1)
  }

  /** a[i]: five address bits for the first stage, four for every later one. */
  function A(i: nat): int
  {
    if i == 0 then 5 else 4
  }

  /** The number of stages the loop leaves in `stages`. */
  function Stages(wF: int): (n: nat)
    ensures 2 * P(n + 1) >= wF + 2
    ensures forall k: nat :: 1 <= k <= n ==> 2 * P(k) < wF + 2
  {
    if wF <= 6 then 0 else (wF + 5) / 6 - 1
  }

  /** A stage whose p still has 2*p < wF + 2 is not past the last one. */
  lemma StagesBound(wF: int, i: nat)
    requires i >= 1 && 2 * P(i) < wF + 2
    ensures i <= Stages(wF)
  {
  }

  /** The first stage whose p reaches 2*p >= wF + 2 comes right after the last one. */
  lemma StagesExact(wF: int, i: nat)
    requires i >= 1 && 2 * P(i) >= wF + 2 && forall k :: 1 <= k < i ==> 2 * P(k) < wF + 2
    ensures i == Stages(wF) + 1
  {
  }

  /** Entry i of the source's parallel arrays a, p, s, sbt, t, psize and sfullZ. */
  datatype Stage = Stage(a: int, p: int, s: int, sbt: int, t: int, psize: int, sfullZ: int)

  /** Whether stage cur truncates the next Z to the target precision tp: the untruncated size,
      starting at the next p, would pass it. */
  predicate Truncating(tp: int, cur: Stage)
  {
    cur.p + A(1) - 1 + (cur.s + cur.p + 2) > tp
  }

  /** The entries of stage i + 1 that one turn of the loop computes from stage i (a and psize of
      stage i + 1 come with the next turn). */
  function NextStage(tp: int, cur: Stage): (next: Stage)
  {
    var pn := cur.p + A(1) - 1;
    var sbt := cur.s + cur.p + 2;
    var s := if Truncating(tp, cur) then tp - pn else sbt;
    Stage(0, pn, s, sbt, sbt - s, 0, cur.sfullZ + A(1) + cur.p + 1)
  }

  /** psize of stage i: all of Z[i] without a truncation, else the target_prec - 2*p[i] bits the
      product needs, but never more than s[i]. */
  function PSizeOf(tp: int, cur: Stage): int
  {
    if !Truncating(tp, cur) then cur.s
    else if tp - 2 * cur.p > cur.s then cur.s
    else tp - 2 * cur.p
  }

  /** next agrees with NextStage(tp, cur) on every entry the next turn does not set. */
  predicate Follows(tp: int, cur: Stage, next: Stage)
  {
    next.(a := 0, psize := 0) == NextStage(tp, cur)
  }

  /** The schedule once the loop has reached stage i: stage 0, the fixed start of stage 1, and
      every turn k from 1 to i - 1 setting a[k] = 4 and psize[k] and deriving stage k + 1. */
  predicate Chain(wF: int, st: seq<Stage>, i: nat)
  {
    && 1 <= i < |st|
    && st[0].a == 5 && st[0].p == 0 && st[0].s == wF + 2 && st[0].sfullZ == wF + 2
    && st[1].(a := 0, psize := 0) == Stage(0, st[0].a - 1, wF + 2, wF + 2, 0, 0, wF + 7)
    && forall k :: 1 <= k < i ==>
         st[k].a == A(k) && st[k].psize == PSizeOf(TargetPrec(wF), st[k]) && Follows(TargetPrec(wF), st[k], st[k + 1])
  }

  /** One turn of the loop extends the chain by one stage. */
  lemma ChainStep(wF: int, st: seq<Stage>, i: nat)
    requires Chain(wF, st, i) && i + 1 < |st|
    ensures var tp := TargetPrec(wF);
      Chain(wF, st[i := st[i].(a := A(i), psize := PSizeOf(tp, st[i]))][i + 1 := NextStage(tp, st[i])], i + 1)
  {
  }

  /** Every stage reached starts at p[k] = 3k + 1. */
  lemma {:induction false} ChainPrecision(wF: int, st: seq<Stage>, i: nat, k: nat)
    requires Chain(wF, st, i) && k <= i
    ensures st[k].p == P(k)
  {
    if k >= 2 {
      ChainPrecision(wF, st, i, k - 1);
      assert Follows(TargetPrec(wF), st[k - 1], st[k]);
    }
  }

  /** Stage k >= 2 ends at or above the target precision: exactly at it when it was truncated,
      with t[k] > 0 bits dropped; with no truncation nothing is dropped. */
  lemma StagesFitTarget(wF: int, st: seq<Stage>, i: nat, k: nat)
    requires Chain(wF, st, i) && 2 <= k <= i
    ensures var tp := TargetPrec(wF);
      && st[k].s + st[k].p <= tp
      && (st[k].t > 0 <==> Truncating(tp, st[k - 1]))
      && (st[k].t > 0 ==> st[k].s + st[k].p == tp)
      && (st[k].t == 0 ==> st[k].s == st[k].sbt == st[k - 1].s + st[k - 1].p + 2)
  {
    assert Follows(TargetPrec(wF), st[k - 1], st[k]);
  }

  /** Once a stage truncates, so does every later one. */
  lemma TruncationPersists(wF: int, st: seq<Stage>, i: nat, k: nat)
    requires Chain(wF, st, i) && 2 <= k < i && st[k].t > 0
    ensures st[k + 1].t > 0
  {
    var tp := TargetPrec(wF);
    assert Follows(tp, st[k - 1], st[k]);
    assert Follows(tp, st[k], st[k + 1]);
    ChainPrecision(wF, st, i, k);
  }

  /** While 2*p[k] < wF + 2, every Z the loop produces has at least one bit, and the product size
      psize[k] is positive and at most s[k]. */
  lemma {:induction false} SizesPositive(wF: int, st: seq<Stage>, i: nat, k: nat)
    requires wF >= 1 && Chain(wF, st, i) && 1 <= k <= i
    requires forall j :: 1 <= j < i ==> 2 * st[j].p < wF + 2
    ensures st[k].s > 0
    ensures k < i ==> 0 < st[k].psize <= st[k].s
  {
    var tp := TargetPrec(wF);
    if k >= 2 {
      SizesPositive(wF, st, i, k - 1);
      assert Follows(tp, st[k - 1], st[k]);
      assert 2 * st[k - 1].p < wF + 2;
      ChainPrecision(wF, st, i, k - 1);
    }
    if k < i {
      assert 2 * st[k].p < wF + 2;
    }
  }

  /** The untruncated size sfullZ[k] grows by a[k] + p[k] + 1 per stage and so stays at least
      five bits above the truncated one. */
  lemma {:induction false} FullSizeBound(wF: int, st: seq<Stage>, i: nat, k: nat)
    requires Chain(wF, st, i) && 1 <= k <= i
    ensures st[k].sfullZ >= st[k].s + 5
  {
    if k >= 2 {
      FullSizeBound(wF, st, i, k - 1);
      assert Follows(TargetPrec(wF), st[k - 1], st[k]);
      ChainPrecision(wF, st, i, k - 1);
    }
  }

  /** The body of the constructor's loop for stage cur (with a = 4): psize of cur and the
      entries of the next stage. */
  method StageTurn(tp: int, cur: Stage) returns (ps: int, next: Stage)
    ensures ps == PSizeOf(tp, cur) && next == NextStage(tp, cur)
  {
    var ai, pi, si, fi := 4, cur.p, cur.s, cur.sfullZ;
    var pn := pi + ai - 1;
    var sb := si + pi + 2;
    var sn, tn;
    if pn + sb <= tp {
      // no truncation at all
      ps, sn, tn := si, sb, 0;
    } else {
      // truncate everything to the target precision
      ps := tp - 2 * pi;
      if ps > si {
        ps := si;
      }
      sn := tp - pn;
      tn := sb - sn;
    }
    next := Stage(0, pn, sn, sb, tn, 0, fi + ai + pi + 1);
  }

  /** The tables and the precision schedule of the architecture; only the schedule is modelled. */
  class LogArch {
    const wE: int
    const wF: int
    const targetPrec: int
    const stages: nat
    const stage: array<Stage>

    /** The constructor: stage 0, then one loop turn per later stage until 2*p[i] >= wF + 2. The
        fixed array size of the header is not part of this model; the array holds stages + 2
        entries. */
    constructor(wE: int, wF: int)
      ensures this.wE == wE && this.wF == wF
      ensures targetPrec == TargetPrec(wF) && stages == Stages(wF)
      ensures Chain(wF, stage[..], stages + 1)
      ensures forall k :: 1 <= k <= stages ==> 2 * stage[k].p < wF + 2
      ensures 2 * stage[stages + 1].p >= wF + 2
    {
      var n := Stages(wF) + 2;
      var tp := TargetPrec(wF);
      var st := new Stage[n](_ => Stage(0, 0, 0, 0, 0, 0, 0));
      st[0] := Stage(5, 0, wF + 2, 0, 0, 0, wF + 2);
      st[1] := Stage(0, st[0].a - 1, wF + 2, wF + 2, 0, 0, wF + 7);
      var i := 1;
      while 2 * st[i].p < wF + 2
        invariant 1 <= i <= n - 1
        invariant forall k :: 1 <= k < i ==> 2 * st[k].p < wF + 2
        invariant Chain(wF, st[..], i)
        decreases n - i
      {
        ChainPrecision(wF, st[..], i, i);
        StagesBound(wF, i);
        ghost var before := st[..];
        ChainStep(wF, before, i);
        var ps, next := StageTurn(tp, st[i]);
        st[i] := st[i].(a := 4, psize := ps);
        st[i + 1] := next;
        assert st[..] == before[i := before[i].(a := A(i), psize := PSizeOf(tp, before[i]))][i + 1 := NextStage(tp, before[i])];
        i := i + 1;
      }
      ChainPrecision(wF, st[..], i, i);
      forall k | 1 <= k < i
        ensures 2 * P(k) < wF + 2
      {
        ChainPrecision(wF, st[..], i, k);
      }
      StagesExact(wF, i);
      this.wE, this.wF, targetPrec, stages, stage := wE, wF, tp, i - 1, st;
    }
  }
}
