/** The Q31 and Q15 PID controllers of arm_math.h.

    One call adds A0*x[n] + A1*x[n-1] + A2*x[n-2] to the previous output, with
    A0 = Kp + Ki + Kd, A1 = -Kp - 2*Kd and A2 = Kd.  The results below compare
    whole runs of the incremental form with the positional form
    Kp*x[n] + Ki*sum(x) + Kd*(x[n] - x[n-1]). */
module Pid {
  import opened Arithmetic
  import opened FixedPoint
  import opened Simd

  datatype Gains = Gains(a0: int, a1: int, a2: int)

  /** state[0], state[1] are the last two inputs, state[2] the last output. */
  datatype State = State(x1: int, x2: int, y: int)

  // ----- the exact algebra of a run -----

  /** The gains that implement proportional, integral and derivative terms. */
  function FromTerms(kp: int, ki: int, kd: int): Gains
  {
    Gains(kp + ki + kd, -kp - 2 * kd, kd)
  }

  function Increment(g: Gains, x: int, x1: int, x2: int): int
  {
    g.a0 * x + g.a1 * x1 + g.a2 * x2
  }

  /** The input i steps before the end of a run that started in state s. */
  function Recent(s: State, xs: seq<int>, i: nat): int
  {
    if i < |xs| then xs[|xs| - 1 - i]
    else if i == |xs| then s.x1
    else s.x2
  }

  function Sum(xs: seq<int>): int
  {
    if xs == [] then 0 else Sum(xs[..|xs| - 1]) + xs[|xs| - 1]
  }

  function Last(g: Gains, s: State, xs: seq<int>): int
  {
    Increment(g, Recent(s, xs, 0), Recent(s, xs, 1), Recent(s, xs, 2))
  }

  /** The sum of all increments of a run, and the sum of their floors at scale one. */
  function TotalIncrement(g: Gains, s: State, xs: seq<int>): int
  {
    if xs == [] then 0 else TotalIncrement(g, s, xs[..|xs| - 1]) + Last(g, s, xs)
  }

  function FlooredIncrements(one: int, g: Gains, s: State, xs: seq<int>): int
    requires one > 0
  {
    if xs == [] then 0 else FlooredIncrements(one, g, s, xs[..|xs| - 1]) + Last(g, s, xs) / one
  }

  /** The positional PID value after a run. */
  function Positional(kp: int, ki: int, kd: int, s: State, xs: seq<int>): int
  {
    kp * Recent(s, xs, 0) + ki * Sum(xs) + kd * (Recent(s, xs, 0) - Recent(s, xs, 1))
  }

  lemma RecentShift(s: State, xs: seq<int>, i: nat)
    requires xs != []
    ensures Recent(s, xs, i + 1) == Recent(s, xs[..|xs| - 1], i)
  {
  }

  /** The increments telescope to the change of the positional value. */
  lemma {:induction false} Telescope(kp: int, ki: int, kd: int, s: State, xs: seq<int>)
    ensures TotalIncrement(FromTerms(kp, ki, kd), s, xs)
              == Positional(kp, ki, kd, s, xs) - Positional(kp, ki, kd, s, [])
  {
    if xs != [] {
      var ys := xs[..|xs| - 1];
      Telescope(kp, ki, kd, s, ys);
      RecentShift(s, xs, 0);
      RecentShift(s, xs, 1);
      TelescopeStep(kp, ki, kd, Recent(s, xs, 0), Recent(s, xs, 1), Recent(s, xs, 2), Sum(ys));
    }
  }

  lemma TelescopeStep(kp: int, ki: int, kd: int, x: int, x1: int, x2: int, sum: int)
    ensures kp * x1 + ki * sum + kd * (x1 - x2) + Increment(FromTerms(kp, ki, kd), x, x1, x2)
              == kp * x + ki * (sum + x) + kd * (x - x1)
  {
    assert (kp + ki + kd) * x == kp * x + ki * x + kd * x;
    assert (-kp - 2 * kd) * x1 == -(kp * x1) - 2 * (kd * x1);
    assert ki * (sum + x) == ki * sum + ki * x;
    assert kd * (x1 - x2) == kd * x1 - kd * x2;
    assert kd * (x - x1) == kd * x - kd * x1;
  }

  /** Each floor loses less than one unit. */
  lemma {:induction false} FloorDrift(one: int, g: Gains, s: State, xs: seq<int>)
    requires one > 0
    ensures 0 <= TotalIncrement(g, s, xs) - one * FlooredIncrements(one, g, s, xs) <= |xs| * (one - 1)
  {
    if xs != [] {
      var ys := xs[..|xs| - 1];
      FloorDrift(one, g, s, ys);
      FloorStep(one, Last(g, s, xs), FlooredIncrements(one, g, s, ys), |ys|);
    }
  }

  lemma FloorStep(one: int, v: int, total: int, n: int)
    requires one > 0
    ensures 0 <= v - (one * (total + v / one) - one * total) <= one - 1
    ensures (n + 1) * (one - 1) == n * (one - 1) + (one - 1)
  {
    assert v == one * (v / one) + v % one;
    assert one * (total + v / one) == one * total + one * (v / one);
  }

  // ----- Q31 -----

  predicate StateQ31(s: State) { IsQ31(s.x1) && IsQ31(s.x2) && IsQ31(s.y) }
  predicate GainsQ31(g: Gains) { IsQ31(g.a0) && IsQ31(g.a1) && IsQ31(g.a2) }

  /** One call of arm_pid_q31, with every wrap: the accumulator is 64 bits wide,
      the shifted accumulator is cast to 32, and the previous output is added in
      32 bits. */
  function StepQ31(g: Gains, s: State, x: int): (r: State)
    ensures StateQ31(s) && IsQ31(x) ==> StateQ31(r)
  {
    var acc := ToQ63(g.a0 * x);
    var acc := ToQ63(acc + g.a1 * s.x1);
    var acc := ToQ63(acc + g.a2 * s.x2);
    State(x, s.x1, ToQ31(ToQ31(acc / 0x8000_0000) + s.y))
  }

  function RunQ31(g: Gains, s: State, xs: seq<int>): State
  {
    if xs == [] then s else StepQ31(g, RunQ31(g, s, xs[..|xs| - 1]), xs[|xs| - 1])
  }

  class PidQ31 {
    const gains: Gains
    const state: array<int>

    ghost predicate Valid()
      reads this, state
    {
      state.Length == 3 && IsQ31(state[0]) && IsQ31(state[1]) && IsQ31(state[2]) && GainsQ31(gains)
    }

    ghost function Value(): State
      reads this, state
      requires Valid()
    {
      State(state[0], state[1], state[2])
    }

    /** The initialised instance: gains set, state cleared. */
    constructor (g: Gains)
      requires GainsQ31(g)
      ensures Valid() && gains == g && Value() == State(0, 0, 0) && fresh(state)
    {
      gains := g;
      state := new int[3](i => 0);
    }

    /** The accumulation, term by term. */
    static method Output(g: Gains, s: State, x: int) returns (out: int)
      ensures out == StepQ31(g, s, x).y
    {
      var acc := ToQ63(g.a0 * x);
      acc := ToQ63(acc + g.a1 * s.x1);
      acc := ToQ63(acc + g.a2 * s.x2);
      out := ToQ31(acc / 0x8000_0000);
      out := ToQ31(out + s.y);
    }

    method Process(x: int) returns (out: int)
      requires Valid() && IsQ31(x)
      modifies state
      ensures Valid() && Value() == StepQ31(gains, old(Value()), x) && out == Value().y
    {
      out := Output(gains, State(state[0], state[1], state[2]), x);
      state[1] := state[0];
      state[0] := x;
      state[2] := out;
    }

    /** A run of calls, one for each sample. */
    method ProcessAll(xs: seq<int>) returns (out: seq<int>)
      requires Valid() && forall i :: 0 <= i < |xs| ==> IsQ31(xs[i])
      modifies state
      ensures Valid() && Value() == RunQ31(gains, old(Value()), xs)
      ensures |out| == |xs|
      ensures forall i :: 0 <= i < |xs| ==> out[i] == RunQ31(gains, old(Value()), xs[..i + 1]).y
    {
      out := [];
      ghost var start := Value();
      assert xs[..0] == [];
      for i := 0 to |xs|
        invariant Valid() && Value() == RunQ31(gains, start, xs[..i])
        invariant |out| == i
        invariant forall j :: 0 <= j < i ==> out[j] == RunQ31(gains, start, xs[..j + 1]).y
      {
        var y := Process(xs[i]);
        assert xs[..i + 1][..i] == xs[..i];
        out := out + [y];
      }
      assert xs[..|xs|] == xs;
    }
  }

  /** All the wraps of a step together lose only multiples of 2^32. */
  lemma WrapsCancel(g: Gains, s: State, x: int)
    ensures StepQ31(g, s, x).y == ToQ31(Increment(g, x, s.x1, s.x2) / 0x8000_0000 + s.y)
  {
    var p, q, r := g.a0 * x, g.a1 * s.x1, g.a2 * s.x2;
    var i := ToQ63Congruent(p);
    var j := ToQ63Congruent(ToQ63(p) + q);
    var k := ToQ63Congruent(ToQ63(ToQ63(p) + q) + r);
    var acc := ToQ63(ToQ63(ToQ63(p) + q) + r);
    var v := p + q + r;
    assert acc == v + 0x1_0000_0000_0000_0000 * (i + j + k);
    assert acc / 0x8000_0000 == v / 0x8000_0000 + 0x1_0000_0000 * (2 * (i + j + k));
    var l := ToQ31Congruent(acc / 0x8000_0000);
    ToQ31Unique(v / 0x8000_0000 + s.y, 2 * (i + j + k) + l);
  }

  /** The output is documented as saturated, but it wraps: one call returns the
      saturated value exactly when the new output fits, or when it misses the
      nearer bound by 2^32 and wraps onto it. */
  lemma PidQ31SaturatesIff(g: Gains, s: State, x: int)
    requires GainsQ31(g) && StateQ31(s) && IsQ31(x)
    ensures var v := Increment(g, x, s.x1, s.x2) / 0x8000_0000 + s.y;
            StepQ31(g, s, x).y == SatQ31(v) <==> IsQ31(v) || v == 0x1_7FFF_FFFF || v == -0x1_8000_0000
  {
    WrapsCancel(g, s, x);
    MulQ31(g.a0, x);
    MulQ31(g.a1, s.x1);
    MulQ31(g.a2, s.x2);
    WrapOrSaturate(Increment(g, x, s.x1, s.x2), s.y);
  }

  /** A failing input: one step over the top comes out at the bottom. */
  lemma PidQ31Overshoots(g: Gains, s: State)
    requires g == Gains(0x7FFF_FFFF, 0, 0) && s == State(0, 0, 0x7FFF_FFFF)
    ensures StepQ31(g, s, 2).y == -0x8000_0000
  {
    WrapsCancel(g, s, 2);
    assert Increment(g, 2, 0, 0) == 0xFFFF_FFFE;
  }

  lemma WrapOrSaturate(acc: int, y: int)
    requires -0xC000_0000_0000_0000 <= acc <= 0xC000_0000_0000_0000 && IsQ31(y)
    ensures var v := acc / 0x8000_0000 + y;
            ToQ31(v) == SatQ31(v) <==> IsQ31(v) || v == 0x1_7FFF_FFFF || v == -0x1_8000_0000
  {
  }

  /** Whatever overflows on the way, the output is the sum of the floored
      increments modulo 2^32. */
  lemma {:induction false} RunModulo(g: Gains, s: State, xs: seq<int>)
    requires IsQ31(s.y)
    ensures var r := RunQ31(g, s, xs);
            && r.x1 == Recent(s, xs, 0) && r.x2 == Recent(s, xs, 1)
            && r.y == ToQ31(s.y + FlooredIncrements(0x8000_0000, g, s, xs))
  {
    if xs == [] {
      ToQ31Fits(s.y);
    } else {
      var ys := xs[..|xs| - 1];
      RunModulo(g, s, ys);
      RecentShift(s, xs, 0);
      RecentShift(s, xs, 1);
      StepModulo(g, RunQ31(g, s, ys), xs[|xs| - 1], s.y + FlooredIncrements(0x8000_0000, g, s, ys));
    }
  }

  lemma StepModulo(g: Gains, s: State, x: int, b: int)
    requires s.y == ToQ31(b)
    ensures StepQ31(g, s, x).y == ToQ31(b + Increment(g, x, s.x1, s.x2) / 0x8000_0000)
  {
    WrapsCancel(g, s, x);
    var k := ToQ31Congruent(b);
    ToQ31Unique(b + Increment(g, x, s.x1, s.x2) / 0x8000_0000, k);
  }

  /** The distance from the positional value, in units of 2^-31 LSB. */
  function ShortfallQ31(kp: int, ki: int, kd: int, s: State, xs: seq<int>, y: int): int
  {
    Positional(kp, ki, kd, s, xs) - Positional(kp, ki, kd, s, []) - 0x8000_0000 * (y - s.y)
  }

  /** The output a run would have without any wrap. */
  function Unwrapped(one: int, g: Gains, s: State, xs: seq<int>): int
    requires one > 0
  {
    s.y + FlooredIncrements(one, g, s, xs)
  }

  /** From any state and over any run, whatever earlier calls overflowed: if the
      unwrapped output fits, the n-th output is below the positional value by at
      least nothing and by less than n LSBs; and for runs of up to 2^32 calls only
      then. */
  lemma PidQ31TracksIff(kp: int, ki: int, kd: int, s: State, xs: seq<int>)
    requires IsQ31(s.y) && xs != []
    ensures var g := FromTerms(kp, ki, kd);
            var bound := 0 <= ShortfallQ31(kp, ki, kd, s, xs, RunQ31(g, s, xs).y) < 0x8000_0000 * |xs|;
            && (IsQ31(Unwrapped(0x8000_0000, g, s, xs)) ==> bound)
            && (|xs| <= 0x1_0000_0000 && bound ==> IsQ31(Unwrapped(0x8000_0000, g, s, xs)))
  {
    var g := FromTerms(kp, ki, kd);
    Telescope(kp, ki, kd, s, xs);
    FloorDrift(0x8000_0000, g, s, xs);
    RunModulo(g, s, xs);
    WrapOrTrack(TotalIncrement(g, s, xs), FlooredIncrements(0x8000_0000, g, s, xs), |xs|, s.y, RunQ31(g, s, xs).y);
  }

  lemma WrapOrTrack(total: int, floored: int, n: nat, start: int, y: int)
    requires n > 0 && 0 <= total - 0x8000_0000 * floored <= n * 0x7FFF_FFFF && y == ToQ31(start + floored)
    ensures IsQ31(start + floored) ==> 0 <= total - 0x8000_0000 * (y - start) < 0x8000_0000 * n
    ensures n <= 0x1_0000_0000 && 0 <= total - 0x8000_0000 * (y - start) < 0x8000_0000 * n ==> IsQ31(start + floored)
  {
    var k := ToQ31Congruent(start + floored);
    ToQ31Fits(start + floored);
  }

  /** No call of the run overflows its 32-bit output. */
  ghost predicate NeverWraps(g: Gains, s: State, xs: seq<int>)
  {
    forall n :: 0 <= n < |xs| ==> IsQ31(NextOutput(g, RunQ31(g, s, xs[..n]), xs[n]))
  }

  /** The output of one call before its cast. */
  function NextOutput(g: Gains, s: State, x: int): int
  {
    Increment(g, x, s.x1, s.x2) / 0x8000_0000 + s.y
  }

  lemma {:induction false} NeverWrapsFits(g: Gains, s: State, xs: seq<int>)
    requires IsQ31(s.y) && NeverWraps(g, s, xs)
    ensures RunQ31(g, s, xs).y == Unwrapped(0x8000_0000, g, s, xs) && IsQ31(Unwrapped(0x8000_0000, g, s, xs))
  {
    if xs != [] {
      var ys, x := xs[..|xs| - 1], xs[|xs| - 1];
      forall n | 0 <= n < |ys|
        ensures IsQ31(NextOutput(g, RunQ31(g, s, ys[..n]), ys[n]))
      {
        assert ys[..n] == xs[..n];
      }
      NeverWrapsFits(g, s, ys);
      RunModulo(g, s, ys);
      RecentShift(s, xs, 0);
      RecentShift(s, xs, 1);
      FittingStep(g, RunQ31(g, s, ys), x);
    }
  }

  lemma FittingStep(g: Gains, s: State, x: int)
    requires IsQ31(NextOutput(g, s, x))
    ensures StepQ31(g, s, x).y == NextOutput(g, s, x)
  {
    WrapsCancel(g, s, x);
    ToQ31Fits(NextOutput(g, s, x));
  }

  /** So a run in which no call overflows stays below the positional value by less
      than n LSBs, however long it is. */
  lemma PidQ31TracksUnlessOverflow(kp: int, ki: int, kd: int, s: State, xs: seq<int>)
    requires IsQ31(s.y) && xs != [] && NeverWraps(FromTerms(kp, ki, kd), s, xs)
    ensures var y := RunQ31(FromTerms(kp, ki, kd), s, xs).y;
            0 <= ShortfallQ31(kp, ki, kd, s, xs, y) < 0x8000_0000 * |xs|
  {
    NeverWrapsFits(FromTerms(kp, ki, kd), s, xs);
    PidQ31TracksIff(kp, ki, kd, s, xs);
  }

  /** It is enough that the positional value is representable with n LSBs to spare
      below. */
  lemma PidQ31TracksPositional(kp: int, ki: int, kd: int, s: State, xs: seq<int>)
    requires IsQ31(s.y) && xs != []
    requires var exact := 0x8000_0000 * s.y + Positional(kp, ki, kd, s, xs) - Positional(kp, ki, kd, s, []);
             0x8000_0000 * (|xs| - 1 - 0x8000_0000) <= exact < 0x4000_0000_0000_0000
    ensures var y := RunQ31(FromTerms(kp, ki, kd), s, xs).y;
            0 <= ShortfallQ31(kp, ki, kd, s, xs, y) < 0x8000_0000 * |xs|
  {
    var g := FromTerms(kp, ki, kd);
    Telescope(kp, ki, kd, s, xs);
    FloorDrift(0x8000_0000, g, s, xs);
    RoomToSpare(TotalIncrement(g, s, xs), FlooredIncrements(0x8000_0000, g, s, xs), |xs|, s.y);
    PidQ31TracksIff(kp, ki, kd, s, xs);
  }

  lemma RoomToSpare(total: int, floored: int, n: nat, start: int)
    requires n > 0 && 0 <= total - 0x8000_0000 * floored <= n * 0x7FFF_FFFF
    requires 0x8000_0000 * (n - 1 - 0x8000_0000) <= 0x8000_0000 * start + total < 0x4000_0000_0000_0000
    ensures IsQ31(start + floored)
  {
  }

  /** From the cleared state the reference is the positional value alone. */
  lemma PidQ31FromReset(kp: int, ki: int, kd: int, xs: seq<int>)
    requires xs != [] && NeverWraps(FromTerms(kp, ki, kd), State(0, 0, 0), xs)
    ensures var y := RunQ31(FromTerms(kp, ki, kd), State(0, 0, 0), xs).y;
            0 <= Positional(kp, ki, kd, State(0, 0, 0), xs) - 0x8000_0000 * y < 0x8000_0000 * |xs|
  {
    var s := State(0, 0, 0);
    PidQ31TracksUnlessOverflow(kp, ki, kd, s, xs);
    ResetShortfall(kp, ki, kd, s, xs, RunQ31(FromTerms(kp, ki, kd), s, xs).y);
  }

  lemma ResetShortfall(kp: int, ki: int, kd: int, s: State, xs: seq<int>, y: int)
    requires s == State(0, 0, 0)
    ensures ShortfallQ31(kp, ki, kd, s, xs, y) == Positional(kp, ki, kd, s, xs) - 0x8000_0000 * y
  {
    ZeroTerms(kp, ki, kd);
    assert Positional(kp, ki, kd, s, []) == 0;
  }

  lemma ZeroTerms(kp: int, ki: int, kd: int)
    ensures kp * 0 + ki * 0 + kd * (0 - 0) == 0
  {
  }

  /** The gains of FromTerms(0, 1, 0) fed with -1 lose almost one LSB in every
      call, so no bound below n LSBs holds. */
  lemma DriftReached(g: Gains, s: State, xs: seq<int>)
    requires g == Gains(1, 0, 0) && s.y == 0 && |xs| <= 0x8000_0000
    requires forall i :: 0 <= i < |xs| ==> xs[i] == -1
    ensures RunQ31(g, s, xs).y == -|xs| == TotalIncrement(g, s, xs)
  {
    DriftFloors(g, s, xs);
    OutputIs(g, s, xs, -|xs|);
  }

  lemma {:induction false} DriftFloors(g: Gains, s: State, xs: seq<int>)
    requires g == Gains(1, 0, 0)
    requires forall i :: 0 <= i < |xs| ==> xs[i] == -1
    ensures FlooredIncrements(0x8000_0000, g, s, xs) == -|xs| == TotalIncrement(g, s, xs)
  {
    if xs != [] {
      DriftFloors(g, s, xs[..|xs| - 1]);
      UnitGain(-1, Recent(s, xs, 1), Recent(s, xs, 2));
    }
  }

  lemma UnitGain(x: int, x1: int, x2: int)
    ensures Increment(Gains(1, 0, 0), x, x1, x2) == x
  {
  }

  lemma OutputIs(g: Gains, s: State, xs: seq<int>, total: int)
    requires IsQ31(s.y) && IsQ31(s.y + total) && FlooredIncrements(0x8000_0000, g, s, xs) == total
    ensures RunQ31(g, s, xs).y == s.y + total
  {
    RunModulo(g, s, xs);
    ToQ31Fits(s.y + total);
  }

  // ----- Q15 -----

  predicate StateQ15(s: State) { IsQ15(s.x1) && IsQ15(s.x2) && IsQ15(s.y) }
  predicate GainsQ15(g: Gains) { IsQ15(g.a0) && IsQ15(g.a1) && IsQ15(g.a2) }

  /** __SSAT(v, 16). */
  function Ssat16(v: int): (r: int)
    ensures IsQ15(r)
  {
    SatQ15(v)
  }

  /** The argument of SSAT in one call. */
  function SsatArgument(g: Gains, s: State, x: int): int
  {
    (Increment(g, x, s.x1, s.x2) + s.y * 0x8000) / 0x8000
  }

  /** The portable path of arm_pid_q15. */
  function StepQ15(g: Gains, s: State, x: int): State
  {
    State(x, s.x1, Ssat16(SsatArgument(g, s, x)))
  }

  /** The accumulator of the ARM_MATH_DSP path: A1 and A2 share one word, the two
      old inputs another, and A0 and the input are widened to words. */
  function AccumulateDsp(g: Gains, s: State, x: int): int
    requires GainsQ15(g) && StateQ15(s) && IsQ15(x)
  {
    Smlald(Pack(g.a1, g.a2), Pack(s.x1, s.x2), ToQ31(Smuad(ToU32(g.a0), ToU32(x))))
  }

  function StepDsp(g: Gains, s: State, x: int): (r: State)
    requires GainsQ15(g) && StateQ15(s) && IsQ15(x)
    ensures StateQ15(r)
  {
    State(x, s.x1, Ssat16((AccumulateDsp(g, s, x) + s.y * 0x8000) / 0x8000))
  }

  function RunQ15(g: Gains, s: State, xs: seq<int>): State
  {
    if xs == [] then s else StepQ15(g, RunQ15(g, s, xs[..|xs| - 1]), xs[|xs| - 1])
  }

  function RunDsp(g: Gains, s: State, xs: seq<int>): (r: State)
    requires GainsQ15(g) && StateQ15(s) && forall i :: 0 <= i < |xs| ==> IsQ15(xs[i])
    ensures StateQ15(r)
  {
    if xs == [] then s else StepDsp(g, RunDsp(g, s, xs[..|xs| - 1]), xs[|xs| - 1])
  }

  class PidQ15 {
    const gains: Gains
    const state: array<int>

    ghost predicate Valid()
      reads this, state
    {
      state.Length == 3 && IsQ15(state[0]) && IsQ15(state[1]) && IsQ15(state[2]) && GainsQ15(gains)
    }

    ghost function Value(): State
      reads this, state
      requires Valid()
    {
      State(state[0], state[1], state[2])
    }

    constructor (g: Gains)
      requires GainsQ15(g)
      ensures Valid() && gains == g && Value() == State(0, 0, 0) && fresh(state)
    {
      gains := g;
      state := new int[3](i => 0);
    }

    /** Every partial accumulator is checked to fit: 32 bits for the products and
        the shifted state, 64 bits for the sums, 32 bits for the argument of SSAT. */
    method Process(x: int) returns (out: int)
      requires Valid() && IsQ15(x)
      modifies state
      ensures Valid() && Value() == StepQ15(gains, old(Value()), x) && out == Value().y
    {
      AccumulatorRange(gains, Value(), x);
      var acc := gains.a0 * x;
      assert IsQ31(acc);
      acc := acc + gains.a1 * state[0];
      acc := acc + gains.a2 * state[1];
      assert IsQ31(state[2] * 0x8000);
      acc := acc + state[2] * 0x8000;
      assert IsQ31(acc / 0x8000);
      out := Ssat16(acc / 0x8000);
      state[1] := state[0];
      state[0] := x;
      state[2] := out;
    }

    method ProcessDsp(x: int) returns (out: int)
      requires Valid() && IsQ15(x)
      modifies state
      ensures Valid() && Value() == StepDsp(gains, old(Value()), x) && out == Value().y
    {
      AccumulatorRange(gains, Value(), x);
      DspAccumulator(gains, Value(), x);
      var acc := ToQ31(Smuad(ToU32(gains.a0), ToU32(x)));
      var vstate := Pack(state[0], state[1]);
      acc := Smlald(Pack(gains.a1, gains.a2), vstate, acc);
      acc := acc + state[2] * 0x8000;
      assert IsQ31(acc / 0x8000);
      out := Ssat16(acc / 0x8000);
      state[1] := state[0];
      state[0] := x;
      state[2] := out;
    }
  }

  /** No value on the way to the output leaves its type: 32 bits for each product,
      the scaled state and the argument of SSAT; 64 bits hold every sum. */
  lemma AccumulatorRange(g: Gains, s: State, x: int)
    requires GainsQ15(g) && StateQ15(s) && IsQ15(x)
    ensures IsQ31(g.a0 * x) && IsQ31(g.a1 * s.x1) && IsQ31(g.a2 * s.x2) && IsQ31(s.y * 0x8000)
    ensures -0xC000_0000 <= Increment(g, x, s.x1, s.x2) <= 0xC000_0000
    ensures IsQ31((Increment(g, x, s.x1, s.x2) + s.y * 0x8000) / 0x8000)
  {
    MulQ15(g.a0, x);
    MulQ15(g.a1, s.x1);
    MulQ15(g.a2, s.x2);
    ShiftedAccumulator(Increment(g, x, s.x1, s.x2), s.y);
  }

  lemma ShiftedAccumulator(v: int, y: int)
    requires -0xC000_0000 <= v <= 0xC000_0000 && IsQ15(y)
    ensures IsQ31((v + y * 0x8000) / 0x8000)
  {
  }

  function Carry(g: Gains, x: int): int { if g.a0 < 0 && x < 0 then 1 else 0 }

  /** The widened operands contribute (-1)*(-1) when both are negative. */
  lemma DspAccumulator(g: Gains, s: State, x: int)
    requires GainsQ15(g) && StateQ15(s) && IsQ15(x)
    ensures AccumulateDsp(g, s, x) == Increment(g, x, s.x1, s.x2) + Carry(g, x)
  {
    SmuadWidened(g.a0, x);
    MulQ15(g.a0, x);
    SmlaldPacked(g.a1, g.a2, s.x1, s.x2, ToQ31(Smuad(ToU32(g.a0), ToU32(x))));
  }

  lemma SmuadWidened(a: int, x: int)
    requires IsQ15(a) && IsQ15(x)
    ensures ToQ31(Smuad(ToU32(a), ToU32(x))) == a * x + (if a < 0 && x < 0 then 1 else 0)
  {
    WidenedHalves(a);
    WidenedHalves(x);
    SmuadOf(ToU32(a), ToU32(x), a, x);
  }

  lemma SmuadOf(v: int, w: int, a: int, x: int)
    requires IsU32(v) && IsU32(w) && IsQ15(a) && IsQ15(x)
    requires LowHalf(v) == a && HighHalf(v) == (if a < 0 then -1 else 0)
    requires LowHalf(w) == x && HighHalf(w) == (if x < 0 then -1 else 0)
    ensures ToQ31(Smuad(v, w)) == a * x + (if a < 0 && x < 0 then 1 else 0)
  {
    CarryProduct(HighHalf(v), HighHalf(w));
    SmallSum(a, x, HighHalf(v) * HighHalf(w));
  }

  lemma SmallSum(a: int, x: int, carry: int)
    requires IsQ15(a) && IsQ15(x) && 0 <= carry <= 1
    ensures ToQ31(ToU32(a * x + carry)) == a * x + carry
  {
    MulQ15(a, x);
    CastBack(a * x + carry);
  }

  lemma CarryProduct(p: int, q: int)
    requires -1 <= p <= 0 && -1 <= q <= 0
    ensures p * q == if p == -1 && q == -1 then 1 else 0
  {
  }

  lemma SmlaldPacked(a: int, b: int, c: int, d: int, sum: int)
    requires IsQ15(a) && IsQ15(b) && IsQ15(c) && IsQ15(d) && IsQ31(sum)
    ensures Smlald(Pack(a, b), Pack(c, d), sum) == a * c + b * d + sum
  {
    MulQ15(a, c);
    MulQ15(b, d);
    SmallQ63(a * c + b * d + sum);
  }

  lemma SmallQ63(v: int)
    requires IsQ63(v)
    ensures ToQ63(v) == v
  {
  }

  /** One call: the two builds agree unless A0 and the input are both negative;
      then the DSP build is one higher exactly when the extra unit crosses a
      multiple of 2^15 below saturation. */
  lemma DspStepDiffers(g: Gains, s: State, x: int)
    requires GainsQ15(g) && StateQ15(s) && IsQ15(x)
    ensures StepDsp(g, s, x).y == StepQ15(g, s, x).y + RoundUp(g, s, x)
  {
    StepDspValue(g, s, x);
    CarryDiffers(g, s, x, StepDsp(g, s, x).y);
  }

  /** An input on which the builds differ: by DspStepDiffers the DSP build returns
      one more. */
  lemma DspBuildsDiffer(g: Gains, s: State, x: int)
    requires g == Gains(-1, 0, 0) && s == State(0, 0, 0) && x == -0x7FFF
    ensures RoundUp(g, s, x) == 1
  {
    assert Increment(g, x, s.x1, s.x2) == 0x7FFF;
  }

  lemma CarryDiffers(g: Gains, s: State, x: int, y: int)
    requires y == Ssat16((Increment(g, x, s.x1, s.x2) + Carry(g, x) + s.y * 0x8000) / 0x8000)
    ensures y == StepQ15(g, s, x).y + RoundUp(g, s, x)
  {
    CarryIntoSsat(Increment(g, x, s.x1, s.x2), Carry(g, x), s.y);
  }

  /** One when A0 and the input are negative and the extra unit crosses a multiple
      of 2^15 below saturation. */
  function RoundUp(g: Gains, s: State, x: int): int
  {
    if && g.a0 < 0 && x < 0
       && (Increment(g, x, s.x1, s.x2) + 1) % 0x8000 == 0
       && -0x8000 <= Increment(g, x, s.x1, s.x2) / 0x8000 + s.y < 0x7FFF
    then 1 else 0
  }

  lemma StepDspValue(g: Gains, s: State, x: int)
    requires GainsQ15(g) && StateQ15(s) && IsQ15(x)
    ensures StepDsp(g, s, x).y == Ssat16((Increment(g, x, s.x1, s.x2) + Carry(g, x) + s.y * 0x8000) / 0x8000)
  {
    DspAccumulator(g, s, x);
  }

  lemma CarryIntoSsat(v: int, carry: int, y: int)
    requires 0 <= carry <= 1
    ensures var d := Ssat16((v + carry + y * 0x8000) / 0x8000) - Ssat16((v + y * 0x8000) / 0x8000);
            && 0 <= d <= 1
            && (d == 1 <==> carry == 1 && (v + 1) % 0x8000 == 0 && -0x8000 <= v / 0x8000 + y < 0x7FFF)
  {
    FloorShift(v, y);
    FloorShift(v + carry, y);
  }

  lemma FloorShift(v: int, y: int)
    ensures (v + y * 0x8000) / 0x8000 == v / 0x8000 + y
  {
  }

  function Negatives(xs: seq<int>): (n: nat)
    ensures n <= |xs| && ((forall i :: 0 <= i < |xs| ==> xs[i] >= 0) ==> n == 0)
  {
    if xs == [] then 0 else Negatives(xs[..|xs| - 1]) + (if xs[|xs| - 1] < 0 then 1 else 0)
  }

  /** A whole run: the DSP build is never below the portable one, and above it by
      at most one for every negative input, or not at all when A0 >= 0. */
  lemma {:induction false} DspRunDiffers(g: Gains, s: State, xs: seq<int>)
    requires GainsQ15(g) && StateQ15(s) && forall i :: 0 <= i < |xs| ==> IsQ15(xs[i])
    ensures var d, p := RunDsp(g, s, xs), RunQ15(g, s, xs);
            && d.x1 == p.x1 && d.x2 == p.x2 && StateQ15(p)
            && 0 <= d.y - p.y <= (if g.a0 < 0 then Negatives(xs) else 0)
  {
    if xs != [] {
      var ys, x := xs[..|xs| - 1], xs[|xs| - 1];
      DspRunDiffers(g, s, ys);
      var d, p := RunDsp(g, s, ys), RunQ15(g, s, ys);
      StepDspValue(g, d, x);
      var v := Increment(g, x, p.x1, p.x2);
      FloorShift(v + Carry(g, x), d.y);
      FloorShift(v, p.y);
    }
  }

  /** In no call of the run does SSAT act. */
  ghost predicate NeverSaturates(g: Gains, s: State, xs: seq<int>)
  {
    forall n :: 0 <= n < |xs| ==> IsQ15(SsatArgument(g, RunQ15(g, s, xs[..n]), xs[n]))
  }

  ghost predicate FollowsIncrements(g: Gains, s: State, xs: seq<int>)
  {
    forall n :: 0 <= n <= |xs| ==> RunQ15(g, s, xs[..n]).y == Unwrapped(0x8000, g, s, xs[..n])
  }

  /** Saturation or not, the state holds the last two inputs. */
  lemma {:induction false} HistoryQ15(g: Gains, s: State, xs: seq<int>)
    ensures var r := RunQ15(g, s, xs);
            r.x1 == Recent(s, xs, 0) && r.x2 == Recent(s, xs, 1)
  {
    if xs != [] {
      HistoryQ15(g, s, xs[..|xs| - 1]);
      RecentShift(s, xs, 0);
    }
  }

  lemma NextArgument(g: Gains, s: State, xs: seq<int>, x: int)
    requires RunQ15(g, s, xs).y == Unwrapped(0x8000, g, s, xs)
    ensures SsatArgument(g, RunQ15(g, s, xs), x) == Unwrapped(0x8000, g, s, xs + [x])
    ensures RunQ15(g, s, xs + [x]).y == Ssat16(SsatArgument(g, RunQ15(g, s, xs), x))
  {
    var zs := xs + [x];
    assert zs[..|zs| - 1] == xs;
    HistoryQ15(g, s, xs);
    RecentShift(s, zs, 0);
    RecentShift(s, zs, 1);
    FloorShift(Last(g, s, zs), RunQ15(g, s, xs).y);
  }

  lemma {:induction false} FollowsTo(g: Gains, s: State, xs: seq<int>, n: nat)
    requires n <= |xs| && NeverSaturates(g, s, xs)
    ensures RunQ15(g, s, xs[..n]).y == Unwrapped(0x8000, g, s, xs[..n])
  {
    if n != 0 {
      FollowsTo(g, s, xs, n - 1);
      NextArgument(g, s, xs[..n - 1], xs[n - 1]);
      assert xs[..n - 1] + [xs[n - 1]] == xs[..n];
    }
  }

  lemma FollowedCall(g: Gains, s: State, xs: seq<int>, n: nat)
    requires n < |xs| && FollowsIncrements(g, s, xs)
    ensures IsQ15(SsatArgument(g, RunQ15(g, s, xs[..n]), xs[n]))
  {
    NextArgument(g, s, xs[..n], xs[n]);
    assert xs[..n] + [xs[n]] == xs[..n + 1];
  }

  /** The saturating outputs of a run are the sums of the floored increments
      exactly when no call saturates. */
  lemma UnsaturatedIff(g: Gains, s: State, xs: seq<int>)
    ensures FollowsIncrements(g, s, xs) <==> NeverSaturates(g, s, xs)
  {
    if NeverSaturates(g, s, xs) {
      forall n | 0 <= n <= |xs|
        ensures RunQ15(g, s, xs[..n]).y == Unwrapped(0x8000, g, s, xs[..n])
      {
        FollowsTo(g, s, xs, n);
      }
    }
    if FollowsIncrements(g, s, xs) {
      forall n | 0 <= n < |xs|
        ensures IsQ15(SsatArgument(g, RunQ15(g, s, xs[..n]), xs[n]))
      {
        FollowedCall(g, s, xs, n);
      }
    }
  }

  /** As long as no call has saturated, the Q15 controller is below the positional
      value by less than one LSB per call. */
  lemma PidQ15TracksPositional(kp: int, ki: int, kd: int, s: State, xs: seq<int>)
    requires NeverSaturates(FromTerms(kp, ki, kd), s, xs)
    ensures var r := RunQ15(FromTerms(kp, ki, kd), s, xs);
            0 <= ShortfallQ15(kp, ki, kd, s, xs, r.y) <= 0x7FFF * |xs|
  {
    var g := FromTerms(kp, ki, kd);
    FollowsTo(g, s, xs, |xs|);
    assert xs[..|xs|] == xs;
    Telescope(kp, ki, kd, s, xs);
    FloorDrift(0x8000, g, s, xs);
  }

  function ShortfallQ15(kp: int, ki: int, kd: int, s: State, xs: seq<int>, y: int): int
  {
    Positional(kp, ki, kd, s, xs) - Positional(kp, ki, kd, s, []) - 0x8000 * (y - s.y)
  }
}
