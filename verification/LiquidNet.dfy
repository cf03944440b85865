/**
  The fixed-point recurrent network of liquid_nn.c: eight neurons, three inputs, ten fraction bits,
  and division that truncates toward zero.
 */
module LiquidNet {
  import opened CTypes

  const NEURONS := 8
  const INPUTS := 3
  const SCALE := 1024

  type Layer = s: seq<int> | |s| == NEURONS witness seq(NEURONS, _ => 0)
  type Input = s: seq<int> | |s| == INPUTS witness seq(INPUTS, _ => 0)
  type InputWeights = s: seq<Layer> | |s| == INPUTS witness seq(INPUTS, _ => Times(0))
  type Weights = s: seq<Layer> | |s| == NEURONS witness seq(NEURONS, _ => Times(0))

  /** The same number for each neuron. */
  function Times(x: int): Layer {
    seq(NEURONS, _ => x)
  }

  /** FXP_MUL */
  function Mul(a: int, b: int): int {
    TruncDiv(a * b, SCALE)
  }

  /** The sum over j < n of the products of x[j] with column i of w. */
  function Weighted(x: seq<int>, w: seq<Layer>, i: nat, n: nat): int
    requires n <= |x| == |w| && i < NEURONS
  {
    if n == 0 then 0 else Weighted(x, w, i, n - 1) + Mul(x[n - 1], w[n - 1][i])
  }

  /** What liquid_init leaves: every recurrent weight FXP_FROM_FLOAT(0.01f), which truncates to 10. */
  function Recurrent(): Weights {
    seq(NEURONS, _ => Times(10))
  }

  /** The next value of neuron i, once tau is FXP_FROM_FLOAT(1.0f). */
  function NextNeuron(neurons: Layer, input: Input, w: InputWeights, i: nat): int
    requires i < NEURONS
  {
    Weighted(input, w, i, INPUTS) + Weighted(neurons, Recurrent(), i, NEURONS)
  }

  function Next(neurons: Layer, input: Input, w: InputWeights): Layer {
    seq(NEURONS, i requires 0 <= i < NEURONS => NextNeuron(neurons, input, w, i))
  }

  function Run(neurons: Layer, inputs: seq<Input>, w: InputWeights): Layer
    decreases |inputs|
  {
    if inputs == [] then neurons else Run(Next(neurons, inputs[0], w), inputs[1..], w)
  }

  // ---------------------------------------------------------------------------
  // The network
  // ---------------------------------------------------------------------------

  class Net {
    const neurons: array<int>
    const weights: array2<int>
    const inputWeights: array2<int>
    const tau: array<int>
    // The contents of inputWeights.
    ghost var iw: InputWeights

    ghost predicate Valid()
      reads this, neurons, weights, inputWeights, tau
    {
      && neurons.Length == tau.Length == NEURONS && neurons != tau
      && weights.Length0 == weights.Length1 == inputWeights.Length1 == NEURONS && inputWeights.Length0 == INPUTS
      && weights != inputWeights
      && (forall i :: 0 <= i < NEURONS ==> tau[i] == SCALE)
      && (forall j, i :: 0 <= j < NEURONS && 0 <= i < NEURONS ==> weights[j, i] == 10)
      && forall j, i :: 0 <= j < INPUTS && 0 <= i < NEURONS ==> inputWeights[j, i] == iw[j][i]
    }

    /** liquid_init */
    constructor ()
      ensures Valid() && fresh(neurons) && fresh(weights) && fresh(inputWeights) && fresh(tau)
      ensures neurons[..] == Times(102) && iw == seq(INPUTS, _ => Times(10))
    {
      neurons, tau := new int[NEURONS], new int[NEURONS];
      weights, inputWeights := new int[NEURONS, NEURONS], new int[INPUTS, NEURONS];
      new;
      for i := 0 to NEURONS
        invariant neurons.Length == tau.Length == NEURONS && neurons != tau
        invariant forall k :: 0 <= k < i ==> neurons[k] == 102 && tau[k] == SCALE
        invariant forall k, j :: 0 <= k < i && 0 <= j < NEURONS ==> weights[k, j] == 10
        invariant forall k, j :: 0 <= k < i && 0 <= j < INPUTS ==> inputWeights[j, k] == 10
      {
        neurons[i] := 102;
        tau[i] := SCALE;
        for j := 0 to NEURONS
          modifies weights
          invariant forall k, l :: 0 <= k < i && 0 <= l < NEURONS ==> weights[k, l] == 10
          invariant forall l :: 0 <= l < j ==> weights[i, l] == 10
        {
          weights[i, j] := 10;
        }
        for j := 0 to INPUTS
          modifies inputWeights
          invariant forall k, l :: 0 <= k < i && 0 <= l < INPUTS ==> inputWeights[l, k] == 10
          invariant forall l :: 0 <= l < j ==> inputWeights[l, i] == 10
        {
          inputWeights[j, i] := 10;
        }
      }
      iw := seq(INPUTS, _ => Times(10));
    }

    /** liquid_step */
    method Step(input: Input)
      requires Valid()
      modifies neurons
      ensures Valid()
      ensures neurons[..] == Next(old(neurons[..]), input, iw)
    {
      var dN := new int[NEURONS];
      ghost var was := neurons[..];
      for i := 0 to NEURONS
        invariant neurons[..] == was
        invariant forall k :: 0 <= k < i ==> dN[k] == NextNeuron(was, input, iw, k) - was[k]
      {
        var total := 0;
        for j := 0 to INPUTS
          invariant total == Weighted(input, iw, i, j)
        {
          assert iw[j][i] == inputWeights[j, i];
          total := total + Mul(input[j], inputWeights[j, i]);
        }
        for j := 0 to NEURONS
          invariant total == Weighted(input, iw, i, INPUTS) + Weighted(was, Recurrent(), i, j)
        {
          assert Recurrent()[j][i] == weights[j, i] && was[j] == neurons[j];
          total := total + Mul(neurons[j], weights[j, i]);
        }
        ScaleCancels(total - neurons[i]);
        dN[i] := TruncDiv((total - neurons[i]) * SCALE, tau[i]);
      }
      for i := 0 to NEURONS
        modifies neurons
        invariant forall k :: 0 <= k < NEURONS ==> neurons[k] == if k < i then NextNeuron(was, input, iw, k) else was[k]
      {
        neurons[i] := neurons[i] + dN[i];
      }
    }
  }

  lemma ScaleCancels(x: int)
    ensures TruncDiv(x * SCALE, SCALE) == x
  {
  }

  // ---------------------------------------------------------------------------
  // One step as a linear map
  // ---------------------------------------------------------------------------

  /** The sum before the fraction bits are cut off each product. */
  function Exact(x: seq<int>, w: seq<Layer>, i: nat, n: nat): int
    requires n <= |x| == |w| && i < NEURONS
  {
    if n == 0 then 0 else Exact(x, w, i, n - 1) + x[n - 1] * w[n - 1][i]
  }

  lemma CutProduct(p: int)
    ensures var cut := SCALE * TruncDiv(p, SCALE);
            Abs(cut - p) <= 1023 && (p % 1024 == 0 ==> cut == p) && (p >= 0 ==> 0 <= cut <= p)
                && (p <= 0 ==> p <= cut <= 0)
  {
  }

  ghost predicate WholeProducts(x: seq<int>, w: seq<Layer>, i: nat, n: nat)
    requires n <= |x| == |w| && i < NEURONS
  {
    forall j :: 0 <= j < n ==> x[j] * w[j][i] % 1024 == 0
  }

  lemma {:induction false} WeightedIsNearExact(x: seq<int>, w: seq<Layer>, i: nat, n: nat)
    requires n <= |x| == |w| && i < NEURONS
    ensures Abs(SCALE * Weighted(x, w, i, n) - Exact(x, w, i, n)) <= 1023 * n
    ensures WholeProducts(x, w, i, n) ==> SCALE * Weighted(x, w, i, n) == Exact(x, w, i, n)
  {
    hide TruncDiv;
    if n > 0 {
      WeightedIsNearExact(x, w, i, n - 1);
      CutProduct(x[n - 1] * w[n - 1][i]);
    }
  }

  lemma ThreeInputs(x: Input, w: InputWeights, i: nat)
    requires i < NEURONS
    ensures Exact(x, w, i, INPUTS) == x[0] * w[0][i] + x[1] * w[1][i] + x[2] * w[2][i]
  {
    assert Exact(x, w, i, 1) == x[0] * w[0][i];
    assert Exact(x, w, i, 2) == Exact(x, w, i, 1) + x[1] * w[1][i];
  }

  lemma EightNeurons(x: Layer, i: nat)
    requires i < NEURONS
    ensures Exact(x, Recurrent(), i, NEURONS) == 10 * (x[0] + x[1] + x[2] + x[3] + x[4] + x[5] + x[6] + x[7])
  {
    var w := Recurrent();
    assert Exact(x, w, i, 1) == 10 * x[0];
    assert Exact(x, w, i, 2) == Exact(x, w, i, 1) + 10 * x[1];
    assert Exact(x, w, i, 3) == Exact(x, w, i, 2) + 10 * x[2];
    assert Exact(x, w, i, 4) == Exact(x, w, i, 3) + 10 * x[3];
    assert Exact(x, w, i, 5) == Exact(x, w, i, 4) + 10 * x[4];
    assert Exact(x, w, i, 6) == Exact(x, w, i, 5) + 10 * x[5];
    assert Exact(x, w, i, 7) == Exact(x, w, i, 6) + 10 * x[6];
  }

  /**
    Every neuron becomes, in units of 1/1024 and but for the fractions cut off eleven products, all three inputs by
    their weights and ten times all eight neurons; and exactly that where nothing is cut off.
   */
  lemma StepIsLinear(neurons: Layer, x: Input, w: InputWeights, i: nat)
    requires i < NEURONS
    ensures var n := neurons;
            var exact := x[0] * w[0][i] + x[1] * w[1][i] + x[2] * w[2][i]
                         + 10 * (n[0] + n[1] + n[2] + n[3] + n[4] + n[5] + n[6] + n[7]);
            && Abs(1024 * Next(n, x, w)[i] - exact) <= 11 * 1023
            && (WholeProducts(x, w, i, INPUTS) && WholeProducts(n, Recurrent(), i, NEURONS) ==>
                  1024 * Next(n, x, w)[i] == exact)
  {
    hide Weighted, Exact, Recurrent, WholeProducts;
    WeightedIsNearExact(x, w, i, INPUTS);
    WeightedIsNearExact(neurons, Recurrent(), i, NEURONS);
    ThreeInputs(x, w, i);
    EightNeurons(neurons, i);
  }

  // ---------------------------------------------------------------------------
  // Fading memory
  // ---------------------------------------------------------------------------

  /** No neuron differs by more than d. */
  ghost predicate Within(a: Layer, b: Layer, d: nat) {
    forall j :: 0 <= j < NEURONS ==> Abs(a[j] - b[j]) <= d
  }

  function Abs(x: int): nat {
    if x < 0 then -x else x
  }

  function GapTo(a: Layer, b: Layer, n: nat): nat
    requires n <= NEURONS
  {
    if n == 0 then 0
    else if Abs(a[n - 1] - b[n - 1]) > GapTo(a, b, n - 1) then Abs(a[n - 1] - b[n - 1]) else GapTo(a, b, n - 1)
  }

  /** The largest difference between two states of the network. */
  function Gap(a: Layer, b: Layer): nat {
    GapTo(a, b, NEURONS)
  }

  lemma {:induction false} GapToIsLargest(a: Layer, b: Layer, n: nat)
    requires n <= NEURONS
    ensures forall j :: 0 <= j < n ==> Abs(a[j] - b[j]) <= GapTo(a, b, n)
    ensures n > 0 ==> exists j :: 0 <= j < n && Abs(a[j] - b[j]) == GapTo(a, b, n)
  {
    if n > 0 {
      GapToIsLargest(a, b, n - 1);
      if n == 1 || Abs(a[n - 1] - b[n - 1]) > GapTo(a, b, n - 1) {
        assert Abs(a[n - 1] - b[n - 1]) == GapTo(a, b, n);
      }
    }
  }

  lemma GapIsLeastBound(a: Layer, b: Layer, d: nat)
    ensures Within(a, b, d) <==> Gap(a, b) <= d
  {
    GapToIsLargest(a, b, NEURONS);
  }

  /** Truncated division moves two numbers at most one further apart than their scaled distance, rounded down. */
  lemma TruncationAddsOne(a: int, b: int, d: nat)
    requires Abs(a - b) <= d
    ensures Abs(Mul(a, 10) - Mul(b, 10)) <= d * 10 / SCALE + 1
  {
    if a < b {
      TruncationOrdered(b, a, d);
    } else {
      TruncationOrdered(a, b, d);
    }
  }

  lemma TruncationOrdered(a: int, b: int, d: nat)
    requires 0 <= a - b <= d
    ensures 0 <= Mul(a, 10) - Mul(b, 10) <= d * 10 / SCALE + 1
  {
  }

  lemma {:induction false} RecurrentGap(a: Layer, b: Layer, d: nat, i: nat, n: nat)
    requires Within(a, b, d) && i < NEURONS && n <= NEURONS
    ensures Abs(Weighted(a, Recurrent(), i, n) - Weighted(b, Recurrent(), i, n)) <= n * (d * 10 / SCALE + 1)
  {
    if n > 0 {
      RecurrentGap(a, b, d, i, n - 1);
      TruncationAddsOne(a[n - 1], b[n - 1], d);
      assert n * (d * 10 / SCALE + 1) == (n - 1) * (d * 10 / SCALE + 1) + (d * 10 / SCALE + 1);
    }
  }

  /** One step under one input: the gap d becomes at most 8 * (10 d / 1024 + 1), rounding down. */
  lemma StepGap(a: Layer, b: Layer, input: Input, w: InputWeights)
    ensures Gap(Next(a, input, w), Next(b, input, w)) <= 8 * (Gap(a, b) * 10 / SCALE + 1)
  {
    hide Weighted, GapTo, Abs;
    var d := Gap(a, b);
    GapIsLeastBound(a, b, d);
    var a', b' := Next(a, input, w), Next(b, input, w);
    forall i | 0 <= i < NEURONS ensures Abs(a'[i] - b'[i]) <= 8 * (d * 10 / SCALE + 1) {
      RecurrentGap(a, b, d, i, NEURONS);
    }
    GapIsLeastBound(a', b', 8 * (d * 10 / SCALE + 1));
  }

  /** A gap above 8 strictly shrinks, what exceeds 8 by a factor of ten or more; a gap of at most 8 stays so. */
  lemma GapShrinks(a: Layer, b: Layer, input: Input, w: InputWeights)
    ensures var d, d' := Gap(a, b), Gap(Next(a, input, w), Next(b, input, w));
            if d > 8 then d' < d && (d' <= 8 || 10 * (d' - 8) <= d - 8) else d' <= 8
  {
    StepGap(a, b, input, w);
  }

  function Power10(k: nat): (p: nat)
    ensures p >= 1
  {
    if k == 0 then 1 else 10 * Power10(k - 1)
  }

  /** What of a gap d0 exceeds 8 has come down to at most a 10^k-th. */
  ghost predicate Faded(k: nat, d: nat, d0: nat) {
    d <= 8 || Power10(k) * (d - 8) <= d0 - 8
  }

  lemma OneMoreStep(k: nat, d: nat, d1: nat, d0: nat)
    requires Faded(k, d, d1)
    requires d1 <= 8 || 10 * (d1 - 8) <= d0 - 8
    ensures Faded(k + 1, d, d0)
  {
    if d > 8 {
      var p := Power10(k);
      assert p * (d - 8) >= 1;
      assert Power10(k + 1) * (d - 8) == 10 * (p * (d - 8));
    }
  }

  /**
    Fading memory: whatever the two starting states, the input weights and the inputs, after k steps
    the gap exceeds 8 by at most a 10^k-th of what the first gap did.
   */
  lemma {:induction false} MemoryFades(a: Layer, b: Layer, inputs: seq<Input>, w: InputWeights)
    ensures Faded(|inputs|, Gap(Run(a, inputs, w), Run(b, inputs, w)), Gap(a, b))
    decreases |inputs|
  {
    hide Gap, Next;
    if inputs != [] {
      hide Faded;
      var a', b' := Next(a, inputs[0], w), Next(b, inputs[0], w);
      MemoryFades(a', b', inputs[1..], w);
      GapShrinks(a, b, inputs[0], w);
      OneMoreStep(|inputs| - 1, Gap(Run(a, inputs, w), Run(b, inputs, w)), Gap(a', b'), Gap(a, b));
    }
  }

  /** So two runs forget where they started, up to 8 units, after as many steps as the first gap has digits. */
  lemma StartIsForgotten(a: Layer, b: Layer, inputs: seq<Input>, w: InputWeights)
    requires Gap(a, b) < Power10(|inputs|)
    ensures Gap(Run(a, inputs, w), Run(b, inputs, w)) <= 8
  {
    hide Gap, Run, Faded, Power10;
    MemoryFades(a, b, inputs, w);
    FadedBelow(|inputs|, Gap(Run(a, inputs, w), Run(b, inputs, w)), Gap(a, b));
  }

  lemma FadedBelow(k: nat, d: nat, d0: nat)
    requires Faded(k, d, d0) && d0 < Power10(k)
    ensures d <= 8
  {
    hide Power10;
    UpTo(1, if d > 8 then d - 8 else 1, Power10(k));
  }

  /** The 8 cannot be improved: under one constant input two states 8 apart both stand still. */
  lemma EightIsReached(inputs: seq<Input>, w: InputWeights)
    requires w == seq(INPUTS, _ => Times(10))
    requires forall k :: 0 <= k < |inputs| ==> inputs[k] == [9728, 0, 0]
    ensures Run(Times(95), inputs, w) == Times(95) && Run(Times(103), inputs, w) == Times(103)
    ensures Gap(Times(95), Times(103)) == 8
  {
    StandsStill(Times(95), 95, inputs, w);
    StandsStill(Times(103), 103, inputs, w);
    GapIsLeastBound(Times(95), Times(103), 8);
    GapIsLeastBound(Times(95), Times(103), 7);
    assert Times(103)[0] - Times(95)[0] == 8;
  }

  lemma {:induction false} StandsStill(a: Layer, x: int, inputs: seq<Input>, w: InputWeights)
    requires a == Times(x) && (x == 95 || x == 103)
    requires w == seq(INPUTS, _ => Times(10))
    requires forall k :: 0 <= k < |inputs| ==> inputs[k] == [9728, 0, 0]
    ensures Run(a, inputs, w) == a
    decreases |inputs|
  {
    if inputs != [] {
      forall i | 0 <= i < NEURONS ensures NextNeuron(a, inputs[0], w, i) == x {
        UniformSum(x, i, NEURONS);
        InputSum(w, i);
      }
      assert Next(a, inputs[0], w) == a;
      StandsStill(a, x, inputs[1..], w);
    }
  }

  lemma {:induction false} UniformSum(x: int, i: nat, n: nat)
    requires i < NEURONS && n <= NEURONS && (x == 95 || x == 103)
    ensures Weighted(Times(x), Recurrent(), i, n) == if x == 95 then 0 else n
  {
    if n > 0 {
      UniformSum(x, i, n - 1);
    }
  }

  lemma InputSum(w: InputWeights, i: nat)
    requires i < NEURONS && w == seq(INPUTS, _ => Times(10))
    ensures Weighted([9728, 0, 0], w, i, INPUTS) == 95
  {
    var x: Input := [9728, 0, 0];
    assert Weighted(x, w, i, 1) == Weighted(x, w, i, 0) + Mul(9728, 10) == 95;
    assert Weighted(x, w, i, 2) == 95 + Mul(0, 10);
  }

  // ---------------------------------------------------------------------------
  // Boundedness
  // ---------------------------------------------------------------------------

  ghost predicate Bounded(x: seq<int>, b: nat) {
    forall j :: 0 <= j < |x| ==> Abs(x[j]) <= b
  }

  lemma MulBound(a: int, b: int, p: nat, q: nat)
    requires Abs(a) <= p && Abs(b) <= q
    ensures SCALE * Abs(Mul(a, b)) <= p * q
  {
    ProductBound(a, b, p, q);
    TruncDivAbs(a * b);
  }

  lemma TruncDivAbs(x: int)
    ensures SCALE * Abs(TruncDiv(x, SCALE)) <= Abs(x)
  {
  }

  lemma {:induction false} WeightedBound(x: seq<int>, w: seq<Layer>, i: nat, n: nat, p: nat, q: nat)
    requires n <= |x| == |w| && i < NEURONS
    requires Bounded(x, p) && forall j :: 0 <= j < |w| ==> Bounded(w[j], q)
    ensures SCALE * Abs(Weighted(x, w, i, n)) <= n * (p * q)
  {
    if n > 0 {
      WeightedBound(x, w, i, n - 1, p, q);
      assert Bounded(w[n - 1], q);
      MulBound(x[n - 1], w[n - 1][i], p, q);
      assert n * (p * q) == (n - 1) * (p * q) + p * q;
    }
  }

  /** With inputs within X, input weights within W and 944 B >= 3 W X, neurons within B stay within B forever. */
  lemma {:induction false} StaysBounded(a: Layer, inputs: seq<Input>, w: InputWeights, X: nat, W: nat, B: nat)
    requires Bounded(a, B) && 944 * B >= 3 * (X * W)
    requires forall k :: 0 <= k < |inputs| ==> Bounded(inputs[k], X)
    requires forall j :: 0 <= j < INPUTS ==> Bounded(w[j], W)
    ensures Bounded(Run(a, inputs, w), B)
    decreases |inputs|
  {
    if inputs != [] {
      var a' := Next(a, inputs[0], w);
      forall i | 0 <= i < NEURONS ensures Abs(a'[i]) <= B {
        assert Bounded(inputs[0], X);
        WeightedBound(inputs[0], w, i, INPUTS, X, W);
        WeightedBound(a, Recurrent(), i, NEURONS, B, 10);
      }
      StaysBounded(a', inputs[1..], w, X, W, B);
    }
  }

  /** The value fits in a 64-bit long. */
  predicate InLong(x: int) {
    -0x8000_0000_0000_0000 <= x < 0x8000_0000_0000_0000
  }

  /** Under the same bounds, with B at most 2^51, no product, partial sum or scaled difference of a step overflows. */
  lemma NoOverflow(a: Layer, input: Input, w: InputWeights, X: nat, W: nat, B: nat, i: nat)
    requires Bounded(a, B) && Bounded(input, X) && (forall j :: 0 <= j < INPUTS ==> Bounded(w[j], W))
    requires 944 * B >= 3 * (X * W) && B <= 0x8_0000_0000_0000 && i < NEURONS
    ensures forall j :: 0 <= j < INPUTS ==> InLong(input[j] * w[j][i]) && InLong(Weighted(input, w, i, j + 1))
    ensures forall j :: 0 <= j < NEURONS ==> InLong(a[j] * Recurrent()[j][i])
    ensures forall n :: 0 <= n <= NEURONS ==> InLong(Weighted(input, w, i, INPUTS) + Weighted(a, Recurrent(), i, n))
    ensures InLong((NextNeuron(a, input, w, i) - a[i]) * SCALE)
  {
    hide Weighted;
    forall j | 0 <= j < INPUTS ensures InLong(input[j] * w[j][i]) && InLong(Weighted(input, w, i, j + 1)) {
      assert Bounded(w[j], W);
      ProductBound(input[j], w[j][i], X, W);
      WeightedBound(input, w, i, j + 1, X, W);
      UpTo(j + 1, INPUTS, X * W);
    }
    WeightedBound(input, w, i, INPUTS, X, W);
    forall n | 0 <= n <= NEURONS ensures InLong(Weighted(input, w, i, INPUTS) + Weighted(a, Recurrent(), i, n)) {
      WeightedBound(a, Recurrent(), i, n, B, 10);
      UpTo(n, NEURONS, B * 10);
    }
    WeightedBound(a, Recurrent(), i, NEURONS, B, 10);
  }

  lemma UpTo(n: nat, m: nat, x: nat)
    requires n <= m
    ensures n * x <= m * x
  {
  }

  lemma ProductBound(a: int, b: int, p: nat, q: nat)
    requires Abs(a) <= p && Abs(b) <= q
    ensures Abs(a * b) <= p * q
  {
    assert Abs(a) * Abs(b) <= p * Abs(b) <= p * q;
    assert Abs(a * b) == Abs(a) * Abs(b);
  }
}
