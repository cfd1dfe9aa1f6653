/** The distribution metric both versions compute over the chain lengths:
    size, shortest and longest chain, the truncated average chain length and the
    mean squared deviation of the chain lengths from that average. */
module Distribution {
  import opened WordHash
  import opened Chains

  /** The values `toString` prints and `efficiency_factor` returns. The deviation sum
      is kept exact; the efficiency factor is its quotient by the bucket count. */
  datatype Metrics = Metrics(size: int, minLength: int, avgLength: int, maxLength: int, deviationSum: int)
  {
    function EfficiencyFactor(): real {
      deviationSum as real / BUCKETS as real
    }
  }

  /** A running minimum or maximum before and after its first value: the sources start
      them at Integer.MAX_VALUE / Integer.MIN_VALUE (Java) or at +inf / -inf (Python). */
  datatype Extended = NegInf | Finite(n: int) | PosInf

  function MinWith(a: Extended, n: int): Extended {
    match a
    case NegInf => NegInf
    case Finite(m) => Finite(if n < m then n else m)
    case PosInf => Finite(n)
  }

  function MaxWith(a: Extended, n: int): Extended {
    match a
    case NegInf => Finite(n)
    case Finite(m) => Finite(if n > m then n else m)
    case PosInf => PosInf
  }

  /** The length of the shortest chain. */
  function MinLength(t: Table): nat
    requires t != []
  {
    if |t| == 1 then |t[0]|
    else
      var m := MinLength(t[..|t| - 1]);
      var last := |t[|t| - 1]|;
      if last < m then last else m
  }

  /** The length of the longest chain. */
  function MaxLength(t: Table): nat
    requires t != []
  {
    if |t| == 1 then |t[0]|
    else
      var m := MaxLength(t[..|t| - 1]);
      var last := |t[|t| - 1]|;
      if last > m then last else m
  }

  /** MinLength is the length of some chain and no chain is shorter. */
  lemma {:induction false} MinLengthIsMinimum(t: Table)
    requires t != []
    ensures forall b :: 0 <= b < |t| ==> MinLength(t) <= |t[b]|
    ensures exists b :: 0 <= b < |t| && MinLength(t) == |t[b]|
  {
    if |t| == 1 {
      assert MinLength(t) == |t[0]|;
    } else {
      var init := t[..|t| - 1];
      MinLengthIsMinimum(init);
      assert forall b :: 0 <= b < |init| ==> init[b] == t[b];
      if MinLength(t) != |t[|t| - 1]| {
        var b :| 0 <= b < |init| && MinLength(init) == |init[b]|;
        assert MinLength(t) == |t[b]|;
      } else {
        assert MinLength(t) == |t[|t| - 1]|;
      }
    }
  }

  /** MaxLength is the length of some chain and no chain is longer. */
  lemma {:induction false} MaxLengthIsMaximum(t: Table)
    requires t != []
    ensures forall b :: 0 <= b < |t| ==> |t[b]| <= MaxLength(t)
    ensures exists b :: 0 <= b < |t| && MaxLength(t) == |t[b]|
  {
    if |t| == 1 {
      assert MaxLength(t) == |t[0]|;
    } else {
      var init := t[..|t| - 1];
      MaxLengthIsMaximum(init);
      assert forall b :: 0 <= b < |init| ==> init[b] == t[b];
      if MaxLength(t) != |t[|t| - 1]| {
        var b :| 0 <= b < |init| && MaxLength(init) == |init[b]|;
        assert MaxLength(t) == |t[b]|;
      } else {
        assert MaxLength(t) == |t[|t| - 1]|;
      }
    }
  }

  /** One more chain extends the running minimum, maximum and deviation sum of a prefix. */
  lemma PrefixStep(t: Table, b: nat, avg: int)
    requires b < |t|
    ensures MinLength(t[..b + 1]) == if b == 0 then |t[0]| else
      (if |t[b]| < MinLength(t[..b]) then |t[b]| else MinLength(t[..b]))
    ensures MaxLength(t[..b + 1]) == if b == 0 then |t[0]| else
      (if |t[b]| > MaxLength(t[..b]) then |t[b]| else MaxLength(t[..b]))
    ensures DeviationSum(t[..b + 1], avg) == DeviationSum(t[..b], avg) + Square(|t[b]| - avg)
  {
    assert t[..b + 1][..b] == t[..b];
  }

  function Square(x: int): nat {
    x * x
  }

  /** The sum over all chains of the squared difference between the chain length and `avg`. */
  function DeviationSum(t: Table, avg: int): nat {
    if t == [] then 0 else DeviationSum(t[..|t| - 1], avg) + Square(|t[|t| - 1]| - avg)
  }

  /** The metric of a table whose size counter is `size`; the average is the size
      divided by the bucket count with the remainder dropped. */
  function MetricsOf(t: Table, size: int): Metrics
    requires t != []
  {
    var avg := size / BUCKETS;
    Metrics(size, MinLength(t), avg, MaxLength(t), DeviationSum(t, avg))
  }

  /** The state of the metric loop after the first `b` chains: the running minimum and
      maximum are unset before the first chain and then the extremes of the prefix, and
      `dev` is the deviation sum of the prefix. */
  ghost predicate RunningMetrics(t: Table, b: nat, avg: int, lo: Extended, hi: Extended, dev: int)
    requires b <= |t|
  {
    && (b == 0 ==> lo == PosInf && hi == NegInf)
    && (b > 0 ==> lo == Finite(MinLength(t[..b])) && hi == Finite(MaxLength(t[..b])))
    && dev == DeviationSum(t[..b], avg)
  }

  /** Folding the length of chain `b` into the running values moves the loop state on by one chain. */
  lemma RunningStep(t: Table, b: nat, avg: int, lo: Extended, hi: Extended, dev: int)
    requires b < |t| && RunningMetrics(t, b, avg, lo, hi, dev)
    ensures RunningMetrics(t, b + 1, avg, MinWith(lo, |t[b]|), MaxWith(hi, |t[b]|), dev + Square(|t[b]| - avg))
  {
    PrefixStep(t, b, avg);
  }

  /** After the last chain the running values are the metric of the whole table. */
  lemma RunningDone(t: Table, size: int, lo: Extended, hi: Extended, dev: int)
    requires |t| == BUCKETS && RunningMetrics(t, |t|, size / BUCKETS, lo, hi, dev)
    ensures lo.Finite? && hi.Finite?
    ensures Metrics(size, lo.n, size / BUCKETS, hi.n, dev) == MetricsOf(t, size)
  {
    assert t[..|t|] == t;
  }

  /** The node count is at least |t| times the shortest chain. */
  lemma {:induction false} LowerBound(t: Table)
    requires t != []
    ensures MinLength(t) * |t| <= TotalLength(t)
  {
    if |t| > 1 {
      var init := t[..|t| - 1];
      LowerBound(init);
      ScaleStep(MinLength(t), MinLength(init), |init|);
    }
  }

  /** The node count is at most |t| times the longest chain. */
  lemma {:induction false} UpperBound(t: Table)
    requires t != []
    ensures TotalLength(t) <= MaxLength(t) * |t|
  {
    if |t| > 1 {
      var init := t[..|t| - 1];
      UpperBound(init);
      ScaleStep(MaxLength(init), MaxLength(t), |init|);
    }
  }

  lemma ScaleStep(a: nat, b: nat, n: nat)
    requires a <= b
    ensures a * n <= b * n && a * (n + 1) == a * n + a && b * (n + 1) == b * n + b
  {
  }

  lemma DivBounds(lo: int, x: int, hi: int)
    requires lo * BUCKETS <= x <= hi * BUCKETS
    ensures lo <= x / BUCKETS <= hi
  {
    assert x == (x / BUCKETS) * BUCKETS + x % BUCKETS;
  }

  /** The truncated average lies between the shortest and the longest chain, the
      reported size is the node count and the efficiency factor is never negative. */
  lemma MetricsBounds(t: Table)
    requires |t| == BUCKETS
    ensures var m := MetricsOf(t, TotalLength(t));
      && m.size == TotalLength(t)
      && m.minLength <= m.avgLength <= m.maxLength
      && m.EfficiencyFactor() >= 0.0
  {
    LowerBound(t);
    UpperBound(t);
    DivBounds(MinLength(t), TotalLength(t), MaxLength(t));
  }

  lemma {:induction false} DeviationOfEmpty(t: Table)
    requires forall b :: 0 <= b < |t| ==> t[b] == []
    ensures DeviationSum(t, 0) == 0
  {
    if t != [] {
      DeviationOfEmpty(t[..|t| - 1]);
    }
  }

  /** A fresh set has no words, no chain longer than 0 and efficiency factor 0. */
  lemma EmptyMetrics()
    ensures MetricsOf(Empty(), 0) == Metrics(0, 0, 0, 0, 0)
    ensures MetricsOf(Empty(), 0).EfficiencyFactor() == 0.0
  {
    DeviationOfEmpty(Empty());
    MinLengthIsMinimum(Empty());
    MaxLengthIsMaximum(Empty());
  }

  /** The deviation sum vanishes exactly when every chain has length `avg`. */
  lemma {:induction false} DeviationZeroIffUniform(t: Table, avg: int)
    ensures DeviationSum(t, avg) == 0 <==> forall b :: 0 <= b < |t| ==> |t[b]| == avg
  {
    if t != [] {
      var init := t[..|t| - 1];
      DeviationZeroIffUniform(init, avg);
      assert forall b :: 0 <= b < |init| ==> init[b] == t[b];
      var d := |t[|t| - 1]| - avg;
      assert Square(d) == 0 <==> d == 0;
    }
  }
}
