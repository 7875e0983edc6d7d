/** The incremental statistics of the ping library, over the reals, and the verdict of one ping. */
module PingStatistics {
  import opened Options

  // ----- what the running numbers stand for

  function Sum(xs: seq<real>): real {
    if xs == [] then 0.0 else Sum(xs[..|xs| - 1]) + xs[|xs| - 1]
  }

  /** Sum of squared deviations from `c`. */
  function Deviation(xs: seq<real>, c: real): real {
    if xs == [] then 0.0 else Deviation(xs[..|xs| - 1], c) + Square(xs[|xs| - 1] - c)
  }

  function Square(x: real): real {
    x * x
  }

  const MIN_START: real := 1000000000.0

  predicate InRange(xs: seq<real>) {
    forall i :: 0 <= i < |xs| ==> 0.0 <= xs[i] <= MIN_START
  }

  ghost predicate IsMinimum(m: real, xs: seq<real>) {
    m in xs && forall i :: 0 <= i < |xs| ==> m <= xs[i]
  }

  ghost predicate IsMaximum(m: real, xs: seq<real>) {
    m in xs && forall i :: 0 <= i < |xs| ==> xs[i] <= m
  }

  /** `Deviation` about `c + d`, from the one about `c`: `n` values with sum `sum` and deviation `v`. */
  function Shifted(v: real, sum: real, n: real, c: real, d: real): real {
    v - 2.0 * d * (sum - n * c) + n * Square(d)
  }

  lemma ShiftedExtends(v: real, sum: real, n: real, x: real, c: real, d: real)
    ensures Shifted(v, sum, n, c, d) + Square(x - (c + d)) == Shifted(v + Square(x - c), sum + x, n + 1.0, c, d)
  {
    assert Square(x - (c + d)) == Square(x - c) - 2.0 * d * (x - c) + Square(d);
    assert (n + 1.0) * c == n * c + c;
    assert 2.0 * d * (sum + x - (n + 1.0) * c) == 2.0 * d * (sum - n * c) + 2.0 * d * (x - c);
  }

  /** Steiner's shift: moving the centre by `d` away from the mean adds `n * d^2`. */
  lemma {:induction false} DeviationShift(xs: seq<real>, c: real, d: real)
    ensures Deviation(xs, c + d) == Shifted(Deviation(xs, c), Sum(xs), |xs| as real, c, d)
    decreases |xs|
  {
    if xs == [] {
      EmptyShift(c, d);
    } else {
      var init, x := xs[..|xs| - 1], xs[|xs| - 1];
      DeviationShift(init, c, d);
      ShiftedExtends(Deviation(init, c), Sum(init), |init| as real, x, c, d);
      assert |xs| as real == |init| as real + 1.0;
    }
  }

  lemma EmptyShift(c: real, d: real)
    ensures Shifted(0.0, 0.0, 0.0, c, d) == 0.0
  {
  }

  /** One round of the incremental update keeps the exact sum of squared deviations from the exact mean. */
  lemma UpdateIsExact(xs: seq<real>, x: real, n: real, mean: real, mean': real)
    requires n == |xs| as real
    requires mean * n == Sum(xs)
    requires mean' * (n + 1.0) == Sum(xs) + x
    ensures Deviation(xs + [x], mean') == Deviation(xs, mean) + (x - mean) * (x - mean')
  {
    assert (xs + [x])[..|xs|] == xs;
    DeviationShift(xs, mean, mean' - mean);
    assert mean + (mean' - mean) == mean';
    UpdateScalars(Deviation(xs, mean), Sum(xs), n, x, mean, mean');
  }

  lemma UpdateScalars(v: real, sum: real, n: real, x: real, mean: real, mean': real)
    requires mean * n == sum && mean' * (n + 1.0) == sum + x
    ensures Shifted(v, sum, n, mean, mean' - mean) + Square(x - mean') == v + (x - mean) * (x - mean')
  {
    assert sum - n * mean == 0.0;
    UpdateAlgebra(n, x, mean, mean');
  }

  lemma UpdateAlgebra(n: real, x: real, mean: real, mean': real)
    requires mean' * (n + 1.0) == mean * n + x
    ensures n * Square(mean' - mean) + Square(x - mean') == (x - mean) * (x - mean')
  {
    var d := mean' - mean;
    assert n * d == x - mean';
    assert n * Square(d) == (n * d) * d;
    assert (x - mean') * d + (x - mean') * (x - mean') == (x - mean') * (x - mean);
  }

  /** The mean after one more value, where `n` values had the mean `mean`. */
  function NextMean(n: nat, mean: real, x: real): real {
    (n as real * mean + x) / (n + 1) as real
  }

  function NextVariance(variance: real, lastMean: real, mean: real, x: real): real {
    variance + (x - lastMean) * (x - mean)
  }

  /** The statics of `ping.cpp`. */
  class Statistics {
    var transmitted: nat
    var received: nat
    var min_time: real
    var max_time: real
    var mean_time: real
    var last_mean_time: real
    var var_time: real
    ghost var replies: seq<real>

    ghost predicate Valid()
      reads this
    {
      received == |replies| && Describes(replies, min_time, max_time, mean_time, var_time)
    }

    /** The reset at the head of `ping_start`. */
    constructor ()
      ensures Valid() && replies == [] && transmitted == 0
    {
      transmitted, received := 0, 0;
      min_time, max_time, mean_time, last_mean_time, var_time := MIN_START, 0.0, 0.0, 0.0, 0.0;
      replies := [];
    }

    method UpdateExtremes(elapsed: real)
      modifies this`min_time, this`max_time
      ensures min_time == if elapsed < old(min_time) then elapsed else old(min_time)
      ensures max_time == if elapsed > old(max_time) then elapsed else old(max_time)
    {
      if elapsed < min_time {
        min_time := elapsed;
      }
      if elapsed > max_time {
        max_time := elapsed;
      }
    }

    method UpdateMoments(elapsed: real)
      requires received >= 1
      modifies this`last_mean_time, this`mean_time, this`var_time
      ensures mean_time == NextMean(received - 1, old(mean_time), elapsed)
      ensures var_time == if received == 1 then old(var_time)
                          else NextVariance(old(var_time), old(mean_time), mean_time, elapsed)
    {
      last_mean_time := mean_time;
      mean_time := NextMean(received - 1, mean_time, elapsed);
      if received > 1 {
        var_time := NextVariance(var_time, last_mean_time, mean_time, elapsed);
      }
    }

    /** The statistics update of `ping_recv` for a matching reply. */
    method OnReply(elapsed: real)
      requires Valid() && 0.0 <= elapsed <= MIN_START
      modifies this
      ensures Valid() && replies == old(replies) + [elapsed] && transmitted == old(transmitted)
    {
      hide Describes, NextMean, NextVariance;
      UpdateDescribes(replies, min_time, max_time, mean_time, var_time, elapsed);
      received := received + 1;
      UpdateExtremes(elapsed);
      UpdateMoments(elapsed);
      replies := replies + [elapsed];
    }

    /** One round of the loop in `ping_start`: `ping_send`, then `ping_recv` if something was sent. */
    method SendAndReceive(echo: Echo)
      requires Valid() && received <= transmitted
      requires echo.Sent? && echo.reply.Some? ==> 0.0 <= echo.reply.value <= MIN_START
      modifies this
      ensures Valid() && received <= transmitted
      ensures replies == old(replies) + (if echo.Sent? && echo.reply.Some? then [echo.reply.value] else [])
      ensures transmitted == old(transmitted) + if echo.Sent? then 1 else 0
    {
      if echo.Sent? {
        transmitted := transmitted + 1;
        if echo.reply.Some? {
          OnReply(echo.reply.value);
        }
      }
    }
  }

  ghost predicate IsMean(mean: real, xs: seq<real>) {
    if xs == [] then mean == 0.0 else mean * |xs| as real == Sum(xs)
  }

  ghost predicate AreExtremes(lo: real, hi: real, xs: seq<real>) {
    if xs == [] then lo == MIN_START && hi == 0.0 else IsMinimum(lo, xs) && IsMaximum(hi, xs)
  }

  /** The running numbers are the exact statistics of `xs`. */
  ghost predicate Describes(xs: seq<real>, lo: real, hi: real, mean: real, variance: real) {
    InRange(xs) && AreExtremes(lo, hi, xs) && IsMean(mean, xs) && variance == Deviation(xs, mean)
  }

  lemma UpdateDescribes(xs: seq<real>, lo: real, hi: real, mean: real, variance: real, x: real)
    requires Describes(xs, lo, hi, mean, variance) && 0.0 <= x <= MIN_START
    ensures var mean' := NextMean(|xs|, mean, x);
      Describes(xs + [x], if x < lo then x else lo, if x > hi then x else hi, mean',
                if xs == [] then variance else NextVariance(variance, mean, mean', x))
  {
    hide NextMean, NextVariance, AreExtremes, IsMean, Deviation;
    var n := |xs| as real;
    MeanIsExact(|xs|, n, mean, x);
    ExtremesExtend(xs, x, lo, hi);
    MeanExtends(xs, n, mean, x, NextMean(|xs|, mean, x));
    VarianceExtends(xs, n, mean, x, NextMean(|xs|, mean, x));
  }

  lemma MeanExtends(xs: seq<real>, n: real, mean: real, x: real, mean': real)
    requires n == |xs| as real && IsMean(mean, xs) && mean' * (n + 1.0) == mean * n + x
    ensures IsMean(mean', xs + [x])
  {
    assert (xs + [x])[..|xs|] == xs;
    assert |xs + [x]| as real == n + 1.0;
  }

  lemma VarianceExtends(xs: seq<real>, n: real, mean: real, x: real, mean': real)
    requires n == |xs| as real && IsMean(mean, xs) && mean' * (n + 1.0) == mean * n + x
    ensures Deviation(xs + [x], mean')
         == if xs == [] then Deviation(xs, mean) else NextVariance(Deviation(xs, mean), mean, mean', x)
  {
    if xs == [] {
      assert (xs + [x])[..0] == [];
      assert mean' == x;
    } else {
      UpdateIsExact(xs, x, n, mean, mean');
    }
  }

  lemma MeanIsExact(k: nat, n: real, mean: real, x: real)
    requires n == k as real
    ensures NextMean(k, mean, x) * (n + 1.0) == mean * n + x
    ensures k == 0 ==> NextMean(k, mean, x) == x && NextVariance(0.0, mean, x, x) == 0.0
  {
    assert (k + 1) as real == n + 1.0;
  }

  lemma ExtremesExtend(xs: seq<real>, x: real, lo: real, hi: real)
    requires 0.0 <= x <= MIN_START
    requires AreExtremes(lo, hi, xs)
    ensures AreExtremes(if x < lo then x else lo, if x > hi then x else hi, xs + [x])
  {
    var ys := xs + [x];
    assert ys[|xs|] == x;
    if xs != [] {
      var i :| 0 <= i < |xs| && xs[i] == lo;
      var j :| 0 <= j < |xs| && xs[j] == hi;
      assert ys[i] == lo && ys[j] == hi;
    }
  }

  lemma {:induction false} SumBounds(xs: seq<real>, lo: real, hi: real)
    requires forall i :: 0 <= i < |xs| ==> lo <= xs[i] <= hi
    ensures lo * |xs| as real <= Sum(xs) <= hi * |xs| as real
    decreases |xs|
  {
    if xs == [] {
    } else {
      SumBounds(xs[..|xs| - 1], lo, hi);
      assert |xs| as real == |xs[..|xs| - 1]| as real + 1.0;
    }
  }

  /** In every valid state with a reply, the minimum, the exact mean and the maximum are in order. */
  lemma MeanBetweenExtremes(s: Statistics)
    requires s.Valid() && s.received > 0
    ensures s.min_time <= s.mean_time <= s.max_time && s.var_time >= 0.0
    ensures s.var_time == Deviation(s.replies, s.mean_time) && s.mean_time * s.received as real == Sum(s.replies)
  {
    SumBounds(s.replies, s.min_time, s.max_time);
    BetweenAfterDivision(s.min_time, s.mean_time, s.max_time, |s.replies| as real, Sum(s.replies));
    DeviationNonNegative(s.replies, s.mean_time);
  }

  lemma BetweenAfterDivision(lo: real, mean: real, hi: real, n: real, sum: real)
    requires n > 0.0 && lo * n <= sum <= hi * n && mean * n == sum
    ensures lo <= mean <= hi
  {
    assert lo > mean ==> (lo - mean) * n > 0.0;
    assert mean > hi ==> (mean - hi) * n > 0.0;
  }

  lemma {:induction false} DeviationNonNegative(xs: seq<real>, c: real)
    ensures Deviation(xs, c) >= 0.0
    decreases |xs|
  {
    if xs == [] {
    } else {
      DeviationNonNegative(xs[..|xs| - 1], c);
      assert Square(xs[|xs| - 1] - c) >= 0.0;
    }
  }

  // ----- one ping

  /** What happens to one echo request: `sendto` returns zero, or it is sent and a reply may arrive in time. */
  datatype Echo = NotSent | Sent(reply: Option<real>)

  function CountSent(echoes: seq<Echo>): nat {
    if echoes == [] then 0 else CountSent(echoes[..|echoes| - 1]) + if echoes[|echoes| - 1].Sent? then 1 else 0
  }

  function Replies(echoes: seq<Echo>): seq<real> {
    if echoes == [] then []
    else
      var e := echoes[|echoes| - 1];
      Replies(echoes[..|echoes| - 1]) + if e.Sent? && e.reply.Some? then [e.reply.value] else []
  }

  /** Every echo is sent, and none comes back, exactly if the counters say so. */
  lemma {:induction false} Verdict(echoes: seq<Echo>)
    ensures |Replies(echoes)| <= CountSent(echoes) <= |echoes|
    ensures Replies(echoes) == [] && CountSent(echoes) == |echoes|
       <==> forall i :: 0 <= i < |echoes| ==> echoes[i] == Sent(None)
    decreases |echoes|
  {
    if echoes == [] {
    } else {
      var init := echoes[..|echoes| - 1];
      Verdict(init);
      assert forall i :: 0 <= i < |init| ==> init[i] == echoes[i];
    }
  }

  /** `ping_start` and the callback of `PingClass`: true unless every echo was sent and none came back. */
  method Ping(echoes: seq<Echo>) returns (success: bool, statistics: Statistics)
    requires forall e :: e in echoes && e.Sent? && e.reply.Some? ==> 0.0 <= e.reply.value <= MIN_START
    ensures fresh(statistics) && statistics.Valid() && statistics.replies == Replies(echoes)
    ensures statistics.transmitted == CountSent(echoes) && statistics.received <= statistics.transmitted <= |echoes|
    ensures success <==> exists i :: 0 <= i < |echoes| && (echoes[i] == NotSent || echoes[i].reply.Some?)
  {
    hide Describes;
    statistics := new Statistics();
    var pingSeqNum := 0;
    while pingSeqNum < |echoes|
      invariant 0 <= pingSeqNum <= |echoes|
      invariant fresh(statistics) && statistics.Valid()
      invariant statistics.replies == Replies(echoes[..pingSeqNum])
      invariant statistics.transmitted == CountSent(echoes[..pingSeqNum])
      invariant statistics.received <= statistics.transmitted <= pingSeqNum
    {
      var echo := echoes[pingSeqNum];
      assert echo in echoes;
      pingSeqNum := pingSeqNum + 1;
      assert echoes[..pingSeqNum][..pingSeqNum - 1] == echoes[..pingSeqNum - 1];
      statistics.SendAndReceive(echo);
    }
    assert echoes[..pingSeqNum] == echoes;
    var timeoutCount := statistics.transmitted - statistics.received;
    success := |echoes| - timeoutCount > 0;
    Verdict(echoes);
  }
}
