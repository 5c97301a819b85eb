/** Congestion marking in GenericLinkService: when a packet is marked, and what the marking intervals are. */
module Congestion {
  import opened Packets

  /** `baseInterval` in nanoseconds. */
  datatype Config = Config(threshold: nat, baseInterval: nat)

  /** `nextMarkTime` is None for time_point::max(). */
  datatype Marker = Marker(nextMarkTime: Option<nat>, nMarked: nat)

  /** checkCongestionLevel() with the send queue length and the time it sees. */
  datatype Check = Check(sendQueueLength: int, now: nat)

  // ---------------------------------------------------------------- intervals

  /** `x` is the base interval divided by the square root of `k`, rounded down. */
  predicate IsInterval(base: nat, k: nat, x: nat)
  {
    x * x * k <= base * base < (x + 1) * (x + 1) * k
  }

  lemma SquareGrows(x: nat, y: nat, k: nat)
    requires x <= y
    ensures x * x * k <= y * y * k
  {
    assert x * x <= x * y <= y * y;
    Scale(x * x, y * y, k);
  }

  lemma Scale(a: nat, b: nat, k: nat)
    requires a <= b
    ensures a * k <= b * k
  {
  }

  /** There is exactly one such interval. */
  lemma IntervalUnique(base: nat, k: nat, x: nat, y: nat)
    requires IsInterval(base, k, x) && IsInterval(base, k, y)
    ensures x == y
  {
    if x < y {
      SquareGrows(x + 1, y, k);
    } else if y < x {
      SquareGrows(y + 1, x, k);
    }
  }

  /** Search downwards from a value that is too large. */
  function SearchInterval(base: nat, k: nat, above: nat): (x: nat)
    requires k > 0 && base * base < above * above * k
    ensures IsInterval(base, k, x)
  {
    assert above > 0;
    if (above - 1) * (above - 1) * k <= base * base then above - 1 else SearchInterval(base, k, above - 1)
  }

  function Interval(base: nat, k: nat): (x: nat)
    requires k > 0
    ensures IsInterval(base, k, x)
  {
    Enough(base, k);
    SearchInterval(base, k, base + 1)
  }

  lemma Enough(base: nat, k: nat)
    requires k > 0
    ensures base * base < (base + 1) * (base + 1) * k
  {
    assert (base + 1) * (base + 1) == base * base + 2 * base + 1;
    Scale(1, k, (base + 1) * (base + 1));
  }

  /** The first interval of an incident is the base interval itself. */
  lemma FirstInterval(base: nat)
    ensures Interval(base, 1) == base
  {
    assert (base + 1) * (base + 1) == base * base + 2 * base + 1;
    IntervalUnique(base, 1, Interval(base, 1), base);
  }

  /** Intervals never grow from one mark to the next. */
  lemma IntervalsShrink(base: nat, k: nat)
    requires k > 0
    ensures Interval(base, k + 1) <= Interval(base, k)
  {
    LaterIsSmaller(base, k, Interval(base, k), Interval(base, k + 1));
  }

  lemma LaterIsSmaller(base: nat, k: nat, x: nat, y: nat)
    requires IsInterval(base, k, x) && IsInterval(base, k + 1, y)
    ensures y <= x
  {
    OneMore(y * y, k);
    if y > x {
      SquareGrows(x + 1, y, k);
    }
  }

  lemma OneMore(a: nat, k: nat)
    ensures a * k <= a * (k + 1)
  {
  }

  /** Sum of the first `k` intervals. */
  function Sum(base: nat, k: nat): nat
  {
    if k == 0 then 0 else Sum(base, k - 1) + Interval(base, k)
  }

  /** Marks come due ever closer: each interval is at most the one before, so the k-th sum lies between k times
      the k-th interval and k times the base interval. */
  lemma {:induction false} SumBounds(base: nat, k: nat)
    requires k > 0
    ensures Sum(base, k + 1) - Sum(base, k) <= Sum(base, k) - Sum(base, k - 1)
    ensures k * Interval(base, k) <= Sum(base, k) <= k * base
  {
    IntervalsShrink(base, k);
    if k == 1 {
      FirstInterval(base);
      assert Sum(base, 0) == 0;
    } else {
      SumBounds(base, k - 1);
      IntervalsShrink(base, k - 1);
      IntervalBelowBase(base, k);
      assert (k - 1) * Interval(base, k) <= (k - 1) * Interval(base, k - 1) by {
        Scale(Interval(base, k), Interval(base, k - 1), k - 1);
      }
      assert k * Interval(base, k) == (k - 1) * Interval(base, k) + Interval(base, k);
      assert k * base == (k - 1) * base + base;
    }
  }

  lemma {:induction false} IntervalBelowBase(base: nat, k: nat)
    requires k > 0
    ensures Interval(base, k) <= base
  {
    if k == 1 {
      FirstInterval(base);
    } else {
      IntervalBelowBase(base, k - 1);
      IntervalsShrink(base, k - 1);
    }
  }

  // ---------------------------------------------------------------- one check

  function Init(): Marker
  {
    Marker(None, 0)
  }

  predicate Above(cfg: Config, c: Check)
  {
    c.sendQueueLength > cfg.threshold
  }

  /** Whether the packet of this check is marked. */
  predicate Marks(m: Marker, cfg: Config, c: Check)
  {
    c.sendQueueLength >= 0 && Above(cfg, c) && m.nextMarkTime.Some? && c.now >= m.nextMarkTime.value
  }

  function Step(m: Marker, cfg: Config, c: Check): Marker
  {
    if c.sendQueueLength < 0 then m
    else if !Above(cfg, c) then Marker(None, if m.nextMarkTime.Some? then 0 else m.nMarked)
    else if m.nextMarkTime.None? then m.(nextMarkTime := Some(c.now + cfg.baseInterval))
    else if c.now >= m.nextMarkTime.value then
      Marker(Some(m.nextMarkTime.value + Interval(cfg.baseInterval, m.nMarked + 2)), m.nMarked + 1)
    else m
  }

  function Run(cfg: Config, checks: seq<Check>): Marker
  {
    if checks == [] then Init() else Step(Run(cfg, checks[..|checks| - 1]), cfg, checks[|checks| - 1])
  }

  // ---------------------------------------------------------------- incidents

  /** The checks of the congestion incident that is open after these checks: those above the threshold since
      the last one at or below it. Checks that see no queue length do not count. */
  function Incident(cfg: Config, checks: seq<Check>): seq<Check>
  {
    if checks == [] then []
    else
      var earlier, c := Incident(cfg, checks[..|checks| - 1]), checks[|checks| - 1];
      if c.sendQueueLength < 0 then earlier else if Above(cfg, c) then earlier + [c] else []
  }

  /** Times of the marks made in the open incident. */
  function MarkTimes(cfg: Config, checks: seq<Check>): seq<nat>
  {
    if checks == [] then []
    else
      var before, c := checks[..|checks| - 1], checks[|checks| - 1];
      if c.sendQueueLength < 0 then MarkTimes(cfg, before)
      else if !Above(cfg, c) then []
      else MarkTimes(cfg, before) + if Marks(Run(cfg, before), cfg, c) then [c.now] else []
  }

  /** The time before which the k-th mark (counting from 1) of an incident that began at `start` cannot come. */
  function Due(cfg: Config, start: nat, k: nat): nat
  {
    start + Sum(cfg.baseInterval, k)
  }

  /** The marking state, the open incident and the times of its marks agree with the control law. */
  predicate Lawful(cfg: Config, m: Marker, incident: seq<Check>, marks: seq<nat>)
  {
    && m.nMarked == |marks|
    && (incident == [] ==> m.nextMarkTime.None? && marks == [])
    && (incident != [] ==>
          && m.nextMarkTime == Some(Due(cfg, incident[0].now, |marks| + 1))
          && forall k :: 0 <= k < |marks| ==> marks[k] >= Due(cfg, incident[0].now, k + 1))
  }

  predicate Inv(cfg: Config, checks: seq<Check>)
  {
    Lawful(cfg, Run(cfg, checks), Incident(cfg, checks), MarkTimes(cfg, checks))
  }

  /** An incident begins. */
  lemma BeginLawful(cfg: Config, m: Marker, c: Check)
    requires Lawful(cfg, m, [], []) && Above(cfg, c)
    ensures Lawful(cfg, m.(nextMarkTime := Some(c.now + cfg.baseInterval)), [c], [])
  {
    SumFirst(cfg.baseInterval);
  }

  /** A packet is marked. */
  lemma MarkLawful(cfg: Config, m: Marker, incident: seq<Check>, marks: seq<nat>, c: Check)
    requires Lawful(cfg, m, incident, marks) && incident != [] && Marks(m, cfg, c)
    ensures Lawful(cfg, Step(m, cfg, c), incident + [c], marks + [c.now])
  {
    SumNext(cfg.baseInterval, |marks| + 1);
  }

  lemma StepInv(cfg: Config, checks: seq<Check>, c: Check)
    requires Inv(cfg, checks)
    ensures Inv(cfg, checks + [c])
  {
    assert (checks + [c])[..|checks|] == checks;
    var m, incident, marks := Run(cfg, checks), Incident(cfg, checks), MarkTimes(cfg, checks);
    if c.sendQueueLength >= 0 && Above(cfg, c) {
      if incident == [] {
        BeginLawful(cfg, m, c);
      } else if Marks(m, cfg, c) {
        MarkLawful(cfg, m, incident, marks, c);
      }
    }
  }

  lemma SumFirst(base: nat)
    ensures Sum(base, 1) == base
  {
    FirstInterval(base);
    assert Sum(base, 1) == Sum(base, 0) + Interval(base, 1);
  }

  lemma SumNext(base: nat, k: nat)
    ensures Sum(base, k + 1) == Sum(base, k) + Interval(base, k + 1)
  {
  }

  /** In every run: the k-th mark of the open incident came no earlier than its start plus the sum of the
      first k intervals, the next one is due exactly at the next such sum, and the mark count is nonzero
      only while an incident is open. */
  lemma {:induction false} ControlLaw(cfg: Config, checks: seq<Check>)
    ensures Inv(cfg, checks)
    ensures Run(cfg, checks).nMarked > 0 ==> Incident(cfg, checks) != []
  {
    if checks != [] {
      ControlLaw(cfg, checks[..|checks| - 1]);
      StepInv(cfg, checks[..|checks| - 1], checks[|checks| - 1]);
      assert checks == checks[..|checks| - 1] + [checks[|checks| - 1]];
    }
  }

  /** A packet is marked exactly when an incident is open, the queue is still above the threshold, and the
      next mark is due. */
  lemma MarkedExactlyWhenDue(cfg: Config, checks: seq<Check>, c: Check)
    ensures var incident, n := Incident(cfg, checks), |MarkTimes(cfg, checks)|;
            Marks(Run(cfg, checks), cfg, c)
            <==> incident != [] && Above(cfg, c) && c.now >= Due(cfg, incident[0].now, n + 1)
  {
    ControlLaw(cfg, checks);
  }
}
