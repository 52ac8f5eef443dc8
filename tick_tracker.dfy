/**
 * The per-device scheduling record of the adaptive tick scheduler: the device's
 * declared rate band, its current rate (always clamped into the band), the global
 * tick at which it last ran, and the order the scheduler's priority queue uses.
 */
module Ticking {

  /** A Java `int`. */
  type Int32 = x: int | -0x8000_0000 <= x < 0x8000_0000

  /** Java `int` addition: the mathematical sum wrapped into 32 bits. */
  function AddInt32(a: Int32, b: Int32): (r: Int32)
    ensures -0x8000_0000 <= a + b < 0x8000_0000 ==> r == a + b
    ensures a + b >= 0x8000_0000 ==> r == a + b - 0x1_0000_0000
    ensures a + b < -0x8000_0000 ==> r == a + b + 0x1_0000_0000
  {
    var s := (a + b + 0x8000_0000) % 0x1_0000_0000 - 0x8000_0000;
    s
  }

  /** Java `/` on integers: the quotient truncated toward zero. */
  function DivJava(a: int, b: int): (q: int)
    requires b > 0
    ensures a >= 0 ==> 0 <= a - q * b < b
    ensures a < 0 ==> -b < a - q * b <= 0
  {
    if a >= 0 then a / b else -((-a) / b)
  }

  /** Java's `Long.compare` / `Integer.compare`. */
  function CompareJava(a: int, b: int): (r: int)
    ensures r == -1 || r == 0 || r == 1
    ensures r < 0 <==> a < b
    ensures r == 0 <==> a == b
  {
    if a < b then -1 else if a == b then 0 else 1
  }

  /** The sign of `n`: -1, 0 or 1. */
  function Sign(n: int): (s: int)
    ensures s == -1 <==> n < 0
    ensures s == 0 <==> n == 0
    ensures s == 1 <==> n > 0
  {
    if n < 0 then -1 else if n == 0 then 0 else 1
  }

  /** `Math.min(max, Math.max(min, rate))`. */
  function Clamp(rate: int, min: int, max: int): (r: int)
    ensures min <= max ==> min <= r <= max
    ensures min <= rate <= max ==> r == rate
    ensures min <= max && rate < min ==> r == min
    ensures rate > max ==> r == max
    ensures min > max ==> r == max
  {
    if max < (if min < rate then rate else min) then max
    else if min < rate then rate else min
  }

  /** The part of a device's `TickingRequest` that the tracker uses: its rate band. */
  datatype TickingRequest = TickingRequest(minTickRate: Int32, maxTickRate: Int32)

  /** `(minTickRate + maxTickRate) / 2` evaluated with Java `int` arithmetic. */
  function Midpoint(req: TickingRequest): (r: int)
  {
    DivJava(AddInt32(req.minTickRate, req.maxTickRate), 2)
  }

  /** The sort key of a tracker: (next tick, last tick, current rate). */
  datatype Key = Key(nextTick: int, lastTick: int, rate: int)

  /** Lexicographic "strictly before" on keys. */
  predicate Before(a: Key, b: Key)
  {
    a.nextTick < b.nextTick
    || (a.nextTick == b.nextTick && a.lastTick < b.lastTick)
    || (a.nextTick == b.nextTick && a.lastTick == b.lastTick && a.rate < b.rate)
  }

  /** The three-step comparison of `compareTo`, on keys. */
  function CompareKeys(a: Key, b: Key): (r: int)
    ensures r == -1 || r == 0 || r == 1
    ensures r == 0 <==> a == b
    ensures r < 0 <==> Before(a, b)
    ensures r > 0 <==> Before(b, a)
  {
    var next := CompareJava(a.nextTick, b.nextTick);
    if next != 0 then next
    else
      var last := CompareJava(a.lastTick, b.lastTick);
      if last != 0 then last
      else CompareJava(a.rate, b.rate)
  }

  class TickTracker {
    const request: TickingRequest
    /** The global tick at which the device last ran (a Java `long`). */
    var lastTick: int
    /** The current interval between runs (a Java `int`). */
    var currentRate: int

    /** The rate always lies in the band when the band is well formed. */
    ghost predicate Valid()
      reads this
    {
      currentRate == Clamp(currentRate, request.minTickRate, request.maxTickRate)
    }

    /** A tracker for a device registered at global tick `currentTick`. */
    constructor (req: TickingRequest, currentTick: int)
      ensures request == req && lastTick == currentTick
      ensures currentRate == Clamp(Midpoint(req), req.minTickRate, req.maxTickRate)
      ensures Valid()
    {
      request := req;
      new;
      SetCurrentRate(Midpoint(req));
      SetLastTick(currentTick);
    }

    /** Stores `rate` clamped into [minTickRate, maxTickRate]. */
    method SetCurrentRate(rate: int)
      modifies this`currentRate
      ensures currentRate == Clamp(rate, request.minTickRate, request.maxTickRate)
      ensures request.minTickRate <= request.maxTickRate ==>
                request.minTickRate <= currentRate <= request.maxTickRate
      ensures Valid()
    {
      var r := rate;
      if r < request.minTickRate {
        r := request.minTickRate;
      }
      if request.maxTickRate < r {
        r := request.maxTickRate;
      }
      currentRate := r;
    }

    method SetLastTick(tick: int)
      modifies this`lastTick
      ensures lastTick == tick
    {
      lastTick := tick;
    }

    /** The global tick at which the device is next due: one interval after it last ran. */
    function NextTick(): (r: int)
      reads this
      ensures r - lastTick == currentRate
      ensures Valid() && request.minTickRate <= request.maxTickRate ==>
                lastTick + request.minTickRate <= r <= lastTick + request.maxTickRate
    {
      lastTick + currentRate
    }

    function SortKey(): (k: Key)
      reads this
      ensures k.nextTick == NextTick() && k.lastTick == lastTick && k.rate == currentRate
    {
      Key(NextTick(), lastTick, currentRate)
    }

    /**
     * `compareTo`: negative when this tracker must be popped before `t`,
     * zero exactly when all three keys agree.
     */
    function CompareTo(t: TickTracker): (r: int)
      reads this, t
      ensures r == -1 || r == 0 || r == 1
      ensures r == 0 <==> (NextTick() == t.NextTick() && lastTick == t.lastTick && currentRate == t.currentRate)
      ensures r < 0 <==> Before(SortKey(), t.SortKey())
    {
      CompareKeys(SortKey(), t.SortKey())
    }
  }

  /** Setting the current rate to what it already is changes nothing. */
  method ReclampIsIdempotent(t: TickTracker)
    requires t.Valid()
    modifies t`currentRate
    ensures t.currentRate == old(t.currentRate)
  {
    t.SetCurrentRate(t.currentRate);
  }

  /** Clamping twice is clamping once. */
  lemma ClampIdempotent(rate: int, min: int, max: int)
    ensures Clamp(Clamp(rate, min, max), min, max) == Clamp(rate, min, max)
  {
  }

  /** The midpoint of a band whose Java sum does not overflow lies inside the band. */
  lemma MidpointInBand(req: TickingRequest)
    requires req.minTickRate <= req.maxTickRate
    requires req.minTickRate + req.maxTickRate < 0x8000_0000
    requires req.minTickRate + req.maxTickRate >= -0x8000_0000
    ensures req.minTickRate <= Midpoint(req) <= req.maxTickRate
    ensures Clamp(Midpoint(req), req.minTickRate, req.maxTickRate) == Midpoint(req)
  {
    var s := req.minTickRate + req.maxTickRate;
    assert AddInt32(req.minTickRate, req.maxTickRate) == s;
    if s >= 0 {
      assert Midpoint(req) == s / 2;
    } else {
      assert Midpoint(req) == -((-s) / 2);
    }
  }

  /**
   * A band of positive rates whose sum overflows a Java `int` does not start at its
   * midpoint: the wrapped sum is negative and the clamp starts the tracker at the minimum.
   */
  lemma OverflowingBandStartsAtMinimum(req: TickingRequest)
    requires 0 <= req.minTickRate <= req.maxTickRate
    requires req.minTickRate + req.maxTickRate >= 0x8000_0000
    ensures Clamp(Midpoint(req), req.minTickRate, req.maxTickRate) == req.minTickRate
  {
    var w := AddInt32(req.minTickRate, req.maxTickRate);
    assert w < 0;
    assert Midpoint(req) <= 0;
  }

  /** The scheduler's order is antisymmetric in sign. */
  lemma CompareKeysAntisymmetric(a: Key, b: Key)
    ensures Sign(CompareKeys(a, b)) == -Sign(CompareKeys(b, a))
  {
  }

  /** The scheduler's order is transitive, for "strictly before" and for "not after". */
  lemma CompareKeysTransitive(a: Key, b: Key, c: Key)
    ensures CompareKeys(a, b) < 0 && CompareKeys(b, c) < 0 ==> CompareKeys(a, c) < 0
    ensures CompareKeys(a, b) <= 0 && CompareKeys(b, c) <= 0 ==> CompareKeys(a, c) <= 0
  {
  }

  /** Every two keys are comparable, and each key is equivalent to itself. */
  lemma CompareKeysTotal(a: Key, b: Key)
    ensures CompareKeys(a, a) == 0
    ensures CompareKeys(a, b) <= 0 || CompareKeys(b, a) <= 0
  {
  }

  /** Two trackers compare as equal exactly when they ran last at the same tick with the same rate. */
  lemma CompareToZeroIffSameSchedule(a: TickTracker, b: TickTracker)
    ensures a.CompareTo(b) == 0 <==> (a.lastTick == b.lastTick && a.currentRate == b.currentRate)
  {
  }

  /**
   * The rate tie-break never decides: two trackers due at the same tick that ran
   * last at the same tick also have the same rate.
   */
  lemma RateTieBreakNeverDecides(a: TickTracker, b: TickTracker)
    requires a.NextTick() == b.NextTick() && a.lastTick == b.lastTick
    ensures a.CompareTo(b) == 0
  {
  }

  /** Among trackers due at the same tick, the one that has waited longer sorts first. */
  lemma OlderWaiterFirst(a: TickTracker, b: TickTracker)
    requires a.NextTick() == b.NextTick() && a.lastTick < b.lastTick
    ensures a.CompareTo(b) < 0 && b.CompareTo(a) > 0
  {
  }

  /** A tracker due earlier sorts first whatever its other keys. */
  lemma EarlierDueFirst(a: TickTracker, b: TickTracker)
    requires a.NextTick() < b.NextTick()
    ensures a.CompareTo(b) < 0
  {
  }

  /** `setLastTick` moves the next tick by exactly the change in last tick and keeps the rate. */
  method MoveLastTick(t: TickTracker, tick: int)
    modifies t`lastTick
    ensures t.currentRate == old(t.currentRate)
    ensures t.NextTick() == tick + t.currentRate
    ensures t.NextTick() - old(t.NextTick()) == tick - old(t.lastTick)
  {
    t.SetLastTick(tick);
  }
}
