/** The leaky bucket that paces output, in mixed seconds and microseconds. */
module TokenBucket {

  const MILLION := 1000000

  /** A clock reading. */
  datatype Time = Time(sec: int, usec: int)

  type timestamp = t: Time | 0 <= t.usec < MILLION witness Time(0, 0)

  function Micros(t: Time): int { t.sec * MILLION + t.usec }

  predicate Before(a: Time, b: Time) { Micros(a) <= Micros(b) }

  /** Integer division that rounds towards zero. */
  function TruncDiv(a: int, b: int): int
    requires b > 0
  {
    if a >= 0 then a / b else -(-a / b)
  }

  /** The low 32 bits. */
  function Wrap(x: int): int { x % 0x1_0000_0000 }

  function Product(a: int, b: int): int { a * b }

  /** The bucket's level when it was last looked at, its capacity, and the bytes it loses a second. */
  datatype Bucket = Bucket(bytes: int, seen: timestamp, size: int, rate: int)

  /** Levels and rates that come from 32-bit parameters. */
  predicate InRange(b: Bucket) {
    0 <= b.bytes < 0x8000_0000 && b.size < 0x8000_0000 && b.rate < 0x1000_0000
  }

  /** The leak since the last look, as 32-bit unsigned arithmetic computes it. */
  function Leaked(b: Bucket, now: timestamp): int {
    Wrap(Wrap(Product(b.rate, now.sec - b.seen.sec)) + TruncDiv(Product(b.rate, now.usec - b.seen.usec), MILLION))
  }

  /** The same in unbounded integers. */
  function ExactLeak(b: Bucket, now: timestamp): int {
    Product(b.rate, now.sec - b.seen.sec) + TruncDiv(Product(b.rate, now.usec - b.seen.usec), MILLION)
  }

  /** Has the bucket been left for so long that it is empty whatever the microseconds say? */
  predicate LongDrained(b: Bucket, now: timestamp)
    requires b.rate > 0
  {
    now.sec - b.seen.sec - 1 > TruncDiv(b.bytes, b.rate) + 1
  }

  /** What is left after the leak. */
  function Drained(b: Bucket, now: timestamp): int
    requires b.rate > 0
  {
    if LongDrained(b, now) || Leaked(b, now) > b.bytes then 0 else b.bytes - Leaked(b, now)
  }

  /** The level when the bucket is looked at, whatever its size. */
  function Settled(bytes: int, seen: timestamp, rate: int, now: timestamp): int {
    if rate <= 0 then 0 else Drained(Bucket(bytes, seen, 0, rate), now)
  }

  lemma SettledIs(b: Bucket, now: timestamp)
    ensures Settled(b.bytes, b.seen, b.rate, now) == if b.rate <= 0 then 0 else Drained(b, now)
  {}

  /** Asking to send len bytes: the new bucket. */
  function Asked(b: Bucket, now: timestamp, len: nat): Bucket {
    if b.rate <= 0 then b.(bytes := 0, seen := now)
    else b.(bytes := Drained(b, now) + (if Granted(b, now, len) then len else 0), seen := now)
  }

  /** Asking to send len bytes: the answer. */
  predicate Granted(b: Bucket, now: timestamp, len: nat) {
    b.rate <= 0 || Drained(b, now) + len <= b.size
  }

  /** Without a rate nothing is held back and the level is zero. */
  lemma Unpaced(b: Bucket, now: timestamp, len: nat)
    requires b.rate <= 0
    ensures Granted(b, now, len) && Asked(b, now, len) == Bucket(0, now, b.size, b.rate)
  {}

  lemma ProductGrows(a: int, x: int, y: int)
    requires a >= 0 && x <= y
    ensures Product(a, x) <= Product(a, y)
  {}

  lemma ProductPlus(a: int, x: int, y: int)
    ensures Product(a, x + y) == Product(a, x) + Product(a, y)
  {}

  /** Rounding towards zero is off by less than one. */
  lemma TruncBounds(a: int)
    ensures a - MILLION < TruncDiv(a, MILLION) * MILLION < a + MILLION
    ensures a >= 0 ==> TruncDiv(a, MILLION) * MILLION <= a
  {}

  /** The microsecond part never undoes or adds more than one second's worth. */
  lemma PartialLeak(rate: int, d: int)
    requires rate > 0 && -MILLION < d < MILLION
    ensures -rate < TruncDiv(Product(rate, d), MILLION) < rate
    ensures d >= 0 ==> TruncDiv(Product(rate, d), MILLION) >= 0
  {
    var p := Product(rate, d);
    ProductGrows(rate, d, MILLION - 1);
    ProductGrows(rate, -MILLION + 1, d);
    assert Product(rate, MILLION - 1) == rate * MILLION - rate;
    assert Product(rate, -MILLION + 1) == rate - rate * MILLION;
    TruncBounds(p);
    if d >= 0 { ProductGrows(rate, 0, d); }
    if p < 0 { assert -p <= rate * MILLION - rate; }
  }

  /** A leak that is computed in full fits in 32 bits, so nothing wraps. */
  lemma LeakFits(b: Bucket, now: timestamp)
    requires InRange(b) && b.rate > 0 && Before(b.seen, now) && !LongDrained(b, now)
    ensures Leaked(b, now) == ExactLeak(b, now)
    ensures 0 <= ExactLeak(b, now) <= b.bytes + 3 * b.rate
    ensures ExactLeak(b, now) < 0x1_0000_0000
  {
    var s, u := now.sec - b.seen.sec, now.usec - b.seen.usec;
    assert s >= 0 && (s == 0 ==> u >= 0);
    PartialLeak(b.rate, u);
    ProductGrows(b.rate, s, b.bytes / b.rate + 2);
    ProductPlus(b.rate, b.bytes / b.rate, 2);
    assert Product(b.rate, b.bytes / b.rate) <= b.bytes;
    assert Product(b.rate, 2) == 2 * b.rate;
    if s > 0 {
      ProductGrows(b.rate, 1, s);
    } else {
      assert Product(b.rate, s) == 0;
    }
  }

  /** Skipping the computation after a long time agrees with it, on any monotone clock. */
  lemma DrainedExact(b: Bucket, now: timestamp)
    requires InRange(b) && b.rate > 0 && Before(b.seen, now)
    ensures ExactLeak(b, now) >= 0
    ensures Drained(b, now) == if ExactLeak(b, now) > b.bytes then 0 else b.bytes - ExactLeak(b, now)
  {
    if LongDrained(b, now) {
      PartialLeak(b.rate, now.usec - b.seen.usec);
      ProductGrows(b.rate, b.bytes / b.rate + 3, now.sec - b.seen.sec);
      ProductPlus(b.rate, b.bytes / b.rate, 3);
      assert Product(b.rate, b.bytes / b.rate) > b.bytes - b.rate;
      assert Product(b.rate, 3) == 3 * b.rate;
    } else {
      LeakFits(b, now);
    }
  }

  /** The leak is the rate times the elapsed time, to within one byte, and at most one byte more
      only if the clock has reached another second. */
  lemma LeakBounds(b: Bucket, now: timestamp)
    requires b.rate > 0 && Before(b.seen, now)
    ensures ExactLeak(b, now) * MILLION <= Product(b.rate, Micros(now) - Micros(b.seen)) + MILLION * (now.sec - b.seen.sec)
    ensures ExactLeak(b, now) * MILLION > Product(b.rate, Micros(now) - Micros(b.seen)) - MILLION
  {
    var s, u := now.sec - b.seen.sec, now.usec - b.seen.usec;
    assert Micros(now) - Micros(b.seen) == s * MILLION + u;
    ProductPlus(b.rate, s * MILLION, u);
    assert Product(b.rate, s * MILLION) == Product(b.rate, s) * MILLION;
    TruncBounds(Product(b.rate, u));
    if u >= 0 { ProductGrows(b.rate, 0, u); }
  }

  /** What happens to a bucket. */
  datatype Event =
    | Ask(now: timestamp, len: nat)
    | Touch(now: timestamp)
    | Set(size: int, rate: int)

  function Step(b: Bucket, e: Event): Bucket {
    match e
    case Ask(now, len) => Asked(b, now, len)
    case Touch(now) => b.(seen := now)
    case Set(size, rate) => b.(size := size, rate := rate)
  }

  /** The bytes an event lets through. */
  function Gain(b: Bucket, e: Event): nat {
    if e.Ask? && Granted(b, e.now, e.len) then e.len else 0
  }

  function Run(b: Bucket, events: seq<Event>): Bucket {
    if events == [] then b else Step(Run(b, events[..|events| - 1]), events[|events| - 1])
  }

  /** All bytes let through in a run. */
  function Total(b: Bucket, events: seq<Event>): nat {
    if events == [] then 0
    else Total(b, events[..|events| - 1]) + Gain(Run(b, events[..|events| - 1]), events[|events| - 1])
  }

  /** The sizes of the packets let through, in order. */
  function Grants(b: Bucket, events: seq<Event>): seq<nat> {
    if events == [] then []
    else
      var k := |events| - 1;
      var gain := Gain(Run(b, events[..k]), events[k]);
      Grants(b, events[..k]) + if gain > 0 then [gain] else []
  }

  function Sum(ns: seq<nat>): nat {
    if ns == [] then 0 else Sum(ns[..|ns| - 1]) + ns[|ns| - 1]
  }

  lemma {:induction false} TotalIsSum(b: Bucket, events: seq<Event>)
    ensures Total(b, events) == Sum(Grants(b, events))
  {
    if events != [] {
      var k := |events| - 1;
      TotalIsSum(b, events[..k]);
      var gain := Gain(Run(b, events[..k]), events[k]);
      if gain > 0 {
        assert Grants(b, events)[..|Grants(b, events)| - 1] == Grants(b, events[..k]);
      } else {
        assert Grants(b, events) == Grants(b, events[..k]);
      }
    }
  }

  /** The clock never goes back and the rate and size stay as they are. */
  predicate Steady(b: Bucket, events: seq<Event>) {
    forall i :: 0 <= i < |events| ==> !events[i].Set? && Before(Run(b, events[..i]).seen, events[i].now)
  }

  lemma {:induction false} StepSnoc(b: Bucket, events: seq<Event>, e: Event)
    ensures Run(b, events + [e]) == Step(Run(b, events), e)
    ensures Total(b, events + [e]) == Total(b, events) + Gain(Run(b, events), e)
    ensures Grants(b, events + [e]) ==
            Grants(b, events) + if Gain(Run(b, events), e) > 0 then [Gain(Run(b, events), e)] else []
  {
    assert (events + [e])[..|events|] == events;
  }

  /** A run that starts where another one ends. */
  lemma {:induction false} RunSplit(b: Bucket, first: seq<Event>, then_: seq<Event>)
    ensures Run(b, first + then_) == Run(Run(b, first), then_)
    ensures Total(b, first + then_) == Total(b, first) + Total(Run(b, first), then_)
  {
    if then_ == [] {
      assert first + then_ == first;
    } else {
      var k := |then_| - 1;
      RunSplit(b, first, then_[..k]);
      assert first + then_ == (first + then_[..k]) + [then_[k]];
      StepSnoc(b, first + then_[..k], then_[k]);
    }
  }

  lemma {:induction false} RunInRange(b: Bucket, events: seq<Event>)
    requires InRange(b) && Steady(b, events)
    ensures InRange(Run(b, events))
    ensures Run(b, events).size == b.size && Run(b, events).rate == b.rate
  {
    if events != [] {
      var k := |events| - 1;
      SteadyFront(b, events);
      RunInRange(b, events[..k]);
      StepInRange(Run(b, events[..k]), events[k]);
    }
  }

  lemma SteadyFront(b: Bucket, events: seq<Event>)
    requires Steady(b, events) && events != []
    ensures Steady(b, events[..|events| - 1])
  {
    forall i | 0 <= i < |events| - 1 ensures Before(Run(b, events[..|events| - 1][..i]).seen, events[i].now) {
      assert events[..|events| - 1][..i] == events[..i];
    }
  }

  lemma StepInRange(b: Bucket, e: Event)
    requires InRange(b) && !e.Set? && Before(b.seen, e.now)
    ensures InRange(Step(b, e))
  {
    if e.Ask? && b.rate > 0 { DrainedExact(b, e.now); }
  }

  /** How much one step lets through. */
  lemma StepBound(b: Bucket, e: Event, top: int)
    requires InRange(b) && b.rate > 0 && !e.Set? && Before(b.seen, e.now) && b.bytes <= top && b.size <= top
    ensures Step(b, e).bytes <= top
    ensures (Gain(b, e) + b.bytes - Step(b, e).bytes) * MILLION
            <= Product(b.rate, Micros(e.now) - Micros(b.seen)) + MILLION * (e.now.sec - b.seen.sec)
  {
    ProductGrows(b.rate, 0, Micros(e.now) - Micros(b.seen));
    if e.Ask? {
      DrainedExact(b, e.now);
      LeakBounds(b, e.now);
    }
  }

  /** A million times the room in the bucket, plus the rate times the time until an instant, plus one
      byte for each second boundary up to then. */
  function Allowance(b: Bucket, end: timestamp): int {
    ((if b.size > b.bytes then b.size else b.bytes) - b.bytes) * MILLION
    + Product(b.rate, Micros(end) - Micros(b.seen)) + MILLION * (end.sec - b.seen.sec)
  }

  /** The admission bound: a run lets through no more than its allowance. */
  lemma {:induction false} AdmissionBound(b: Bucket, events: seq<Event>)
    requires InRange(b) && b.rate > 0 && Steady(b, events)
    ensures Total(b, events) * MILLION <= Allowance(b, Run(b, events).seen)
  {
    var top, end := if b.size > b.bytes then b.size else b.bytes, Run(b, events);
    LevelBound(b, events, top);
    ScaledBound(Total(b, events) + b.bytes - end.bytes, Total(b, events), top - b.bytes);
  }

  lemma ScaledBound(rise: int, total: int, room: int)
    requires total - room <= rise
    ensures total * MILLION <= rise * MILLION + room * MILLION
  {}

  lemma {:induction false} LevelBound(b: Bucket, events: seq<Event>, top: int)
    requires InRange(b) && b.rate > 0 && Steady(b, events) && b.bytes <= top && b.size <= top
    ensures var end := Run(b, events);
            && end.bytes <= top
            && (Total(b, events) + b.bytes - end.bytes) * MILLION
               <= Product(b.rate, Micros(end.seen) - Micros(b.seen)) + MILLION * (end.seen.sec - b.seen.sec)
  {
    if events != [] {
      var k := |events| - 1;
      var mid := Run(b, events[..k]);
      SteadyFront(b, events);
      LevelBound(b, events[..k], top);
      RunInRange(b, events[..k]);
      StepBound(mid, events[k], top);
      ProductPlus(b.rate, Micros(mid.seen) - Micros(b.seen), Micros(events[k].now) - Micros(mid.seen));
    }
  }

  // What the level is made of

  /** The bytes that leak before an event: a touch lets none leak. */
  function LeakBefore(b: Bucket, e: Event): int {
    if e.Ask? then ExactLeak(b, e.now) else 0
  }

  /** What an event adds: the bytes let through less those that leak before. */
  function Flow(b: Bucket, e: Event): int { Gain(b, e) - LeakBefore(b, e) }

  /** What all events add. */
  function FlowOf(b: Bucket, events: seq<Event>): int {
    if events == [] then 0
    else FlowOf(b, events[..|events| - 1]) + Flow(Run(b, events[..|events| - 1]), events[|events| - 1])
  }

  /** What the events from the i-th on add to a bucket that was found empty at the i-th. */
  function FlowSince(b: Bucket, events: seq<Event>, i: nat): int
    requires i < |events|
  {
    var k := |events| - 1;
    var mid := Run(b, events[..k]);
    if i == k then Gain(mid, events[k]) else FlowSince(b, events[..k], i) + Flow(mid, events[k])
  }

  /** The level at an event: an empty bucket does not leak. */
  lemma StepLevel(b: Bucket, e: Event)
    requires InRange(b) && b.rate > 0 && !e.Set? && Before(b.seen, e.now)
    ensures LeakBefore(b, e) >= 0
    ensures Step(b, e).bytes == if LeakBefore(b, e) > b.bytes then Gain(b, e) else b.bytes + Flow(b, e)
  {
    if e.Ask? { DrainedExact(b, e.now); }
  }

  lemma {:induction false} LastLevel(b: Bucket, events: seq<Event>)
    requires InRange(b) && b.rate > 0 && Steady(b, events) && events != []
    ensures var k := |events| - 1;
            var mid := Run(b, events[..k]);
            && mid.bytes >= 0 && Steady(b, events[..k])
            && Run(b, events).bytes == (if LeakBefore(mid, events[k]) > mid.bytes then Gain(mid, events[k])
                                        else mid.bytes + Flow(mid, events[k]))
  {
    SteadyFront(b, events);
    RunInRange(b, events[..|events| - 1]);
    StepLevel(Run(b, events[..|events| - 1]), events[|events| - 1]);
  }

  /** The level at the end of a steady run is at least what came in less what leaked, from the beginning
      on or since any event. */
  lemma {:induction false} LevelAtLeast(b: Bucket, events: seq<Event>, i: nat)
    requires InRange(b) && b.rate > 0 && Steady(b, events) && i < |events|
    ensures Run(b, events).bytes >= b.bytes + FlowOf(b, events)
    ensures Run(b, events).bytes >= FlowSince(b, events, i)
  {
    var k := |events| - 1;
    LastLevel(b, events);
    if k > 0 { LevelAtLeast(b, events[..k], if i < k then i else 0); }
  }

  /** And it is exactly that from the beginning on, or since some event at which the bucket was empty. */
  lemma {:induction false} LevelExact(b: Bucket, events: seq<Event>) returns (i: nat)
    requires InRange(b) && b.rate > 0 && Steady(b, events)
    ensures i <= |events|
    ensures Run(b, events).bytes == if i < |events| then FlowSince(b, events, i) else b.bytes + FlowOf(b, events)
  {
    i := 0;
    if events != [] {
      var k := |events| - 1;
      LastLevel(b, events);
      i := LevelExact(b, events[..k]);
      if i == k { i := k + 1; }
      if LeakBefore(Run(b, events[..k]), events[k]) > Run(b, events[..k]).bytes { i := k; }
    }
  }

  /** So the level is never more than what was there and what was let through. */
  lemma {:induction false} LevelAtMost(b: Bucket, events: seq<Event>)
    requires InRange(b) && b.rate > 0 && Steady(b, events)
    ensures Run(b, events).bytes <= b.bytes + Total(b, events)
  {
    if events != [] {
      LastLevel(b, events);
      LevelAtMost(b, events[..|events| - 1]);
      SteadyFront(b, events);
      RunInRange(b, events[..|events| - 1]);
      StepLevel(Run(b, events[..|events| - 1]), events[|events| - 1]);
    }
  }

  /** A packet is refused exactly if what remains after the leak and the packet are more than the bucket
      holds; so never if all that was let through and the packet fit in the room there was. */
  lemma {:induction false} RefusedExact(b: Bucket, events: seq<Event>, now: timestamp, len: nat)
    requires InRange(b) && b.rate > 0 && Steady(b, events) && Before(Run(b, events).seen, now)
    ensures var end := Run(b, events);
            var left := end.bytes - ExactLeak(end, now);
            !Granted(end, now, len) <==> (if left > 0 then left else 0) + len > b.size
    ensures !Granted(Run(b, events), now, len) ==> b.bytes + Total(b, events) + len > b.size
  {
    RunInRange(b, events);
    DrainedExact(Run(b, events), now);
    LevelAtMost(b, events);
  }

  /** All bytes that are asked for. */
  function Asks(events: seq<Event>): nat {
    if events == [] then 0
    else Asks(events[..|events| - 1]) + if events[|events| - 1].Ask? then events[|events| - 1].len else 0
  }

  predicate AllGranted(b: Bucket, events: seq<Event>) {
    events == [] ||
    var k := |events| - 1;
    AllGranted(b, events[..k]) && (events[k].Ask? ==> Granted(Run(b, events[..k]), events[k].now, events[k].len))
  }

  /** A burst that fits in the free room is let through as a whole, whatever the times. */
  lemma {:induction false} BurstGranted(b: Bucket, events: seq<Event>)
    requires InRange(b) && b.rate > 0 && Steady(b, events) && b.bytes + Asks(events) <= b.size
    ensures Total(b, events) == Asks(events) && AllGranted(b, events)
  {
    if events != [] {
      var k := |events| - 1;
      SteadyFront(b, events);
      BurstGranted(b, events[..k]);
      assert Before(Run(b, events[..k]).seen, events[k].now);
      if events[k].Ask? { RefusedExact(b, events[..k], events[k].now, events[k].len); }
    }
  }

  /** A packet larger than the bucket is never let through. */
  lemma NeverGranted(b: Bucket, now: timestamp, len: nat)
    requires InRange(b) && b.rate > 0 && Before(b.seen, now) && len > b.size
    ensures !Granted(b, now, len)
  {
    DrainedExact(b, now);
  }

  /** The time in which a bucket loses so many bytes. */
  function DrainTime(bytes: nat, rate: int): (t: Time)
    requires rate > 0
  {
    Time(bytes / rate, (bytes - Product(bytes / rate, rate)) * MILLION / rate)
  }

  lemma DivBounds(a: int, d: int)
    requires d > 0
    ensures Product(d, a / d) <= a < Product(d, a / d) + d
  {}

  lemma Rest(bytes: nat, rate: int)
    requires rate > 0
    ensures bytes / rate >= 0 && 0 <= bytes - Product(bytes / rate, rate) < rate
  {}

  /** The microseconds in which less than a second's worth of bytes leaks. */
  lemma PartOfSecond(rest: int, rate: int)
    requires 0 <= rest < rate
    ensures var u := rest * MILLION / rate;
            0 <= u < MILLION && Product(rate, u) <= rest * MILLION < Product(rate, u) + rate
  {
    var u := rest * MILLION / rate;
    DivBounds(rest * MILLION, rate);
    if u >= MILLION { ProductGrows(rate, MILLION, u); }
  }

  lemma WholeSeconds(s: int, rate: int)
    ensures Product(rate, s * MILLION) == Product(s, rate) * MILLION
  {}

  lemma ProductOne(rate: int)
    ensures Product(rate, 1) == rate
  {}

  /** The planned delay is a proper time, and the exact drain time rounded down to a microsecond. */
  lemma DrainTimeExact(bytes: nat, rate: int)
    requires rate > 0
    ensures var t := DrainTime(bytes, rate);
            && 0 <= t.sec && 0 <= t.usec < MILLION
            && Product(rate, Micros(t)) <= bytes * MILLION < Product(rate, Micros(t) + 1)
  {
    var s := bytes / rate;
    var rest := bytes - Product(s, rate);
    var u := rest * MILLION / rate;
    Rest(bytes, rate);
    PartOfSecond(rest, rate);
    WholeSeconds(s, rate);
    ProductPlus(rate, s * MILLION, u);
    ProductPlus(rate, s * MILLION + u, 1);
    ProductOne(rate);
  }

  // Waiting for room

  /** What a bucket loses for certain until an event that was planned for len bytes: the delay is
      rounded down, and so is the leak. */
  function SureLeak(len: nat, rate: int): int { len - 1 - rate / MILLION }

  /** The instant is not before the event that is planned for len bytes. */
  predicate Due(b: Bucket, now: timestamp, len: nat)
    requires b.rate > 0
  {
    Micros(now) >= Micros(b.seen) + Micros(DrainTime(len, b.rate))
  }

  lemma RoundedLeak(leak: int, len: int, rate: int)
    requires rate >= 0 && leak * MILLION > len * MILLION - rate - MILLION
    ensures leak >= len - 1 - rate / MILLION
  {
    var q := rate / MILLION;
    assert rate < (q + 1) * MILLION;
    assert (leak + 1 - len + q + 1) * MILLION > 0;
  }

  lemma DueLeak(b: Bucket, now: timestamp, len: nat)
    requires b.rate > 0 && Due(b, now, len)
    ensures Before(b.seen, now) && ExactLeak(b, now) >= SureLeak(len, b.rate)
  {
    var d, t := Micros(now) - Micros(b.seen), Micros(DrainTime(len, b.rate));
    DrainTimeExact(len, b.rate);
    LeakBounds(b, now);
    ProductGrows(b.rate, t, d);
    ProductPlus(b.rate, t, 1);
    ProductOne(b.rate);
    RoundedLeak(ExactLeak(b, now), len, b.rate);
  }

  /** A planned event that is refused has brought the level down by the sure leak. */
  lemma RefusedEvent(b: Bucket, now: timestamp, len: nat)
    requires InRange(b) && b.rate > 0 && Due(b, now, len) && len <= b.size && !Granted(b, now, len)
    ensures InRange(Asked(b, now, len)) && Asked(b, now, len).bytes <= b.bytes - SureLeak(len, b.rate)
  {
    DueLeak(b, now, len);
    DrainedExact(b, now);
  }

  /** Each of the instants is not before the event that is planned when the one before is refused. */
  predicate AllDue(b: Bucket, times: seq<timestamp>, len: nat)
    requires b.rate > 0
    decreases |times|
  {
    times == [] || (Due(b, times[0], len) && AllDue(Asked(b, times[0], len), times[1..], len))
  }

  /** At one of the instants the packet is let through. */
  predicate GrantedBy(b: Bucket, times: seq<timestamp>, len: nat)
    decreases |times|
  {
    times != [] && (Granted(b, times[0], len) || GrantedBy(Asked(b, times[0], len), times[1..], len))
  }

  /** Progress: a waiting packet that fits in the bucket is sent by as many planned events as it takes
      sure leaks to make room for it. */
  lemma {:induction false} SentInTheEnd(b: Bucket, times: seq<timestamp>, len: nat)
    requires InRange(b) && b.rate > 0 && len <= b.size && times != [] && AllDue(b, times, len)
    requires Product(|times|, SureLeak(len, b.rate)) >= b.bytes + len - b.size
    ensures GrantedBy(b, times, len)
    decreases |times|
  {
    var s := SureLeak(len, b.rate);
    if !Granted(b, times[0], len) {
      RefusedEvent(b, times[0], len);
      var c := Asked(b, times[0], len);
      ProductLess(|times|, s);
      if |times| == 1 {
        assert false;
      }
      SentInTheEnd(c, times[1..], len);
    }
  }

  lemma ProductLess(n: int, s: int)
    ensures Product(n, s) == Product(n - 1, s) + s && Product(0, s) == 0
  {}

  /** So the second event is enough for any packet that a microsecond's leak is small against. */
  lemma {:induction false} SecondEventSends(b: Bucket, times: seq<timestamp>, len: nat)
    requires InRange(b) && b.rate > 0 && b.bytes <= b.size && len <= b.size
    requires |times| == 2 && AllDue(b, times, len) && len >= 2 + 2 * (b.rate / MILLION)
    ensures GrantedBy(b, times, len)
  {
    assert Product(2, SureLeak(len, b.rate)) == 2 * SureLeak(len, b.rate);
    SentInTheEnd(b, times, len);
  }

  /** By how many bytes the leak until the planned event falls short of the packet, because the delay
      and the leak are rounded. */
  function Shortfall(seen: timestamp, len: nat, rate: int): int
    requires rate > 0
  {
    var rest := len - Product(len / rate, rate);
    var u := rest * MILLION / rate;
    rest - if seen.usec + u >= MILLION then -(-Product(rate, u) / MILLION) else Product(rate, u) / MILLION
  }

  /** The leak at exactly the planned instant. */
  lemma PlannedLeak(b: Bucket, now: timestamp, len: nat)
    requires b.rate > 0 && Micros(now) == Micros(b.seen) + Micros(DrainTime(len, b.rate))
    ensures Before(b.seen, now) && ExactLeak(b, now) == len - Shortfall(b.seen, len, b.rate)
  {
    var s := len / b.rate;
    var rest := len - Product(s, b.rate);
    var u := rest * MILLION / b.rate;
    Rest(len, b.rate);
    PartOfSecond(rest, b.rate);
    var x := Product(b.rate, u);
    if b.seen.usec + u >= MILLION {
      assert now.sec - b.seen.sec == s + 1 && now.usec - b.seen.usec == u - MILLION;
      ProductPlus(b.rate, s, 1);
      ProductPlus(b.rate, u, -MILLION);
      assert Product(b.rate, -MILLION) == -b.rate * MILLION && Product(b.rate, 1) == b.rate;
      ProductGrows(b.rate, u, MILLION);
      assert Product(b.rate, MILLION) == b.rate * MILLION;
      TruncBack(x, b.rate);
    } else {
      assert now.sec - b.seen.sec == s && now.usec - b.seen.usec == u;
      ProductGrows(b.rate, 0, u);
    }
    ProductTurned(s, b.rate);
  }

  lemma TruncBack(x: int, rate: int)
    requires rate > 0 && x <= rate * MILLION
    ensures rate + TruncDiv(x - rate * MILLION, MILLION) == -(-x / MILLION)
  {}

  lemma ProductTurned(a: int, b: int)
    ensures Product(a, b) == Product(b, a)
  {}

  /** When the first planned event sends the packet: exactly if, when it was planned, the free room in
      the bucket made up for what rounding loses. */
  lemma FirstEventExact(b: Bucket, now: timestamp, len: nat)
    requires InRange(b) && b.rate > 0 && len <= b.size
    requires Micros(now) == Micros(b.seen) + Micros(DrainTime(len, b.rate))
    ensures Granted(b, now, len) <==> b.size - b.bytes >= Shortfall(b.seen, len, b.rate)
  {
    PlannedLeak(b, now, len);
    DrainedExact(b, now);
  }

  lemma TruncGrows(x: int, y: int)
    requires x <= y
    ensures TruncDiv(x, MILLION) <= TruncDiv(y, MILLION)
  {}

  lemma TruncApart(x: int, y: int, rate: int)
    requires rate > 0 && x - y < rate * MILLION
    ensures TruncDiv(x, MILLION) <= TruncDiv(y, MILLION) + rate
  {
    TruncBounds(x);
    TruncBounds(y);
  }

  /** The leak never becomes less as time goes on. */
  lemma LeakGrows(b: Bucket, t: timestamp, now: timestamp)
    requires b.rate > 0 && Before(t, now)
    ensures ExactLeak(b, t) <= ExactLeak(b, now)
  {
    var s, u := t.sec - b.seen.sec, t.usec - b.seen.usec;
    var s', u' := now.sec - b.seen.sec, now.usec - b.seen.usec;
    if s' == s {
      ProductGrows(b.rate, u, u');
      TruncGrows(Product(b.rate, u), Product(b.rate, u'));
    } else {
      ProductGrows(b.rate, s + 1, s');
      ProductPlus(b.rate, s, 1);
      ProductPlus(b.rate, u', u - u');
      ProductGrows(b.rate, u - u', MILLION - 1);
      assert Product(b.rate, MILLION - 1) == b.rate * MILLION - b.rate && Product(b.rate, 1) == b.rate;
      TruncApart(Product(b.rate, u), Product(b.rate, u'), b.rate);
    }
  }

  /** With that room the packet is sent whenever the event comes, be it late. */
  lemma FirstEventSends(b: Bucket, planned: timestamp, now: timestamp, len: nat)
    requires InRange(b) && b.rate > 0 && len <= b.size && Before(planned, now)
    requires Micros(planned) == Micros(b.seen) + Micros(DrainTime(len, b.rate))
    requires b.size - b.bytes >= Shortfall(b.seen, len, b.rate)
    ensures Granted(b, now, len)
  {
    PlannedLeak(b, planned, len);
    LeakGrows(b, planned, now);
    DrainedExact(b, now);
  }

  /** A packet of 25 bytes that fills the bucket is refused at its planned event and sent at the next. */
  lemma FirstEventCanFail()
    ensures var b, t, u := Bucket(25, Time(0, 0), 25, 3), Time(8, 333333), Time(16, 666666);
            && DrainTime(25, 3) == t && !Granted(b, t, 25) && Shortfall(b.seen, 25, 3) == 1
            && AllDue(b, [t, u], 25) && GrantedBy(b, [t, u], 25)
  {
    var b, t, u := Bucket(25, Time(0, 0), 25, 3), Time(8, 333333), Time(16, 666666);
    var c := Asked(b, t, 25);
    assert ExactLeak(b, t) == 24 && !LongDrained(b, t) && c == Bucket(1, t, 25, 3);
    assert ExactLeak(c, u) == 24 && Granted(c, u, 25) && Due(c, u, 25);
    assert [t, u][1..] == [u] && [u][1..] == [];
  }
}
