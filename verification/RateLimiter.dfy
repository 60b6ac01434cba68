/** Paced sending: a leaky bucket in front of a queue that a timer drains. */
module RateLimiter {
  import opened Wire
  import opened TokenBucket
  import opened Queues

  const START := Bucket(0, Time(0, 0), 0, 0)

  /** The packets that go through the bucket. */
  function Paced(ps: seq<Packet>): seq<Packet> {
    if ps == [] then []
    else
      var p := ps[|ps| - 1];
      Paced(ps[..|ps| - 1]) + if HighPriority(p) then [] else [p]
  }

  /** The packets that are kept for retransmission. */
  function Kept(ps: seq<Packet>): seq<Packet> {
    if ps == [] then []
    else
      var p := ps[|ps| - 1];
      Kept(ps[..|ps| - 1]) + if NoRtx(p) then [] else [p]
  }

  function Lens(ps: seq<Packet>): seq<nat> {
    seq(|ps|, i requires 0 <= i < |ps| => PktLen(ps[i]))
  }

  lemma {:induction false} SentStep(ps: seq<Packet>, p: Packet)
    ensures Paced(ps + [p]) == if HighPriority(p) then Paced(ps) else Paced(ps) + [p]
    ensures Kept(ps + [p]) == if NoRtx(p) then Kept(ps) else Kept(ps) + [p]
  {
    assert (ps + [p])[..|ps|] == ps;
  }

  lemma LensSnoc(ps: seq<Packet>, p: Packet)
    ensures Lens(ps + [p]) == Lens(ps) + [PktLen(p)]
  {}

  /** A packet is not to be kept for retransmission, or can be. */
  predicate CanKeep(p: Packet, max: nat) {
    NoRtx(p) || PktLen(p) <= max
  }

  /** Only packets that go through the bucket are queued. */
  predicate Fit(ps: seq<Packet>, max: nat) {
    forall p :: p in ps ==> CanKeep(p, max) && !HighPriority(p)
  }

  ghost predicate InBooks(k: int) { true }

  /** Accepted packets are sent or waiting, in order. Only proofs that mention InBooks look at how. */
  ghost predicate Books(accepted: seq<Packet>, wire: seq<Packet>, waiting: seq<Packet>, max: nat) {
    forall k {:trigger InBooks(k)} :: InBooks(k) ==> Fit(waiting, max) && accepted == Paced(wire) + waiting
  }

  ghost predicate Suffix(ps: seq<Packet>, all: seq<Packet>) {
    |ps| <= |all| && ps == all[|all| - |ps|..]
  }

  lemma SuffixStep(ps: seq<Packet>, all: seq<Packet>, d: nat, p: Packet)
    requires Suffix(ps, all) && d <= |ps|
    ensures Suffix(ps[d..] + [p], all + [p])
  {}

  /** The packet that has waited longest is sent. */
  lemma {:induction false} BooksFirst(accepted: seq<Packet>, wire: seq<Packet>, waiting: seq<Packet>, max: nat)
    requires Books(accepted, wire, waiting, max) && waiting != []
    ensures CanKeep(waiting[0], max) && !HighPriority(waiting[0])
    ensures Books(accepted, wire + [waiting[0]], waiting[1..], max)
    ensures Lens(Paced(wire + [waiting[0]])) == Lens(Paced(wire)) + [PktLen(waiting[0])]
  {
    assert InBooks(0);
    SentStep(wire, waiting[0]);
    LensSnoc(Paced(wire), waiting[0]);
    Regroup(Paced(wire), waiting);
  }

  /** A packet begins to wait. */
  lemma BooksWaits(accepted: seq<Packet>, wire: seq<Packet>, waiting: seq<Packet>, max: nat, p: Packet)
    requires Books(accepted, wire, waiting, max) && CanKeep(p, max) && !HighPriority(p)
    ensures Books(accepted + [p], wire, waiting + [p], max)
  {
    assert InBooks(0);
  }

  /** A packet is sent when none waits. */
  lemma {:induction false} BooksSent(accepted: seq<Packet>, wire: seq<Packet>, max: nat, p: Packet)
    requires Books(accepted, wire, [], max) && !HighPriority(p)
    ensures Books(accepted + [p], wire + [p], [], max)
    ensures Lens(Paced(wire + [p])) == Lens(Paced(wire)) + [PktLen(p)]
  {
    assert InBooks(0);
    SentStep(wire, p);
    LensSnoc(Paced(wire), p);
  }

  /** A packet goes past those that wait. */
  lemma {:induction false} BooksPassed(accepted: seq<Packet>, wire: seq<Packet>, waiting: seq<Packet>, max: nat, p: Packet)
    requires Books(accepted, wire, waiting, max) && HighPriority(p)
    ensures Books(accepted, wire + [p], waiting, max) && Paced(wire + [p]) == Paced(wire)
  {
    assert InBooks(0);
    SentStep(wire, p);
  }

  lemma Regroup(ps: seq<Packet>, qs: seq<Packet>)
    requires qs != []
    ensures (ps + [qs[0]]) + qs[1..] == ps + qs
  {}

  lemma {:induction false} KeptStep(ps: seq<Packet>, ts: seq<timestamp>, sent: seq<Packet>, p: Packet, now: timestamp, stamp: timestamp,
                 hold: int, max: nat, ps': seq<Packet>, ts': seq<timestamp>)
    requires Suffix(ps, Kept(sent)) && Added(p, now, stamp, hold, max, ps, ts, ps', ts') && !NoRtx(p)
    ensures Suffix(ps', Kept(sent + [p]))
  {
    SentStep(sent, p);
    SuffixStep(ps, Kept(sent), Evicted(ps, ts, now, hold, PktLen(p), max), p);
  }

  ghost predicate Renewed(k: int) { true }

  /** What becomes of the packets kept when p has been sent: p comes after what is left of the old
      ones, or nothing changes. Only proofs that mention Renewed look at how. */
  ghost predicate KeptAs(p: Packet, now: timestamp, stamp: timestamp, hold: int, max: nat, ps: seq<Packet>,
                         ts: seq<timestamp>, ps': seq<Packet>, ts': seq<timestamp>) {
    forall k {:trigger Renewed(k)} :: Renewed(k) ==>
      if NoRtx(p) then ps' == ps && ts' == ts else Added(p, now, stamp, hold, max, ps, ts, ps', ts')
  }

  ghost predicate Within(k: int) { true }

  ghost predicate Booked(k: int) { true }

  ghost predicate AmongKept(k: int) { true }

  /** The last thing that happened was that n bytes were asked for and not granted. */
  ghost predicate Refused(events: seq<Event>, n: nat) {
    && events != [] && events[|events| - 1].Ask? && events[|events| - 1].len == n
    && !Granted(Run(START, events[..|events| - 1]), events[|events| - 1].now, n)
  }

  lemma {:induction false} LastRefused(before: seq<Event>, now: timestamp, n: nat)
    requires !Granted(Run(START, before), now, n)
    ensures Refused(before + [Ask(now, n)], n)
  {
    assert (before + [Ask(now, n)])[..|before|] == before;
  }

  lemma FirstMoved(wire0: seq<Packet>, waiting0: seq<Packet>, wire: seq<Packet>, waiting: seq<Packet>)
    requires |wire| > |wire0| && waiting0 != [] && wire + waiting == wire0 + waiting0
    ensures wire[|wire0|] == waiting0[0]
  {
    assert (wire + waiting)[|wire0|] == (wire0 + waiting0)[|wire0|];
  }

  ghost predicate Asking(k: int) { true }

  /** Asking for the first packet that waits. Only proofs that mention Asking look at this. */
  ghost predicate FirstAsked(ok: bool, b: Bucket, now: timestamp, n: nat, before: seq<Event>, after: seq<Event>) {
    forall k {:trigger Asking(k)} :: Asking(k) ==> ok == Granted(b, now, n) && after == before + [Ask(now, n)]
  }

  /** What a drain event does for the first packet p that waits: sends it if it is granted, and
      otherwise only asks. */
  ghost predicate FirstServed(p: Packet, b: Bucket, now: timestamp, before: seq<Event>, wire0: seq<Packet>,
                              after: seq<Event>, wire: seq<Packet>) {
    if Granted(b, now, PktLen(p)) then |wire| > |wire0| && wire[|wire0|] == p
    else wire == wire0 && after == before + [Ask(now, PktLen(p))]
  }

  ghost predicate Logging(k: int) { true }

  /** What a drain event does to the bucket: for each packet that is sent, it asks and then looks at the
      clock again; at the end it asks for the packet that has to go on waiting, if there is one. */
  ghost predicate DrainLog(log: seq<Event>, moved: seq<Packet>, waiting: seq<Packet>) {
    && |log| == 2 * |moved| + (if waiting == [] then 0 else 1)
    && (forall i :: 0 <= i < |moved| ==> log[2 * i].Ask? && log[2 * i].len == PktLen(moved[i]) && log[2 * i + 1].Touch?)
    && (waiting != [] ==> log[|log| - 1].Ask? && log[|log| - 1].len == PktLen(waiting[0]))
  }

  /** What happened since then is what a drain event does. Only proofs that mention Logging look at this. */
  ghost predicate Served(events0: seq<Event>, wire0: seq<Packet>, events: seq<Event>, wire: seq<Packet>, waiting: seq<Packet>) {
    forall k {:trigger Logging(k)} :: Logging(k) ==>
      events0 <= events && wire0 <= wire && DrainLog(events[|events0|..], wire[|wire0|..], waiting)
  }

  lemma ServedNone(events: seq<Event>, wire: seq<Packet>)
    ensures Served(events, wire, events, wire, [])
  {}

  lemma ServedSent(events0: seq<Event>, wire0: seq<Packet>, events: seq<Event>, wire: seq<Packet>, waiting: seq<Packet>, now: timestamp)
    requires Served(events0, wire0, events, wire, waiting) && waiting != []
    ensures Served(events0, wire0, events + [Event.Touch(now)], wire + [waiting[0]], [])
  {
    assert Logging(0);
    var log, moved := events[|events0|..], wire[|wire0|..];
    assert (events + [Event.Touch(now)])[|events0|..] == log + [Event.Touch(now)];
    assert (wire + [waiting[0]])[|wire0|..] == moved + [waiting[0]];
  }

  lemma ServedAsked(events0: seq<Event>, wire0: seq<Packet>, events: seq<Event>, wire: seq<Packet>, waiting: seq<Packet>, now: timestamp)
    requires Served(events0, wire0, events, wire, []) && waiting != []
    ensures Served(events0, wire0, events + [Ask(now, PktLen(waiting[0]))], wire, waiting)
  {
    assert Logging(0);
    var log := events[|events0|..];
    assert (events + [Ask(now, PktLen(waiting[0]))])[|events0|..] == log + [Ask(now, PktLen(waiting[0]))];
  }

  /** A packet of len bytes is asked for at these instants, and refused each time. */
  ghost predicate AllRefused(before: seq<Event>, times: seq<timestamp>, len: nat)
    decreases |times|
  {
    times != [] ==>
      && !Granted(Run(START, before), times[0], len)
      && AllRefused(before + [Ask(times[0], len)], times[1..], len)
  }

  lemma {:induction false} RefusedNotGranted(before: seq<Event>, times: seq<timestamp>, len: nat)
    requires AllRefused(before, times, len)
    ensures !GrantedBy(Run(START, before), times, len)
    decreases |times|
  {
    if times != [] {
      StepSnoc(START, before, Ask(times[0], len));
      RefusedNotGranted(before + [Ask(times[0], len)], times[1..], len);
    }
  }

  /** How long the first packet waits: so many drain events, each when planned or later, are refused
      only as long as their sure leaks do not make room for the packet. */
  lemma {:induction false} WaitingBound(before: seq<Event>, times: seq<timestamp>, len: nat)
    requires var b := Run(START, before); InRange(b) && b.rate > 0 && len <= b.size && AllDue(b, times, len)
    requires AllRefused(before, times, len) && times != []
    ensures var b := Run(START, before); Product(|times|, SureLeak(len, b.rate)) < b.bytes + len - b.size
  {
    RefusedNotGranted(before, times, len);
    if Product(|times|, SureLeak(len, Run(START, before).rate)) >= Run(START, before).bytes + len - Run(START, before).size {
      SentInTheEnd(Run(START, before), times, len);
    }
  }

  lemma {:induction false} SumOfLens(ps: seq<Packet>)
    ensures Sum(Lens(ps)) == TotalLen(ps)
  {
    if ps != [] {
      var k := |ps| - 1;
      SumOfLens(ps[..k]);
      TotalLenSnoc(ps[..k], ps[k]);
      assert ps == ps[..k] + [ps[k]];
      assert Lens(ps)[..k] == Lens(ps[..k]);
    }
  }

  /** The admission bound for packets: what is sent through the bucket between two instants. */
  lemma {:induction false} PacedBound(first: seq<Event>, next: seq<Event>, before: seq<Packet>, between: seq<Packet>)
    requires Grants(START, first) == Lens(before) && Grants(START, first + next) == Lens(before + between)
    requires var b := Run(START, first); InRange(b) && b.rate > 0 && Steady(b, next)
    ensures TotalLen(between) * MILLION <= Allowance(Run(START, first), Run(START, first + next).seen)
  {
    var b := Run(START, first);
    TotalIsSum(START, first);
    TotalIsSum(START, first + next);
    SumOfLens(before);
    SumOfLens(before + between);
    TotalLenAppend(before, between);
    RunSplit(START, first, next);
    AdmissionBound(b, next);
  }

  /** A list without its k-th entry. */
  function Without<T>(s: seq<T>, k: nat): seq<T>
    requires k < |s|
  {
    s[..k] + s[k + 1..]
  }

  class Transmitter {
    const tx: PacketQueue
    const rtx: PacketQueue
    const txMaxSize: int
    const rtxMaxSize: nat
    const hold: int
    /** The readings of the clock, and how many were taken. */
    const clock: nat -> timestamp
    var ticks: nat

    var bytesInBucket: int
    var bibThen: timestamp
    var bucketSize: int
    var drainRate: int
    /** The delays of the pending drain events. */
    var timers: seq<Time>

    /** What happened to the bucket, the packets taken over for paced sending, and all packets
        handed to the socket. */
    ghost var events: seq<Event>
    ghost var accepted: seq<Packet>
    ghost var wire: seq<Packet>

    ghost function Level(): Bucket
      reads this`bytesInBucket, this`bibThen, this`bucketSize, this`drainRate
    {
      Bucket(bytesInBucket, bibThen, bucketSize, drainRate)
    }

    /** The queues hold what was accepted and not sent, and what was sent last. */
    ghost predicate QueuesValid()
      reads this`accepted, this`wire, tx, rtx, tx.nodes, rtx.nodes
    {
      tx != rtx && tx.Valid() && forall k {:trigger Within(k)} :: Within(k) ==> QueuesHold()
    }

    ghost predicate QueuesHold()
      reads this`accepted, this`wire, tx, rtx, tx.nodes, rtx.nodes
    {
      && tx.Valid() && KeptValid(wire)
      && tx.nodes !! rtx.nodes
      && Books(accepted, wire, tx.packets, rtxMaxSize)
    }

    /** The newest of the sent packets are kept, as many as there is room for. */
    ghost predicate KeptValid(sent: seq<Packet>)
      reads rtx, rtx.nodes
    {
      rtx.Valid() && forall k {:trigger AmongKept(k)} :: AmongKept(k) ==>
        TotalLen(rtx.packets) <= rtxMaxSize && Suffix(rtx.packets, Kept(sent))
    }

    ghost predicate BucketValid()
      reads this`bytesInBucket, this`bibThen, this`bucketSize, this`drainRate, this`events
    {
      forall k {:trigger Booked(k)} :: Booked(k) ==> Level() == Run(START, events)
    }

    /** Apart from the timers, with one more packet of the given sizes granted but not sent yet. */
    ghost predicate Owing(granted: seq<nat>)
      reads this, tx, rtx, tx.nodes, rtx.nodes
    {
      && QueuesValid() && BucketValid()
      && Grants(START, events) == Lens(Paced(wire)) + granted
    }

    /** All accepted packets are sent or queued, in order; each one sent was charged once; packets
        that wait have a drain event pending. */
    ghost predicate Valid()
      reads this, tx, rtx, tx.nodes, rtx.nodes
    {
      && Owing([])
      && (tx.packets != [] ==> timers != [])
    }

    constructor (txMaxSize: int, rtxMaxSize: nat, hold: int, clock: nat -> timestamp)
      ensures Valid() && fresh(tx) && fresh(rtx)
      ensures this.txMaxSize == txMaxSize && this.rtxMaxSize == rtxMaxSize && this.hold == hold && this.clock == clock
      ensures events == [] && accepted == [] && wire == []
    {
      tx := new PacketQueue();
      rtx := new PacketQueue();
      this.txMaxSize, this.rtxMaxSize, this.hold, this.clock, ticks := txMaxSize, rtxMaxSize, hold, clock, 0;
      bytesInBucket, bibThen, bucketSize, drainRate, timers := 0, Time(0, 0), 0, 0, [];
      events, accepted, wire := [], [], [];
    }

    method Now() returns (t: timestamp)
      modifies this`ticks
      ensures t == clock(old(ticks)) && ticks == old(ticks) + 1
    {
      t := clock(ticks);
      ticks := ticks + 1;
    }

    /** May a packet of len bytes be sent now? */
    method OutputRateControl(len: nat) returns (ok: bool)
      requires BucketValid()
      modifies this`ticks, this`bytesInBucket, this`bibThen, this`events
      ensures BucketValid()
      ensures events == old(events) + [Ask(clock(old(ticks)), len)] && ticks == old(ticks) + 1
      ensures ok == Granted(old(Level()), clock(old(ticks)), len)
      ensures Level() == Asked(old(Level()), clock(old(ticks)), len)
    {
      assert Booked(0);
      var now := Now();
      StepSnoc(START, events, Ask(now, len));
      events := events + [Ask(now, len)];
      if drainRate <= 0 {
        bytesInBucket, bibThen := 0, now;
        return true;
      }
      Leak(now);
      bibThen := now;
      ok := bytesInBucket + len <= bucketSize;
      if ok {
        bytesInBucket := bytesInBucket + len;
      }
    }

    /** Takes out what has leaked since the last look. */
    method Leak(now: timestamp)
      requires drainRate > 0
      modifies this`bytesInBucket
      ensures bytesInBucket == Drained(old(Level()), now)
    {
      var drainSecs := TruncDiv(bytesInBucket, drainRate) + 1;
      if now.sec - bibThen.sec - 1 > drainSecs {
        bytesInBucket := 0;
      } else {
        var leaked := Wrap(Product(drainRate, now.sec - bibThen.sec));
        leaked := Wrap(leaked + TruncDiv(Product(drainRate, now.usec - bibThen.usec), MILLION));
        bytesInBucket := if leaked > bytesInBucket then 0 else bytesInBucket - leaked;
      }
    }

    /** New parameters, in bytes and bits per second. */
    method SetOutputRateParams(size: int, bitRate: int)
      requires Valid()
      modifies this`bucketSize, this`drainRate, this`ticks, this`bytesInBucket, this`bibThen, this`events
      ensures Valid() && bucketSize == size && drainRate == bitRate / 8
      ensures bibThen == clock(old(ticks)) && bytesInBucket == Settled(old(bytesInBucket), old(bibThen), old(drainRate), bibThen)
    {
      Reconfigure(size, bitRate);
    }

    method Reconfigure(size: int, bitRate: int)
      requires BucketValid()
      modifies this`bucketSize, this`drainRate, this`ticks, this`bytesInBucket, this`bibThen, this`events
      ensures BucketValid() && Grants(START, events) == Grants(START, old(events))
      ensures bucketSize == size && drainRate == bitRate / 8
      ensures bibThen == clock(old(ticks)) && bytesInBucket == Settled(old(bytesInBucket), old(bibThen), old(drainRate), bibThen)
    {
      Configure(size, drainRate);
      AskForNothing();
      Configure(size, bitRate / 8);
    }

    method Configure(size: int, rate: int)
      requires BucketValid()
      modifies this`bucketSize, this`drainRate, this`events
      ensures BucketValid() && Grants(START, events) == Grants(START, old(events))
      ensures bucketSize == size && drainRate == rate
    {
      assert Booked(0);
      StepSnoc(START, events, Set(size, rate));
      events := events + [Set(size, rate)];
      bucketSize, drainRate := size, rate;
    }

    method AskForNothing()
      requires BucketValid()
      modifies this`ticks, this`bytesInBucket, this`bibThen, this`events
      ensures BucketValid() && Grants(START, events) == Grants(START, old(events))
      ensures bucketSize == old(bucketSize) && bibThen == clock(old(ticks))
      ensures bytesInBucket == Settled(old(bytesInBucket), old(bibThen), old(drainRate), bibThen)
    {
      assert Booked(0);
      StepSnoc(START, events, Ask(clock(ticks), 0));
      SettledIs(Level(), clock(ticks));
      var _ := OutputRateControl(0);
    }

    /** Asks for a packet's length: if it is granted, the packet is owed. */
    method Charge(n: nat) returns (ok: bool)
      requires Owing([]) && n > 0
      modifies this`ticks, this`bytesInBucket, this`bibThen, this`events
      ensures Owing(if ok then [n] else []) && ok == Granted(old(Level()), clock(old(ticks)), n)
      ensures !ok ==> drainRate > 0 && Refused(events, n)
      ensures events == old(events) + [Ask(clock(old(ticks)), n)]
    {
      assert Booked(0);
      StepSnoc(START, events, Ask(clock(ticks), n));
      ok := OutputRateControl(n);
      if !ok { LastRefused(old(events), clock(old(ticks)), n); }
    }

    /** Schedules the drain event for when so many bytes have leaked. */
    method PlanFreeSpaceInBucketEvent(bytes: nat)
      requires drainRate > 0
      modifies this`timers
      ensures timers == old(timers) + [DrainTime(bytes, drainRate)]
    {
      var sec := bytes / drainRate;
      timers := timers + [Time(sec, (bytes - Product(sec, drainRate)) * MILLION / drainRate)];
    }

    /** Hands a packet to the socket and keeps it for retransmission if its priority asks for that. */
    method SendAndKeep(c: PacketContainer)
      requires KeptValid(wire) && c !in rtx.nodes && CanKeep(c.packet, rtxMaxSize)
      modifies this`wire, this`ticks, rtx, rtx.nodes, c
      ensures KeptValid(wire) && wire == old(wire) + [c.packet]
      ensures KeptAs(c.packet, clock(old(ticks)), clock(old(ticks) + 1), hold, rtxMaxSize,
                     old(rtx.packets), old(rtx.times), rtx.packets, rtx.times)
      ensures rtx.nodes <= old(rtx.nodes) + {c}
    {
      if NoRtx(c.packet) {
        assert AmongKept(0);
        SentStep(wire, c.packet);
      } else {
        Keep(c, wire);
      }
      wire := wire + [c.packet];
    }

    method Keep(c: PacketContainer, ghost sent: seq<Packet>)
      requires KeptValid(sent) && c !in rtx.nodes && PktLen(c.packet) <= rtxMaxSize && !NoRtx(c.packet)
      modifies this`ticks, rtx, rtx.nodes, c
      ensures KeptValid(sent + [c.packet])
      ensures KeptAs(c.packet, clock(old(ticks)), clock(old(ticks) + 1), hold, rtxMaxSize,
                     old(rtx.packets), old(rtx.times), rtx.packets, rtx.times)
      ensures rtx.nodes <= old(rtx.nodes) + {c}
    {
      assert AmongKept(0);
      var now := Now();
      var stamp := Now();
      ghost var ps, ts := rtx.packets, rtx.times;
      rtx.AddPacketRTX(c, now, stamp, hold, rtxMaxSize);
      KeptStep(ps, ts, sent, c.packet, now, stamp, hold, rtxMaxSize, rtx.packets, rtx.times);
    }

    /** Sends the packet that has waited longest. */
    method SendFirst()
      requires QueuesValid() && tx.packets != []
      modifies this`wire, this`ticks, tx, tx.nodes, rtx, rtx.nodes
      ensures QueuesValid() && wire == old(wire) + [old(tx.packets)[0]] && tx.packets == old(tx.packets)[1..]
      ensures Lens(Paced(wire)) == Lens(Paced(old(wire))) + [PktLen(old(tx.packets)[0])]
      ensures tx.nodes <= old(tx.nodes) && rtx.nodes <= old(rtx.nodes) + old(tx.nodes)
    {
      assert Within(0);
      BooksFirst(accepted, wire, tx.packets, rtxMaxSize);
      var c := TakeFirst();
      HandOn(c);
    }

    /** Takes the packet that has waited longest out of the queue; the packets kept stay. */
    method TakeFirst() returns (c: PacketContainer)
      requires QueuesValid() && tx.packets != []
      modifies tx, tx.nodes
      ensures tx != rtx && tx.Valid() && KeptValid(wire) && tx.nodes !! rtx.nodes
      ensures c in old(tx.nodes) && c !in tx.nodes && c !in rtx.nodes && tx.nodes <= old(tx.nodes)
      ensures c.packet == old(tx.packets)[0] && tx.packets == old(tx.packets)[1..] && rtx.nodes == old(rtx.nodes)
    {
      assert Within(0);
      c := tx.TakePacketToSend();
    }

    /** Sends a packet that is in neither queue and already booked as sent. */
    method HandOn(c: PacketContainer)
      requires tx != rtx && tx.Valid() && KeptValid(wire) && tx.nodes !! rtx.nodes
      requires c !in tx.nodes && c !in rtx.nodes && CanKeep(c.packet, rtxMaxSize)
      requires Books(accepted, wire + [c.packet], tx.packets, rtxMaxSize)
      modifies this`wire, this`ticks, rtx, rtx.nodes, c
      ensures QueuesValid() && wire == old(wire) + [c.packet] && tx.packets == old(tx.packets)
      ensures rtx.nodes <= old(rtx.nodes) + {c}
    {
      SendAndKeep(c);
    }

    /** Sets the time of the last look without letting anything leak. */
    method Touch()
      requires BucketValid()
      modifies this`ticks, this`bibThen, this`events
      ensures BucketValid() && Grants(START, events) == Grants(START, old(events))
      ensures events == old(events) + [Event.Touch(clock(old(ticks)))]
    {
      assert Booked(0);
      var now := Now();
      StepSnoc(START, events, Event.Touch(now));
      events := events + [Event.Touch(now)];
      bibThen := now;
    }

    /** The first packet that waits has been granted, or no packet can be sent now. */
    ghost predicate Ready(go: bool)
      reads this, tx, rtx, tx.nodes, rtx.nodes
    {
      if go then tx.packets != [] && Owing([PktLen(tx.packets[0])])
      else Owing([]) && (tx.packets == [] || (drainRate > 0 && Refused(events, PktLen(tx.packets[0]))))
    }

    /** Is there a packet waiting, and may it be sent? */
    method MaySend() returns (go: bool)
      requires Owing([])
      modifies this`ticks, this`bytesInBucket, this`bibThen, this`events
      ensures Ready(go) && (tx.packets == [] ==> !go && events == old(events))
      ensures tx.packets != [] ==> FirstAsked(go, old(Level()), clock(old(ticks)), PktLen(tx.packets[0]), old(events), events)
    {
      var empty := tx.IsEmpty();
      if empty {
        return false;
      }
      var n := tx.FirstPacketSize();
      go := Charge(n);
    }

    method SendNext(ghost events0: seq<Event>, ghost wire0: seq<Packet>)
      requires Ready(true) && Served(events0, wire0, events, wire, tx.packets)
      modifies this`wire, this`ticks, this`bibThen, this`events, tx, tx.nodes, rtx, rtx.nodes
      ensures Owing([]) && Served(events0, wire0, events, wire, [])
      ensures Moved(old(wire), old(tx.packets)) && |tx.packets| < |old(tx.packets)| && |wire| > |old(wire)|
      ensures tx.nodes <= old(tx.nodes) && rtx.nodes <= old(rtx.nodes) + old(tx.nodes)
    {
      Regroup(wire, tx.packets);
      ServedSent(events0, wire0, events, wire, tx.packets, clock(ticks));
      Touch();
      SendFirst();
    }

    /** Packets have gone from the queue to the socket, in order. */
    ghost predicate Moved(wire0: seq<Packet>, waiting0: seq<Packet>)
      reads this`wire, tx
    {
      |wire| >= |wire0| && wire + tx.packets == wire0 + waiting0
    }

    /** Asks for the first packet that waits, if there is one. */
    method AskNext(ghost events0: seq<Event>, ghost wire0: seq<Packet>) returns (go: bool)
      requires Owing([]) && Served(events0, wire0, events, wire, [])
      modifies this`ticks, this`bytesInBucket, this`bibThen, this`events
      ensures Ready(go) && Served(events0, wire0, events, wire, tx.packets)
      ensures tx.packets != [] ==> FirstAsked(go, old(Level()), clock(old(ticks)), PktLen(tx.packets[0]), old(events), events)
    {
      if tx.packets != [] { ServedAsked(events0, wire0, events, wire, tx.packets, clock(ticks)); }
      go := MaySend();
      assert Asking(0);
    }

    method SendAndAsk(ghost events0: seq<Event>, ghost wire0: seq<Packet>) returns (go: bool)
      requires Ready(true) && Served(events0, wire0, events, wire, tx.packets)
      modifies this`wire, this`ticks, this`bytesInBucket, this`bibThen, this`events, tx, tx.nodes, rtx, rtx.nodes
      ensures Ready(go) && Served(events0, wire0, events, wire, tx.packets)
      ensures Moved(old(wire), old(tx.packets)) && |tx.packets| < |old(tx.packets)| && |wire| > |old(wire)|
      ensures tx.nodes <= old(tx.nodes) && rtx.nodes <= old(rtx.nodes) + old(tx.nodes)
    {
      SendNext(events0, wire0);
      go := AskNext(events0, wire0);
    }

    method Drain()
      requires Owing([])
      modifies this`wire, this`ticks, this`bytesInBucket, this`bibThen, this`events, tx, tx.nodes, rtx, rtx.nodes
      ensures Ready(false) && Moved(old(wire), old(tx.packets)) && Served(old(events), old(wire), events, wire, tx.packets)
      ensures old(tx.packets) != [] ==>
        FirstServed(old(tx.packets)[0], old(Level()), clock(old(ticks)), old(events), old(wire), events, wire)
    {
      ServedNone(events, wire);
      var go := AskNext(events, wire);
      assert Asking(0);
      if go { DrainFirst(old(events), old(wire)); }
    }

    /** Sends the first packet, which has been granted, and those after it for which there is room. */
    method DrainFirst(ghost events0: seq<Event>, ghost wire0: seq<Packet>)
      requires Ready(true) && Served(events0, wire0, events, wire, tx.packets)
      modifies this`wire, this`ticks, this`bytesInBucket, this`bibThen, this`events, tx, tx.nodes, rtx, rtx.nodes
      ensures Ready(false) && Moved(old(wire), old(tx.packets)) && Served(events0, wire0, events, wire, tx.packets)
      ensures |wire| > |old(wire)| && wire[|old(wire)|] == old(tx.packets)[0]
    {
      var go := SendAndAsk(events0, wire0);
      DrainRest(go, events0, wire0);
      FirstMoved(old(wire), old(tx.packets), wire, tx.packets);
    }

    /** Goes on as long as the bucket has room. */
    method DrainRest(go0: bool, ghost events0: seq<Event>, ghost wire0: seq<Packet>)
      requires Ready(go0) && Served(events0, wire0, events, wire, tx.packets)
      modifies this`wire, this`ticks, this`bytesInBucket, this`bibThen, this`events, tx, tx.nodes, rtx, rtx.nodes
      ensures Ready(false) && Moved(old(wire), old(tx.packets)) && Served(events0, wire0, events, wire, tx.packets)
    {
      var go := go0;
      while go
        invariant Ready(go) && Moved(old(wire), old(tx.packets)) && Served(events0, wire0, events, wire, tx.packets)
        invariant tx.nodes <= old(tx.nodes) && rtx.nodes <= old(rtx.nodes) + old(tx.nodes)
        decreases |tx.packets|
      {
        go := SendAndAsk(events0, wire0);
      }
    }

    /** The k-th pending drain event: sends waiting packets as long as the bucket has room, and
        schedules another event if some are left. */
    method FreeSpaceInBucketCb(k: nat)
      requires Valid() && k < |timers|
      modifies this`wire, this`ticks, this`bytesInBucket, this`bibThen, this`events, this`timers
      modifies tx, tx.nodes, rtx, rtx.nodes
      ensures Valid() && Moved(old(wire), old(tx.packets))
      ensures Served(old(events), old(wire), events, wire, tx.packets)
      ensures old(tx.packets) != [] ==>
        FirstServed(old(tx.packets)[0], old(Level()), clock(old(ticks)), old(events), old(wire), events, wire)
      ensures tx.packets != [] ==> drainRate > 0 && Refused(events, PktLen(tx.packets[0]))
      ensures timers == Without(old(timers), k)
                        + if tx.packets == [] then [] else [DrainTime(PktLen(tx.packets[0]), drainRate)]
    {
      timers := Without(timers, k);
      Drain();
      PlanNext();
    }

    method PlanNext()
      requires Ready(false)
      modifies this`timers
      ensures Valid()
      ensures timers == old(timers) + if tx.packets == [] then [] else [DrainTime(PktLen(tx.packets[0]), drainRate)]
    {
      var empty := tx.IsEmpty();
      if !empty {
        var n := tx.FirstPacketSize();
        PlanFreeSpaceInBucketEvent(n);
      }
    }

    /** The packet waits if there is room in the queue. */
    ghost predicate Enqueued(p: Packet, rc: Code, waiting0: seq<Packet>, accepted0: seq<Packet>)
      reads this`accepted, tx
    {
      if TotalLen(waiting0) + PktLen(p) <= txMaxSize then
        rc == OK && tx.packets == waiting0 + [p] && accepted == accepted0 + [p]
      else
        rc == THROTTLE && tx.packets == waiting0 && accepted == accepted0
    }

    method Enqueue(c: PacketContainer) returns (rc: Code)
      requires QueuesValid() && c !in tx.nodes && c !in rtx.nodes && c.next == null
      requires CanKeep(c.packet, rtxMaxSize) && !HighPriority(c.packet)
      modifies this`accepted, tx, tx.nodes
      ensures QueuesValid() && Enqueued(c.packet, rc, old(tx.packets), old(accepted))
    {
      assert Within(0);
      BooksWaits(accepted, wire, tx.packets, rtxMaxSize, c.packet);
      var ok := tx.AddPacketTX(c, txMaxSize);
      if ok {
        accepted := accepted + [c.packet];
        return OK;
      }
      return THROTTLE;
    }

    /** Sends a packet of high priority past the queue. */
    method SendHigh(c: PacketContainer)
      requires QueuesValid() && c !in tx.nodes && c !in rtx.nodes && CanKeep(c.packet, rtxMaxSize) && HighPriority(c.packet)
      modifies this`wire, this`ticks, rtx, rtx.nodes, c
      ensures QueuesValid() && wire == old(wire) + [c.packet] && tx.packets == old(tx.packets)
      ensures Paced(wire) == Paced(old(wire))
    {
      assert Within(0);
      BooksPassed(accepted, wire, tx.packets, rtxMaxSize, c.packet);
      SendAndKeep(c);
    }

    /** Sends a packet that was granted when none waited. */
    method SendGranted(c: PacketContainer)
      requires QueuesValid() && c !in tx.nodes && c !in rtx.nodes && CanKeep(c.packet, rtxMaxSize)
      requires !HighPriority(c.packet) && tx.packets == []
      modifies this`wire, this`ticks, this`accepted, rtx, rtx.nodes, c
      ensures QueuesValid() && wire == old(wire) + [c.packet] && accepted == old(accepted) + [c.packet]
      ensures tx.packets == [] && Lens(Paced(wire)) == Lens(Paced(old(wire))) + [PktLen(c.packet)]
    {
      assert Within(0);
      BooksSent(accepted, wire, rtxMaxSize, c.packet);
      SendAndKeep(c);
      accepted := accepted + [c.packet];
    }

    /** What becomes of a packet that goes through the bucket when the queue is not empty, or is. */
    ghost predicate Taken(p: Packet, rc: Code, net: Code, waiting0: seq<Packet>, accepted0: seq<Packet>,
                          wire0: seq<Packet>, granted: bool)
      reads this`accepted, this`wire, tx
    {
      if granted then rc == net && wire == wire0 + [p] && accepted == accepted0 + [p] && tx.packets == waiting0
      else wire == wire0 && Enqueued(p, rc, waiting0, accepted0)
    }

    /** Sends a packet at once, queues it behind the others or drops it; net is what the socket
        answers if it is sent. */
    method QueueOrSendPacket(p: Packet, net: Code) returns (rc: Code)
      requires Valid() && CanKeep(p, rtxMaxSize)
      modifies this`wire, this`accepted, this`ticks, this`bytesInBucket, this`bibThen, this`events, this`timers
      modifies tx, tx.nodes, rtx, rtx.nodes
      ensures Valid()
      ensures HighPriority(p) ==> rc == net && wire == old(wire) + [p] && accepted == old(accepted)
                                  && tx.packets == old(tx.packets)
      ensures HighPriority(p) || old(tx.packets) != [] ==> events == old(events) && timers == old(timers)
      ensures !HighPriority(p) && old(tx.packets) == [] ==>
        timers == old(timers) + if Granted(old(Level()), clock(old(ticks)), PktLen(p)) then []
                                else [DrainTime(PktLen(p), drainRate)]
      ensures !HighPriority(p) ==>
        Taken(p, rc, net, old(tx.packets), old(accepted), old(wire),
              old(tx.packets) == [] && Granted(old(Level()), clock(old(ticks)), PktLen(p)))
    {
      var c := new PacketContainer(p);
      if HighPriority(p) {
        PassBy(c);
        rc := net;
      } else {
        rc := Pace(c, net);
      }
    }

    /** Sends a packet of high priority past the bucket. */
    method PassBy(c: PacketContainer)
      requires Valid() && c !in tx.nodes && c !in rtx.nodes && CanKeep(c.packet, rtxMaxSize) && HighPriority(c.packet)
      modifies this`wire, this`ticks, this`accepted, rtx, rtx.nodes, c
      ensures Valid() && wire == old(wire) + [c.packet] && accepted == old(accepted)
    {
      SendHigh(c);
    }

    /** Sends a packet through the bucket, behind those that wait. */
    method Pace(c: PacketContainer, net: Code) returns (rc: Code)
      requires Valid() && c !in tx.nodes && c !in rtx.nodes && c.next == null
      requires CanKeep(c.packet, rtxMaxSize) && !HighPriority(c.packet)
      modifies this`wire, this`accepted, this`ticks, this`bytesInBucket, this`bibThen, this`events, this`timers
      modifies tx, tx.nodes, rtx, rtx.nodes, c
      ensures Valid()
      ensures Taken(c.packet, rc, net, old(tx.packets), old(accepted), old(wire),
                    old(tx.packets) == [] && Granted(old(Level()), clock(old(ticks)), PktLen(c.packet)))
      ensures old(tx.packets) != [] ==> events == old(events) && timers == old(timers)
      ensures old(tx.packets) == [] ==>
        timers == old(timers) + if Granted(old(Level()), clock(old(ticks)), PktLen(c.packet)) then []
                                else [DrainTime(PktLen(c.packet), drainRate)]
    {
      var empty := tx.IsEmpty();
      if empty {
        rc := SendOrWait(c, net);
      } else {
        rc := Enqueue(c);
      }
    }

    method SendOrWait(c: PacketContainer, net: Code) returns (rc: Code)
      requires Owing([]) && tx.packets == [] && c !in tx.nodes && c !in rtx.nodes && c.next == null
      requires CanKeep(c.packet, rtxMaxSize) && !HighPriority(c.packet)
      modifies this`wire, this`accepted, this`ticks, this`bytesInBucket, this`bibThen, this`events, this`timers
      modifies tx, tx.nodes, rtx, rtx.nodes, c
      ensures Valid()
      ensures Taken(c.packet, rc, net, [], old(accepted), old(wire),
                    Granted(old(Level()), clock(old(ticks)), PktLen(c.packet)))
      ensures timers == old(timers) + if Granted(old(Level()), clock(old(ticks)), PktLen(c.packet)) then []
                                      else [DrainTime(PktLen(c.packet), drainRate)]
    {
      var ok := Charge(PktLen(c.packet));
      rc := SendIfGranted(c, net, ok);
    }

    /** What follows the answer of the bucket. */
    method SendIfGranted(c: PacketContainer, net: Code, ok: bool) returns (rc: Code)
      requires Owing(if ok then [PktLen(c.packet)] else []) && (!ok ==> drainRate > 0)
      requires tx.packets == [] && c !in tx.nodes && c !in rtx.nodes && c.next == null
      requires CanKeep(c.packet, rtxMaxSize) && !HighPriority(c.packet)
      modifies this`wire, this`accepted, this`ticks, this`timers, tx, tx.nodes, rtx, rtx.nodes, c
      ensures Valid() && Taken(c.packet, rc, net, [], old(accepted), old(wire), ok)
      ensures timers == old(timers) + if ok then [] else [DrainTime(PktLen(c.packet), drainRate)]
    {
      if ok {
        SendGranted(c);
        rc := net;
      } else {
        rc := Wait(c);
      }
    }

    /** Queues a packet that was refused, and schedules the drain event for it. */
    method Wait(c: PacketContainer) returns (rc: Code)
      requires Owing([]) && drainRate > 0 && c !in tx.nodes && c !in rtx.nodes && c.next == null
      requires CanKeep(c.packet, rtxMaxSize) && !HighPriority(c.packet)
      modifies this`accepted, this`timers, tx, tx.nodes
      ensures Valid() && Enqueued(c.packet, rc, old(tx.packets), old(accepted))
      ensures timers == old(timers) + [DrainTime(PktLen(c.packet), drainRate)]
    {
      PlanFreeSpaceInBucketEvent(PktLen(c.packet));
      rc := Enqueue(c);
    }
  }
}
