/** The timers of a receiver: what they ask for, and why nothing that is missing is forgotten. */
module Requests {
  import opened Options
  import opened Bytes
  import opened Wire
  import opened Fragments
  import opened Reassembly
  import opened Tracking
  import opened Delivery
  import opened Retransmission

  /** What is scheduled: asking for a gap, asking for the tail, giving up on a message. */
  datatype Timer =
    | GapTimer(recvId: nat, seqNum: int, gap: nat, retry: int)
    | TailTimer(recvId: nat)
    | CleanupTimer(recvId: nat)

  const RTX_RETRY := 1

  /** A list without its k-th entry. */
  function Without<T>(s: seq<T>, k: nat): seq<T>
    requires k < |s|
  {
    s[..k] + s[k + 1..]
  }

  /** The timers without the one of a message's tail. */
  function Cancelled(timers: seq<Timer>, recvId: nat): (r: seq<Timer>)
    ensures forall tm :: tm in r <==> tm in timers && tm != TailTimer(recvId)
  {
    if timers == [] then []
    else (if timers[0] == TailTimer(recvId) then [] else [timers[0]]) + Cancelled(timers[1..], recvId)
  }

  function MessageLen(s: Slot): int { |s.buf| - s.hdrLen }

  /** The messages that are being received, the timers that are set and the requests that were sent;
      askers[i] is the slot that request i was for, and born[t] the number of requests that had been
      sent when the message in slot t began. */
  datatype Life = Life(table: Table, timers: seq<Timer>, nacks: seq<Nack>, askers: seq<nat>, born: seq<nat>)

  ghost predicate LifeOk(st: Life) {
    |st.askers| == |st.nacks| && |st.born| == |st.table| && forall tm :: tm in st.timers ==> tm.recvId < |st.table|
  }

  /** The timers that a packet sets: one for a new gap, and those of a new message. */
  function NewTimers(t: nat, s: Slot, h: MsgHeader): seq<Timer> {
    if s.complete then []
    else
      (if OpensGap(s, h.offset) then [GapTimer(t, s.seqNum, |s.gaps|, RTX_RETRY)] else [])
      + if s.timed then [] else [CleanupTimer(t), TailTimer(t)]
  }

  /** A packet has come. */
  function Came(st: Life, h: MsgHeader, body: seq<byte>): Life
    requires LifeOk(st) && CanReceive(st.table, h, body)
  {
    var t := Target(st.table, h);
    st.(table := TableAfter(st.table, h, body), timers := st.timers + NewTimers(t, SlotFor(st.table, h), h),
        born := if st.table[t] == None then st.born[t := |st.nacks|] else st.born)
  }

  /** The timer's message is there and its gap is open. */
  predicate StillOpen(table: Table, tm: Timer)
    requires tm.GapTimer?
  {
    && tm.recvId < |table| && table[tm.recvId].Some?
    && var s := table[tm.recvId].value;
       s.seqNum == tm.seqNum && tm.gap < |s.gaps| && s.gaps[tm.gap].from != s.gaps[tm.gap].to
  }

  /** The message in the slot is there, and its tail is open. */
  predicate TailOpen(table: Table, t: nat)
    requires t < |table|
  {
    table[t].Some? && table[t].value.expectedOffset != MessageLen(table[t].value)
  }

  /** A request for a range of the message in a slot. */
  function Request(s: Slot, from: int, to: int): Nack { Nack(s.txConnectionId, s.seqNum, from, to) }

  function Asking(st: Life, t: nat, from: int, to: int): Life
    requires t < |st.table| && st.table[t].Some?
  {
    st.(nacks := st.nacks + [Request(st.table[t].value, from, to)], askers := st.askers + [t])
  }

  /** Timer k has fired. */
  function Fired(st: Life, k: nat): Life
    requires LifeOk(st) && k < |st.timers|
  {
    var tm, rest := st.timers[k], st.(timers := Without(st.timers, k));
    match tm
    case GapTimer(t, seqNum, gap, retry) =>
      if StillOpen(st.table, tm) then
        var g := st.table[t].value.gaps[gap];
        var asked := Asking(rest, t, g.from, g.to);
        if retry > 1 then asked.(timers := asked.timers + [tm.(retry := retry - 1)]) else asked
      else rest
    case TailTimer(t) =>
      if TailOpen(st.table, t) then
        Asking(rest, t, st.table[t].value.expectedOffset, MessageLen(st.table[t].value))
      else rest
    case CleanupTimer(t) =>
      if st.table[t] == None then rest
      else rest.(table := st.table[t := None], timers := Cancelled(rest.timers, t))
  }

  // Each timer asks for what it is for

  /** The timer of a gap that is open asks for exactly that gap. */
  lemma GapAsked(st: Life, k: nat, t: nat, seqNum: int, gap: nat, retry: int)
    requires LifeOk(st) && k < |st.timers| && st.timers[k] == GapTimer(t, seqNum, gap, retry)
    requires st.table[t].Some? && st.table[t].value.seqNum == seqNum && gap < |st.table[t].value.gaps|
    ensures var s, g, st' := st.table[t].value, st.table[t].value.gaps[gap], Fired(st, k);
            && st'.table == st.table
            && st'.nacks == st.nacks + (if g.from != g.to then [Nack(s.txConnectionId, seqNum, g.from, g.to)] else [])
            && (GapTimer(t, seqNum, gap, retry - 1) in st'.timers || g.from == g.to || retry <= 1)
  {}

  /** The timer of a tail that is open asks for all of the tail. */
  lemma TailAsked(st: Life, k: nat, t: nat)
    requires LifeOk(st) && k < |st.timers| && st.timers[k] == TailTimer(t) && st.table[t].Some?
    ensures var s, st' := st.table[t].value, Fired(st, k);
            && st'.table == st.table
            && st'.nacks == st.nacks + (if s.expectedOffset != |s.buf| - s.hdrLen
                                        then [Nack(s.txConnectionId, s.seqNum, s.expectedOffset, |s.buf| - s.hdrLen)] else [])
  {}

  /** How often timers can still fire. */
  function Work(timers: seq<Timer>): nat {
    if timers == [] then 0
    else (if timers[0].GapTimer? && timers[0].retry > 1 then timers[0].retry else 1) + Work(timers[1..])
  }

  lemma {:induction false} WorkOf(a: seq<Timer>, b: seq<Timer>)
    ensures Work(a + b) == Work(a) + Work(b)
  {
    if a == [] {
      assert a + b == b;
    } else {
      assert (a + b)[1..] == a[1..] + b;
      WorkOf(a[1..], b);
    }
  }

  lemma {:induction false} CancelledWork(timers: seq<Timer>, t: nat)
    ensures Work(Cancelled(timers, t)) <= Work(timers)
  {
    if timers != [] {
      CancelledWork(timers[1..], t);
      WorkOf(if timers[0] == TailTimer(t) then [] else [timers[0]], Cancelled(timers[1..], t));
    }
  }

  /** With no packet coming, the timers run out. */
  lemma FiringEnds(st: Life, k: nat)
    requires LifeOk(st) && k < |st.timers|
    ensures Work(Fired(st, k).timers) < Work(st.timers)
  {
    var tm, rest := st.timers[k], Without(st.timers, k);
    assert st.timers == st.timers[..k] + ([tm] + st.timers[k + 1..]);
    WorkOf(st.timers[..k], [tm] + st.timers[k + 1..]);
    WorkOf([tm], st.timers[k + 1..]);
    WorkOf(st.timers[..k], st.timers[k + 1..]);
    WorkOf(rest, [RetryOf(tm)]);
    CancelledWork(rest, tm.recvId);
  }

  function RetryOf(tm: Timer): Timer { if tm.GapTimer? then tm.(retry := tm.retry - 1) else tm }

  lemma FiredOk(st: Life, k: nat)
    requires LifeOk(st) && k < |st.timers|
    ensures LifeOk(Fired(st, k))
  {
    var rest := Without(st.timers, k);
    assert forall tm :: tm in rest ==> tm in st.timers;
  }

  // Nothing is forgotten

  /** The range was asked for since the message in slot t began. */
  ghost predicate Asked(st: Life, t: nat, from: int, to: int)
    requires LifeOk(st) && t < |st.table| && st.table[t].Some?
  {
    exists i :: AskedBy(st, t, from, to, i)
  }

  ghost predicate AskedBy(st: Life, t: nat, from: int, to: int, i: nat)
    requires LifeOk(st) && t < |st.table| && st.table[t].Some?
  {
    && st.born[t] <= i < |st.nacks| && st.askers[i] == t
    && var n, s := st.nacks[i], st.table[t].value;
       n.conId == s.txConnectionId && n.seqNum == s.seqNum && n.from <= from && to <= n.to
  }

  /** A timer is set that will ask for the gap. */
  ghost predicate GapPending(st: Life, t: nat, gap: nat)
    requires t < |st.table| && st.table[t].Some?
  {
    exists retry :: GapTimer(t, st.table[t].value.seqNum, gap, retry) in st.timers
  }

  ghost predicate GapWatched(st: Life, t: nat, j: nat)
    requires LifeOk(st) && t < |st.table| && st.table[t].Some? && j < |st.table[t].value.gaps|
  {
    var g := st.table[t].value.gaps[j];
    g.from < g.to ==> GapPending(st, t, j) || Asked(st, t, g.from, g.to)
  }

  ghost predicate TailWatched(st: Life, t: nat)
    requires LifeOk(st) && t < |st.table| && st.table[t].Some?
  {
    var s := st.table[t].value;
    s.expectedOffset < MessageLen(s) ==> TailTimer(t) in st.timers || Asked(st, t, s.expectedOffset, MessageLen(s))
  }

  /** Of the message in slot t, each open gap and the open tail has a timer or was asked for, and the
      timer that frees the slot is set. */
  ghost predicate Watched(st: Life, t: nat)
    requires LifeOk(st) && t < |st.table|
  {
    st.table[t].Some? ==>
      && st.table[t].value.timed && st.born[t] <= |st.nacks|
      && CleanupTimer(t) in st.timers
      && TailWatched(st, t)
      && forall j :: 0 <= j < |st.table[t].value.gaps| ==> GapWatched(st, t, j)
  }

  ghost predicate AllWatched(st: Life) {
    LifeOk(st) && forall t :: 0 <= t < |st.table| ==> Watched(st, t)
  }

  /** What was asked for stays so. */
  lemma AskedStays(st: Life, st': Life, t: nat, from: int, to: int, from': int, to': int)
    requires LifeOk(st) && LifeOk(st') && t < |st.table| == |st'.table| && st.table[t].Some? && st'.table[t].Some?
    requires Asked(st, t, from, to) && st'.born[t] == st.born[t] && st.nacks <= st'.nacks && st.askers <= st'.askers
    requires st'.table[t].value.txConnectionId == st.table[t].value.txConnectionId
    requires st'.table[t].value.seqNum == st.table[t].value.seqNum && from <= from' && to' <= to
    ensures Asked(st', t, from', to')
  {
    var i :| AskedBy(st, t, from, to, i);
    assert AskedBy(st', t, from', to', i);
  }

  /** The gaps that there were only become smaller. */
  lemma GapsShrink(s: Slot, h: MsgHeader, body: seq<byte>, j: nat)
    requires Fits(s, h, body) && j < |s.gaps|
    ensures var s' := Taken(s, h, body);
            && j < |s'.gaps| && s.gaps[j].from <= s'.gaps[j].from && s'.gaps[j].to <= s.gaps[j].to
            && s'.expectedOffset >= s.expectedOffset && MessageLen(s') == MessageLen(s)
            && s'.txConnectionId == s.txConnectionId && s'.seqNum == s.seqNum
  {}

  /** The slot of a packet. */
  lemma CameWatched(st: Life, h: MsgHeader, body: seq<byte>)
    requires AllWatched(st) && CanReceive(st.table, h, body)
    ensures AllWatched(Came(st, h, body))
  {
    var st', t := Came(st, h, body), Target(st.table, h);
    forall u | 0 <= u < |st'.table| ensures Watched(st', u) {
      assert Watched(st, u);
      if u == t {
        if st.table[t] == None { BeginsWatched(st, h, body); } else { GoesOnWatched(st, h, body); }
      } else {
        OtherWatched(st, st', u);
      }
    }
  }

  lemma OtherWatched(st: Life, st': Life, u: nat)
    requires LifeOk(st) && LifeOk(st') && u < |st.table| == |st'.table| && st'.table[u] == st.table[u] && Watched(st, u)
    requires st'.born[u] == st.born[u] && st.nacks <= st'.nacks && st.askers <= st'.askers
    requires forall tm :: tm in st.timers && tm.recvId == u && st.table[u].Some? ==> tm in st'.timers
    ensures Watched(st', u)
  {
    if st.table[u].Some? {
      var s := st.table[u].value;
      if s.expectedOffset < MessageLen(s) && TailTimer(u) !in st.timers {
        AskedStays(st, st', u, s.expectedOffset, MessageLen(s), s.expectedOffset, MessageLen(s));
      }
      forall j | 0 <= j < |s.gaps| ensures GapWatched(st', u, j) {
        assert GapWatched(st, u, j);
        if s.gaps[j].from < s.gaps[j].to && !GapPending(st, u, j) {
          AskedStays(st, st', u, s.gaps[j].from, s.gaps[j].to, s.gaps[j].from, s.gaps[j].to);
        } else if s.gaps[j].from < s.gaps[j].to {
          var retry :| GapTimer(u, s.seqNum, j, retry) in st.timers;
          assert GapTimer(u, s.seqNum, j, retry) in st'.timers;
        }
      }
    }
  }

  /** A message begins: its tail has a timer. */
  lemma BeginsWatched(st: Life, h: MsgHeader, body: seq<byte>)
    requires AllWatched(st) && CanReceive(st.table, h, body) && st.table[Target(st.table, h)] == None
    ensures Watched(Came(st, h, body), Target(st.table, h))
  {
    var st', t := Came(st, h, body), Target(st.table, h);
    assert Find(st.table, h) == |st.table| && SlotFor(st.table, h) == NewSlot(h);
    var new_ := NewTimers(t, NewSlot(h), h);
    assert TailTimer(t) in new_ && CleanupTimer(t) in new_;
    var s' := st'.table[t].value;
    forall j | 0 <= j < |s'.gaps| ensures GapWatched(st', t, j) {
      assert GapTimer(t, s'.seqNum, j, RTX_RETRY) in new_;
    }
  }

  lemma GoesOnWatched(st: Life, h: MsgHeader, body: seq<byte>)
    requires AllWatched(st) && CanReceive(st.table, h, body) && st.table[Target(st.table, h)].Some?
    ensures Watched(Came(st, h, body), Target(st.table, h))
  {
    var st', t := Came(st, h, body), Target(st.table, h);
    assert Watched(st, t) && Find(st.table, h) == t;
    var s, s' := st.table[t].value, st'.table[t].value;
    assert s' == Taken(s, h, body);
    assert s'.expectedOffset >= s.expectedOffset && MessageLen(s') == MessageLen(s)
           && s'.txConnectionId == s.txConnectionId && s'.seqNum == s.seqNum;
    if s'.expectedOffset < MessageLen(s') && TailTimer(t) !in st.timers {
      AskedStays(st, st', t, s.expectedOffset, MessageLen(s), s'.expectedOffset, MessageLen(s'));
    }
    forall j | 0 <= j < |s'.gaps| ensures GapWatched(st', t, j) {
      if j < |s.gaps| {
        OldGapWatched(st, h, body, t, j);
      } else {
        assert GapTimer(t, s'.seqNum, j, RTX_RETRY) in NewTimers(t, s, h);
      }
    }
  }

  lemma {:induction false} OldGapWatched(st: Life, h: MsgHeader, body: seq<byte>, t: nat, j: nat)
    requires AllWatched(st) && CanReceive(st.table, h, body) && t == Find(st.table, h) < |st.table|
    requires j < |st.table[t].value.gaps|
    ensures j < |Came(st, h, body).table[t].value.gaps| && GapWatched(Came(st, h, body), t, j)
  {
    var st', s := Came(st, h, body), st.table[t].value;
    assert Watched(st, t) && GapWatched(st, t, j);
    GapsShrink(s, h, body, j);
    var s' := st'.table[t].value;
    if s'.gaps[j].from < s'.gaps[j].to {
      if GapPending(st, t, j) {
        var retry :| GapTimer(t, s.seqNum, j, retry) in st.timers;
        assert GapTimer(t, s'.seqNum, j, retry) in st'.timers;
      } else {
        AskedStays(st, st', t, s.gaps[j].from, s.gaps[j].to, s'.gaps[j].from, s'.gaps[j].to);
      }
    }
  }

  lemma WithoutHas(timers: seq<Timer>, k: nat, tm: Timer)
    requires k < |timers| && tm in timers
    ensures tm in Without(timers, k) || tm == timers[k]
  {
    var i :| 0 <= i < |timers| && timers[i] == tm;
    if i < k { assert timers[..k][i] == tm; }
    if i > k { assert timers[k + 1..][i - k - 1] == tm; }
  }

  lemma FiredWatched(st: Life, k: nat)
    requires AllWatched(st) && k < |st.timers|
    ensures AllWatched(Fired(st, k))
  {
    var st', tm := Fired(st, k), st.timers[k];
    FiredOk(st, k);
    forall u | 0 <= u < |st'.table| ensures Watched(st', u) {
      assert Watched(st, u);
      forall x | x in st.timers && x != tm ensures x in Without(st.timers, k) { WithoutHas(st.timers, k, x); }
      if tm.CleanupTimer? || u != tm.recvId {
        if !tm.CleanupTimer? || u != tm.recvId || st.table[u] == None { OtherWatched(st, st', u); }
      } else if st.table[u].Some? {
        AskerWatched(st, k);
      }
    }
  }

  /** The slot of a timer that fires: what it was for is asked for, if it is open. */
  lemma AskerWatched(st: Life, k: nat)
    requires AllWatched(st) && k < |st.timers| && !st.timers[k].CleanupTimer? && st.table[st.timers[k].recvId].Some?
    requires LifeOk(Fired(st, k)) && forall x :: x in st.timers && x != st.timers[k] ==> x in Without(st.timers, k)
    ensures Watched(Fired(st, k), st.timers[k].recvId)
  {
    var st', tm := Fired(st, k), st.timers[k];
    var t := tm.recvId;
    assert Watched(st, t);
    var s := st.table[t].value;
    if s.expectedOffset < MessageLen(s) {
      if tm == TailTimer(t) {
        assert AskedBy(st', t, s.expectedOffset, MessageLen(s), |st.nacks|);
      } else if TailTimer(t) !in st.timers {
        AskedStays(st, st', t, s.expectedOffset, MessageLen(s), s.expectedOffset, MessageLen(s));
      }
    }
    forall j | 0 <= j < |s.gaps| ensures GapWatched(st', t, j) {
      assert GapWatched(st, t, j);
      var g := s.gaps[j];
      if g.from < g.to {
        if tm.GapTimer? && tm.seqNum == s.seqNum && tm.gap == j {
          assert AskedBy(st', t, g.from, g.to, |st.nacks|);
        } else if GapPending(st, t, j) {
          var retry :| GapTimer(t, s.seqNum, j, retry) in st.timers;
          assert GapTimer(t, s.seqNum, j, retry) in st'.timers;
        } else {
          AskedStays(st, st', t, g.from, g.to, g.from, g.to);
        }
      }
    }
  }

  // Runs

  /** A packet comes, or timer k fires. */
  datatype Act = Comes(h: MsgHeader, body: seq<byte>) | Fires(k: nat)

  function Start(size: nat): Life { Life(seq(size, _ => None), [], [], [], seq(size, _ => 0)) }

  lemma CameOk(st: Life, h: MsgHeader, body: seq<byte>)
    requires LifeOk(st) && CanReceive(st.table, h, body)
    ensures LifeOk(Came(st, h, body))
  {}

  /** The state after an act; one that is not possible would change nothing. */
  ghost function Acted(st: Life, act: Act): (st': Life)
    requires LifeOk(st)
    ensures LifeOk(st')
  {
    match act
    case Comes(h, body) => if CanReceive(st.table, h, body) then CameOk(st, h, body); Came(st, h, body) else st
    case Fires(k) => if k < |st.timers| then FiredOk(st, k); Fired(st, k) else st
  }

  ghost function RunLife(acts: seq<Act>, size: nat): (st: Life)
    ensures LifeOk(st)
  {
    if acts == [] then Start(size) else Acted(RunLife(acts[..|acts| - 1], size), acts[|acts| - 1])
  }

  /** Over every run of packets and timers, of each message that is being received each open gap and
      the open tail has a timer pending, or was asked for since the message began; and the timer that
      frees its slot is pending. */
  lemma {:induction false} WatchedAlways(acts: seq<Act>, size: nat)
    ensures AllWatched(RunLife(acts, size))
  {
    if acts != [] {
      WatchedAlways(acts[..|acts| - 1], size);
      var st, act := RunLife(acts[..|acts| - 1], size), acts[|acts| - 1];
      if act.Comes? && CanReceive(st.table, act.h, act.body) { CameWatched(st, act.h, act.body); }
      if act.Fires? && act.k < |st.timers| { FiredWatched(st, act.k); }
    }
  }

  // Runs with the packets of messages

  /** A packet of one of the messages comes, or timer k fires. */
  datatype Turn = Arrive(it: Item) | Timeout(k: nat)

  ghost predicate TurnOf(sends: seq<Sending>, turn: Turn) {
    turn.Arrive? ==> turn.it.Item? && ItemOf(sends, turn.it)
  }

  ghost predicate AllTurns(sends: seq<Sending>, turns: seq<Turn>) {
    forall i :: 0 <= i < |turns| ==> TurnOf(sends, turns[i])
  }

  ghost function ActOf(sends: seq<Sending>, turn: Turn): Act
    requires TurnOf(sends, turn)
  {
    match turn
    case Arrive(it) => Comes(sends[it.a].ps[it.i].header, Body(sends[it.a].ps[it.i]))
    case Timeout(k) => Fires(k)
  }

  ghost function RunTurns(sends: seq<Sending>, turns: seq<Turn>, size: nat): (st: Life)
    requires AllTurns(sends, turns)
    ensures LifeOk(st)
  {
    if turns == [] then Start(size)
    else
      assert TurnOf(sends, turns[|turns| - 1]);
      Acted(RunTurns(sends, turns[..|turns| - 1], size), ActOf(sends, turns[|turns| - 1]))
  }

  /** The sending whose message a slot is for. */
  ghost predicate IsSlotOf(sends: seq<Sending>, s: Slot, a: nat) {
    a < |sends| && s.connectionId == sends[a].m.receiverId && s.seqNum == sends[a].m.seqNum
  }

  ghost function SendingOf(sends: seq<Sending>, s: Slot): nat {
    if exists a: nat :: IsSlotOf(sends, s, a) then var a: nat :| IsSlotOf(sends, s, a); a else 0
  }

  /** What a turn means for the messages: a packet of one is taken in, or a slot is cleaned up. */
  ghost function ItemsOf(sends: seq<Sending>, st: Life, turn: Turn): seq<Item>
    requires TurnOf(sends, turn) && LifeOk(st)
  {
    match turn
    case Arrive(it) =>
      if CanReceive(st.table, sends[it.a].ps[it.i].header, Body(sends[it.a].ps[it.i])) then [it] else []
    case Timeout(k) =>
      if k < |st.timers| && st.timers[k].CleanupTimer? && st.table[st.timers[k].recvId].Some? then
        [Gone(SendingOf(sends, st.table[st.timers[k].recvId].value))]
      else []
  }

  ghost function AllItemsOf(sends: seq<Sending>, turns: seq<Turn>, size: nat): seq<Item>
    requires AllTurns(sends, turns)
  {
    if turns == [] then []
    else
      var front := turns[..|turns| - 1];
      assert TurnOf(sends, turns[|turns| - 1]);
      AllItemsOf(sends, front, size) + ItemsOf(sends, RunTurns(sends, front, size), turns[|turns| - 1])
  }

  /** The requests for a slot's message name packet boundaries of it. */
  ghost predicate InBounds(sends: seq<Sending>, st: Life, owner: seq<int>, i: nat)
    requires LifeOk(st) && |owner| == |st.table| && i < |st.nacks|
  {
    var t := st.askers[i];
    t < |owner| && st.born[t] <= i && 0 <= owner[t] < |sends| ==>
      var x, n := sends[owner[t]], st.nacks[i];
      n.conId == x.m.senderId && n.seqNum == x.m.seqNum && Boundary(x.m, x.ps, n.from) && Boundary(x.m, x.ps, n.to)
  }

  ghost predicate AllInBounds(sends: seq<Sending>, st: Life, owner: seq<int>) {
    LifeOk(st) && |owner| == |st.table| && forall i :: 0 <= i < |st.nacks| ==> InBounds(sends, st, owner, i)
  }

  /** What holds over a run. */
  ghost predicate GoodLife(sends: seq<Sending>, items: seq<Item>, st: Life, owner: seq<int>) {
    && AllWatched(st) && Good(sends, items, st.table, owner) && AllInBounds(sends, st, owner)
    && forall t :: 0 <= t < |st.born| ==> st.born[t] <= |st.nacks|
  }

  lemma GoodPacket(sends: seq<Sending>, items: seq<Item>, st: Life, owner: seq<int>, it: Item) returns (owner': seq<int>)
    requires Proper(sends) && GoodLife(sends, items, st, owner) && it.Item? && ItemOf(sends, it)
    requires CanReceive(st.table, sends[it.a].ps[it.i].header, Body(sends[it.a].ps[it.i]))
    ensures GoodLife(sends, items + [it], Came(st, sends[it.a].ps[it.i].header, Body(sends[it.a].ps[it.i])), owner')
  {
    var p := sends[it.a].ps[it.i];
    var st', t := Came(st, p.header, Body(p)), Target(st.table, p.header);
    RoomExact(sends, items, st.table, owner, it);
    CameWatched(st, p.header, Body(p));
    FindsOwn(sends, items, st.table, owner, it);
    owner' := GoodStep(sends, items, st.table, owner, it);
    forall i | 0 <= i < |st'.nacks| ensures InBounds(sends, st', owner', i) {
      assert InBounds(sends, st, owner, i);
    }
  }

  /** A slot that is taken belongs to the sending it was opened for, and is found for it. */
  lemma OwnerIs(sends: seq<Sending>, items: seq<Item>, table: Table, owner: seq<int>, t: nat)
    requires Proper(sends) && Good(sends, items, table, owner) && t < |table| && table[t].Some?
    ensures 0 <= owner[t] < |sends| && IsFor(table[t].value, sends[owner[t]].m) && SendingOf(sends, table[t].value) == owner[t]
  {
    assert Owned(sends, items, table[t], owner[t]);
    OwnedIsFor(sends, items, table[t], owner[t]);
    assert IsSlotOf(sends, table[t].value, owner[t]);
  }

  lemma {:induction false} OwnerFound(sends: seq<Sending>, items: seq<Item>, table: Table, owner: seq<int>, t: nat)
    requires Proper(sends) && Good(sends, items, table, owner) && t < |table| && table[t].Some? && 0 <= owner[t] < |sends|
    ensures ItemOf(sends, Gone(owner[t])) && Find(table, HeaderOf(sends, Gone(owner[t]))) == t
  {
    assert sends[owner[t]].ps != [];
    FindsOwn(sends, items, table, owner, Gone(owner[t]));
  }

  lemma OwnerBounds(sends: seq<Sending>, items: seq<Item>, o: Option<Slot>, a: nat)
    requires Proper(sends) && Owned(sends, items, o, a)
    ensures Bounds(sends[a].m, sends[a].ps, o.value) && MessageLen(o.value) == |sends[a].m.data|
  {
    OwnedIsReached(sends, items, o, a);
    ReachedTracks(sends[a].m, sends[a].ps, Numbers(items, a));
  }

  lemma GoodCleaned(sends: seq<Sending>, items: seq<Item>, st: Life, owner: seq<int>, k: nat) returns (owner': seq<int>)
    requires Proper(sends) && GoodLife(sends, items, st, owner) && k < |st.timers|
    requires st.timers[k].CleanupTimer? && st.table[st.timers[k].recvId].Some?
    ensures GoodLife(sends, items + [Gone(SendingOf(sends, st.table[st.timers[k].recvId].value))], Fired(st, k), owner')
  {
    var st', t := Fired(st, k), st.timers[k].recvId;
    OwnerIs(sends, items, st.table, owner, t);
    OwnerFound(sends, items, st.table, owner, t);
    FiredWatched(st, k);
    owner' := GoodGone(sends, items, st.table, owner, Gone(owner[t]));
    forall i | 0 <= i < |st'.nacks| ensures InBounds(sends, st', owner', i) {
      assert InBounds(sends, st, owner, i);
    }
  }

  lemma GoodAsked(sends: seq<Sending>, items: seq<Item>, st: Life, owner: seq<int>, k: nat)
    requires Proper(sends) && GoodLife(sends, items, st, owner) && k < |st.timers|
    requires st.timers[k].CleanupTimer? ==> st.table[st.timers[k].recvId] == None
    ensures GoodLife(sends, items, Fired(st, k), owner)
  {
    var st', tm := Fired(st, k), st.timers[k];
    FiredWatched(st, k);
    assert st'.table == st.table && st'.born == st.born;
    forall i | 0 <= i < |st'.nacks| ensures InBounds(sends, st', owner, i) {
      if i < |st.nacks| {
        assert InBounds(sends, st, owner, i);
      } else {
        NewInBounds(sends, items, st, owner, k);
      }
    }
  }

  lemma NewInBounds(sends: seq<Sending>, items: seq<Item>, st: Life, owner: seq<int>, k: nat)
    requires Proper(sends) && GoodLife(sends, items, st, owner) && k < |st.timers|
    requires |Fired(st, k).nacks| > |st.nacks|
    ensures LifeOk(Fired(st, k)) && |Fired(st, k).nacks| == |st.nacks| + 1 && |owner| == |Fired(st, k).table|
    ensures InBounds(sends, Fired(st, k), owner, |st.nacks|)
  {
    var st', tm := Fired(st, k), st.timers[k];
    FiredOk(st, k);
    OwnerIs(sends, items, st.table, owner, tm.recvId);
    assert Owned(sends, items, st.table[tm.recvId], owner[tm.recvId]);
    OwnerBounds(sends, items, st.table[tm.recvId], owner[tm.recvId]);
    if tm.GapTimer? { assert st.table[tm.recvId].value.gaps[tm.gap] in st.table[tm.recvId].value.gaps; }
  }

  lemma {:induction false} GoodTurns(sends: seq<Sending>, turns: seq<Turn>, size: nat) returns (owner: seq<int>)
    requires Proper(sends) && AllTurns(sends, turns)
    ensures GoodLife(sends, AllItemsOf(sends, turns, size), RunTurns(sends, turns, size), owner)
  {
    if turns == [] {
      owner := seq(size, _ => -1);
    } else {
      var front, turn := turns[..|turns| - 1], turns[|turns| - 1];
      assert TurnOf(sends, turn);
      owner := GoodTurns(sends, front, size);
      owner := GoodTurn(sends, AllItemsOf(sends, front, size), RunTurns(sends, front, size), owner, turn);
    }
  }

  lemma GoodTurn(sends: seq<Sending>, items: seq<Item>, st: Life, owner: seq<int>, turn: Turn) returns (owner': seq<int>)
    requires Proper(sends) && GoodLife(sends, items, st, owner) && TurnOf(sends, turn)
    ensures GoodLife(sends, items + ItemsOf(sends, st, turn), Acted(st, ActOf(sends, turn)), owner')
  {
    owner' := owner;
    assert items + [] == items;
    match turn
    case Arrive(it) =>
      if CanReceive(st.table, sends[it.a].ps[it.i].header, Body(sends[it.a].ps[it.i])) {
        owner' := GoodPacket(sends, items, st, owner, it);
      }
    case Timeout(k) =>
      if k < |st.timers| {
        if st.timers[k].CleanupTimer? && st.table[st.timers[k].recvId].Some? {
          owner' := GoodCleaned(sends, items, st, owner, k);
        } else {
          GoodAsked(sends, items, st, owner, k);
        }
      }
  }

  /** No timer is left for what is missing in slot t. */
  ghost predicate TimersFired(st: Life, t: nat)
    requires t < |st.table| && st.table[t].Some?
  {
    TailTimer(t) !in st.timers && forall gap :: !GapPending(st, t, gap)
  }

  /** Loss recovery, from end to end: over every run in which packets of the messages come and timers
      fire, once the timers of a message have fired, of each byte that is missing one of the requests
      that were sent is answered with the packet that holds it, if the sender still has the message's
      packets and fewer than RTX_MAX_GAPS gaps were opened. */
  lemma LossAnswered(sends: seq<Sending>, turns: seq<Turn>, size: nat, a: nat, t: nat, queue: seq<Packet>, p: int)
    returns (i: nat)
    requires Proper(sends) && AllTurns(sends, turns) && a < |sends|
    requires var st := RunTurns(sends, turns, size);
             && t < |st.table| && st.table[t].Some? && IsSlotOf(sends, st.table[t].value, a)
             && |st.table[t].value.gaps| < RTX_MAX_GAPS && TimersFired(st, t)
    requires var idx := Numbers(AllItemsOf(sends, turns, size), a);
             Numbered(sends[a].ps, idx) && 0 <= p < |sends[a].m.data| && !HeardByte(sends[a].ps, idx, p)
    requires QueueHolds(queue, sends[a].m, sends[a].ps, 0, |sends[a].m.data|)
    ensures i < |RunTurns(sends, turns, size).nacks| && Recovers(queue, RunTurns(sends, turns, size).nacks[i], p)
  {
    var st, items := RunTurns(sends, turns, size), AllItemsOf(sends, turns, size);
    var owner := GoodTurns(sends, turns, size);
    var m, ps, idx, s := sends[a].m, sends[a].ps, Numbers(items, a), st.table[t].value;
    OwnerIs(sends, items, st.table, owner, t);
    assert owner[t] == a;
    assert Owned(sends, items, st.table[t], a);
    OwnerBounds(sends, items, st.table[t], a);
    OwnedIsReached(sends, items, st.table[t], a);
    ReachedCovered(m, ps, idx);
    if p in Arrived(ArrivalsOf(ps, idx)) { ArrivedHeard(m, ps, idx, p); }
    assert Watched(st, t);
    i := AskedWith(st, t, Arrived(ArrivalsOf(ps, idx)), p);
    assert InBounds(sends, st, owner, i);
    RangeRecovers(m, ps, queue, st.nacks[i], p);
  }

  lemma AskedWith(st: Life, t: nat, arrived: iset<int>, p: int) returns (i: nat)
    requires LifeOk(st) && t < |st.table| && st.table[t].Some? && Watched(st, t) && TimersFired(st, t)
    requires Covered(st.table[t].value, arrived) && 0 <= p < MessageLen(st.table[t].value) && p !in arrived
    ensures st.born[t] <= i < |st.nacks| && st.askers[i] == t && st.nacks[i].from <= p < st.nacks[i].to
  {
    var s := st.table[t].value;
    if p < s.expectedOffset {
      assert InSomeGap(s.gaps, p);
      var j :| 0 <= j < |s.gaps| && InGap(s.gaps[j], p);
      assert GapWatched(st, t, j);
      i :| AskedBy(st, t, s.gaps[j].from, s.gaps[j].to, i);
    } else {
      i :| AskedBy(st, t, s.expectedOffset, MessageLen(s), i);
    }
  }
}
