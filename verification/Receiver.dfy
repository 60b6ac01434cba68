/** The receiver: packets come in, messages, requests for missing bytes and timers come out. */
module Receiver {
  import opened Options
  import opened Bytes
  import opened Wire
  import opened Fragments
  import opened Reassembly
  import opened Tracking
  import opened Delivery
  import opened Retransmission
  import opened Requests
  import Queues

  /** The state of one message that is being received. */
  class RecvData {
    const connectionId: int
    const seqNum: int
    const txConnectionId: int
    const msgType: int
    const hdrLen: nat
    const recvbuf: array<byte>
    var complete: bool
    var firstPacketArrived: bool
    var recvFragments: nat
    var arrivedBytes: int
    var expectedOffset: int
    var gaps: seq<Gap>
    var timeoutEvent: bool

    ghost function Value(): Slot
      reads this, recvbuf
    {
      Slot(connectionId, seqNum, txConnectionId, msgType, hdrLen, recvbuf[..], complete, firstPacketArrived,
           recvFragments, arrivedBytes, expectedOffset, gaps, timeoutEvent)
    }

    constructor (h: MsgHeader)
      ensures Value() == NewSlot(h) && fresh(recvbuf) && hdrLen <= recvbuf.Length
    {
      connectionId, seqNum, txConnectionId, msgType := h.remoteConId, h.msgSeqNum, h.localConId, h.msgType;
      hdrLen := h.lenMonDataHdr;
      recvbuf := new byte[h.msgLength + h.lenMonDataHdr](_ => 0);
      complete, firstPacketArrived, recvFragments, arrivedBytes, expectedOffset := false, false, 0, 0, 0;
      gaps, timeoutEvent := [], false;
      new;
      assert recvbuf[..] == Zeros(h.msgLength + h.lenMonDataHdr);
    }

    method CopyIn(at: nat, bytes: seq<byte>)
      requires at + |bytes| <= recvbuf.Length
      modifies recvbuf
      ensures recvbuf[..] == Copy(old(recvbuf[..]), at, bytes)
    {
      forall i | 0 <= i < |bytes| {
        recvbuf[at + i] := bytes[i];
      }
      assert recvbuf[..] == Copy(old(recvbuf[..]), at, bytes);
    }

    /** Shrinks the first gap at whose beginning or end the packet lies. */
    method FillGaps(offset: int, n: int)
      modifies this`gaps
      ensures gaps == Fill(old(gaps), offset, n)
    {
      var i := 0;
      while i < |gaps|
        invariant 0 <= i <= |gaps| && gaps == old(gaps)
        invariant forall j :: 0 <= j < i ==> !Touches(gaps[j], offset, n)
      {
        if offset == gaps[i].from {
          HitIs(gaps, offset, n, i);
          gaps := gaps[i := Gap(gaps[i].from + n, gaps[i].to)];
          return;
        }
        if offset == gaps[i].to - n {
          HitIs(gaps, offset, n, i);
          gaps := gaps[i := Gap(gaps[i].from, gaps[i].to - n)];
          return;
        }
        i := i + 1;
      }
      HitIs(gaps, offset, n, i);
    }

    /** Enters a packet. */
    method Enter(h: MsgHeader, body: seq<byte>) returns (jumped: bool)
      requires Fits(Value(), h, body)
      modifies this, recvbuf
      ensures Value() == Deliver(old(Value()), h, body)
      ensures jumped == OpensGap(old(Value()), h.offset)
    {
      var n := PasteIn(h, body);
      recvFragments := recvFragments + 1;
      arrivedBytes := arrivedBytes + n;
      jumped := NoteGap(h.offset, n);
      complete := arrivedBytes == recvbuf.Length - hdrLen;
    }

    /** Copies the monitoring header and the data of a packet into the buffer. */
    method PasteIn(h: MsgHeader, body: seq<byte>) returns (n: nat)
      requires Fits(Value(), h, body)
      modifies this`firstPacketArrived, recvbuf
      ensures recvbuf[..] == NewBuf(old(Value()), h, body) && n == |body| - HdrPart(h)
      ensures firstPacketArrived == (old(firstPacketArrived) || h.offset == 0)
    {
      var data := body;
      if h.offset == 0 {
        CopyIn(0, body[..h.lenMonDataHdr]);
        data := body[h.lenMonDataHdr..];
        firstPacketArrived := true;
      }
      CopyNothing(recvbuf[..]);
      CopyIn(h.lenMonDataHdr + h.offset, data);
      return |data|;
    }

    /** Keeps track of what a packet of n bytes leaves out or fills. */
    method NoteGap(offset: int, n: nat) returns (jumped: bool)
      modifies this`gaps, this`expectedOffset
      ensures jumped == OpensGap(old(Value()), offset)
      ensures gaps == NewGaps(old(Value()), offset, n)
      ensures expectedOffset == if offset >= old(expectedOffset) then offset + n else old(expectedOffset)
    {
      jumped := offset > expectedOffset && |gaps| < RTX_MAX_GAPS;
      if jumped {
        gaps := gaps + [Gap(expectedOffset, offset)];
      }
      if offset < expectedOffset {
        FillGaps(offset, n);
      }
      if offset >= expectedOffset {
        expectedOffset := offset + n;
      }
    }
  }

  lemma CopyNothing(buf: seq<byte>)
    ensures Copy(buf, 0, []) == buf
  {}

  lemma {:induction false} HitIs(gaps: seq<Gap>, offset: int, n: int, i: nat)
    requires i <= |gaps| && forall j :: 0 <= j < i ==> !Touches(gaps[j], offset, n)
    requires i < |gaps| ==> Touches(gaps[i], offset, n)
    ensures Hit(gaps, offset, n) == i
  {
    if Hit(gaps, offset, n) < i { assert false; }
  }

  ghost predicate Inside(k: int) { true }

  class Receiver {
    const slots: array<RecvData?>
    /** The messages handed to the application, the requests sent, and the timers set, in order. */
    var log: seq<Delivered>
    var nacks: seq<Nack>
    var timers: seq<Timer>

    ghost var table: Table
    /** The slot each request was for, and how many there were when the message in each slot began. */
    ghost var askers: seq<nat>
    ghost var born: seq<nat>
    ghost var owned: set<RecvData>
    ghost var buffers: set<array<byte>>

    ghost predicate SlotIs(t: nat)
      reads this`table, this`owned, this`buffers, slots, owned, buffers
      requires t < slots.Length == |table|
    {
      if slots[t] == null then table[t] == None
      else
        && slots[t] in owned && slots[t].recvbuf in buffers && slots[t].hdrLen <= slots[t].recvbuf.Length
        && table[t] == Some(slots[t].Value())
    }

    ghost predicate Separate()
      reads this`owned, slots, owned
    {
      forall t, u :: 0 <= t < u < slots.Length && slots[t] != null && slots[u] != null ==>
                       slots[t] != slots[u] && slots[t].recvbuf != slots[u].recvbuf
    }

    ghost predicate Valid()
      reads this`table, this`owned, this`buffers, slots, owned, buffers
    {
      && |table| == slots.Length
      && forall k {:trigger Inside(k)} :: Inside(k) ==>
           Separate() && forall t :: 0 <= t < slots.Length ==> SlotIs(t)
    }

    /** The messages that are being received, the timers and the requests. */
    ghost function State(): Life
      reads this`table, this`timers, this`nacks, this`askers, this`born
    {
      Life(table, timers, nacks, askers, born)
    }

    constructor (size: nat)
      ensures LifeOk(State()) && State() == Start(size)
      ensures Valid() && fresh(slots) && slots.Length == size && table == seq(size, _ => None)
      ensures log == [] && nacks == [] && timers == []
    {
      slots := new RecvData?[size](_ => null);
      log, nacks, timers, owned, buffers := [], [], [], {}, {};
      table, askers, born := seq(size, _ => None), [], seq(size, _ => 0);
    }

    /** Looks for the message's slot, and a free one. */
    method Search(h: MsgHeader) returns (recvId: nat, freeId: int)
      requires Valid()
      ensures recvId == Find(table, h)
      ensures recvId == |table| ==> freeId == if FirstFree(table) < |table| then FirstFree(table) else -1
    {
      assert Inside(0);
      recvId, freeId := 0, -1;
      while recvId < slots.Length
        invariant recvId <= slots.Length
        invariant forall j :: 0 <= j < recvId ==> !Matches(table[j], h)
        invariant freeId == -1 || 0 <= freeId < recvId
        invariant freeId == -1 ==> forall j :: 0 <= j < recvId ==> table[j] != None
        invariant freeId != -1 ==> table[freeId] == None && forall j :: 0 <= j < freeId ==> table[j] != None
      {
        assert SlotIs(recvId);
        if slots[recvId] != null {
          if h.remoteConId == slots[recvId].connectionId && h.msgSeqNum == slots[recvId].seqNum {
            break;
          }
        } else if freeId == -1 {
          freeId := recvId;
        }
        recvId := recvId + 1;
      }
      FindIs(table, h, recvId);
      if freeId != -1 { FreeIs(table, freeId); }
    }

    /** Takes a free slot for a message. */
    method Create(t: nat, h: MsgHeader)
      requires Valid() && t < |table| && table[t] == None
      modifies this`table, this`owned, this`buffers, slots
      ensures Valid() && table == old(table)[t := Some(NewSlot(h))]
      ensures owned == old(owned) + {slots[t]} && fresh(owned - old(owned)) && fresh(buffers - old(buffers))
    {
      assert Inside(0);
      var d := new RecvData(h);
      slots[t] := d;
      table := table[t := Some(NewSlot(h))];
      owned, buffers := owned + {d}, buffers + {d.recvbuf};
      forall u | 0 <= u < slots.Length ensures SlotIs(u) {
        if u != t { assert old(SlotIs(u)); }
      }
    }

    /** Enters a packet into the message in slot t. */
    method EnterAt(t: nat, h: MsgHeader, body: seq<byte>) returns (jumped: bool)
      requires Valid() && t < |table| && table[t].Some? && Fits(table[t].value, h, body)
      modifies this`table, owned, buffers
      ensures Valid() && table == old(table)[t := Some(Deliver(old(table)[t].value, h, body))]
      ensures jumped == OpensGap(old(table)[t].value, h.offset)
    {
      assert Inside(0);
      assert SlotIs(t);
      var d := slots[t];
      jumped := d.Enter(h, body);
      table := table[t := Some(Deliver(table[t].value, h, body))];
      forall u | 0 <= u < slots.Length ensures SlotIs(u) {
        assert old(SlotIs(u));
      }
    }

    /** Hands a complete message to the application. */
    method HandOver(t: nat)
      requires Valid() && t < |table| && table[t].Some?
      modifies this`log
      ensures var s := table[t].value;
              log == old(log) + if s.complete then [Delivered(s.connectionId, s.msgType, Data(s))] else []
    {
      assert Inside(0);
      assert SlotIs(t);
      var d := slots[t];
      if d.complete {
        log := log + [Delivered(d.connectionId, d.msgType, d.recvbuf[d.hdrLen..])];
      }
    }

    /** Sets the timers of the message in slot t, once. */
    method SetTimers(t: nat)
      requires Valid() && t < |table| && table[t].Some?
      modifies this`timers, this`table, owned
      ensures Valid() && table == old(table)[t := Some(old(table)[t].value.(timed := true))]
      ensures timers == old(timers) + if old(table)[t].value.timed then [] else [CleanupTimer(t), TailTimer(t)]
    {
      assert Inside(0);
      assert SlotIs(t);
      if !slots[t].timeoutEvent {
        slots[t].timeoutEvent := true;
        timers := timers + [CleanupTimer(t), TailTimer(t)];
      }
      table := table[t := Some(table[t].value.(timed := true))];
      forall u | 0 <= u < slots.Length ensures SlotIs(u) {
        assert old(SlotIs(u));
      }
    }

    method IsComplete(t: nat) returns (c: bool)
      requires Valid() && t < |table| && table[t].Some?
      ensures c == table[t].value.complete
    {
      assert Inside(0);
      assert SlotIs(t);
      c := slots[t].complete;
    }

    /** Takes in a packet that carries part of a message. */
    method RecvDataMsg(h: MsgHeader, body: seq<byte>)
      requires Valid() && LifeOk(State()) && CanReceive(table, h, body)
      modifies this, slots, owned, buffers
      ensures Valid() && LifeOk(State()) && State() == Came(old(State()), h, body)
      ensures log == old(log) + Result(old(table), h, body)
    {
      ghost var st := State();
      TakeIn(h, body);
      if st.table[Target(st.table, h)] == None { born := born[Target(st.table, h) := |nacks|]; }
      CameOk(st, h, body);
    }

    method TakeIn(h: MsgHeader, body: seq<byte>)
      requires Valid() && CanReceive(table, h, body)
      modifies this`table, this`log, this`timers, this`owned, this`buffers, slots, owned, buffers
      ensures Valid() && table == TableAfter(old(table), h, body)
      ensures log == old(log) + Result(old(table), h, body)
      ensures timers == old(timers) + NewTimers(Target(old(table), h), SlotFor(old(table), h), h)
    {
      var recvId, freeId := Search(h);
      if recvId == slots.Length {
        recvId := freeId;
        Create(recvId, h);
      } else {
        var done := IsComplete(recvId);
        if done {
          return;
        }
      }
      ReceiveAt(recvId, h, body);
    }

    method ReceiveAt(t: nat, h: MsgHeader, body: seq<byte>)
      requires Valid() && t < |table| && table[t].Some? && !table[t].value.complete && Fits(table[t].value, h, body)
      modifies this`table, this`log, this`timers, owned, buffers
      ensures Valid()
      ensures var s := Deliver(old(table)[t].value, h, body);
              && table == old(table)[t := Some(s.(timed := true))]
              && log == old(log) + if s.complete then [Delivered(s.connectionId, s.msgType, Data(s))] else []
      ensures timers == old(timers) + NewTimers(t, old(table)[t].value, h)
    {
      var seqNum, gap := NextGap(t);
      var jumped := EnterAt(t, h, body);
      if jumped {
        timers := timers + [GapTimer(t, seqNum, gap, RTX_RETRY)];
      }
      HandOver(t);
      SetTimers(t);
    }

    method NextGap(t: nat) returns (seqNum: int, n: nat)
      requires Valid() && t < |table| && table[t].Some?
      ensures seqNum == table[t].value.seqNum && n == |table[t].value.gaps|
    {
      assert Inside(0);
      assert SlotIs(t);
      seqNum, n := slots[t].seqNum, |slots[t].gaps|;
    }

    /** Each request that was not there before is one from which the bytes missing in the slot are
        recovered. */
    ghost predicate RequestedSince(before: seq<Nack>, recvId: nat)
      reads this`table, this`nacks
    {
      forall i :: |before| <= i < |nacks| ==>
        recvId < |table| && table[recvId].Some? && Requested(table[recvId].value, nacks[i])
    }

    /** The timer of a gap: asks for exactly that gap if the message is still there and the gap is still
        open. */
    method PktRecvTimeoutCb(k: nat)
      requires Valid() && LifeOk(State()) && k < |timers| && timers[k].GapTimer?
      modifies this`timers, this`nacks, this`askers
      ensures LifeOk(State()) && State() == Fired(old(State()), k)
      ensures RequestedSince(old(nacks), old(timers)[k].recvId)
    {
      assert Inside(0);
      FiredOk(State(), k);
      var tm := timers[k];
      assert tm in timers && SlotIs(tm.recvId);
      timers := Without(timers, k);
      var d := slots[tm.recvId];
      if d == null || d.seqNum != tm.seqNum {
        return;
      }
      var gap := if tm.gap < |d.gaps| then d.gaps[tm.gap] else Gap(0, 0);
      if gap.from == gap.to {
        return;
      }
      NacksAreRequests(table[tm.recvId].value, tm.gap);
      nacks, askers := nacks + [Nack(d.txConnectionId, d.seqNum, gap.from, gap.to)], askers + [tm.recvId];
      if tm.retry - 1 > 0 {
        timers := timers + [tm.(retry := tm.retry - 1)];
      }
    }

    /** The timer of the tail: asks for all of it, if there is some. */
    method LastPktRecvTimeoutCb(k: nat)
      requires Valid() && LifeOk(State()) && k < |timers| && timers[k].TailTimer?
      modifies this`nacks, this`timers, this`askers
      ensures LifeOk(State()) && State() == Fired(old(State()), k)
      ensures RequestedSince(old(nacks), old(timers)[k].recvId)
    {
      assert Inside(0);
      FiredOk(State(), k);
      var recvId := timers[k].recvId;
      assert timers[k] in timers && SlotIs(recvId);
      timers := Without(timers, k);
      if slots[recvId] == null {
        return;
      }
      var d := slots[recvId];
      if d.expectedOffset == d.recvbuf.Length - d.hdrLen {
        return;
      }
      NacksAreRequests(table[recvId].value, 0);
      nacks := nacks + [Nack(d.txConnectionId, d.seqNum, d.expectedOffset, d.recvbuf.Length - d.hdrLen)];
      askers := askers + [recvId];
    }

    /** The timer that gives up on a message, complete or not: its slot becomes free, and the timer of
        its tail is cancelled. */
    method RecvTimeoutCb(k: nat)
      requires Valid() && LifeOk(State()) && k < |timers| && timers[k].CleanupTimer?
      modifies this`table, this`timers, slots
      ensures Valid() && LifeOk(State()) && State() == Fired(old(State()), k)
      ensures table == old(table)[old(timers)[k].recvId := None]
      ensures old(table)[old(timers)[k].recvId].Some? ==> TailTimer(old(timers)[k].recvId) !in timers
    {
      assert Inside(0);
      FiredOk(State(), k);
      var recvId := timers[k].recvId;
      assert timers[k] in timers && SlotIs(recvId);
      timers := Without(timers, k);
      if slots[recvId] == null {
        return;
      }
      timers := Cancelled(timers, recvId);
      slots[recvId] := null;
      table := table[recvId := None];
      forall u | 0 <= u < slots.Length ensures SlotIs(u) {
        assert old(SlotIs(u));
      }
    }

    /** Takes in a packet of any kind; rest is what follows its header. A request for missing bytes is
        answered from the retransmission queue. */
    method RecvPkg(h: MsgHeader, rest: seq<byte>, connected: bool, rtx: Queues.PacketQueue)
      returns (kind: Kind, rc: int, resent: seq<Packet>)
      requires Valid() && LifeOk(State()) && rtx.Valid()
      requires connected && Classify(h, |rest|) == DataMsg ==> CanReceive(table, h, rest[h.lenMonPacketHdr..])
      requires Classify(h, |rest|) == NackMsg ==>
        && h.lenMonPacketHdr + h.lenMonDataHdr + NACK_SIZE <= |rest|
        && Queues.NoEmptyPacket(rtx.packets, NackIn(h, rest).conId, NackIn(h, rest).seqNum)
      modifies this, slots, owned, buffers
      ensures Valid() && LifeOk(State()) && kind == Classify(h, |rest|)
      ensures kind == DataMsg && connected ==>
                && State() == Came(old(State()), h, rest[h.lenMonPacketHdr..])
                && log == old(log) + Result(old(table), h, rest[h.lenMonPacketHdr..])
      ensures kind != DataMsg || !connected ==> State() == old(State()) && log == old(log)
      ensures if kind == NackMsg then
                var n := NackIn(h, rest); Queues.Resent(old(rtx.packets), n.conId, n.seqNum, n.from, n.to, rc, resent)
              else resent == []
    {
      rc, resent := 0, [];
      if h.offset / 0x10000 == STUN_BIND_RESPONSE {
        kind := StunMsg;
      } else if h.msgLength > MAX_MESSAGE || h.msgLength < h.offset || h.msgLength == 0 {
        kind := BadMsg;
      } else if |rest| - h.lenMonPacketHdr < 0 {
        kind := BadMsg;
      } else if h.msgType == ML_CON_MSG {
        kind := ConnMsg;
      } else if h.msgType == ML_NACK_MSG {
        kind := NackMsg;
        var n := NackIn(h, rest);
        rc, resent := rtx.RtxPacketsFromTo(n.conId, n.seqNum, n.from, n.to);
      } else if h.msgType < 127 {
        kind := DataMsg;
        if connected {
          RecvDataMsg(h, rest[h.lenMonPacketHdr..]);
        }
      } else {
        kind := UnknownMsg;
      }
    }
  }

  /** The request in a packet, behind the monitoring headers. */
  function NackIn(h: MsgHeader, rest: seq<byte>): Nack
    requires h.lenMonPacketHdr + h.lenMonDataHdr + NACK_SIZE <= |rest|
  {
    NackOf(rest[h.lenMonPacketHdr + h.lenMonDataHdr..])
  }

  const STUN_BIND_RESPONSE := 0x0101
  const ML_CON_MSG := 127
  const ML_NACK_MSG := 128

  /** The kinds of packets. */
  datatype Kind = StunMsg | BadMsg | ConnMsg | NackMsg | DataMsg | UnknownMsg

  /** The kind of a packet with n bytes after its header. */
  function Classify(h: MsgHeader, n: nat): Kind {
    if h.offset / 0x10000 == STUN_BIND_RESPONSE then StunMsg
    else if h.msgLength > MAX_MESSAGE || h.msgLength < h.offset || h.msgLength == 0 || n < h.lenMonPacketHdr then BadMsg
    else if h.msgType == ML_CON_MSG then ConnMsg
    else if h.msgType == ML_NACK_MSG then NackMsg
    else if h.msgType < 127 then DataMsg
    else UnknownMsg
  }

  /** A packet of a data message is taken for one, and never for a STUN response, exactly if the
      message is neither empty nor too long; what is then received is its part of the message. */
  lemma FragmentsAreData(m: Message, p: Packet)
    requires Carries(m, p) && 0 <= m.msgType < 127
    ensures var rest := p.monPacketHdr + p.monDataHdr + p.payload;
            && (Classify(p.header, |rest|) == DataMsg <==> 0 < |m.data| <= MAX_MESSAGE)
            && p.header.lenMonPacketHdr <= |rest| && rest[p.header.lenMonPacketHdr..] == Body(p)
  {
    HeaderLens(m, p);
    assert p.monPacketHdr + p.monDataHdr + p.payload == p.monPacketHdr + Body(p);
  }

  /** A control message of the handshake is taken for one. */
  lemma ControlArrives(m: Message, pktHdr: seq<byte>, n: nat)
    requires 0 < n <= |m.data| && n <= MAX_MESSAGE && m.msgType == 127
    ensures var p := Part(m, 0, n, pktHdr, 0, n);
            Classify(p.header, |p.monPacketHdr + p.monDataHdr + p.payload|) == ConnMsg
  {}

  /** A request that is sent as a control message arrives as it was. */
  lemma NackArrives(n: Nack, m: Message, pktHdr: seq<byte>)
    requires Is32(n.conId) && Is32(n.seqNum) && Is32(n.from) && Is32(n.to)
    requires m.data == NackBytes(n) && m.msgType == ML_NACK_MSG
    ensures var p := Part(m, 0, NACK_SIZE, pktHdr, 0, NACK_SIZE);
            var rest := p.monPacketHdr + p.monDataHdr + p.payload;
            && Classify(p.header, |rest|) == NackMsg
            && p.header.lenMonPacketHdr + p.header.lenMonDataHdr + NACK_SIZE <= |rest|
            && NackIn(p.header, rest) == n
  {
    var p := Part(m, 0, NACK_SIZE, pktHdr, 0, NACK_SIZE);
    var rest := p.monPacketHdr + p.monDataHdr + p.payload;
    assert p.payload == NackBytes(n);
    assert rest[|pktHdr| + |m.hdr|..] == NackBytes(n);
    NackBack(n);
  }

  /** The requests of the timers are those from which every missing byte is recovered. */
  lemma NacksAreRequests(s: Slot, gap: nat)
    ensures gap < |s.gaps| && s.gaps[gap].from != s.gaps[gap].to ==>
              Requested(s, Nack(s.txConnectionId, s.seqNum, s.gaps[gap].from, s.gaps[gap].to))
    ensures s.expectedOffset != MessageLen(s) ==>
              Requested(s, Nack(s.txConnectionId, s.seqNum, s.expectedOffset, MessageLen(s)))
  {
    if gap < |s.gaps| { assert s.gaps[gap] in s.gaps; }
  }

  lemma {:induction false} FindIs(table: Table, h: MsgHeader, i: nat)
    requires i <= |table| && forall j :: 0 <= j < i ==> !Matches(table[j], h)
    requires i < |table| ==> Matches(table[i], h)
    ensures Find(table, h) == i
  {
    if Find(table, h) < i { assert false; }
  }

  lemma {:induction false} FreeIs(table: Table, i: nat)
    requires i < |table| && table[i] == None && forall j :: 0 <= j < i ==> table[j] != None
    ensures FirstFree(table) == i
  {
    if FirstFree(table) < i { assert false; }
  }
}
