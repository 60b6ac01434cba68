/** What travels between peers. */
module Wire {
  import opened Bytes

  /** The header in front of every packet. */
  datatype MsgHeader = MsgHeader(offset: nat, msgLength: nat, localConId: int, remoteConId: int, msgSeqNum: int,
                                 msgType: int, lenMonDataHdr: nat, lenMonPacketHdr: nat)

  /** Its packed size. */
  const MSG_HEADER_SIZE: nat := 23

  /** A packet: header, monitoring headers for the packet and for the message, payload; and the
      sender's note on its priority, which is not sent. */
  datatype Packet = Packet(header: MsgHeader, monPacketHdr: seq<byte>, monDataHdr: seq<byte>, payload: seq<byte>,
                           priority: byte)

  /** Is the flag HP (1) set? */
  predicate HighPriority(p: Packet) { p.priority % 2 == 1 }

  /** Is the flag NO_RTX (2) set? */
  predicate NoRtx(p: Packet) { p.priority / 2 % 2 == 1 }

  /** What the four priorities mean: none, HP, NO_RTX, both. */
  lemma Priorities(p: Packet)
    requires p.priority < 4
    ensures HighPriority(p) <==> p.priority == 1 || p.priority == 3
    ensures NoRtx(p) <==> p.priority == 2 || p.priority == 3
  {}

  /** What sending can answer. */
  datatype Code = OK | MSGLEN | FAILURE | THROTTLE

  function PktLen(p: Packet): nat {
    MSG_HEADER_SIZE + |p.monPacketHdr| + |p.monDataHdr| + |p.payload|
  }

  function TotalLen(ps: seq<Packet>): nat {
    if ps == [] then 0 else PktLen(ps[0]) + TotalLen(ps[1..])
  }

  lemma {:induction false} TotalLenAppend(ps: seq<Packet>, qs: seq<Packet>)
    ensures TotalLen(ps + qs) == TotalLen(ps) + TotalLen(qs)
  {
    if ps == [] {
      assert ps + qs == qs;
    } else {
      assert (ps + qs)[1..] == ps[1..] + qs;
      TotalLenAppend(ps[1..], qs);
    }
  }

  lemma {:induction false} TotalLenSnoc(ps: seq<Packet>, p: Packet)
    ensures TotalLen(ps + [p]) == TotalLen(ps) + PktLen(p)
  {
    TotalLenAppend(ps, [p]);
    assert [p][1..] == [];
  }
}
