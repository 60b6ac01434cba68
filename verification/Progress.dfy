/** What control messages do, and why the handshake never gets stuck. */
module Progress {
  import opened Options
  import opened Fragments
  import opened Connections
  import opened Handshake

  // What each step does to one slot, in terms of statuses, slot numbers and callbacks

  /** Slot i becomes c, and no other changes. */
  predicate Becomes(buf: Buf, buf': Buf, i: nat, c: Conn) {
    i < |buf| && buf' == buf[i := Some(c)]
  }

  /** READY makes a connection in CONNECT ready and calls its callbacks in order; it changes nothing
      else. */
  lemma ReadyEffect(buf: Buf, me: nat, m: Msg, internal: bool)
    requires m.cmd == READY && 0 <= m.remoteId < |buf| && buf[m.remoteId].Some?
    ensures var e, c := Receive(buf, me, m, internal), buf[m.remoteId].value;
            && e.sent == []
            && if c.status == CONNECT then
                 Becomes(buf, e.buf, m.remoteId, c.(status := READY, pending := [], fired := c.fired + c.pending))
               else e.buf == buf
  {}

  /** CONNECT is always answered by READY. It makes a connection that is being opened ready, with the
      peer's slot number, and calls its callbacks. */
  lemma ConnectEffect(buf: Buf, me: nat, m: Msg, internal: bool)
    requires m.cmd == CONNECT && 0 <= m.remoteId < |buf| && buf[m.remoteId].Some?
    ensures var e, c, id := Receive(buf, me, m, internal), buf[m.remoteId].value, m.remoteId;
            if c.status == INVITE then
              && e.sent == [Msg(me, c.peer, READY, id, m.localId, c.pmtu)]
              && Becomes(buf, e.buf, id, c.(external := m.localId, status := READY, trials := 1, timer := true,
                                            pending := [], fired := c.fired + c.pending))
            else
              && e.sent == [Msg(me, c.peer, READY, id, c.external, c.pmtu)]
              && Becomes(buf, e.buf, id, c.(trials := 1, timer := true))
  {}

  /** A slot that a peer's INVITE can take: its own, or the first free one if it has none. */
  ghost predicate CanTake(buf: Buf, peer: nat, i: nat) {
    && i < |buf|
    && if buf[i].Some? then buf[i].value.peer == peer && forall j :: 0 <= j < i && buf[j].Some? ==> buf[j].value.peer != peer
       else (forall j :: 0 <= j < i ==> buf[j].Some?) && (forall j :: 0 <= j < |buf| && buf[j].Some? ==> buf[j].value.peer != peer)
  }

  /** INVITE is answered by CONNECT, in the connection's slot or a free one. */
  lemma InviteEffect(buf: Buf, me: nat, m: Msg, internal: bool, i: nat)
    requires m.cmd == INVITE && CanTake(buf, m.from, i)
    ensures var e := Receive(buf, me, m, internal);
            var c := if buf[i].Some? then buf[i].value.(external := m.localId, status := CONNECT, trials := 1, timer := true)
                     else Conn(m.from, m.localId, CONNECT, m.pmtu, 1, false, internal, true, [], [], []);
            e.sent == [Msg(me, m.from, CONNECT, i, m.localId, c.pmtu)] && Becomes(buf, e.buf, i, c)
  {
    TakenIs(buf, m.from, i);
  }

  lemma {:induction false} TakenIs(buf: Buf, peer: nat, i: nat)
    requires CanTake(buf, peer, i)
    ensures if buf[i].Some? then Find(buf, peer) == i else Find(buf, peer) == |buf| && FirstFree(buf) == i
  {
    if Find(buf, peer) < |buf| && buf[i].Some? {
      if Find(buf, peer) < i { assert false; }
    }
    if buf[i] == None && FirstFree(buf) < i { assert false; }
  }

  /** Opening registers the callback: with a connection that exists, which calls it at once if it is
      ready, or with a new one, for which INVITE is sent. */
  lemma OpenEffect(buf: Buf, me: nat, peer: nat, internal: bool, cb: Callback, i: nat)
    requires CanTake(buf, peer, i)
    ensures var e := Open(buf, me, peer, internal, cb);
            if buf[i] == None then
              && e.sent == [Msg(me, peer, INVITE, i, -1, 1372)]
              && Becomes(buf, e.buf, i, Conn(peer, -1, INVITE, 1372, 1, false, internal, true, [cb], [cb], []))
            else
              var c := buf[i].value;
              var d := c.(registered := c.registered + [cb]);
              && e.sent == []
              && Becomes(buf, e.buf, i, if c.status == READY then d.(fired := c.fired + [cb]) else d.(pending := c.pending + [cb]))
  {
    TakenIs(buf, peer, i);
  }

  /** A time-out that does not give up sends again what was sent last, with the size that comes next. */
  lemma TimeoutEffect(buf: Buf, me: nat, i: nat)
    requires i < |buf| && buf[i].Some? && !GivesUp(buf[i].value)
    ensures var e, c := Timeout(buf, me, i), buf[i].value;
            && e.buf[i].Some? && Becomes(buf, e.buf, i, e.buf[i].value)
            && var d := e.buf[i].value;
               && (c.status != READY ==> !d.delay)
               && d == c.(pmtu := d.pmtu, trials := d.trials, delay := d.delay, internal := d.internal, timer := d.timer)
               && (if c.status == READY then e.sent == [] && d == c.(timer := false)
                   else e.sent == [Msg(me, c.peer, c.status, i, c.external, d.pmtu)] && d.timer)
               && (c.status != READY && c.trials != 3 && c.pmtu != P_ERROR ==> d.pmtu == c.pmtu && d.trials == c.trials + 1)
               && (c.status != READY && c.trials == 3 && PmtuDecrement(c.pmtu) != P_ERROR ==>
                     d.pmtu == PmtuDecrement(c.pmtu) && d.trials == 1 && d.internal == c.internal)
               && (c.status != READY && c.trials == 3 && PmtuDecrement(c.pmtu) == P_ERROR ==>
                     c.internal && !d.internal && d.pmtu == 1372 && d.trials == 1)
               && (c.status != READY && c.trials != 3 && c.pmtu == P_ERROR ==>
                     c.internal && !d.internal && d.pmtu == 1372 && d.trials == c.trials + 1)
  {}

  // Over a network

  /** A control message of that kind about the connection was sent. */
  ghost predicate Sent(msgs: set<Msg>, n: nat, id: nat, c: Conn, cmd: Status) {
    exists m :: m in msgs && m.cmd == cmd && m.from == n && m.to == c.peer && m.localId == id
  }

  /** The message that the peer is to answer was sent. */
  ghost predicate Announced(msgs: set<Msg>, n: nat, id: nat, o: Option<Conn>) {
    o.Some? && o.value.status != READY ==> Sent(msgs, n, id, o.value, o.value.status)
  }

  /** Every node's callbacks are in order, and of each connection that is not ready the message was sent. */
  ghost predicate Going(net: Net) {
    && (forall n :: 0 <= n < |net.nodes| ==> AllOk(net.nodes[n]))
    && (forall n, id :: 0 <= n < |net.nodes| && 0 <= id < |net.nodes[n]| ==> Announced(net.wire, n, id, net.nodes[n][id]))
  }

  lemma SentMore(msgs: set<Msg>, more: set<Msg>, n: nat, id: nat, c: Conn, d: Conn, cmd: Status)
    requires Sent(msgs, n, id, c, cmd) && c.peer == d.peer && msgs <= more
    ensures Sent(more, n, id, d, cmd)
  {
    var m :| m in msgs && m.cmd == cmd && m.from == n && m.to == c.peer && m.localId == id;
    assert m in more;
  }

  /** A slot after a step: nothing the peer is to answer, as before, or announced by the step. */
  ghost predicate StillAnnounced(o: Option<Conn>, o': Option<Conn>, sent: seq<Msg>, n: nat, id: nat) {
    || o' == None || o'.value.status == READY
    || (o.Some? && o.value.status == o'.value.status && o.value.peer == o'.value.peer)
    || (sent != [] && sent[0].cmd == o'.value.status && sent[0].from == n && sent[0].to == o'.value.peer && sent[0].localId == id)
  }

  lemma StepAnnounces(buf: Buf, me: nat, st: Step)
    requires Can(buf, st)
    ensures var e := Do(buf, me, st);
            |e.buf| == |buf| && forall i :: 0 <= i < |buf| ==> StillAnnounced(buf[i], e.buf[i], e.sent, me, i)
  {}

  lemma NextGoing(net: Net, n: nat, st: Step)
    requires Going(net) && CanStep(net, n, st) && Can(net.nodes[n], st)
    ensures Going(Next(net, n, st))
  {
    var net', e := Next(net, n, st), Do(net.nodes[n], n, st);
    StepCallbacks(net.nodes[n], n, st);
    StepAnnounces(net.nodes[n], n, st);
    forall k, id | 0 <= k < |net'.nodes| && 0 <= id < |net'.nodes[k]|
      ensures Announced(net'.wire, k, id, net'.nodes[k][id])
    {
      assert Announced(net.wire, k, id, net.nodes[k][id]);
      var o, o' := net.nodes[k][id], net'.nodes[k][id];
      if o'.Some? && o'.value.status != READY {
        if o.Some? && o.value.status == o'.value.status && o.value.peer == o'.value.peer {
          SentMore(net.wire, net'.wire, k, id, o.value, o'.value, o.value.status);
        } else {
          assert StillAnnounced(o, o', e.sent, n, id);
          assert e.sent[0] in net'.wire;
        }
      }
    }
  }

  lemma {:induction false} RunGoing(net: Net, steps: seq<NetStep>)
    requires net.wire == {} && forall n, i :: 0 <= n < |net.nodes| && 0 <= i < |net.nodes[n]| ==> net.nodes[n][i] == None
    ensures Going(RunNet(net, steps)) && Safe(RunNet(net, steps))
  {
    HandshakeSafety(net, steps);
    if steps != [] {
      RunGoing(net, steps[..|steps| - 1]);
      var before := RunNet(net, steps[..|steps| - 1]);
      var s := steps[|steps| - 1];
      if CanStep(before, s.node, s.step) && Can(before.nodes[s.node], s.step) { NextGoing(before, s.node, s.step); }
    }
  }

  /** Node n's slot id is a ready connection to slot jd of node p, and all its callbacks were called. */
  ghost predicate Established(net: Net, n: nat, id: nat, p: nat, jd: nat) {
    && Names(net, n, id, p)
    && var c := net.nodes[n][id].value;
       c.status == READY && c.external == jd && c.pending == [] && c.fired == c.registered
  }

  /** A message that was sent arrives. */
  ghost predicate Arrives(net: Net, m: Msg, internal: bool, net': Net) {
    && m in net.wire && m.to < |net.nodes| && Addressed(net.nodes[m.to], m)
    && net' == Next(net, m.to, DoReceive(m, internal))
  }

  /** Node n's slot id holds c. */
  ghost predicate Holds(net: Net, n: nat, id: nat, c: Conn) {
    n < |net.nodes| && id < |net.nodes[n]| && net.nodes[n][id] == Some(c)
  }

  /** Only slot id of node n changes, to c, and nothing that was sent is forgotten. */
  ghost predicate Moves(net: Net, net': Net, n: nat, id: nat, c: Conn) {
    && n < |net.nodes| == |net'.nodes| && Becomes(net.nodes[n], net'.nodes[n], id, c)
    && net'.nodes == net.nodes[n := net'.nodes[n]] && net.wire <= net'.wire
  }

  lemma MovesHolds(net: Net, net': Net, n: nat, id: nat, c: Conn, k: nat, jd: nat, d: Conn)
    requires |net'.nodes| == |net.nodes| && n < |net.nodes| && Moves(net, net', n, id, c)
    ensures Holds(net', n, id, c)
    ensures Holds(net, k, jd, d) && (k != n || jd != id) ==> Holds(net', k, jd, d)
  {}

  /** After a message arrives: the receiver's slots and what was sent. */
  lemma Arriving(net: Net, m: Msg, internal: bool) returns (net': Net)
    requires Safe(net) && Going(net) && m in net.wire
    ensures Arrives(net, m, internal, net') && Safe(net') && Going(net') && |net'.nodes| == |net.nodes|
    ensures var e := Receive(net.nodes[m.to], m.to, m, internal);
            && net'.nodes == net.nodes[m.to := e.buf] && net.wire <= net'.wire
            && (forall q :: q in e.sent ==> q in net'.wire)
  {
    AlwaysAddressed(net, m);
    StepSafe(net, m.to, DoReceive(m, internal));
    NextGoing(net, m.to, DoReceive(m, internal));
    net' := Next(net, m.to, DoReceive(m, internal));
  }

  /** p's connection to n once n's INVITE from slot id has arrived. */
  function Answering(o: Option<Conn>, n: nat, id: int, pmtu: int, internal: bool): Conn {
    if o.Some? then o.value.(external := id, status := CONNECT, trials := 1, timer := true)
    else Conn(n, id, CONNECT, pmtu, 1, false, internal, true, [], [], [])
  }

  lemma InviteArrives(net: Net, invite: Msg, jd: nat, internal: bool) returns (d: Conn, net': Net)
    requires Safe(net) && Going(net) && invite in net.wire && invite.cmd == INVITE
    requires invite.to < |net.nodes| && CanTake(net.nodes[invite.to], invite.from, jd)
    ensures Arrives(net, invite, internal, net') && Safe(net') && Going(net') && |net'.nodes| == |net.nodes|
    ensures d == Answering(net.nodes[invite.to][jd], invite.from, invite.localId, invite.pmtu, internal)
    ensures Moves(net, net', invite.to, jd, d)
    ensures Msg(invite.to, invite.from, CONNECT, jd, invite.localId, d.pmtu) in net'.wire
  {
    net' := Arriving(net, invite, internal);
    InviteEffect(net.nodes[invite.to], invite.to, invite, internal, jd);
    d := Answering(net.nodes[invite.to][jd], invite.from, invite.localId, invite.pmtu, internal);
    assert Msg(invite.to, invite.from, CONNECT, jd, invite.localId, d.pmtu) in
      Receive(net.nodes[invite.to], invite.to, invite, internal).sent;
  }

  /** n's connection once p's CONNECT from slot jd has arrived. */
  function Connected(c: Conn, jd: int): Conn {
    if c.status == INVITE then c.(external := jd, status := READY, trials := 1, timer := true, pending := [], fired := c.fired + c.pending)
    else c.(trials := 1, timer := true)
  }

  lemma ConnectArrives(net: Net, connect: Msg, c: Conn, internal: bool) returns (net': Net)
    requires Safe(net) && Going(net) && connect in net.wire && connect.cmd == CONNECT && connect.remoteId >= 0
    requires Holds(net, connect.to, connect.remoteId, c)
    ensures Arrives(net, connect, internal, net') && Safe(net') && Going(net') && |net'.nodes| == |net.nodes|
    ensures Moves(net, net', connect.to, connect.remoteId, Connected(c, connect.localId))
    ensures Msg(connect.to, c.peer, READY, connect.remoteId, Connected(c, connect.localId).external, c.pmtu) in net'.wire
  {
    net' := Arriving(net, connect, internal);
    ConnectEffect(net.nodes[connect.to], connect.to, connect, internal);
    assert Msg(connect.to, c.peer, READY, connect.remoteId, Connected(c, connect.localId).external, c.pmtu) in
      Receive(net.nodes[connect.to], connect.to, connect, internal).sent;
  }

  /** p's connection once n's READY has arrived. */
  function Readied(c: Conn): Conn {
    if c.status == CONNECT then c.(status := READY, pending := [], fired := c.fired + c.pending) else c
  }

  lemma ReadyArrives(net: Net, ready: Msg, c: Conn, internal: bool) returns (net': Net)
    requires Safe(net) && Going(net) && ready in net.wire && ready.cmd == READY && ready.remoteId >= 0
    requires Holds(net, ready.to, ready.remoteId, c)
    ensures Arrives(net, ready, internal, net') && Safe(net') && Going(net') && |net'.nodes| == |net.nodes|
    ensures Moves(net, net', ready.to, ready.remoteId, Readied(c))
  {
    net' := Arriving(net, ready, internal);
    ReadyEffect(net.nodes[ready.to], ready.to, ready, internal);
    assert net.nodes[ready.to][ready.remoteId := Some(c)] == net.nodes[ready.to];
  }

  lemma IsEstablished(net: Net, n: nat, id: nat, c: Conn)
    requires Going(net) && Holds(net, n, id, c) && c.status == READY && c.external >= 0
    ensures Established(net, n, id, c.peer, c.external)
  {
    assert AllOk(net.nodes[n]);
  }

  /** Node n is opening a connection to node p, which has a slot for it or a free one. When p gets the
      INVITE that was sent, n the CONNECT that p then sends and p the READY that n then sends, the
      connection is ready at both ends, each knows the other's slot, and all callbacks were called. */
  lemma OpeningCompletes(net: Net, n: nat, id: nat, c: Conn, jd: nat, internal: bool)
    returns (invite: Msg, connect: Msg, ready: Msg, net1: Net, net2: Net, net3: Net)
    requires Safe(net) && Going(net) && Holds(net, n, id, c) && c.status == INVITE
    requires c.peer != n && c.peer < |net.nodes| && CanTake(net.nodes[c.peer], n, jd)
    ensures invite.cmd == INVITE && invite.from == n && invite.to == c.peer
    ensures connect.cmd == CONNECT && connect.from == c.peer && connect.to == n
    ensures ready.cmd == READY && ready.from == n && ready.to == c.peer
    ensures Arrives(net, invite, internal, net1) && Arrives(net1, connect, internal, net2) && Arrives(net2, ready, internal, net3)
    ensures Established(net3, n, id, c.peer, jd) && Established(net3, c.peer, jd, n, id) && Safe(net3) && Going(net3)
    ensures net3.nodes[n][id].value.registered == c.registered
    ensures net3.nodes[c.peer][jd].value.registered ==
            if net.nodes[c.peer][jd].Some? then net.nodes[c.peer][jd].value.registered else []
  {
    var p := c.peer;
    assert Announced(net.wire, n, id, net.nodes[n][id]);
    invite :| invite in net.wire && invite.cmd == INVITE && invite.from == n && invite.to == p && invite.localId == id;
    var d;
    d, net1 := InviteArrives(net, invite, jd, internal);
    connect := Msg(p, n, CONNECT, jd, id, d.pmtu);
    MovesHolds(net, net1, p, jd, d, n, id, c);
    net2 := ConnectArrives(net1, connect, c, internal);
    ready := Msg(n, p, READY, id, jd, c.pmtu);
    MovesHolds(net1, net2, n, id, Connected(c, jd), p, jd, d);
    net3 := ReadyArrives(net2, ready, d, internal);
    MovesHolds(net2, net3, p, jd, Readied(d), n, id, Connected(c, jd));
    IsEstablished(net3, n, id, Connected(c, jd));
    IsEstablished(net3, p, jd, Readied(d));
  }

  /** The handshake from its beginning, after any run from empty slots: node n opens a connection, its
      INVITE arrives, then the CONNECT that answers it and the READY that answers that. The connection
      is then ready at both ends, and the callback was called, once. */
  lemma HandshakeCompletes(start: Net, steps: seq<NetStep>, n: nat, id: nat, p: nat, jd: nat, cb: Callback, internal: bool)
    returns (net0: Net, invite: Msg, net1: Net, connect: Msg, net2: Net, ready: Msg, net3: Net)
    requires start.wire == {}
    requires forall k, i :: 0 <= k < |start.nodes| && 0 <= i < |start.nodes[k]| ==> start.nodes[k][i] == None
    requires var net := RunNet(start, steps);
             && n < |net.nodes| && p < |net.nodes| && n != p
             && CanTake(net.nodes[n], p, id) && net.nodes[n][id] == None && CanTake(net.nodes[p], n, jd)
    ensures net0 == Next(RunNet(start, steps), n, DoOpen(p, internal, cb))
    ensures invite.cmd == INVITE && invite.from == n && invite.to == p && Arrives(net0, invite, internal, net1)
    ensures connect.cmd == CONNECT && connect.from == p && connect.to == n && Arrives(net1, connect, internal, net2)
    ensures ready.cmd == READY && ready.from == n && ready.to == p && Arrives(net2, ready, internal, net3)
    ensures Established(net3, n, id, p, jd) && Established(net3, p, jd, n, id)
    ensures net3.nodes[n][id].value.fired == [cb]
  {
    var net := RunNet(start, steps);
    RunGoing(start, steps);
    StepSafe(net, n, DoOpen(p, internal, cb));
    NextGoing(net, n, DoOpen(p, internal, cb));
    OpenEffect(net.nodes[n], n, p, internal, cb, id);
    net0 := Next(net, n, DoOpen(p, internal, cb));
    invite, connect, ready, net1, net2, net3 := OpeningCompletes(net0, n, id, net0.nodes[n][id].value, jd, internal);
  }

  /** A CONNECT from node n arrives at node p, and then a READY from p at n. */
  ghost predicate Round(net: Net, n: nat, p: nat, internal: bool, net': Net) {
    exists connect, ready, mid ::
      && Arrives(net, connect, internal, mid) && Arrives(mid, ready, internal, net')
      && connect.cmd == CONNECT && connect.from == n && connect.to == p
      && ready.cmd == READY && ready.from == p && ready.to == n
  }

  /** Node n answered CONNECT and got no READY. When its peer gets the CONNECT that was sent, and n the
      READY that the peer then sends, n's connection is ready; the peer's is, too, if it was not waiting
      for READY itself. */
  lemma AnsweringGoesOn(net: Net, n: nat, id: nat, c: Conn, jd: nat, d: Conn, internal: bool)
    returns (net2: Net)
    requires Safe(net) && Going(net) && Holds(net, n, id, c) && c.status == CONNECT && c.peer != n
    requires Holds(net, c.peer, jd, d) && d.peer == n
    ensures Round(net, n, c.peer, internal, net2)
    ensures Safe(net2) && Going(net2) && Holds(net2, n, id, Readied(c)) && Holds(net2, c.peer, jd, Connected(d, id))
    ensures c.external == jd && Connected(d, id).external == id
  {
    var p := c.peer;
    assert SlotOk(net, n, id) && SlotOk(net, p, jd) && Announced(net.wire, n, id, net.nodes[n][id]);
    SameSlot(net, p, c.external, jd, n);
    var connect :| connect in net.wire && connect.cmd == CONNECT && connect.from == n && connect.to == p && connect.localId == id;
    PeersSlot(net, connect, p, jd);
    if d.status != INVITE { KnownSlot(net, n, id, p, jd); }
    var net1 := ConnectArrives(net, connect, d, internal);
    MovesHolds(net, net1, p, jd, Connected(d, id), n, id, c);
    var ready := Msg(p, n, READY, jd, id, d.pmtu);
    net2 := ReadyArrives(net1, ready, c, internal);
    MovesHolds(net1, net2, n, id, Readied(c), p, jd, Connected(d, id));
  }

  /** So whatever was lost or came late, a connection that is not ready can still become ready at both
      ends: in one such round, or two, with nothing but messages that were sent. */
  lemma AnsweringCompletes(net: Net, n: nat, id: nat, c: Conn, internal: bool) returns (jd: nat, mid: Net, end: Net)
    requires Safe(net) && Going(net) && Holds(net, n, id, c) && c.status == CONNECT && c.peer != n
    ensures Round(net, n, c.peer, internal, mid) && (end == mid || Round(mid, c.peer, n, internal, end))
    ensures Established(end, n, id, c.peer, jd) && Established(end, c.peer, jd, n, id)
  {
    assert SlotOk(net, n, id);
    jd := c.external;
    var d := net.nodes[c.peer][jd].value;
    mid := AnsweringGoesOn(net, n, id, c, jd, d, internal);
    end := mid;
    if Connected(d, id).status == READY {
      IsEstablished(end, n, id, Readied(c));
      IsEstablished(end, c.peer, jd, Connected(d, id));
    } else {
      end := AnsweringGoesOn(mid, c.peer, jd, Connected(d, id), id, Readied(c), internal);
      IsEstablished(end, n, id, Connected(Readied(c), jd));
      IsEstablished(end, c.peer, jd, Readied(Connected(d, id)));
    }
  }

  /** A message names the one slot that its receiver has for its sender. */
  lemma PeersSlot(net: Net, m: Msg, n: nat, id: nat)
    requires Safe(net) && m in net.wire && m.cmd != INVITE && m.to == n && Names(net, n, id, m.from)
    ensures m.remoteId == id
  {
    assert MsgOk(net, m);
    SameSlot(net, n, m.remoteId, id, m.from);
  }

  /** What the peer knows of node n's slot, if it knows one. */
  lemma KnownSlot(net: Net, n: nat, id: nat, p: nat, jd: nat)
    requires Safe(net) && Names(net, n, id, p) && Names(net, p, jd, n)
    ensures net.nodes[p][jd].value.external == -1 || net.nodes[p][jd].value.external == id
  {
    assert SlotOk(net, p, jd);
    if net.nodes[p][jd].value.external != -1 { SameSlot(net, n, net.nodes[p][jd].value.external, id, p); }
  }
}
