/** Many endpoints that open connections to each other over a network that loses, repeats and
    reorders messages. */
module Handshake {
  import opened Options
  import opened Connections

  /** The slots of every endpoint, and every message ever sent: each may arrive any number of times. */
  datatype Net = Net(nodes: seq<Buf>, wire: set<Msg>)

  /** Slot id of node n is the connection to node p. */
  ghost predicate Names(net: Net, n: int, id: int, p: int) {
    && 0 <= n < |net.nodes| && 0 <= id < |net.nodes[n]|
    && net.nodes[n][id].Some? && net.nodes[n][id].value.peer == p
  }

  /** Node n knows which slot node p uses for it. */
  ghost predicate Knows(net: Net, n: int, p: int) {
    exists id :: Names(net, n, id, p) && net.nodes[n][id].value.external != -1
  }

  /** What holds of a connection in slot id of node n. */
  ghost predicate ConnOk(net: Net, n: int, c: Conn) {
    && c.peer < |net.nodes|
    && (c.external != -1 ==> Names(net, c.peer, c.external, n))
    && (c.status != INVITE ==> c.external != -1)
    && (c.status == READY ==> Knows(net, c.peer, n))
  }

  /** What holds of a message under way. */
  ghost predicate MsgOk(net: Net, m: Msg) {
    && m.to < |net.nodes| && Names(net, m.from, m.localId, m.to)
    && (m.remoteId != -1 ==> Names(net, m.to, m.remoteId, m.from))
    && (m.cmd != INVITE ==> m.remoteId != -1 && Knows(net, m.from, m.to))
  }

  /** No node has two slots for one peer. */
  ghost predicate OnePerPeer(buf: Buf) {
    forall i, j :: 0 <= i < j < |buf| && buf[i].Some? && buf[j].Some? ==> buf[i].value.peer != buf[j].value.peer
  }

  ghost predicate SlotOk(net: Net, n: int, id: int)
    requires 0 <= n < |net.nodes| && 0 <= id < |net.nodes[n]|
  {
    net.nodes[n][id].Some? ==> ConnOk(net, n, net.nodes[n][id].value)
  }

  ghost predicate Safe(net: Net) {
    && (forall n :: 0 <= n < |net.nodes| ==> OnePerPeer(net.nodes[n]))
    && (forall n, id :: 0 <= n < |net.nodes| && 0 <= id < |net.nodes[n]| ==> SlotOk(net, n, id))
    && (forall m :: m in net.wire ==> MsgOk(net, m))
  }

  /** The handshake's promise: on a ready connection the slot numbers of both sides agree. */
  lemma Agreement(net: Net, n: int, id: int)
    requires Safe(net) && 0 <= n < |net.nodes| && 0 <= id < |net.nodes[n]|
    requires net.nodes[n][id].Some? && net.nodes[n][id].value.status == READY
    ensures var c := net.nodes[n][id].value;
            Names(net, c.peer, c.external, n) && net.nodes[c.peer][c.external].value.external == id
  {
    var c := net.nodes[n][id].value;
    assert SlotOk(net, n, id);
    var e :| Names(net, c.peer, e, n) && net.nodes[c.peer][e].value.external != -1;
    SameSlot(net, c.peer, e, c.external, n);
    assert SlotOk(net, c.peer, e);
    SameSlot(net, n, id, net.nodes[c.peer][e].value.external, c.peer);
  }

  lemma SameSlot(net: Net, n: int, i: int, j: int, p: int)
    requires Safe(net) && Names(net, n, i, p) && Names(net, n, j, p)
    ensures i == j
  {
    assert OnePerPeer(net.nodes[n]);
  }

  /** Node n's slot id becomes c and n sends messages. */
  function Update(net: Net, n: nat, id: nat, c: Conn, sent: seq<Msg>): Net
    requires n < |net.nodes| && id < |net.nodes[n]|
  {
    Net(net.nodes[n := net.nodes[n][id := Some(c)]], net.wire + set m | m in sent)
  }

  /** The slot was free and the peer had none, or it stays with its peer and forgets nothing. */
  ghost predicate Grows(buf: Buf, id: nat, c: Conn)
    requires id < |buf|
  {
    if buf[id] == None then forall j :: 0 <= j < |buf| && buf[j].Some? ==> buf[j].value.peer != c.peer
    else buf[id].value.peer == c.peer && (buf[id].value.external != -1 ==> c.external != -1)
  }

  lemma NamesKept(net: Net, n: nat, id: nat, c: Conn, sent: seq<Msg>, k: int, i: int, p: int)
    requires n < |net.nodes| && id < |net.nodes[n]| && Grows(net.nodes[n], id, c) && Names(net, k, i, p)
    ensures Names(Update(net, n, id, c, sent), k, i, p)
  {}

  lemma KnowsKept(net: Net, n: nat, id: nat, c: Conn, sent: seq<Msg>, k: int, p: int)
    requires n < |net.nodes| && id < |net.nodes[n]| && Grows(net.nodes[n], id, c) && Knows(net, k, p)
    ensures Knows(Update(net, n, id, c, sent), k, p)
  {
    var i :| Names(net, k, i, p) && net.nodes[k][i].value.external != -1;
    NamesKept(net, n, id, c, sent, k, i, p);
    assert Update(net, n, id, c, sent).nodes[k][i].value.external != -1;
  }

  lemma ConnKept(net: Net, n: nat, id: nat, c: Conn, sent: seq<Msg>, k: int, d: Conn)
    requires n < |net.nodes| && id < |net.nodes[n]| && Grows(net.nodes[n], id, c) && ConnOk(net, k, d)
    ensures ConnOk(Update(net, n, id, c, sent), k, d)
  {
    if d.external != -1 { NamesKept(net, n, id, c, sent, d.peer, d.external, k); }
    if d.status == READY { KnowsKept(net, n, id, c, sent, d.peer, k); }
  }

  lemma MsgKept(net: Net, n: nat, id: nat, c: Conn, sent: seq<Msg>, m: Msg)
    requires n < |net.nodes| && id < |net.nodes[n]| && Grows(net.nodes[n], id, c) && MsgOk(net, m)
    ensures MsgOk(Update(net, n, id, c, sent), m)
  {
    NamesKept(net, n, id, c, sent, m.from, m.localId, m.to);
    if m.remoteId != -1 { NamesKept(net, n, id, c, sent, m.to, m.remoteId, m.from); }
    if m.cmd != INVITE { KnowsKept(net, n, id, c, sent, m.from, m.to); }
  }

  /** A step that puts a proper connection in a slot and sends proper messages keeps the promise. */
  lemma UpdateSafe(net: Net, n: nat, id: nat, c: Conn, sent: seq<Msg>)
    requires Safe(net) && n < |net.nodes| && id < |net.nodes[n]| && Grows(net.nodes[n], id, c)
    requires var net' := Update(net, n, id, c, sent);
             ConnOk(net', n, c) && forall m :: m in sent ==> MsgOk(net', m)
    ensures Safe(Update(net, n, id, c, sent))
  {
    var net' := Update(net, n, id, c, sent);
    forall k | 0 <= k < |net'.nodes| ensures OnePerPeer(net'.nodes[k]) {
      assert OnePerPeer(net.nodes[k]);
    }
    forall k, i | 0 <= k < |net'.nodes| && 0 <= i < |net'.nodes[k]| ensures SlotOk(net', k, i) {
      assert SlotOk(net, k, i);
      if (k != n || i != id) && net.nodes[k][i].Some? { ConnKept(net, n, id, c, sent, k, net.nodes[k][i].value); }
    }
    forall m | m in net'.wire ensures MsgOk(net', m) {
      if m in net.wire { MsgKept(net, n, id, c, sent, m); }
    }
  }

  /** One endpoint opens a connection, receives a message that was ever sent, or has a time-out that
      does not give the connection up. */
  ghost predicate CanStep(net: Net, n: nat, st: Step) {
    && n < |net.nodes|
    && match st
       case DoOpen(peer, _, _) => peer < |net.nodes|
       case DoReceive(m, _) => m in net.wire && m.to == n
       case DoTimeout(i) => i < |net.nodes[n]| && net.nodes[n][i].Some? && !GivesUp(net.nodes[n][i].value)
       case DoClose(_) => false
  }

  /** The slot numbers in a message that arrives can be looked up: -1 is never among them. */
  lemma AlwaysAddressed(net: Net, m: Msg)
    requires Safe(net) && m in net.wire
    ensures m.to < |net.nodes| && Addressed(net.nodes[m.to], m)
    ensures m.cmd != INVITE ==> net.nodes[m.to][m.remoteId].Some?
  {
    assert MsgOk(net, m);
  }

  ghost function Next(net: Net, n: nat, st: Step): Net
    requires CanStep(net, n, st) && Can(net.nodes[n], st)
  {
    var e := Do(net.nodes[n], n, st);
    Net(net.nodes[n := e.buf], net.wire + set m | m in e.sent)
  }

  lemma NothingChanges(net: Net, n: nat)
    requires n < |net.nodes|
    ensures Net(net.nodes[n := net.nodes[n]], net.wire + set m | m in []) == net
  {
    assert net.nodes[n := net.nodes[n]] == net.nodes;
    assert (set m: Msg | m in []) == {};
  }

  /** A message about a slot's connection is proper if the connection is. */
  predicate About(m: Msg, n: nat, id: nat, c: Conn) {
    && m.from == n && m.to == c.peer && m.localId == id && m.remoteId == c.external
    && (m.cmd != INVITE ==> c.external != -1)
  }

  /** A proper connection in a slot, with messages about it. */
  lemma SlotStep(net: Net, n: nat, id: nat, c: Conn, sent: seq<Msg>)
    requires Safe(net) && n < |net.nodes| && id < |net.nodes[n]| && Grows(net.nodes[n], id, c)
    requires ConnOk(Update(net, n, id, c, sent), n, c)
    requires forall m :: m in sent ==> About(m, n, id, c)
    ensures Safe(Update(net, n, id, c, sent))
  {
    var net' := Update(net, n, id, c, sent);
    assert Names(net', n, id, c.peer) && net'.nodes[n][id].value == c;
    forall m | m in sent ensures MsgOk(net', m) {
      assert About(m, n, id, c);
    }
    UpdateSafe(net, n, id, c, sent);
  }

  /** A connection of which neither the peer nor the handshake changes. */
  lemma SameHandshake(net: Net, n: nat, id: nat, c: Conn, sent: seq<Msg>)
    requires Safe(net) && n < |net.nodes| && id < |net.nodes[n]| && net.nodes[n][id].Some?
    requires var d := net.nodes[n][id].value; c.peer == d.peer && c.external == d.external && c.status == d.status
    requires forall m :: m in sent ==> About(m, n, id, c)
    ensures Safe(Update(net, n, id, c, sent))
  {
    assert SlotOk(net, n, id);
    ConnKept(net, n, id, c, sent, n, net.nodes[n][id].value);
    SlotStep(net, n, id, c, sent);
  }

  lemma OpenSafe(net: Net, n: nat, peer: nat, internal: bool, cb: Callback)
    requires Safe(net) && n < |net.nodes| && peer < |net.nodes|
    ensures Safe(Next(net, n, DoOpen(peer, internal, cb)))
  {
    var buf := net.nodes[n];
    var i, f := Find(buf, peer), FirstFree(buf);
    if i < |buf| {
      SameHandshake(net, n, i, Registered(buf[i].value, cb), []);
    } else if f < |buf| {
      var c := Scheduled(Invited(peer, internal, cb));
      SlotStep(net, n, f, c, [MsgOf(n, f, c, INVITE)]);
    } else {
      NothingChanges(net, n);
    }
  }

  /** The connection in a slot is to the sender of a message and takes over its slot number. */
  lemma TakesOver(net: Net, n: nat, id: nat, c: Conn, sent: seq<Msg>, m: Msg)
    requires Safe(net) && n < |net.nodes| && id < |net.nodes[n]| && Grows(net.nodes[n], id, c)
    requires m in net.wire && m.to == n && c.peer == m.from && c.external == m.localId
    requires c.status == READY ==> m.cmd != INVITE
    requires forall q :: q in sent ==> About(q, n, id, c)
    ensures Safe(Update(net, n, id, c, sent))
  {
    assert MsgOk(net, m);
    NamesKept(net, n, id, c, sent, m.from, m.localId, m.to);
    if c.status == READY { KnowsKept(net, n, id, c, sent, m.from, m.to); }
    SlotStep(net, n, id, c, sent);
  }

  lemma InviteSafe(net: Net, n: nat, m: Msg, internal: bool)
    requires Safe(net) && n < |net.nodes| && m in net.wire && m.to == n && m.cmd == INVITE
    ensures Safe(Next(net, n, DoReceive(m, internal)))
  {
    var buf := net.nodes[n];
    var i, f := Find(buf, m.from), FirstFree(buf);
    assert MsgOk(net, m);
    if i < |buf| {
      var c := Scheduled(buf[i].value.(external := m.localId, status := CONNECT));
      TakesOver(net, n, i, c, [MsgOf(n, i, c, CONNECT)], m);
    } else if f < |buf| {
      var c := Scheduled(Accepted(m, internal).(status := CONNECT));
      TakesOver(net, n, f, c, [MsgOf(n, f, c, CONNECT)], m);
    } else {
      NothingChanges(net, n);
    }
  }

  lemma ConnectSafe(net: Net, n: nat, m: Msg, internal: bool)
    requires Safe(net) && n < |net.nodes| && m in net.wire && m.to == n && m.cmd == CONNECT
    requires Can(net.nodes[n], DoReceive(m, internal))
    ensures Safe(Next(net, n, DoReceive(m, internal)))
  {
    assert MsgOk(net, m);
    var id := m.remoteId;
    var c := net.nodes[n][id].value;
    assert SlotOk(net, n, id);
    if c.status == INVITE {
      var d := Scheduled(c.(external := m.localId, status := READY));
      TakesOver(net, n, id, Fire(d), [MsgOf(n, id, d, READY)], m);
    } else {
      SameHandshake(net, n, id, Scheduled(c), [MsgOf(n, id, c, READY)]);
    }
  }

  lemma ReadySafe(net: Net, n: nat, m: Msg, internal: bool)
    requires Safe(net) && n < |net.nodes| && m in net.wire && m.to == n && m.cmd == READY
    requires Can(net.nodes[n], DoReceive(m, internal))
    ensures Safe(Next(net, n, DoReceive(m, internal)))
  {
    assert MsgOk(net, m);
    var id := m.remoteId;
    var c := net.nodes[n][id].value;
    assert SlotOk(net, n, id);
    if c.status == CONNECT {
      var d := Fire(c.(status := READY));
      ConnKept(net, n, id, d, [], n, c);
      KnowsKept(net, n, id, d, [], m.from, n);
      SlotStep(net, n, id, d, []);
    } else {
      NothingChanges(net, n);
    }
  }

  lemma TimeoutSafe(net: Net, n: nat, i: nat)
    requires Safe(net) && CanStep(net, n, DoTimeout(i))
    ensures Safe(Next(net, n, DoTimeout(i)))
  {
    var c := net.nodes[n][i].value;
    assert SlotOk(net, n, i);
    var d := TimedOut(c);
    SameHandshake(net, n, i, d, if c.status == READY then [] else [MsgOf(n, i, d, d.status)]);
  }

  /** Every step keeps the promise, a late INVITE that takes a ready connection back included. */
  lemma StepSafe(net: Net, n: nat, st: Step)
    requires Safe(net) && CanStep(net, n, st)
    ensures Can(net.nodes[n], st) && Safe(Next(net, n, st))
  {
    match st
    case DoOpen(peer, internal, cb) => OpenSafe(net, n, peer, internal, cb);
    case DoReceive(m, internal) =>
      AlwaysAddressed(net, m);
      match m.cmd {
        case INVITE => InviteSafe(net, n, m, internal);
        case CONNECT => ConnectSafe(net, n, m, internal);
        case READY => ReadySafe(net, n, m, internal);
      }
    case DoTimeout(i) => TimeoutSafe(net, n, i);
  }

  /** A step of one of the endpoints. */
  datatype NetStep = At(node: nat, step: Step)

  /** The state after a run, in which steps that are not possible do nothing. */
  ghost function RunNet(net: Net, steps: seq<NetStep>): Net {
    if steps == [] then net
    else
      var before := RunNet(net, steps[..|steps| - 1]);
      var s := steps[|steps| - 1];
      if CanStep(before, s.node, s.step) && Can(before.nodes[s.node], s.step) then Next(before, s.node, s.step)
      else before
  }

  /** Handshake safety over every run that begins with no connection and no message: no step that is
      possible needs a slot number that is not there, and what is ready agrees. */
  lemma {:induction false} HandshakeSafety(net: Net, steps: seq<NetStep>)
    requires net.wire == {} && forall n, i :: 0 <= n < |net.nodes| && 0 <= i < |net.nodes[n]| ==> net.nodes[n][i] == None
    ensures Safe(RunNet(net, steps))
    ensures forall n: nat, st :: CanStep(RunNet(net, steps), n, st) ==> Can(RunNet(net, steps).nodes[n], st)
  {
    if steps != [] {
      HandshakeSafety(net, steps[..|steps| - 1]);
      var before := RunNet(net, steps[..|steps| - 1]);
      var s := steps[|steps| - 1];
      if CanStep(before, s.node, s.step) { StepSafe(before, s.node, s.step); }
    }
    var after := RunNet(net, steps);
    forall n: nat, st | CanStep(after, n, st) ensures Can(after.nodes[n], st) {
      StepSafe(after, n, st);
    }
  }
}
