/** An endpoint: its connection records, and the callbacks that change them. */
module Endpoint {
  import opened Options
  import opened Fragments
  import opened Connections

  class CallbackNode {
    const cb: Callback
    var next: CallbackNode?

    constructor (cb: Callback)
      ensures this.cb == cb && next == null
    {
      this.cb := cb;
      next := null;
    }
  }

  ghost predicate InList(k: int) { true }

  /** A connection that exists or is being established. */
  class ConnectData {
    const peer: nat
    var external: int
    var status: Status
    var pmtu: int
    var trials: int
    var delay: bool
    var internal: bool
    var timer: bool
    var head: CallbackNode?
    var last: CallbackNode?
    /** The callbacks that were called. */
    var fired: seq<Callback>

    ghost var spine: seq<CallbackNode>
    ghost var nodes: set<CallbackNode>
    ghost var pending: seq<Callback>
    ghost var registered: seq<Callback>

    ghost function Value(): Conn
      reads this
    {
      Conn(peer, external, status, pmtu, trials, delay, internal, timer, pending, registered, fired)
    }

    /** head and last are the two ends of the list of pending callbacks. */
    ghost predicate Linked()
      reads this`head, this`last, this`spine, this`nodes, this`pending, nodes
    {
      && |spine| == |pending|
      && (if spine == [] then head == null && last == null else head == spine[0] && last == spine[|spine| - 1])
      && (forall i :: 0 <= i < |spine| ==> spine[i] in nodes && spine[i].cb == pending[i])
      && (forall i, j :: 0 <= i < j < |spine| ==> spine[i] != spine[j])
      && (forall i :: 0 <= i < |spine| - 1 ==> spine[i].next == spine[i + 1])
      && (spine != [] ==> spine[|spine| - 1].next == null)
    }

    ghost predicate ListValid()
      reads this`head, this`last, this`spine, this`nodes, this`pending, nodes
    {
      forall k {:trigger InList(k)} :: InList(k) ==> Linked()
    }

    constructor (peer: nat, external: int, status: Status, pmtu: int, internal: bool)
      ensures ListValid() && nodes == {}
      ensures Value() == Conn(peer, external, status, pmtu, 0, false, internal, false, [], [], [])
    {
      this.peer, this.external, this.status, this.pmtu, this.internal := peer, external, status, pmtu, internal;
      trials, delay, timer, head, last, fired := 0, false, false, null, null, [];
      spine, nodes, pending, registered := [], {}, [], [];
    }

    /** Adds a callback at the end of the list. */
    method Append(cb: Callback)
      requires ListValid()
      modifies this`head, this`last, this`spine, this`nodes, this`pending, this`registered, nodes
      ensures ListValid() && fresh(nodes - old(nodes))
      ensures Value() == old(Value()).(pending := old(pending) + [cb], registered := old(registered) + [cb])
    {
      var temp := new CallbackNode(cb);
      registered := registered + [cb];
      Link(temp);
    }

    method Link(temp: CallbackNode)
      requires ListValid() && temp !in nodes && temp.next == null
      modifies this`head, this`last, this`spine, this`nodes, this`pending, nodes
      ensures ListValid() && nodes == old(nodes) + {temp} && pending == old(pending) + [temp.cb]
    {
      assert InList(0);
      if last != null {
        last.next := temp;
        last := temp;
      } else {
        head := temp;
        last := temp;
      }
      spine, nodes, pending := spine + [temp], nodes + {temp}, pending + [temp.cb];
    }

    /** Calls a callback at once. */
    method CallNow(cb: Callback)
      modifies this`fired, this`registered
      ensures Value() == old(Value()).(registered := old(registered) + [cb], fired := old(fired) + [cb])
    {
      fired, registered := fired + [cb], registered + [cb];
    }

    /** Calls the callbacks of the list, which is empty afterwards. */
    method CallAll()
      requires ListValid()
      modifies this`head, this`last, this`spine, this`pending, this`fired
      ensures ListValid() && Value() == Fire(old(Value()))
    {
      assert InList(0);
      while head != null
        invariant Linked() || (spine == [] && pending == [] && head == null)
        invariant fired + pending == old(fired + pending)
        decreases |spine|
      {
        fired := fired + [head.cb];
        head := head.next;
        spine, pending := spine[1..], pending[1..];
      }
      head, last := null, null;
    }

    /** Gets ready for a control message to be sent for the first time. */
    method Schedule()
      modifies this`trials, this`timer
      ensures Value() == Scheduled(old(Value()))
    {
      trials := 1;
      timer := true;
    }

    /** Gets ready for the next trial; fails if no packet size is left. */
    method NextTrial() returns (failed: bool)
      requires status != READY
      modifies this`pmtu, this`trials, this`delay, this`internal, this`timer
      ensures failed == GivesUp(old(Value()))
      ensures !failed ==> Value() == TimedOut(old(Value()))
      ensures failed ==> unchanged(this`internal)
    {
      if delay {
        delay := false;
        timer := true;
      }
      if trials == MAX_TRIALS {
        pmtu := PmtuDecrement(pmtu);
        trials := 0;
      }
      if pmtu == P_ERROR {
        if internal {
          internal := false;
          pmtu := DSLSLIM;
        } else {
          return true;
        }
      }
      trials := trials + 1;
      timer := true;
      return false;
    }
  }

  ghost predicate Inside(k: int) { true }

  class Endpoint {
    const me: nat
    const connectbuf: array<ConnectData?>
    /** The control messages sent, and the connections that failed. */
    var sent: seq<Msg>
    var failures: seq<nat>

    ghost var buf: Buf
    ghost var owned: set<ConnectData>
    ghost var listNodes: set<CallbackNode>

    ghost predicate SlotIs(t: nat)
      requires t < connectbuf.Length == |buf|
      reads this`buf, this`owned, this`listNodes, connectbuf, owned, listNodes
    {
      if connectbuf[t] == null then buf[t] == None
      else
        && connectbuf[t] in owned && connectbuf[t].nodes <= listNodes
        && connectbuf[t].ListValid() && buf[t] == Some(connectbuf[t].Value())
    }

    ghost predicate Separate()
      reads this`owned, connectbuf, owned
    {
      forall t, u :: 0 <= t < u < connectbuf.Length && connectbuf[t] != null && connectbuf[u] != null
                     && connectbuf[t] in owned && connectbuf[u] in owned ==>
                       connectbuf[t] != connectbuf[u] && connectbuf[t].nodes !! connectbuf[u].nodes
    }

    ghost predicate Valid()
      reads this`buf, this`owned, this`listNodes, connectbuf, owned, listNodes
    {
      && |buf| == connectbuf.Length
      && forall k {:trigger Inside(k)} :: Inside(k) ==>
           Separate() && forall t :: 0 <= t < connectbuf.Length ==> SlotIs(t)
    }

    constructor (me: nat, size: nat)
      ensures Valid() && fresh(connectbuf) && this.me == me && buf == seq(size, _ => None)
      ensures sent == [] && failures == []
    {
      this.me := me;
      connectbuf := new ConnectData?[size](_ => null);
      sent, failures, owned, listNodes := [], [], {}, {};
      buf := seq(size, _ => None);
    }

    /** Looks for the connection to a peer, and a free slot. */
    method Search(peer: nat) returns (conId: nat, freeId: int)
      requires Valid()
      ensures conId == Find(buf, peer)
      ensures conId == |buf| ==> freeId == if FirstFree(buf) < |buf| then FirstFree(buf) else -1
    {
      assert Inside(0);
      conId, freeId := 0, -1;
      while conId < connectbuf.Length
        invariant conId <= connectbuf.Length
        invariant forall j :: 0 <= j < conId && buf[j].Some? ==> buf[j].value.peer != peer
        invariant freeId == -1 || 0 <= freeId < conId
        invariant freeId == -1 ==> forall j :: 0 <= j < conId ==> buf[j] != None
        invariant freeId != -1 ==> buf[freeId] == None && forall j :: 0 <= j < freeId ==> buf[j] != None
      {
        assert SlotIs(conId);
        if connectbuf[conId] != null {
          if connectbuf[conId].peer == peer {
            break;
          }
        } else if freeId == -1 {
          freeId := conId;
        }
        conId := conId + 1;
      }
      FindIs(buf, peer, conId);
      if freeId != -1 { FreeIs(buf, freeId); }
    }

    /** Takes a free slot for a connection. */
    method Create(t: nat, peer: nat, external: int, status: Status, pmtu: int, internal: bool)
      requires Valid() && t < |buf| && buf[t] == None
      modifies this`buf, this`owned, connectbuf
      ensures Valid() && fresh(owned - old(owned))
      ensures buf == old(buf)[t := Some(Conn(peer, external, status, pmtu, 0, false, internal, false, [], [], []))]
    {
      assert Inside(0);
      var d := new ConnectData(peer, external, status, pmtu, internal);
      connectbuf[t] := d;
      buf := buf[t := Some(d.Value())];
      owned := owned + {d};
      forall u | 0 <= u < connectbuf.Length ensures SlotIs(u) {
        if u != t { assert old(SlotIs(u)); }
      }
    }

    /** Registers a callback on the connection in slot t. */
    method RegisterAt(t: nat, cb: Callback)
      requires Valid() && t < |buf| && buf[t].Some?
      modifies this`buf, this`listNodes, owned, listNodes
      ensures Valid() && buf == old(buf)[t := Some(Registered(old(buf)[t].value, cb))]
    {
      assert Inside(0);
      assert SlotIs(t);
      var d := connectbuf[t];
      if d.status == READY {
        d.CallNow(cb);
      } else {
        d.Append(cb);
      }
      buf := buf[t := Some(d.Value())];
      listNodes := listNodes + d.nodes;
      forall u | 0 <= u < connectbuf.Length ensures SlotIs(u) {
        assert old(SlotIs(u));
      }
    }

    /** Enters what a message says about the connection in slot t. */
    method Note(t: nat, external: int, status: Status)
      requires Valid() && t < |buf| && buf[t].Some?
      modifies this`buf, owned
      ensures Valid() && buf == old(buf)[t := Some(old(buf)[t].value.(external := external, status := status))]
    {
      assert Inside(0);
      assert SlotIs(t);
      var d := connectbuf[t];
      d.external, d.status := external, status;
      buf := buf[t := Some(d.Value())];
      forall u | 0 <= u < connectbuf.Length ensures SlotIs(u) {
        assert old(SlotIs(u));
      }
    }

    /** Sends a control message about the connection in slot t. */
    method SendConnMsg(t: nat, cmd: Status)
      requires Valid() && t < |buf| && buf[t].Some?
      modifies this`sent
      ensures sent == old(sent) + [MsgOf(me, t, buf[t].value, cmd)]
    {
      assert Inside(0);
      assert SlotIs(t);
      var d := connectbuf[t];
      sent := sent + [Msg(me, d.peer, cmd, t, d.external, d.pmtu)];
    }

    /** Sends a control message for the first time. */
    method SendWithPmtuDiscovery(t: nat, cmd: Status)
      requires Valid() && t < |buf| && buf[t].Some?
      modifies this`buf, this`sent, owned
      ensures Valid() && buf == old(buf)[t := Some(Scheduled(old(buf)[t].value))]
      ensures sent == old(sent) + [MsgOf(me, t, old(buf)[t].value, cmd)]
    {
      SendConnMsg(t, cmd);
      assert Inside(0);
      assert SlotIs(t);
      var d := connectbuf[t];
      d.Schedule();
      buf := buf[t := Some(d.Value())];
      forall u | 0 <= u < connectbuf.Length ensures SlotIs(u) {
        assert old(SlotIs(u));
      }
    }

    /** Calls all callbacks that wait on the connection in slot t. */
    method FireAt(t: nat)
      requires Valid() && t < |buf| && buf[t].Some?
      modifies this`buf, owned
      ensures Valid() && buf == old(buf)[t := Some(Fire(old(buf)[t].value))]
    {
      assert Inside(0);
      assert SlotIs(t);
      var d := connectbuf[t];
      d.CallAll();
      buf := buf[t := Some(d.Value())];
      forall u | 0 <= u < connectbuf.Length ensures SlotIs(u) {
        assert old(SlotIs(u));
      }
    }

    method StatusOf(t: nat) returns (open: bool, status: Status)
      requires Valid() && t < |buf|
      ensures open == buf[t].Some? && (open ==> status == buf[t].value.status)
    {
      assert Inside(0);
      assert SlotIs(t);
      open, status := connectbuf[t] != null, INVITE;
      if open {
        status := connectbuf[t].status;
      }
    }

    method ExternalOf(t: nat) returns (external: int)
      requires Valid() && t < |buf| && buf[t].Some?
      ensures external == buf[t].value.external
    {
      assert Inside(0);
      assert SlotIs(t);
      external := connectbuf[t].external;
    }

    /** Opens a connection, or registers the callback on the one there is. */
    method OpenConnection(peer: nat, internal: bool, cb: Callback) returns (conId: int)
      requires Valid()
      modifies this`buf, this`sent, this`owned, this`listNodes, connectbuf, owned, listNodes
      ensures Valid() && buf == Open(old(buf), me, peer, internal, cb).buf
      ensures sent == old(sent) + Open(old(buf), me, peer, internal, cb).sent
      ensures conId == if Find(buf, peer) < |buf| then Find(buf, peer) else -1
    {
      var found, freeId := Search(peer);
      if found < connectbuf.Length {
        RegisterAt(found, cb);
        conId := found;
      } else if freeId == -1 {
        conId := -1;
      } else {
        Begin(freeId, peer, internal, cb);
        conId := freeId;
      }
      FindOpened(old(buf), me, peer, internal, cb);
    }

    /** Begins to open a connection in a free slot. */
    method Begin(t: nat, peer: nat, internal: bool, cb: Callback)
      requires Valid() && t < |buf| && buf[t] == None
      modifies this`buf, this`sent, this`owned, this`listNodes, connectbuf, owned, listNodes
      ensures Valid() && var c := Scheduled(Invited(peer, internal, cb));
              buf == old(buf)[t := Some(c)] && sent == old(sent) + [MsgOf(me, t, c, INVITE)]
    {
      Create(t, peer, -1, INVITE, DSLSLIM, internal);
      assert [] + [cb] == [cb];
      RegisterAt(t, cb);
      assert buf[t] == Some(Invited(peer, internal, cb));
      SendWithPmtuDiscovery(t, INVITE);
    }

    /** Takes in a control message. */
    method RecvConnMsg(m: Msg, internal: bool)
      requires Valid() && Addressed(buf, m)
      modifies this`buf, this`sent, this`owned, connectbuf, owned
      ensures Valid() && buf == Receive(old(buf), me, m, internal).buf
      ensures sent == old(sent) + Receive(old(buf), me, m, internal).sent
    {
      match m.cmd {
        case INVITE => RecvInvite(m, internal);
        case CONNECT => RecvConnect(m);
        case READY => RecvReady(m);
      }
    }

    method RecvInvite(m: Msg, internal: bool)
      requires Valid()
      modifies this`buf, this`sent, this`owned, connectbuf, owned
      ensures Valid() && buf == OnInvite(old(buf), me, m, internal).buf
      ensures sent == old(sent) + OnInvite(old(buf), me, m, internal).sent
    {
      var conId, freeId := Search(m.from);
      if conId == connectbuf.Length {
        if freeId == -1 {
          return;
        }
        Create(freeId, m.from, m.localId, INVITE, m.pmtu, internal);
        conId := freeId;
      }
      Note(conId, m.localId, CONNECT);
      SendWithPmtuDiscovery(conId, CONNECT);
    }

    method RecvConnect(m: Msg)
      requires Valid() && 0 <= m.remoteId < |buf|
      modifies this`buf, this`sent, owned
      ensures Valid() && buf == OnConnect(old(buf), me, m).buf
      ensures sent == old(sent) + OnConnect(old(buf), me, m).sent
    {
      var open, status := StatusOf(m.remoteId);
      if !open {
        return;
      }
      if status == INVITE {
        Note(m.remoteId, m.localId, READY);
        SendWithPmtuDiscovery(m.remoteId, READY);
        FireAt(m.remoteId);
      } else {
        SendWithPmtuDiscovery(m.remoteId, READY);
      }
    }

    method RecvReady(m: Msg)
      requires Valid() && 0 <= m.remoteId < |buf|
      modifies this`buf, owned
      ensures Valid() && buf == OnReady(old(buf), m).buf
    {
      var open, status := StatusOf(m.remoteId);
      if open && status == CONNECT {
        var external := ExternalOf(m.remoteId);
        Note(m.remoteId, external, READY);
        FireAt(m.remoteId);
      }
    }

    /** Removes a connection. */
    method CloseConnection(t: nat)
      requires Valid() && t < |buf|
      modifies this`buf, connectbuf
      ensures Valid() && buf == old(buf)[t := None]
    {
      assert Inside(0);
      connectbuf[t] := null;
      buf := buf[t := None];
      forall u | 0 <= u < connectbuf.Length ensures SlotIs(u) {
        assert old(SlotIs(u));
      }
    }

    method TryAgain(t: nat) returns (failed: bool)
      requires Valid() && t < |buf| && buf[t].Some? && buf[t].value.status != READY
      modifies this`buf, owned
      ensures Valid() && failed == GivesUp(old(buf)[t].value)
      ensures !failed ==> buf == old(buf)[t := Some(TimedOut(old(buf)[t].value))]
      ensures failed ==> |buf| == |old(buf)| && buf[t := None] == old(buf)[t := None]
    {
      assert Inside(0);
      assert SlotIs(t);
      var d := connectbuf[t];
      failed := d.NextTrial();
      buf := buf[t := Some(d.Value())];
      forall u | 0 <= u < connectbuf.Length ensures SlotIs(u) {
        assert old(SlotIs(u));
      }
    }

    method Unschedule(t: nat)
      requires Valid() && t < |buf| && buf[t].Some?
      modifies this`buf, owned
      ensures Valid() && buf == old(buf)[t := Some(old(buf)[t].value.(timer := false))]
    {
      assert Inside(0);
      assert SlotIs(t);
      var d := connectbuf[t];
      d.timer := false;
      buf := buf[t := Some(d.Value())];
      forall u | 0 <= u < connectbuf.Length ensures SlotIs(u) {
        assert old(SlotIs(u));
      }
    }

    /** No answer came in time: tries again, with smaller packets after some trials, or gives up. */
    method PmtuTimeoutCb(t: nat)
      requires Valid() && t < |buf|
      modifies this`buf, this`sent, this`failures, connectbuf, owned
      ensures Valid() && |buf| == |old(buf)|
      ensures old(buf)[t] == None ==> buf == old(buf) && sent == old(sent) && failures == old(failures)
      ensures old(buf)[t].Some? ==> buf == Timeout(old(buf), me, t).buf
                                    && sent == old(sent) + Timeout(old(buf), me, t).sent
                                    && failures == old(failures) + if GivesUp(old(buf)[t].value) then [t] else []
    {
      var open, status := StatusOf(t);
      if !open {
        return;
      }
      if status == READY {
        Unschedule(t);
        return;
      }
      var failed := TryAgain(t);
      if failed {
        failures := failures + [t];
        CloseConnection(t);
      } else {
        SendConnMsg(t, status);
      }
    }
  }

  /** After opening, the connection is the one to be found. */
  lemma {:induction false} FindOpened(buf: Buf, me: nat, peer: nat, internal: bool, cb: Callback)
    ensures var buf' := Open(buf, me, peer, internal, cb).buf;
            Find(buf', peer) == if Find(buf, peer) < |buf| then Find(buf, peer) else FirstFree(buf)
  {
    var buf' := Open(buf, me, peer, internal, cb).buf;
    var i := if Find(buf, peer) < |buf| then Find(buf, peer) else FirstFree(buf);
    assert forall j :: 0 <= j < |buf| && j != i ==> buf'[j] == buf[j];
    FindIs(buf', peer, i);
  }

  lemma {:induction false} FindIs(buf: Buf, peer: nat, i: nat)
    requires i <= |buf| && forall j :: 0 <= j < i && buf[j].Some? ==> buf[j].value.peer != peer
    requires i < |buf| ==> buf[i].Some? && buf[i].value.peer == peer
    ensures Find(buf, peer) == i
  {
    if Find(buf, peer) < i { assert false; }
  }

  lemma {:induction false} FreeIs(buf: Buf, i: nat)
    requires i < |buf| && buf[i] == None && forall j :: 0 <= j < i ==> buf[j] != None
    ensures FirstFree(buf) == i
  {
    if FirstFree(buf) < i { assert false; }
  }
}
