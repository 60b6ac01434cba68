/** The connections of one endpoint: what opening, control messages and time-outs do to them. */
module Connections {
  import opened Options
  import opened Fragments

  datatype Status = INVITE | CONNECT | READY

  /** A function to call when a connection is ready, and its argument. */
  datatype Callback = Callback(fn: int, arg: int)

  /** A connection to a peer. external is the peer's slot for it, or -1 as long as that is not known;
      pending are the callbacks still to be called; registered and fired are the histories of those
      ever registered and called. */
  datatype Conn = Conn(peer: nat, external: int, status: Status, pmtu: int, trials: int, delay: bool, internal: bool,
                       timer: bool, pending: seq<Callback>, registered: seq<Callback>, fired: seq<Callback>)

  /** A control message; localId is the sender's slot, remoteId the receiver's as the sender knows it. */
  datatype Msg = Msg(from: nat, to: nat, cmd: Status, localId: int, remoteId: int, pmtu: int)

  type Buf = seq<Option<Conn>>

  /** The slots after a step, and the messages it sends. */
  datatype Effect = Effect(buf: Buf, sent: seq<Msg>)

  const MAX_TRIALS := 3

  /** The slot of the connection to a peer, or the end of the buffer. */
  function Find(buf: Buf, peer: nat): (i: nat)
    ensures i <= |buf| && (i < |buf| ==> buf[i].Some? && buf[i].value.peer == peer)
    ensures forall j :: 0 <= j < i && buf[j].Some? ==> buf[j].value.peer != peer
  {
    if buf == [] || (buf[0].Some? && buf[0].value.peer == peer) then 0 else 1 + Find(buf[1..], peer)
  }

  /** The first free slot, or the end of the buffer. */
  function FirstFree(buf: Buf): (i: nat)
    ensures i <= |buf| && (i < |buf| ==> buf[i] == None)
    ensures forall j :: 0 <= j < i ==> buf[j].Some?
  {
    if buf == [] || buf[0] == None then 0 else 1 + FirstFree(buf[1..])
  }

  /** A control message of the connection in slot id. */
  function MsgOf(me: nat, id: int, c: Conn, cmd: Status): Msg {
    Msg(me, c.peer, cmd, id, c.external, c.pmtu)
  }

  /** The connection once a control message has been sent for the first time. */
  function Scheduled(c: Conn): Conn { c.(trials := 1, timer := true) }

  /** Calls all pending callbacks. */
  function Fire(c: Conn): Conn {
    c.(fired := c.fired + c.pending, pending := [])
  }

  /** A connection that is being opened. */
  function Invited(peer: nat, internal: bool, cb: Callback): Conn {
    Conn(peer, -1, INVITE, DSLSLIM, 0, false, internal, false, [cb], [cb], [])
  }

  /** A connection that the peer opens. */
  function Accepted(m: Msg, internal: bool): Conn {
    Conn(m.from, m.localId, INVITE, m.pmtu, 0, false, internal, false, [], [], [])
  }

  /** Registers a callback, or calls it at once if the connection is ready. */
  function Registered(c: Conn, cb: Callback): Conn {
    if c.status == READY then c.(registered := c.registered + [cb], fired := c.fired + [cb])
    else c.(registered := c.registered + [cb], pending := c.pending + [cb])
  }

  /** Opening a connection to a peer: an existing one only takes the callback. */
  function Open(buf: Buf, me: nat, peer: nat, internal: bool, cb: Callback): Effect {
    var i := Find(buf, peer);
    if i < |buf| then Effect(buf[i := Some(Registered(buf[i].value, cb))], [])
    else
      var f := FirstFree(buf);
      if f < |buf| then
        var c := Scheduled(Invited(peer, internal, cb));
        Effect(buf[f := Some(c)], [MsgOf(me, f, c, INVITE)])
      else Effect(buf, [])
  }

  /** An INVITE: notes the peer's slot and answers CONNECT, whatever the status was. */
  function OnInvite(buf: Buf, me: nat, m: Msg, internal: bool): Effect {
    var i := Find(buf, m.from);
    var f := FirstFree(buf);
    if i < |buf| then
      var c := Scheduled(buf[i].value.(external := m.localId, status := CONNECT));
      Effect(buf[i := Some(c)], [MsgOf(me, i, c, CONNECT)])
    else if f < |buf| then
      var c := Scheduled(Accepted(m, internal).(status := CONNECT));
      Effect(buf[f := Some(c)], [MsgOf(me, f, c, CONNECT)])
    else Effect(buf, [])
  }

  /** A CONNECT: answers READY; a connection that was being opened becomes ready. */
  function OnConnect(buf: Buf, me: nat, m: Msg): Effect
    requires 0 <= m.remoteId < |buf|
  {
    if buf[m.remoteId] == None then Effect(buf, [])
    else
      var c := buf[m.remoteId].value;
      if c.status == INVITE then
        var d := Scheduled(c.(external := m.localId, status := READY));
        Effect(buf[m.remoteId := Some(Fire(d))], [MsgOf(me, m.remoteId, d, READY)])
      else
        Effect(buf[m.remoteId := Some(Scheduled(c))], [MsgOf(me, m.remoteId, c, READY)])
  }

  /** A READY: a connection that answered CONNECT becomes ready. */
  function OnReady(buf: Buf, m: Msg): Effect
    requires 0 <= m.remoteId < |buf|
  {
    if buf[m.remoteId].Some? && buf[m.remoteId].value.status == CONNECT then
      Effect(buf[m.remoteId := Some(Fire(buf[m.remoteId].value.(status := READY)))], [])
    else Effect(buf, [])
  }

  /** What the slot numbers in a message must be for the receiver to look them up. */
  predicate Addressed(buf: Buf, m: Msg) {
    m.cmd != INVITE ==> 0 <= m.remoteId < |buf|
  }

  /** Any control message. */
  function Receive(buf: Buf, me: nat, m: Msg, internal: bool): Effect
    requires Addressed(buf, m)
  {
    match m.cmd
    case INVITE => OnInvite(buf, me, m, internal)
    case CONNECT => OnConnect(buf, me, m)
    case READY => OnReady(buf, m)
  }

  // Time-outs

  /** The packet size after a time-out: smaller after the last trial. */
  function PmtuAfter(c: Conn): int {
    if c.trials == MAX_TRIALS then PmtuDecrement(c.pmtu) else c.pmtu
  }

  /** The time-out gives the connection up: the packet size ran out on the last way to the peer. */
  predicate GivesUp(c: Conn) {
    c.status != READY && PmtuAfter(c) == P_ERROR && !c.internal
  }

  /** The connection after a time-out that does not give up. */
  function TimedOut(c: Conn): Conn {
    if c.status == READY then c.(timer := false)
    else
      var d := c.(delay := false, pmtu := PmtuAfter(c), trials := if c.trials == MAX_TRIALS then 0 else c.trials,
                  timer := true);
      var e := if d.pmtu == P_ERROR then d.(internal := false, pmtu := DSLSLIM) else d;
      e.(trials := e.trials + 1)
  }

  /** A time-out of slot i: sends the last control message again, or closes the connection. */
  function Timeout(buf: Buf, me: nat, i: nat): Effect
    requires i < |buf| && buf[i].Some?
  {
    var c := buf[i].value;
    if GivesUp(c) then Effect(buf[i := None], [])
    else
      var d := TimedOut(c);
      Effect(buf[i := Some(d)], if c.status == READY then [] else [MsgOf(me, i, d, d.status)])
  }

  /** How many time-outs a connection has left, without an answer. */
  function Left(c: Conn): int {
    if c.pmtu != P_ERROR then
      MAX_TRIALS + 1 - c.trials + 3 * (PmtuRank(c.pmtu) - 1) + (if c.internal then 3 * PmtuRank(DSLSLIM) else 0)
    else if c.trials == MAX_TRIALS then
      1 + 3 * PmtuRank(MIN) + (if c.internal then 3 * PmtuRank(DSLSLIM) else 0)
    else
      1 + if c.internal then MAX_TRIALS - c.trials + 3 * (PmtuRank(DSLSLIM) - 1) else 0
  }

  /** A connection that waits for an answer. */
  predicate Waiting(c: Conn) { c.status != READY && c.timer && 1 <= c.trials <= MAX_TRIALS }

  /** A time-out uses up one of those that are left, and gives up with the last one. */
  lemma TimeoutCounts(c: Conn)
    requires Waiting(c)
    ensures Left(c) >= 1 && (GivesUp(c) <==> Left(c) == 1)
    ensures !GivesUp(c) ==> Waiting(TimedOut(c)) && Left(TimedOut(c)) == Left(c) - 1
  {
    PmtuRankIs(c.pmtu);
    PmtuRankIs(PmtuDecrement(c.pmtu));
  }

  /** The connection after n time-outs without an answer, or None once it has been given up, and how
      often the failure callback was called. */
  function Silent(c: Option<Conn>, n: nat): (r: (Option<Conn>, nat))
    decreases n
  {
    if n == 0 || c == None then (c, 0)
    else if GivesUp(c.value) then (None, 1)
    else Silent(Some(TimedOut(c.value)), n - 1)
  }

  /** Without an answer a connection is given up at exactly the time-out that was left last, with one
      failure callback, and that is at most the eighteenth since the first message was sent. */
  lemma {:induction false} GivenUpInTheEnd(c: Conn, n: nat)
    requires Waiting(c)
    ensures n < Left(c) ==> Silent(Some(c), n).0.Some? && Silent(Some(c), n).1 == 0
    ensures n >= Left(c) ==> Silent(Some(c), n) == (None, 1)
    ensures c.trials == 1 ==> Left(c) <= 18
    decreases n
  {
    TimeoutCounts(c);
    PmtuRankIs(c.pmtu);
    if n > 0 && !GivesUp(c) {
      GivenUpInTheEnd(TimedOut(c), n - 1);
    }
  }

  /** Eighteen time-outs do happen. */
  lemma EighteenTimeouts(c: Conn)
    requires Waiting(c) && c.trials == 1
    ensures Left(c) == 18 <==> c.pmtu == DSL && c.internal
  {}

  // Callbacks

  /** Callbacks are called in the order of their registration, each at most once, and none waits on a
      connection that is ready. */
  predicate CallbacksOk(c: Conn) {
    c.registered == c.fired + c.pending && (c.status == READY ==> c.pending == [])
  }

  predicate AllOk(buf: Buf) {
    forall i :: 0 <= i < |buf| && buf[i].Some? ==> CallbacksOk(buf[i].value)
  }

  /** What was called stays called, and more is called only on a connection that is ready. */
  predicate FiresAt(o: Option<Conn>, c: Conn) {
    var before := if o.Some? then o.value.fired else [];
    before <= c.fired && (before != c.fired ==> c.status == READY)
  }

  predicate FiresWhenReady(buf: Buf, buf': Buf) {
    |buf'| == |buf| && forall i :: 0 <= i < |buf| && buf'[i].Some? ==> FiresAt(buf[i], buf'[i].value)
  }

  lemma UpdateCallbacks(buf: Buf, i: nat, c: Conn)
    requires AllOk(buf) && i < |buf| && CallbacksOk(c) && FiresAt(buf[i], c)
    ensures AllOk(buf[i := Some(c)]) && FiresWhenReady(buf, buf[i := Some(c)])
  {}

  lemma FireOk(c: Conn)
    requires c.registered == c.fired + c.pending && c.status == READY
    ensures CallbacksOk(Fire(c)) && FiresAt(Some(c), Fire(c))
  {}

  /** What can happen to an endpoint. */
  datatype Step =
    | DoOpen(peer: nat, openInternal: bool, cb: Callback)
    | DoReceive(m: Msg, internal: bool)
    | DoTimeout(slot: nat)
    | DoClose(slot: nat)

  predicate Can(buf: Buf, st: Step) {
    match st
    case DoOpen(_, _, _) => true
    case DoReceive(m, _) => Addressed(buf, m)
    case DoTimeout(i) => i < |buf| && buf[i].Some?
    case DoClose(i) => i < |buf|
  }

  function Do(buf: Buf, me: nat, st: Step): Effect
    requires Can(buf, st)
  {
    match st
    case DoOpen(peer, internal, cb) => Open(buf, me, peer, internal, cb)
    case DoReceive(m, internal) => Receive(buf, me, m, internal)
    case DoTimeout(i) => Timeout(buf, me, i)
    case DoClose(i) => Effect(buf[i := None], [])
  }

  /** Every step keeps the order of the callbacks and calls them only when it should. */
  lemma StepCallbacks(buf: Buf, me: nat, st: Step)
    requires AllOk(buf) && Can(buf, st)
    ensures AllOk(Do(buf, me, st).buf) && FiresWhenReady(buf, Do(buf, me, st).buf)
  {
    match st
    case DoOpen(peer, internal, cb) => OpenCallbacks(buf, me, peer, internal, cb);
    case DoReceive(m, internal) =>
      match m.cmd {
        case INVITE => InviteCallbacks(buf, me, m, internal);
        case CONNECT => ConnectCallbacks(buf, me, m);
        case READY => ReadyCallbacks(buf, m);
      }
    case DoTimeout(i) =>
      if !GivesUp(buf[i].value) {
        UpdateCallbacks(buf, i, TimedOut(buf[i].value));
      }
    case DoClose(i) =>
  }

  lemma OpenCallbacks(buf: Buf, me: nat, peer: nat, internal: bool, cb: Callback)
    requires AllOk(buf)
    ensures var buf' := Open(buf, me, peer, internal, cb).buf; AllOk(buf') && FiresWhenReady(buf, buf')
  {
    var i, f := Find(buf, peer), FirstFree(buf);
    if i < |buf| {
      UpdateCallbacks(buf, i, Registered(buf[i].value, cb));
    } else if f < |buf| {
      UpdateCallbacks(buf, f, Scheduled(Invited(peer, internal, cb)));
    }
  }

  lemma InviteCallbacks(buf: Buf, me: nat, m: Msg, internal: bool)
    requires AllOk(buf)
    ensures var buf' := OnInvite(buf, me, m, internal).buf; AllOk(buf') && FiresWhenReady(buf, buf')
  {
    var i, f := Find(buf, m.from), FirstFree(buf);
    if i < |buf| {
      UpdateCallbacks(buf, i, Scheduled(buf[i].value.(external := m.localId, status := CONNECT)));
    } else if f < |buf| {
      UpdateCallbacks(buf, f, Scheduled(Accepted(m, internal).(status := CONNECT)));
    }
  }

  lemma ConnectCallbacks(buf: Buf, me: nat, m: Msg)
    requires AllOk(buf) && 0 <= m.remoteId < |buf|
    ensures var buf' := OnConnect(buf, me, m).buf; AllOk(buf') && FiresWhenReady(buf, buf')
  {
    if buf[m.remoteId].Some? {
      var c := buf[m.remoteId].value;
      if c.status == INVITE {
        var d := Scheduled(c.(external := m.localId, status := READY));
        FireOk(d);
        UpdateCallbacks(buf, m.remoteId, Fire(d));
      } else {
        UpdateCallbacks(buf, m.remoteId, Scheduled(c));
      }
    }
  }

  lemma ReadyCallbacks(buf: Buf, m: Msg)
    requires AllOk(buf) && 0 <= m.remoteId < |buf|
    ensures var buf' := OnReady(buf, m).buf; AllOk(buf') && FiresWhenReady(buf, buf')
  {
    if buf[m.remoteId].Some? && buf[m.remoteId].value.status == CONNECT {
      var d := buf[m.remoteId].value.(status := READY);
      FireOk(d);
      UpdateCallbacks(buf, m.remoteId, Fire(d));
    }
  }

  /** The endpoint after a run. */
  function Run(buf: Buf, me: nat, steps: seq<Step>): Buf {
    if steps == [] then buf
    else
      var b := Run(buf, me, steps[..|steps| - 1]);
      var st := steps[|steps| - 1];
      if Can(b, st) then Do(b, me, st).buf else b
  }

  /** Over every run from empty slots, on every connection the callbacks called are the first of those
      registered, and the rest waits; none waits when the connection is ready. */
  lemma {:induction false} CallbacksAlways(buf: Buf, me: nat, steps: seq<Step>)
    requires forall i :: 0 <= i < |buf| ==> buf[i] == None
    ensures AllOk(Run(buf, me, steps))
  {
    if steps != [] {
      CallbacksAlways(buf, me, steps[..|steps| - 1]);
      var b := Run(buf, me, steps[..|steps| - 1]);
      if Can(b, steps[|steps| - 1]) { StepCallbacks(b, me, steps[|steps| - 1]); }
    }
  }
}
