/** The receiver's table of messages, and what the application gets over whole runs. */
module Delivery {
  import opened Bytes
  import opened Wire
  import opened Counting
  import opened Options
  import opened Fragments
  import opened Reassembly
  import opened Tracking

  type Table = seq<Option<Slot>>

  /** What the data callback gets. */
  datatype Delivered = Delivered(connectionId: int, msgType: int, data: seq<byte>)

  predicate Matches(o: Option<Slot>, h: MsgHeader) {
    o.Some? && o.value.connectionId == h.remoteConId && o.value.seqNum == h.msgSeqNum
  }

  /** The first slot of the message, or the end of the table. */
  function Find(table: Table, h: MsgHeader): (i: nat)
    ensures i <= |table| && (i < |table| ==> Matches(table[i], h))
    ensures forall j :: 0 <= j < i ==> !Matches(table[j], h)
  {
    if table == [] || Matches(table[0], h) then 0 else 1 + Find(table[1..], h)
  }

  /** The first free slot, or the end of the table. */
  function FirstFree(table: Table): (i: nat)
    ensures i <= |table| && (i < |table| ==> table[i] == None)
    ensures forall j :: 0 <= j < i ==> table[j] != None
  {
    if table == [] || table[0] == None then 0 else 1 + FirstFree(table[1..])
  }

  /** Where a packet goes. */
  function Target(table: Table, h: MsgHeader): (i: nat)
    ensures i <= |table|
  {
    if Find(table, h) < |table| then Find(table, h) else FirstFree(table)
  }

  function SlotFor(table: Table, h: MsgHeader): Slot
    requires Target(table, h) < |table|
  {
    if Find(table, h) < |table| then table[Find(table, h)].value else NewSlot(h)
  }

  /** There is a slot for the packet, and the packet fits in its buffer. */
  predicate CanReceive(table: Table, h: MsgHeader, body: seq<byte>) {
    Target(table, h) < |table| && Fits(SlotFor(table, h), h, body)
  }

  /** The message's state once the packet has been taken in. */
  function SlotAfter(table: Table, h: MsgHeader, body: seq<byte>): Slot
    requires CanReceive(table, h, body)
  {
    Taken(SlotFor(table, h), h, body)
  }

  function TableAfter(table: Table, h: MsgHeader, body: seq<byte>): Table
    requires CanReceive(table, h, body)
  {
    table[Target(table, h) := Some(SlotAfter(table, h, body))]
  }

  /** What a packet makes the application get: a message, when it becomes complete. */
  function Result(table: Table, h: MsgHeader, body: seq<byte>): seq<Delivered>
    requires CanReceive(table, h, body)
  {
    var s := SlotAfter(table, h, body);
    if !SlotFor(table, h).complete && s.complete then [Delivered(s.connectionId, s.msgType, Data(s))] else []
  }

  // Runs in which several messages arrive interleaved

  datatype Sending = Sending(m: Message, ps: seq<Packet>)

  /** Packet i of sending a arrives, or the slot of sending a is cleaned up. */
  datatype Item = Item(a: nat, i: nat) | Gone(a: nat)

  /** Messages cut into packets, told apart by connection and number. */
  ghost predicate Proper(sends: seq<Sending>) {
    && (forall a :: 0 <= a < |sends| ==> Fragmentation(sends[a].m, sends[a].ps) && sends[a].m.data != [])
    && (forall a, b :: 0 <= a < b < |sends| ==>
          sends[a].m.receiverId != sends[b].m.receiverId || sends[a].m.seqNum != sends[b].m.seqNum)
  }

  predicate ItemOf(sends: seq<Sending>, it: Item) {
    it.a < |sends| && (if it.Item? then it.i else 0) < |sends[it.a].ps|
  }

  function HeaderOf(sends: seq<Sending>, it: Item): MsgHeader
    requires ItemOf(sends, it)
  {
    sends[it.a].ps[if it.Item? then it.i else 0].header
  }

  ghost predicate AllItems(sends: seq<Sending>, items: seq<Item>) {
    forall k :: 0 <= k < |items| ==> ItemOf(sends, items[k])
  }

  /** The numbers of the packets of sending a that arrived since its slot was last cleaned up, in
      order, repeated ones again. */
  function Numbers(items: seq<Item>, a: nat): seq<nat> {
    if items == [] then []
    else
      var front, it := Numbers(items[..|items| - 1], a), items[|items| - 1];
      if it.a != a then front else if it.Gone? then [] else front + [it.i]
  }

  lemma {:induction false} NumbersSnoc(items: seq<Item>, it: Item, a: nat)
    ensures it.a == a && it.Item? ==> Numbers(items + [it], a) == Numbers(items, a) + [it.i]
    ensures it.a == a && it.Gone? ==> Numbers(items + [it], a) == []
    ensures it.a != a ==> Numbers(items + [it], a) == Numbers(items, a)
  {
    assert (items + [it])[..|items|] == items;
  }

  lemma {:induction false} NumbersNumbered(sends: seq<Sending>, items: seq<Item>, a: nat)
    requires AllItems(sends, items) && a < |sends|
    ensures Numbered(sends[a].ps, Numbers(items, a))
  {
    if items != [] {
      assert ItemOf(sends, items[|items| - 1]);
      NumbersNumbered(sends, items[..|items| - 1], a);
    }
  }

  /** The table, whose slot t belongs to sending owner[t] if that is not negative. */
  ghost predicate Good(sends: seq<Sending>, items: seq<Item>, table: Table, owner: seq<int>) {
    && |owner| == |table| && AllItems(sends, items)
    && (forall t :: 0 <= t < |table| ==> Owned(sends, items, table[t], owner[t]))
    && (forall t, u :: 0 <= t < u < |table| && owner[t] == owner[u] ==> owner[t] < 0)
    && (forall a: nat :: Numbers(items, a) != [] ==> a in owner)
  }

  ghost predicate Owned(sends: seq<Sending>, items: seq<Item>, o: Option<Slot>, a: int) {
    if a < 0 then o == None
    else a < |sends| && o.Some? && Numbers(items, a) != [] && InState(sends[a], Numbers(items, a), o.value)
  }

  ghost predicate AtState(k: int) { true }

  /** The slot is in the state that its message's packets lead to. Only proofs that mention AtState look
      at that. */
  ghost predicate InState(x: Sending, idx: seq<nat>, s: Slot) {
    forall k {:trigger AtState(k)} :: AtState(k) ==>
      Fragmentation(x.m, x.ps) && Numbered(x.ps, idx) && s == Reached(x.m, x.ps, idx)
  }

  lemma {:induction false} OwnedIsReached(sends: seq<Sending>, items: seq<Item>, o: Option<Slot>, a: nat)
    requires Owned(sends, items, o, a)
    ensures Fragmentation(sends[a].m, sends[a].ps) && Numbered(sends[a].ps, Numbers(items, a))
    ensures o == Some(Reached(sends[a].m, sends[a].ps, Numbers(items, a)))
  {
    assert AtState(0);
  }

  lemma OwnedIsFor(sends: seq<Sending>, items: seq<Item>, o: Option<Slot>, a: nat)
    requires Proper(sends) && Owned(sends, items, o, a)
    ensures o.Some? && IsFor(o.value, sends[a].m)
  {
    OwnedIsReached(sends, items, o, a);
    ReachedTracks(sends[a].m, sends[a].ps, Numbers(items, a));
  }

  /** Different slots are for different messages, so a packet finds the slot of its own. */
  lemma {:induction false} FindsOwn(sends: seq<Sending>, items: seq<Item>, table: Table, owner: seq<int>, it: Item)
    requires Proper(sends) && Good(sends, items, table, owner) && ItemOf(sends, it)
    ensures var t := Find(table, HeaderOf(sends, it));
            if t < |table| then owner[t] == it.a else it.a !in owner
  {
    var h := HeaderOf(sends, it);
    assert Carries(sends[it.a].m, sends[it.a].ps[if it.Item? then it.i else 0]);
    forall t | 0 <= t < |table| ensures Matches(table[t], h) <==> owner[t] == it.a {
      assert Owned(sends, items, table[t], owner[t]);
      if owner[t] >= 0 { OwnedIsFor(sends, items, table[t], owner[t]); }
    }
  }

  // Room in the table

  /** The messages that have a slot: those of which a packet arrived since the last cleaning. */
  ghost function Live(sends: seq<Sending>, items: seq<Item>): set<int> {
    set a: int | 0 <= a < |sends| && Numbers(items, a) != []
  }

  lemma LiveSnoc(sends: seq<Sending>, items: seq<Item>, it: Item)
    requires it.Item? && it.a < |sends|
    ensures Live(sends, items + [it]) == Live(sends, items) + {it.a}
  {
    forall a: int | 0 <= a < |sends|
      ensures a in Live(sends, items + [it]) <==> a in Live(sends, items) + {it.a}
    {
      NumbersSnoc(items, it, a);
    }
  }

  predicate Different(owner: seq<int>) {
    forall t, u :: 0 <= t < u < |owner| ==> owner[t] != owner[u]
  }

  lemma {:induction false} Entries(owner: seq<int>) returns (s: set<int>)
    ensures forall a :: a in s <==> a in owner
    ensures |s| <= |owner| && (Different(owner) ==> |s| == |owner|)
  {
    if owner == [] {
      s := {};
    } else {
      var front, last := owner[..|owner| - 1], owner[|owner| - 1];
      assert owner == front + [last];
      var r := Entries(front);
      s := r + {last};
      if Different(owner) {
        assert last !in front;
      }
    }
  }

  /** A packet finds a slot exactly if the table has as many as there are messages that need one. */
  lemma RoomExact(sends: seq<Sending>, items: seq<Item>, table: Table, owner: seq<int>, it: Item)
    requires Proper(sends) && Good(sends, items, table, owner) && it.Item? && ItemOf(sends, it)
    ensures Target(table, HeaderOf(sends, it)) < |table| <==> |Live(sends, items + [it])| <= |table|
  {
    FindsOwn(sends, items, table, owner, it);
    LiveSnoc(sends, items, it);
    var live, free := Live(sends, items + [it]), FirstFree(table);
    if it.a in owner {
      var s := Entries(owner);
      SubsetSize(live, s);
    } else if free < |table| {
      assert Owned(sends, items, table[free], owner[free]);
      InsteadOf(sends, items, owner, free, it.a);
      var s := Entries(owner[free := it.a]);
      SubsetSize(live, s);
    } else {
      NoneFree(sends, items, table, owner);
      SubsetSize(Live(sends, items), live - {it.a});
    }
  }

  /** In a full table each slot is needed. */
  lemma {:induction false} NoneFree(sends: seq<Sending>, items: seq<Item>, table: Table, owner: seq<int>)
    requires Good(sends, items, table, owner) && FirstFree(table) == |table|
    ensures |Live(sends, items)| >= |table| && forall a: nat :: a in Live(sends, items) ==> a in owner
  {
    forall t | 0 <= t < |owner| ensures owner[t] in Live(sends, items) {
      assert Owned(sends, items, table[t], owner[t]);
    }
    var s := Entries(owner);
    SubsetSize(s, Live(sends, items));
  }

  lemma {:induction false} InsteadOf(sends: seq<Sending>, items: seq<Item>, owner: seq<int>, t: nat, b: nat)
    requires t < |owner| && owner[t] < 0 && forall a: nat :: Numbers(items, a) != [] ==> a in owner
    ensures forall a :: a in Live(sends, items) + {b} ==> a in owner[t := b]
  {
    forall a | a in Live(sends, items) + {b} ensures a in owner[t := b] {
      if a == b {
        assert owner[t := b][t] == b;
      } else {
        var u :| 0 <= u < |owner| && owner[u] == a;
        assert owner[t := b][u] == a;
      }
    }
  }

  /** One packet, new or repeated. */
  lemma GoodStep(sends: seq<Sending>, items: seq<Item>, table: Table, owner: seq<int>, it: Item)
    returns (owner': seq<int>)
    requires Proper(sends) && Good(sends, items, table, owner) && it.Item? && ItemOf(sends, it)
    requires |Live(sends, items + [it])| <= |table|
    ensures var p := sends[it.a].ps[it.i];
            && CanReceive(table, p.header, Body(p))
            && Good(sends, items + [it], TableAfter(table, p.header, Body(p)), owner')
            && AllItems(sends, items + [it])
            && Result(table, p.header, Body(p)) == Completion(sends, items, it)
            && owner' == owner[Target(table, p.header) := it.a]
  {
    var p := sends[it.a].ps[it.i];
    var m, ps, idx := sends[it.a].m, sends[it.a].ps, Numbers(items, it.a);
    NumbersNumbered(sends, items, it.a);
    NumbersNumbered(sends, items + [it], it.a);
    NumbersSnoc(items, it, it.a);
    RoomExact(sends, items, table, owner, it);
    SlotIsReached(sends, items, table, owner, it);
    ReachedSnoc(m, ps, idx, it.i);
    CompletesNow(m, ps, idx, it.i);
    ReachedTracks(m, ps, idx + [it.i]);
    assert InState(sends[it.a], idx + [it.i], SlotAfter(table, p.header, Body(p)));
    var t := Target(table, p.header);
    owner' := owner[t := it.a];
    FindsOwn(sends, items, table, owner, it);
    GoodUpdate(sends, items, table, owner, it, t, SlotAfter(table, p.header, Body(p)));
  }

  /** A packet goes to its message's slot, or to a free one, in the state its predecessors lead to. */
  lemma {:induction false} SlotIsReached(sends: seq<Sending>, items: seq<Item>, table: Table, owner: seq<int>, it: Item)
    requires Proper(sends) && Good(sends, items, table, owner) && it.Item? && ItemOf(sends, it)
    requires Target(table, HeaderOf(sends, it)) < |table|
    requires Numbered(sends[it.a].ps, Numbers(items, it.a))
    ensures var h := sends[it.a].ps[it.i].header;
            && SlotFor(table, h) == Reached(sends[it.a].m, sends[it.a].ps, Numbers(items, it.a))
            && (owner[Target(table, h)] == it.a || (owner[Target(table, h)] < 0 && it.a !in owner))
  {
    assert AtState(0);
    var h := sends[it.a].ps[it.i].header;
    FindsOwn(sends, items, table, owner, it);
    if it.a !in owner {
      ReachedNone(sends[it.a].m, sends[it.a].ps, it.i);
      assert Owned(sends, items, table[FirstFree(table)], owner[FirstFree(table)]);
    } else {
      assert Owned(sends, items, table[Find(table, h)], it.a);
    }
  }

  lemma GoodUpdate(sends: seq<Sending>, items: seq<Item>, table: Table, owner: seq<int>, it: Item, t: nat, s: Slot)
    requires Good(sends, items, table, owner) && it.Item? && ItemOf(sends, it) && t < |table|
    requires owner[t] == it.a || (owner[t] < 0 && it.a !in owner)
    requires Owned(sends, items + [it], Some(s), it.a)
    ensures Good(sends, items + [it], table[t := Some(s)], owner[t := it.a])
  {
    var table', owner', items' := table[t := Some(s)], owner[t := it.a], items + [it];
    forall u | 0 <= u < |table| ensures Owned(sends, items', table'[u], owner'[u]) {
      if u != t {
        assert Owned(sends, items, table[u], owner[u]);
        if owner[u] >= 0 { NumbersSnoc(items, it, owner[u]); }
      }
    }
    forall a: nat | Numbers(items', a) != [] ensures a in owner' {
      NumbersSnoc(items, it, a);
      if a == it.a {
        assert owner'[t] == a;
      } else {
        var u :| 0 <= u < |owner| && owner[u] == a;
        assert owner'[u] == a;
      }
    }
  }

  /** The table without the message's slot. */
  function Cleaned(table: Table, h: MsgHeader): Table {
    var t := Find(table, h);
    if t < |table| then table[t := None] else table
  }

  /** The slot of one message is cleaned up; the others stay. */
  lemma GoodGone(sends: seq<Sending>, items: seq<Item>, table: Table, owner: seq<int>, it: Item)
    returns (owner': seq<int>)
    requires Proper(sends) && Good(sends, items, table, owner) && it.Gone? && ItemOf(sends, it)
    ensures Good(sends, items + [it], Cleaned(table, HeaderOf(sends, it)), owner')
    ensures var t := Find(table, HeaderOf(sends, it)); owner' == if t < |table| then owner[t := -1] else owner
  {
    FindsOwn(sends, items, table, owner, it);
    var t, table', items' := Find(table, HeaderOf(sends, it)), Cleaned(table, HeaderOf(sends, it)), items + [it];
    owner' := if t < |table| then owner[t := -1] else owner;
    forall u | 0 <= u < |table| ensures Owned(sends, items', table'[u], owner'[u]) {
      if u != t {
        assert Owned(sends, items, table[u], owner[u]);
        if owner[u] >= 0 { NumbersSnoc(items, it, owner[u]); }
      }
    }
    forall a: nat | Numbers(items', a) != [] ensures a in owner' {
      NumbersSnoc(items, it, a);
      var u :| 0 <= u < |owner| && owner[u] == a;
      assert owner'[u] == a;
    }
  }

  /** What the application should get when a packet arrives: the message, if that makes it count as
      many bytes as it has, with zeros where nothing arrived. */
  ghost function Completion(sends: seq<Sending>, items: seq<Item>, it: Item): seq<Delivered>
    requires AllItems(sends, items + [it])
  {
    assert ItemOf(sends, (items + [it])[|items|]);
    NumbersNumbered(sends, items + [it], it.a);
    var m, ps, idx := sends[it.a].m, sends[it.a].ps, Numbers(items + [it], it.a);
    if it.Item? && SumLens(ps, idx) == |m.data| then [Delivered(m.receiverId, m.msgType, Masked(m, ps, idx))] else []
  }

  /** A message becomes complete with the packet that makes it count as many bytes as it has. */
  lemma {:induction false} CompletesNow(m: Message, ps: seq<Packet>, idx: seq<nat>, i: nat)
    requires Fragmentation(m, ps) && m.data != [] && Numbered(ps, idx) && i < |ps| && Numbered(ps, idx + [i])
    ensures var now := SumLens(ps, idx + [i]) == |m.data|;
            && (!Reached(m, ps, idx).complete && Reached(m, ps, idx + [i]).complete <==> now)
            && (now ==> Data(Reached(m, ps, idx + [i])) == Masked(m, ps, idx + [i]))
  {
    SumSnoc(ps, idx, i);
    assert ps[i].payload != [];
    CompleteAfter(m, ps, idx, i);
    if SumLens(ps, idx + [i]) == |m.data| {
      CompleteIfEnough(m, ps, idx);
      CompleteIfEnough(m, ps, idx + [i]);
      assert (idx + [i])[..|idx| + 1] == idx + [i];
      assert EnoughBytes(m, ps, idx + [i], |idx| + 1);
      CompleteHolds(m, ps, idx + [i], |idx| + 1);
    }
  }

  lemma {:induction false} CompleteAfter(m: Message, ps: seq<Packet>, idx: seq<nat>, i: nat)
    requires Fragmentation(m, ps) && m.data != [] && Numbered(ps, idx) && i < |ps| && Numbered(ps, idx + [i])
    ensures !Reached(m, ps, idx).complete && Reached(m, ps, idx + [i]).complete ==> SumLens(ps, idx + [i]) == |m.data|
  {
    CompleteUntil(m, ps, idx);
    CompleteUntil(m, ps, idx + [i]);
    assert (idx + [i])[..|idx|] == idx;
  }

  datatype State = State(table: Table, log: seq<Delivered>)

  /** One packet; one that cannot be received would change nothing. */
  function Next(st: State, h: MsgHeader, body: seq<byte>): State {
    if CanReceive(st.table, h, body) then
      State(TableAfter(st.table, h, body), st.log + Result(st.table, h, body))
    else st
  }

  /** One packet, or one cleaning. */
  function NextItem(sends: seq<Sending>, st: State, it: Item): State
    requires ItemOf(sends, it)
  {
    if it.Gone? then st.(table := Cleaned(st.table, HeaderOf(sends, it)))
    else Next(st, HeaderOf(sends, it), Body(sends[it.a].ps[it.i]))
  }

  /** The state after the packets arrived at an empty table. */
  ghost function Run(sends: seq<Sending>, items: seq<Item>, size: nat): State
    requires AllItems(sends, items)
  {
    if items == [] then State(seq(size, _ => None), [])
    else
      var k := |items| - 1;
      assert ItemOf(sends, items[k]);
      NextItem(sends, Run(sends, items[..k], size), items[k])
  }

  /** What the application should get over a run. */
  ghost function Deliveries(sends: seq<Sending>, items: seq<Item>): seq<Delivered>
    requires AllItems(sends, items)
  {
    if items == [] then []
    else
      var front, it := items[..|items| - 1], items[|items| - 1];
      assert items == front + [it];
      Deliveries(sends, front) + Completion(sends, front, it)
  }

  /** One packet or one cleaning. */
  lemma GoodNext(sends: seq<Sending>, items: seq<Item>, st: State, owner: seq<int>, it: Item) returns (owner': seq<int>)
    requires Proper(sends) && Good(sends, items, st.table, owner) && ItemOf(sends, it)
    requires |Live(sends, items + [it])| <= |st.table|
    ensures AllItems(sends, items + [it]) && Good(sends, items + [it], NextItem(sends, st, it).table, owner')
    ensures NextItem(sends, st, it).log == st.log + Completion(sends, items, it)
  {
    if it.Gone? {
      owner' := GoodGone(sends, items, st.table, owner, it);
    } else {
      owner' := GoodStep(sends, items, st.table, owner, it);
    }
  }

  /** At no time do more messages need a slot than there are. */
  ghost predicate SlotsSuffice(sends: seq<Sending>, items: seq<Item>, size: nat) {
    forall n :: 0 <= n <= |items| ==> |Live(sends, items[..n])| <= size
  }

  lemma SlotsFront(sends: seq<Sending>, items: seq<Item>, size: nat)
    requires SlotsSuffice(sends, items, size) && items != []
    ensures SlotsSuffice(sends, items[..|items| - 1], size) && |Live(sends, items)| <= size
  {
    var front := items[..|items| - 1];
    assert items[..|items|] == items;
    forall n | 0 <= n <= |front| ensures |Live(sends, front[..n])| <= size { assert front[..n] == items[..n]; }
  }

  /** Over every run, whatever packets of the messages arrive, how often and in whatever order, and
      whenever slots are cleaned up, each slot is in the state that its message's packets lead to, and
      the application gets what it should. */
  lemma {:induction false} RunDelivers(sends: seq<Sending>, items: seq<Item>, size: nat) returns (owner: seq<int>)
    requires Proper(sends) && AllItems(sends, items) && SlotsSuffice(sends, items, size)
    ensures Good(sends, items, Run(sends, items, size).table, owner) && |owner| == size
    ensures Run(sends, items, size).log == Deliveries(sends, items)
  {
    if items == [] {
      owner := seq(size, _ => -1);
    } else {
      var front, it := items[..|items| - 1], items[|items| - 1];
      assert items == front + [it] && ItemOf(sends, it);
      SlotsFront(sends, items, size);
      owner := RunDelivers(sends, front, size);
      owner := GoodNext(sends, front, Run(sends, front, size), owner, it);
    }
  }

  /** The sendings in the order in which they are delivered. */
  ghost function Finished(sends: seq<Sending>, items: seq<Item>): (done: seq<nat>)
    requires AllItems(sends, items)
    ensures forall k :: 0 <= k < |done| ==> done[k] < |sends|
  {
    if items == [] then []
    else
      var front, it := items[..|items| - 1], items[|items| - 1];
      assert items == front + [it] && ItemOf(sends, it);
      Finished(sends, front) + if Completion(sends, front, it) != [] then [it.a] else []
  }

  lemma {:induction false} CompletionIff(sends: seq<Sending>, items: seq<Item>, it: Item)
    requires Proper(sends) && AllItems(sends, items) && AllItems(sends, items + [it]) && it.Item? && ItemOf(sends, it)
    ensures var ps, idx, all := sends[it.a].ps, Numbers(items, it.a), Numbers(items + [it], it.a);
            && Numbered(ps, idx) && Numbered(ps, all)
            && (Completion(sends, items, it) != [] <==>
                !Reached(sends[it.a].m, ps, idx).complete && Reached(sends[it.a].m, ps, all).complete)
            && (Reached(sends[it.a].m, ps, idx).complete ==> Reached(sends[it.a].m, ps, all).complete)
  {
    NumbersNumbered(sends, items, it.a);
    NumbersNumbered(sends, items + [it], it.a);
    NumbersSnoc(items, it, it.a);
    CompletesNow(sends[it.a].m, sends[it.a].ps, Numbers(items, it.a), it.i);
    ReachedSnoc(sends[it.a].m, sends[it.a].ps, Numbers(items, it.a), it.i);
  }

  /** The slot of the message is there and complete. */
  ghost predicate Complete(sends: seq<Sending>, items: seq<Item>, a: nat)
    requires Proper(sends) && AllItems(sends, items) && a < |sends|
  {
    NumbersNumbered(sends, items, a);
    Reached(sends[a].m, sends[a].ps, Numbers(items, a)).complete
  }

  /** How often the message's slot was cleaned up when it was complete. */
  ghost function Past(sends: seq<Sending>, items: seq<Item>, a: nat): nat
    requires Proper(sends) && AllItems(sends, items) && a < |sends|
  {
    if items == [] then 0
    else
      var front, it := items[..|items| - 1], items[|items| - 1];
      Past(sends, front, a) + if it == Gone(a) && Complete(sends, front, a) then 1 else 0
  }

  /** A message is delivered once in each life of its slot in which it becomes complete: exactly if
      some first part of the arrivals has as many bytes as it has, and never again before the slot is
      cleaned up. */
  lemma {:induction false} FinishedOnce(sends: seq<Sending>, items: seq<Item>, a: nat)
    requires Proper(sends) && AllItems(sends, items) && a < |sends|
    ensures multiset(Finished(sends, items))[a] == Past(sends, items, a) + if Complete(sends, items, a) then 1 else 0
  {
    if items == [] {
      NothingComplete(sends, items, a);
    } else {
      var front, it := items[..|items| - 1], items[|items| - 1];
      assert items == front + [it] && ItemOf(sends, it);
      FinishedOnce(sends, front, a);
      FinishedStep(sends, front, it, a);
      LifeStep(sends, front, it, a);
      PastSnoc(sends, front, it, a);
    }
  }

  /** A step that is not of this message changes nothing; a packet of it delivers it only if it
      completes it; cleaning its slot makes it incomplete. */
  lemma {:induction false} FinishedStep(sends: seq<Sending>, items: seq<Item>, it: Item, a: nat)
    requires Proper(sends) && AllItems(sends, items) && AllItems(sends, items + [it]) && ItemOf(sends, it) && a < |sends|
    ensures var done, done' := Finished(sends, items), Finished(sends, items + [it]);
            var was, is_ := Complete(sends, items, a), Complete(sends, items + [it], a);
            if it == Gone(a) then done' == done
            else multiset(done')[a] == multiset(done)[a] + if is_ && !was then 1 else 0
  {
    assert (items + [it])[..|items|] == items;
    NumbersSnoc(items, it, a);
    CountSnoc(Finished(sends, items), it.a, a);
    if it.Item? { CompletionIff(sends, items, it); }
  }

  lemma LifeStep(sends: seq<Sending>, items: seq<Item>, it: Item, a: nat)
    requires Proper(sends) && AllItems(sends, items) && AllItems(sends, items + [it]) && ItemOf(sends, it) && a < |sends|
    ensures if it == Gone(a) then !Complete(sends, items + [it], a)
            else Complete(sends, items, a) ==> Complete(sends, items + [it], a)
  {
    NumbersSnoc(items, it, a);
    if it == Gone(a) {
      NothingComplete(sends, items + [it], a);
    } else if it.a == a {
      CompletionIff(sends, items, it);
    }
  }

  lemma {:induction false} PastSnoc(sends: seq<Sending>, items: seq<Item>, it: Item, a: nat)
    requires Proper(sends) && AllItems(sends, items) && AllItems(sends, items + [it]) && a < |sends|
    ensures Past(sends, items + [it], a) == Past(sends, items, a) + if it == Gone(a) && Complete(sends, items, a) then 1 else 0
  {
    assert (items + [it])[..|items|] == items;
  }

  lemma {:induction false} NothingComplete(sends: seq<Sending>, items: seq<Item>, a: nat)
    requires Proper(sends) && AllItems(sends, items) && a < |sends| && Numbers(items, a) == []
    ensures !Complete(sends, items, a)
  {
    ReachedTracks(sends[a].m, sends[a].ps, []);
  }

  lemma CountSnoc(s: seq<nat>, x: nat, a: nat)
    ensures multiset(s + [x])[a] == multiset(s)[a] + if x == a then 1 else 0
    ensures s + [] == s
  {}

  // Runs without repetition

  /** Each packet arrives at most once. */
  ghost predicate OnceEach(sends: seq<Sending>, items: seq<Item>) {
    AllItems(sends, items) && forall j, k :: 0 <= j < k < |items| && items[j].Item? ==> items[j] != items[k]
  }

  lemma {:induction false} NumbersOnce(items: seq<Item>, a: nat)
    requires forall j, k :: 0 <= j < k < |items| && items[j].Item? ==> items[j] != items[k]
    ensures NoRepeat(Numbers(items, a)) && forall i :: i in Numbers(items, a) ==> Item(a, i) in items
    ensures Gone(a) !in items ==> forall i :: Item(a, i) in items ==> i in Numbers(items, a)
  {
    if items != [] {
      var front, it := items[..|items| - 1], items[|items| - 1];
      assert items == front + [it];
      NumbersOnce(front, a);
      assert it.Item? ==> it !in front;
    }
  }

  /** What the application gets for a list of sendings: their bytes. */
  function Messages(sends: seq<Sending>, done: seq<nat>): seq<Delivered>
    requires forall k :: 0 <= k < |done| ==> done[k] < |sends|
  {
    seq(|done|, k requires 0 <= k < |done| =>
      Delivered(sends[done[k]].m.receiverId, sends[done[k]].m.msgType, sends[done[k]].m.data))
  }

  lemma CompletionWhole(sends: seq<Sending>, items: seq<Item>, it: Item)
    requires Proper(sends) && OnceEach(sends, items + [it]) && ItemOf(sends, it)
    ensures Completion(sends, items, it) ==
            var m := sends[it.a].m;
            if Completion(sends, items, it) == [] then [] else [Delivered(m.receiverId, m.msgType, m.data)]
  {
    NumbersOnce(items + [it], it.a);
    NumbersNumbered(sends, items + [it], it.a);
    var m, ps, idx := sends[it.a].m, sends[it.a].ps, Numbers(items + [it], it.a);
    if SumLens(ps, idx) == |m.data| {
      AllHeardExact(m, ps, idx);
      Whole(m, ps, idx);
    }
  }

  lemma MessagesSnoc(sends: seq<Sending>, done: seq<nat>, a: nat)
    requires a < |sends| && forall k :: 0 <= k < |done| ==> done[k] < |sends|
    ensures Messages(sends, done + [a]) ==
            Messages(sends, done) + [Delivered(sends[a].m.receiverId, sends[a].m.msgType, sends[a].m.data)]
    ensures done + [] == done
  {}

  /** Reassembly inverts fragmentation: if each packet arrives at most once, in any order and
      interleaved, the application gets the bytes that were sent. */
  lemma {:induction false} DeliveredWhole(sends: seq<Sending>, items: seq<Item>)
    requires Proper(sends) && OnceEach(sends, items)
    ensures Deliveries(sends, items) == Messages(sends, Finished(sends, items))
  {
    if items != [] {
      var front, it := items[..|items| - 1], items[|items| - 1];
      assert items == front + [it] && ItemOf(sends, it);
      DeliveredWhole(sends, front);
      CompletionWhole(sends, front, it);
      MessagesSnoc(sends, Finished(sends, front), it.a);
    }
  }

  /** All packets of the message arrived since its slot was last cleaned up. */
  ghost predicate AllArrived(sends: seq<Sending>, items: seq<Item>, a: nat)
    requires a < |sends|
  {
    forall i :: 0 <= i < |sends[a].ps| ==> i in Numbers(items, a)
  }

  lemma CompleteIsAll(sends: seq<Sending>, items: seq<Item>, a: nat)
    requires Proper(sends) && OnceEach(sends, items) && a < |sends|
    ensures Complete(sends, items, a) <==> AllArrived(sends, items, a)
  {
    var m, ps, idx := sends[a].m, sends[a].ps, Numbers(items, a);
    NumbersNumbered(sends, items, a);
    NumbersOnce(items, a);
    CompleteWhole(m, ps, idx);
    if All(Heard(|ps|, idx)) {
      forall i | 0 <= i < |ps| ensures i in idx { assert Heard(|ps|, idx)[i]; }
    }
    if forall i :: 0 <= i < |ps| ==> i in idx {
      assert All(Heard(|ps|, idx));
    }
  }

  /** A message that was complete before is so still, or was so when its slot was cleaned up. */
  lemma {:induction false} PastOrNow(sends: seq<Sending>, items: seq<Item>, a: nat, n: nat)
    requires Proper(sends) && AllItems(sends, items) && a < |sends| && n <= |items| && Complete(sends, items[..n], a)
    ensures Past(sends, items, a) > 0 || Complete(sends, items, a)
  {
    if n == |items| {
      assert items[..n] == items;
    } else {
      var front, it := items[..|items| - 1], items[|items| - 1];
      assert items == front + [it] && ItemOf(sends, it);
      assert front[..n] == items[..n];
      PastOrNow(sends, front, a, n);
      LifeStep(sends, front, it, a);
      PastSnoc(sends, front, it, a);
    }
  }

  lemma {:induction false} PastWasComplete(sends: seq<Sending>, items: seq<Item>, a: nat) returns (n: nat)
    requires Proper(sends) && AllItems(sends, items) && a < |sends| && Past(sends, items, a) > 0
    ensures n <= |items| && Complete(sends, items[..n], a)
  {
    var front, it := items[..|items| - 1], items[|items| - 1];
    assert items == front + [it];
    PastSnoc(sends, front, it, a);
    if Past(sends, front, a) > 0 {
      n := PastWasComplete(sends, front, a);
      assert front[..n] == items[..n];
    } else {
      n := |front|;
    }
  }

  /** A message whose slot was complete when it was cleaned up does not become complete again. */
  lemma {:induction false} PastOnce(sends: seq<Sending>, items: seq<Item>, a: nat)
    requires Proper(sends) && OnceEach(sends, items) && a < |sends|
    ensures Past(sends, items, a) <= 1
    ensures Past(sends, items, a) == 1 ==> Item(a, 0) in items && 0 !in Numbers(items, a) && !Complete(sends, items, a)
  {
    if items != [] {
      var front, it := items[..|items| - 1], items[|items| - 1];
      assert items == front + [it] && ItemOf(sends, it);
      PastOnce(sends, front, a);
      PastOnceStep(sends, front, it, a);
    }
  }

  lemma {:induction false} PastOnceStep(sends: seq<Sending>, items: seq<Item>, it: Item, a: nat)
    requires Proper(sends) && OnceEach(sends, items) && OnceEach(sends, items + [it]) && a < |sends|
    requires Past(sends, items, a) <= 1
    requires Past(sends, items, a) == 1 ==> Item(a, 0) in items && 0 !in Numbers(items, a) && !Complete(sends, items, a)
    ensures var now := Past(sends, items + [it], a);
            && now <= 1
            && (now == 1 ==> Item(a, 0) in items + [it] && 0 !in Numbers(items + [it], a)
                             && !Complete(sends, items + [it], a))
  {
    assert (items + [it])[..|items|] == items;
    CompleteIsAll(sends, items + [it], a);
    NumbersSnoc(items, it, a);
    assert |sends[a].ps| > 0;
    if Complete(sends, items, a) {
      NumbersOnce(items, a);
      CompleteIsAll(sends, items, a);
    }
    assert it.Item? ==> it !in items;
  }

  /** Then a message is delivered at most once, and exactly if all its packets arrive before its slot is
      cleaned up. */
  lemma {:induction false} FinishedWhole(sends: seq<Sending>, items: seq<Item>, a: nat)
    requires Proper(sends) && OnceEach(sends, items) && a < |sends|
    ensures multiset(Finished(sends, items))[a] <= 1
    ensures a in Finished(sends, items) <==> exists n :: 0 <= n <= |items| && AllArrived(sends, items[..n], a)
    ensures Gone(a) !in items ==>
      (a in Finished(sends, items) <==> forall i :: 0 <= i < |sends[a].ps| ==> Item(a, i) in items)
  {
    FinishedOnce(sends, items, a);
    PastOnce(sends, items, a);
    EverComplete(sends, items, a);
    if Gone(a) !in items {
      NeverPast(sends, items, a);
      NumbersOnce(items, a);
      CompleteIsAll(sends, items, a);
    }
  }

  lemma {:induction false} EverComplete(sends: seq<Sending>, items: seq<Item>, a: nat)
    requires Proper(sends) && OnceEach(sends, items) && a < |sends|
    ensures Past(sends, items, a) > 0 || Complete(sends, items, a) <==>
            exists n :: 0 <= n <= |items| && AllArrived(sends, items[..n], a)
  {
    if Past(sends, items, a) > 0 {
      var n := PastWasComplete(sends, items, a);
      CompleteIsAll(sends, items[..n], a);
    } else if Complete(sends, items, a) {
      assert items[..|items|] == items;
      CompleteIsAll(sends, items, a);
    }
    forall n | 0 <= n <= |items| && AllArrived(sends, items[..n], a)
      ensures Past(sends, items, a) > 0 || Complete(sends, items, a)
    {
      CompleteIsAll(sends, items[..n], a);
      PastOrNow(sends, items, a, n);
    }
  }

  lemma {:induction false} NeverPast(sends: seq<Sending>, items: seq<Item>, a: nat)
    requires Proper(sends) && AllItems(sends, items) && a < |sends| && Gone(a) !in items
    ensures Past(sends, items, a) == 0
  {
    if items != [] { NeverPast(sends, items[..|items| - 1], a); }
  }

  lemma CompleteWhole(m: Message, ps: seq<Packet>, idx: seq<nat>)
    requires Fragmentation(m, ps) && m.data != [] && Numbered(ps, idx) && NoRepeat(idx)
    ensures Reached(m, ps, idx).complete <==> All(Heard(|ps|, idx))
  {
    SumHeard(m, ps, idx);
    GotAll(m, ps, Heard(|ps|, idx));
    CompleteIfEnough(m, ps, idx);
  }
}
