/** Reassembly of the two packet streams of a uTP connection: add_segment of utp_tracer.py.

    Packets carry 16-bit sequence numbers (uTP, BEP 29). The ghost state gives every packet the unbounded number that
    its sender had in mind, and says which packets have arrived.
 */
module UtpReassembly {
  import opened Powers
  import opened SerialNumbers

  datatype Direction = FromInitiator | FromAccepter

  /** One value for each direction. */
  datatype Both<T> = Both(initiator: T, accepter: T) {
    function At(d: Direction): T {
      if d.FromInitiator? then initiator else accepter
    }

    function With(d: Direction, v: T): (r: Both<T>)
      ensures forall e :: r.At(e) == if e == d then v else At(e)
    {
      if d.FromInitiator? then Both(v, accepter) else Both(initiator, v)
    }
  }

  type Payload = seq<nat>

  datatype Packet = Packet(payload: Payload, number: Serial, direction: Direction)

  datatype Segment = Segment(direction: Direction, payload: Payload)

  const BITS: nat := 16

  lemma Range()
    ensures Pow2(16) == 0x1_0000 && Pow2(15) == 0x8000
  {
    assert Pow2(4) == 16;
    assert Pow2(8) == 256;
    assert Pow2(12) == 4096;
  }

  /** The payloads delivered in one direction, in the order of delivery. */
  ghost function PayloadsOf(d: Direction, log: seq<Segment>): seq<Payload> {
    if log == [] then []
    else
      var rest := PayloadsOf(d, log[..|log| - 1]);
      if log[|log| - 1].direction == d then rest + [log[|log| - 1].payload] else rest
  }

  lemma PayloadsOfAppend(d: Direction, log: seq<Segment>, s: Segment)
    ensures PayloadsOf(d, log + [s]) ==
            if s.direction == d then PayloadsOf(d, log) + [s.payload] else PayloadsOf(d, log)
  {
    assert (log + [s])[..|log|] == log;
  }

  /** The payloads that the sender numbered a, a + 1, ..., b - 1. */
  ghost function Stream(sent: (Direction, int) -> Payload, d: Direction, a: int, b: int): seq<Payload>
    requires a <= b
  {
    seq(b - a, i requires 0 <= i < b - a => sent(d, a + i))
  }

  lemma StreamExtends(sent: (Direction, int) -> Payload, d: Direction, a: int, b: int)
    requires a <= b
    ensures Stream(sent, d, a, b + 1) == Stream(sent, d, a, b) + [sent(d, b)]
  {
  }

  // ----- the state of a flow, as values -----

  /** The fields that delivering a packet changes. */
  datatype Progress = Progress(seq0: Serial, seq1: Serial, delivered: seq<Segment>) {
    function NumberOf(d: Direction): Serial {
      if d.FromInitiator? then seq0 else seq1
    }
  }

  /** new_segment, and the step of the sequence number after it. */
  function Deliver(c: Progress, d: Direction, payload: Payload): Progress
    requires c.NumberOf(d).bits == BITS
  {
    var log := c.delivered + [Segment(d, payload)];
    if d.FromInitiator? then Progress(Plus(c.seq0, 1).result, c.seq1, log)
    else Progress(c.seq0, Plus(c.seq1, 1).result, log)
  }

  /** The two senders, the packets that have arrived, and the pending list, entry i of which holds packet keys[i]. */
  datatype Traffic = Traffic(sent: (Direction, int) -> Payload, first: Both<int>, received: Both<set<int>>,
                                   pending: seq<Packet>, keys: seq<int>)

  /** What was delivered in direction d is what was sent there, without gap, from the first packet up to next. */
  ghost predicate InOrder(t: Traffic, c: Progress, next: Both<int>, d: Direction) {
    && t.first.At(d) <= next.At(d)
    && c.NumberOf(d) == Of(next.At(d), BITS)
    && PayloadsOf(d, c.delivered) == Stream(t.sent, d, t.first.At(d), next.At(d))
    && forall k :: t.first.At(d) <= k < next.At(d) ==> k in t.received.At(d)
  }

  ghost predicate BothInOrder(t: Traffic, c: Progress, next: Both<int>) {
    forall d :: InOrder(t, c, next, d)
  }

  /** Entry i of the pending list holds a packet that has arrived, with a number from lo on within half the range. */
  ghost predicate PendingOk(t: Traffic, lo: Both<int>, i: nat)
    requires i < |t.pending| == |t.keys|
  {
    var d := t.pending[i].direction;
    && lo.At(d) <= t.keys[i] <= lo.At(d) + 0x8000
    && t.pending[i].number == Of(t.keys[i], BITS) && t.pending[i].payload == t.sent(d, t.keys[i])
    && t.keys[i] in t.received.At(d)
  }

  ghost predicate IsPending(t: Traffic, d: Direction, k: int)
    requires |t.pending| == |t.keys|
  {
    exists i :: 0 <= i < |t.pending| && t.pending[i].direction == d && t.keys[i] == k
  }

  /** The packets that have arrived, with numbers from lo on, are in the list, and nothing else is. */
  ghost predicate PendingComplete(t: Traffic, lo: Both<int>) {
    && |t.pending| == |t.keys|
    && (forall i :: 0 <= i < |t.pending| ==> PendingOk(t, lo, i))
    && (forall d, k :: k in t.received.At(d) && k >= lo.At(d) ==> IsPending(t, d, k))
  }

  /** Between two calls the next packet of each direction is missing. */
  ghost predicate Settled(t: Traffic, c: Progress, next: Both<int>) {
    && BothInOrder(t, c, next)
    && (forall d :: next.At(d) !in t.received.At(d))
    && PendingComplete(t, next)
  }

  lemma DeliverInOrder(t: Traffic, c: Progress, next: Both<int>, d: Direction, e: Direction)
    requires InOrder(t, c, next, d) && InOrder(t, c, next, e) && next.At(d) in t.received.At(d)
    ensures InOrder(t, Deliver(c, d, t.sent(d, next.At(d))), next.With(d, next.At(d) + 1), e)
  {
    PlusOne(next.At(d), BITS);
    PayloadsOfAppend(e, c.delivered, Segment(d, t.sent(d, next.At(d))));
    StreamExtends(t.sent, d, t.first.At(d), next.At(d));
  }

  lemma DeliverKeeps(t: Traffic, c: Progress, next: Both<int>, d: Direction)
    requires BothInOrder(t, c, next) && next.At(d) in t.received.At(d)
    ensures c.NumberOf(d).bits == BITS
    ensures BothInOrder(t, Deliver(c, d, t.sent(d, next.At(d))), next.With(d, next.At(d) + 1))
  {
    assert InOrder(t, c, next, d);
    var c', next' := Deliver(c, d, t.sent(d, next.At(d))), next.With(d, next.At(d) + 1);
    forall e ensures InOrder(t, c', next', e) {
      DeliverInOrder(t, c, next, d, e);
    }
  }

  // ----- draining the pending list -----

  ghost predicate RemovedOk(r: (Serial, Direction), lo: Both<int>, next: Both<int>) {
    exists j :: lo.At(r.1) <= j < next.At(r.1) && r.0 == Of(j, BITS)
  }

  /** The removed list names exactly the packets delivered since the two directions stood at lo. */
  ghost predicate RemovedExactly(removed: seq<(Serial, Direction)>, lo: Both<int>, next: Both<int>) {
    && (forall d, j :: lo.At(d) <= j < next.At(d) ==> (Of(j, BITS), d) in removed)
    && (forall i :: 0 <= i < |removed| ==> RemovedOk(removed[i], lo, next))
  }

  /** What holds while the pending list is being drained; lo is where the two directions stood at the beginning. */
  ghost predicate Draining(t: Traffic, c: Progress, next: Both<int>, lo: Both<int>, removed: seq<(Serial, Direction)>) {
    && BothInOrder(t, c, next)
    && (forall d :: lo.At(d) <= next.At(d) <= lo.At(d) + 0x8001)
    && PendingComplete(t, lo)
    && RemovedExactly(removed, lo, next)
  }

  /** A pending packet has the awaited sequence number just when it is the awaited packet. */
  lemma AwaitedIsNext(t: Traffic, c: Progress, next: Both<int>, lo: Both<int>, removed: seq<(Serial, Direction)>,
                      i: nat)
    requires Draining(t, c, next, lo, removed) && i < |t.pending|
    ensures var p := t.pending[i]; Equal(p.number, c.NumberOf(p.direction)) <==> t.keys[i] == next.At(p.direction)
  {
    var d := t.pending[i].direction;
    assert InOrder(t, c, next, d) && PendingOk(t, lo, i);
    Range();
    EqualWithinTurn(t.keys[i], next.At(d), BITS);
  }

  lemma RemovedGrows(removed: seq<(Serial, Direction)>, lo: Both<int>, next: Both<int>, d: Direction)
    requires RemovedExactly(removed, lo, next) && lo.At(d) <= next.At(d)
    ensures RemovedExactly(removed + [(Of(next.At(d), BITS), d)], lo, next.With(d, next.At(d) + 1))
  {
    var next', removed' := next.With(d, next.At(d) + 1), removed + [(Of(next.At(d), BITS), d)];
    assert removed'[|removed|] == (Of(next.At(d), BITS), d);
    forall i | 0 <= i < |removed'| ensures RemovedOk(removed'[i], lo, next') {
      if i < |removed| {
        assert RemovedOk(removed[i], lo, next);
      }
    }
    forall e, j | lo.At(e) <= j < next'.At(e) ensures (Of(j, BITS), e) in removed' {
      assert j < next.At(e) || (e == d && j == next.At(e));
    }
  }

  /** Delivering a pending packet when its turn has come. */
  lemma DeliverPendingKeeps(t: Traffic, c: Progress, next: Both<int>, lo: Both<int>, removed: seq<(Serial, Direction)>,
                            i: nat)
    requires Draining(t, c, next, lo, removed) && i < |t.pending| && t.keys[i] == next.At(t.pending[i].direction)
    ensures var p := t.pending[i];
      && c.NumberOf(p.direction).bits == BITS
      && Draining(t, Deliver(c, p.direction, p.payload), next.With(p.direction, next.At(p.direction) + 1), lo,
                  removed + [(p.number, p.direction)])
  {
    var d := t.pending[i].direction;
    assert PendingOk(t, lo, i);
    DeliverKeeps(t, c, next, d);
    RemovedGrows(removed, lo, next, d);
  }

  /** The packets that the removed list does not name. */
  function Kept(pending: seq<Packet>, removed: seq<(Serial, Direction)>): seq<Packet> {
    if pending == [] then []
    else
      var last, rest := pending[|pending| - 1], Kept(pending[..|pending| - 1], removed);
      if (last.number, last.direction) in removed then rest else rest + [last]
  }

  ghost function KeptKeys(pending: seq<Packet>, keys: seq<int>, removed: seq<(Serial, Direction)>): seq<int>
    requires |keys| == |pending|
  {
    if pending == [] then []
    else
      var last, rest := pending[|pending| - 1], KeptKeys(pending[..|pending| - 1], keys[..|keys| - 1], removed);
      if (last.number, last.direction) in removed then rest else rest + [keys[|keys| - 1]]
  }

  /** (packet, key) is an entry of the two lists. */
  ghost predicate HasEntry(pending: seq<Packet>, keys: seq<int>, packet: Packet, key: int)
    requires |keys| == |pending|
  {
    exists i :: 0 <= i < |pending| && pending[i] == packet && keys[i] == key
  }

  lemma HasEntryAppend(pending: seq<Packet>, keys: seq<int>, p: Packet, k: int, packet: Packet, key: int)
    requires |keys| == |pending|
    ensures HasEntry(pending + [p], keys + [k], packet, key) <==>
            HasEntry(pending, keys, packet, key) || (packet == p && key == k)
  {
    if HasEntry(pending, keys, packet, key) {
      var i :| 0 <= i < |pending| && pending[i] == packet && keys[i] == key;
      assert (pending + [p])[i] == packet && (keys + [k])[i] == key;
    }
    if packet == p && key == k {
      assert (pending + [p])[|pending|] == packet && (keys + [k])[|keys|] == key;
    }
  }

  lemma {:induction false} KeptEntries(pending: seq<Packet>, keys: seq<int>, removed: seq<(Serial, Direction)>,
                                       packet: Packet, key: int)
    requires |keys| == |pending|
    ensures |KeptKeys(pending, keys, removed)| == |Kept(pending, removed)|
    ensures HasEntry(Kept(pending, removed), KeptKeys(pending, keys, removed), packet, key) <==>
            HasEntry(pending, keys, packet, key) && (packet.number, packet.direction) !in removed
  {
    if pending != [] {
      var n := |pending| - 1;
      KeptEntries(pending[..n], keys[..n], removed, packet, key);
      HasEntryAppend(pending[..n], keys[..n], pending[n], keys[n], packet, key);
      assert pending == pending[..n] + [pending[n]] && keys == keys[..n] + [keys[n]];
      HasEntryAppend(Kept(pending[..n], removed), KeptKeys(pending[..n], keys[..n], removed), pending[n], keys[n],
                     packet, key);
    }
  }

  /** Nothing on the list is due any more. */
  ghost predicate NothingDue(t: Traffic, next: Both<int>)
    requires |t.pending| == |t.keys|
  {
    forall i :: 0 <= i < |t.pending| ==> t.keys[i] != next.At(t.pending[i].direction)
  }

  /** The removed list names a pending packet just when it has been delivered. */
  lemma RemovedIffDelivered(t: Traffic, c: Progress, next: Both<int>, lo: Both<int>, removed: seq<(Serial, Direction)>,
                            i: nat)
    requires Draining(t, c, next, lo, removed) && i < |t.pending|
    ensures var p := t.pending[i]; (p.number, p.direction) in removed <==> t.keys[i] < next.At(p.direction)
  {
    var p := t.pending[i];
    assert PendingOk(t, lo, i);
    if (p.number, p.direction) in removed {
      var k :| 0 <= k < |removed| && removed[k] == (p.number, p.direction);
      assert RemovedOk(removed[k], lo, next);
      var j :| lo.At(p.direction) <= j < next.At(p.direction) && p.number == Of(j, BITS);
      Range();
      EqualWithinTurn(t.keys[i], j, BITS);
    }
  }

  lemma FilterComplete(t: Traffic, c: Progress, next: Both<int>, lo: Both<int>, removed: seq<(Serial, Direction)>,
                       t': Traffic)
    requires Draining(t, c, next, lo, removed) && NothingDue(t, next)
    requires t' == Traffic(t.sent, t.first, t.received, Kept(t.pending, removed), KeptKeys(t.pending, t.keys, removed))
    ensures PendingComplete(t', next)
  {
    var pending, keys := t'.pending, t'.keys;
    KeptEntries(t.pending, t.keys, removed, Packet([], Serial(0, 0), FromInitiator), 0);
    forall i | 0 <= i < |pending| ensures PendingOk(t', next, i) {
      KeptEntries(t.pending, t.keys, removed, pending[i], keys[i]);
      assert HasEntry(pending, keys, pending[i], keys[i]);
      var j :| 0 <= j < |t.pending| && t.pending[j] == pending[i] && t.keys[j] == keys[i];
      assert PendingOk(t, lo, j);
      RemovedIffDelivered(t, c, next, lo, removed, j);
    }
    forall d, k | k in t.received.At(d) && k >= next.At(d) ensures IsPending(t', d, k) {
      assert IsPending(t, d, k);
      var j :| 0 <= j < |t.pending| && t.pending[j].direction == d && t.keys[j] == k;
      RemovedIffDelivered(t, c, next, lo, removed, j);
      KeptEntries(t.pending, t.keys, removed, t.pending[j], k);
      assert HasEntry(t.pending, t.keys, t.pending[j], k);
      var i :| 0 <= i < |pending| && pending[i] == t.pending[j] && keys[i] == k;
    }
  }

  /** After the drain the filtered list holds exactly the packets beyond the next ones, and these are missing. */
  lemma FilterSettles(t: Traffic, c: Progress, next: Both<int>, lo: Both<int>, removed: seq<(Serial, Direction)>)
    requires Draining(t, c, next, lo, removed) && NothingDue(t, next)
    ensures var pending, keys := Kept(t.pending, removed), KeptKeys(t.pending, t.keys, removed);
      Settled(Traffic(t.sent, t.first, t.received, pending, keys), c, next)
  {
    var pending, keys := Kept(t.pending, removed), KeptKeys(t.pending, t.keys, removed);
    var t' := Traffic(t.sent, t.first, t.received, pending, keys);
    forall d ensures InOrder(t', c, next, d) {
      assert InOrder(t, c, next, d);
    }
    forall d ensures next.At(d) !in t.received.At(d) {
      assert next.At(d) in t.received.At(d) ==> IsPending(t, d, next.At(d));
    }
    FilterComplete(t, c, next, lo, removed, t');
  }

  // ----- the arrival of a packet -----

  /** Packet k of direction d arrives, within half the range of the awaited one. */
  ghost predicate InWindow(next: Both<int>, d: Direction, k: int) {
    next.At(d) - 0x7FFF <= k <= next.At(d) + 0x8000
  }

  ghost function Arrived(t: Traffic, d: Direction, k: int): Traffic {
    Traffic(t.sent, t.first, t.received.With(d, t.received.At(d) + {k}), t.pending, t.keys)
  }

  ghost function Queued(t: Traffic, d: Direction, k: int): Traffic {
    var a := Arrived(t, d, k);
    Traffic(a.sent, a.first, a.received, a.pending + [Packet(t.sent(d, k), Of(k, BITS), d)], a.keys + [k])
  }

  lemma ArrivedKeeps(t: Traffic, c: Progress, next: Both<int>, d: Direction, k: int)
    requires Settled(t, c, next)
    ensures BothInOrder(Arrived(t, d, k), c, next)
  {
    forall e ensures InOrder(Arrived(t, d, k), c, next, e) {
      assert InOrder(t, c, next, e);
    }
  }

  /** A packet that is not beyond the awaited one leaves the pending list right, from the packet after it on. */
  lemma ListAfterArrival(t: Traffic, next: Both<int>, d: Direction, k: int, lo: Both<int>)
    requires PendingComplete(t, next) && (forall e :: next.At(e) !in t.received.At(e))
    requires k <= next.At(d) && lo == if k == next.At(d) then next.With(d, k + 1) else next
    ensures PendingComplete(Arrived(t, d, k), lo)
  {
    var a := Arrived(t, d, k);
    forall i | 0 <= i < |a.pending| ensures PendingOk(a, lo, i) {
      assert PendingOk(t, next, i);
    }
    forall e, j | j in a.received.At(e) && j >= lo.At(e) ensures IsPending(a, e, j) {
      assert IsPending(t, e, j);
    }
  }

  /** A packet beyond the awaited one joins the list. */
  lemma ListAfterQueueing(t: Traffic, next: Both<int>, d: Direction, k: int)
    requires PendingComplete(t, next) && next.At(d) < k <= next.At(d) + 0x8000
    ensures PendingComplete(Queued(t, d, k), next)
  {
    var q := Queued(t, d, k);
    forall i | 0 <= i < |q.pending| ensures PendingOk(q, next, i) {
      if i < |t.pending| {
        assert PendingOk(t, next, i);
      }
    }
    forall e, j | j in q.received.At(e) && j >= next.At(e) ensures IsPending(q, e, j) {
      if e == d && j == k {
        assert q.keys[|t.pending|] == k;
      } else {
        assert IsPending(t, e, j);
        var i :| 0 <= i < |t.pending| && t.pending[i].direction == e && t.keys[i] == j;
        assert q.pending[i] == t.pending[i] && q.keys[i] == t.keys[i];
      }
    }
  }

  lemma DrainStart(t: Traffic, c: Progress, next: Both<int>)
    requires BothInOrder(t, c, next) && PendingComplete(t, next)
    ensures Draining(t, c, next, next, [])
  {
  }

  lemma QueuedKeeps(t: Traffic, c: Progress, next: Both<int>, d: Direction, k: int)
    requires BothInOrder(Arrived(t, d, k), c, next)
    ensures BothInOrder(Queued(t, d, k), c, next)
  {
    forall e ensures InOrder(Queued(t, d, k), c, next, e) {
      assert InOrder(Arrived(t, d, k), c, next, e);
    }
  }

  /** The branch that packet k of direction d takes, up to the passes over the pending list. */
  ghost function AfterBranch(t: Traffic, c: Progress, d: Direction, k: int): (Traffic, Progress)
    requires c.NumberOf(d).bits == BITS
  {
    if Equal(Of(k, BITS), c.NumberOf(d)) then (Arrived(t, d, k), Deliver(c, d, t.sent(d, k)))
    else if Greater(Of(k, BITS), c.NumberOf(d)) then (Queued(t, d, k), c)
    else (Arrived(t, d, k), c)
  }

  /** Packet k of direction d is within half the range of the awaited one, or it is older and its number looks older. */
  ghost predicate Recognised(next: Both<int>, d: Direction, k: int) {
    InWindow(next, d, k) || (k < next.At(d) && 1 <= (next.At(d) - k) % 0x1_0000 <= 0x7FFF)
  }

  /** The order of the numbers shows where a recognised packet belongs. */
  lemma RecognisedOrder(next: Both<int>, d: Direction, k: int)
    requires Recognised(next, d, k)
    ensures Equal(Of(k, BITS), Of(next.At(d), BITS)) <==> k == next.At(d)
    ensures Less(Of(k, BITS), Of(next.At(d), BITS)) <==> k < next.At(d)
    ensures k <= next.At(d) + 0x8000
  {
    Range();
    if InWindow(next, d, k) {
      OrderInWindow(k, next.At(d), BITS);
    } else {
      OrderIsModular(k, next.At(d), BITS);
    }
  }

  /** After the branch of a recognised packet the passes over the pending list may begin. */
  lemma RecognisedKeeps(t: Traffic, c: Progress, next: Both<int>, d: Direction, k: int)
    requires Settled(t, c, next) && Recognised(next, d, k)
    ensures c.NumberOf(d).bits == BITS
    ensures var after, next' := AfterBranch(t, c, d, k), if k == next.At(d) then next.With(d, k + 1) else next;
      BothInOrder(after.0, after.1, next') && PendingComplete(after.0, next')
  {
    assert InOrder(t, c, next, d);
    RecognisedOrder(next, d, k);
    ArrivedKeeps(t, c, next, d, k);
    if k > next.At(d) {
      ListAfterQueueing(t, next, d, k);
      QueuedKeeps(t, c, next, d, k);
    } else {
      ListAfterArrival(t, next, d, k, if k == next.At(d) then next.With(d, k + 1) else next);
      if k == next.At(d) {
        DeliverKeeps(Arrived(t, d, k), c, next, d);
      }
    }
  }

  // ----- the flow object -----

  class UtpFlow {
    var seq0: Serial
    var seq1: Serial
    var pending: seq<Packet>
    var delivered: seq<Segment>

    ghost var traffic: Traffic
    ghost var next: Both<int>

    function State(): Progress
      reads this
    {
      Progress(seq0, seq1, delivered)
    }

    ghost predicate Valid()
      reads this
    {
      traffic.pending == pending && Settled(traffic, State(), next)
    }

    /** The flow once both sequence numbers are known; nothing has arrived yet. */
    constructor (seq0: Serial, seq1: Serial, ghost sent: (Direction, int) -> Payload, ghost first: Both<int>)
      requires seq0 == Of(first.initiator, BITS) && seq1 == Of(first.accepter, BITS)
      ensures Valid() && next == first && delivered == [] && pending == []
      ensures traffic == Traffic(sent, first, Both({}, {}), [], [])
    {
      this.seq0, this.seq1, this.pending, this.delivered := seq0, seq1, [], [];
      this.traffic, this.next := Traffic(sent, first, Both({}, {}), [], []), first;
    }

    /** Hands a payload over and steps the sequence number of its direction. */
    method NewSegment(d: Direction, payload: Payload)
      requires State().NumberOf(d).bits == BITS
      modifies this`seq0, this`seq1, this`delivered
      ensures State() == old(Deliver(State(), d, payload))
    {
      delivered := delivered + [Segment(d, payload)];
      if d.FromInitiator? {
        seq0 := Plus(seq0, 1).result;
      } else {
        seq1 := Plus(seq1, 1).result;
      }
    }

    /** One pass over the pending list: delivers every packet whose turn it is when the pass comes to it. */
    method DrainPass(removed0: seq<(Serial, Direction)>, ghost next0: Both<int>, ghost lo: Both<int>)
      returns (addedSome: bool, removed: seq<(Serial, Direction)>, ghost next1: Both<int>)
      requires traffic.pending == pending && Draining(traffic, State(), next0, lo, removed0)
      modifies this`seq0, this`seq1, this`delivered
      ensures Draining(traffic, State(), next1, lo, removed)
      ensures addedSome ==> next1.initiator + next1.accepter > next0.initiator + next0.accepter
      ensures !addedSome ==> next1 == next0 && NothingDue(traffic, next1)
    {
      addedSome, removed, next1 := false, removed0, next0;
      for i := 0 to |pending|
        invariant Draining(traffic, State(), next1, lo, removed)
        invariant if addedSome then next1.initiator + next1.accepter > next0.initiator + next0.accepter
                  else next1 == next0
        invariant !addedSome ==> forall k :: 0 <= k < i ==> traffic.keys[k] != next1.At(pending[k].direction)
      {
        var packet := pending[i];
        AwaitedIsNext(traffic, State(), next1, lo, removed, i);
        if Equal(packet.number, State().NumberOf(packet.direction)) {
          DeliverPendingKeeps(traffic, State(), next1, lo, removed, i);
          NewSegment(packet.direction, packet.payload);
          addedSome := true;
          removed := removed + [(packet.number, packet.direction)];
          next1 := next1.With(packet.direction, next1.At(packet.direction) + 1);
        }
      }
    }

    /** The part of add_segment after the arriving packet has been dealt with: passes over the pending list until one of
        them delivers nothing, then drops what was delivered. */
    method Drain()
      requires traffic.pending == pending && BothInOrder(traffic, State(), next) && PendingComplete(traffic, next)
      modifies this
      ensures Valid()
      ensures traffic.sent == old(traffic.sent) && traffic.first == old(traffic.first) &&
              traffic.received == old(traffic.received)
    {
      ghost var lo, t := next, traffic;
      DrainStart(traffic, State(), next);
      var addedSome, removed: seq<(Serial, Direction)> := true, [];
      while addedSome
        invariant traffic == t && t.pending == pending && Draining(t, State(), next, lo, removed)
        invariant !addedSome ==> NothingDue(t, next)
        decreases lo.initiator + lo.accepter + 0x1_0002 - next.initiator - next.accepter, addedSome
      {
        ghost var before := next;
        addedSome, removed, next := DrainPass(removed, next, lo);
        assert next.At(FromInitiator) <= lo.At(FromInitiator) + 0x8001 &&
               next.At(FromAccepter) <= lo.At(FromAccepter) + 0x8001;
      }
      FilterSettles(t, State(), next, lo, removed);
      traffic := Traffic(t.sent, t.first, t.received, Kept(t.pending, removed), KeptKeys(t.pending, t.keys, removed));
      pending := Kept(pending, removed);
    }

    /** add_segment, for packet k of direction d. */
    method AddSegment(direction: Direction, payload: Payload, number: Serial, ghost k: int)
      requires Valid() && Recognised(next, direction, k)
      requires number == Of(k, BITS) && payload == traffic.sent(direction, k)
      modifies this
      ensures Valid() && traffic.sent == old(traffic.sent) && traffic.first == old(traffic.first)
      ensures traffic.received == old(traffic.received.With(direction, traffic.received.At(direction) + {k}))
    {
      var fseq := if direction.FromInitiator? then seq0 else seq1;
      assert InOrder(traffic, State(), next, direction);
      RecognisedOrder(next, direction, k);
      RecognisedKeeps(traffic, State(), next, direction, k);
      if Equal(number, fseq) {
        traffic := Arrived(traffic, direction, k);
        NewSegment(direction, payload);
        next := next.With(direction, k + 1);
      } else if Greater(number, fseq) {
        pending := pending + [Packet(payload, number, direction)];
        traffic := Queued(traffic, direction, k);
      } else {
        traffic := Arrived(traffic, direction, k);
      }
      Drain();
    }
  }

  // ----- the window is tight -----

  lemma NothingPendingBeyond(t: Traffic, next: Both<int>, d: Direction, k: int)
    requires PendingComplete(t, next) && k > next.At(d) + 0x8000
    ensures !IsPending(t, d, k)
  {
    forall i | 0 <= i < |t.pending| ensures !(t.pending[i].direction == d && t.keys[i] == k) {
      assert PendingOk(t, next, i);
    }
  }

  /** How many packets of one direction were delivered determines which one is awaited. */
  lemma AwaitedByCount(t: Traffic, c: Progress, next: Both<int>, d: Direction)
    requires InOrder(t, c, next, d)
    ensures next.At(d) == t.first.At(d) + |PayloadsOf(d, c.delivered)|
  {
  }

  /** Delivering another packet in place of the awaited one. */
  lemma WrongDelivery(t: Traffic, c: Progress, next: Both<int>, d: Direction, k: int, next': Both<int>)
    requires Settled(t, c, next) && k != next.At(d) && c.NumberOf(d).bits == BITS
    ensures !InOrder(Arrived(t, d, k), Deliver(c, d, t.sent(d, k)), next', d)
  {
    assert InOrder(t, c, next, d);
    AwaitedByCount(t, c, next, d);
    PayloadsOfAppend(d, c.delivered, Segment(d, t.sent(d, k)));
    var a, c' := Arrived(t, d, k), Deliver(c, d, t.sent(d, k));
    assert next.At(d) !in a.received.At(d);
    if InOrder(a, c', next', d) {
      AwaitedByCount(a, c', next', d);
    }
  }

  /** Queueing a packet that is not ahead within half the range. */
  lemma WrongQueueing(t: Traffic, c: Progress, next: Both<int>, d: Direction, k: int, next': Both<int>)
    requires Settled(t, c, next) && !(next.At(d) <= k <= next.At(d) + 0x8000)
    ensures !(InOrder(Queued(t, d, k), c, next', d) && PendingComplete(Queued(t, d, k), next'))
  {
    var q, i := Queued(t, d, k), |t.pending|;
    assert InOrder(t, c, next, d) && q.pending[i].direction == d && q.keys[i] == k;
    if InOrder(q, c, next', d) {
      AwaitedByCount(t, c, next, d);
      AwaitedByCount(q, c, next', d);
      assert !PendingOk(q, next', i);
    }
  }

  /** Dropping a packet that is beyond the window. */
  lemma WrongDrop(t: Traffic, c: Progress, next: Both<int>, d: Direction, k: int, next': Both<int>)
    requires Settled(t, c, next) && k > next.At(d) + 0x8000
    ensures !(InOrder(Arrived(t, d, k), c, next', d) && PendingComplete(Arrived(t, d, k), next'))
  {
    var a := Arrived(t, d, k);
    assert InOrder(t, c, next, d);
    AwaitedByCount(t, c, next, d);
    NothingPendingBeyond(t, next, d, k);
    assert k in a.received.At(d) && !IsPending(a, d, k);
    if InOrder(a, c, next', d) {
      AwaitedByCount(a, c, next', d);
    }
  }

  /** The flow is as it has to be when the passes over the pending list begin. */
  ghost predicate ReadyToDrain(t: Traffic, c: Progress) {
    exists next :: BothInOrder(t, c, next) && PendingComplete(t, next)
  }

  lemma UnrecognisedSpoils(t: Traffic, c: Progress, next: Both<int>, d: Direction, k: int, next': Both<int>)
    requires Settled(t, c, next) && !Recognised(next, d, k) && c.NumberOf(d).bits == BITS
    ensures var after := AfterBranch(t, c, d, k);
      !(BothInOrder(after.0, after.1, next') && PendingComplete(after.0, next'))
  {
    Range();
    assert InOrder(t, c, next, d);
    OrderIsModular(k, next.At(d), BITS);
    if Equal(Of(k, BITS), c.NumberOf(d)) {
      WrongDelivery(t, c, next, d, k, next');
    } else if Greater(Of(k, BITS), c.NumberOf(d)) {
      WrongQueueing(t, c, next, d, k, next');
    } else {
      WrongDrop(t, c, next, d, k, next');
    }
  }

  /** For every packet that may arrive: the branch it takes leaves the flow right exactly when the packet is
      recognised. */
  lemma RightExactlyWhenRecognised(t: Traffic, c: Progress, next: Both<int>, d: Direction, k: int)
    requires Settled(t, c, next)
    ensures c.NumberOf(d).bits == BITS
    ensures var after := AfterBranch(t, c, d, k); ReadyToDrain(after.0, after.1) <==> Recognised(next, d, k)
  {
    assert InOrder(t, c, next, d);
    var after := AfterBranch(t, c, d, k);
    if Recognised(next, d, k) {
      RecognisedKeeps(t, c, next, d, k);
    } else if ReadyToDrain(after.0, after.1) {
      var next' :| BothInOrder(after.0, after.1, next') && PendingComplete(after.0, next');
      UnrecognisedSpoils(t, c, next, d, k, next');
    }
  }

  /** A packet one beyond the window is taken for a duplicate and lost: it has arrived and is neither delivered nor
      pending. */
  lemma LostBeyondWindow(t: Traffic, c: Progress, next: Both<int>, d: Direction, k: int)
    requires Settled(t, c, next) && k == next.At(d) + 0x8001
    ensures c.NumberOf(d).bits == BITS
    ensures !Equal(Of(k, BITS), c.NumberOf(d)) && !Greater(Of(k, BITS), c.NumberOf(d))
    ensures !Settled(Arrived(t, d, k), c, next)
  {
    Range();
    assert InOrder(t, c, next, d);
    WindowIsTight(next.At(d), BITS);
    OrderIsModular(k, next.At(d), BITS);
    NothingPendingBeyond(t, next, d, k);
    var a := Arrived(t, d, k);
    assert k in a.received.At(d) && !IsPending(a, d, k);
  }

  /** A duplicate one before the window is queued as if it were ahead. */
  lemma QueuedBeforeWindow(t: Traffic, c: Progress, next: Both<int>, d: Direction, k: int)
    requires Settled(t, c, next) && k == next.At(d) - 0x8000
    ensures c.NumberOf(d).bits == BITS
    ensures !Equal(Of(k, BITS), c.NumberOf(d)) && Greater(Of(k, BITS), c.NumberOf(d))
    ensures !Settled(Queued(t, d, k), c, next)
  {
    Range();
    assert InOrder(t, c, next, d);
    WindowIsTight(next.At(d), BITS);
    var q, i := Queued(t, d, k), |t.pending|;
    assert q.pending[i].direction == d && q.keys[i] == k;
    assert !PendingOk(q, next, i);
  }

  // ----- what a settled flow has delivered -----

  /** The delivered packets are exactly the received ones up to the first gap, in order and once each. */
  lemma DeliveredIsPrefix(t: Traffic, c: Progress, next: Both<int>, d: Direction)
    requires Settled(t, c, next)
    ensures t.first.At(d) <= next.At(d)
    ensures PayloadsOf(d, c.delivered) == Stream(t.sent, d, t.first.At(d), next.At(d))
    ensures next.At(d) !in t.received.At(d) && forall k :: t.first.At(d) <= k < next.At(d) ==> k in t.received.At(d)
    ensures forall k :: IsPending(t, d, k) <==> k in t.received.At(d) && k > next.At(d)
  {
    assert InOrder(t, c, next, d);
    forall k ensures IsPending(t, d, k) <==> k in t.received.At(d) && k > next.At(d) {
      if IsPending(t, d, k) {
        var i :| 0 <= i < |t.pending| && t.pending[i].direction == d && t.keys[i] == k;
        assert PendingOk(t, next, i);
      }
    }
  }

  /** Two flows that received the same packets have delivered the same, in whatever order the packets arrived. */
  lemma OrderOfArrivalIsIrrelevant(t: Traffic, c: Progress, next: Both<int>, t': Traffic, c': Progress,
                                   next': Both<int>, d: Direction)
    requires Settled(t, c, next) && Settled(t', c', next')
    requires t'.sent == t.sent && t'.first == t.first && t'.received.At(d) == t.received.At(d)
    ensures next'.At(d) == next.At(d) && PayloadsOf(d, c'.delivered) == PayloadsOf(d, c.delivered)
  {
    assert InOrder(t, c, next, d) && InOrder(t', c', next', d);
    assert next.At(d) !in t.received.At(d) && next'.At(d) !in t'.received.At(d);
  }
}
