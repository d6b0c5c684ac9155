/** The client's event loop behind the handshake: ticks, packets and commands, one at a time. */
module EventLoops {
  import opened Bytes
  import opened Packets
  import opened PktIds
  import opened Publishing
  import opened RangeList
  import Properties
  import Pubacks
  import Vbi

  // ---- one step -----------------------------------------------------------------------------

  datatype Command =
    | PublishCommand(topic: Utf8, payload: Payload, properties: seq<Properties.Property>, qos: QoS, retain: bool)
    | SubscribeCommand(filter: Utf8, maxQos: QoS)
    | UnsubscribeCommand(filters: seq<Utf8>)
    | DisconnectCommand

  /** What the loop waits for; `ReadPanic` is input that makes the decoder panic, `Idle` a closed command
      channel. */
  datatype Event =
    | Tick | Incoming(packet: Packet) | ReadError | ReadPanic | StreamDone | Commanded(command: Command) | Idle

  /** How the loop ends; `Panicked` covers arithmetic overflow and what is not implemented. */
  datatype Ending = Closed | TimedOut | DisconnectedBy(reason: byte) | ReadFailed | Panicked

  /** Free identifiers, unacknowledged QoS 1 messages, and whether the last PINGREQ was answered. */
  datatype State = State(rs: seq<Range>, queue: seq<(PktId, Publish)>, pong: Option<bool>)

  datatype Step = Step(state: State, sent: Option<Packet>, ending: Option<Ending>)

  const NEW_STATE: State := State([Range(1, 65535)], [], None)

  function Quiet(st: State): Step {
    Step(st, None, None)
  }

  function End(st: State, ending: Ending): Step {
    Step(st, None, Some(ending))
  }

  /** Sending encodes: a packet without an encoder panics. */
  function Send(st: State, p: Packet): Step {
    if Packets.Encode(p).Panic? then End(st, Panicked) else Step(st, Some(p), None)
  }

  function NewPublish(c: Command, id: Option<PktId>): Publish
    requires c.PublishCommand?
  {
    Publish(c.topic, c.payload, c.properties, Flags(false, c.qos, c.retain), id)
  }

  /** The commands that take a Packet Identifier. */
  predicate NeedsId(c: Command) {
    c.SubscribeCommand? || c.UnsubscribeCommand? || (c.PublishCommand? && c.qos != AtMostOnce)
  }

  /** The packet for a command with its identifier. */
  function Request(c: Command, id: PktId): Packet
    requires NeedsId(c)
  {
    match c
    case PublishCommand(_, _, _, _, _) => PublishPacket(NewPublish(c, Some(id)))
    case SubscribeCommand(filter, maxQos) => SubscribePacket(Subscribe(filter, id, maxQos, false, false))
    case UnsubscribeCommand(filters) => UnsubscribePacket(Unsubscribe(filters, id))
  }

  /** The queue behind a request: only QoS 1 messages wait in it. */
  function Queued(queue: seq<(PktId, Publish)>, c: Command, id: PktId): seq<(PktId, Publish)> {
    if c.PublishCommand? && c.qos == AtLeastOnce then queue + [(id, NewPublish(c, Some(id)))] else queue
  }

  function OnCommand(st: State, c: Command): Step
    requires st.rs != []
  {
    if NeedsId(c) then
      match Next(st.rs)
      case Issued(id, rest) => Send(st.(rs := rest, queue := Queued(st.queue, c, id)), Request(c, id))
      case _ => End(st, Panicked)
    else if c.PublishCommand? then Send(st, PublishPacket(NewPublish(c, None)))
    else Step(st, Some(DisconnectPacket(Disconnect(0, []))), Some(Closed))
  }

  function RemoveFirst(queue: seq<(PktId, Publish)>, id: PktId): (r: seq<(PktId, Publish)>) {
    if queue == [] then []
    else if queue[0].0 == id then queue[1..]
    else [queue[0]] + RemoveFirst(queue[1..], id)
  }

  /** An acknowledged identifier goes back to the allocator, asked for or not. */
  function Release(st: State, id: PktId): Step {
    match Insert(st.rs, id)
    case Merged(rest) => Quiet(st.(rs := rest))
    case InsertOverflow => End(st, Panicked)
  }

  function OnPacket(st: State, p: Packet): Step {
    match p
    case DisconnectPacket(d) => End(st, if d.reason == 0 then Closed else DisconnectedBy(d.reason))
    case PingRespPacket => Quiet(st.(pong := Some(true)))
    case SubackPacket(a) => Release(st, a.pktid)
    case UnsubackPacket(a) => Release(st, a.pktid)
    case PubackPacket(a) => Release(st.(queue := RemoveFirst(st.queue, a.pktid)), a.pktid)
    case PublishPacket(m) =>
      (match m.flags.qos
       case AtMostOnce => Quiet(st)
       case AtLeastOnce =>
         if m.pktid.None? then End(st, Panicked)
         else Send(st, PubackPacket(Pubacks.Puback(Pubacks.NO_EXTRAS, m.pktid.value, Pubacks.Success)))
       case ExactlyOnce => End(st, Panicked))
    case _ => Quiet(st)
  }

  function OnTick(st: State): Step {
    if st.pong == Some(false) then End(st, TimedOut)
    else Send(st.(pong := Some(false)), PingReqPacket)
  }

  function React(st: State, e: Event): Step
    requires st.rs != []
  {
    match e
    case Tick => OnTick(st)
    case Incoming(p) => OnPacket(st, p)
    case ReadError => End(st, ReadFailed)
    case ReadPanic => End(st, Panicked)
    case StreamDone => End(st, Closed)
    case Commanded(c) => OnCommand(st, c)
    case Idle => Quiet(st)
  }

  lemma ReactKeepsRanges(st: State, e: Event)
    requires st.rs != []
    ensures React(st, e).state.rs != [] || React(st, e).ending == Some(Panicked)
  {
    hide Packets.Encode, Split, Request, NewPublish, RemoveFirst;
  }

  // ---- whole runs ---------------------------------------------------------------------------

  /** What can be observed of a run. */
  datatype Entry = Ticked | Received(packet: Packet) | Sent(packet: Packet)

  function Observed(e: Event, sent: Option<Packet>): seq<Entry> {
    (match e
     case Tick => [Ticked]
     case Incoming(p) => [Received(p)]
     case _ => [])
    + (if sent.Some? then [Sent(sent.value)] else [])
  }

  function Entries(e: Event, s: Step): seq<Entry> {
    Observed(e, s.sent)
  }

  datatype Run = Run(state: State, log: seq<Entry>, ending: Option<Ending>)

  /** The run over the events so far; what comes after the end is not looked at. */
  function Replay(events: seq<Event>): (r: Run)
    ensures r.ending != Some(Panicked) ==> r.state.rs != []
  {
    if events == [] then Run(NEW_STATE, [], None)
    else
      var before := Replay(events[..|events| - 1]);
      if before.ending.Some? then before
      else
        var e := events[|events| - 1];
        ReactKeepsRanges(before.state, e);
        var s := React(before.state, e);
        Run(s.state, before.log + Entries(e, s), s.ending)
  }

  lemma ReplayNothing()
    ensures Replay([]) == Run(NEW_STATE, [], None)
  {
  }

  /** One more event. */
  lemma ReplayNext(events: seq<Event>, e: Event)
    requires Replay(events).ending.None?
    ensures Replay(events).state.rs != []
    ensures var before, s := Replay(events), React(Replay(events).state, e);
            Replay(events + [e]) == Run(s.state, before.log + Entries(e, s), s.ending)
  {
    hide React;
    assert (events + [e])[..|events|] == events;
  }

  // ---- the ledger, read off the log ---------------------------------------------------------

  ghost function SubscribingAfter(before: set<int>, e: Entry): set<int> {
    match e
    case Sent(SubscribePacket(s)) => before + {s.pktid}
    case Received(SubackPacket(a)) => before - {a.pktid}
    case _ => before
  }

  /** The identifiers of SUBSCRIBEs without a SUBACK. */
  ghost function Subscribing(log: seq<Entry>): set<int> {
    if log == [] then {} else SubscribingAfter(Subscribing(log[..|log| - 1]), log[|log| - 1])
  }

  ghost function UnsubscribingAfter(before: set<int>, e: Entry): set<int> {
    match e
    case Sent(UnsubscribePacket(u)) => before + {u.pktid}
    case Received(UnsubackPacket(a)) => before - {a.pktid}
    case _ => before
  }

  /** The identifiers of UNSUBSCRIBEs without an UNSUBACK. */
  ghost function Unsubscribing(log: seq<Entry>): set<int> {
    if log == [] then {} else UnsubscribingAfter(Unsubscribing(log[..|log| - 1]), log[|log| - 1])
  }

  ghost function ExactlyOnceAfter(before: set<int>, e: Entry): set<int> {
    match e
    case Sent(PublishPacket(m)) =>
      if m.flags.qos == ExactlyOnce && m.pktid.Some? then before + {m.pktid.value} else before
    case _ => before
  }

  /** The identifiers of QoS 2 messages, which are never given back. */
  ghost function ExactlyOnceIds(log: seq<Entry>): set<int> {
    if log == [] then {} else ExactlyOnceAfter(ExactlyOnceIds(log[..|log| - 1]), log[|log| - 1])
  }

  function Without(queue: seq<(PktId, Publish)>, id: PktId): (r: seq<(PktId, Publish)>)
    ensures forall x :: x in r <==> x in queue && x.0 != id
  {
    if queue == [] then []
    else if queue[0].0 == id then Without(queue[1..], id)
    else [queue[0]] + Without(queue[1..], id)
  }

  ghost function UnackedAfter(before: seq<(PktId, Publish)>, e: Entry): seq<(PktId, Publish)> {
    match e
    case Sent(PublishPacket(m)) =>
      if m.flags.qos == AtLeastOnce && m.pktid.Some? then before + [(m.pktid.value, m)] else before
    case Received(PubackPacket(a)) => Without(before, a.pktid)
    case _ => before
  }

  /** The QoS 1 messages sent and not acknowledged since, in the order they were sent. */
  ghost function Unacked(log: seq<Entry>): seq<(PktId, Publish)> {
    if log == [] then [] else UnackedAfter(Unacked(log[..|log| - 1]), log[|log| - 1])
  }

  ghost function QueueIds(queue: seq<(PktId, Publish)>): (s: set<int>)
    ensures forall x :: x in s <==> exists q :: q in queue && q.0 == x
  {
    set q | q in queue :: q.0 as int
  }

  ghost predicate DistinctIds(queue: seq<(PktId, Publish)>) {
    forall i, j :: 0 <= i < j < |queue| ==> queue[i].0 != queue[j].0
  }

  /** An acknowledgement of a request of its kind that is outstanding. */
  ghost predicate Solicited(log: seq<Entry>, p: Packet) {
    match p
    case SubackPacket(a) => a.pktid in Subscribing(log)
    case UnsubackPacket(a) => a.pktid in Unsubscribing(log)
    case PubackPacket(a) => a.pktid in QueueIds(Unacked(log))
    case _ => true
  }

  /** The server acknowledges only what is outstanding. */
  ghost predicate FaithfulServer(log: seq<Entry>) {
    forall i :: 0 <= i < |log| && log[i].Received? ==> Solicited(log[..i], log[i].packet)
  }

  ghost predicate Partition5(f: set<int>, q: set<int>, s: set<int>, u: set<int>, x: set<int>) {
    f !! q !! s !! u !! x && f + q + s + u + x == Ids(65535)
  }

  /** The queue is what the log says is unacknowledged, and every identifier is exactly one of: free,
      of a queued message, of a SUBSCRIBE or UNSUBSCRIBE waiting for its acknowledgement, or of a QoS 2
      message. */
  ghost predicate Ledger(st: State, log: seq<Entry>) {
    && RangeList.Valid(st.rs, 65535, 0)
    && st.queue == Unacked(log) && DistinctIds(st.queue)
    && Partition5(Free(st.rs), QueueIds(st.queue), Subscribing(log), Unsubscribing(log), ExactlyOnceIds(log))
  }

  /** The identifiers that requests hold, by the log. */
  ghost function InUse(log: seq<Entry>): set<int> {
    QueueIds(Unacked(log)) + Subscribing(log) + Unsubscribing(log) + ExactlyOnceIds(log)
  }

  /** The identifier that an entry takes. */
  function TakenBy(e: Entry): Option<PktId> {
    match e
    case Sent(SubscribePacket(s)) => Some(s.pktid)
    case Sent(UnsubscribePacket(u)) => Some(u.pktid)
    case Sent(PublishPacket(m)) => if m.flags.qos == AtMostOnce then None else m.pktid
    case _ => None
  }

  predicate IsAck(p: Packet) {
    p.SubackPacket? || p.UnsubackPacket? || p.PubackPacket?
  }

  function AckId(p: Packet): PktId
    requires IsAck(p)
  {
    match p
    case SubackPacket(a) => a.pktid
    case UnsubackPacket(a) => a.pktid
    case PubackPacket(a) => a.pktid
  }

  /** How an entry moves the start of the last range of free identifiers, with `used` in use before it. */
  ghost function StartAfter(start: int, used: set<int>, e: Entry): int {
    match e
    case Received(p) =>
      if IsAck(p) && AckId(p) == start - 1 && (start == 2 || start - 2 in used) then start - 1 else start
    case _ => if TakenBy(e).Some? && TakenBy(e).value == start then start + 1 else start
  }

  /** The start of the last range of free identifiers, by the log. */
  ghost function StartByLog(log: seq<Entry>): int {
    if log == [] then 1
    else StartAfter(StartByLog(log[..|log| - 1]), InUse(log[..|log| - 1]), log[|log| - 1])
  }

  lemma StartStep(log: seq<Entry>, e: Entry)
    ensures StartByLog(log + [e]) == StartAfter(StartByLog(log), InUse(log), e)
  {
    assert (log + [e])[..|log|] == log;
  }

  // ---- the ledger holds ---------------------------------------------------------------------

  lemma LogStep(log: seq<Entry>, e: Entry)
    ensures Subscribing(log + [e]) == SubscribingAfter(Subscribing(log), e)
    ensures Unsubscribing(log + [e]) == UnsubscribingAfter(Unsubscribing(log), e)
    ensures ExactlyOnceIds(log + [e]) == ExactlyOnceAfter(ExactlyOnceIds(log), e)
    ensures Unacked(log + [e]) == UnackedAfter(Unacked(log), e)
  {
    assert (log + [e])[..|log|] == log;
  }

  /** Moving an identifier from the free ones to one of the others, and back. */
  lemma Moves(f: set<int>, q: set<int>, s: set<int>, u: set<int>, x: set<int>, id: int)
    requires Partition5(f, q, s, u, x)
    ensures id in f ==> Partition5(f - {id}, q + {id}, s, u, x)
    ensures id in f ==> Partition5(f - {id}, q, s + {id}, u, x)
    ensures id in f ==> Partition5(f - {id}, q, s, u + {id}, x)
    ensures id in f ==> Partition5(f - {id}, q, s, u, x + {id})
    ensures id in q ==> Partition5(f + {id}, q - {id}, s, u, x) && id in Ids(65535) && id !in f
    ensures id in s ==> Partition5(f + {id}, q, s - {id}, u, x) && id in Ids(65535) && id !in f
    ensures id in u ==> Partition5(f + {id}, q, s, u - {id}, x) && id in Ids(65535) && id !in f
  {
    hide Ids;
    assert f <= Ids(65535) && q <= Ids(65535) && s <= Ids(65535) && u <= Ids(65535) && x <= Ids(65535);
    if id in f { assert f - {id} + {id} == f; }
    if id in q { assert q - {id} + {id} == q; }
    if id in s { assert s - {id} + {id} == s; }
    if id in u { assert u - {id} + {id} == u; }
  }

  lemma QueueGrows(queue: seq<(PktId, Publish)>, id: PktId, m: Publish)
    requires id !in QueueIds(queue) && DistinctIds(queue)
    ensures QueueIds(queue + [(id, m)]) == QueueIds(queue) + {id}
    ensures DistinctIds(queue + [(id, m)])
  {
    var longer := queue + [(id, m)];
    assert forall q :: q in longer <==> q in queue || q == (id, m);
    assert (id, m) in longer;
    forall x
      ensures x in QueueIds(longer) <==> x in QueueIds(queue) || x == id
    {
    }
    forall i | 0 <= i < |queue|
      ensures queue[i].0 != id
    {
      assert queue[i] in queue;
    }
  }

  lemma NotQueued(st: State, log: seq<Entry>, id: PktId)
    requires Ledger(st, log) && id in Free(st.rs)
    ensures id !in QueueIds(st.queue)
  {
  }

  /** Sending a request with the least free identifier. */
  lemma RequestKeepsLedger(st: State, log: seq<Entry>, c: Command)
    requires Ledger(st, log) && NeedsId(c) && Next(st.rs).Issued?
    ensures var Issued(id, rest) := Next(st.rs);
            Ledger(State(rest, Queued(st.queue, c, id), st.pong), log + [Sent(Request(c, id))])
  {
    hide Next, Free, RangeList.Valid, QueueIds, DistinctIds, Partition5;
    NextRefines(st.rs, 65535, 0);
    var id := Next(st.rs).id;
    LogStep(log, Sent(Request(c, id)));
    Moves(Free(st.rs), QueueIds(st.queue), Subscribing(log), Unsubscribing(log), ExactlyOnceIds(log), id);
    NotQueued(st, log, id);
    if c.PublishCommand? {
      QueueGrows(st.queue, id, NewPublish(c, Some(id)));
    }
  }

  lemma {:induction false} NothingWithout(queue: seq<(PktId, Publish)>, id: PktId)
    requires forall q :: q in queue ==> q.0 != id
    ensures Without(queue, id) == queue
  {
    if queue == [] {
    } else {
      assert queue[0] in queue;
      NothingWithout(queue[1..], id);
    }
  }

  lemma {:induction false} WithoutDistinct(queue: seq<(PktId, Publish)>, id: PktId)
    requires DistinctIds(queue)
    ensures DistinctIds(Without(queue, id))
  {
    if queue == [] {
    } else {
      var tail := queue[1..];
      WithoutDistinct(tail, id);
      if queue[0].0 != id {
        var rest := Without(tail, id);
        assert Without(queue, id) == [queue[0]] + rest;
        hide Without;
        forall j | 0 <= j < |rest|
          ensures rest[j].0 != queue[0].0
        {
          assert rest[j] in tail;
        }
      }
    }
  }

  lemma WithoutIds(queue: seq<(PktId, Publish)>, id: PktId)
    ensures QueueIds(Without(queue, id)) == QueueIds(queue) - {id}
  {
    hide Without, QueueIds;
    var rest := Without(queue, id);
    forall x
      ensures x in QueueIds(rest) <==> x in QueueIds(queue) && x != id
    {
      if x in QueueIds(queue) && x != id {
        var q :| q in queue && q.0 == x;
        assert q in rest;
      }
    }
  }

  lemma {:induction false} RemoveIsWithout(queue: seq<(PktId, Publish)>, id: PktId)
    requires DistinctIds(queue)
    ensures RemoveFirst(queue, id) == Without(queue, id) && DistinctIds(Without(queue, id))
    ensures QueueIds(Without(queue, id)) == QueueIds(queue) - {id}
  {
    WithoutDistinct(queue, id);
    WithoutIds(queue, id);
    if queue == [] {
    } else {
      RemoveIsWithout(queue[1..], id);
      if queue[0].0 == id {
        forall q | q in queue[1..]
          ensures q.0 != id
        {
        }
        NothingWithout(queue[1..], id);
      }
    }
  }

  lemma SolicitedAckKeepsLedger(st: State, log: seq<Entry>, p: Packet)
    requires Ledger(st, log) && IsAck(p) && Solicited(log, p)
    ensures OnPacket(st, p).ending.None? && Ledger(OnPacket(st, p).state, log + [Received(p)])
  {
    hide Free, Insert, Split, RangeList.Valid, QueueIds, DistinctIds, Partition5, RemoveFirst;
    var id := AckId(p);
    LogStep(log, Received(p));
    Moves(Free(st.rs), QueueIds(st.queue), Subscribing(log), Unsubscribing(log), ExactlyOnceIds(log), id);
    InsertRefines(st.rs, 65535, 0, id);
    if p.PubackPacket? {
      RemoveIsWithout(st.queue, id);
    }
  }

  lemma SameFree(f: set<int>, g: set<int>, q: set<int>, s: set<int>, u: set<int>, x: set<int>)
    requires Partition5(f, q, s, u, x) && Partition5(g, q, s, u, x)
    ensures f == g
  {
    assert f == Ids(65535) - q - s - u - x;
    assert g == Ids(65535) - q - s - u - x;
  }

  /** An acknowledgement changes none of the ledger's sets but the free one when it is unsolicited. */
  lemma UnsolicitedChangesNothingElse(st: State, log: seq<Entry>, p: Packet)
    requires Ledger(st, log) && IsAck(p) && !Solicited(log, p)
    ensures var after := log + [Received(p)];
            && Unacked(after) == Unacked(log) && Subscribing(after) == Subscribing(log)
            && Unsubscribing(after) == Unsubscribing(log) && ExactlyOnceIds(after) == ExactlyOnceIds(log)
  {
    LogStep(log, Received(p));
    if p.PubackPacket? {
      NothingWithout(Unacked(log), p.puback.pktid);
    }
  }

  lemma FreeAfterInsert(rs: seq<Range>, id: PktId)
    requires RangeList.Valid(rs, 65535, 0) && Insert(rs, id).Merged?
    ensures !(RangeList.Valid(Insert(rs, id).rest, 65535, 0) && Free(Insert(rs, id).rest) == Free(rs))
  {
    hide Free, Insert, Split;
    if id in Free(rs) {
      InsertOverlaps(rs, 65535, id);
    } else {
      InsertRefines(rs, 65535, 0, id);
    }
  }

  lemma UnsolicitedAckBreaksLedger(st: State, log: seq<Entry>, p: Packet)
    requires Ledger(st, log) && IsAck(p) && !Solicited(log, p)
    ensures !(OnPacket(st, p).ending.None? && Ledger(OnPacket(st, p).state, log + [Received(p)]))
  {
    hide Free, Insert, Split, QueueIds, DistinctIds, Partition5, RemoveFirst, Unacked, Solicited;
    var s := OnPacket(st, p);
    if s.ending.None? && Ledger(s.state, log + [Received(p)]) {
      UnsolicitedChangesNothingElse(st, log, p);
      var id := AckId(p);
      SameFree(Free(st.rs), Free(s.state.rs), QueueIds(st.queue), Subscribing(log), Unsubscribing(log),
               ExactlyOnceIds(log));
      FreeAfterInsert(st.rs, id);
    }
  }

  /** An acknowledgement leaves the ledger in order exactly when it answers an outstanding request of its
      kind: the loop itself never checks. */
  lemma AckExactly(st: State, log: seq<Entry>, p: Packet)
    requires Ledger(st, log) && IsAck(p)
    ensures (OnPacket(st, p).ending.None? && Ledger(OnPacket(st, p).state, log + [Received(p)]))
            <==> Solicited(log, p)
  {
    hide Ledger, OnPacket, Solicited;
    if Solicited(log, p) {
      SolicitedAckKeepsLedger(st, log, p);
    } else {
      UnsolicitedAckBreaksLedger(st, log, p);
    }
  }

  lemma RequestEncodes(c: Command, id: PktId)
    requires NeedsId(c)
    ensures Packets.Encode(Request(c, id)).Wire?
  {
    hide Publishing.Body, FlagBits, EncodeTopics, Vbi.Prefixed;
  }

  /** What neither takes nor returns an identifier leaves the ledger alone. */
  predicate Neutral(e: Event) {
    !(e.Commanded? && NeedsId(e.command)) && !(e.Incoming? && IsAck(e.packet))
  }

  /** Everything read off the log but the pings is the same. */
  ghost predicate SameAccounts(log: seq<Entry>, longer: seq<Entry>) {
    && Unacked(longer) == Unacked(log) && Subscribing(longer) == Subscribing(log)
    && Unsubscribing(longer) == Unsubscribing(log) && ExactlyOnceIds(longer) == ExactlyOnceIds(log)
    && StartByLog(longer) == StartByLog(log)
  }

  lemma NeutralEntry(log: seq<Entry>, e: Entry)
    requires match e
             case Ticked => true
             case Received(p) => !IsAck(p)
             case Sent(p) => || p.PingReqPacket? || p.DisconnectPacket?
                             || (p.PublishPacket? && p.publish.flags.qos == AtMostOnce)
    ensures SameAccounts(log, log + [e])
  {
    hide Unacked, Subscribing, Unsubscribing, ExactlyOnceIds, InUse, StartByLog;
    LogStep(log, e);
    StartStep(log, e);
  }

  /** The ledger does not change with entries that it does not look at. */
  lemma SameLedger(st: State, after: State, log: seq<Entry>, longer: seq<Entry>)
    requires Ledger(st, log) && after.rs == st.rs && after.queue == st.queue
    requires SameAccounts(log, longer)
    ensures Ledger(after, longer)
  {
    hide Free, RangeList.Valid, QueueIds, DistinctIds, Partition5, Unacked, Subscribing, Unsubscribing, ExactlyOnceIds;
  }

  lemma NeutralStep(st: State, e: Event)
    requires st.rs != [] && Neutral(e) && React(st, e).ending != Some(Panicked)
    ensures var s := React(st, e);
            && s.state.rs == st.rs && s.state.queue == st.queue
            && (e.Incoming? ==> s.sent.None?)
            && (s.sent.Some? ==> s.sent.value.PingReqPacket? || s.sent.value.DisconnectPacket?
                                 || (s.sent.value.PublishPacket? && s.sent.value.publish.flags.qos == AtMostOnce))
  {
    hide Publishing.Encode, EncodeTopics, Vbi.Prefixed;
  }

  lemma NeutralEntries(st: State, log: seq<Entry>, e: Event)
    requires st.rs != [] && Neutral(e) && React(st, e).ending != Some(Panicked)
    ensures SameAccounts(log, log + Entries(e, React(st, e)))
  {
    var s := React(st, e);
    NeutralStep(st, e);
    hide Unacked, Subscribing, Unsubscribing, ExactlyOnceIds, StartByLog, React;
    if e.Tick? {
      NeutralEntry(log, Ticked);
      if s.sent.Some? {
        NeutralEntry(log + [Ticked], Sent(s.sent.value));
        assert log + [Ticked] + [Sent(s.sent.value)] == log + Entries(e, s);
      }
    } else if e.Incoming? {
      NeutralEntry(log, Received(e.packet));
      assert Entries(e, s) == [Received(e.packet)];
    } else if s.sent.Some? {
      NeutralEntry(log, Sent(s.sent.value));
      assert Entries(e, s) == [Sent(s.sent.value)];
    } else {
      assert log + Entries(e, s) == log;
    }
  }

  lemma NeutralKeepsLedger(st: State, log: seq<Entry>, e: Event)
    requires Ledger(st, log) && Neutral(e) && React(st, e).ending != Some(Panicked)
    ensures Ledger(React(st, e).state, log + Entries(e, React(st, e)))
  {
    assert st.rs != [];
    hide Ledger, React, Entries, Neutral;
    NeutralStep(st, e);
    NeutralEntries(st, log, e);
    SameLedger(st, React(st, e).state, log, log + Entries(e, React(st, e)));
  }

  lemma AckSendsNothing(st: State, p: Packet)
    requires IsAck(p)
    ensures OnPacket(st, p).sent.None?
  {
    hide Insert, RemoveFirst;
  }

  /** Every step of the loop that does not panic keeps the ledger, if acknowledgements are solicited. */
  lemma StepKeepsLedger(st: State, log: seq<Entry>, e: Event)
    requires Ledger(st, log) && React(st, e).ending != Some(Panicked)
    requires e.Incoming? ==> Solicited(log, e.packet)
    ensures Ledger(React(st, e).state, log + Entries(e, React(st, e)))
  {
    assert st.rs != [];
    hide Ledger, Packets.Encode, Request, Queued, Next, Solicited, OnPacket, OnTick;
    if Neutral(e) {
      NeutralKeepsLedger(st, log, e);
    } else if e.Incoming? {
      SolicitedAckKeepsLedger(st, log, e.packet);
      AckSendsNothing(st, e.packet);
      assert Entries(e, React(st, e)) == [Received(e.packet)];
    } else {
      RequestKeepsLedger(st, log, e.command);
      var id := Next(st.rs).id;
      RequestEncodes(e.command, id);
      assert Entries(e, React(st, e)) == [Sent(Request(e.command, id))];
    }
  }

  // ---- panics, whatever the server does -----------------------------------------------------

  /** A request when 65535 is all that is left. */
  predicate AsksForLast(rs: seq<Range>, e: Event) {
    e.Commanded? && NeedsId(e.command) && rs == [Range(65535, 65535)]
  }

  /** An acknowledgement of an identifier that no range starts above. */
  predicate AckBehind(rs: seq<Range>, e: Event) {
    e.Incoming? && IsAck(e.packet) && forall r :: r in rs ==> r.lo <= AckId(e.packet)
  }

  predicate PublishAboveQos0(e: Event) {
    e.Incoming? && e.packet.PublishPacket? && e.packet.publish.flags.qos != AtMostOnce
  }

  lemma NotEmpty(rs: seq<Range>)
    requires Full(rs)
    ensures rs != []
  {
  }

  lemma StepKeepsFull(st: State, e: Event)
    requires Full(st.rs) && React(st, e).ending != Some(Panicked)
    ensures Full(React(st, e).state.rs)
  {
    hide Full, Free, Insert, Next, Request, Queued, RemoveFirst, Packets.Encode;
    assert st.rs != [] by { NotEmpty(st.rs); }
    if e.Commanded? {
      NextFull(st.rs);
    } else if e.Incoming? && IsAck(e.packet) {
      InsertFull(st.rs, AckId(e.packet));
    }
  }

  /** Whatever is acknowledged, the last range of free identifiers ends at 65535, and no other does, until
      the loop panics. */
  lemma {:induction false} RunsKeepFull(events: seq<Event>)
    requires Replay(events).ending != Some(Panicked)
    ensures Full(Replay(events).state.rs)
  {
    hide React, Entries;
    if events == [] {
    } else {
      var before := Replay(events[..|events| - 1]);
      RunsKeepFull(events[..|events| - 1]);
      if before.ending.None? {
        StepKeepsFull(before.state, events[|events| - 1]);
      }
    }
  }

  /** So in no run is a request for an identifier ever refused: 65535 stays free. */
  lemma NeverRefused(events: seq<Event>)
    requires Replay(events).ending != Some(Panicked)
    ensures 65535 in Free(Replay(events).state.rs) && !Next(Replay(events).state.rs).Exhausted?
  {
    hide Replay, Free, Next;
    RunsKeepFull(events);
    NextFull(Replay(events).state.rs);
  }

  /** The loop panics in exactly four cases: an identifier is asked for when only 65535 is left; any
      acknowledgement, asked for or not, names an identifier that no range of free ones starts above; a
      PUBLISH above QoS 0 comes in; or the decoder panics. */
  lemma PanicExactly(st: State, e: Event)
    requires Full(st.rs)
    ensures st.rs != []
    ensures React(st, e).ending == Some(Panicked)
            <==> AsksForLast(st.rs, e) || AckBehind(st.rs, e) || PublishAboveQos0(e) || e.ReadPanic?
  {
    hide Free, Insert, Split, Next, Request, Queued, RemoveFirst;
    NextFull(st.rs);
    if e.Commanded? && NeedsId(e.command) {
      if Next(st.rs).Issued? {
        RequestEncodes(e.command, Next(st.rs).id);
      }
    } else if e.Incoming? && IsAck(e.packet) {
      InsertFull(st.rs, AckId(e.packet));
    }
  }

  /** After any run, whatever the server did, exactly those events panic. */
  lemma AnyRunPanicsExactly(events: seq<Event>, e: Event)
    requires Replay(events).ending.None?
    ensures var rs := Replay(events).state.rs;
            Replay(events + [e]).ending == Some(Panicked)
            <==> AsksForLast(rs, e) || AckBehind(rs, e) || PublishAboveQos0(e) || e.ReadPanic?
  {
    hide React, Replay, AsksForLast, AckBehind, PublishAboveQos0;
    ReplayNext(events, e);
    RunsKeepFull(events);
    PanicExactly(Replay(events).state, e);
  }

  /** A new loop does not survive a single stray acknowledgement, of whatever kind and identifier. */
  lemma StrayAckPanics(p: Packet)
    requires IsAck(p)
    ensures React(NEW_STATE, Incoming(p)).ending == Some(Panicked)
    ensures Replay([Incoming(p)]).ending == Some(Panicked)
  {
    PanicExactly(NEW_STATE, Incoming(p));
    ReplayNothing();
    ReplayNext([], Incoming(p));
    assert [] + [Incoming(p)] == [Incoming(p)];
  }

  // ---- the ledger over runs -----------------------------------------------------------------

  lemma NewLedger()
    ensures Ledger(NEW_STATE, [])
  {
    InitialValid(65535);
    assert QueueIds([]) == {};
  }

  lemma FaithfulPrefix(log: seq<Entry>, n: nat)
    requires n <= |log| && FaithfulServer(log)
    ensures FaithfulServer(log[..n])
  {
    hide Solicited;
    assert forall i :: 0 <= i < n ==> log[..n][i] == log[i] && log[..n][..i] == log[..i];
  }

  lemma LastReceived(before: Run, e: Event, log: seq<Entry>)
    requires before.state.rs != [] && FaithfulServer(log)
    requires log == before.log + Entries(e, React(before.state, e))
    ensures e.Incoming? ==> Solicited(before.log, e.packet)
  {
    hide Solicited, React;
    if e.Incoming? {
      var n := |before.log|;
      assert log[n] == Received(e.packet);
      assert log[..n] == before.log;
    }
  }

  /** In every run against a faithful server, as long as nothing panics, the identifiers are partitioned
      between the free ones and the four kinds of request that hold one, and the queue holds the QoS 1
      messages sent and not acknowledged, in order. */
  lemma {:induction false} RunsKeepLedger(events: seq<Event>)
    requires FaithfulServer(Replay(events).log) && Replay(events).ending != Some(Panicked)
    ensures Ledger(Replay(events).state, Replay(events).log)
  {
    hide Ledger, React, Solicited, Entries;
    if events == [] {
      NewLedger();
    } else {
      var before, e := Replay(events[..|events| - 1]), events[|events| - 1];
      var log := Replay(events).log;
      FaithfulPrefix(log, |before.log|);
      assert log[..|before.log|] == before.log;
      RunsKeepLedger(events[..|events| - 1]);
      if before.ending.None? {
        LastReceived(before, e, log);
        StepKeepsLedger(before.state, before.log, e);
      }
    }
  }

  lemma LedgerFull(st: State, log: seq<Entry>)
    requires Ledger(st, log)
    ensures Full(st.rs)
  {
    var rs := st.rs;
    assert forall i :: 0 <= i < |rs| - 1 ==> rs[i].hi < rs[|rs| - 1].lo;
  }

  lemma SolicitedNotFree(st: State, log: seq<Entry>, p: Packet)
    requires Ledger(st, log) && IsAck(p) && Solicited(log, p)
    ensures AckId(p) !in Free(st.rs)
  {
    hide Free, RangeList.Valid, QueueIds, Subscribing, Unsubscribing, ExactlyOnceIds, Unacked, DistinctIds;
  }

  /** A request never carries an identifier that is in use. */
  lemma RequestsAreFresh(st: State, log: seq<Entry>, c: Command)
    requires Ledger(st, log) && NeedsId(c) && Next(st.rs).Issued?
    ensures var id := Next(st.rs).id;
            && id != 65535 && id !in QueueIds(st.queue) && id !in Subscribing(log)
            && id !in Unsubscribing(log) && id !in ExactlyOnceIds(log)
  {
    hide Free, RangeList.Valid, Next;
    NextRefines(st.rs, 65535, 0);
    LedgerFull(st, log);
    NextFull(st.rs);
    var id := Next(st.rs).id;
    assert id == 65535 ==> Free(st.rs) == {65535};
  }

  // ---- panics, by the log -------------------------------------------------------------------

  lemma InUseIsRest(st: State, log: seq<Entry>, id: int)
    requires Ledger(st, log)
    ensures id !in Free(st.rs) <==> id !in Ids(65535) || id in InUse(log)
    ensures Free(st.rs) == {65535} <==> InUse(log) == Ids(65535) - {65535}
  {
    hide Ids, QueueIds, Subscribing, Unsubscribing, ExactlyOnceIds, Free;
    LedgerFull(st, log);
    NextFull(st.rs);
    var free, used := Free(st.rs), InUse(log);
    assert free !! used && free + used == Ids(65535);
    assert free == Ids(65535) - used && used == Ids(65535) - free;
    if used == Ids(65535) - {65535} {
      assert free == {65535};
    }
  }

  lemma ReleaseMovesStart(st: State, log: seq<Entry>, id: PktId)
    requires Ledger(st, log) && id !in Free(st.rs)
    ensures Insert(st.rs, id).Merged? && Insert(st.rs, id).rest != []
    ensures var start := LastStart(st.rs);
            LastStart(Insert(st.rs, id).rest)
            == if id == start - 1 && (start == 2 || start - 2 in InUse(log)) then start - 1 else start
  {
    var below: int := id - 1;
    InUseIsRest(st, log, below);
    InsertLastStart(st.rs, 65535, id);
    hide Free, InUse, Insert, LastStart, Partition5, Sorted, DistinctIds;
  }

  lemma AckKeepsStart(st: State, log: seq<Entry>, p: Packet)
    requires Ledger(st, log) && IsAck(p) && Solicited(log, p) && StartByLog(log) == LastStart(st.rs)
    ensures OnPacket(st, p).state.rs != []
    ensures StartByLog(log + [Received(p)]) == LastStart(OnPacket(st, p).state.rs)
  {
    hide Ledger, Free, Solicited, InUse, Insert, LastStart, RemoveFirst, StartByLog;
    SolicitedNotFree(st, log, p);
    ReleaseMovesStart(st, log, AckId(p));
    StartStep(log, Received(p));
  }

  lemma IssueMovesStart(st: State, log: seq<Entry>)
    requires Ledger(st, log) && Next(st.rs).Issued?
    ensures Next(st.rs).rest != []
    ensures LastStart(Next(st.rs).rest)
         == if Next(st.rs).id == LastStart(st.rs) then LastStart(st.rs) + 1 else LastStart(st.rs)
  {
    hide Free, Next, LastStart, Partition5, DistinctIds;
    LedgerFull(st, log);
    NextFull(st.rs);
    NextLastStart(st.rs, 65535);
  }

  lemma RequestTakes(c: Command, id: PktId)
    requires NeedsId(c)
    ensures TakenBy(Sent(Request(c, id))) == Some(id)
  {
  }

  lemma RequestKeepsStart(st: State, log: seq<Entry>, c: Command)
    requires Ledger(st, log) && NeedsId(c) && Next(st.rs).Issued? && StartByLog(log) == LastStart(st.rs)
    ensures Next(st.rs).rest != []
    ensures StartByLog(log + [Sent(Request(c, Next(st.rs).id))]) == LastStart(Next(st.rs).rest)
  {
    assert st.rs != [];
    hide Ledger, InUse, Next, LastStart, StartByLog, Request, TakenBy;
    IssueMovesStart(st, log);
    RequestTakes(c, Next(st.rs).id);
    StartStep(log, Sent(Request(c, Next(st.rs).id)));
  }

  /** A step against a faithful server moves the start of the last range as its entries say. */
  lemma StepKeepsStart(st: State, log: seq<Entry>, e: Event)
    requires Ledger(st, log) && StartByLog(log) == LastStart(st.rs) && React(st, e).ending != Some(Panicked)
    requires e.Incoming? ==> Solicited(log, e.packet)
    ensures React(st, e).state.rs != []
    ensures StartByLog(log + Entries(e, React(st, e))) == LastStart(React(st, e).state.rs)
  {
    assert st.rs != [];
    hide Ledger, Packets.Encode, Request, Queued, Next, Solicited, OnPacket, OnTick, LastStart, StartByLog;
    if Neutral(e) {
      NeutralEntries(st, log, e);
      NeutralStep(st, e);
    } else if e.Incoming? {
      AckKeepsStart(st, log, e.packet);
      AckSendsNothing(st, e.packet);
      assert Entries(e, React(st, e)) == [Received(e.packet)];
    } else {
      RequestKeepsStart(st, log, e.command);
      var id := Next(st.rs).id;
      RequestEncodes(e.command, id);
      assert Entries(e, React(st, e)) == [Sent(Request(e.command, id))];
    }
  }

  lemma NewStart()
    ensures LastStart(NEW_STATE.rs) == StartByLog([])
  {
  }

  lemma {:induction false} RunsKeepStart(events: seq<Event>)
    requires FaithfulServer(Replay(events).log) && Replay(events).ending != Some(Panicked)
    ensures LastStart(Replay(events).state.rs) == StartByLog(Replay(events).log)
  {
    hide Ledger, React, Solicited, Entries, StartByLog, LastStart;
    if events == [] {
      NewStart();
    } else {
      var before, e := Replay(events[..|events| - 1]), events[|events| - 1];
      var log := Replay(events).log;
      FaithfulPrefix(log, |before.log|);
      assert log[..|before.log|] == before.log;
      RunsKeepLedger(events[..|events| - 1]);
      RunsKeepStart(events[..|events| - 1]);
      if before.ending.None? {
        LastReceived(before, e, log);
        StepKeepsStart(before.state, before.log, e);
      }
    }
  }

  /** With the ledger in order, the two conditions on the free ranges read as conditions on identifiers. */
  lemma LedgerPanics(st: State, log: seq<Entry>, e: Event)
    requires Ledger(st, log)
    ensures AsksForLast(st.rs, e) <==> e.Commanded? && NeedsId(e.command) && InUse(log) == Ids(65535) - {65535}
    ensures AckBehind(st.rs, e) <==> e.Incoming? && IsAck(e.packet) && LastStart(st.rs) <= AckId(e.packet)
  {
    hide Free, Insert, Next, InUse;
    LedgerFull(st, log);
    NextFull(st.rs);
    NextRefines(st.rs, 65535, 0);
    InUseIsRest(st, log, 0);
    if e.Incoming? && IsAck(e.packet) {
      InsertFull(st.rs, AckId(e.packet));
      InsertOverflowExactly(st.rs, 65535, AckId(e.packet));
    }
  }

  lemma LedgerFree(st: State, log: seq<Entry>, id: PktId)
    requires Ledger(st, log)
    ensures st.rs != [] && (LastStart(st.rs) <= id ==> id in Free(st.rs))
  {
    hide Free;
    InsertOverflowExactly(st.rs, 65535, id);
  }

  /** An acknowledgement behind the free ranges answers nothing. */
  lemma AckBehindIsUnsolicited(st: State, log: seq<Entry>, e: Event)
    requires Ledger(st, log) && AckBehind(st.rs, e)
    ensures !Solicited(log, e.packet)
  {
    hide Free, Solicited, InUse, Ledger, AckBehind;
    LedgerPanics(st, log, e);
    LedgerFree(st, log, AckId(e.packet));
    if Solicited(log, e.packet) {
      SolicitedNotFree(st, log, e.packet);
    }
  }

  /** Against a faithful server the panics can be read off the log: the next event, whatever it is, panics
      if and only if an identifier is asked for when all but 65535 are in use, or it acknowledges an
      identifier from the start of the last free range on, or is a PUBLISH above QoS 0, or makes the
      decoder panic. */
  lemma RunPanicsExactly(events: seq<Event>, e: Event)
    requires Replay(events).ending.None? && FaithfulServer(Replay(events).log)
    ensures var log := Replay(events).log;
            Replay(events + [e]).ending == Some(Panicked)
            <==> || (e.Commanded? && NeedsId(e.command) && InUse(log) == Ids(65535) - {65535})
                 || (e.Incoming? && IsAck(e.packet) && StartByLog(log) <= AckId(e.packet))
                 || PublishAboveQos0(e) || e.ReadPanic?
  {
    hide Replay, Ledger, FaithfulServer, NeedsId, IsAck, AckId, AsksForLast, AckBehind, PublishAboveQos0, InUse,
      StartByLog, LastStart;
    AnyRunPanicsExactly(events, e);
    RunsKeepLedger(events);
    RunsKeepStart(events);
    LedgerPanics(Replay(events).state, Replay(events).log, e);
  }

  // ---- a run to exhaustion ------------------------------------------------------------------

  function Repeated(e: Event, n: nat): (r: seq<Event>)
    ensures |r| == n
  {
    if n == 0 then [] else Repeated(e, n - 1) + [e]
  }

  lemma SubscribeStep(c: Command, n: PktId)
    requires c.SubscribeCommand? && n <= 65534
    ensures React(State([Range(n, 65535)], [], None), Commanded(c))
         == Step(State([Range(n + 1, 65535)], [], None), Some(Request(c, n)), None)
  {
    assert Next([Range(n, 65535)]) == Issued(n, [Range(n + 1, 65535)]);
    RequestEncodes(c, n);
    hide Packets.Encode, Request, Next;
  }

  lemma NextRepeated(e: Event, n: nat)
    ensures Repeated(e, 0) == []
    ensures Repeated(e, n + 1) == Repeated(e, n) + [e]
  {
  }

  /** SUBSCRIBEs that are never acknowledged use up the identifiers from the front. */
  lemma {:induction false} SubscribesTakeAll(c: Command, n: nat)
    requires c.SubscribeCommand? && n <= 65534
    ensures var r := Replay(Repeated(Commanded(c), n));
            && r.state == State([Range(n + 1, 65535)], [], None) && r.ending.None? && |r.log| == n
            && forall i :: 0 <= i < n ==> r.log[i] == Sent(Request(c, i + 1))
  {
    hide React, Request, Replay, Repeated;
    if n == 0 {
      NextRepeated(Commanded(c), 0);
      ReplayNothing();
    } else {
      SubscribesTakeAll(c, n - 1);
      SubscribeStep(c, n);
      NextRepeated(Commanded(c), n - 1);
      ReplayNext(Repeated(Commanded(c), n - 1), Commanded(c));
    }
  }

  lemma OneFree()
    ensures Free([Range(65535, 65535)]) == {65535}
  {
    var rs := [Range(65535, 65535)];
    assert forall x :: Covered(rs, x) <==> Holds(rs[0], x);
  }

  lemma LastStep(before: seq<Event>, c: Command)
    requires NeedsId(c) && Replay(before).ending.None? && Replay(before).state.rs == [Range(65535, 65535)]
    ensures Replay(before + [Commanded(c)]).ending == Some(Panicked)
  {
    ReplayNext(before, Commanded(c));
    assert Next([Range(65535, 65535)]) == Overflow;
  }

  /** And the 65535th of them panics, though one identifier is free. */
  lemma LastSubscribePanics(c: Command, n: nat)
    requires c.SubscribeCommand? && n == 65534
    ensures FaithfulServer(Replay(Repeated(Commanded(c), n)).log)
    ensures Free(Replay(Repeated(Commanded(c), n)).state.rs) == {65535}
    ensures Replay(Repeated(Commanded(c), n + 1)).ending == Some(Panicked)
  {
    hide Repeated, Replay, Request, React;
    var before := Repeated(Commanded(c), n);
    SubscribesTakeAll(c, n);
    OneFree();
    NextRepeated(Commanded(c), n);
    LastStep(before, c);
  }

  lemma SentIsWire(st: State, e: Event)
    requires st.rs != []
    ensures React(st, e).sent.Some? ==> Packets.Encode(React(st, e).sent.value).Wire?
  {
    hide Publishing.Encode, EncodeNotes, EncodeTopics, Vbi.Prefixed, Insert, Next, Request, RemoveFirst;
  }

  lemma EntryEncodes(st: State, e: Event)
    requires st.rs != []
    ensures forall i :: 0 <= i < |Entries(e, React(st, e))| && Entries(e, React(st, e))[i].Sent? ==>
              Packets.Encode(Entries(e, React(st, e))[i].packet).Wire?
  {
    hide React, Packets.Encode;
    SentIsWire(st, e);
  }

  // ---- commands are carried out -------------------------------------------------------------

  /** The events a run looks at: those up to its end. */
  function Seen(events: seq<Event>): seq<Event> {
    if events == [] then []
    else
      var before := events[..|events| - 1];
      Seen(before) + if Replay(before).ending.Some? then [] else [events[|events| - 1]]
  }

  function CommandsIn(events: seq<Event>): seq<Command> {
    if events == [] then []
    else
      var e := events[|events| - 1];
      CommandsIn(events[..|events| - 1]) + if e.Commanded? then [e.command] else []
  }

  function PacketsIn(events: seq<Event>): seq<Packet> {
    if events == [] then []
    else
      var e := events[|events| - 1];
      PacketsIn(events[..|events| - 1]) + if e.Incoming? then [e.packet] else []
  }

  /** The packets sent, but for PINGREQs. */
  function Requested(log: seq<Entry>): seq<Packet> {
    if log == [] then []
    else
      var e := log[|log| - 1];
      Requested(log[..|log| - 1]) + if e.Sent? && !e.packet.PingReqPacket? then [e.packet] else []
  }

  function ReceivedIn(log: seq<Entry>): seq<Packet> {
    if log == [] then []
    else
      var e := log[|log| - 1];
      ReceivedIn(log[..|log| - 1]) + if e.Received? then [e.packet] else []
  }

  /** The packet says what the command says: a PUBLISH that is no duplicate, with an identifier just above
      QoS 0, a SUBSCRIBE or UNSUBSCRIBE with the filters, or a DISCONNECT with reason 0. */
  predicate CarriesOut(c: Command, p: Packet) {
    match c
    case PublishCommand(topic, payload, properties, qos, retain) =>
      && p.PublishPacket? && p.publish.topic == topic && p.publish.payload == payload
      && p.publish.properties == properties && p.publish.flags.qos == qos
      && p.publish.flags.retain == retain && !p.publish.flags.dup
      && (p.publish.pktid.Some? <==> qos != AtMostOnce)
    case SubscribeCommand(filter, maxQos) =>
      && p.SubscribePacket? && p.subscribe.topic == filter && p.subscribe.qos == maxQos
      && !p.subscribe.noLocal && !p.subscribe.retainAsPublished
    case UnsubscribeCommand(filters) => p.UnsubscribePacket? && p.unsubscribe.topics == filters
    case DisconnectCommand => p.DisconnectPacket? && p.disconnect.reason == 0 && p.disconnect.properties == []
  }

  lemma ExtendLog(log: seq<Entry>, e: Entry)
    ensures Requested(log + [e])
         == Requested(log) + if e.Sent? && !e.packet.PingReqPacket? then [e.packet] else []
    ensures ReceivedIn(log + [e]) == ReceivedIn(log) + if e.Received? then [e.packet] else []
  {
    assert (log + [e])[..|log|] == log;
  }

  /** What an answer adds to the log. */
  lemma ExtendEntries(log: seq<Entry>, e: Event, s: Step)
    ensures Requested(log + Entries(e, s))
         == Requested(log) + if s.sent.Some? && !s.sent.value.PingReqPacket? then [s.sent.value] else []
    ensures ReceivedIn(log + Entries(e, s)) == ReceivedIn(log) + if e.Incoming? then [e.packet] else []
  {
    hide Requested, ReceivedIn;
    var first: seq<Entry> := match e case Tick => [Ticked] case Incoming(p) => [Received(p)] case _ => [];
    if first != [] {
      assert first == [first[0]];
      ExtendLog(log, first[0]);
    } else {
      assert log + first == log;
    }
    if s.sent.Some? {
      ExtendLog(log + first, Sent(s.sent.value));
      assert log + first + [Sent(s.sent.value)] == log + Entries(e, s);
    } else {
      assert log + first == log + Entries(e, s);
    }
  }

  /** A command is answered by one packet that carries it out; nothing else is, but a tick by a PINGREQ. */
  lemma StepAnswers(st: State, e: Event)
    requires st.rs != [] && React(st, e).ending != Some(Panicked)
    ensures e.Commanded? ==> React(st, e).sent.Some? && CarriesOut(e.command, React(st, e).sent.value)
    ensures e.Tick? && React(st, e).ending.None? ==> React(st, e).sent == Some(PingReqPacket)
    ensures e.Tick? && React(st, e).ending.Some? ==> React(st, e).sent.None?
    ensures !e.Commanded? && !e.Tick? ==> React(st, e).sent.None?
  {
    hide Publishing.Encode, EncodeTopics, Vbi.Prefixed, Insert, Next, RemoveFirst;
  }

  lemma SeenNext(events: seq<Event>)
    requires events != []
    ensures var before, e := events[..|events| - 1], events[|events| - 1];
            && (Replay(before).ending.Some? ==> Seen(events) == Seen(before) && Replay(events) == Replay(before))
            && (Replay(before).ending.None? ==>
                  && Seen(events) == Seen(before) + [e]
                  && CommandsIn(Seen(events)) == CommandsIn(Seen(before)) + (if e.Commanded? then [e.command] else [])
                  && PacketsIn(Seen(events)) == PacketsIn(Seen(before)) + (if e.Incoming? then [e.packet] else []))
  {
    hide React;
    var before, e := events[..|events| - 1], events[|events| - 1];
    if Replay(before).ending.None? {
      assert Seen(events)[..|Seen(before)|] == Seen(before);
    } else {
      assert Seen(before) + [] == Seen(before);
    }
  }

  lemma NotPing(c: Command, p: Packet)
    requires CarriesOut(c, p)
    ensures !p.PingReqPacket?
  {
  }

  lemma NothingAsked()
    ensures CommandsIn(Seen([])) == [] && PacketsIn(Seen([])) == []
    ensures Requested([]) == [] && ReceivedIn([]) == []
  {
  }

  /** In every run that does not panic, whatever the server does, the packets sent, but for PINGREQs, are one
      for each command, in the order of the commands, and each carries out its command. */
  lemma {:induction false} CommandsCarriedOut(events: seq<Event>)
    requires Replay(events).ending != Some(Panicked)
    ensures var commands, packets := CommandsIn(Seen(events)), Requested(Replay(events).log);
            |packets| == |commands| && forall i :: 0 <= i < |commands| ==> CarriesOut(commands[i], packets[i])
  {
    hide React, Seen, CommandsIn, Requested, CarriesOut, Entries;
    if events == [] {
      NothingAsked();
    } else {
      var before, e := events[..|events| - 1], events[|events| - 1];
      SeenNext(events);
      CommandsCarriedOut(before);
      if Replay(before).ending.None? {
        var s := React(Replay(before).state, e);
        StepAnswers(Replay(before).state, e);
        ExtendEntries(Replay(before).log, e, s);
        hide Replay;
        if e.Commanded? {
          NotPing(e.command, s.sent.value);
        }
      }
    }
  }

  /** In every run the log holds the packets that came in, in order. */
  lemma {:induction false} ReceivesInOrder(events: seq<Event>)
    ensures ReceivedIn(Replay(events).log) == PacketsIn(Seen(events))
  {
    hide React, Seen, PacketsIn, ReceivedIn, Entries;
    if events == [] {
      NothingAsked();
    } else {
      var before, e := events[..|events| - 1], events[|events| - 1];
      SeenNext(events);
      ReceivesInOrder(before);
      if Replay(before).ending.None? {
        ExtendEntries(Replay(before).log, e, React(Replay(before).state, e));
      }
    }
  }

  // ---- how a run ends -----------------------------------------------------------------------

  lemma StepEnds(st: State, e: Event)
    requires st.rs != []
    ensures var end := React(st, e).ending;
            && (end == Some(Closed) <==>
                  || e.StreamDone? || e == Commanded(DisconnectCommand)
                  || (e.Incoming? && e.packet.DisconnectPacket? && e.packet.disconnect.reason == 0))
            && (forall r :: end == Some(DisconnectedBy(r)) <==>
                  e.Incoming? && e.packet.DisconnectPacket? && e.packet.disconnect.reason == r && r > 0)
            && (end == Some(ReadFailed) <==> e.ReadError?)
  {
    hide Publishing.Encode, EncodeTopics, Vbi.Prefixed, Insert, Next, RemoveFirst;
  }

  /** After any run that has not ended, the next event ends it in order exactly when it is a DISCONNECT from the
      server with reason 0, the end of the stream or a disconnect command; by a reason above 0 exactly when it is
      a DISCONNECT with that reason; and with a read error exactly on one. */
  lemma EndsExactly(events: seq<Event>, e: Event)
    requires Replay(events).ending.None?
    ensures var end := Replay(events + [e]).ending;
            && (end == Some(Closed) <==>
                  || e.StreamDone? || e == Commanded(DisconnectCommand)
                  || (e.Incoming? && e.packet.DisconnectPacket? && e.packet.disconnect.reason == 0))
            && (forall r :: end == Some(DisconnectedBy(r)) <==>
                  e.Incoming? && e.packet.DisconnectPacket? && e.packet.disconnect.reason == r && r > 0)
            && (end == Some(ReadFailed) <==> e.ReadError?)
  {
    hide React, Replay;
    ReplayNext(events, e);
    StepEnds(Replay(events).state, e);
  }

  /** Everything a run sends can be encoded. */
  lemma {:induction false} SentEncodes(events: seq<Event>)
    ensures forall i :: 0 <= i < |Replay(events).log| && Replay(events).log[i].Sent? ==>
              Packets.Encode(Replay(events).log[i].packet).Wire?
  {
    hide React, Packets.Encode, Entries;
    if events == [] {
    } else {
      var before, e := Replay(events[..|events| - 1]), events[|events| - 1];
      SentEncodes(events[..|events| - 1]);
      if before.ending.None? {
        EntryEncodes(before.state, e);
      }
    }
  }

  // ---- the queue, by positions in the log ---------------------------------------------------

  predicate Acks(e: Entry, id: PktId) {
    e.Received? && e.packet.PubackPacket? && e.packet.puback.pktid == id
  }

  /** The QoS 1 message an entry sends, with its identifier. */
  function MessageOf(e: Entry): Option<(PktId, Publish)> {
    match e
    case Sent(PublishPacket(m)) =>
      if m.flags.qos == AtLeastOnce && m.pktid.Some? then Some((m.pktid.value, m)) else None
    case _ => None
  }

  /** A QoS 1 message was sent at `n` and no PUBACK for its identifier came after it. */
  ghost predicate OpenAt(log: seq<Entry>, n: nat)
    requires n < |log|
  {
    MessageOf(log[n]).Some? && forall j :: n < j < |log| ==> !Acks(log[j], MessageOf(log[n]).value.0)
  }

  /** The open messages among the first `n` entries, in the order of the log. */
  ghost function OpenMessages(log: seq<Entry>, n: nat): seq<(PktId, Publish)>
    requires n <= |log|
  {
    if n == 0 then []
    else OpenMessages(log, n - 1) + if OpenAt(log, n - 1) then [MessageOf(log[n - 1]).value] else []
  }

  lemma {:induction false} WithoutSnoc(queue: seq<(PktId, Publish)>, q: (PktId, Publish), id: PktId)
    ensures Without(queue + [q], id) == Without(queue, id) + if q.0 == id then [] else [q]
  {
    if queue == [] {
      assert [] + [q] == [q];
    } else {
      assert (queue + [q])[1..] == queue[1..] + [q];
      WithoutSnoc(queue[1..], q, id);
    }
  }

  lemma WithoutNothing()
    ensures forall id: PktId :: Without([], id) == []
  {
  }

  lemma OpenAtStep(log: seq<Entry>, e: Entry, n: nat)
    requires n < |log|
    ensures OpenAt(log, n) ==> MessageOf(log[n]).Some?
    ensures OpenAt(log + [e], n) <==> OpenAt(log, n) && !Acks(e, MessageOf(log[n]).value.0)
  {
    hide MessageOf, Acks;
    var longer := log + [e];
    assert forall j :: 0 <= j < |log| ==> longer[j] == log[j];
    assert longer[|log|] == e;
  }

  /** What one more entry does to the open messages before it. */
  lemma {:induction false} OpenStep(log: seq<Entry>, e: Entry, n: nat)
    requires n <= |log|
    ensures OpenMessages(log + [e], n)
         == if e.Received? && e.packet.PubackPacket? then Without(OpenMessages(log, n), e.packet.puback.pktid)
            else OpenMessages(log, n)
  {
    hide MessageOf, Without;
    if n == 0 {
      WithoutNothing();
    } else {
      OpenStep(log, e, n - 1);
      OpenAtStep(log, e, n - 1);
      assert (log + [e])[n - 1] == log[n - 1];
      hide OpenAt;
      var before := OpenMessages(log, n - 1);
      assert before + [] == before;
      assert OpenMessages(log + [e], n - 1) + [] == OpenMessages(log + [e], n - 1);
      if OpenAt(log, n - 1) && e.Received? && e.packet.PubackPacket? {
        WithoutSnoc(OpenMessages(log, n - 1), MessageOf(log[n - 1]).value, e.packet.puback.pktid);
      }
    }
  }

  lemma OpenLast(log: seq<Entry>)
    requires log != []
    ensures var n := |log| - 1;
            OpenMessages(log, |log|)
            == OpenMessages(log, n) + if MessageOf(log[n]).Some? then [MessageOf(log[n]).value] else []
  {
    hide MessageOf;
  }

  /** The queue of the ledger is what the log shows: each QoS 1 message sent with no PUBACK for its
      identifier after it, in the order of sending. */
  lemma {:induction false} QueueIsOpenMessages(log: seq<Entry>)
    ensures Unacked(log) == OpenMessages(log, |log|)
  {
    if log == [] {
    } else {
      hide Unacked, OpenMessages, Subscribing, Unsubscribing, ExactlyOnceIds;
      var n := |log| - 1;
      var before, e := log[..n], log[n];
      assert before + [e] == log;
      QueueIsOpenMessages(before);
      LogStep(before, e);
      OpenStep(before, e, n);
      OpenLast(log);
      assert Unacked(before) + [] == Unacked(before);
    }
  }

  /** The queue of every run against a faithful server, as long as nothing panics, is the messages that are
      open in its log, in the order of the log. */
  lemma RunQueueIsOpen(events: seq<Event>)
    requires FaithfulServer(Replay(events).log) && Replay(events).ending != Some(Panicked)
    ensures Replay(events).state.queue == OpenMessages(Replay(events).log, |Replay(events).log|)
  {
    hide Replay, FaithfulServer, Unacked, OpenMessages;
    RunsKeepLedger(events);
    QueueIsOpenMessages(Replay(events).log);
  }

  // ---- keep-alive ---------------------------------------------------------------------------

  predicate PingAt(log: seq<Entry>, i: nat)
    requires i < |log|
  {
    log[i] == Sent(PingReqPacket)
  }

  predicate PongAt(log: seq<Entry>, i: nat)
    requires i < |log|
  {
    log[i] == Received(PingRespPacket)
  }

  /** The last PINGREQ has not been answered. */
  ghost predicate Awaiting(log: seq<Entry>) {
    exists i :: 0 <= i < |log| && PingAt(log, i) && forall j :: i < j < |log| ==> !PongAt(log, j)
  }

  /** One more entry: a PINGREQ starts the wait, a PINGRESP ends it, anything else changes nothing. */
  lemma AwaitingStep(log: seq<Entry>, e: Entry)
    ensures Awaiting(log + [e]) <==> e == Sent(PingReqPacket) || (e != Received(PingRespPacket) && Awaiting(log))
  {
    var longer, n := log + [e], |log|;
    assert forall i :: 0 <= i < n ==> PingAt(longer, i) == PingAt(log, i) && PongAt(longer, i) == PongAt(log, i);
    if e == Sent(PingReqPacket) {
      assert PingAt(longer, n);
    } else if e != Received(PingRespPacket) && Awaiting(log) {
      var i :| 0 <= i < n && PingAt(log, i) && forall j :: i < j < n ==> !PongAt(log, j);
      assert PingAt(longer, i);
      assert forall j :: i < j < |longer| ==> !PongAt(longer, j);
    }
    if Awaiting(longer) && e != Sent(PingReqPacket) {
      var i :| 0 <= i < |longer| && PingAt(longer, i) && forall j :: i < j < |longer| ==> !PongAt(longer, j);
      assert PingAt(log, i) && !PongAt(longer, n);
      assert forall j :: i < j < n ==> !PongAt(log, j);
    }
  }

  /** Between any two PINGREQs there is a PINGRESP. */
  ghost predicate Alternating(log: seq<Entry>) {
    forall i, j :: 0 <= i < j < |log| && PingAt(log, i) && PingAt(log, j) ==>
                     exists k :: i < k < j && PongAt(log, k)
  }

  lemma AlternatingStep(log: seq<Entry>, e: Entry)
    requires Alternating(log) && (e == Sent(PingReqPacket) ==> !Awaiting(log))
    ensures Alternating(log + [e])
  {
    var longer, n := log + [e], |log|;
    assert forall i :: 0 <= i < n ==> PingAt(longer, i) == PingAt(log, i) && PongAt(longer, i) == PongAt(log, i);
    forall i, j | 0 <= i < j < |longer| && PingAt(longer, i) && PingAt(longer, j)
      ensures exists k :: i < k < j && PongAt(longer, k)
    {
      assert PingAt(log, i);
      if j < n {
        assert PingAt(log, j);
        var k :| i < k < j && PongAt(log, k);
        assert PongAt(longer, k);
      } else {
        var k :| i < k < n && PongAt(log, k);
        assert PongAt(longer, k);
      }
    }
  }

  /** What a step says about pings. */
  lemma PingsOfStep(st: State, e: Event)
    requires st.rs != []
    ensures var s := React(st, e);
            && (s.sent == Some(PingReqPacket) <==> e.Tick? && st.pong != Some(false))
            && (e.Incoming? && s.sent.Some? ==> s.sent.value.PubackPacket?)
            && s.state.pong == (if e == Incoming(PingRespPacket) then Some(true)
                                else if s.sent == Some(PingReqPacket) then Some(false) else st.pong)
            && (s.ending == Some(TimedOut) <==> e.Tick? && st.pong == Some(false))
  {
    hide Insert, Next, RemoveFirst, Publishing.Encode;
  }

  lemma NoPing()
    ensures !Awaiting([]) && Alternating([])
  {
  }

  lemma KeepAliveStep(st: State, log: seq<Entry>, e: Event)
    requires st.rs != [] && (st.pong == Some(false) <==> Awaiting(log)) && Alternating(log)
    ensures var after := log + Entries(e, React(st, e));
            (React(st, e).state.pong == Some(false) <==> Awaiting(after)) && Alternating(after)
  {
    hide React, Awaiting, Alternating;
    var s := React(st, e);
    PingsOfStep(st, e);
    var first: seq<Entry> := match e case Tick => [Ticked] case Incoming(p) => [Received(p)] case _ => [];
    if first != [] {
      AwaitingStep(log, first[0]);
      AlternatingStep(log, first[0]);
      assert [first[0]] == first;
    } else {
      assert log + first == log;
    }
    if s.sent.Some? {
      AwaitingStep(log + first, Sent(s.sent.value));
      AlternatingStep(log + first, Sent(s.sent.value));
      assert log + first + [Sent(s.sent.value)] == log + Entries(e, s);
    } else {
      assert log + first == log + Entries(e, s);
    }
  }

  /** The flag says whether the last PINGREQ is unanswered, and PINGREQs alternate with PINGRESPs, in
      every run, whatever the server does. */
  lemma {:induction false} KeepAlive(events: seq<Event>)
    ensures var r := Replay(events);
            (r.state.pong == Some(false) <==> Awaiting(r.log)) && Alternating(r.log)
  {
    hide React, Awaiting, Alternating, Entries;
    if events == [] {
      NoPing();
    } else {
      var before, e := Replay(events[..|events| - 1]), events[|events| - 1];
      KeepAlive(events[..|events| - 1]);
      if before.ending.None? {
        KeepAliveStep(before.state, before.log, e);
      }
    }
  }

  /** The loop times out exactly when a tick finds the last PINGREQ unanswered. */
  lemma TimeoutExactly(events: seq<Event>, e: Event)
    requires Replay(events).ending.None?
    ensures Replay(events + [e]).ending == Some(TimedOut) <==> e.Tick? && Awaiting(Replay(events).log)
  {
    hide React, Replay, Awaiting;
    ReplayNext(events, e);
    KeepAlive(events);
    PingsOfStep(Replay(events).state, e);
  }

  // ---- the imperative form ------------------------------------------------------------------

  /** An acknowledged identifier, if any, is not free. */
  ghost predicate AcksTaken(e: Event, free: set<int>) {
    e.Incoming? && IsAck(e.packet) ==> AckId(e.packet) !in free
  }

  lemma ReplayStep(events: seq<Event>, i: nat)
    requires i < |events| && Replay(events[..i]).ending.None?
    ensures var before := Replay(events[..i]);
            before.state.rs != []
            && Replay(events[..i + 1]).ending == React(before.state, events[i]).ending
            && Replay(events[..i + 1]).state == React(before.state, events[i]).state
            && Replay(events[..i + 1]).log == before.log + Entries(events[i], React(before.state, events[i]))
  {
    hide React;
    assert events[..i + 1][..i] == events[..i];
  }

  /** An event against a faithful server acknowledges only identifiers that are not free. */
  lemma FaithfulStep(events: seq<Event>, i: nat)
    requires i < |events| && Replay(events[..i]).ending.None?
    ensures var before, after := Replay(events[..i]), Replay(events[..i + 1]);
            FaithfulServer(after.log) ==>
              && FaithfulServer(before.log)
              && AcksTaken(events[i], Free(before.state.rs))
  {
    var before, after := Replay(events[..i]), Replay(events[..i + 1]);
    ReplayStep(events, i);
    if FaithfulServer(after.log) {
      assert after.log[..|before.log|] == before.log;
      FaithfulPrefix(after.log, |before.log|);
      LastReceived(before, events[i], after.log);
      RunsKeepLedger(events[..i]);
      if events[i].Incoming? && IsAck(events[i].packet) {
        SolicitedNotFree(before.state, before.log, events[i].packet);
      }
    }
  }

  lemma {:induction false} RemoveAt(queue: seq<(PktId, Publish)>, id: PktId, idx: nat)
    requires idx <= |queue| && (forall i :: 0 <= i < idx ==> queue[i].0 != id) && (idx < |queue| ==> queue[idx].0 == id)
    ensures RemoveFirst(queue, id) == if idx < |queue| then queue[..idx] + queue[idx + 1..] else queue
  {
    if idx == 0 {
    } else {
      var tail := queue[1..];
      RemoveAt(tail, id, idx - 1);
      assert RemoveFirst(queue, id) == [queue[0]] + RemoveFirst(tail, id);
      hide RemoveFirst;
      assert queue == [queue[0]] + tail;
      if idx < |queue| {
        assert queue[..idx] == [queue[0]] + tail[..idx - 1];
        assert queue[idx + 1..] == tail[idx..];
      }
    }
  }

  lemma PlainEncodes(c: Command)
    requires c.PublishCommand? && c.qos == AtMostOnce
    ensures Packets.Encode(PublishPacket(NewPublish(c, None))).Wire?
  {
    hide Publishing.Body, FlagBits, Vbi.Prefixed;
  }

  /** After the end nothing more happens. */
  lemma {:induction false} ReplayEnds(events: seq<Event>, i: nat)
    requires i <= |events|
    ensures i == 0 ==> Replay(events[..i]) == Run(NEW_STATE, [], None)
    ensures i == |events| || Replay(events[..i]).ending.Some? ==> Replay(events) == Replay(events[..i])
    decreases |events| - i
  {
    hide React;
    if i == |events| {
      assert events[..i] == events;
    } else if Replay(events[..i]).ending.Some? {
      assert events[..i + 1][..i] == events[..i];
      ReplayEnds(events, i + 1);
    }
  }

  class EventLoop {
    const pktids: Allocator
    var queue: seq<(PktId, Publish)>
    var pingrespReceived: Option<bool>

    ghost predicate Ready()
      reads this, pktids
    {
      pktids.WellLinked()
    }

    ghost function Now(): (st: State)
      requires Ready()
      reads this, pktids
      ensures st.rs != []
    {
      State(pktids.Ranges(), queue, pingrespReceived)
    }

    /** What a step of the loop amounts to; after a panic there is no state. */
    ghost predicate Did(expected: Step, sent: Option<Packet>, ending: Option<Ending>)
      reads this, pktids
    {
      && sent == expected.sent && ending == expected.ending
      && (ending != Some(Panicked) ==> Ready() && Now() == expected.state)
    }

    /** The allocator is valid: its ranges are sorted, slot 1 is its tail and its slots are bounded. */
    ghost predicate Sound()
      reads this, pktids
    {
      pktids.Valid() && pktids.max == 65535 && pktids.refused == 0
    }

    constructor ()
      ensures fresh(pktids) && Ready() && Sound() && Now() == NEW_STATE
    {
      pktids := new Allocator();
      queue := [];
      pingrespReceived := None;
    }

    /** Takes an identifier for a request: a refusal is not implemented. */
    method TakeId() returns (id: Option<PktId>)
      requires Ready()
      modifies pktids
      ensures match Next(old(pktids.Ranges()))
              case Issued(i, rest) => id == Some(i) && Ready() && pktids.Ranges() == rest
              case _ => id == None
      ensures old(Sound()) && id.Some? ==> Sound()
    {
      hide Next, Linked, Along;
      var r := pktids.NextId();
      id := if r.Granted? then Some(r.id) else None;
    }

    method Tick() returns (sent: Option<Packet>, ending: Option<Ending>)
      requires Ready()
      modifies this
      ensures Did(old(OnTick(Now())), sent, ending)
      ensures old(Sound()) ==> Sound()
    {
      hide Linked, Along;
      if pingrespReceived == Some(false) {
        return None, Some(TimedOut);
      }
      pingrespReceived := Some(false);
      return Some(PingReqPacket), None;
    }

    method Command(c: Command) returns (sent: Option<Packet>, ending: Option<Ending>)
      requires Ready()
      modifies this, pktids
      ensures Did(old(OnCommand(Now(), c)), sent, ending)
      ensures old(Sound()) && ending != Some(Panicked) ==> Sound()
    {
      hide Linked, Along, Next, Request, Packets.Encode;
      if NeedsId(c) {
        var id := TakeId();
        if id.None? {
          return None, Some(Panicked);
        }
        RequestEncodes(c, id.value);
        if c.PublishCommand? && c.qos == AtLeastOnce {
          queue := queue + [(id.value, NewPublish(c, id))];
        }
        return Some(Request(c, id.value)), None;
      } else if c.PublishCommand? {
        PlainEncodes(c);
        return Some(PublishPacket(NewPublish(c, None))), None;
      } else {
        return Some(DisconnectPacket(Disconnect(0, []))), Some(Closed);
      }
    }

    /** Removes the first message with an identifier from the queue. */
    method RemoveAcked(id: PktId)
      modifies `queue
      ensures queue == RemoveFirst(old(queue), id)
    {
      var idx := 0;
      while idx < |queue| && queue[idx].0 != id
        invariant 0 <= idx <= |queue|
        invariant forall i :: 0 <= i < idx ==> queue[i].0 != id
      {
        idx := idx + 1;
      }
      RemoveAt(queue, id, idx);
      if idx < |queue| {
        queue := queue[..idx] + queue[idx + 1..];
      }
    }

    method GiveBack(id: PktId) returns (ending: Option<Ending>)
      requires Ready()
      modifies pktids
      ensures Did(old(Release(Now(), id)), None, ending)
      ensures old(Sound()) && id !in old(pktids.FreeIds()) ==> Sound()
    {
      hide Linked, Along, Insert;
      var overflow := pktids.ReturnId(id);
      ending := if overflow then Some(Panicked) else None;
    }

    method Packet(p: Packet) returns (sent: Option<Packet>, ending: Option<Ending>)
      requires Ready()
      modifies this, pktids
      ensures Did(old(OnPacket(Now(), p)), sent, ending)
      ensures old(Sound()) && (IsAck(p) ==> AckId(p) !in old(pktids.FreeIds())) ==> Sound()
    {
      hide Linked, Along, Insert, RemoveFirst, Release, Allocator.Valid, Free;
      sent, ending := None, None;
      match p
      case DisconnectPacket(d) =>
        ending := Some(if d.reason == 0 then Closed else DisconnectedBy(d.reason));
      case PingRespPacket =>
        pingrespReceived := Some(true);
      case SubackPacket(a) =>
        ending := GiveBack(a.pktid);
      case UnsubackPacket(a) =>
        ending := GiveBack(a.pktid);
      case PubackPacket(a) =>
        RemoveAcked(a.pktid);
        ending := GiveBack(a.pktid);
      case PublishPacket(m) =>
        if m.flags.qos == AtLeastOnce && m.pktid.Some? {
          var reply := PubackPacket(Pubacks.Puback(Pubacks.NO_EXTRAS, m.pktid.value, Pubacks.Success));
          if Packets.Encode(reply).Wire? {
            sent := Some(reply);
          } else {
            ending := Some(Panicked);
          }
        } else if m.flags.qos != AtMostOnce {
          ending := Some(Panicked);
        }
      case _ =>
    }

    method Handle(e: Event) returns (sent: Option<Packet>, ending: Option<Ending>)
      requires Ready()
      modifies this, pktids
      ensures Did(old(React(Now(), e)), sent, ending)
      ensures old(Sound()) && AcksTaken(e, old(pktids.FreeIds())) && ending != Some(Panicked) ==> Sound()
    {
      hide Linked, Along, OnTick, OnPacket, OnCommand, Allocator.Valid, Free;
      sent, ending := None, None;
      match e
      case Tick => sent, ending := Tick();
      case Incoming(p) => sent, ending := Packet(p);
      case ReadError => ending := Some(ReadFailed);
      case ReadPanic => ending := Some(Panicked);
      case StreamDone => ending := Some(Closed);
      case Commanded(c) => sent, ending := Command(c);
      case Idle =>
    }

    /** The loop over the events that come, until it ends. Against a faithful server the allocator stays
        valid throughout. */
    method Poll(events: seq<Event>) returns (ending: Option<Ending>, log: seq<Entry>)
      requires Ready() && Sound() && Now() == NEW_STATE
      modifies this, pktids
      ensures ending == Replay(events).ending && log == Replay(events).log
      ensures ending != Some(Panicked) ==> Ready() && Now() == Replay(events).state
      ensures ending != Some(Panicked) && FaithfulServer(log) ==> Sound()
    {
      hide Linked, Along, React, Replay, Allocator.Valid, Free, FaithfulServer, Observed;
      ReplayEnds(events, 0);
      ending, log := None, [];
      var i := 0;
      while i < |events| && ending.None?
        invariant 0 <= i <= |events|
        invariant Replay(events[..i]).ending == ending && Replay(events[..i]).log == log
        invariant ending != Some(Panicked) ==> Ready() && Now() == Replay(events[..i]).state
        invariant ending != Some(Panicked) && FaithfulServer(log) ==> Sound()
      {
        ReplayStep(events, i);
        var sent, end := Handle(events[i]);
        ending, log := end, log + Observed(events[i], sent);
        FaithfulStep(events, i);
        i := i + 1;
      }
      ReplayEnds(events, i);
    }
  }
}
