/** The connection: bytes arrive in chunks of any size at any time, and the loop takes packets out of them
    between its other events. */
module Connections {
  import opened Bytes
  import opened EventLoops
  import opened Packets
  import Codec
  import Publishing

  // ---- reading, turn by turn ----------------------------------------------------------------

  /** What happens on a connection: bytes arrive, the loop polls the decoder, or something else. */
  datatype Turn = Arrived(chunk: seq<byte>) | Polled | Happened(event: Event)

  /** The events of the loop so far, and what was taken out of the stream; `taken.rest` is the buffer. */
  datatype Reader = Reader(events: seq<Event>, taken: Codec.Stream)

  const NEW_READER: Reader := Reader([], Codec.Stream([], Codec.Waiting, []))

  /** One call of the decoder; once it has failed there are no more. */
  function Poll(r: Reader): Reader {
    var Stream(packets, status, buf) := r.taken;
    if status != Codec.Waiting then r
    else
      match Codec.Decode(buf)
      case NeedMore => r
      case Item(p, n) => Reader(r.events + [Incoming(p)], Codec.Stream(packets + [p], status, buf[n..]))
      case Failed(n) => Reader(r.events + [ReadError], Codec.Stream(packets, Codec.Broken, buf[n..]))
      case Crashed => Reader(r.events + [ReadPanic], Codec.Stream(packets, Codec.Panicked, buf))
  }

  function Take(r: Reader, t: Turn): Reader {
    match t
    case Arrived(chunk) => r.(taken := r.taken.(rest := r.taken.rest + chunk))
    case Polled => Poll(r)
    case Happened(e) => r.(events := r.events + [e])
  }

  function Reading(turns: seq<Turn>): Reader {
    if turns == [] then NEW_READER else Take(Reading(turns[..|turns| - 1]), turns[|turns| - 1])
  }

  // ---- what it amounts to -------------------------------------------------------------------

  /** All the bytes that arrived. */
  function BytesOf(turns: seq<Turn>): seq<byte> {
    if turns == [] then []
    else BytesOf(turns[..|turns| - 1]) + if turns[|turns| - 1].Arrived? then turns[|turns| - 1].chunk else []
  }

  /** What else happened. */
  function Others(turns: seq<Turn>): seq<Event> {
    if turns == [] then []
    else Others(turns[..|turns| - 1]) + if turns[|turns| - 1].Happened? then [turns[|turns| - 1].event] else []
  }

  /** The events that come out of the decoder. */
  predicate IsRead(e: Event) {
    e.Incoming? || e.ReadError? || e.ReadPanic?
  }

  /** The events of one sort, in order. */
  function Only(events: seq<Event>, read: bool): seq<Event> {
    if events == [] then []
    else
      var e := events[|events| - 1];
      Only(events[..|events| - 1], read) + if IsRead(e) == read then [e] else []
  }

  function Incomings(packets: seq<Packet>): (events: seq<Event>)
    ensures |events| == |packets| && forall i :: 0 <= i < |packets| ==> events[i] == Incoming(packets[i])
  {
    seq(|packets|, i requires 0 <= i < |packets| => Incoming(packets[i]))
  }

  /** The events that a stream of packets gives, with its failure at the end. */
  function EventsOf(s: Codec.Stream): seq<Event> {
    Incomings(s.packets) + match s.status case Waiting => [] case Broken => [ReadError] case Panicked => [ReadPanic]
  }

  /** What is taken, and what decoding the buffer on would give. */
  function Resumed(s: Codec.Stream): Codec.Stream {
    if s.status == Codec.Waiting then Codec.After(s.packets, Codec.Drain(s.rest)) else s
  }

  /** The decoder has nothing more to give. */
  predicate Quiet(s: Codec.Stream) {
    s.status != Codec.Waiting || Codec.Decode(s.rest).NeedMore?
  }

  // ---- any schedule gives what the whole stream gives ---------------------------------------

  lemma PollResumes(r: Reader)
    ensures Resumed(Poll(r).taken) == Resumed(r.taken)
  {
    hide Codec.Decode;
    if r.taken.status == Codec.Waiting && Codec.Decode(r.taken.rest).Item? {
      var Item(p, n) := Codec.Decode(r.taken.rest);
      Codec.AfterAssoc(r.taken.packets, [p], Codec.Drain(r.taken.rest[n..]));
    }
  }

  /** Bytes at the end of the stream are bytes at the end of the buffer. */
  lemma ArrivalResumes(s: Codec.Stream, bytes: seq<byte>, chunk: seq<byte>)
    requires Resumed(s) == Codec.Drain(bytes)
    ensures Resumed(s.(rest := s.rest + chunk)) == Codec.Drain(bytes + chunk)
  {
    hide Codec.Drain;
    Codec.DrainExtends(bytes, chunk);
    Codec.DrainExtends(s.rest, chunk);
    if s.status == Codec.Waiting {
      var now := Codec.Drain(s.rest);
      Codec.AfterAssoc(s.packets, now.packets, Codec.Drain(now.rest + chunk));
    }
  }

  lemma NothingTaken()
    ensures Resumed(NEW_READER.taken) == Codec.Drain([])
  {
    Codec.AfterAssoc([], [], Codec.Drain([]));
  }

  lemma {:induction false} TakenIsStream(turns: seq<Turn>)
    ensures Resumed(Reading(turns).taken) == Codec.Drain(BytesOf(turns))
  {
    hide Resumed, Poll, Codec.Drain;
    if turns == [] {
      NothingTaken();
    } else {
      var before, t := turns[..|turns| - 1], turns[|turns| - 1];
      TakenIsStream(before);
      PollResumes(Reading(before));
      if t.Arrived? {
        ArrivalResumes(Reading(before).taken, BytesOf(before), t.chunk);
      } else {
        assert BytesOf(before) + [] == BytesOf(before);
      }
    }
  }

  lemma OnlyStep(events: seq<Event>, e: Event)
    ensures Only(events + [e], IsRead(e)) == Only(events, IsRead(e)) + [e]
    ensures Only(events + [e], !IsRead(e)) == Only(events, !IsRead(e))
  {
    assert (events + [e])[..|events|] == events;
  }

  lemma PollKeepsReads(r: Reader)
    requires Only(r.events, true) == EventsOf(r.taken)
    ensures Only(Poll(r).events, true) == EventsOf(Poll(r).taken)
    ensures Only(Poll(r).events, false) == Only(r.events, false)
  {
    hide Codec.Decode, Only;
    OnlyStep(r.events, ReadError);
    OnlyStep(r.events, ReadPanic);
    if r.taken.status == Codec.Waiting && Codec.Decode(r.taken.rest).Item? {
      var p := Codec.Decode(r.taken.rest).packet;
      OnlyStep(r.events, Incoming(p));
      assert Incomings(r.taken.packets + [p]) == Incomings(r.taken.packets) + [Incoming(p)];
    }
  }

  lemma NothingRead()
    ensures Only([], true) == [] == Only([], false) && EventsOf(NEW_READER.taken) == []
  {
  }

  lemma {:induction false} ReadsAreTaken(turns: seq<Turn>)
    requires forall t :: t in turns && t.Happened? ==> !IsRead(t.event)
    ensures Only(Reading(turns).events, true) == EventsOf(Reading(turns).taken)
    ensures Only(Reading(turns).events, false) == Others(turns)
  {
    hide Poll, Only, Incomings;
    if turns == [] {
      NothingRead();
    } else {
      var before, t := turns[..|turns| - 1], turns[|turns| - 1];
      ReadsAreTaken(before);
      PollKeepsReads(Reading(before));
      if t.Happened? {
        OnlyStep(Reading(before).events, t.event);
      }
    }
  }

  lemma QuietIsAll(s: Codec.Stream)
    ensures EventsOf(s) <= EventsOf(Resumed(s))
    ensures EventsOf(s) == EventsOf(Resumed(s)) <==> Quiet(s)
  {
    hide Codec.Decode;
    if s.status == Codec.Waiting {
      var more := Codec.Drain(s.rest);
      assert Incomings(s.packets + more.packets) == Incomings(s.packets) + Incomings(more.packets);
      assert EventsOf(Resumed(s)) == Incomings(s.packets) + EventsOf(more);
      assert EventsOf(s) == Incomings(s.packets);
      assert Codec.Decode(s.rest).NeedMore? <==> EventsOf(more) == [];
    }
  }

  /** However the bytes are split, and whenever they arrive and are polled between other events, the packets
      that come in, and the failure at the end, are from the front of what the whole stream gives, and all of
      it exactly when the decoder has nothing more to give. The other events come as they happened. */
  lemma ReadsExactly(turns: seq<Turn>)
    requires forall t :: t in turns && t.Happened? ==> !IsRead(t.event)
    ensures var all, r := EventsOf(Codec.Drain(BytesOf(turns))), Reading(turns);
            && Only(r.events, true) <= all && (Only(r.events, true) == all <==> Quiet(r.taken))
            && Only(r.events, false) == Others(turns)
  {
    hide Codec.Drain, Quiet, EventsOf, Reading, Resumed;
    TakenIsStream(turns);
    ReadsAreTaken(turns);
    QuietIsAll(Reading(turns).taken);
  }

  /** PUBLISH packets written one after the other all come out, in order, under any schedule that leaves
      the decoder with nothing more to give, exactly when each of them is encodable. */
  lemma PublishesArrive(ms: seq<Publishing.Publish>, turns: seq<Turn>)
    requires BytesOf(turns) == Codec.Written(Codec.Wrapped(ms)) && Quiet(Reading(turns).taken)
    ensures Reading(turns).taken == Codec.Stream(Codec.Wrapped(ms), Codec.Waiting, [])
            <==> forall m :: m in ms ==> Publishing.Encodable(m)
  {
    hide Codec.Decode, Codec.Written, Codec.Wrapped, Publishing.Encodable, Reading;
    var s := Reading(turns).taken;
    TakenIsStream(turns);
    Codec.StreamInverse(ms);
    assert s.packets + [] == s.packets;
  }

  // ---- the run on a connection --------------------------------------------------------------

  lemma EndStays(events: seq<Event>, e: Event)
    ensures Replay(events).ending.Some? || e.ReadError? || e.ReadPanic? ==> Replay(events + [e]).ending.Some?
  {
    hide Packets.Encode;
    assert (events + [e])[..|events|] == events;
  }

  lemma {:induction false} FailureEnds(turns: seq<Turn>)
    ensures Reading(turns).taken.status != Codec.Waiting ==> Replay(Reading(turns).events).ending.Some?
  {
    hide Codec.Decode, React;
    if turns == [] {
    } else {
      var before, t := Reading(turns[..|turns| - 1]), turns[|turns| - 1];
      FailureEnds(turns[..|turns| - 1]);
      EndStays(before.events, ReadError);
      EndStays(before.events, ReadPanic);
      if t.Happened? {
        EndStays(before.events, t.event);
      }
    }
  }

  /** Polling the decoder panics the loop, after any run and whatever arrived, if and only if the buffer makes
      the decoder panic, or begins with an acknowledgement behind all free ranges or a PUBLISH above QoS 0. */
  lemma PollPanicsExactly(turns: seq<Turn>)
    requires Replay(Reading(turns).events).ending.None?
    ensures var r, d := Reading(turns), Codec.Decode(Reading(turns).taken.rest);
            Replay(Reading(turns + [Polled]).events).ending == Some(Panicked)
            <==> || d.Crashed?
                 || (d.Item? && AckBehind(Replay(r.events).state.rs, Incoming(d.packet)))
                 || (d.Item? && PublishAboveQos0(Incoming(d.packet)))
  {
    hide Codec.Decode, Replay;
    var r, d := Reading(turns), Codec.Decode(Reading(turns).taken.rest);
    assert (turns + [Polled])[..|turns|] == turns;
    FailureEnds(turns);
    match d
    case NeedMore =>
    case Item(p, _) => AnyRunPanicsExactly(r.events, Incoming(p));
    case Failed(_) => AnyRunPanicsExactly(r.events, ReadError);
    case Crashed => AnyRunPanicsExactly(r.events, ReadPanic);
  }
}
