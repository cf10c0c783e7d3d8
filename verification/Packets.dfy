/** Packets over pipes (modules/packetfs/packetfs.c): a packet is sent in one write, and received in two
    reads, header then data, so other packets may be sent in between. */
module Packets {
  import opened Bits
  import opened ByteSeqs
  import opened Common
  import Pipe

  const MAX_PACKET_SIZE := 1024
  const HEADER := 16           // sizeof(pmgr_packet_t): source and size

  /** A packet as it travels; `source` is the sending client, or 0 for the server. */
  datatype Packet = Packet(source: Word, data: seq<Byte>)

  /** Which end receives: the server gets header and data, a client only the data. */
  datatype End = Server | Client

  function Encode(p: Packet): seq<Byte> { ToBytes(p.source, 8) + ToBytes(|p.data|, 8) + p.data }

  function EncodeAll(ps: seq<Packet>): seq<Byte> { if ps == [] then [] else Encode(ps[0]) + EncodeAll(ps[1..]) }

  lemma {:induction false} EncodeSnoc(ps: seq<Packet>, p: Packet)
    ensures EncodeAll(ps + [p]) == EncodeAll(ps) + Encode(p)
    decreases |ps|
  {
    hide Encode;
    if ps == [] {
      assert EncodeAll([p]) == Encode(p) + [];
    } else {
      EncodeSnoc(ps[1..], p);
      assert (ps + [p])[1..] == ps[1..] + [p];
      assert Encode(ps[0]) + (EncodeAll(ps[1..]) + Encode(p)) == (Encode(ps[0]) + EncodeAll(ps[1..])) + Encode(p);
    }
  }

  function HeaderSource(h: seq<Byte>): nat
    requires |h| == HEADER
  {
    FromBytes(h[..8])
  }

  function HeaderSize(h: seq<Byte>): nat
    requires |h| == HEADER
  {
    FromBytes(h[8..])
  }

  /** The first bytes of an encoded packet say where it came from and how long it is. */
  lemma HeaderOf(p: Packet, rest: seq<Byte>)
    requires |p.data| < TWO64
    ensures |Encode(p) + rest| >= HEADER
    ensures var h := (Encode(p) + rest)[..HEADER]; HeaderSource(h) == p.source && HeaderSize(h) == |p.data|
    ensures (Encode(p) + rest)[HEADER..] == p.data + rest
  {
    hide ToBytes, FromBytes;
    var h := (Encode(p) + rest)[..HEADER];
    assert h[..8] == ToBytes(p.source, 8);
    assert h[8..] == ToBytes(|p.data|, 8);
    WordFits(p.source);
    WordFits(|p.data|);
    BytesRoundTrip(p.source, 8);
    BytesRoundTrip(|p.data|, 8);
    assert (Encode(p) + rest)[HEADER..] == p.data + rest;
  }

  /** A packet is its header and its data. */
  lemma BodyOf(p: Packet, rest: seq<Byte>)
    requires |p.data| < TWO64
    ensures |Encode(p)| >= HEADER && HeaderSize(Encode(p)[..HEADER]) == |p.data|
    ensures Encode(p) == Encode(p)[..HEADER] + p.data
    ensures (p.data + rest)[..|p.data|] == p.data && (p.data + rest)[|p.data|..] == rest
    ensures |p.data| == 0 ==> p.data + rest == rest && p.data == []
  {
    hide Encode, HeaderSource, HeaderSize;
    HeaderOf(p, []);
    assert Encode(p) + [] == Encode(p);
    assert p.data + [] == p.data;
  }

  /** The bytes of a queue of packets start with the header of the first one. */
  lemma HeaderFirst(ps: seq<Packet>)
    requires ps != [] && |ps[0].data| < TWO64
    ensures var s, e := EncodeAll(ps), Encode(ps[0]);
            && |s| >= HEADER && |e| >= HEADER && s[..HEADER] == e[..HEADER]
            && s[HEADER..] == ps[0].data + EncodeAll(ps[1..])
  {
    var e, rest := Encode(ps[0]), EncodeAll(ps[1..]);
    assert EncodeAll(ps) == e + rest;
    hide Encode, EncodeAll, HeaderSource, HeaderSize;
    HeaderOf(ps[0], rest);
    BodyOf(ps[0], rest);
    assert (e + rest)[..HEADER] == e[..HEADER];
  }

  lemma NothingEncoded()
    ensures EncodeAll([]) == []
  {}

  // ----- what the caller of a read gets -----

  /** The bytes handed to a caller with a buffer of `room` bytes, or nothing if the packet does not fit. */
  function Delivered(end: End, p: Packet, room: nat): Option<seq<Byte>> {
    match end
    case Server => if |p.data| + HEADER > room then None else Some(Encode(p))
    case Client => if |p.data| > room then None else Some(p.data)
  }

  /** What a caller of a read finds: nothing exactly if the packet, with its header at the server's end, does not
      fit the buffer. Otherwise the client gets the data; the server gets as many bytes more as the header has,
      and reads source and size there. */
  ghost predicate Finds(end: End, p: Packet, room: nat, answer: Option<seq<Byte>>) {
    && (answer.Some? <==> |p.data| + (if end == Server then 16 else 0) <= room)
    && (answer.Some? && end == Client ==> answer.value == p.data)
    && (answer.Some? && end == Server ==>
          && |answer.value| == |p.data| + 16 && answer.value[16..] == p.data
          && HeaderSource(answer.value[..16]) == p.source && HeaderSize(answer.value[..16]) == |p.data|)
  }

  lemma DeliveredMeans(end: End, p: Packet, room: nat)
    requires |p.data| < TWO64
    ensures Finds(end, p, room, Delivered(end, p, room))
  {
    hide Encode, HeaderSource, HeaderSize;
    BodyOf(p, []);
    HeaderOf(p, []);
    assert Encode(p) + [] == Encode(p);
  }

  /** The steps on one pipe. `Start` reads a header, `Finish` the data for a buffer of `room` bytes. */
  datatype Event = Send(packet: Packet) | Start | Finish(room: nat)

  /** The packets that a run sends. */
  function Sent(es: seq<Event>): seq<Packet> {
    if es == [] then []
    else Sent(es[..|es| - 1]) + if es[|es| - 1].Send? then [es[|es| - 1].packet] else []
  }

  /** The queue of packets that the byte pipe stands for: what is left, whether the first packet has lost its
      header, and the answers so far. */
  datatype Mail = Mail(queue: seq<Packet>, started: bool, answers: seq<Option<seq<Byte>>>)

  ghost function Deliver(m: Mail, end: End, e: Event): Mail
    requires m.started ==> m.queue != []
  {
    match e
    case Send(p) => m.(queue := m.queue + [p])
    case Start => if m.queue == [] then m else m.(started := true)
    case Finish(room) =>
      if m.started
      then Mail(m.queue[1..], false, m.answers + [Delivered(end, m.queue[0], room)])
      else m
  }

  ghost function Post(end: End, es: seq<Event>): (m: Mail)
    ensures m.started ==> m.queue != []
  {
    if es == [] then Mail([], false, [])
    else Deliver(Post(end, es[..|es| - 1]), end, es[|es| - 1])
  }

  /** The buffer sizes given to the reads that completed. */
  ghost function Rooms(end: End, es: seq<Event>): seq<nat> {
    if es == [] then []
    else
      var front, e := es[..|es| - 1], es[|es| - 1];
      Rooms(end, front) + if e.Finish? && Post(end, front).started then [e.room] else []
  }

  /** The i-th answer is the i-th packet sent, whether or not earlier packets fitted; the rest is queued. */
  ghost predicate Ordered(end: End, m: Mail, sent: seq<Packet>, rooms: seq<nat>) {
    && |m.answers| == |rooms| <= |sent|
    && m.queue == sent[|rooms|..]
    && forall i :: 0 <= i < |rooms| ==> m.answers[i] == Delivered(end, sent[i], rooms[i])
  }

  lemma {:induction false} InOrder(end: End, es: seq<Event>)
    ensures Ordered(end, Post(end, es), Sent(es), Rooms(end, es))
  {
    if es != [] {
      var front, e := es[..|es| - 1], es[|es| - 1];
      InOrder(end, front);
      OrderedStep(end, Post(end, front), Sent(front), Rooms(end, front), e);
      assert Sent(front) + [] == Sent(front);
      assert Rooms(end, front) + [] == Rooms(end, front);
    }
  }

  /** A receive on a pipe with packets completes: one more answer, and one packet less. */
  lemma ReceiveCompletes(end: End, es: seq<Event>, room: nat)
    requires Post(end, es).queue != []
    ensures var m, r := Post(end, es), Post(end, es + [Start, Finish(room)]);
            && r.queue == m.queue[1..] && !r.started
            && r.answers == m.answers + [Delivered(end, m.queue[0], room)]
  {
    var one, two := es + [Start], es + [Start, Finish(room)];
    assert one[..|es|] == es && two[..|es| + 1] == one;
    assert Post(end, one) == Deliver(Post(end, es), end, Start);
  }

  lemma OrderedStep(end: End, m: Mail, sent: seq<Packet>, rooms: seq<nat>, e: Event)
    requires Ordered(end, m, sent, rooms) && (m.started ==> m.queue != [])
    ensures Ordered(end, Deliver(m, end, e), if e.Send? then sent + [e.packet] else sent,
                    if e.Finish? && m.started then rooms + [e.room] else rooms)
  {
    hide Delivered;
  }

  // ----- one pipe in use -----

  class Channel {
    const end: End
    const pipe: Pipe.Queue
    /** The header that the receiver holds between its two reads. */
    var pending: Option<seq<Byte>>

    /** The bytes in the pipe are the packets of `m`, less a header that was read. */
    ghost predicate Carries(m: Mail)
      reads this, pipe, pipe.buffer
    {
      && pipe.Valid() && !pipe.nonblock && pipe.references == 2
      && (forall i :: 0 <= i < |m.queue| ==> |m.queue[i].data| < TWO64)
      && if m.started
         then m.queue != [] && var p := m.queue[0];
           && pending == Some(Encode(p)[..HEADER])
           && pipe.Stored() == p.data + EncodeAll(m.queue[1..])
         else pending == None && pipe.Stored() == EncodeAll(m.queue)
    }

    constructor (end: End)
      ensures Carries(Mail([], false, [])) && this.end == end && fresh(pipe)
    {
      this.end := end;
      pipe := new Pipe.Queue();
      pending := None;
    }

    /** packetfs_send_to_server and packetfs_send_to_client: the packet is built and written at once. */
    method SendPacket(source: Word, data: seq<Byte>, ghost m: Mail) returns (n: nat)
      requires Carries(m) && |data| < TWO64
      modifies pipe, pipe.buffer
      ensures pipe.buffer == old(pipe.buffer) || pipe.buffer == null || fresh(pipe.buffer)
      ensures Carries(Deliver(m, end, Send(Packet(source, data)))) && n == |data| + HEADER
    {
      ghost var p := Packet(source, data);
      assert Encode(p) == ToBytes(source, 8) + ToBytes(|data|, 8) + data;
      hide Encode, Pipe.Queue.Valid, Pipe.Queue.Stored;
      EncodeSnoc(m.queue, p);
      if m.started {
        EncodeSnoc(m.queue[1..], p);
        assert (m.queue + [p])[1..] == m.queue[1..] + [p];
        Pipe.Regroup(m.queue[0].data, EncodeAll(m.queue[1..]), Encode(p));
      }
      n := pipe.Write(ToBytes(source, 8) + ToBytes(|data|, 8) + data);
    }

    /** packetfs_client_write: packets over the limit are refused. */
    method ClientWrite(client: Word, data: seq<Byte>, ghost m: Mail) returns (r: int)
      requires Carries(m)
      modifies pipe, pipe.buffer
      ensures pipe.buffer == old(pipe.buffer) || pipe.buffer == null || fresh(pipe.buffer)
      ensures r == if |data| > MAX_PACKET_SIZE then -1 else |data|
      ensures Carries(if |data| > MAX_PACKET_SIZE then m else Deliver(m, end, Send(Packet(client, data))))
    {
      if |data| > MAX_PACKET_SIZE {
        return -1;
      }
      var _ := SendPacket(client, data, m);
      return |data|;
    }

    /** The first half of packetfs_receive_packet: the header is read, or the reader would wait. */
    method ReadHeader(ghost m: Mail) returns (waits: bool)
      requires Carries(m) && pending == None
      modifies this, pipe, pipe.buffer
      ensures pipe.buffer == old(pipe.buffer) || pipe.buffer == null || fresh(pipe.buffer)
      ensures Carries(Deliver(m, end, Start)) && (waits <==> m.queue == []) && (waits <==> pending == None)
    {
      hide Encode, EncodeAll, Pipe.Queue.Valid, Pipe.Queue.Stored, HeaderSource, HeaderSize;
      if m.queue != [] {
        HeaderFirst(m.queue);
      } else {
        NothingEncoded();
      }
      var r := pipe.TryRead(HEADER);
      waits := r.Blocked?;
      if !waits {
        pending := Some(r.bytes);
      }
    }

    /** The rest of the receive, and the copy to a buffer of `room` bytes. */
    method ReadBody(room: nat, ghost m: Mail) returns (answer: Option<seq<Byte>>)
      requires Carries(m) && pending != None
      modifies this, pipe, pipe.buffer
      ensures pipe.buffer == old(pipe.buffer) || pipe.buffer == null || fresh(pipe.buffer)
      ensures Carries(Deliver(m, end, Finish(room))) && answer == Delivered(end, m.queue[0], room)
      ensures Finds(end, m.queue[0], room, answer)
    {
      hide Encode, EncodeAll, Pipe.Queue.Valid, Pipe.Queue.Stored, HeaderSource, HeaderSize, Finds;
      ghost var p, rest := m.queue[0], EncodeAll(m.queue[1..]);
      BodyOf(p, rest);
      DeliveredMeans(end, p, room);
      var temp := pending.value;
      var size := HeaderSize(temp);
      var data := [];
      if size != 0 {
        var r := pipe.TryRead(size);
        data := r.bytes;
      }
      pending := None;
      match end
      case Server => answer := if size + HEADER > room then None else Some(temp + data);
      case Client => answer := if size > room then None else Some(data);
    }

    lemma HoldsHeader(m: Mail)
      requires Carries(m)
      ensures pending != None <==> m.started
    {}

    /** Any run of sends and receives: the answers are those of the packet queue. */
    method Perform(es: seq<Event>) returns (answers: seq<Option<seq<Byte>>>)
      requires Carries(Mail([], false, []))
      requires forall i :: 0 <= i < |es| && es[i].Send? ==> |es[i].packet.data| < TWO64
      modifies this, pipe, pipe.buffer
      ensures answers == Post(end, es).answers && Carries(Post(end, es))
      ensures Ordered(end, Post(end, es), Sent(es), Rooms(end, es))
      ensures |answers| <= |Sent(es)| && |answers| == |Rooms(end, es)|
      ensures forall i :: 0 <= i < |answers| ==> Finds(end, Sent(es)[i], Rooms(end, es)[i], answers[i])
    {
      answers := [];
      for i := 0 to |es|
        invariant pipe.buffer == old(pipe.buffer) || pipe.buffer == null || fresh(pipe.buffer)
        invariant Carries(Post(end, es[..i])) && answers == Post(end, es[..i]).answers
      {
        hide Carries, Delivered;
        ghost var m := Post(end, es[..i]);
        assert es[..i + 1][..i] == es[..i];
        HoldsHeader(m);
        match es[i]
        case Send(p) => var _ := SendPacket(p.source, p.data, m);
        case Start =>
          if pending == None {
            var _ := ReadHeader(m);
          }
        case Finish(room) =>
          if pending != None {
            var answer := ReadBody(room, m);
            answers := answers + [answer];
          }
      }
      assert es[..|es|] == es;
      InOrder(end, es);
      SentSizes(es);
      forall i | 0 <= i < |answers| ensures Finds(end, Sent(es)[i], Rooms(end, es)[i], answers[i]) {
        DeliveredMeans(end, Sent(es)[i], Rooms(end, es)[i]);
      }
    }
  }

  lemma {:induction false} SentSizes(es: seq<Event>)
    requires forall i :: 0 <= i < |es| && es[i].Send? ==> |es[i].packet.data| < TWO64
    ensures forall i :: 0 <= i < |Sent(es)| ==> |Sent(es)[i].data| < TWO64
  {
    if es != [] {
      SentSizes(es[..|es| - 1]);
    }
  }
}
