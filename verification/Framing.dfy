/** Messages on a stream of bytes: the client's codec (src/client/aseba_dashel.h), and the one of the
    network (src/network/network.h, src/network/network.cpp). */
module Framing {

  type byte = x: int | 0 <= x < 256
  type u16 = x: int | 0 <= x < 65536

  /** Length, source and type precede the payload. */
  datatype Message = Message(source: u16, type_: u16, payload: seq<byte>)

  function Low(x: u16): byte { x % 256 }
  function High(x: u16): byte { x / 256 }

  /** Little-endian, on any host. */
  function Encode16(x: u16): seq<byte> {
    [Low(x), High(x)]
  }

  function Decode16(s: seq<byte>): u16
    requires |s| >= 2
  {
    var low: int, high: int := s[0], s[1];
    low + 256 * high
  }

  // ---------------------------------------------------------------- the client

  /** static_cast<uint16_t>. */
  function Truncated(n: nat): u16 {
    n % 65536
  }

  /** The header holds the truncated size, but the whole payload is written. */
  function Frame(m: Message): seq<byte> {
    Encode16(Truncated(|m.payload|)) + Encode16(m.source) + Encode16(m.type_) + m.payload
  }

  predicate Serializable(max: nat, m: Message) {
    Truncated(|m.payload|) <= max
  }

  /** Nothing to read yet; a header that is too large, which is all that has been read; or a message. */
  datatype Received = Blocked | Oversized(rest: seq<byte>) | Got(message: Message, rest: seq<byte>)

  function Receive(max: nat, s: seq<byte>): (r: Received)
    ensures !r.Blocked? ==> |r.rest| < |s|
  {
    if |s| < 6 then Blocked
    else
      var len, source, type_ := Decode16(s), Decode16(s[2..]), Decode16(s[4..]);
      if len > max then Oversized(s[6..])
      else if |s| < 6 + len then Blocked
      else Got(Message(source, type_, s[6..6 + len]), s[6 + len..])
  }

  /** All messages that a client reads from a stream. */
  function ReceiveAll(max: nat, s: seq<byte>): seq<Message>
    decreases |s|
  {
    match Receive(max, s)
    case Blocked => []
    case Oversized(rest) => ReceiveAll(max, rest)
    case Got(m, rest) => [m] + ReceiveAll(max, rest)
  }

  // ---------------------------------------------------------------- the network

  /** incomingData reads the type together with the payload, whatever the length. */
  function Incoming(s: seq<byte>): (r: Received)
    ensures !r.Blocked? ==> |r.rest| < |s|
  {
    if |s| < 4 then Blocked
    else
      var len, source := Decode16(s), Decode16(s[2..]);
      if |s| < 4 + len + 2 then Blocked
      else
        var data := s[4..4 + len + 2];
        Got(Message(source, Decode16(data), data[2..]), s[4 + len + 2..])
  }

  function IncomingAll(s: seq<byte>): seq<Message>
    decreases |s|
  {
    var r := Incoming(s);
    if r.Got? then [r.message] + IncomingAll(r.rest) else []
  }

  /** AsebaSendBuffer: the data begin with the type, which does not count for the length. */
  function SendBuffer(node: u16, data: seq<byte>): seq<byte>
    requires |data| >= 2
  {
    Encode16(Truncated(|data| - 2)) + Encode16(node) + data
  }

  // ---------------------------------------------------------------- streams

  /** A byte stream: what can still be read, and what has been written. */
  class Stream {
    var input: seq<byte>
    var output: seq<byte>

    constructor (input: seq<byte>)
      ensures this.input == input && output == []
    {
      this.input, output := input, [];
    }

    method Read(n: nat) returns (ok: bool, bytes: seq<byte>)
      modifies this`input
      ensures ok == (n <= |old(input)|)
      ensures ok ==> bytes == old(input)[..n] && input == old(input)[n..]
      ensures !ok ==> bytes == [] && input == old(input)
    {
      ok, bytes := n <= |input|, [];
      if ok {
        bytes, input := input[..n], input[n..];
      }
    }

    method Read16() returns (ok: bool, x: u16)
      modifies this`input
      ensures ok == (2 <= |old(input)|)
      ensures ok ==> x == Decode16(old(input)) && input == old(input)[2..]
      ensures !ok ==> input == old(input)
    {
      var bytes;
      ok, bytes := Read(2);
      x := if ok then Decode16(bytes) else 0;
    }

    method Write(bytes: seq<byte>)
      modifies this`output
      ensures output == old(output) + bytes
    {
      output := output + bytes;
    }
  }

  /** The client's `serialize`. */
  method SerializeTo(max: nat, m: Message, stream: Stream) returns (ok: bool)
    modifies stream`output
    ensures ok == Serializable(max, m)
    ensures stream.output == old(stream.output) + if ok then Frame(m) else []
  {
    var len := Truncated(|m.payload|);
    if len > max {
      return false;
    }
    stream.Write(Encode16(len));
    stream.Write(Encode16(m.source));
    stream.Write(Encode16(m.type_));
    if m.payload != [] {
      stream.Write(m.payload);
    }
    ok := true;
  }

  /** The client's `receive`; a read that blocks ends it. */
  method ReceiveFrom(max: nat, stream: Stream) returns (r: Received)
    modifies stream`input
    ensures r == Receive(max, old(stream.input))
    ensures !r.Blocked? ==> stream.input == r.rest
  {
    var ok, len, source, type_, payload;
    ok, len := stream.Read16();
    if !ok { return Blocked; }
    ok, source := stream.Read16();
    if !ok { return Blocked; }
    ok, type_ := stream.Read16();
    if !ok { return Blocked; }
    if len > max {
      return Oversized(stream.input);
    }
    payload := [];
    if len > 0 {
      ok, payload := stream.Read(len);
      if !ok { return Blocked; }
    }
    r := Got(Message(source, type_, payload), stream.input);
  }

  method SendBufferTo(node: u16, data: seq<byte>, stream: Stream)
    requires |data| >= 2
    modifies stream`output
    ensures stream.output == old(stream.output) + SendBuffer(node, data)
  {
    stream.Write(Encode16(Truncated(|data| - 2)));
    stream.Write(Encode16(node));
    stream.Write(data);
  }

  /** The nodes of a network, and the messages handed to each of them. */
  class Network {
    /** Types of the messages that are commands to one node. */
    const firstCommand: u16
    const lastCommand: u16
    var nodes: set<u16>
    var handed: map<u16, seq<Message>>
    /** The client's stream, if there is one; others are to be closed. */
    var current: Stream?
    var toDisconnect: set<Stream>

    ghost predicate Valid()
      reads this
    {
      handed.Keys == nodes
    }

    constructor (first: u16, last: u16)
      ensures Valid() && firstCommand == first && lastCommand == last && nodes == {} && current == null
              && toDisconnect == {}
    {
      firstCommand, lastCommand, nodes, handed, current, toDisconnect := first, last, {}, map[], null, {};
    }

    /** The first client to connect is served, any other one refused. */
    method ConnectionCreated(stream: Stream, tcp: bool)
      modifies this`current, this`toDisconnect
      ensures current == if tcp && old(current) == null then stream else old(current)
      ensures toDisconnect == old(toDisconnect) + if tcp && old(current) != null then {stream} else {}
    {
      if tcp {
        if current == null {
          current := stream;
        } else {
          toDisconnect := toDisconnect + {stream};
        }
      }
    }

    method ConnectionClosed(stream: Stream)
      modifies this`current, this`toDisconnect
      ensures current == if old(current) == stream then null else old(current)
      ensures toDisconnect == old(toDisconnect) - {stream}
    {
      if stream == current {
        current := null;
      }
      toDisconnect := toDisconnect - {stream};
    }

    /** A node added for an id that is taken replaces the other one. */
    method AddNode(id: u16)
      requires Valid()
      modifies this
      ensures Valid()
      ensures nodes == old(nodes) + {id}
      ensures handed == old(handed)[id := []]
    {
      nodes, handed := nodes + {id}, handed[id := []];
    }

    method RemoveNode(id: u16)
      requires Valid()
      modifies this
      ensures Valid()
      ensures nodes == old(nodes) - {id}
      ensures handed == old(handed) - {id}
    {
      nodes, handed := nodes - {id}, handed - {id};
    }

    /** One message of the client is read and handed to the node it is for, or to all of them; other streams
        are not read. */
    method IncomingData(stream: Stream) returns (r: Received)
      requires Valid()
      requires var r := Incoming(stream.input);
               r.Got? && firstCommand <= r.message.type_ <= lastCommand ==> |r.message.payload| >= 2
      modifies this`handed, stream`input
      ensures Valid() && r == if stream == current then Incoming(old(stream.input)) else Blocked
      ensures !r.Blocked? ==> stream.input == r.rest
      ensures stream != current ==> stream.input == old(stream.input)
      ensures forall id :: id in nodes ==>
                handed[id] == old(handed[id]) + if r.Got? && IsFor(firstCommand, lastCommand, r.message, id)
                  then [r.message] else []
    {
      if stream != current {
        return Blocked;
      }
      var ok, len, source, data;
      ok, len := stream.Read16();
      if !ok { return Blocked; }
      ok, source := stream.Read16();
      if !ok { return Blocked; }
      var size: nat := len;
      ok, data := stream.Read(size + 2);
      if !ok { return Blocked; }
      var m := Message(source, Decode16(data), data[2..]);
      r := Got(m, stream.input);
      if firstCommand <= m.type_ <= lastCommand {
        var dest := Decode16(data[2..]);
        if dest in nodes {
          handed := handed[dest := handed[dest] + [m]];
        }
      } else {
        HandToAll(m);
      }
    }

    method HandToAll(m: Message)
      requires Valid()
      modifies this`handed
      ensures Valid() && forall id :: id in nodes ==> handed[id] == old(handed[id]) + [m]
    {
      var rest := nodes;
      while rest != {}
        invariant rest <= nodes && Valid()
        invariant forall id :: id in nodes ==> handed[id] == old(handed[id]) + if id in rest then [] else [m]
        decreases rest
      {
        var id :| id in rest;
        handed := handed[id := handed[id] + [m]];
        rest := rest - {id};
      }
    }
  }

  /** A command begins with the id of the node it is for. */
  predicate IsFor(first: u16, last: u16, m: Message, id: u16) {
    first <= m.type_ <= last ==> |m.payload| >= 2 && Decode16(m.payload) == id
  }

  // ---------------------------------------------------------------- round trips

  function Frames(ms: seq<Message>): seq<byte> {
    if ms == [] then [] else Frame(ms[0]) + Frames(ms[1..])
  }

  lemma {:induction false} FrameFields(m: Message, rest: seq<byte>)
    ensures var s := Frame(m) + rest;
            && |s| == 6 + |m.payload| + |rest|
            && Decode16(s) == Truncated(|m.payload|)
            && Decode16(s[2..]) == m.source
            && Decode16(s[4..]) == m.type_
            && s[6..] == m.payload + rest
  {
  }

  /** A frame is received as the message, and nothing else of the stream is touched, exactly if the payload is
      within the maximum. Of a longer one only the header is consumed, and the payload is taken for what
      follows; one so long that its size wraps to an admissible one is cut off. */
  lemma {:induction false} ReceiveIff(max: u16, m: Message, rest: seq<byte>)
    ensures Receive(max, Frame(m) + rest) == Got(m, rest) <==> |m.payload| <= max
    ensures max < |m.payload| < 65536 ==> Receive(max, Frame(m) + rest) == Oversized(m.payload + rest)
    ensures |m.payload| >= 65536 && Serializable(max, m) ==>
              Receive(max, Frame(m) + rest) ==
              Got(Message(m.source, m.type_, m.payload[..Truncated(|m.payload|)]),
                m.payload[Truncated(|m.payload|)..] + rest)
  {
    var s, len := Frame(m) + rest, Truncated(|m.payload|);
    FrameFields(m, rest);
    if len <= max {
      assert s[6..6 + len] == s[6..][..len] == m.payload[..len];
      assert s[6 + len..] == s[6..][len..] == m.payload[len..] + rest;
    }
    if |m.payload| <= max {
      assert m.payload[..len] == m.payload && m.payload[len..] + rest == rest;
    } else if |m.payload| >= 65536 {
      assert |m.payload[..len]| < |m.payload|;
    }
  }

  lemma {:induction false} IncomingFrame(m: Message, rest: seq<byte>)
    requires |m.payload| < 65536
    ensures Incoming(Frame(m) + rest) == Got(m, rest)
  {
    var s, len := Frame(m) + rest, |m.payload|;
    FrameFields(m, rest);
    var data := s[4..4 + len + 2];
    assert data[2..] == s[6..][..len] == m.payload;
    assert data[0] == s[4..][0] && data[1] == s[4..][1];
    assert s[4 + len + 2..] == s[6..][len..] == rest;
  }

  lemma {:induction false} ReceivedAreSmall(max: u16, s: seq<byte>)
    ensures forall m :: m in ReceiveAll(max, s) ==> |m.payload| <= max
    decreases |s|
  {
    var r := Receive(max, s);
    if !r.Blocked? { ReceivedAreSmall(max, r.rest); }
  }

  lemma {:induction false} IncomingAreSmall(s: seq<byte>)
    ensures forall m :: m in IncomingAll(s) ==> |m.payload| < 65536
    decreases |s|
  {
    var r := Incoming(s);
    if r.Got? { IncomingAreSmall(r.rest); }
  }

  ghost predicate Within(max: nat, ms: seq<Message>) {
    forall m :: m in ms ==> |m.payload| <= max
  }

  /** The messages that `serialize` does not refuse. */
  function Accepted(max: u16, ms: seq<Message>): (r: seq<Message>)
    ensures |r| <= |ms|
  {
    if ms == [] then [] else (if Serializable(max, ms[0]) then [ms[0]] else []) + Accepted(max, ms[1..])
  }

  /** What a client writes for a list of messages: nothing for those it refuses. */
  function Serialized(max: u16, ms: seq<Message>): seq<byte> {
    Frames(Accepted(max, ms))
  }

  method SerializeAll(max: u16, ms: seq<Message>, stream: Stream)
    modifies stream`output
    ensures stream.output == old(stream.output) + Serialized(max, ms)
  {
    for k := 0 to |ms|
      invariant stream.output == old(stream.output) + Serialized(max, ms[..k])
    {
      assert ms[..k + 1] == ms[..k] + [ms[k]];
      SerializedSnoc(max, ms[..k], ms[k]);
      var ok := SerializeTo(max, ms[k], stream);
    }
    assert ms[..|ms|] == ms;
  }

  lemma {:induction false} SerializedSnoc(max: u16, ms: seq<Message>, m: Message)
    ensures Serialized(max, ms + [m]) == Serialized(max, ms) + if Serializable(max, m) then Frame(m) else []
  {
    var last := if Serializable(max, m) then [m] else [];
    AcceptedSnoc(max, ms, m);
    FramesAppend(Accepted(max, ms), last);
    assert Frames([]) == [] && Frame(m) + [] == Frame(m);
  }

  lemma {:induction false} AcceptedSnoc(max: u16, ms: seq<Message>, m: Message)
    ensures Accepted(max, ms + [m]) == Accepted(max, ms) + if Serializable(max, m) then [m] else []
  {
    if ms != [] {
      assert (ms + [m])[1..] == ms[1..] + [m];
      AcceptedSnoc(max, ms[1..], m);
    }
  }

  lemma {:induction false} FramesAppend(ms: seq<Message>, more: seq<Message>)
    ensures Frames(ms + more) == Frames(ms) + Frames(more)
  {
    if ms == [] {
      assert ms + more == more;
    } else {
      assert (ms + more)[1..] == ms[1..] + more;
      FramesAppend(ms[1..], more);
    }
  }

  lemma {:induction false} AllAreAccepted(max: u16, ms: seq<Message>)
    requires Within(max, ms)
    ensures Accepted(max, ms) == ms
  {
    if ms != [] {
      assert ms[0] in ms;
      SerializableIff(max, ms[0]);
      AllAreAccepted(max, ms[1..]);
      assert ms == [ms[0]] + ms[1..];
    }
  }

  lemma SerializableIff(max: u16, m: Message)
    requires |m.payload| < 65536
    ensures Serializable(max, m) <==> |m.payload| <= max
  {
  }

  lemma {:induction false} AcceptedAreShort(max: u16, ms: seq<Message>)
    requires Within(65535, ms)
    ensures forall m :: m in Accepted(max, ms) <==> m in ms && |m.payload| <= max
  {
    if ms != [] {
      assert ms[0] in ms;
      SerializableIff(max, ms[0]);
      AcceptedAreShort(max, ms[1..]);
      assert ms == [ms[0]] + ms[1..];
    }
  }

  /** Whole streams: what the client writes is read message for message, by a client and by the network, exactly
      if all payloads are within the maximum. */
  lemma {:induction false} StreamRoundTripIff(max: u16, ms: seq<Message>)
    ensures ReceiveAll(max, Serialized(max, ms)) == ms <==> Within(max, ms)
    ensures IncomingAll(Serialized(max, ms)) == ms <==> Within(max, ms)
  {
    ReceivedAreSmall(max, Serialized(max, ms));
    IncomingAreSmall(Serialized(max, ms));
    if Within(max, ms) {
      AllAreAccepted(max, ms);
      AllReceived(max, ms);
      AllIncoming(ms);
    } else if IncomingAll(Serialized(max, ms)) == ms {
      NetworkReadsAccepted(max, ms);
      assert false;
    }
  }

  /** If no payload is too long for a header, the network reads exactly the messages that are within the maximum. */
  lemma {:induction false} NetworkReadsAccepted(max: u16, ms: seq<Message>)
    requires Within(65535, ms)
    ensures IncomingAll(Serialized(max, ms)) == Accepted(max, ms)
    ensures forall m :: m in Accepted(max, ms) <==> m in ms && |m.payload| <= max
  {
    AcceptedAreShort(max, ms);
    AllIncoming(Accepted(max, ms));
  }

  lemma {:induction false} AllReceived(max: u16, ms: seq<Message>)
    requires Within(max, ms)
    ensures ReceiveAll(max, Frames(ms)) == ms
  {
    if ms != [] {
      assert ms[0] in ms;
      AllReceived(max, ms[1..]);
      ReceiveIff(max, ms[0], Frames(ms[1..]));
    }
  }

  lemma {:induction false} AllIncoming(ms: seq<Message>)
    requires Within(65535, ms)
    ensures IncomingAll(Frames(ms)) == ms
  {
    if ms != [] {
      assert ms[0] in ms;
      AllIncoming(ms[1..]);
      IncomingFrame(ms[0], Frames(ms[1..]));
    }
  }

  /** What a node sends is framed as the client frames it. */
  lemma {:induction false} SendBufferIsFrame(node: u16, type_: u16, payload: seq<byte>)
    ensures SendBuffer(node, Encode16(type_) + payload) == Frame(Message(node, type_, payload))
  {
  }

  function SentBuffers(ms: seq<Message>): seq<byte> {
    if ms == [] then [] else SendBuffer(ms[0].source, Encode16(ms[0].type_) + ms[0].payload) + SentBuffers(ms[1..])
  }

  /** Whole streams from the nodes of a network to a client. */
  lemma {:induction false} NetworkStreamRoundTripIff(max: u16, ms: seq<Message>)
    ensures SentBuffers(ms) == Frames(ms)
    ensures ReceiveAll(max, SentBuffers(ms)) == ms <==> Within(max, ms)
  {
    SentIsFrames(ms);
    ReceivedAreSmall(max, Frames(ms));
    if Within(max, ms) { AllReceived(max, ms); }
  }

  lemma {:induction false} SentIsFrames(ms: seq<Message>)
    ensures SentBuffers(ms) == Frames(ms)
  {
    if ms != [] {
      SendBufferIsFrame(ms[0].source, ms[0].type_, ms[0].payload);
      SentIsFrames(ms[1..]);
    }
  }

  /** An oversized frame desynchronises the client. Of this one only the header is skipped; its payload is
      read as a message that nobody has sent, and the frame that follows is lost. */
  lemma {:induction false} OversizedDesynchronises()
    ensures var long, next := Message(1, 2, [0, 0, 7, 0]), Message(5, 6, []);
            ReceiveAll(3, Frames([long, next])) == [Message(7, 0, [])]
  {
    var long, next := Message(1, 2, [0, 0, 7, 0]), Message(5, 6, []);
    var ghost_, tail: seq<byte> := Message(7, 0, []), [5, 0, 6, 0];
    assert [long, next][1..] == [next] && [next][1..] == [];
    assert Frames([next]) == Frame(next) == [0, 0, 5, 0, 6, 0];
    ReceiveIff(3, long, Frame(next));
    assert long.payload + Frame(next) == Frame(ghost_) + tail;
    ReceiveIff(3, ghost_, tail);
    assert ReceiveAll(3, tail) == [];
    assert ReceiveAll(3, Frame(ghost_) + tail) == [ghost_] + [];
    assert ReceiveAll(3, Frame(long) + Frame(next)) == ReceiveAll(3, long.payload + Frame(next));
  }

  // ---------------------------------------------------------------- dispatch

  /** The messages of a stream that a node is handed: all that are not commands, and the commands for it. */
  function HandedTo(first: u16, last: u16, ms: seq<Message>, id: u16): seq<Message> {
    if ms == [] then []
    else HandedTo(first, last, ms[..|ms| - 1], id) + if IsFor(first, last, ms[|ms| - 1], id) then [ms[|ms| - 1]] else []
  }

  lemma {:induction false} HandedToNext(first: u16, last: u16, ms: seq<Message>, k: nat)
    requires k < |ms|
    ensures forall id :: HandedTo(first, last, ms[..k + 1], id) ==
                         HandedTo(first, last, ms[..k], id) + if IsFor(first, last, ms[k], id) then [ms[k]] else []
  {
    assert ms[..k + 1][..k] == ms[..k];
  }

  /** A stream of frames, read message by message: every node is handed exactly the messages for it, in order. */
  method Drain(network: Network, stream: Stream, ghost ms: seq<Message>)
    requires network.Valid() && network.current == stream && stream.input == Frames(ms)
    requires forall m :: m in ms ==> |m.payload| < 65536
    requires forall m :: m in ms && network.firstCommand <= m.type_ <= network.lastCommand ==> |m.payload| >= 2
    requires forall id :: id in network.nodes ==> network.handed[id] == []
    modifies network`handed, stream`input
    ensures network.Valid() && stream.input == []
    ensures forall id :: id in network.nodes ==>
            network.handed[id] == HandedTo(network.firstCommand, network.lastCommand, ms, id)
  {
    ghost var k := 0;
    while stream.input != []
      invariant k <= |ms| && network.Valid() && stream.input == Frames(ms[k..])
      invariant forall id :: id in network.nodes ==>
                network.handed[id] == HandedTo(network.firstCommand, network.lastCommand, ms[..k], id)
      decreases |ms| - k
    {
      assert k < |ms| && ms[k] in ms && ms[k..][0] == ms[k] && ms[k..][1..] == ms[k + 1..];
      IncomingFrame(ms[k], Frames(ms[k + 1..]));
      HandedToNext(network.firstCommand, network.lastCommand, ms, k);
      var r := network.IncomingData(stream);
      k := k + 1;
    }
    FramesLength(ms[k..]);
    assert ms[..k] == ms;
  }

  lemma {:induction false} FramesLength(ms: seq<Message>)
    ensures |Frames(ms)| >= 6 * |ms|
  {
    if ms != [] {
      FrameFields(ms[0], Frames(ms[1..]));
      FramesLength(ms[1..]);
    }
  }

  /** A command is handed to the node that its first two bytes name, and to no other; any other message to all. */
  lemma {:induction false} CommandIsHanded(
    first: u16, last: u16, ms: seq<Message>, source: u16, type_: u16, dest: u16, args: seq<byte>, id: u16)
    ensures var m := Message(source, type_, Encode16(dest) + args);
            HandedTo(first, last, ms + [m], id) ==
            HandedTo(first, last, ms, id) + if type_ < first || type_ > last || id == dest then [m] else []
  {
    var m := Message(source, type_, Encode16(dest) + args);
    assert (ms + [m])[..|ms|] == ms;
    assert Decode16(m.payload) == dest;
  }
}
