/** A peer connection (code/Node.c:296-313, 397-592, 634-646): bytes come in and are parsed into
    messages; messages go out through two buffers, with the version packet ahead of everything and
    nothing else before the acknowledgement of the peer's version is queued. */
module Node {
  import opened Bytes
  import opened Framing

  const VERSION: bytes := [118, 101, 114, 115, 105, 111, 110]
  const VERACK: bytes := [118, 101, 114, 97, 99, 107]

  const PACKETS_PER_PROCESS: nat := 1000

  predicate AllSendable(ms: seq<Message>)
  {
    forall i :: 0 <= i < |ms| ==> Sendable(ms[i])
  }

  lemma {:induction false} FramesAppend(net: Net, a: seq<Message>, b: seq<Message>)
    requires AllSendable(a) && AllSendable(b)
    ensures AllSendable(a + b) && Frames(net, a + b) == Frames(net, a) + Frames(net, b)
  {
    var all := a + b;
    if a == [] {
      assert all == b;
    } else {
      assert all[0] == a[0] && all[1..] == a[1..] + b;
      FramesAppend(net, a[1..], b);
      Tail(Frame(net, a[0]), Frames(net, a[1..]), Frames(net, b));
    }
  }

  lemma FramesOne(net: Net, m: Message)
    requires Sendable(m)
    ensures Frames(net, [m]) == Frame(net, m)
  {
    assert Frames(net, [m]) == Frame(net, m) + Frames(net, [m][1..]);
    assert [m][1..] == [];
  }

  lemma FramesSnoc(net: Net, ms: seq<Message>, m: Message)
    requires AllSendable(ms) && Sendable(m)
    ensures AllSendable(ms + [m]) && Frames(net, ms + [m]) == Frames(net, ms) + Frame(net, m)
  {
    FramesAppend(net, ms, [m]);
    FramesOne(net, m);
  }

  // ----- The output side, as values -----

  /** The bytes on the wire and in the two buffers are whole frames: the version, then the
      acknowledgement once it is queued, then everything else in queue order. Until the acknowledgement
      is queued, nothing but the version has been sent. */
  predicate InOrder(net: Net, wire: bytes, first: bytes, rest: bytes, ackQueued: bool,
                    own: seq<Message>, acks: seq<Message>, others: seq<Message>)
    requires AllSendable(own) && AllSendable(acks) && AllSendable(others)
  {
    && |own| <= 1 && |acks| <= 1 && ackQueued == (|acks| == 1)
    && if ackQueued
       then wire + first + rest == Frames(net, own) + Frames(net, acks) + Frames(net, others)
       else wire + first == Frames(net, own) && rest == Frames(net, others)
  }

  lemma FirstSent(net: Net, wire: bytes, first: bytes, rest: bytes, ackQueued: bool, own: seq<Message>, acks: seq<Message>, others: seq<Message>, n: nat)
    requires AllSendable(own) && AllSendable(acks) && AllSendable(others) && n <= |first|
    requires InOrder(net, wire, first, rest, ackQueued, own, acks, others)
    ensures InOrder(net, wire + first[..n], first[n..], rest, ackQueued, own, acks, others)
  {
    assert wire + first == wire + first[..n] + first[n..];
  }

  lemma RestSent(net: Net, wire: bytes, rest: bytes, own: seq<Message>, acks: seq<Message>, others: seq<Message>, n: nat)
    requires AllSendable(own) && AllSendable(acks) && AllSendable(others) && n <= |rest|
    requires InOrder(net, wire, [], rest, true, own, acks, others)
    ensures InOrder(net, wire + rest[..n], [], rest[n..], true, own, acks, others)
  {
    assert wire + [] + rest == wire + rest[..n] + [] + rest[n..];
  }

  lemma AckInserted(net: Net, wire: bytes, first: bytes, rest: bytes, own: seq<Message>, acks: seq<Message>, others: seq<Message>, m: Message)
    requires AllSendable(own) && AllSendable(acks) && AllSendable(others) && Sendable(m)
    requires InOrder(net, wire, first, rest, false, own, acks, others)
    ensures InOrder(net, wire, first, Frame(net, m) + rest, true, own, [m], others)
  {
    var f := Frame(net, m);
    FramesOne(net, m);
    assert wire + first + (f + rest) == wire + first + f + rest;
  }

  lemma OtherQueued(net: Net, wire: bytes, first: bytes, rest: bytes, ackQueued: bool, own: seq<Message>, acks: seq<Message>, others: seq<Message>, m: Message)
    requires AllSendable(own) && AllSendable(acks) && AllSendable(others) && Sendable(m)
    requires InOrder(net, wire, first, rest, ackQueued, own, acks, others)
    ensures AllSendable(others + [m]) && InOrder(net, wire, first, rest + Frame(net, m), ackQueued, own, acks, others + [m])
  {
    FramesSnoc(net, others, m);
    Tail(wire + first, rest, Frame(net, m));
    Tail(Frames(net, own) + Frames(net, acks), Frames(net, others), Frame(net, m));
  }

  lemma Tail(a: bytes, b: bytes, c: bytes)
    ensures a + (b + c) == a + b + c
  {
  }

  lemma VersionQueued(net: Net, wire: bytes, first: bytes, rest: bytes, acks: seq<Message>, others: seq<Message>, m: Message)
    requires AllSendable(acks) && AllSendable(others) && Sendable(m)
    requires InOrder(net, wire, first, rest, false, [], acks, others)
    ensures InOrder(net, wire, first + Frame(net, m), rest, false, [m], acks, others)
  {
    var f := Frame(net, m);
    FramesOne(net, m);
    assert wire + first == [] && wire == [] && first == [];
  }

  /** In every state, the wire carries the beginning of the frames in order, and only of the version's as
      long as the acknowledgement is not queued. */
  lemma WireIsPrefix(net: Net, wire: bytes, first: bytes, rest: bytes, ackQueued: bool, own: seq<Message>, acks: seq<Message>, others: seq<Message>)
    requires AllSendable(own) && AllSendable(acks) && AllSendable(others)
    requires InOrder(net, wire, first, rest, ackQueued, own, acks, others)
    ensures AllSendable(own + acks + others) && wire <= Frames(net, own + acks + others)
    ensures !ackQueued ==> wire <= Frames(net, own)
  {
    FramesAppend(net, own + acks, others);
    FramesAppend(net, own, acks);
    var all := Frames(net, own) + Frames(net, acks) + Frames(net, others);
    if ackQueued {
      Tail(wire, first, rest);
    } else {
      assert acks == [] && Frames(net, own) + Frames(net, acks) == Frames(net, own);
      Tail(wire, first, Frames(net, others));
    }
  }

  /** A peer on the same network that parses the wire has received some of the messages, in order and
      from the first one on. */
  lemma PeerReceivesInOrder(net: Net, wire: bytes, first: bytes, rest: bytes, ackQueued: bool, own: seq<Message>, acks: seq<Message>, others: seq<Message>)
    requires Proper(net) && AllSendable(own) && AllSendable(acks) && AllSendable(others)
    requires InOrder(net, wire, first, rest, ackQueued, own, acks, others)
    ensures Parse(net, wire) <= own + acks + others
  {
    WireIsPrefix(net, wire, first, rest, ackQueued, own, acks, others);
    PrefixParses(net, own + acks + others, wire);
  }

  lemma PrefixParses(net: Net, ms: seq<Message>, wire: bytes)
    requires Proper(net) && AllSendable(ms) && wire <= Frames(net, ms)
    ensures Parse(net, wire) <= ms
  {
    var all := Frames(net, ms);
    var more := all[|wire|..];
    FramesParse(net, ms, all);
    ParseAppend(net, wire, more);
    assert all == wire + more;
  }

  lemma FramesParse(net: Net, ms: seq<Message>, all: bytes)
    requires Proper(net) && AllSendable(ms) && all == Frames(net, ms)
    ensures Parse(net, all) == ms
  {
    assert all == all + [];
    ParseFrames(net, ms, [], all);
    assert Parse(net, []) == [];
  }

  /** How the input side stands: `s` is what is left to parse. */
  ghost predicate Kept(net: Net, stream: bytes, delivered: seq<Message>, s: bytes)
  {
    Conserved(net, stream, delivered, s) && Rest(net, stream) == Rest(net, s)
  }

  lemma KeptStep(net: Net, stream: bytes, delivered: seq<Message>, s: bytes)
    requires Kept(net, stream, delivered, s) && !Step(net, s).Wait?
    ensures var o := Step(net, s);
      0 < o.used <= |s| && Kept(net, stream, delivered + Delivered(o), s[o.used..])
  {
    StepUsed(net, s);
    ConservedStep(net, stream, delivered, s);
  }

  lemma KeptDone(net: Net, stream: bytes, delivered: seq<Message>, s: bytes)
    requires Kept(net, stream, delivered, s) && Step(net, s).Wait?
    ensures delivered == Parse(net, stream)
  {
    assert Parse(net, s) == [];
  }

  // ----- The connection -----

  /** A non-blocking `send`: it takes any part of what it is offered, or nothing for now. */
  method SendSome(offered: bytes) returns (result: int)
    ensures result == -1 || 0 < result <= |offered|
  {
    result := *;
    if !(0 < result <= |offered|) {
      result := -1;
    }
  }

  class Connection {
    const net: Net
    var connected: bool
    var inputBuffer: bytes
    var outputBuffer: bytes
    var versionPacket: bytes
    var verackSent: bool
    /** What was received and handed on, what was sent, and which messages were queued. */
    ghost var stream: bytes
    ghost var delivered: seq<Message>
    ghost var wire: bytes
    ghost var own: seq<Message>
    ghost var acks: seq<Message>
    ghost var others: seq<Message>

    ghost predicate InputValid()
      reads this
    {
      Kept(net, stream, delivered, inputBuffer)
    }

    ghost predicate OutputValid()
      reads this
    {
      && AllSendable(own) && AllSendable(acks) && AllSendable(others)
      && InOrder(net, wire, versionPacket, outputBuffer, verackSent, own, acks, others)
    }

    constructor (net: Net)
      ensures InputValid() && OutputValid() && this.net == net
      ensures stream == [] && delivered == [] && wire == [] && own == [] && acks == [] && others == []
    {
      this.net := net;
      connected := false;
      inputBuffer, outputBuffer, versionPacket, verackSent := [], [], [], false;
      stream, delivered, wire, own, acks, others := [], [], [], [], [], [];
    }

    /** `processInputBuffer`: at most a thousand steps; what is not used stays in the buffer. */
    method ProcessInputBuffer() returns (capped: bool)
      requires InputValid()
      modifies this`inputBuffer, this`delivered
      ensures InputValid()
      ensures !capped ==> Step(net, inputBuffer).Wait? && delivered == Parse(net, stream)
      ensures capped ==> |inputBuffer| + 1000 <= |old(inputBuffer)|
      ensures old(delivered) <= delivered
    {
      var rest, count := inputBuffer, 0;
      capped := false;
      while |rest| >= HEADER
        invariant |rest| + count <= |inputBuffer| && inputBuffer == old(inputBuffer) && !capped
        invariant Kept(net, stream, delivered, rest) && old(delivered) <= delivered
        decreases |rest|
      {
        if count + 1 > PACKETS_PER_PROCESS {
          capped := true;
          break;
        }
        count := count + 1;
        var o := OneStep(rest);
        if o.Wait? {
          break;
        }
        KeptStep(net, stream, delivered, rest);
        delivered := delivered + Delivered(o);
        rest := rest[o.used..];
      }
      inputBuffer := rest;
      if !capped {
        KeptDone(net, stream, delivered, rest);
      }
    }

    /** One turn of the loop at the header that `s` begins with. */
    method OneStep(s: bytes) returns (o: Outcome)
      requires |s| >= HEADER
      ensures o == Step(net, s)
    {
      if s[..4] != net.magic {
        return Skip(1);
      }
      var length := LittleValue(s[16..20]);
      if HEADER + length > |s| {
        return Wait;
      }
      var payload := s[HEADER..HEADER + length];
      var hash := net.hash256(payload);
      if |hash| < 4 || s[20..24] != hash[..4] {
        return Skip(HEADER + length);
      }
      o := Deliver(HEADER + length, Message(Command(s[4..16]), payload));
    }

    /** The reading branch of `NodeProcessRead`. */
    method Read(chunk: bytes) returns (capped: bool)
      requires InputValid()
      modifies this`inputBuffer, this`delivered, this`stream
      ensures InputValid() && stream == old(stream) + chunk
      ensures !capped ==> delivered == Parse(net, stream)
      ensures old(delivered) <= delivered
    {
      ConservedMore(net, stream, delivered, inputBuffer, chunk);
      inputBuffer := inputBuffer + chunk;
      stream := stream + chunk;
      capped := ProcessInputBuffer();
    }

    /** `processVersionAndOutputBuffer`: every `send` may take any part of what it is offered, or nothing
        for now (-1). Errors, which close the connection, are left out. */
    method ProcessVersionAndOutputBuffer() returns (done: bool)
      requires OutputValid()
      modifies this`wire, this`versionPacket, this`outputBuffer
      ensures OutputValid()
      ensures old(wire) <= wire && (!connected ==> wire == old(wire))
    {
      if !connected {
        return false;
      }
      while |versionPacket| > 0
        invariant OutputValid() && old(wire) <= wire
        decreases |versionPacket|
      {
        var result := SendSome(versionPacket);
        if result < 0 {
          break;
        }
        FirstSent(net, wire, versionPacket, outputBuffer, verackSent, own, acks, others, result);
        wire := wire + versionPacket[..result];
        versionPacket := versionPacket[result..];
      }
      if |versionPacket| > 0 || !verackSent {
        return false;
      }
      while |outputBuffer| > 0
        invariant OutputValid() && old(wire) <= wire && versionPacket == [] && verackSent
        decreases |outputBuffer|
      {
        var result := SendSome(outputBuffer);
        if result < 0 {
          break;
        }
        RestSent(net, wire, outputBuffer, own, acks, others, result);
        wire := wire + outputBuffer[..result];
        outputBuffer := outputBuffer[result..];
      }
      done := true;
    }

    /** The acknowledgement jumps to the front of the line. */
    method QueueVerack(m: Message)
      requires OutputValid() && Sendable(m) && acks == []
      modifies this`outputBuffer, this`verackSent, this`acks
      ensures OutputValid() && acks == [m]
    {
      AckInserted(net, wire, versionPacket, outputBuffer, own, acks, others, m);
      Tail(Header(net, m), m.payload, outputBuffer);
      outputBuffer := m.payload + outputBuffer;
      outputBuffer := Header(net, m) + outputBuffer;
      verackSent := true;
      acks := [m];
    }

    method QueueVersion(m: Message)
      requires OutputValid() && Sendable(m) && own == [] && !verackSent
      modifies this`versionPacket, this`own
      ensures OutputValid() && own == [m]
    {
      VersionQueued(net, wire, versionPacket, outputBuffer, acks, others, m);
      Tail(versionPacket, Header(net, m), m.payload);
      versionPacket := versionPacket + Header(net, m);
      versionPacket := versionPacket + m.payload;
      own := [m];
    }

    method QueueOther(m: Message)
      requires OutputValid() && Sendable(m)
      modifies this`outputBuffer, this`others
      ensures OutputValid() && others == old(others) + [m]
    {
      OtherQueued(net, wire, versionPacket, outputBuffer, verackSent, own, acks, others, m);
      Tail(outputBuffer, Header(net, m), m.payload);
      outputBuffer := outputBuffer + Header(net, m);
      outputBuffer := outputBuffer + m.payload;
      others := others + [m];
    }

    /** `nodeSend`, for a run with one own version, before the acknowledgement, and one acknowledgement. */
    method Send(m: Message) returns (done: bool)
      requires OutputValid() && Proper(net) && 0 !in m.command && |m.payload| < 0x1_0000_0000
      requires m.command == VERACK ==> acks == []
      requires m.command == VERSION ==> own == [] && !verackSent
      modifies this`wire, this`versionPacket, this`outputBuffer, this`verackSent, this`own, this`acks, this`others
      ensures OutputValid() && old(wire) <= wire
      ensures if |m.command| > 12 then own == old(own) && acks == old(acks) && others == old(others)
              else if m.command == VERACK then own == old(own) && acks == [m] && others == old(others)
              else if m.command == VERSION then own == [m] && acks == old(acks) && others == old(others)
              else own == old(own) && acks == old(acks) && others == old(others) + [m]
    {
      if |m.command| > 12 {
        return false;
      }
      if m.command == VERACK {
        QueueVerack(m);
      } else if m.command == VERSION {
        QueueVersion(m);
      } else {
        QueueOther(m);
      }
      done := ProcessVersionAndOutputBuffer();
    }
  }
}
