/** Frames of the peer protocol: cutting them out of a byte stream that arrives in pieces, with
    resynchronisation on the magic number (code/Node.c:397-468), and building them (code/Node.c:542-592). */
module Framing {
  import opened Bytes

  /** The magic number of the network and the double hash. */
  datatype Net = Net(magic: bytes, hash256: bytes -> bytes)

  ghost predicate Proper(net: Net)
  {
    |net.magic| == 4 && forall s {:trigger net.hash256(s)} :: |net.hash256(s)| == 32
  }

  datatype Message = Message(command: bytes, payload: bytes)

  const HEADER: nat := 24

  // ----- One step of the parser -----

  /** Nothing can be said yet; bytes are passed over; or a message is delivered. */
  datatype Outcome = Wait | Skip(used: nat) | Deliver(used: nat, message: Message)

  /** The command field up to its first zero byte. */
  function Command(field: bytes): (c: bytes)
  {
    if field == [] || field[0] == 0 then [] else [field[0]] + Command(field[1..])
  }

  function PayloadLength(s: bytes): (n: nat)
    requires |s| >= HEADER
  {
    LittleValue(s[16..20])
  }

  predicate Checked(net: Net, s: bytes, payload: bytes)
    requires |s| >= HEADER
  {
    |net.hash256(payload)| >= 4 && s[20..24] == net.hash256(payload)[..4]
  }

  function Step(net: Net, s: bytes): (o: Outcome)
  {
    if |s| < HEADER then Wait
    else if s[..4] != net.magic then Skip(1)
    else
      var used := HEADER + PayloadLength(s);
      if used > |s| then Wait
      else if Checked(net, s, s[HEADER..used]) then Deliver(used, Message(Command(s[4..16]), s[HEADER..used]))
      else Skip(used)
  }

  lemma StepUsed(net: Net, s: bytes)
    ensures !Step(net, s).Wait? ==> 0 < Step(net, s).used <= |s|
  {
  }

  /** What has been decided is not changed by what arrives later. */
  lemma StepStable(net: Net, s: bytes, more: bytes)
    requires !Step(net, s).Wait?
    ensures Step(net, s + more) == Step(net, s)
  {
    var t := s + more;
    assert t[..4] == s[..4] && t[16..20] == s[16..20] && t[20..24] == s[20..24] && t[4..16] == s[4..16];
    if s[..4] == net.magic {
      var used := HEADER + PayloadLength(s);
      assert t[HEADER..used] == s[HEADER..used];
    }
  }

  // ----- The whole stream -----

  function Delivered(o: Outcome): (ms: seq<Message>)
    requires !o.Wait?
  {
    if o.Deliver? then [o.message] else []
  }

  function Parse(net: Net, s: bytes): (ms: seq<Message>)
    decreases |s|
  {
    StepUsed(net, s);
    var o := Step(net, s);
    if o.Wait? then [] else Delivered(o) + Parse(net, s[o.used..])
  }

  /** What is still undecided. */
  function Rest(net: Net, s: bytes): (t: bytes)
    decreases |s|
  {
    StepUsed(net, s);
    var o := Step(net, s);
    if o.Wait? then s else Rest(net, s[o.used..])
  }

  /** Parsing does not depend on where the stream was cut. */
  lemma {:induction false} ParseAppend(net: Net, a: bytes, b: bytes)
    ensures Parse(net, a + b) == Parse(net, a) + Parse(net, Rest(net, a) + b)
    ensures Rest(net, a + b) == Rest(net, Rest(net, a) + b)
    decreases |a|
  {
    var o := Step(net, a);
    if !o.Wait? {
      StepUsed(net, a);
      StepStable(net, a, b);
      assert (a + b)[o.used..] == a[o.used..] + b;
      ParseAppend(net, a[o.used..], b);
    }
  }

  lemma {:induction false} RestIsDone(net: Net, s: bytes)
    ensures Parse(net, Rest(net, s)) == [] && Step(net, Rest(net, s)).Wait?
    decreases |s|
  {
    var o := Step(net, s);
    if !o.Wait? {
      StepUsed(net, s);
      RestIsDone(net, s[o.used..]);
    }
  }

  // ----- Frames -----

  predicate Sendable(m: Message)
  {
    |m.command| <= 12 && 0 !in m.command && |m.payload| < 0x1_0000_0000
  }

  function Header(net: Net, m: Message): (s: bytes)
    requires Sendable(m)
  {
    net.magic + (m.command + ZeroBytes(12 - |m.command|)) + Little(|m.payload|, 4) + net.hash256(m.payload)[..if |net.hash256(m.payload)| >= 4 then 4 else 0]
  }

  function Frame(net: Net, m: Message): (s: bytes)
    requires Sendable(m)
  {
    Header(net, m) + m.payload
  }

  function Frames(net: Net, ms: seq<Message>): (s: bytes)
    requires forall i :: 0 <= i < |ms| ==> Sendable(ms[i])
  {
    if ms == [] then [] else Frame(net, ms[0]) + Frames(net, ms[1..])
  }

  lemma {:induction false} CommandPadded(c: bytes, n: nat)
    requires 0 !in c
    ensures Command(c + ZeroBytes(n)) == c
  {
    if c != [] {
      var s := c + ZeroBytes(n);
      assert s[0] == c[0] && s[1..] == c[1..] + ZeroBytes(n);
      CommandPadded(c[1..], n);
    } else {
      assert c + ZeroBytes(n) == ZeroBytes(n);
    }
  }

  /** The fields of a header, in their places. */
  lemma HeaderFields(net: Net, m: Message, rest: bytes)
    requires Proper(net) && Sendable(m)
    ensures var s := Frame(net, m) + rest;
      && |s| >= HEADER + |m.payload| && s[..4] == net.magic && s[4..16] == m.command + ZeroBytes(12 - |m.command|)
      && s[16..20] == Little(|m.payload|, 4) && s[20..24] == net.hash256(m.payload)[..4]
      && s[HEADER..HEADER + |m.payload|] == m.payload && s[HEADER + |m.payload|..] == rest
  {
    var h := Header(net, m);
    var s := Frame(net, m) + rest;
    assert |h| == HEADER && s[..HEADER] == h;
    assert h[..4] == net.magic && h[4..16] == m.command + ZeroBytes(12 - |m.command|);
    assert h[16..20] == Little(|m.payload|, 4) && h[20..24] == net.hash256(m.payload)[..4];
    assert s[..4] == h[..4] && s[4..16] == h[4..16] && s[16..20] == h[16..20] && s[20..24] == h[20..24];
  }

  lemma StepOfFrame(net: Net, m: Message, rest: bytes)
    requires Proper(net) && Sendable(m)
    ensures var s := Frame(net, m) + rest;
      Step(net, s) == Deliver(HEADER + |m.payload|, m) && s[HEADER + |m.payload|..] == rest
  {
    HeaderFields(net, m, rest);
    CommandPadded(m.command, 12 - |m.command|);
    RangeValues();
    LittleRoundTrip(|m.payload|, 4);
  }

  lemma ParseFrame(net: Net, m: Message, rest: bytes)
    requires Proper(net) && Sendable(m)
    ensures Parse(net, Frame(net, m) + rest) == [m] + Parse(net, rest)
  {
    StepOfFrame(net, m, rest);
  }

  /** What was sent is delivered, in order and nothing else. */
  lemma {:induction false} ParseFrames(net: Net, ms: seq<Message>, rest: bytes, s: bytes)
    requires Proper(net) && (forall i :: 0 <= i < |ms| ==> Sendable(ms[i])) && s == Frames(net, ms) + rest
    ensures Parse(net, s) == ms + Parse(net, rest)
  {
    if ms == [] {
      assert s == rest;
    } else {
      var more := Frames(net, ms[1..]) + rest;
      ParseFrames(net, ms[1..], rest, more);
      FramesSplit(net, ms, rest, s, more);
      ParseOnto(net, ms, s, more, Parse(net, rest));
    }
  }

  lemma FramesSplit(net: Net, ms: seq<Message>, rest: bytes, s: bytes, more: bytes)
    requires ms != [] && (forall i :: 0 <= i < |ms| ==> Sendable(ms[i]))
    requires s == Frames(net, ms) + rest && more == Frames(net, ms[1..]) + rest
    ensures s == Frame(net, ms[0]) + more
  {
    FramesCons(net, ms, Frame(net, ms[0]), Frames(net, ms[1..]));
    Regroup3(Frame(net, ms[0]), Frames(net, ms[1..]), rest);
  }

  lemma ParseOnto(net: Net, ms: seq<Message>, s: bytes, more: bytes, tail: seq<Message>)
    requires Proper(net) && ms != [] && Sendable(ms[0]) && s == Frame(net, ms[0]) + more && Parse(net, more) == ms[1..] + tail
    ensures Parse(net, s) == ms + tail
  {
    ParseFrame(net, ms[0], more);
    ConsTail(ms, tail, Parse(net, s));
  }

  lemma ConsTail(ms: seq<Message>, tail: seq<Message>, all: seq<Message>)
    requires ms != [] && all == [ms[0]] + (ms[1..] + tail)
    ensures all == ms + tail
  {
    assert ms == [ms[0]] + ms[1..];
  }

  lemma FramesCons(net: Net, ms: seq<Message>, f: bytes, fs: bytes)
    requires ms != [] && (forall i :: 0 <= i < |ms| ==> Sendable(ms[i])) && f == Frame(net, ms[0]) && fs == Frames(net, ms[1..])
    ensures Frames(net, ms) == f + fs
  {
  }

  lemma Regroup3(a: bytes, b: bytes, c: bytes)
    ensures (a + b) + c == a + (b + c)
  {
  }

  // ----- Delivery independent of chunking -----

  /** What a node has delivered and what it still holds, after a given stream. */
  predicate Conserved(net: Net, stream: bytes, delivered: seq<Message>, buffer: bytes)
  {
    delivered + Parse(net, buffer) == Parse(net, stream)
  }

  lemma ConservedMore(net: Net, stream: bytes, delivered: seq<Message>, buffer: bytes, chunk: bytes)
    requires Conserved(net, stream, delivered, buffer) && Rest(net, stream) == Rest(net, buffer)
    ensures Conserved(net, stream + chunk, delivered, buffer + chunk) && Rest(net, stream + chunk) == Rest(net, buffer + chunk)
  {
    ParseAppend(net, stream, chunk);
    ParseAppend(net, buffer, chunk);
    Regroup(delivered, Parse(net, buffer), Parse(net, Rest(net, buffer) + chunk));
  }

  lemma Regroup(a: seq<Message>, b: seq<Message>, c: seq<Message>)
    ensures a + (b + c) == (a + b) + c
  {
  }

  lemma ConservedStep(net: Net, stream: bytes, delivered: seq<Message>, buffer: bytes)
    requires Conserved(net, stream, delivered, buffer) && Rest(net, stream) == Rest(net, buffer) && !Step(net, buffer).Wait?
    ensures var o := Step(net, buffer);
      o.used <= |buffer| && Conserved(net, stream, delivered + Delivered(o), buffer[o.used..]) && Rest(net, stream) == Rest(net, buffer[o.used..])
  {
    StepUsed(net, buffer);
  }

  /** Two nodes that were fed the same stream, in whatever pieces, and have nothing left to decide have
      delivered the same messages; at any time, one that has not is only behind. */
  lemma ChunkingIrrelevant(net: Net, stream: bytes, d: seq<Message>, b: bytes, e: seq<Message>, c: bytes)
    requires Conserved(net, stream, d, b) && Conserved(net, stream, e, c) && Step(net, b).Wait?
    ensures |e| <= |d| && e == d[..|e|]
    ensures Step(net, c).Wait? ==> e == d
  {
    assert Parse(net, b) == [];
    assert d == e + Parse(net, c);
  }
}
