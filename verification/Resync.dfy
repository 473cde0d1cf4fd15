/** What a stream of the peer protocol loses and what it does not: bytes in front of a frame, and frames with a
    wrong checksum (code/Node.c:397-468); and the bytes of a frame (code/Node.c:542-592). */
module Resync {
  import opened Bytes
  import opened Framing

  predicate MagicAt(net: Net, s: bytes, i: nat)
  {
    i + 4 <= |s| && s[i..i + 4] == net.magic
  }

  /** The magic number begins nowhere in the first `n` bytes. */
  predicate NoMagic(net: Net, s: bytes, n: nat)
  {
    forall i :: 0 <= i < n ==> !MagicAt(net, s, i)
  }

  lemma NoMagicRest(net: Net, s: bytes, n: nat)
    requires NoMagic(net, s, n) && 0 < n <= |s|
    ensures NoMagic(net, s[1..], n - 1)
  {
    forall i: nat | i < n - 1 ensures !MagicAt(net, s[1..], i) {
      MagicLater(net, s, i);
    }
  }

  lemma MagicLater(net: Net, s: bytes, i: nat)
    requires s != []
    ensures MagicAt(net, s[1..], i) <==> MagicAt(net, s, i + 1)
  {
    if i + 4 <= |s[1..]| {
      assert s[1..][i..i + 4] == s[i + 1..i + 5];
    }
  }

  /** Bytes in which no magic number begins cost nothing that follows them. */
  lemma {:induction false} JunkPassedOver(net: Net, s: bytes, n: nat)
    requires NoMagic(net, s, n) && n <= |s| && |s| - n >= HEADER
    ensures Parse(net, s) == Parse(net, s[n..])
    decreases n
  {
    if n > 0 {
      assert !MagicAt(net, s, 0);
      assert Step(net, s) == Skip(1);
      assert Parse(net, s) == [] + Parse(net, s[1..]);
      NoMagicRest(net, s, n);
      JunkPassedOver(net, s[1..], n - 1);
      assert s[1..][n - 1..] == s[n..];
    } else {
      assert s[0..] == s;
    }
  }

  /** A frame behind such bytes is delivered. */
  lemma FrameFound(net: Net, junk: bytes, m: Message, rest: bytes)
    requires Proper(net) && Sendable(m) && NoMagic(net, junk + Frame(net, m) + rest, |junk|)
    ensures Parse(net, junk + Frame(net, m) + rest) == [m] + Parse(net, rest)
  {
    var s := junk + Frame(net, m) + rest;
    HeaderFields(net, m, rest);
    assert s[|junk|..] == Frame(net, m) + rest;
    JunkPassedOver(net, s, |junk|);
    ParseFrame(net, m, rest);
  }

  /** A frame with a wrong checksum is dropped as a whole, and nothing else with it. */
  lemma WrongChecksumDropped(net: Net, s: bytes, n: nat)
    requires Proper(net) && |s| >= 24 + n && s[..4] == net.magic && LittleValue(s[16..20]) == n
    requires s[20..24] != net.hash256(s[24..24 + n])[..4]
    ensures Parse(net, s) == Parse(net, s[24 + n..])
  {
    assert Step(net, s) == Skip(24 + n);
    assert Parse(net, s) == [] + Parse(net, s[24 + n..]);
  }

  /** A complete frame with the right checksum is delivered under its command. */
  lemma RightChecksumDelivered(net: Net, s: bytes, n: nat)
    requires Proper(net) && |s| >= 24 + n && s[..4] == net.magic && LittleValue(s[16..20]) == n
    requires s[20..24] == net.hash256(s[24..24 + n])[..4]
    ensures Parse(net, s) == [Message(Command(s[4..16]), s[24..24 + n])] + Parse(net, s[24 + n..])
  {
    assert Step(net, s) == Deliver(24 + n, Message(Command(s[4..16]), s[24..24 + n]));
  }

  /** The command ends at the first zero byte of its field. */
  lemma {:induction false} CommandEnds(field: bytes, n: nat)
    requires n <= |field| && (forall i :: 0 <= i < n ==> field[i] != 0) && (n < |field| ==> field[n] == 0)
    ensures Command(field) == field[..n]
  {
    if n > 0 {
      CommandEnds(field[1..], n - 1);
      assert field[..n] == [field[0]] + field[1..][..n - 1];
    }
  }

  /** Magic number, command filled up with zeros, length, checksum and payload. */
  lemma FrameBytes(net: Net, m: Message)
    requires Proper(net) && Sendable(m)
    ensures var s, n := Frame(net, m), |m.command|;
      && |s| == 24 + |m.payload| && s[..4] == net.magic && s[4..4 + n] == m.command && (forall i :: 4 + n <= i < 16 ==> s[i] == 0)
      && LittleValue(s[16..20]) == |m.payload| && s[20..24] == net.hash256(m.payload)[..4] && s[24..] == m.payload
  {
    var s := Frame(net, m);
    HeaderFields(net, m, []);
    assert s + [] == s;
    RangeValues();
    LittleRoundTrip(|m.payload|, 4);
    var field := m.command + ZeroBytes(12 - |m.command|);
    assert s[4..16] == field;
    assert s[4..4 + |m.command|] == s[4..16][..|m.command|] == m.command;
    forall i | 4 + |m.command| <= i < 16 ensures s[i] == 0 {
      assert s[i] == s[4..16][i - 4];
    }
    assert s[24..24 + |m.payload|] == s[24..];
  }
}
