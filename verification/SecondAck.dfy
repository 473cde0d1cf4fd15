/** A second version from the peer makes the node queue a second acknowledgement, in front of whatever the
    output buffer still holds (code/Node.c:572-579, 634-646). When that keeps the frames whole. */
module SecondAck {
  import opened Bytes
  import opened Framing
  import opened Node

  const ACK: Message := Message(VERACK, [])

  /** What is known of the bytes of the acknowledgement, on every network. */
  predicate AckShape(s: bytes)
  {
    |s| == 24 && s[4..10] == VERACK && forall i :: 10 <= i < 20 ==> s[i] == 0
  }

  lemma AckBytes(net: Net)
    requires Proper(net)
    ensures Sendable(ACK) && AckShape(Frame(net, ACK))
  {
    var s := Frame(net, ACK);
    HeaderFields(net, ACK, []);
    assert s + [] == s;
    assert s[4..10] == s[4..16][..6] && s[10..16] == s[4..16][6..];
    assert forall i :: 10 <= i < 16 ==> s[i] == s[10..16][i - 10];
    assert forall i :: 16 <= i < 20 ==> s[i] == s[16..20][i - 16];
    assert Little(0, 4) == [0, 0, 0, 0];
  }

  /** The acknowledgement is no rotation of itself. */
  lemma NoRotation(a: bytes, x: bytes)
    requires AckShape(a) && 0 < |x| < 24
    ensures x + a != a + x
  {
    var p := |x|;
    assert a[4] == a[4..10][0] && a[5] == a[4..10][1] && a[6] == a[4..10][2] && a[7] == a[4..10][3] && a[8] == a[4..10][4] && a[9] == a[4..10][5];
    if p <= 15 {
      assert (x + a)[4 + p] == a[4] && (a + x)[4 + p] == a[4 + p];
    } else {
      assert (x + a)[24 + 9] == a[33 - p] && (a + x)[24 + 9] == x[9];
      assert (x + a)[9] == x[9] && (a + x)[9] == a[9];
    }
  }

  /** A frame that begins with the acknowledgement is no longer than it. */
  lemma ShortFrame(net: Net, m: Message)
    requires Proper(net) && Sendable(m) && Sendable(ACK) && Frame(net, ACK) <= Frame(net, m)
    ensures |Frame(net, m)| == 24
  {
    HeaderFields(net, m, []);
    HeaderFields(net, ACK, []);
    assert Frame(net, m) + [] == Frame(net, m) && Frame(net, ACK) + [] == Frame(net, ACK);
    assert Frame(net, m)[16..20] == Frame(net, ACK)[16..20];
    RangeValues();
    LittleRoundTrip(|m.payload|, 4);
    LittleRoundTrip(0, 4);
  }

  lemma Commutes(net: Net, m: Message, x: bytes, y: bytes)
    requires Proper(net) && Sendable(m) && Frame(net, m) == x + y && y != []
    ensures Sendable(ACK) && (x + Frame(net, ACK) == Frame(net, ACK) + x <==> x == [])
  {
    AckBytes(net);
    var a := Frame(net, ACK);
    if 0 < |x| < 24 {
      NoRotation(a, x);
    } else if |x| >= 24 && x + a == a + x {
      assert (x + a)[..24] == x[..24] && (a + x)[..24] == a;
      assert a <= Frame(net, m);
      ShortFrame(net, m);
    }
  }

  lemma Cancel(f: bytes, u: bytes, v: bytes, g: bytes)
    requires |u| == |v|
    ensures f + u + g == f + v + g <==> u == v
  {
    if f + u + g == f + v + g {
      assert u == (f + u + g)[|f|..|f| + |u|];
      assert v == (f + v + g)[|f|..|f| + |v|];
    }
  }

  /** `x` is the part of frame `m` that has left, `y` the part that has not. With the acknowledgement put in
      front of the buffer, what the peer gets is the queue with the acknowledgement in it exactly if no
      frame is cut. */
  lemma SecondAckWholeIff(net: Net, before: seq<Message>, m: Message, after: seq<Message>, x: bytes, y: bytes)
    requires Proper(net) && AllSendable(before) && Sendable(m) && AllSendable(after) && Frame(net, m) == x + y && y != []
    ensures Sendable(ACK) && AllSendable(before + [ACK, m] + after)
    ensures Frames(net, before) + x + Frame(net, ACK) + y + Frames(net, after) == Frames(net, before + [ACK, m] + after) <==> x == []
  {
    AckBytes(net);
    var a, f, g := Frame(net, ACK), Frames(net, before), Frames(net, after);
    FramesAppend(net, before, [ACK, m]);
    FramesAppend(net, before + [ACK, m], after);
    FramesSnoc(net, [ACK], m);
    FramesOne(net, ACK);
    assert [ACK] + [m] == [ACK, m];
    Commutes(net, m, x, y);
    Cancel(f, x + a, a + x, y + g);
    Cut(f, x, a, y, g);
  }

  lemma Cut(f: bytes, x: bytes, a: bytes, y: bytes, g: bytes)
    ensures f + x + a + y + g == f + (x + a) + (y + g) && f + (a + (x + y)) + g == f + (a + x) + (y + g)
  {
  }
}
