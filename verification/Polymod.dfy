/** The Bech32 checksum register (libraries/segwit_addr/segwit_addr.c:27-35): thirty bits, into
    which five-bit symbols are fed. The step is a word expression; cut into five-bit groups it is
    one advance of a feedback register. */
module Polymod {
  import opened FeedbackRegister

  // ----- The step, as the library writes it -----

  /** `-bit & c`: a generator constant, selected by one bit. */
  function Select(bit: bv32, c: bv32): (r: bv32)
  {
    (0 - bit) & c
  }

  /** The register is always within thirty bits. */
  type Word = w: bv32 | w < 0x40000000

  function Step(pre: Word): (post: Word)
  {
    ((pre & 0x1FFFFFF) << 5)
    ^ Select((pre >> 25) & 1, 0x3b6a57b2)
    ^ Select((pre >> 26) & 1, 0x26508e6d)
    ^ Select((pre >> 27) & 1, 0x1ea119fa)
    ^ Select((pre >> 28) & 1, 0x3d4233dd)
    ^ Select((pre >> 29) & 1, 0x2a1462b3)
  }

  /** A symbol is added at the right end. */
  function Feed(chk: Word, v: bv5): (r: Word)
  {
    chk ^ (v as bv32)
  }

  // ----- The Bech32 generator -----

  /** The constants c0..c4 added up as the bits of `p` select them. */
  function Pick(p: bv5, c0: bv5, c1: bv5, c2: bv5, c3: bv5, c4: bv5): (r: bv5)
  {
    ((0 - (p & 1)) & c0) ^ ((0 - ((p >> 1) & 1)) & c1) ^ ((0 - ((p >> 2) & 1)) & c2)
    ^ ((0 - ((p >> 3) & 1)) & c3) ^ ((0 - ((p >> 4) & 1)) & c4)
  }

  // The five generator words, cut into their groups.
  function G0(p: bv5): (r: bv5)
  {
    Pick(p, 0x1d, 0x13, 0x0f, 0x1e, 0x15)
  }

  function G1(p: bv5): (r: bv5)
  {
    Pick(p, 0x16, 0x05, 0x0a, 0x14, 0x01)
  }

  function G2(p: bv5): (r: bv5)
  {
    Pick(p, 0x14, 0x01, 0x02, 0x04, 0x08)
  }

  function G3(p: bv5): (r: bv5)
  {
    Pick(p, 0x15, 0x03, 0x06, 0x0c, 0x18)
  }

  function G4(p: bv5): (r: bv5)
  {
    Pick(p, 0x1d, 0x13, 0x0f, 0x1e, 0x15)
  }

  function G5(p: bv5): (r: bv5)
  {
    Pick(p, 0x12, 0x0d, 0x1a, 0x1d, 0x13)
  }

  function Plus(a: bv5, b: bv5): (c: bv5)
  {
    a ^ b
  }

  const BECH32: Gen<bv5> := Gen(0, Plus, G0, G1, G2, G3, G4, G5)

  lemma AdditiveG0(a: bv5, b: bv5)
    ensures G0(Plus(a, b)) == Plus(G0(a), G0(b)) && G0(0) == 0
  {
  }

  lemma AdditiveG1(a: bv5, b: bv5)
    ensures G1(Plus(a, b)) == Plus(G1(a), G1(b)) && G1(0) == 0
  {
  }

  lemma AdditiveG2(a: bv5, b: bv5)
    ensures G2(Plus(a, b)) == Plus(G2(a), G2(b)) && G2(0) == 0
  {
  }

  lemma AdditiveG3(a: bv5, b: bv5)
    ensures G3(Plus(a, b)) == Plus(G3(a), G3(b)) && G3(0) == 0
  {
  }

  lemma AdditiveG4(a: bv5, b: bv5)
    ensures G4(Plus(a, b)) == Plus(G4(a), G4(b)) && G4(0) == 0
  {
  }

  lemma AdditiveG5(a: bv5, b: bv5)
    ensures G5(Plus(a, b)) == Plus(G5(a), G5(b)) && G5(0) == 0
  {
  }

  /** What left, from what was fed back to the right end. */
  function Left(q: bv5): (p: bv5)
  {
    Pick(q, 0x11, 0x0b, 0x16, 0x05, 0x0a)
  }

  lemma LeftOfG5(p: bv5)
    ensures Left(G5(p)) == p
  {
  }

  lemma PlusLaws(a: bv5, b: bv5, c: bv5, d: bv5)
    ensures Plus(Plus(a, b), Plus(c, d)) == Plus(Plus(a, c), Plus(b, d))
    ensures Plus(a, 0) == a && Plus(0, a) == a
    ensures Plus(a, Plus(a, b)) == b && Plus(Plus(a, b), b) == a
  {
  }

  lemma Laws(g: Gen<bv5>)
    requires g.xor == Plus && g.zero == 0
    ensures HasUnit(g) && UnitLeft(g) && UndoesItself(g) && UndoneRight(g)
  {
    forall a, b {:trigger g.xor(a, b)}
      ensures g.xor(a, g.zero) == a && g.xor(g.zero, a) == a && g.xor(a, g.xor(a, b)) == b && g.xor(g.xor(a, b), b) == a
    {
      PlusLaws(a, b, 0, 0);
    }
  }

  lemma RegroupLaw(g: Gen<bv5>)
    requires g.xor == Plus
    ensures Regroups(g)
  {
    forall a, b, c, d ensures g.xor(g.xor(a, b), g.xor(c, d)) == g.xor(g.xor(a, c), g.xor(b, d)) {
      PlusLaws(a, b, c, d);
    }
  }

  lemma AdditiveAt0(g: Gen<bv5>)
    requires g.xor == Plus && g.zero == 0 && g.g0 == G0
    ensures Additive(g, g.g0)
  {
    AdditiveG0(0, 0);
    forall a, b ensures g.g0(g.xor(a, b)) == g.xor(g.g0(a), g.g0(b)) {
      AdditiveG0(a, b);
    }
  }

  lemma AdditiveAt1(g: Gen<bv5>)
    requires g.xor == Plus && g.zero == 0 && g.g1 == G1
    ensures Additive(g, g.g1)
  {
    AdditiveG1(0, 0);
    forall a, b ensures g.g1(g.xor(a, b)) == g.xor(g.g1(a), g.g1(b)) {
      AdditiveG1(a, b);
    }
  }

  lemma AdditiveAt2(g: Gen<bv5>)
    requires g.xor == Plus && g.zero == 0 && g.g2 == G2
    ensures Additive(g, g.g2)
  {
    AdditiveG2(0, 0);
    forall a, b ensures g.g2(g.xor(a, b)) == g.xor(g.g2(a), g.g2(b)) {
      AdditiveG2(a, b);
    }
  }

  lemma AdditiveAt3(g: Gen<bv5>)
    requires g.xor == Plus && g.zero == 0 && g.g3 == G3
    ensures Additive(g, g.g3)
  {
    AdditiveG3(0, 0);
    forall a, b ensures g.g3(g.xor(a, b)) == g.xor(g.g3(a), g.g3(b)) {
      AdditiveG3(a, b);
    }
  }

  lemma AdditiveAt4(g: Gen<bv5>)
    requires g.xor == Plus && g.zero == 0 && g.g4 == G4
    ensures Additive(g, g.g4)
  {
    AdditiveG4(0, 0);
    forall a, b ensures g.g4(g.xor(a, b)) == g.xor(g.g4(a), g.g4(b)) {
      AdditiveG4(a, b);
    }
  }

  lemma AdditiveAt5(g: Gen<bv5>)
    requires g.xor == Plus && g.zero == 0 && g.g5 == G5
    ensures Additive(g, g.g5)
  {
    AdditiveG5(0, 0);
    forall a, b ensures g.g5(g.xor(a, b)) == g.xor(g.g5(a), g.g5(b)) {
      AdditiveG5(a, b);
    }
  }

  lemma Bech32Linear()
    ensures Linear(BECH32) && UndoesItself(BECH32)
  {
    Laws(BECH32);
    RegroupLaw(BECH32);
    AdditiveAt0(BECH32);
    AdditiveAt1(BECH32);
    AdditiveAt2(BECH32);
    AdditiveAt3(BECH32);
    AdditiveAt4(BECH32);
    AdditiveAt5(BECH32);
  }

  lemma Bech32Invertible()
    ensures Invertible(BECH32)
  {
    Laws(BECH32);
    forall p ensures Left(BECH32.g5(p)) == p {
      LeftOfG5(p);
    }
    assert LeftInverse(BECH32, Left);
  }

  // ----- Words and groups -----

  function Group(w: bv32): (v: bv5)
  {
    (w & 0x1f) as bv5
  }

  function Groups(w: Word): (r: Reg<bv5>)
  {
    Reg(Group(w >> 25), Group(w >> 20), Group(w >> 15), Group(w >> 10), Group(w >> 5), Group(w))
  }

  const WORDS: Machine<Word, bv5> := Machine(Step, Feed, Groups)

  lemma StepGroup0(w: Word)
    ensures Group(Step(w) >> 25) == Plus(Group(w >> 20), G0(Group(w >> 25)))
  {
  }

  lemma StepGroup1(w: Word)
    ensures Group(Step(w) >> 20) == Plus(Group(w >> 15), G1(Group(w >> 25)))
  {
  }

  lemma StepGroup2(w: Word)
    ensures Group(Step(w) >> 15) == Plus(Group(w >> 10), G2(Group(w >> 25)))
  {
  }

  lemma StepGroup3(w: Word)
    ensures Group(Step(w) >> 10) == Plus(Group(w >> 5), G3(Group(w >> 25)))
  {
  }

  lemma StepGroup4(w: Word)
    ensures Group(Step(w) >> 5) == Plus(Group(w), G4(Group(w >> 25)))
  {
  }

  lemma StepGroup5(w: Word)
    ensures Group(Step(w)) == G5(Group(w >> 25))
  {
  }

  /** `t` follows `w`, group by group. */
  predicate Follows(w: Word, t: Word)
  {
    && Group(t >> 25) == Plus(Group(w >> 20), G0(Group(w >> 25))) && Group(t >> 20) == Plus(Group(w >> 15), G1(Group(w >> 25)))
    && Group(t >> 15) == Plus(Group(w >> 10), G2(Group(w >> 25))) && Group(t >> 10) == Plus(Group(w >> 5), G3(Group(w >> 25)))
    && Group(t >> 5) == Plus(Group(w), G4(Group(w >> 25))) && Group(t) == G5(Group(w >> 25))
  }

  lemma StepFollows(w: Word)
    ensures Follows(w, Step(w))
  {
    StepGroup0(w);
    StepGroup1(w);
    StepGroup2(w);
    StepGroup3(w);
    StepGroup4(w);
    StepGroup5(w);
  }

  lemma FollowsAdvances(w: Word, t: Word, g: Gen<bv5>)
    requires Follows(w, t) && g.xor == Plus && g.g0 == G0 && g.g1 == G1 && g.g2 == G2 && g.g3 == G3 && g.g4 == G4 && g.g5 == G5
    ensures Groups(t) == Advance(g, Groups(w))
  {
  }

  lemma FeedLow(s: bv32, t: bv32, v: bv5)
    requires t == v as bv32
    ensures Group(s ^ t) == Plus(Group(s), v)
  {
  }

  lemma FeedHigh(s: bv32, t: bv32, v: bv5)
    requires t == v as bv32
    ensures (s ^ t) >> 5 == s >> 5
  {
  }

  lemma ShiftsOnly(s: bv32)
    ensures s >> 10 == (s >> 5) >> 5 && s >> 15 == (s >> 5) >> 10 && s >> 20 == (s >> 5) >> 15 && s >> 25 == (s >> 5) >> 20
  {
  }

  lemma FeedGroups(g: Gen<bv5>, s: Word, v: bv5)
    requires g.xor == Plus
    ensures Groups(Feed(s, v)) == Add(g, Groups(s), v)
  {
    var t := v as bv32;
    FeedLow(s, t, v);
    FeedHigh(s, t, v);
    ShiftsOnly(s);
    ShiftsOnly(s ^ t);
  }

  /** The word expressions implement the feedback register. */
  lemma WordsImplement()
    ensures Implements(WORDS, BECH32)
  {
    forall w: Word ensures WORDS.groups(WORDS.step(w)) == Advance(BECH32, WORDS.groups(w)) {
      StepFollows(w);
      FollowsAdvances(w, WORDS.step(w), BECH32);
    }
    forall w: Word, v: bv5 ensures WORDS.groups(WORDS.feed(w, v)) == Add(BECH32, WORDS.groups(w), v) {
      FeedGroups(BECH32, w, v);
    }
  }

  lemma WordFromGroups(v: Word, w: Word)
    requires Group(v >> 25) == Group(w >> 25) && Group(v >> 20) == Group(w >> 20) && Group(v >> 15) == Group(w >> 15)
    requires Group(v >> 10) == Group(w >> 10) && Group(v >> 5) == Group(w >> 5) && Group(v) == Group(w)
    ensures v == w
  {
  }

  lemma WordsFaithful()
    ensures Faithful(WORDS)
  {
    forall v: Word, w: Word ensures WORDS.groups(v) == WORDS.groups(w) ==> v == w {
      if Groups(v) == Groups(w) {
        WordFromGroups(v, w);
      }
    }
  }

  lemma GroupsOfOne()
    ensures WORDS.groups(1) == Window(BECH32, [1])
  {
  }

  // ----- What the codec uses -----

  /** The six symbols that the encoder appends. */
  function Checksum(m: Machine<Word, bv5>, chk: Word): (vs: seq<bv5>)
    ensures |vs| == 6
  {
    Closing(m, 0, 1, chk)
  }

  /** Whatever the register holds, the checksum drawn from it brings it to 1. */
  lemma ChecksumCloses(chk: Word)
    ensures Run(WORDS, chk, Checksum(WORDS, chk)) == 1
  {
    WordsImplement();
    WordsFaithful();
    Bech32Linear();
    GroupsOfOne();
    ClosingCloses(WORDS, BECH32, chk, 1, 1);
  }

  /** No two symbol strings that differ within one window of six end in the same register. */
  lemma WindowDetected(chk: Word, front: seq<bv5>, a: seq<bv5>, b: seq<bv5>, rest: seq<bv5>)
    requires |a| == |b| <= 6 && a != b
    ensures Run(WORDS, chk, front + a + rest) != Run(WORDS, chk, front + b + rest)
  {
    WordsImplement();
    Bech32Linear();
    Bech32Invertible();
    BurstSeparates(BECH32, WORDS.groups(chk), front, a, b, rest);
    RunGroups(WORDS, BECH32, chk, front + a + rest);
    RunGroups(WORDS, BECH32, chk, front + b + rest);
  }
}
