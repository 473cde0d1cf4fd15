/** The 82 bytes of child wallets and of public wallets, place by place (code/BTCUtil.c:693-745, 905-986;
    section "Child key derivation (CKD) functions" of BIP 32). */
module HdBytes {
  import opened Bytes
  import opened HdWallet

  // ----- What is hashed -----

  /** The public key of 33 key bytes: their own, or that of the 32 behind a zero byte, if it exists. */
  function PublicKey<P>(c: Curve<P>, key: bytes): (k: bytes)
    requires |key| == 33
  {
    if key[0] != 0 then key
    else if 0 < Val(key[1..]) < c.n then c.write(c.mul(Val(key[1..])))
    else []
  }

  /** The hash that a child is made from: the hardened indices take the private key as it stands. */
  function ChildHash<P>(e: Env<P>, s: bytes, i: nat): (h: bytes)
    requires |s| == 82
  {
    e.h.hmacSha512(s[13..45], (if i >= 0x8000_0000 then s[45..78] else PublicKey(e.c, s[45..78])) + Big(i, 4))
  }

  lemma {:induction false} ValBound(s: bytes)
    ensures Val(s) < Range(|s|)
    decreases |s|
  {
    if s != [] {
      ValBound(s[..|s| - 1]);
    }
  }

  // ----- The frame -----

  /** Version, depth, fingerprint, index and checksum of a child, whichever its key. */
  predicate FramedBy<P>(e: Env<P>, s: bytes, i: nat, r: bytes)
  {
    && |s| == 82 == |r| && var depth: int := s[4];
    && |e.h.hash160(PublicKey(e.c, s[45..78]))| == 20 && |e.h.hash256(r[..78])| == 32
    && r[..4] == s[..4] && r[4] == (depth + 1) % 256 && r[5..9] == e.h.hash160(PublicKey(e.c, s[45..78]))[..4]
    && r[9..13] == Big(i, 4) && r[78..82] == e.h.hash256(r[..78])[..4]
  }

  lemma KnownIs<P(!new)>(e: Env<P>, s: bytes)
    requires |s| == 82
    ensures Shaped(Decoded(s)) && Known(e, Decoded(s)) == PublicKey(e.c, s[45..78])
  {
  }

  lemma EncodedPlaces(h: Hashes, w: Wallet, r: bytes)
    requires Sized(h) && Shaped(w) && r == Encoded(h, w)
    ensures |r| == 82 && r[..4] == w.version && r[4] == w.depth && r[5..9] == w.parent && r[9..13] == w.index
    ensures r[13..45] == w.chain && r[45..78] == w.key && |h.hash256(r[..78])| == 32 && r[78..82] == h.hash256(r[..78])[..4]
  {
    DecodedEncoded(h, w);
    assert r[..78] == Front(w);
    assert r[78..82] == r[78..];
  }

  /** What an attempt at exactly this index leaves in the bytes. */
  lemma AttemptPlaces<P(!new)>(e: Env<P>, s: bytes, i: nat, r: bytes)
    requires Sound(e) && |s| == 82 && ChildAt(e, Decoded(s), i).Some? && r == Encoded(e.h, ChildAt(e, Decoded(s), i).value)
    ensures FramedBy(e, s, i, r) && |Seed(e, Decoded(s), i)| == 64
    ensures r[13..45] == Seed(e, Decoded(s), i)[32..] && NewKey(e, Decoded(s), i) == Some(r[45..78])
  {
    var w := Decoded(s);
    KnownIs(e, s);
    NewKeyLength(e, w, i);
    EncodedPlaces(e.h, ChildAt(e, w, i).value, r);
  }

  lemma SeedIs<P(!new)>(e: Env<P>, s: bytes, i: nat)
    requires Sound(e) && |s| == 82 && (s[45] == 0 || i < 0x8000_0000)
    ensures Shaped(Decoded(s)) && Seed(e, Decoded(s), i) == ChildHash(e, s, i) && |ChildHash(e, s, i)| == 64
  {
    KnownIs(e, s);
  }

  // ----- Children of private wallets -----

  /** The left half of the hash is added to the key, the right half is the chain code. The index has a child
      exactly if the left half is below the order and the sum is not zero. */
  lemma PrivateChild<P(!new)>(e: Env<P>, s: bytes, i: nat)
    requires Sound(e) && |s| == 82 && s[45] == 0 && 0 < Val(s[46..78]) < e.c.n && i < 0x1_0000_0000
    ensures var h := ChildHash(e, s, i);
      && |h| == 64
      && var sum := e.c.sum(Val(h[..32]), Val(s[46..78]));
      if Val(h[..32]) < e.c.n && sum != 0
      then
        && ChildBytes(e, s, i).Some?
        && var r := ChildBytes(e, s, i).value;
        FramedBy(e, s, i, r) && r[13..45] == h[32..] && r[45] == 0 && Val(r[46..78]) == sum
      else ChildBytes(e, s, i).Some? ==> ChildBytes(e, s, i) == ChildBytes(e, s, (i + 1) % 0x1_0000_0000)
  {
    var w, h := Decoded(s), ChildHash(e, s, i);
    SeedIs(e, s, i);
    assert w.key[1..] == s[46..78];
    var t := Tweak(e.c, h[..32], s[46..78]);
    assert NewKey(e, w, i) == match t { case None => None case Some(k) => Some([0] + k) };
    if t.Some? {
      LooksHere(e, s, i);
      var r := ChildBytes(e, s, i).value;
      AttemptPlaces(e, s, i, r);
      SumWritten(e.c, h[..32], s[46..78], r[45..78], r[46..78]);
    } else {
      LooksOn(e, s, i);
    }
  }

  lemma SumWritten<P(!new)>(c: Curve<P>, t: bytes, k: bytes, key: bytes, x: bytes)
    requires Homomorphic(c) && |t| == |k| == 32 && Val(t) < c.n && Val(k) < c.n && Tweak(c, t, k).Some?
    requires key == [0] + Tweak(c, t, k).value && x == key[1..]
    ensures key[0] == 0 && Val(x) == c.sum(Val(t), Val(k))
  {
    assert c.sum(Val(t), Val(k)) < Range(32);
    ValBig(c.sum(Val(t), Val(k)), 32);
    assert x == Big(c.sum(Val(t), Val(k)), 32);
  }

  /** The search ends at the index itself if that has a child, and goes on to the next one otherwise. */
  lemma LooksHere<P(!new)>(e: Env<P>, s: bytes, i: nat)
    requires |s| == 82 && (s[45] == 0 || i < 0x8000_0000) && NewKey(e, Decoded(s), i).Some?
    ensures ChildBytes(e, s, i) == Some(Encoded(e.h, ChildAt(e, Decoded(s), i).value))
  {
    assert Attempts(e, Decoded(s))(i) == ChildAt(e, Decoded(s), i);
  }

  lemma LooksOn<P(!new)>(e: Env<P>, s: bytes, i: nat)
    requires |s| == 82 && s[45] == 0 && i < 0x1_0000_0000 && NewKey(e, Decoded(s), i).None?
    ensures ChildBytes(e, s, i).Some? ==> ChildBytes(e, s, i) == ChildBytes(e, s, (i + 1) % 0x1_0000_0000)
  {
    var f := Attempts(e, Decoded(s));
    assert f(i) == ChildAt(e, Decoded(s), i);
    if Look(f, true, i, INDICES).Some? {
      EnoughTries(f, (i + 1) % INDICES, INDICES - 1);
    }
  }

  // ----- Children of public wallets -----

  /** The point of the left half is added to the key; a hardened index has no child. */
  lemma PublicChild<P(!new)>(e: Env<P>, s: bytes, i: nat)
    requires Sound(e) && |s| == 82 && s[45] != 0 && e.c.read(s[45..78]).Some? && i < 0x1_0000_0000
    ensures i >= 0x8000_0000 ==> ChildBytes(e, s, i) == None
    ensures i < 0x8000_0000 ==>
      var h := ChildHash(e, s, i);
      && |h| == 64
      && var sum := e.c.add(e.c.read(s[45..78]).value, e.c.mul(Val(h[..32])));
      if 0 < Val(h[..32]) < e.c.n && sum != e.c.infinity
      then
        && ChildBytes(e, s, i).Some?
        && var r := ChildBytes(e, s, i).value;
        FramedBy(e, s, i, r) && r[13..45] == h[32..] && r[45..78] == e.c.write(sum)
      else ChildBytes(e, s, i) == ChildBytes(e, s, i + 1)
  {
    if i < 0x8000_0000 {
      var w, h := Decoded(s), ChildHash(e, s, i);
      SeedIs(e, s, i);
      PointCombined(e.c, s[45..78], h[..32]);
      if NewKey(e, w, i).Some? {
        LooksHere(e, s, i);
        AttemptPlaces(e, s, i, ChildBytes(e, s, i).value);
      } else {
        PublicLooksOn(e, s, i);
      }
    }
  }

  lemma PointCombined<P(!new)>(c: Curve<P>, key: bytes, t: bytes)
    requires Homomorphic(c) && c.read(key).Some? && |t| == 32
    ensures var sum := c.add(c.read(key).value, c.mul(Val(t)));
      Combine(c, key, Pub(c, t)) == if 0 < Val(t) < c.n && sum != c.infinity then Some(c.write(sum)) else None
  {
    if 0 < Val(t) < c.n {
      assert c.mul(Val(t)) != c.infinity;
    }
  }

  lemma PublicLooksOn<P(!new)>(e: Env<P>, s: bytes, i: nat)
    requires |s| == 82 && s[45] != 0 && i < 0x8000_0000 && NewKey(e, Decoded(s), i).None?
    ensures ChildBytes(e, s, i) == ChildBytes(e, s, i + 1)
  {
    var f := Attempts(e, Decoded(s));
    assert f(i) == ChildAt(e, Decoded(s), i);
    LookNext(f, i, INDICES);
  }

  lemma LookNext<W>(f: nat -> Option<W>, i: nat, tries: nat)
    requires f(i).None? && i < HARDENED && tries == INDICES
    ensures Look(f, false, i, tries) == Look(f, false, i + 1, tries)
  {
    LookStep(f, i, tries);
    EnoughBelow(f, i + 1, tries - 1, tries);
  }

  // ----- Public wallets -----

  /** The version is exchanged, the key replaced by its public one and the checksum renewed; all else stays. */
  lemma PublicPlaces<P(!new)>(e: Env<P>, s: bytes)
    requires Sound(e) && |s| == 82 && s[45] == 0 && 0 < Val(s[46..78]) < e.c.n
    requires s[..4] == [0x04, 0x88, 0xAD, 0xE4] || s[..4] == [0x04, 0x35, 0x83, 0x94]
    ensures PublicBytes(e, s).Some?
    ensures var r := PublicBytes(e, s).value;
      && |r| == 82 && r[..4] == (if s[..4] == [0x04, 0x88, 0xAD, 0xE4] then [0x04, 0x88, 0xB2, 0x1E] else [0x04, 0x35, 0x87, 0xCF])
      && r[4..45] == s[4..45] && r[45..78] == e.c.write(e.c.mul(Val(s[46..78])))
      && |e.h.hash256(r[..78])| == 32 && r[78..82] == e.h.hash256(r[..78])[..4]
  {
    var w := Decoded(s);
    assert w.key[1..] == s[46..78];
    PublicShaped(e, w);
    var r := PublicBytes(e, s).value;
    EncodedPlaces(e.h, Public(e, w).value, r);
    Middle(r);
    Middle(s);
  }

  lemma Middle(s: bytes)
    requires |s| == 82
    ensures s[4..45] == [s[4]] + s[5..9] + s[9..13] + s[13..45]
  {
  }
}
