/** Hierarchical wallets (BIP 32; code/BTCUtil.c:693-745, 905-986): deriving child keys from
    private and from public wallets, and why the two agree. The curve is a group generated by one point;
    the hash functions are parameters. */
module HdWallet {
  import opened Bytes

  // ----- Numbers -----

  function Val(s: bytes): (n: nat)
  {
    if s == [] then 0 else 256 * Val(s[..|s| - 1]) + s[|s| - 1]
  }

  lemma {:induction false} ValBig(n: nat, width: nat)
    requires n < Range(width)
    ensures Val(Big(n, width)) == n
  {
    if width > 0 {
      ValBig(n / 256, width - 1);
      assert Big(n, width)[..width - 1] == Big(n / 256, width - 1);
    }
  }

  // ----- The curve and the hash functions -----

  /** Scalars below `n` and their sum, multiples of the generator, and points written as 33 bytes. */
  datatype Curve<!P> = Curve(n: nat, sum: (nat, nat) -> nat, mul: nat -> P, add: (P, P) -> P, infinity: P, write: P -> bytes, read: bytes -> Option<P>)

  ghost predicate Homomorphic<P(!new)>(c: Curve<P>)
  {
    && 2 <= c.n < Range(32)
    && (forall a: nat, b: nat {:trigger c.sum(a, b)} :: a < c.n && b < c.n ==> c.sum(a, b) < c.n)
    && (forall a: nat, b: nat {:trigger c.sum(a, b)} :: a < c.n && b < c.n ==> c.add(c.mul(b), c.mul(a)) == c.mul(c.sum(a, b)))
    && (forall a: nat {:trigger c.sum(0, a)} :: a < c.n ==> c.sum(0, a) == a)
    && (forall a: nat {:trigger c.mul(a)} :: a < c.n ==> (c.mul(a) == c.infinity <==> a == 0))
    && (forall p {:trigger c.write(p)} :: p != c.infinity ==> |c.write(p)| == 33 && c.write(p)[0] != 0 && c.read(c.write(p)) == Some(p))
  }

  datatype Hashes = Hashes(hmacSha512: (bytes, bytes) -> bytes, hash160: bytes -> bytes, hash256: bytes -> bytes)

  ghost predicate Sized(h: Hashes)
  {
    && (forall k, m {:trigger h.hmacSha512(k, m)} :: |h.hmacSha512(k, m)| == 64)
    && (forall m {:trigger h.hash160(m)} :: |h.hash160(m)| == 20)
    && (forall m {:trigger h.hash256(m)} :: |h.hash256(m)| == 32)
  }

  /** `pubKey`: none for a key that is zero or not below the order. */
  function Pub<P>(c: Curve<P>, k: bytes): (r: Option<bytes>)
  {
    if |k| == 32 && 0 < Val(k) < c.n then Some(c.write(c.mul(Val(k)))) else None
  }

  /** `addToPrivKey`: none for a tweak that is not below the order, or a sum that is zero. */
  function Tweak<P>(c: Curve<P>, t: bytes, k: bytes): (r: Option<bytes>)
  {
    if |t| != 32 || |k| != 32 || Val(t) >= c.n then None else
    var s := c.sum(Val(t), Val(k));
    if s == 0 then None else Some(Big(s, 32))
  }

  /** `addPubKeys` of a key and a possibly missing one, compressed. */
  function Combine<P(==)>(c: Curve<P>, a: bytes, b: Option<bytes>): (r: Option<bytes>)
  {
    if b.None? then None else
    match (c.read(a), c.read(b.value))
    case (Some(p), Some(q)) => if c.add(p, q) == c.infinity then None else Some(c.write(c.add(p, q)))
    case _ => None
  }

  /** Adding a tweak that is not zero commutes with passing to public keys, failures included. */
  lemma TweakCommutes<P(!new)>(c: Curve<P>, t: bytes, k: bytes)
    requires Homomorphic(c) && |t| == |k| == 32 && Val(t) != 0 && Pub(c, k).Some?
    ensures Combine(c, Pub(c, k).value, Pub(c, t)) == match Tweak(c, t, k) { case None => None case Some(x) => Pub(c, x) }
    ensures Tweak(c, t, k).Some? ==> |Tweak(c, t, k).value| == 32 && Pub(c, Tweak(c, t, k).value).Some?
  {
    if Val(t) < c.n {
      var a, b := Val(k), Val(t);
      var s := c.sum(b, a);
      assert c.mul(a) != c.infinity && c.mul(b) != c.infinity;
      assert c.add(c.mul(a), c.mul(b)) == c.mul(s);
      ValBig(s, 32);
    }
  }

  /** A zero tweak leaves the private key alone and has no public key. */
  lemma ZeroTweak<P(!new)>(c: Curve<P>, t: bytes, k: bytes)
    requires Homomorphic(c) && |t| == |k| == 32 && Val(t) == 0 && Pub(c, k).Some?
    ensures Tweak(c, t, k).Some? && Combine(c, Pub(c, k).value, Pub(c, t)) == None
  {
    assert c.sum(0, Val(k)) == Val(k);
  }

  // ----- Wallets -----

  datatype Wallet = Wallet(version: bytes, depth: byte, parent: bytes, index: bytes, chain: bytes, key: bytes)

  const PRIV: bytes := [0x04, 0x88, 0xAD, 0xE4]
  const PUB: bytes := [0x04, 0x88, 0xB2, 0x1E]
  const PRIV_TESTNET: bytes := [0x04, 0x35, 0x83, 0x94]
  const PUB_TESTNET: bytes := [0x04, 0x35, 0x87, 0xCF]

  const HARDENED: nat := 0x8000_0000
  const INDICES: nat := 0x1_0000_0000

  predicate Shaped(w: Wallet)
  {
    |w.version| == 4 && |w.parent| == 4 && |w.index| == 4 && |w.chain| == 32 && |w.key| == 33
  }

  predicate IsPrivate(w: Wallet)
    requires Shaped(w)
  {
    w.key[0] == 0
  }

  datatype Env<!P> = Env(c: Curve<P>, h: Hashes)

  ghost predicate Sound<P(!new)>(e: Env<P>)
  {
    Homomorphic(e.c) && Sized(e.h)
  }

  /** A private wallet with a key of the curve. */
  predicate GoodPrivate<P>(e: Env<P>, w: Wallet)
  {
    Shaped(w) && IsPrivate(w) && Pub(e.c, w.key[1..]).Some? && (w.version == PRIV || w.version == PRIV_TESTNET)
  }

  /** `pubKeyFromHdWallet`. */
  function PubOf<P>(e: Env<P>, w: Wallet): (r: Option<bytes>)
    requires Shaped(w)
  {
    if IsPrivate(w) then Pub(e.c, w.key[1..]) else Some(w.key)
  }

  /** `publicHdWallet`. */
  function Public<P>(e: Env<P>, w: Wallet): (r: Option<Wallet>)
    requires Shaped(w)
  {
    if w.version == PUB || w.version == PUB_TESTNET then Some(w)
    else if w.version != PRIV && w.version != PRIV_TESTNET then None
    else if !IsPrivate(w) then None
    else match Pub(e.c, w.key[1..])
      case None => None
      case Some(k) => Some(w.(version := if w.version == PRIV then PUB else PUB_TESTNET, key := k))
  }

  /** What is hashed in place of a key: a private key without a public one counts as empty. */
  function Known<P>(e: Env<P>, w: Wallet): (k: bytes)
    requires Shaped(w)
  {
    match PubOf(e, w)
    case None => []
    case Some(k) => k
  }

  /** The hash that a child is made from: the hardened ones from the private key. */
  function Seed<P>(e: Env<P>, w: Wallet, i: nat): (r: bytes)
    requires Shaped(w)
  {
    var data := if IsPrivate(w) && i < HARDENED then Known(e, w) else w.key;
    e.h.hmacSha512(w.chain, data + Big(i, 4))
  }

  function Left(s: bytes): (r: bytes)
  {
    if |s| == 64 then s[..32] else []
  }

  function Right(s: bytes): (r: bytes)
  {
    if |s| == 64 then s[32..] else []
  }

  function NewKey<P(==)>(e: Env<P>, w: Wallet, i: nat): (r: Option<bytes>)
    requires Shaped(w)
  {
    var t := Left(Seed(e, w, i));
    if IsPrivate(w) then (match Tweak(e.c, t, w.key[1..]) case None => None case Some(k) => Some([0] + k))
    else Combine(e.c, w.key, Pub(e.c, t))
  }

  function Fingerprint<P>(e: Env<P>, w: Wallet): (r: bytes)
    requires Shaped(w)
  {
    if |e.h.hash160(Known(e, w))| >= 4 then e.h.hash160(Known(e, w))[..4] else [0, 0, 0, 0]
  }

  /** The child at exactly this index, if its key exists. */
  function ChildAt<P(==)>(e: Env<P>, w: Wallet, i: nat): (r: Option<Wallet>)
    requires Shaped(w)
  {
    match NewKey(e, w, i)
    case None => None
    case Some(k) => Some(Wallet(w.version, (w.depth + 1) % 256, Fingerprint(e, w), Big(i, 4), Right(Seed(e, w, i)), k))
  }

  /** The attempts of a wallet, one for each index. */
  function Attempts<P(==)>(e: Env<P>, w: Wallet): (f: nat -> Option<Wallet>)
    requires Shaped(w)
  {
    (i: nat) => ChildAt(e, w, i)
  }

  /** From one index to the next until there is a child; the hardened ones only for private wallets. */
  function Look<W>(f: nat -> Option<W>, all: bool, i: nat, tries: nat): (r: Option<W>)
    decreases tries
  {
    if tries == 0 || (!all && i >= HARDENED) then None
    else if f(i).Some? then f(i)
    else Look(f, all, (i + 1) % INDICES, tries - 1)
  }

  /** `childKeyDerivation`: an index whose key does not exist is passed over. Every index is looked at
      once; where none has a key the library does not return. */
  function Child<P(==)>(e: Env<P>, w: Wallet, i: nat): (r: Option<Wallet>)
    requires Shaped(w)
  {
    Look(Attempts(e, w), IsPrivate(w), i, INDICES)
  }

  // ----- The square commutes -----

  lemma PublicShaped<P(!new)>(e: Env<P>, w: Wallet)
    requires Sound(e) && GoodPrivate(e, w)
    ensures Public(e, w).Some? && Shaped(Public(e, w).value) && !IsPrivate(Public(e, w).value)
    ensures PubOf(e, Public(e, w).value) == PubOf(e, w)
  {
  }

  lemma SameSeed<P(!new)>(e: Env<P>, w: Wallet, i: nat)
    requires Sound(e) && GoodPrivate(e, w) && i < HARDENED
    ensures Shaped(Public(e, w).value) && Seed(e, Public(e, w).value, i) == Seed(e, w, i)
  {
    PublicShaped(e, w);
  }

  function TweakValue<P>(e: Env<P>, w: Wallet, i: nat): (n: nat)
    requires Shaped(w)
  {
    Val(Left(Seed(e, w, i)))
  }

  lemma NewKeyGood<P(!new)>(e: Env<P>, t: bytes, k: bytes)
    requires Homomorphic(e.c) && |t| == |k| == 32 && Pub(e.c, k).Some? && Tweak(e.c, t, k).Some?
    ensures |Tweak(e.c, t, k).value| == 32 && Pub(e.c, Tweak(e.c, t, k).value).Some?
  {
    if Val(t) != 0 {
      TweakCommutes(e.c, t, k);
    } else {
      assert e.c.sum(0, Val(k)) == Val(k);
      ValBig(Val(k), 32);
    }
  }

  lemma ChildGood<P(!new)>(e: Env<P>, w: Wallet, i: nat)
    requires Sound(e) && GoodPrivate(e, w) && ChildAt(e, w, i).Some?
    ensures GoodPrivate(e, ChildAt(e, w, i).value)
  {
    var t, k := Left(Seed(e, w, i)), w.key[1..];
    NewKeyGood(e, t, k);
    var x := Tweak(e.c, t, k).value;
    assert ([0] + x)[1..] == x;
  }

  lemma NewKeyCommutes<P(!new)>(e: Env<P>, w: Wallet, i: nat, p: Wallet)
    requires Sound(e) && GoodPrivate(e, w) && i < HARDENED && TweakValue(e, w, i) != 0 && Public(e, w) == Some(p)
    ensures Shaped(p)
    ensures NewKey(e, p, i) == match Tweak(e.c, Left(Seed(e, w, i)), w.key[1..]) { case None => None case Some(x) => Pub(e.c, x) }
  {
    PublicShaped(e, w);
    SameSeed(e, w, i);
    TweakCommutes(e.c, Left(Seed(e, w, i)), w.key[1..]);
  }

  /** One index below the hardened ones, with a tweak that is not zero: the public child of the public
      wallet is the public wallet of the private child, and one exists when the other does. */
  lemma AttemptCommutes<P(!new)>(e: Env<P>, w: Wallet, i: nat, p: Wallet)
    requires Sound(e) && GoodPrivate(e, w) && i < HARDENED && TweakValue(e, w, i) != 0 && Public(e, w) == Some(p)
    ensures Shaped(p) && ChildAt(e, p, i) == match ChildAt(e, w, i) { case None => None case Some(c) => PublicOrNone(e, c) }
  {
    PublicShaped(e, w);
    NewKeyCommutes(e, w, i, p);
    SameFrame(e, w, i, p);
    match Tweak(e.c, Left(Seed(e, w, i)), w.key[1..])
    case None =>
    case Some(x) =>
      ChildGood(e, w, i);
      ChildGoodKey(e, w, i, x);
      PublicOfChild(e, ChildAt(e, w, i).value, x);
      PublicChildIs(e, w, i, p, x);
  }

  lemma PublicChildIs<P(!new)>(e: Env<P>, w: Wallet, i: nat, p: Wallet, x: bytes)
    requires Shaped(w) && Shaped(p) && ChildAt(e, w, i).Some? && Pub(e.c, x).Some? && NewKey(e, p, i) == Pub(e.c, x)
    requires Fingerprint(e, p) == Fingerprint(e, w) && Seed(e, p, i) == Seed(e, w, i) && p.depth == w.depth
    ensures ChildAt(e, p, i) == Some(ChildAt(e, w, i).value.(version := p.version, key := Pub(e.c, x).value))
  {
  }

  lemma ChildGoodKey<P(!new)>(e: Env<P>, w: Wallet, i: nat, x: bytes)
    requires GoodPrivate(e, w) && ChildAt(e, w, i).Some? && GoodPrivate(e, ChildAt(e, w, i).value) && ChildAt(e, w, i).value.key == [0] + x
    ensures Pub(e.c, x).Some?
  {
    assert ([0] + x)[1..] == x;
  }

  /** Everything but the key and the version is the same on both sides. */
  lemma SameFrame<P(!new)>(e: Env<P>, w: Wallet, i: nat, p: Wallet)
    requires Sound(e) && GoodPrivate(e, w) && i < HARDENED && Public(e, w) == Some(p)
    ensures Shaped(p) && Fingerprint(e, p) == Fingerprint(e, w) && Seed(e, p, i) == Seed(e, w, i) && p.depth == w.depth
    ensures p.version == if w.version == PRIV then PUB else PUB_TESTNET
  {
    PublicShaped(e, w);
    SameSeed(e, w, i);
  }

  lemma PublicOfChild<P(!new)>(e: Env<P>, c: Wallet, x: bytes)
    requires GoodPrivate(e, c) && c.key == [0] + x
    ensures PublicOrNone(e, c) == Some(c.(version := if c.version == PRIV then PUB else PUB_TESTNET, key := Pub(e.c, x).value))
  {
    assert c.key[1..] == x;
  }

  function PublicOrNone<P>(e: Env<P>, w: Wallet): (r: Option<Wallet>)
  {
    if Shaped(w) then Public(e, w) else None
  }

  lemma ZeroTweakDiffers<P(!new)>(e: Env<P>, w: Wallet, i: nat, p: Wallet)
    requires Sound(e) && GoodPrivate(e, w) && i < HARDENED && TweakValue(e, w, i) == 0 && Public(e, w) == Some(p)
    ensures Shaped(p) && ChildAt(e, p, i).None? && ChildAt(e, w, i).Some?
  {
    PublicShaped(e, w);
    SameSeed(e, w, i);
    ZeroTweak(e.c, Left(Seed(e, w, i)), w.key[1..]);
  }

  // ----- Searching for a child -----

  /** The first success from `i` on, below a limit. */
  function Search<W>(f: nat -> Option<W>, i: nat, limit: nat, tries: nat): (r: Option<W>)
    decreases tries
  {
    if tries == 0 || i >= limit then None else if f(i).Some? then f(i) else Search(f, i + 1, limit, tries - 1)
  }

  ghost predicate FirstAt<W>(f: nat -> Option<W>, i: nat, j: nat)
  {
    i <= j && f(j).Some? && forall m: nat {:trigger f(m)} :: i <= m < j ==> f(m).None?
  }

  /** How the attempts of two searches compare: the second succeeds where the first does, with the image
      under `g`, except where `zero` holds, where only the first one succeeds. */
  ghost predicate Related<W>(a: nat -> Option<W>, b: nat -> Option<W>, g: W -> Option<W>, zero: nat -> bool, h: nat)
  {
    && (forall m: nat {:trigger b(m)} :: m < h && !zero(m) ==> b(m) == match a(m) { case None => None case Some(c) => g(c) })
    && (forall m: nat {:trigger b(m)} :: m < h && zero(m) ==> b(m).None? && a(m).Some?)
  }

  lemma {:induction false} SearchLater<W>(f: nat -> Option<W>, i: nat, limit: nat, tries: nat, x: Option<W>)
    requires x.Some? && forall m: nat {:trigger f(m)} :: i <= m < limit ==> f(m) != x
    ensures Search(f, i, limit, tries) != x
    decreases tries
  {
    if tries > 0 && i < limit && f(i).None? {
      SearchLater(f, i + 1, limit, tries - 1, x);
    }
  }

  /** The second search ends with the image of what the first one finds exactly if that lies below the
      second one's limit and is no exception. */
  lemma {:induction false} SearchesAgree<W>(a: nat -> Option<W>, b: nat -> Option<W>, g: W -> Option<W>, zero: nat -> bool, i: nat, j: nat, h: nat, tries: nat)
    requires Related(a, b, g, zero, h) && FirstAt(a, i, j) && g(a(j).value).Some? && tries > j - i
    requires forall m: nat {:trigger b(m)} :: j < m < h ==> b(m) != g(a(j).value)
    ensures Search(b, i, h, tries) == g(a(j).value) <==> j < h && !zero(j)
    decreases j - i
  {
    if i < h {
      assert b(i).None? || b(i).Some?;
      if i == j {
        if zero(i) {
          SearchLater(b, i + 1, h, tries - 1, g(a(j).value));
        }
      } else {
        SearchesAgree(a, b, g, zero, i + 1, j, h, tries - 1);
      }
    }
  }

  // ----- Where the search of a private wallet ends -----

  /** `m` is looked at on the way from `i` to `j`, which goes through the highest index if it must. */
  predicate Between(i: nat, m: nat, j: nat)
  {
    if i <= j then i <= m < j else i <= m || m < j
  }

  ghost predicate FirstFrom<W>(f: nat -> Option<W>, i: nat, j: nat)
  {
    i < INDICES && j < INDICES && f(j).Some? && forall m: nat {:trigger f(m)} :: m < INDICES && Between(i, m, j) ==> f(m).None?
  }

  function Distance(i: nat, j: nat): (d: int)
  {
    if i <= j then j - i else j + INDICES - i
  }

  /** Any number of tries beyond the index reached gives the same child. */
  lemma {:induction false} LookFrom<W>(f: nat -> Option<W>, i: nat, j: nat, tries: nat)
    requires FirstFrom(f, i, j) && tries > Distance(i, j)
    ensures Look(f, true, i, tries) == f(j)
    decreases Distance(i, j)
  {
    if i != j {
      assert f(i).None?;
      LookFrom(f, (i + 1) % INDICES, j, tries - 1);
    }
  }

  lemma {:induction false} LookFinds<W>(f: nat -> Option<W>, i: nat, tries: nat) returns (j: nat)
    requires i < INDICES && Look(f, true, i, tries).Some?
    ensures FirstFrom(f, i, j) && Look(f, true, i, tries) == f(j)
    decreases tries
  {
    if f(i).Some? {
      j := i;
    } else {
      j := LookFinds(f, (i + 1) % INDICES, tries - 1);
    }
  }

  /** A search that ends at all has ended once every index was looked at. */
  lemma EnoughTries<W>(f: nat -> Option<W>, i: nat, tries: nat)
    requires i < INDICES && Look(f, true, i, tries).Some?
    ensures Look(f, true, i, INDICES) == Look(f, true, i, tries)
  {
    var j := LookFinds(f, i, tries);
    LookFrom(f, i, j, INDICES);
  }

  /** The search of a public wallet ends at the hardened indices. */
  lemma {:induction false} EnoughBelow<W>(f: nat -> Option<W>, i: nat, t: nat, u: nat)
    requires i + t >= HARDENED && i + u >= HARDENED
    ensures Look(f, false, i, t) == Look(f, false, i, u)
    decreases t
  {
    if i < HARDENED {
      LookStep(f, i, t);
      LookStep(f, i, u);
      EnoughBelow(f, i + 1, t - 1, u - 1);
    }
  }

  lemma LookStep<W>(f: nat -> Option<W>, i: nat, tries: nat)
    requires i < HARDENED && tries > 0
    ensures Look(f, false, i, tries) == if f(i).Some? then f(i) else Look(f, false, i + 1, tries - 1)
  {
  }

  lemma {:induction false} LookBelow<W>(f: nat -> Option<W>, i: nat, tries: nat)
    ensures Look(f, false, i, tries) == Search(f, i, HARDENED, tries)
    decreases tries
  {
    if tries > 0 && i < HARDENED {
      LookBelow(f, i + 1, tries - 1);
    }
  }

  function Publicly<P>(e: Env<P>): (g: Wallet -> Option<Wallet>)
  {
    w => PublicOrNone(e, w)
  }

  function Zeros<P>(e: Env<P>, w: Wallet): (z: nat -> bool)
    requires Shaped(w)
  {
    (i: nat) => TweakValue(e, w, i) == 0
  }

  lemma AttemptsRelated<P(!new)>(e: Env<P>, w: Wallet, p: Wallet)
    requires Sound(e) && GoodPrivate(e, w) && Public(e, w) == Some(p)
    ensures Shaped(p) && Related(Attempts(e, w), Attempts(e, p), Publicly(e), Zeros(e, w), HARDENED)
  {
    PublicShaped(e, w);
    var a, b, g, z := Attempts(e, w), Attempts(e, p), Publicly(e), Zeros(e, w);
    forall m: nat | m < HARDENED
      ensures !z(m) ==> b(m) == match a(m) { case None => None case Some(c) => g(c) }
      ensures z(m) ==> b(m).None? && a(m).Some?
    {
      if TweakValue(e, w, m) != 0 {
        AttemptCommutes(e, w, m, p);
      } else {
        ZeroTweakDiffers(e, w, m, p);
      }
    }
  }

  lemma IndexOfAttempt<P(!new)>(e: Env<P>, w: Wallet, i: nat)
    requires Shaped(w) && ChildAt(e, w, i).Some?
    ensures ChildAt(e, w, i).value.index == Big(i, 4)
  {
  }

  lemma OtherIndex<P(!new)>(e: Env<P>, p: Wallet, q: Wallet, j: nat, m: nat)
    requires Shaped(p) && j < m < INDICES && q.index == Big(j, 4)
    ensures ChildAt(e, p, m) != Some(q)
  {
    RangeValues();
    ValBig(j, 4);
    ValBig(m, 4);
    if ChildAt(e, p, m).Some? {
      IndexOfAttempt(e, p, m);
    }
  }

  lemma PublicIndex<P(!new)>(e: Env<P>, w: Wallet)
    requires Shaped(w) && Public(e, w).Some?
    ensures Public(e, w).value.index == w.index
  {
  }

  /** Deriving and passing to the public side commute exactly when the search of the private side ends,
      without going through the highest index, below the hardened ones and at a tweak that is not zero. */
  lemma ChildCommutesIff<P(!new)>(e: Env<P>, w: Wallet, i: nat, j: nat, p: Wallet)
    requires Sound(e) && GoodPrivate(e, w) && Public(e, w) == Some(p) && FirstFrom(Attempts(e, w), i, j)
    ensures Shaped(p) && Child(e, w, i) == ChildAt(e, w, j)
    ensures Child(e, p, i) == PublicOrNone(e, ChildAt(e, w, j).value) <==> i <= j < HARDENED && TweakValue(e, w, j) != 0
  {
    var a, b, g, z := Attempts(e, w), Attempts(e, p), Publicly(e), Zeros(e, w);
    PublicShaped(e, w);
    LookFrom(a, i, j, INDICES);
    LookBelow(b, i, INDICES);
    var c := a(j).value;
    PublicImage(e, w, j);
    if i < HARDENED {
      forall m: nat | (j < m || i > j) && i <= m < HARDENED ensures b(m) != g(c) {
        OtherIndex(e, p, Public(e, c).value, j, m);
      }
      if j < i {
        SearchLater(b, i, HARDENED, INDICES, g(c));
      } else {
        AttemptsRelated(e, w, p);
        SearchesAgree(a, b, g, z, i, j, HARDENED, INDICES);
      }
    }
  }

  lemma PublicImage<P(!new)>(e: Env<P>, w: Wallet, j: nat)
    requires Sound(e) && GoodPrivate(e, w) && ChildAt(e, w, j).Some?
    ensures var c := ChildAt(e, w, j).value;
      Shaped(c) && Public(e, c).Some? && Public(e, c).value.index == Big(j, 4)
  {
    ChildGood(e, w, j);
    PublicShaped(e, ChildAt(e, w, j).value);
    PublicIndex(e, ChildAt(e, w, j).value);
    IndexOfAttempt(e, w, j);
  }

  // ----- Wallets as 82 bytes -----

  function Front(w: Wallet): (s: bytes)
  {
    w.version + [w.depth] + w.parent + w.index + w.chain + w.key
  }

  function Encoded(h: Hashes, w: Wallet): (s: bytes)
  {
    Front(w) + (if |h.hash256(Front(w))| >= 4 then h.hash256(Front(w))[..4] else [0, 0, 0, 0])
  }

  function Decoded(s: bytes): (w: Wallet)
    requires |s| == 82
  {
    Wallet(s[..4], s[4], s[5..9], s[9..13], s[13..45], s[45..78])
  }

  lemma FrontOfDecoded(s: bytes)
    requires |s| == 82
    ensures Shaped(Decoded(s)) && s == Front(Decoded(s)) + s[78..]
  {
  }

  function Patched(s: bytes, at: nat, x: bytes): (r: bytes)
    requires at + |x| <= |s|
  {
    s[..at] + x + s[at + |x|..]
  }

  lemma PatchDepth(w: Wallet, check: bytes, d: byte)
    requires Shaped(w)
    ensures Patched(Front(w) + check, 4, [d]) == Front(w.(depth := d)) + check
  {
  }

  lemma PatchParent(w: Wallet, check: bytes, x: bytes)
    requires Shaped(w) && |x| == 4
    ensures Patched(Front(w) + check, 5, x) == Front(w.(parent := x)) + check
  {
  }

  lemma PatchIndex(w: Wallet, check: bytes, x: bytes)
    requires Shaped(w) && |x| == 4
    ensures Patched(Front(w) + check, 9, x) == Front(w.(index := x)) + check
  {
  }

  lemma PatchChain(w: Wallet, check: bytes, x: bytes)
    requires Shaped(w) && |x| == 32
    ensures Patched(Front(w) + check, 13, x) == Front(w.(chain := x)) + check
  {
  }

  lemma PatchKey(w: Wallet, check: bytes, x: bytes)
    requires Shaped(w) && |x| == 33
    ensures Patched(Front(w) + check, 45, x) == Front(w.(key := x)) + check
  {
  }

  lemma PatchCheck(w: Wallet, check: bytes, x: bytes)
    requires Shaped(w) && |x| == 4 == |check|
    ensures Patched(Front(w) + check, 78, x) == Front(w) + x
  {
  }

  lemma PatchVersion(w: Wallet, check: bytes, x: bytes)
    requires Shaped(w) && |x| == 4
    ensures Patched(Front(w) + check, 0, x) == Front(w.(version := x)) + check
  {
  }

  /** `memcpy` into the wallet. */
  method Put(a: array<byte>, at: nat, x: bytes)
    requires at + |x| <= a.Length
    modifies a
    ensures a[..] == Patched(old(a[..]), at, x)
  {
    forall k | 0 <= k < |x| {
      a[at + k] := x[k];
    }
  }

  /** The checksum over what stands before it. */
  method PutChecksum(h: Hashes, a: array<byte>, ghost w: Wallet, ghost check: bytes)
    requires Sized(h) && a.Length == 82 && Shaped(w) && |check| == 4 && a[..] == Front(w) + check
    modifies a
    ensures a[..] == Encoded(h, w)
  {
    var checksum := h.hash256(a[..78]);
    assert a[..78] == Front(w);
    PatchCheck(w, check, checksum[..4]);
    Put(a, 78, checksum[..4]);
  }

  /** The bytes of a wallet are those of its fields and their checksum. */
  lemma DecodedEncoded(h: Hashes, w: Wallet)
    requires Sized(h) && Shaped(w)
    ensures |Encoded(h, w)| == 82 && Decoded(Encoded(h, w)) == w
  {
  }

  function EncodedOption(h: Hashes, w: Option<Wallet>): (r: Option<bytes>)
  {
    match w
    case None => None
    case Some(c) => Some(Encoded(h, c))
  }

  /** What `publicHdWallet` makes of any bytes; a public wallet is left as it is. */
  function PublicBytes<P>(e: Env<P>, s: bytes): (r: Option<bytes>)
  {
    if |s| != 82 then None
    else if s[..4] == PUB || s[..4] == PUB_TESTNET then Some(s)
    else EncodedOption(e.h, Public(e, Decoded(s)))
  }

  /** `publicHdWallet`. A private key that has no public one would be read from a null pointer. */
  method PublicHdWallet<P(!new)>(e: Env<P>, wallet: bytes) returns (r: Option<bytes>)
    requires Sound(e) && (|wallet| == 82 ==> Decoded(wallet).key[0] == 0 ==> PubOf(e, Decoded(wallet)).Some?)
    ensures r == PublicBytes(e, wallet)
  {
    if |wallet| != 82 {
      return None;
    }
    var version := wallet[..4];
    if version == PUB || version == PUB_TESTNET {
      return Some(wallet);
    }
    if version != PRIV && version != PRIV_TESTNET {
      return None;
    }
    var w := Decoded(wallet);
    if w.key[0] != 0 {
      return None;
    }
    var a := new byte[82](i requires 0 <= i < 82 => wallet[i]);
    ghost var check := wallet[78..];
    FrontOfDecoded(wallet);
    assert a[..] == wallet;
    var newVersion := if version == PRIV then PUB else PUB_TESTNET;
    PatchVersion(w, check, newVersion);
    Put(a, 0, newVersion);
    ghost var w1 := w.(version := newVersion);
    var key := PubOf(e, w).value;
    PatchKey(w1, check, key);
    Put(a, 45, key);
    PutChecksum(e.h, a, w1.(key := key), check);
    r := Some(a[..]);
  }

  /** Depth, fingerprint and index, which are written before it is known whether there is a child. */
  method PutFrame<P(!new)>(e: Env<P>, a: array<byte>, w: Wallet, index: nat, ghost check: bytes)
    requires Sound(e) && Shaped(w) && a.Length == 82 && a[..] == Front(w) + check
    modifies a
    ensures a[..] == Front(w.(depth := (w.depth + 1) % 256, parent := Fingerprint(e, w), index := Big(index, 4))) + check
  {
    var depth: byte := (w.depth + 1) % 256;
    PatchDepth(w, check, depth);
    Put(a, 4, [depth]);
    var parent := e.h.hash160(Known(e, w))[..4];
    PatchParent(w.(depth := depth), check, parent);
    Put(a, 5, parent);
    PatchIndex(w.(depth := depth, parent := parent), check, Big(index, 4));
    Put(a, 9, Big(index, 4));
  }

  /** The key of the child: from the private key and the tweak, or from their public counterparts. */
  method ChildKey<P(!new, ==)>(e: Env<P>, w: Wallet, index: nat) returns (hash: bytes, newKey: Option<bytes>)
    requires Sound(e) && Shaped(w) && (IsPrivate(w) || index < HARDENED)
    ensures hash == Seed(e, w, index) && newKey == NewKey(e, w, index)
  {
    if w.key[0] == 0 {
      if index >= HARDENED {
        hash := e.h.hmacSha512(w.chain, w.key + Big(index, 4));
      } else {
        hash := e.h.hmacSha512(w.chain, Known(e, w) + Big(index, 4));
      }
      var k := Tweak(e.c, Left(hash), w.key[1..]);
      newKey := if k.None? then None else Some([0] + k.value);
    } else {
      hash := e.h.hmacSha512(w.chain, w.key + Big(index, 4));
      newKey := Combine(e.c, w.key, Pub(e.c, Left(hash)));
    }
  }

  lemma NewKeyLength<P(!new)>(e: Env<P>, w: Wallet, i: nat)
    requires Sound(e) && Shaped(w) && NewKey(e, w, i).Some?
    ensures |NewKey(e, w, i).value| == 33
  {
  }

  /** What `childKeyDerivation` makes of any bytes. */
  function ChildBytes<P(==)>(e: Env<P>, s: bytes, i: nat): (r: Option<bytes>)
  {
    if |s| != 82 then None else EncodedOption(e.h, Child(e, Decoded(s), i))
  }

  /** The library returns: a public wallet always, a private one if some index has a key. */
  predicate Returns<P(==)>(e: Env<P>, s: bytes, i: nat)
  {
    |s| == 82 && IsPrivate(Decoded(s)) ==> Child(e, Decoded(s), i).Some?
  }

  /** `childKeyDerivation`. */
  method ChildKeyDerivation<P(!new, ==)>(e: Env<P>, wallet: bytes, index: nat) returns (r: Option<bytes>)
    requires Sound(e) && index < INDICES && Returns(e, wallet, index)
    ensures r == ChildBytes(e, wallet, index)
  {
    if |wallet| != 82 {
      return None;
    }
    var w := Decoded(wallet);
    r := ChildFrom(e, wallet, w, w.key[0] == 0, index, INDICES, Attempts(e, w));
  }

  ghost predicate TriedBy<P(!new)>(e: Env<P>, w: Wallet, f: nat -> Option<Wallet>)
    requires Shaped(w)
  {
    forall i: nat {:trigger ChildAt(e, w, i)} :: f(i) == ChildAt(e, w, i)
  }

  /** The recursion over the indices; `tries` counts those that are left. */
  method ChildFrom<P(!new, ==)>(e: Env<P>, wallet: bytes, w: Wallet, all: bool, index: nat, ghost tries: nat, ghost f: nat -> Option<Wallet>)
    returns (r: Option<bytes>)
    requires Sound(e) && index < INDICES && |wallet| == 82 && w == Decoded(wallet) && Shaped(w)
    requires all == IsPrivate(w) && TriedBy(e, w, f)
    requires if all then Look(f, all, index, tries).Some? else index + tries >= HARDENED
    ensures r == EncodedOption(e.h, Look(f, all, index, tries))
    decreases tries
  {
    if !all && index >= HARDENED {
      return None;
    }
    r := Attempt(e, wallet, w, index, f);
    if r == None {
      r := ChildFrom(e, wallet, w, all, (index + 1) % INDICES, tries - 1, f);
    }
  }

  /** One index: the child, or nothing if its key does not exist. */
  method Attempt<P(!new, ==)>(e: Env<P>, wallet: bytes, w: Wallet, index: nat, ghost f: nat -> Option<Wallet>) returns (r: Option<bytes>)
    requires Sound(e) && |wallet| == 82 && w == Decoded(wallet) && Shaped(w) && (IsPrivate(w) || index < HARDENED)
    requires TriedBy(e, w, f)
    ensures r == EncodedOption(e.h, f(index))
  {
    assert f(index) == ChildAt(e, w, index);
    var hash, newKey := ChildKey(e, w, index);
    if newKey == None {
      return None;
    }
    NewKeyLength(e, w, index);
    r := WriteChild(e, wallet, w, index, hash, newKey.value);
  }

  method WriteChild<P(!new, ==)>(e: Env<P>, wallet: bytes, w: Wallet, index: nat, hash: bytes, newKey: bytes) returns (r: Option<bytes>)
    requires Sound(e) && |wallet| == 82 && w == Decoded(wallet) && Shaped(w)
    requires hash == Seed(e, w, index) && NewKey(e, w, index) == Some(newKey) && |newKey| == 33
    ensures r == EncodedOption(e.h, ChildAt(e, w, index))
  {
    var bytes82 := WriteOver(e, wallet, w, index, Right(hash), newKey);
    r := Some(bytes82);
  }

  method WriteOver<P(!new)>(e: Env<P>, wallet: bytes, w: Wallet, index: nat, chain: bytes, key: bytes) returns (r: bytes)
    requires Sound(e) && |wallet| == 82 && w == Decoded(wallet) && Shaped(w) && |chain| == 32 && |key| == 33
    ensures r == Encoded(e.h, Wallet(w.version, (w.depth + 1) % 256, Fingerprint(e, w), Big(index, 4), chain, key))
  {
    var a := new byte[82](i requires 0 <= i < 82 => wallet[i]);
    ghost var check := wallet[78..];
    FrontOfDecoded(wallet);
    assert a[..] == wallet;
    PutFrame(e, a, w, index, check);
    ghost var framed := w.(depth := (w.depth + 1) % 256, parent := Fingerprint(e, w), index := Big(index, 4));
    FramedShaped(e, w, framed);
    PutRest(e.h, a, chain, key, framed, check);
    r := a[..];
  }

  lemma FramedShaped<P(!new)>(e: Env<P>, w: Wallet, framed: Wallet)
    requires Sound(e) && Shaped(w) && framed.version == w.version && framed.parent == Fingerprint(e, w) && |framed.index| == 4
    requires framed.chain == w.chain && framed.key == w.key
    ensures Shaped(framed)
  {
  }

  /** Chain code, key and checksum. */
  method PutRest(h: Hashes, a: array<byte>, chain: bytes, key: bytes, ghost w: Wallet, ghost check: bytes)
    requires Sized(h) && a.Length == 82 && Shaped(w) && |check| == 4 && a[..] == Front(w) + check && |chain| == 32 && |key| == 33
    modifies a
    ensures a[..] == Encoded(h, w.(chain := chain, key := key))
  {
    PatchChain(w, check, chain);
    Put(a, 13, chain);
    PatchKey(w.(chain := chain), check, key);
    Put(a, 45, key);
    PutChecksum(h, a, w.(chain := chain, key := key), check);
  }
}
