/** Paths of child keys (code/BTCUtil.c:806-818), on the 82 bytes that the library passes around: the
    public wallet at the end of a path, byte for byte, is what the path leads to from the public wallet. */
module HdPath {
  import opened Bytes
  import opened HdWallet

  // ----- Wallets -----

  /** The children of a list of indices, one below the other. */
  function Descend<P(==)>(e: Env<P>, w: Option<Wallet>, path: seq<nat>): (r: Option<Wallet>)
    decreases |path|
  {
    if path == [] then w
    else if w.None? || !Shaped(w.value) then None
    else Descend(e, Child(e, w.value, path[0]), path[1..])
  }

  /** At every step the search ends below the hardened indices and at a tweak that is not zero. */
  ghost predicate Lands<P(!new)>(e: Env<P>, w: Wallet, path: seq<nat>)
    requires Sound(e) && GoodPrivate(e, w)
    decreases |path|
  {
    path == [] || exists j: nat ::
      && FirstFrom(Attempts(e, w), path[0], j) && path[0] <= j < HARDENED && TweakValue(e, w, j) != 0
      && (ChildGood(e, w, j); Lands(e, ChildAt(e, w, j).value, path[1..]))
  }

  lemma StepLands<P(!new)>(e: Env<P>, w: Wallet, i: nat, j: nat)
    requires Sound(e) && GoodPrivate(e, w)
    requires FirstFrom(Attempts(e, w), i, j) && i <= j < HARDENED && TweakValue(e, w, j) != 0
    ensures ChildAt(e, w, j).Some? && GoodPrivate(e, ChildAt(e, w, j).value) && Child(e, w, i) == ChildAt(e, w, j)
    ensures Public(e, w).Some? && Shaped(Public(e, w).value) && !IsPrivate(Public(e, w).value)
    ensures Child(e, Public(e, w).value, i) == Public(e, ChildAt(e, w, j).value)
  {
    PublicShaped(e, w);
    ChildCommutesIff(e, w, i, j, Public(e, w).value);
    ChildGood(e, w, j);
  }

  /** The public wallet at the end of a path is what the path leads to from the public wallet. */
  lemma {:induction false} PathCommutes<P(!new)>(e: Env<P>, w: Wallet, path: seq<nat>)
    requires Sound(e) && GoodPrivate(e, w) && Lands(e, w, path)
    ensures var end := Descend(e, Some(w), path);
      end.Some? && GoodPrivate(e, end.value) && Descend(e, Public(e, w), path) == Public(e, end.value)
    decreases |path|
  {
    PublicShaped(e, w);
    if path != [] {
      var j: nat :| FirstFrom(Attempts(e, w), path[0], j) && path[0] <= j < HARDENED && TweakValue(e, w, j) != 0
                    && (ChildGood(e, w, j); Lands(e, ChildAt(e, w, j).value, path[1..]));
      StepLands(e, w, path[0], j);
      PathCommutes(e, ChildAt(e, w, j).value, path[1..]);
    }
  }

  // ----- The 82 bytes -----

  /** `hdWallet`; a null wallet stays null. */
  function DescendBytes<P(==)>(e: Env<P>, s: Option<bytes>, path: seq<nat>): (r: Option<bytes>)
    decreases |path|
  {
    if path == [] then s
    else if s.None? then DescendBytes(e, None, path[1..])
    else DescendBytes(e, ChildBytes(e, s.value, path[0]), path[1..])
  }

  /** The library returns from every step. */
  predicate ReturnsAll<P(==)>(e: Env<P>, s: Option<bytes>, path: seq<nat>)
    decreases |path|
  {
    path == [] || s.None? || (Returns(e, s.value, path[0]) && ReturnsAll(e, ChildBytes(e, s.value, path[0]), path[1..]))
  }

  method HdWalletAt<P(!new, ==)>(e: Env<P>, wallet: bytes, path: seq<nat>) returns (r: Option<bytes>)
    requires Sound(e) && (forall k :: 0 <= k < |path| ==> path[k] < INDICES) && ReturnsAll(e, Some(wallet), path)
    ensures r == DescendBytes(e, Some(wallet), path)
  {
    r := Some(wallet);
    var rest: seq<nat> := path;
    while rest != []
      invariant DescendBytes(e, r, rest) == DescendBytes(e, Some(wallet), path) && ReturnsAll(e, r, rest)
      invariant forall k :: 0 <= k < |rest| ==> rest[k] < INDICES
      decreases |rest|
    {
      if r.Some? {
        r := ChildKeyDerivation(e, r.value, rest[0]);
      }
      rest := rest[1..];
    }
  }

  lemma ChildShaped<P(!new)>(e: Env<P>, w: Wallet, i: nat)
    requires Sound(e) && Shaped(w) && i < INDICES && Child(e, w, i).Some?
    ensures Shaped(Child(e, w, i).value)
  {
    LookIsAttempt(Attempts(e, w), IsPrivate(w), i, INDICES);
    var m: nat :| Child(e, w, i) == Attempts(e, w)(m);
    NewKeyLength(e, w, m);
  }

  lemma {:induction false} LookIsAttempt<W>(f: nat -> Option<W>, all: bool, i: nat, tries: nat)
    requires Look(f, all, i, tries).Some?
    ensures exists m: nat :: Look(f, all, i, tries) == f(m)
    decreases tries
  {
    if f(i).None? {
      LookIsAttempt(f, all, (i + 1) % INDICES, tries - 1);
    }
  }

  lemma {:induction false} NullStaysNull<P>(e: Env<P>, path: seq<nat>)
    ensures DescendBytes(e, None, path) == None
  {
    if path != [] {
      NullStaysNull(e, path[1..]);
    }
  }

  lemma DescendNull<P>(e: Env<P>, path: seq<nat>)
    ensures Descend(e, None, path) == None
  {
  }

  /** From the encoding of a wallet, the bytes along a path are those of the wallets along it. */
  lemma {:induction false} DescendEncoded<P(!new)>(e: Env<P>, w: Wallet, path: seq<nat>)
    requires Sound(e) && Shaped(w) && forall k :: 0 <= k < |path| ==> path[k] < INDICES
    ensures DescendBytes(e, Some(Encoded(e.h, w)), path) == EncodedOption(e.h, Descend(e, Some(w), path))
    decreases |path|
  {
    DecodedEncoded(e.h, w);
    if path != [] {
      match Child(e, w, path[0])
      case None =>
        NullStaysNull(e, path[1..]);
        DescendNull(e, path[1..]);
      case Some(c) =>
        ChildShaped(e, w, path[0]);
        DescendEncoded(e, c, path[1..]);
    }
  }

  /** From any 82 bytes, one step on. */
  lemma DescendDecoded<P(!new)>(e: Env<P>, s: bytes, path: seq<nat>)
    requires Sound(e) && |s| == 82 && path != [] && forall k :: 0 <= k < |path| ==> path[k] < INDICES
    ensures DescendBytes(e, Some(s), path) == EncodedOption(e.h, Descend(e, Some(Decoded(s)), path))
  {
    var w := Decoded(s);
    match Child(e, w, path[0])
    case None =>
      NullStaysNull(e, path[1..]);
      DescendNull(e, path[1..]);
    case Some(c) =>
      ChildShaped(e, w, path[0]);
      DescendEncoded(e, c, path[1..]);
  }

  lemma {:induction false} LandsInRange<P(!new)>(e: Env<P>, w: Wallet, path: seq<nat>)
    requires Sound(e) && GoodPrivate(e, w) && Lands(e, w, path)
    ensures forall k :: 0 <= k < |path| ==> path[k] < INDICES
    decreases |path|
  {
    if path != [] {
      var j: nat :| FirstFrom(Attempts(e, w), path[0], j) && path[0] <= j < HARDENED && TweakValue(e, w, j) != 0
                    && (ChildGood(e, w, j); Lands(e, ChildAt(e, w, j).value, path[1..]));
      ChildGood(e, w, j);
      LandsInRange(e, ChildAt(e, w, j).value, path[1..]);
      assert path == [path[0]] + path[1..];
    }
  }

  /** For every private wallet and every path that lands on normal indices with tweaks that are not zero:
      the 82 bytes of the public wallet of the descendant are those of the descendant of the public
      wallet. */
  lemma PathBytesCommute<P(!new)>(e: Env<P>, s: bytes, path: seq<nat>)
    requires Sound(e) && |s| == 82 && GoodPrivate(e, Decoded(s)) && Lands(e, Decoded(s), path)
    ensures var end := DescendBytes(e, Some(s), path);
      && end.Some? && |end.value| == 82 && GoodPrivate(e, Decoded(end.value))
      && PublicBytes(e, s).Some? && PublicBytes(e, end.value).Some?
      && DescendBytes(e, PublicBytes(e, s), path) == PublicBytes(e, end.value)
  {
    var w := Decoded(s);
    LandsInRange(e, w, path);
    PathCommutes(e, w, path);
    PublicShaped(e, w);
    DescendEncoded(e, Public(e, w).value, path);
    if path != [] {
      var end := Descend(e, Some(w), path).value;
      DescendDecoded(e, s, path);
      DecodedEncoded(e.h, end);
      PublicShaped(e, end);
    }
  }

  /** One step from the private wallet, and one from its public wallet. */
  lemma StepBytes<P(!new)>(e: Env<P>, s: bytes, i: nat, j: nat)
    requires Sound(e) && |s| == 82 && GoodPrivate(e, Decoded(s))
    requires FirstFrom(Attempts(e, Decoded(s)), i, j) && i <= j < HARDENED && TweakValue(e, Decoded(s), j) != 0
    ensures ChildAt(e, Decoded(s), j).Some? && GoodPrivate(e, ChildAt(e, Decoded(s), j).value)
    ensures ChildBytes(e, s, i) == Some(Encoded(e.h, ChildAt(e, Decoded(s), j).value)) && Returns(e, s, i)
    ensures PublicBytes(e, s).Some? && Returns(e, PublicBytes(e, s).value, i)
    ensures ChildBytes(e, PublicBytes(e, s).value, i) == EncodedOption(e.h, Public(e, ChildAt(e, Decoded(s), j).value))
  {
    var w := Decoded(s);
    StepLands(e, w, i, j);
    DecodedEncoded(e.h, Public(e, w).value);
  }

  /** On such a path the library returns, from the private wallet and from the public one. */
  lemma {:induction false} PathReturns<P(!new)>(e: Env<P>, s: bytes, path: seq<nat>)
    requires Sound(e) && |s| == 82 && GoodPrivate(e, Decoded(s)) && Lands(e, Decoded(s), path)
    ensures ReturnsAll(e, Some(s), path) && ReturnsAll(e, PublicBytes(e, s), path)
    decreases |path|
  {
    var w := Decoded(s);
    PublicShaped(e, w);
    if path != [] {
      var j: nat :| FirstFrom(Attempts(e, w), path[0], j) && path[0] <= j < HARDENED && TweakValue(e, w, j) != 0
                    && (ChildGood(e, w, j); Lands(e, ChildAt(e, w, j).value, path[1..]));
      StepBytes(e, s, path[0], j);
      var c := ChildAt(e, w, j).value;
      PublicOfEncoded(e, c);
      PathReturns(e, Encoded(e.h, c), path[1..]);
    }
  }

  lemma PublicOfEncoded<P(!new)>(e: Env<P>, c: Wallet)
    requires Sound(e) && GoodPrivate(e, c)
    ensures |Encoded(e.h, c)| == 82 && Decoded(Encoded(e.h, c)) == c && PublicBytes(e, Encoded(e.h, c)) == EncodedOption(e.h, Public(e, c))
  {
    DecodedEncoded(e.h, c);
    assert Encoded(e.h, c)[..4] == c.version;
  }
}
