/** Ciphers of AES's shape over any kind of block: rounds that can be undone one by one in the other
    direction, and cipher block chaining. */
module BlockCipher {

  /** Key addition; the keyless first half of a round; its second half with the key; and, for the way
      back, undoing the first half before adding the key, and undoing the mixing of the second. */
  datatype Steps<!S> = Steps(add: (S, S) -> S, half: S -> S, rest: (S, S) -> S, back: (S, S) -> S, unmix: S -> S)

  ghost predicate Undoes<S(!new)>(st: Steps<S>)
  {
    && (forall x, k {:trigger st.add(x, k)} :: st.add(st.add(x, k), k) == x)
    && (forall x, k {:trigger st.half(st.add(x, k))} :: st.back(st.half(st.add(x, k)), k) == x)
    && (forall h, k {:trigger st.half(st.rest(h, k))} :: st.unmix(st.back(st.half(st.rest(h, k)), k)) == h)
  }

  /** The state after the first `round` rounds. */
  function Up<S>(st: Steps<S>, keys: seq<S>, x: S, round: nat): (y: S)
    requires round < |keys|
  {
    if round == 0 then st.add(x, keys[0]) else st.rest(st.half(Up(st, keys, x, round - 1)), keys[round])
  }

  /** The last round has no mixing. */
  function Ciphered<S>(st: Steps<S>, keys: seq<S>, x: S): (y: S)
    requires |keys| >= 2
  {
    st.add(st.half(Up(st, keys, x, |keys| - 2)), keys[|keys| - 1])
  }

  function Down<S>(st: Steps<S>, keys: seq<S>, y: S, round: nat): (x: S)
    requires round < |keys|
    decreases round
  {
    if round == 0 then st.back(y, keys[0]) else Down(st, keys, st.unmix(st.back(y, keys[round])), round - 1)
  }

  function Deciphered<S>(st: Steps<S>, keys: seq<S>, y: S): (x: S)
    requires |keys| >= 2
  {
    Down(st, keys, st.add(y, keys[|keys| - 1]), |keys| - 2)
  }

  lemma {:induction false} DownUp<S(!new)>(st: Steps<S>, keys: seq<S>, x: S, round: nat)
    requires Undoes(st) && round < |keys|
    ensures Down(st, keys, st.half(Up(st, keys, x, round)), round) == x
  {
    if round > 0 {
      DownUp(st, keys, x, round - 1);
    }
  }

  /** Deciphering undoes ciphering, for any round keys and any number of rounds. */
  lemma DecipheredCiphered<S(!new)>(st: Steps<S>, keys: seq<S>, x: S)
    requires Undoes(st) && |keys| >= 2
    ensures Deciphered(st, keys, Ciphered(st, keys, x)) == x
  {
    DownUp(st, keys, x, |keys| - 2);
  }

  // ----- Cipher block chaining (section 6.2 of NIST SP 800-38A) -----

  function Chain<S>(st: Steps<S>, keys: seq<S>, iv: S, plain: seq<S>): (cipher: seq<S>)
    requires |keys| >= 2
    ensures |cipher| == |plain|
  {
    if plain == [] then [] else
      var c := Ciphered(st, keys, st.add(plain[0], iv));
      [c] + Chain(st, keys, c, plain[1..])
  }

  function Unchain<S>(st: Steps<S>, keys: seq<S>, iv: S, cipher: seq<S>): (plain: seq<S>)
    requires |keys| >= 2
    ensures |plain| == |cipher|
  {
    if cipher == [] then [] else
      [st.add(Deciphered(st, keys, cipher[0]), iv)] + Unchain(st, keys, cipher[0], cipher[1..])
  }

  /** What was chained is recovered. */
  lemma {:induction false} UnchainChain<S(!new)>(st: Steps<S>, keys: seq<S>, iv: S, plain: seq<S>)
    requires Undoes(st) && |keys| >= 2
    ensures Unchain(st, keys, iv, Chain(st, keys, iv, plain)) == plain
  {
    if plain != [] {
      var x := st.add(plain[0], iv);
      var c := Ciphered(st, keys, x);
      DecipheredCiphered(st, keys, x);
      UnchainChain(st, keys, c, plain[1..]);
      var all := Chain(st, keys, iv, plain);
      assert all[0] == c && all[1..] == Chain(st, keys, c, plain[1..]);
    }
  }
}
