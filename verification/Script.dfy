/** Scripts: the tokeniser, the vault script and what is read out of it
    (code/BTCUtil.c:68-113, 1509-1593, 1618-1644, 2323-2369). */
module Script {
  import opened Bytes
  import opened Wire

  const OP_PUSHDATA1: byte := 0x4c
  const OP_PUSHDATA2: byte := 0x4d
  const OP_PUSHDATA4: byte := 0x4e
  const OP_1: byte := 0x51
  const OP_16: byte := 0x60
  const OP_CHECKSIG: byte := 0xac
  const OP_CHECKSIGVERIFY: byte := 0xad
  const OP_CHECKMULTISIG: byte := 0xae
  const OP_CHECKMULTISIGVERIFY: byte := 0xaf

  predicate IsCheckSig(op: byte)
  {
    op == OP_CHECKSIG || op == OP_CHECKSIGVERIFY
  }

  predicate IsMultisig(op: byte)
  {
    op == OP_CHECKMULTISIG || op == OP_CHECKMULTISIGVERIFY
  }

  // ----- Pushes -----

  function PushPrefix(n: nat): (s: bytes)
    requires n < 0x1_0000_0000
  {
    if n >= 0x1_0000 then [OP_PUSHDATA4] + Little(n, 4)
    else if n >= 0x100 then [OP_PUSHDATA2] + Little(n, 2)
    else if n >= 0x4c then [OP_PUSHDATA1, n]
    else [n]
  }

  /** `scriptPush`. */
  function Push(d: bytes): (s: bytes)
    requires |d| < 0x1_0000_0000
  {
    PushPrefix(|d|) + d
  }

  function PushOp(n: nat): (op: byte)
    requires 0 < n
  {
    if n >= 0x1_0000 then OP_PUSHDATA4 else if n >= 0x100 then OP_PUSHDATA2 else if n >= 0x4c then OP_PUSHDATA1 else n
  }

  // ----- Tokens -----

  /** `data` is the null object for anything but a push, and for a push that the script cuts short. */
  datatype Token = Token(op: byte, data: Option<bytes>)

  predicate IsPush(op: byte)
  {
    0 < op <= OP_PUSHDATA4
  }

  /** The size that a push announces, after its opcode. */
  function PushSize(op: byte, s: bytes): (r: Read<nat>)
    ensures |r.rest| <= |s|
  {
    if op < OP_PUSHDATA1 then Read(op, s)
    else if op == OP_PUSHDATA1 then ReadUint(1, s)
    else if op == OP_PUSHDATA2 then ReadUint(2, s)
    else ReadUint(4, s)
  }

  function FirstToken(s: bytes): (r: Read<Token>)
    requires s != []
    ensures |r.rest| < |s|
  {
    var op, rest := s[0], s[1..];
    if IsPush(op) then
      var size := PushSize(op, rest);
      var data := ReadBytes(size.value, size.rest);
      Read(Token(op, data.value), data.rest)
    else Read(Token(op, None), rest)
  }

  function Tokens(s: bytes): (ts: seq<Token>)
    decreases |s|
  {
    if s == [] then [] else
    var r := FirstToken(s);
    [r.value] + Tokens(r.rest)
  }

  /** `scriptToTokens`. */
  method ScriptToTokens(script: bytes) returns (result: seq<Token>)
    ensures result == Tokens(script)
  {
    result := [];
    var ptr := script;
    while ptr != []
      invariant result + Tokens(ptr) == Tokens(script)
      decreases |ptr|
    {
      var r := FirstToken(ptr);
      result := result + [r.value];
      ptr := r.rest;
    }
  }

  lemma PushSizeRead(n: nat, rest: bytes)
    requires 0 < n < 0x1_0000_0000
    ensures PushPrefix(n) != [] && PushPrefix(n)[0] == PushOp(n)
    ensures PushSize(PushOp(n), PushPrefix(n)[1..] + rest) == Read(n, rest)
  {
    RangeValues();
    if n >= 0x1_0000 {
      ReadUintLittle(n, 4, rest);
    } else if n >= 0x100 {
      ReadUintLittle(n, 2, rest);
    } else if n >= 0x4c {
      assert PushPrefix(n)[1..] == [n];
      ReadPrefixByte(n, rest);
    } else {
      assert PushPrefix(n)[1..] + rest == rest;
    }
  }

  /** A push of anything but the empty string is read back as one token. */
  lemma TokensPush(d: bytes, rest: bytes)
    requires 0 < |d| < 0x1_0000_0000
    ensures Tokens(Push(d) + rest) == [Token(PushOp(|d|), Some(d))] + Tokens(rest)
  {
    var p := PushPrefix(|d|);
    var s := Push(d) + rest;
    PushSizeRead(|d|, d + rest);
    assert s[0] == p[0] && s[1..] == p[1..] + (d + rest);
    ReadBytesPrefix(d, rest);
  }

  /** A push that announces more than the script has left is the last token, without data. */
  lemma CutPush(op: byte, rest: bytes)
    requires 0 < op < 0x4c && |rest| < op
    ensures Tokens([op] + rest) == [Token(op, None)]
  {
    var s := [op] + rest;
    assert s[0] == op && s[1..] == rest;
    assert FirstToken(s) == Read(Token(op, None), []);
    assert Tokens(s) == [Token(op, None)] + Tokens([]);
  }

  lemma TokensOp(op: byte, rest: bytes)
    requires !IsPush(op)
    ensures Tokens([op] + rest) == [Token(op, None)] + Tokens(rest)
  {
    var s := [op] + rest;
    assert s[0] == op && s[1..] == rest;
  }

  // ----- The vault script -----

  /** Signatures needed of `n` members. */
  function Quorum(n: nat): (m: nat)
    ensures 1 <= m && (n >= 1 ==> m <= n)
  {
    if n * 2 / 3 < 1 then 1 else n * 2 / 3
  }

  function Pushes(keys: seq<bytes>): (s: bytes)
    requires forall i :: 0 <= i < |keys| ==> |keys[i]| < 0x1_0000_0000
  {
    if keys == [] then [] else Push(keys[0]) + Pushes(keys[1..])
  }

  predicate Usable(k: bytes)
  {
    0 < |k| < 0x1_0000_0000
  }

  predicate AllUsable(keys: seq<bytes>)
  {
    forall i :: 0 <= i < |keys| ==> Usable(keys[i])
  }

  /** The tail of the script, from the quorum on. */
  function MultisigPart(keys: seq<bytes>): (s: bytes)
    requires AllUsable(keys) && 1 <= |keys| <= 16
  {
    [OP_1 - 1 + Quorum(|keys|)] + (Pushes(keys) + ([OP_1 - 1 + |keys|] + ([OP_CHECKMULTISIG] + [])))
  }

  /** `vaultScript`, with the member keys in order. */
  function Vault(master: bytes, keys: seq<bytes>): (s: bytes)
    requires Usable(master) && AllUsable(keys) && 1 <= |keys| <= 16
  {
    Push(master) + ([OP_CHECKSIGVERIFY] + MultisigPart(keys))
  }

  function KeyToken(k: bytes): (t: Token)
    requires Usable(k)
  {
    Token(PushOp(|k|), Some(k))
  }

  function KeyTokens(keys: seq<bytes>): (ts: seq<Token>)
    requires AllUsable(keys)
  {
    seq(|keys|, i requires 0 <= i < |keys| => KeyToken(keys[i]))
  }

  function VaultTokens(master: bytes, keys: seq<bytes>): (ts: seq<Token>)
    requires Usable(master) && AllUsable(keys) && 1 <= |keys| <= 16
    ensures |ts| == |keys| + 5
  {
    [KeyToken(master), Token(OP_CHECKSIGVERIFY, None), Token(OP_1 - 1 + Quorum(|keys|), None)] + KeyTokens(keys)
    + [Token(OP_1 - 1 + |keys|, None), Token(OP_CHECKMULTISIG, None)]
  }

  lemma {:induction false} TokensPushes(keys: seq<bytes>, rest: bytes)
    requires AllUsable(keys)
    ensures Tokens(Pushes(keys) + rest) == KeyTokens(keys) + Tokens(rest)
  {
    if keys == [] {
      assert Pushes(keys) + rest == rest && KeyTokens(keys) == [];
    } else {
      var more := Pushes(keys[1..]) + rest;
      TokensPushes(keys[1..], rest);
      TokensPush(keys[0], more);
      assert Pushes(keys) + rest == Push(keys[0]) + more;
      KeyTokensCons(keys, Tokens(rest));
    }
  }

  lemma KeyTokensCons(keys: seq<bytes>, tail: seq<Token>)
    requires AllUsable(keys) && keys != []
    ensures [KeyToken(keys[0])] + (KeyTokens(keys[1..]) + tail) == KeyTokens(keys) + tail
  {
    assert KeyTokens(keys) == [KeyToken(keys[0])] + KeyTokens(keys[1..]);
  }

  lemma TokensEnd(n: byte)
    requires !IsPush(n)
    ensures Tokens([n] + ([OP_CHECKMULTISIG] + [])) == [Token(n, None), Token(OP_CHECKMULTISIG, None)]
  {
    TokensOp(n, [OP_CHECKMULTISIG] + []);
    TokensOp(OP_CHECKMULTISIG, []);
    assert Tokens([]) == [];
  }

  lemma MultisigTokens(keys: seq<bytes>)
    requires AllUsable(keys) && 1 <= |keys| <= 16
    ensures Tokens(MultisigPart(keys))
         == [Token(OP_1 - 1 + Quorum(|keys|), None)] + (KeyTokens(keys) + [Token(OP_1 - 1 + |keys|, None), Token(OP_CHECKMULTISIG, None)])
  {
    var m: byte, n: byte := OP_1 - 1 + Quorum(|keys|), OP_1 - 1 + |keys|;
    var end := [n] + ([OP_CHECKMULTISIG] + []);
    TokensEnd(n);
    KeysThenEnd(keys, end, m);
  }

  lemma KeysThenEnd(keys: seq<bytes>, end: bytes, m: byte)
    requires AllUsable(keys) && !IsPush(m)
    ensures Tokens([m] + (Pushes(keys) + end)) == [Token(m, None)] + (KeyTokens(keys) + Tokens(end))
  {
    TokensPushes(keys, end);
    TokensOp(m, Pushes(keys) + end);
  }

  /** What the tokeniser makes of a vault script. */
  lemma TokensOfVault(master: bytes, keys: seq<bytes>)
    requires Usable(master) && AllUsable(keys) && 1 <= |keys| <= 16
    ensures Tokens(Vault(master, keys)) == VaultTokens(master, keys)
  {
    var part := MultisigPart(keys);
    MultisigTokens(keys);
    TokensOp(OP_CHECKSIGVERIFY, part);
    TokensPush(master, [OP_CHECKSIGVERIFY] + part);
    VaultTokensJoin(master, keys, Tokens(part));
  }

  lemma VaultTokensJoin(master: bytes, keys: seq<bytes>, part: seq<Token>)
    requires Usable(master) && AllUsable(keys) && 1 <= |keys| <= 16
    requires part == [Token(OP_1 - 1 + Quorum(|keys|), None)] + (KeyTokens(keys) + [Token(OP_1 - 1 + |keys|, None), Token(OP_CHECKMULTISIG, None)])
    ensures [KeyToken(master)] + ([Token(OP_CHECKSIGVERIFY, None)] + part) == VaultTokens(master, keys)
  {
  }
}
