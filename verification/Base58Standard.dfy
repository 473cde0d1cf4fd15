/** The alphabet of Base58 and the number that a string stands for (libraries/base58/base58.cpp:11-118). */
module Base58Standard {
  import opened Bytes
  import opened Numerals
  import opened Base58

  const ALPHABET: string := "123456789ABCDEFGH" + "JKLMNPQRSTUVWXYZ" + "abcdefghijk" + "mnopqrstuvwxyz"

  lemma CharInAlphabet(d: nat)
    requires d < 58
    ensures |ALPHABET| == 58 && CharOf(d) == ALPHABET[d]
  {
    if d < 17 {
      FirstChars(d);
    } else if d < 33 {
      SecondChars(d);
    } else if d < 44 {
      ThirdChars(d);
    } else {
      LastChars(d);
    }
  }

  lemma FirstChars(d: nat)
    requires d < 17
    ensures CharOf(d) == "123456789ABCDEFGH"[d] == ALPHABET[d]
  {
  }

  lemma SecondChars(d: nat)
    requires 17 <= d < 33
    ensures CharOf(d) == "JKLMNPQRSTUVWXYZ"[d - 17] == ALPHABET[d]
  {
  }

  lemma ThirdChars(d: nat)
    requires 33 <= d < 44
    ensures CharOf(d) == "abcdefghijk"[d - 33] == ALPHABET[d]
  {
  }

  lemma LastChars(d: nat)
    requires 44 <= d < 58
    ensures CharOf(d) == "mnopqrstuvwxyz"[d - 44] == ALPHABET[d]
  {
  }

  /** The string has a leading 1 for each leading zero byte and no other; its characters, read as digits by
      their places in the alphabet, write the same number as the bytes. */
  lemma EncodedNumber(b: bytes, zeros: nat, ds: seq<nat>)
    requires zeros <= |b| && (forall i :: 0 <= i < zeros ==> b[i] == 0) && (zeros < |b| ==> b[zeros] != 0)
    requires |ds| == |Encoded(b)| && forall i :: 0 <= i < |ds| ==> ds[i] < 58 && ALPHABET[ds[i]] == Encoded(b)[i]
    ensures Value(ds, 58) == Value(b, 256)
    ensures zeros <= |ds| && (forall i :: 0 <= i < zeros ==> Encoded(b)[i] == '1') && (zeros < |ds| ==> Encoded(b)[zeros] != '1')
  {
    var r := Rebase(b, 256, 58);
    forall i | 0 <= i < |ds| ensures ds[i] == r[i] {
      CharInAlphabet(ds[i]);
      CharsAndDigits();
    }
    assert ds == r;
    LeadingIs(b, zeros);
    ValueOfCanonical(Value(b, 256), 58);
    ValueZerosPrefix(zeros, Canonical(Value(b, 256), 58), 58);
    if Value(b, 256) > 0 {
      CanonicalHead(Value(b, 256), 58);
    }
    CharsAndDigits();
  }

  lemma {:induction false} LeadingIs(ds: seq<nat>, zeros: nat)
    requires zeros <= |ds| && (forall i :: 0 <= i < zeros ==> ds[i] == 0) && (zeros < |ds| ==> ds[zeros] != 0)
    ensures Leading(ds) == zeros
  {
    if zeros > 0 {
      LeadingIs(ds[1..], zeros - 1);
    }
  }

  /** White space: tabulators, line ends and the space. */
  predicate White(c: char)
  {
    c == ' ' || c == '\t' || c == '\n' || c as int == 11 || c as int == 12 || c == '\r'
  }

  lemma {:induction false} WhiteEnd(s: string, i: nat, k: nat)
    requires i <= k <= |s| && (forall j :: i <= j < k ==> White(s[j])) && (k < |s| ==> !White(s[k]))
    ensures SpaceEnd(s, i) == k
    decreases k - i
  {
    if i < k {
      WhiteEnd(s, i + 1, k);
    }
  }

  lemma {:induction false} BlackEnd(s: string, i: nat, k: nat)
    requires i <= k <= |s| && (forall j :: i <= j < k ==> !White(s[j])) && (k < |s| ==> White(s[k]))
    ensures WordEnd(s, i) == k
    decreases k - i
  {
    if i < k {
      BlackEnd(s, i + 1, k);
    }
  }

  /** White space around a word does not matter; any other character refuses it. */
  lemma WordDecoded(s: string, i: nat, k: nat)
    requires i <= k <= |s| && (forall j :: 0 <= j < i ==> White(s[j])) && (forall j :: i <= j < k ==> !White(s[j]))
    requires (forall j :: k <= j < |s| ==> White(s[j])) && (i == k ==> i == |s|)
    ensures Decoded(s).Some? <==> forall j :: i <= j < k ==> s[j] in ALPHABET
    ensures Decoded(s).Some? ==> Decoded(s) == Decoded(s[i..k])
  {
    WhiteEnd(s, 0, i);
    BlackEnd(s, i, k);
    WhiteEnd(s, k, |s|);
    InAlphabetIs(s[i..k]);
    if InAlphabet(s[i..k]) {
      DecodedBareWord(s[i..k]);
    }
    assert forall j :: i <= j < k ==> s[j] == s[i..k][j - i];
  }

  /** White space inside refuses it. */
  lemma TwoWordsRefused(s: string, i: nat, k: nat, n: nat)
    requires i < k < n < |s| && (forall j :: 0 <= j < i ==> White(s[j])) && (forall j :: i <= j < k ==> !White(s[j]))
    requires (forall j :: k <= j < n ==> White(s[j])) && !White(s[n])
    ensures Decoded(s) == None
  {
    WhiteEnd(s, 0, i);
    BlackEnd(s, i, k);
    WhiteEnd(s, k, n);
  }

  lemma DigitInAlphabet(c: char)
    ensures DigitOf(c) >= 0 <==> c in ALPHABET
  {
    if DigitOf(c) >= 0 {
      CharsAndDigits();
      CharInAlphabet(DigitOf(c));
    } else {
      forall d: nat | d < 58 ensures ALPHABET[d] != c {
        CharInAlphabet(d);
        CharsAndDigits();
      }
    }
  }

  lemma InAlphabetIs(w: string)
    ensures InAlphabet(w) <==> forall j :: 0 <= j < |w| ==> w[j] in ALPHABET
  {
    forall j | 0 <= j < |w| ensures DigitOf(w[j]) >= 0 <==> w[j] in ALPHABET {
      DigitInAlphabet(w[j]);
    }
  }
}
