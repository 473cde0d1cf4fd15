/** The characters of Bech32 strings (libraries/segwit_addr/segwit_addr.c:37-48). */
module Bech32Charset {

  function CharOf(n: int): (c: char)
    requires 0 <= n < 32
  {
    match n
    case 0 => 'q'
    case 1 => 'p'
    case 2 => 'z'
    case 3 => 'r'
    case 4 => 'y'
    case 5 => '9'
    case 6 => 'x'
    case 7 => '8'
    case 8 => 'g'
    case 9 => 'f'
    case 10 => '2'
    case 11 => 't'
    case 12 => 'v'
    case 13 => 'd'
    case 14 => 'w'
    case 15 => '0'
    case 16 => 's'
    case 17 => '3'
    case 18 => 'j'
    case 19 => 'n'
    case 20 => '5'
    case 21 => '4'
    case 22 => 'k'
    case 23 => 'h'
    case 24 => 'c'
    case 25 => 'e'
    case 26 => '6'
    case 27 => 'm'
    case 28 => 'u'
    case 29 => 'a'
    case 30 => '7'
    case _ => 'l'
  }

  function LowerRank(c: char): (n: int)
  {
    match c
    case '0' => 15
    case '2' => 10
    case '3' => 17
    case '4' => 21
    case '5' => 20
    case '6' => 26
    case '7' => 30
    case '8' => 7
    case '9' => 5
    case 'a' => 29
    case 'c' => 24
    case 'd' => 13
    case 'e' => 25
    case 'f' => 9
    case 'g' => 8
    case 'h' => 23
    case 'j' => 18
    case 'k' => 22
    case 'l' => 31
    case 'm' => 27
    case 'n' => 19
    case 'p' => 1
    case 'q' => 0
    case 'r' => 3
    case 's' => 16
    case 't' => 11
    case 'u' => 28
    case 'v' => 12
    case 'w' => 14
    case 'x' => 6
    case 'y' => 4
    case 'z' => 2
    case _ => -1
  }

  predicate IsLower(c: char)
  {
    'a' <= c <= 'z'
  }

  predicate IsUpper(c: char)
  {
    'A' <= c <= 'Z'
  }

  function Lower(c: char): (r: char)
  {
    if IsUpper(c) then (c as int + 32) as char else c
  }

  function Upper(c: char): (r: char)
  {
    if IsLower(c) then (c as int - 32) as char else c
  }

  /** The reverse table: both cases of a letter have the same entry, and -1 marks a character that is no symbol. */
  function Rank(c: char): (n: int)
  {
    LowerRank(Lower(c))
  }

  lemma RankBound(c: char)
    ensures -1 <= Rank(c) < 32
  {
  }

  lemma RankOfChar(n: int)
    requires 0 <= n < 32
    ensures LowerRank(CharOf(n)) == n
    ensures CharOf(n) != '1' && !IsUpper(CharOf(n)) && 33 <= CharOf(n) as int <= 126
  {
  }

  lemma CharOfRank(c: char)
    requires 0 <= LowerRank(c)
    ensures LowerRank(c) < 32 && CharOf(LowerRank(c)) == c
  {
  }

  lemma LowerUpper(c: char)
    ensures Lower(Upper(c)) == Lower(c) && Lower(Lower(c)) == Lower(c)
    ensures !IsUpper(c) ==> Lower(c) == c
    ensures !IsLower(c) ==> Upper(Lower(c)) == c
    ensures !IsLower(Upper(c)) && !IsUpper(Lower(c))
  {
  }
}
