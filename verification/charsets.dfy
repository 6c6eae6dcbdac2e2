/** The character sets the generator draws from: Python's
    `string.ascii_letters` and `string.digits`, which make up the base
    alphabet, and the literal set of symbols that may be appended to it. */
module Charsets {
  import opened Seqs

  /** `count` consecutive characters starting at `first`, in code-point order. */
  function CharRange(first: char, count: nat): (r: string)
    requires first as int + count < 0xD800
    ensures |r| == count
    ensures forall i :: 0 <= i < count ==> r[i] as int == first as int + i
    decreases count
  {
    if count == 0 then [] else [first] + CharRange((first as int + 1) as char, count - 1)
  }

  /** A run of consecutive characters holds exactly the characters between
      its ends, each once. */
  lemma CharRangeContents(first: char, count: nat)
    requires first as int + count < 0xD800
    ensures Distinct(CharRange(first, count))
    ensures forall c :: c in CharRange(first, count) <==> first as int <= c as int < first as int + count
  {
    var r := CharRange(first, count);
    forall c | first as int <= c as int < first as int + count
      ensures c in r
    {
      assert r[c as int - first as int] == c;
    }
  }

  const AsciiLowercase: string := "abcdefghijklmnopqrstuvwxyz"
  const AsciiUppercase: string := "ABCDEFGHIJKLMNOPQRSTUVWXYZ"
  const Digits: string := "0123456789"

  /** Python's `string.ascii_letters`: the lower-case letters, then the
      upper-case ones. */
  const AsciiLetters: string := AsciiLowercase + AsciiUppercase

  /** `BASE_ALPHABET` of pwgen.py. */
  const BaseAlphabet: string := AsciiLetters + Digits

  /** `SYMBOLS` of pwgen.py: 29 punctuation characters. */
  const Symbols: string := "!@#$%^&*()-_=+[]{}|;:,.<>?/~`"

  predicate IsAsciiLower(c: char) { 'a' <= c <= 'z' }
  predicate IsAsciiUpper(c: char) { 'A' <= c <= 'Z' }
  predicate IsAsciiLetter(c: char) { IsAsciiLower(c) || IsAsciiUpper(c) }
  predicate IsDigit(c: char) { '0' <= c <= '9' }

  /** Printable ASCII that is neither a letter, a digit nor a space. */
  predicate IsAsciiPunctuation(c: char) {
    '!' <= c <= '~' && !IsAsciiLetter(c) && !IsDigit(c)
  }

  /** A string whose i-th character has code point `first + i` is the run
      starting at `first`. */
  lemma IsCharRange(s: string, first: char, count: nat)
    requires first as int + count < 0xD800
    requires |s| == count
    requires forall i :: 0 <= i < |s| ==> s[i] as int == first as int + i
    ensures s == CharRange(first, count)
  {
    var r := CharRange(first, count);
    forall i | 0 <= i < count ensures s[i] == r[i] {
      assert s[i] as int == r[i] as int;
    }
  }

  /** Each of the three Python constants is the code-point run it looks like. */
  lemma LowercaseIsRange()
    ensures AsciiLowercase == CharRange('a', 26)
  {
    assert forall i :: 0 <= i < |AsciiLowercase| ==> AsciiLowercase[i] as int == 'a' as int + i;
    IsCharRange(AsciiLowercase, 'a', 26);
  }

  lemma UppercaseIsRange()
    ensures AsciiUppercase == CharRange('A', 26)
  {
    assert forall i :: 0 <= i < |AsciiUppercase| ==> AsciiUppercase[i] as int == 'A' as int + i;
    IsCharRange(AsciiUppercase, 'A', 26);
  }

  lemma DigitsIsRange()
    ensures Digits == CharRange('0', 10)
  {
    assert forall i :: 0 <= i < |Digits| ==> Digits[i] as int == '0' as int + i;
    IsCharRange(Digits, '0', 10);
  }

  /** The base alphabet has 62 distinct characters, and they are exactly the
      ASCII letters and decimal digits. */
  lemma BaseAlphabetContents()
    ensures |BaseAlphabet| == 62
    ensures Distinct(BaseAlphabet)
    ensures forall c :: c in BaseAlphabet <==> IsAsciiLetter(c) || IsDigit(c)
  {
    LowercaseIsRange();
    UppercaseIsRange();
    DigitsIsRange();
    CharRangeContents('a', 26);
    CharRangeContents('A', 26);
    CharRangeContents('0', 10);
    DistinctConcat(AsciiLowercase, AsciiUppercase);
    DistinctConcat(AsciiLetters, Digits);
  }

  /** The symbol at position `i` does not occur again later. */
  lemma SymbolNotRepeated(i: nat)
    requires i < |Symbols|
    ensures forall j :: i < j < |Symbols| ==> Symbols[j] != Symbols[i]
  {
  }

  /** The symbol set has 29 distinct characters. */
  lemma SymbolsDistinct()
    ensures |Symbols| == 29
    ensures Distinct(Symbols)
  {
    forall i | 0 <= i < |Symbols|
      ensures forall j :: i < j < |Symbols| ==> Symbols[j] != Symbols[i]
    {
      SymbolNotRepeated(i);
    }
  }

  /** Every symbol is ASCII punctuation, so the symbol set shares no
      character with the base alphabet. */
  lemma SymbolsDisjointFromBase()
    ensures forall c :: c in Symbols ==> IsAsciiPunctuation(c)
    ensures forall c :: c in Symbols ==> c !in BaseAlphabet
  {
    assert forall i :: 0 <= i < |Symbols| ==> IsAsciiPunctuation(Symbols[i]);
    BaseAlphabetContents();
  }
}
