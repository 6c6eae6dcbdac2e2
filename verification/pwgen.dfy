/** `generate_password` of pwgen.py. The secure random choice is abstracted
    as an oracle: a sequence of indices into the alphabet, one consumed per
    password position, in order. */
module PwGen {
  import opened Seqs
  import opened Charsets

  /** The alphabet `generate_password` draws from: the base alphabet,
      followed by the symbols when they are asked for. */
  function Alphabet(useSymbols: bool): (a: string)
    ensures |a| == if useSymbols then 62 + 29 else 62
  {
    BaseAlphabetContents();
    SymbolsDistinct();
    if useSymbols then BaseAlphabet + Symbols else BaseAlphabet
  }

  /** A character is in the alphabet exactly when it is an ASCII letter or a
      digit, or, with symbols, one of the symbols. */
  lemma AlphabetContents(useSymbols: bool)
    ensures forall c :: c in Alphabet(useSymbols) <==> IsAsciiLetter(c) || IsDigit(c) || (useSymbols && c in Symbols)
  {
    BaseAlphabetContents();
  }

  /** No character occurs twice in either alphabet, since the symbols are
      distinct and share no character with the base alphabet. */
  lemma AlphabetDistinct(useSymbols: bool)
    ensures Distinct(Alphabet(useSymbols))
  {
    BaseAlphabetContents();
    SymbolsDistinct();
    SymbolsDisjointFromBase();
    DistinctConcat(BaseAlphabet, Symbols);
  }

  /** Turning the symbols on only appends to the alphabet: the alphabet
      without symbols is a prefix, and so a subset, of the one with them. */
  lemma AlphabetGrowsWithSymbols()
    ensures Alphabet(false) <= Alphabet(true)
    ensures Elements(Alphabet(true)) == Elements(Alphabet(false)) + Elements(Symbols)
  {
  }

  /** The number of distinct characters a password position can take. */
  lemma AlphabetCardinality(useSymbols: bool)
    ensures |Elements(Alphabet(useSymbols))| == if useSymbols then 91 else 62
  {
    AlphabetDistinct(useSymbols);
    DistinctCardinality(Alphabet(useSymbols));
  }

  /** Every index the oracle yields selects a character of an alphabet of
      `size` characters, as `secrets.choice` does. */
  predicate InRange(size: nat, draws: seq<nat>) {
    forall i :: 0 <= i < |draws| ==> draws[i] < size
  }

  /** How many positions `range(length)` yields: none for a length that is
      zero or negative. */
  function DrawCount(length: int): nat {
    if length > 0 then length else 0
  }

  /** The characters the draws select, joined in draw order. */
  function Pick(alphabet: string, draws: seq<nat>): (s: string)
    requires InRange(|alphabet|, draws)
    ensures |s| == |draws|
    ensures forall i :: 0 <= i < |draws| ==> s[i] == alphabet[draws[i]]
  {
    if |draws| == 0 then [] else [alphabet[draws[0]]] + Pick(alphabet, draws[1..])
  }

  /** `generate_password(length, use_symbols)`, with the oracle standing for
      the successive calls to `secrets.choice`. */
  function GeneratePassword(length: int, useSymbols: bool, draws: seq<nat>): (pw: string)
    requires InRange(|Alphabet(useSymbols)|, draws)
    requires DrawCount(length) <= |draws|
    ensures |pw| == DrawCount(length)
    ensures pw == [] <==> length <= 0
    ensures forall i :: 0 <= i < |pw| ==> pw[i] == Alphabet(useSymbols)[draws[i]]
    ensures forall c :: c in pw ==> c in Alphabet(useSymbols)
  {
    Pick(Alphabet(useSymbols), draws[..DrawCount(length)])
  }

  /** The same password, built one position at a time as the join over
      `range(length)` does. */
  method GeneratePasswordLoop(length: int, useSymbols: bool, draws: seq<nat>) returns (pw: string)
    requires InRange(|Alphabet(useSymbols)|, draws)
    requires DrawCount(length) <= |draws|
    ensures pw == GeneratePassword(length, useSymbols, draws)
  {
    var alphabet := Alphabet(useSymbols);
    pw := "";
    var i := 0;
    while i < length
      invariant 0 <= i <= DrawCount(length)
      invariant |pw| == i
      invariant forall k :: 0 <= k < i ==> pw[k] == alphabet[draws[k]]
    {
      pw := pw + [alphabet[draws[i]]];
      i := i + 1;
    }
  }

  /** Without symbols, a password holds only ASCII letters and digits. */
  lemma CharsetWithoutSymbols(length: int, draws: seq<nat>)
    requires InRange(|Alphabet(false)|, draws)
    requires DrawCount(length) <= |draws|
    ensures forall c :: c in GeneratePassword(length, false, draws) ==> IsAsciiLetter(c) || IsDigit(c)
  {
    AlphabetContents(false);
  }

  /** With symbols, a password holds only ASCII letters, digits and symbols. */
  lemma CharsetWithSymbols(length: int, draws: seq<nat>)
    requires InRange(|Alphabet(true)|, draws)
    requires DrawCount(length) <= |draws|
    ensures forall c :: c in GeneratePassword(length, true, draws) ==> IsAsciiLetter(c) || IsDigit(c) || c in Symbols
  {
    AlphabetContents(true);
  }

  /** Draws are consumed one per position and in order: a longer password
      is a shorter one followed by what the remaining draws produce. */
  lemma GenerateContinues(n: nat, m: nat, useSymbols: bool, draws: seq<nat>)
    requires InRange(|Alphabet(useSymbols)|, draws)
    requires n + m <= |draws|
    ensures GeneratePassword(n + m, useSymbols, draws)
         == GeneratePassword(n, useSymbols, draws) + GeneratePassword(m, useSymbols, draws[n..])
  {
    var whole := GeneratePassword(n + m, useSymbols, draws);
    var first := GeneratePassword(n, useSymbols, draws);
    var rest := GeneratePassword(m, useSymbols, draws[n..]);
    assert |whole| == |first + rest|;
    forall i | 0 <= i < n + m ensures whole[i] == (first + rest)[i] {
      if i >= n {
        assert draws[n..][i - n] == draws[i];
      }
    }
  }

  /** A password depends only on the draws it consumes: two oracles that
      agree on the first `DrawCount(length)` indices give the same password. */
  lemma GenerateReadsOnlyConsumedDraws(length: int, useSymbols: bool, d1: seq<nat>, d2: seq<nat>)
    requires InRange(|Alphabet(useSymbols)|, d1) && InRange(|Alphabet(useSymbols)|, d2)
    requires DrawCount(length) <= |d1| && DrawCount(length) <= |d2|
    requires d1[..DrawCount(length)] == d2[..DrawCount(length)]
    ensures GeneratePassword(length, useSymbols, d1) == GeneratePassword(length, useSymbols, d2)
  {
    var p1 := GeneratePassword(length, useSymbols, d1);
    var p2 := GeneratePassword(length, useSymbols, d2);
    forall i | 0 <= i < |p1| ensures p1[i] == p2[i] {
      assert d1[..DrawCount(length)][i] == d1[i];
      assert d2[..DrawCount(length)][i] == d2[i];
    }
  }

  /** The oracle indices that select the characters of `pw`. */
  function Indices(alphabet: string, pw: string): (d: seq<nat>)
    requires forall c :: c in pw ==> c in alphabet
    ensures |d| == |pw|
    ensures InRange(|alphabet|, d)
    ensures forall i :: 0 <= i < |pw| ==> alphabet[d[i]] == pw[i]
  {
    if |pw| == 0 then [] else [IndexOf(alphabet, pw[0])] + Indices(alphabet, pw[1..])
  }

  /** Recovering the indices of a string and picking them gives the string
      back. */
  lemma PickIndices(alphabet: string, pw: string)
    requires forall c :: c in pw ==> c in alphabet
    ensures Pick(alphabet, Indices(alphabet, pw)) == pw
  {
    var p := Pick(alphabet, Indices(alphabet, pw));
    forall i | 0 <= i < |pw| ensures p[i] == pw[i] { }
  }

  /** Over a duplicate-free alphabet, different draws of the same length
      pick different strings. */
  lemma PickInjective(alphabet: string, d1: seq<nat>, d2: seq<nat>)
    requires Distinct(alphabet)
    requires InRange(|alphabet|, d1) && InRange(|alphabet|, d2) && |d1| == |d2|
    requires Pick(alphabet, d1) == Pick(alphabet, d2)
    ensures d1 == d2
  {
    forall i | 0 <= i < |d1| ensures d1[i] == d2[i] {
      assert alphabet[d1[i]] == Pick(alphabet, d1)[i];
    }
  }

  /** A password as long as the oracle uses every draw. */
  lemma GenerateAllDraws(useSymbols: bool, draws: seq<nat>)
    requires InRange(|Alphabet(useSymbols)|, draws)
    ensures GeneratePassword(|draws|, useSymbols, draws) == Pick(Alphabet(useSymbols), draws)
  {
    assert draws[..|draws|] == draws;
  }

  /** Over a duplicate-free alphabet, the draws that pick a string are
      exactly its recovered indices. */
  lemma PickOneToOne(alphabet: string, pw: string, draws: seq<nat>)
    requires Distinct(alphabet)
    requires forall c :: c in pw ==> c in alphabet
    requires InRange(|alphabet|, draws) && |draws| == |pw|
    ensures Pick(alphabet, draws) == pw <==> draws == Indices(alphabet, pw)
  {
    PickIndices(alphabet, pw);
    if Pick(alphabet, draws) == pw {
      PickInjective(alphabet, draws, Indices(alphabet, pw));
    }
  }

  /** Every password over the alphabet is produced by exactly one sequence
      of draws of its length. */
  lemma EachPasswordHasOneDrawSequence(useSymbols: bool, pw: string, draws: seq<nat>)
    requires forall c :: c in pw ==> c in Alphabet(useSymbols)
    requires InRange(|Alphabet(useSymbols)|, draws) && |draws| == |pw|
    ensures GeneratePassword(|pw|, useSymbols, Indices(Alphabet(useSymbols), pw)) == pw
    ensures GeneratePassword(|pw|, useSymbols, draws) == pw <==> draws == Indices(Alphabet(useSymbols), pw)
  {
    var a := Alphabet(useSymbols);
    var d := Indices(a, pw);
    GenerateAllDraws(useSymbols, d);
    GenerateAllDraws(useSymbols, draws);
    AlphabetDistinct(useSymbols);
    PickIndices(a, pw);
    PickOneToOne(a, pw, draws);
  }
}
