/** The rule `main` of pwgen.py adds around `generate_password`: a length
    that is not positive is refused before anything is generated. Argument
    parsing and printing are not modelled; the parsed arguments are inputs
    and what would be printed is the outcome. */
module Cli {
  import opened PwGen

  /** What `main` prints: the error message, or one password. */
  datatype Outcome = Rejected(message: string) | Printed(password: string)

  /** One run of `main`: its outcome and how many oracle draws it consumed,
      always the first ones. */
  datatype Run = Run(outcome: Outcome, drawsUsed: nat)

  const LengthError: string := "Error: Length must be a positive integer."

  /** The lengths `main` passes on to `generate_password`. */
  predicate ValidLength(length: int) {
    length > 0
  }

  /** `main` with the parsed `length` and `--symbols` flag. */
  function Main(length: int, useSymbols: bool, draws: seq<nat>): (r: Run)
    requires InRange(|Alphabet(useSymbols)|, draws)
    requires DrawCount(length) <= |draws|
    ensures !ValidLength(length) ==> r == Run(Rejected(LengthError), 0)
    ensures ValidLength(length) ==>
              && r.outcome == Printed(GeneratePassword(length, useSymbols, draws))
              && |r.outcome.password| == r.drawsUsed == length
              && forall c :: c in r.outcome.password ==> c in Alphabet(useSymbols)
  {
    if !ValidLength(length) then
      Run(Rejected(LengthError), 0)
    else
      Run(Printed(GeneratePassword(length, useSymbols, draws)), length)
  }

  /** `main` reads no draw beyond the ones it reports using: two oracles
      that agree on the first `drawsUsed` indices give the same outcome, so a
      rejected run depends on no draw at all. */
  lemma MainReadsOnlyUsedDraws(length: int, useSymbols: bool, d1: seq<nat>, d2: seq<nat>)
    requires InRange(|Alphabet(useSymbols)|, d1) && InRange(|Alphabet(useSymbols)|, d2)
    requires DrawCount(length) <= |d1| && DrawCount(length) <= |d2|
    requires d1[..Main(length, useSymbols, d1).drawsUsed] == d2[..Main(length, useSymbols, d1).drawsUsed]
    ensures Main(length, useSymbols, d1) == Main(length, useSymbols, d2)
  {
    if ValidLength(length) {
      GenerateReadsOnlyConsumedDraws(length, useSymbols, d1, d2);
    }
  }
}
