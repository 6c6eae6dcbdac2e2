# pwgen-lite in Dafny

A model of pwgen-lite, a small command-line password generator. The generator
builds an alphabet from the ASCII letters and decimal digits (`BASE_ALPHABET`).
It appends a fixed set of 29 punctuation symbols (`SYMBOLS`) when symbols are
asked for. It then draws `length` characters from that alphabet and joins them.
`main` refuses a length that is not positive and generates nothing in that case.

The random choice (`secrets.choice`) is modelled as an oracle. The oracle is a
sequence of indices, each below the alphabet's size. Position `i` of the
password is the alphabet character at the oracle's `i`-th index.

Modules:

- `Seqs` (seqs.dfy): distinctness, the element set, and first-position lookup for sequences.
- `Charsets` (charsets.dfy): Python's `string.ascii_letters` and `string.digits`, `BASE_ALPHABET`, `SYMBOLS`, and the character classes they cover.
- `PwGen` (pwgen.dfy): the alphabet selection and `generate_password`.
- `Cli` (cli.dfy): the length check in `main`.

`SYMBOLS` (pwgen.py:13) has 29 characters, so the with-symbols alphabet has 91.

## Model

| member | source | states |
|---|---|---|
| Charsets.BaseAlphabetContents | pwgen.py:12 | `BASE_ALPHABET` has 62 pairwise distinct characters, and a character is in it exactly when it is an ASCII letter or a decimal digit |
| Charsets.SymbolsDistinct | pwgen.py:13 | `SYMBOLS` has 29 characters and none occurs twice |
| Charsets.SymbolsDisjointFromBase | pwgen.py:12-13 | every symbol is ASCII punctuation, so no symbol is also in `BASE_ALPHABET` |
| Charsets.CharRangeContents | pwgen.py:12 | a run of consecutive code points is duplicate-free and holds exactly the characters between its ends |
| Charsets.LowercaseIsRange | pwgen.py:12 | `string.ascii_lowercase` is the run of 26 code points starting at `a` |
| Charsets.UppercaseIsRange | pwgen.py:12 | `string.ascii_uppercase` is the run of 26 code points starting at `A` |
| Charsets.DigitsIsRange | pwgen.py:12 | `string.digits` is the run of 10 code points starting at `0` |
| PwGen.Alphabet | pwgen.py:20 | the selected alphabet has 62 characters without symbols and 91 with them |
| PwGen.AlphabetContents | pwgen.py:20 | a character is in the selected alphabet exactly when it is an ASCII letter or a digit, or, with symbols, one of `SYMBOLS` |
| PwGen.AlphabetDistinct | pwgen.py:12-20 | no character occurs twice in either alphabet |
| PwGen.AlphabetGrowsWithSymbols | pwgen.py:20 | the alphabet without symbols is a prefix of the one with symbols, and the latter's characters are the former's together with the symbols |
| PwGen.AlphabetCardinality | pwgen.py:12-20 | the number of distinct characters available per position is 62 without symbols and 91 with them |
| PwGen.Pick | pwgen.py:21 | joining the chosen characters yields one character per draw, the i-th being the alphabet character at the i-th index |
| PwGen.GeneratePassword | pwgen.py:15-21 | the password has exactly `length` characters, and none for a zero or negative length; it is empty only then; position i is the alphabet character at draw i; every character is in the selected alphabet |
| PwGen.GeneratePasswordLoop | pwgen.py:21 | building the password one position at a time over `range(length)` yields the same password |
| PwGen.CharsetWithoutSymbols | tests/test_pwgen.py:13-16 | without symbols, every password character is an ASCII letter or a digit |
| PwGen.CharsetWithSymbols | tests/test_pwgen.py:18-21 | with symbols, every password character is an ASCII letter, a digit or one of `SYMBOLS` |
| PwGen.GenerateContinues | pwgen.py:21 | draws are consumed one per position and in order: a password of length n + m is the length-n password followed by the length-m password from the draws that remain |
| PwGen.GenerateReadsOnlyConsumedDraws | pwgen.py:21 | a password depends only on the first `length` draws (none for a non-positive length): oracles agreeing on them give the same password |
| PwGen.Indices | pwgen.py:21 | for any string over an alphabet, the recovered indices are in range and select its characters back |
| PwGen.PickIndices | pwgen.py:21 | picking the recovered indices of a string over the alphabet gives that string back |
| PwGen.PickInjective | pwgen.py:21 | over a duplicate-free alphabet, two draw sequences of one length that pick the same string are equal |
| PwGen.PickOneToOne | pwgen.py:21 | over a duplicate-free alphabet, draws pick a given string exactly when they are its recovered indices |
| PwGen.EachPasswordHasOneDrawSequence | pwgen.py:20-21 | every string over the selected alphabet, of any length, is generated by its recovered indices, and by no other draw sequence of its length |
| Cli.Main | pwgen.py:34-41 | a non-positive length is rejected with the error message and reports no draws used; otherwise the printed password is `generate_password`'s, has exactly `length` characters from the selected alphabet, and reports `length` draws used |
| Cli.MainReadsOnlyUsedDraws | pwgen.py:37-41 | the outcome depends only on the draws `main` reports using: any two oracles that agree on them give the same outcome, so a rejected run reads no draw |

## Left out

- `secrets.choice` and its uniform distribution: the choice is an oracle of in-range indices, and distributional claims are not stated.
- `parse_arguments` (pwgen.py:23-32): argument parsing is I/O; the parsed `length` and `--symbols` flag are inputs to `Cli.Main`.
- The `print` calls in `main` and the `__main__` entry point: `Cli.Main` returns what would be printed instead of printing it.
- PwGen.GeneratePassword: requires every index the oracle holds to be in range, not only the `length` it consumes; the oracle stands for all calls `secrets.choice` could make, and each returns an alphabet character.
- Cli.Main: requires the oracle to supply at least `length` in-range draws, because `secrets.choice` never runs out and always returns an alphabet character.
