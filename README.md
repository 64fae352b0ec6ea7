# Ternary exponentiation substitution scheme, modelled in Dafny

The scheme turns one character into a pair of integers. A fixed table gives
each of the three characters `A`, `B` and `C` a base and two exponents. The
pair is the base raised to the first exponent and the base raised to the second
exponent plus the public key. Powers use a custom power function that returns
0 for base 0, even with exponent 0. Decryption does not invert anything. It
re-encrypts every table entry in table order under the same public key and
returns the symbol of the first entry whose pair equals the input. The private
key is accepted but never used. Key generation draws a public key in [2, 10]
and a private key 1 to 10 above it.

Everything is in `ternary.dfy`, module `Ternary`:

- `Pow` is the mathematical power, used as the reference for `CustomPow`.
- The dictionary `char_to_ternary` becomes `CharToTernary`, an ordered `seq` of
  `Entry(symbol, base, exp1, exp2)` rows in insertion order. Its symbols are
  unique, so a dictionary lookup is the same as `IndexOf`, the first position
  holding that symbol.
- `EncryptChar` is a pure function.
- `DecryptTernary` is a method with a `while` loop and an early return. It is
  proved against the recursive specification `FirstMatch`, and the lemmas are
  stated about `FirstMatch`.
- `GenerateKeys` calls `RandInt`, a nondeterministic draw from a closed range
  that stands for `random.randint`.
- Integers are unbounded, as in Python. Bases, exponents and the public key
  are `nat`.

## Model

| member | source | states |
|---|---|---|
| `Ternary.CustomPow` | ternary.py:46-54 | the result is 0 whenever the base is 0, whatever the exponent; for any base of at least 1 it equals the mathematical power, including the exponent-0 and base-1 shortcuts |
| `Ternary.CustomPowZeroZero` | ternary.py:47-48 | `custom_pow(0, 0)` is 0 while the mathematical 0^0 is 1 |
| `Ternary.CustomPowAgreesElsewhere` | ternary.py:46-54 | for every base and exponent other than (0, 0), `custom_pow` equals the mathematical power, so 0^0 is the only disagreement |
| `Ternary.CustomPowSpecialCases` | ternary.py:47-52 | `custom_pow(0, e) == 0` for every e, `custom_pow(b, 0) == 1` for every b of at least 1, and `custom_pow(1, e) == 1` for every e |
| `Ternary.CharTableWellFormed` | ternary.py:57-61 | the table's symbols are unique and its first power values are 8, 9 and 25, so they are pairwise distinct |
| `Ternary.IndexOf` | ternary.py:28-29 | membership test and lookup: None exactly when no entry has the symbol; otherwise the position of the first entry holding it |
| `Ternary.EncryptChar` | ternary.py:27-33 | None exactly when the character is not `A`, `B` or `C`; otherwise the character's entry raised to exp1 and to exp2 plus the public key |
| `Ternary.EncryptCharEntries` | ternary.py:29-30 | for every public key k: `A` encrypts to (8, 2^(4+k)), `B` to (9, 3^(5+k)) and `C` to (25, 5^(3+k)) |
| `Ternary.EncryptCharExamples` | ternary.py:27-33 | `encrypt_char('B', 4) == (9, 19683)` and `encrypt_char('Z', 5)` is None |
| `Ternary.FirstMatch` | ternary.py:37-43 | None exactly when no entry re-encrypts to the pair; otherwise the symbol of an entry that re-encrypts to the pair, with no earlier entry doing so |
| `Ternary.DecryptTernary` | ternary.py:36-43 | the scan returns the table's first match under the public key, or None when nothing matches; the result is fixed by the pair and the public key alone, so the private key has no influence |
| `Ternary.FirstMatchFindsOwnEntry` | ternary.py:37-42 | in any table whose first power values are pairwise distinct, the encoding of an entry is first matched by that same entry, for every public key |
| `Ternary.RoundTrip` | ternary.py:27-43 | for `A`, `B` and `C` and every public key, encryption succeeds and decrypting its result gives the character back |
| `Ternary.DecryptSound` | ternary.py:36-43 | whenever decryption returns a character, that character encrypts to the given pair under the same public key |
| `Ternary.NoMatchOutsideFirstValues` | ternary.py:41-43 | a pair whose first value is not 8, 9 or 25 decrypts to None under every public key |
| `Ternary.DecryptExamples` | ternary.py:36-43 | (9, 19683) with public key 4 decrypts to `B`; (999999, 1) decrypts to None under every public key |
| `Ternary.RandInt` | ternary.py:22-23 | a draw from `randint(lo, hi)` lies in the closed range [lo, hi] |
| `Ternary.GenerateKeys` | ternary.py:21-24 | the public key lies in [2, 10], the private key exceeds it by 1 to 10, and so it is the larger of the two |

## Left out

- The diagnostic `print` lines in encryption and decryption: they are console output with no effect on results.
- The pseudo-random generator: `RandInt` constrains only the range of a draw, not its distribution or its seeding.
- Negative public keys, where an exponent could go negative and Python's `**` would return a float: keys and exponents are `nat`.
- Decryption of anything but a pair of integers. A value that is not a pair, such as the None returned for an unknown character, compares unequal to every entry and yields None. A pair of non-integer numbers equal to an entry's values, such as (9.0, 19683.0), matches just as its integer twin does. The model's `DecryptTernary` takes integer pairs only.
- Encryption of a string longer than one character: the model takes a single `char`.
- The commented-out example usage and the prose header of the file: they are documentation.
- Security claims: the code makes none that could be stated or proved.
