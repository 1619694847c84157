# basex in Dafny

A model of `basex`, a Go package that turns arbitrarily large non-negative
integers into short alphanumeric ids and back. The package has three parts,
and the model keeps them:

- **The alphabet.** The 62 symbols `0-9A-Za-z` are the digits of a base-62
  positional notation. The dictionary (value to symbol) and its inverse map
  (symbol to value) are package globals in the original. Here they are one
  `Alphabets.Alphabet` value passed to every operation. `Alphabets.WellFormed`
  is the invariant every alphabet the program can hold satisfies.
- **The codec** (`Codec`):
  - `EncodeInt` and `DecodeInt` convert between numbers and digit strings.
  - `Encode` and `Decode` do the same for decimal text.
  - `EncodeLoop`, `DecodeLoop`, `SumLoop` and `ReverseSwap` are imperative
    methods that follow the original's loops step by step. Each is proved
    equal to the functional definition.
- **The keyed alphabet** (`Keyed`). `Init` replaces the alphabet with a
  permutation derived from a key. Each symbol of the current dictionary is
  paired with the hex character of the key's digest at the same position.
  The pairs are sorted by that character, and the symbols are read off in
  sorted order. Because the current dictionary is used, a second `Init`
  permutes the already permuted one.

Supporting modules:

- `Positional` holds base-62 digit arithmetic, independent of any symbols.
- `Validation` holds the two character-class checks.
- `Decimal` holds decimal text. Its two directions stand in for the
  big-integer library's `SetString` and `String`.

The encoder extracts digits in an unusual way. On pass `k` it takes
`b = r mod 62^k` and `d = b div 62^(k-1)`, then subtracts `b` from `r`. The
proof uses a ghost quotient `q` with `r = q * 62^(k-1)`. Each pass takes the
lowest digit of `q`, so every `d` is provably below 62 and always indexes the
dictionary. The source's comment only hopes for this.

Two behaviours of the code are kept as they are:

- **Zero.** The extraction loop at `basex.go:73` runs only while the working
  value is non-zero, so zero encodes to the empty string, and the model does
  the same. The empty string decodes back to 0, whose decimal text is "0".
- **Sort.** `basex.go:197` calls `sort.Sort`, which is not stable, so the
  order of pairs with equal digest characters is not fixed by the code. The
  contracts state only sortedness and permutation.

## Model

| member | source | states |
|---|---|---|
| Alphabets.Default | basex.go:17-34 | The start-up alphabet is well-formed. Its symbol at position `k` is the `k`-th of the digits, then `A-Z`, then `a-z`, each run ascending, and the map takes that symbol back to `k`. |
| Alphabets.IndexOf | basex.go:27-33 | The map built by the position loop has exactly the dictionary's symbols as keys. Each key maps to a position holding that symbol. For a dictionary without duplicates, the map is its inverse. |
| Validation.IsValidNumeric | basex.go:41-48 | True exactly when every character is a decimal digit. The empty string passes. |
| Validation.IsAsciiPrintable | basex.go:51-58 | True exactly when every character is ASCII, printable and not punctuation. |
| Validation.PrintableChars | basex.go:53 | The per-character check admits exactly the 62 alphanumerics and the ten symbols space, `$ + < = > ^ ~`, backquote and vertical bar. |
| Codec.ReverseSwap | basex.go:149-154 | The in-place swap loop produces the reversal of its input. |
| Codec.ReverseReverse | basex.go:149-154 | Reversing twice gives the original, which is why the encoder's and decoder's reversals cancel. |
| Codec.ExtractDigit | basex.go:75-77 | If the working value is `q * c`, its remainder modulo `62 * c` is `(q mod 62) * c`. Dividing by `c` gives `q mod 62`. Subtracting the remainder leaves `(q div 62) * 62 * c`. |
| Codec.ExtractStep | basex.go:74-86 | On pass `k`, with working value `q * 62^(k-1)`, the digit computed is `q mod 62`, so `0 <= d < 62`. The remainder subtracted is at most the working value, and it leaves `(q div 62) * 62^k`. |
| Codec.EmitStep | basex.go:84 | The symbol appended on a pass is the first of the symbols of the remaining quotient's digits, least significant first. So the collected symbols are always a prefix of the full digit string. |
| Codec.EncodeLoop | basex.go:61-91 | The extraction loop followed by the reversal yields exactly `EncodeInt`, and it drives its working value to 0. |
| Codec.EncodeInt | basex.go:94-98 | Every output symbol is in the alphabet. The output is empty exactly when the number is 0, and its first symbol is never the value-0 symbol. |
| Codec.EncodedLength | basex.go:73-90 | A positive `n` encodes to `L` symbols with `62^(L-1) <= n < 62^L`. Zero encodes to none. |
| Codec.EncodedLengthMonotone | basex.go:73-90 | A larger number never encodes to a shorter string. |
| Codec.NegativeNeverZero | basex.go:73-87 | On a negative working value the Euclidean remainder lies in `[0, 62^k)`, so after the subtraction the value is still negative and the loop condition never fails. |
| Codec.Encode | basex.go:102-112 | It fails with `NotNumeric` exactly when some character is not a digit. Otherwise it gives the encoding of the text's decimal value. |
| Codec.DecodeInt | basex.go:115-138 | It fails with `NotPrintable` exactly when some character is non-ASCII, non-printable or punctuation. It succeeds exactly when the string passes that check and every character is in the alphabet; a printable string with a character outside the alphabet gives `UnmappedSymbol`. The value is the string read most significant digit first (Horner's rule). |
| Codec.SumLoop | basex.go:130-136 | The multiply-and-add loop over the reversed string succeeds exactly when every character is mapped. Its sum is the digit value at position `i` times `62^i`, summed over `i`. |
| Codec.DecodeLoop | basex.go:115-138 | Validation, reversal and the summation loop together give exactly `DecodeInt`. |
| Codec.WeightedSumIsMsbValue | basex.go:121-136 | The sum over powers of 62 taken on the reversed string equals the Horner value of the string. |
| Codec.Decode | basex.go:141-147 | It fails exactly when `DecodeInt` fails, with the same error. Otherwise it gives canonical decimal text whose value is `DecodeInt`'s result. |
| Codec.RoundTripInt | basex.go:61-138 | Decoding the encoding of any `n` gives `n` back, under any well-formed alphabet, zero included. |
| Codec.DecodeEncodeCanonical | basex.go:61-138 | A digit string that is all in the alphabet and has no leading value-0 symbol decodes successfully, and re-encoding gives the string back. So `EncodeInt` is a bijection onto such strings. |
| Codec.RoundTripDecimal | basex_test.go:9-18 | Canonical decimal text encodes successfully, and decoding the result gives the same text back. |
| Decimal.ParseDecimalString | basex.go:146 | Reading the canonical decimal text of `n` gives `n`. |
| Decimal.DecimalStringParse | basex.go:108-109 | Rendering the value of canonical decimal text gives the text back. |
| Positional.LsbDigitsValue | basex.go:73-87 | The base-62 digits of `n`, read back, give `n`. |
| Positional.ValueLsbDigits | basex.go:73-87 | The digits of the value of a canonical digit sequence are that sequence. |
| Keyed.LessIsStrictWeakOrder | basex.go:174-180 | The comparison by digest character is irreflexive and transitive, and so is incomparability: a strict weak order, as the sort needs. |
| Keyed.InsertSorted | basex.go:197 | Inserting into a sorted sequence keeps it sorted. |
| Keyed.SortItems | basex.go:197 | The sort's result is sorted by digest character and is a permutation of its input. |
| Keyed.SortKeys | basex.go:197 | Sorting neither adds nor loses dictionary symbols. |
| Keyed.ChooseDigest | basex.go:185-190 | The digest text used is the SHA-256 text unless that is shorter than the dictionary, in which case it is the SHA-512 text. It is always long enough. |
| Keyed.Pair | basex.go:191-196 | The `k`-th item pairs the `k`-th digest character with the `k`-th dictionary symbol. |
| Keyed.SortedSymbolsPermute | basex.go:191-201 | The symbols read off the sorted pairs are a duplicate-free permutation of the 62 dictionary symbols, all alphanumeric. |
| Keyed.SortedSymbolsOrdered | basex.go:191-201 | Along the new order, the digest characters at the symbols' original positions never decrease. |
| Keyed.EncDictionary | basex.go:182-206 | The derived alphabet is well-formed, so the new map takes each new symbol to its new position. It holds the same symbols as before, ordered by their digest characters. |
| Keyed.Init | basex.go:36-38 | After installing the keyed alphabet, every number still decodes back from its encoding. |

## Left out

- Digests: SHA-256, SHA-512 and hex encoding are not computed. `EncDictionary` and `Init` take the two lowercase hex texts of the key's digests as parameters.
- Keyed.ChooseDigest: the SHA-512 fallback is modelled. A real SHA-256 hex text has 64 characters, which is at least 62, so the fallback never fires.
- Keyed.EncDictionary: symbols whose digest characters are equal come out in a fixed order. The model's insertion sort keeps their original order. Go's `sort.Sort` is not stable and may order them differently. The contract states only what holds for every tie order: a permutation, sorted by digest character.
- Codec.EncodeInt: negative integers are outside the model. `EncodeInt` at `basex.go:94` accepts any `*big.Int`, but on a negative value the loop at `basex.go:73-87` never returns: `Mod` is Euclidean, so the subtracted remainder is never negative and the working value stays below zero (`Codec.NegativeNeverZero`). `Encode` cannot reach this case, because `-` fails the digit check. The model's `nat` parameter therefore covers every input on which the original returns.
- Codec.DecodeInt: a printable character outside the alphabet makes the original dereference a missing map entry and panic. The affected characters are space, `$ + < = > ^`, backquote, `|` and `~`. The model returns `Err(UnmappedSymbol)` instead.
- Validation.IsValidNumeric: restricted to ASCII digits. Go's `unicode.IsNumber` also admits other Unicode number characters, which `SetString` then rejects, with the failure ignored. The model refuses such text with `NotNumeric`.
- Codec.Encode: the ignored `SetString` failure is not modelled. Under the ASCII restriction the only affected input is the empty string. Go leaves the integer at 0 and encodes it to the empty string, and the model gives the same result by reading "" as 0.
- Big-integer plumbing: `*big.Int` aliasing, scratch variables and the `d.String()`/`strconv.Atoi` detour become plain `nat` arithmetic. `EncodeInt`'s defensive copy of its argument is implicit, because a `nat` has value semantics. `EncodeLoop` returns its working value as `rest`, proved 0, to show that the private encoder drives its argument to zero.
- Global state and concurrency: the package-level dictionary, map and radix, and any concurrent `Init`, are not modelled. The alphabet is a parameter. The radix stays the constant 62, as it does in the original after `Init`.
- Error values: the original's error message texts are replaced by the constructors of `Codec.Error`.
- Text encoding: strings are sequences of characters, and UTF-8 decoding is not modelled. After the printable-ASCII check every character is a single byte, so the decoder's byte-wise loop and the check's rune-wise loop see the same characters.
- `basex_test.go` defines a `main` function and is not a compilable test. It serves only as the statement of the decimal round trip.
