# Classical cipher engine in Dafny

A model of the cipher engine of `js/cifrados.js`. It covers:

- the text normaliser `limpiarTexto`;
- the never-negative `modulo`;
- the four ciphers: Caesar (`cifradoCesar`), Vigenère (`cifradoVigenere`), columnar transposition (`cifrarTransposicion`, `descifrarTransposicion` and the wrapper `transposicionColumnar`), and Atbash (`cifradoAtbash`).

Texts are `string` (`seq<char>`). The source returns an error message string when a key has no letters; here that case is the `KeyError` variant of `CipherResult`.

The modules follow the source:

- `Alphabet`: the `alfabeto` and `reverso` tables, `indexOf`, and JavaScript's truncating `%` (`JsRem`). It also holds `modulo` built from `JsRem`, and the letter shift and mirror the ciphers use.
- `Normalizer`: `limpiarTexto`, and the letters-only filter `replace(/[^A-Z]/g, "")`.
- `Caesar`, `Vigenere`, `Atbash`: the three substitution ciphers. Each is a pure function with a round-trip lemma. `Vigenere.VigenereLoop` is the source's loop with its running key index `indiceClave`, proved equal to the position-wise definition.
- `Columns`: the column reading order `orden` after its `sort`. It is an insertion sort that compares letters only, and it is proved to be the one stable sort of the key's columns.
- `Rearrange`: joining grid cells, and the multiset facts behind "the transposition only rearranges characters".
- `Transposition`: encryption and decryption as functions on the grid positions, with the permutation and round-trip properties.
- `GridLoops`: the source's nested grid loops as written. `FillRows`/`ReadColumns` cover encryption and `RefillColumns`/`ReadRows` cover decryption; each is proved to compute the `Transposition` functions.
- `Arith`: small facts about multiplication and division used for grid indexing.

Decryption of a ciphertext whose length is not a multiple of the key length is modelled as written. Columns are refilled in reading order until the characters run out, and cells left untouched contribute nothing when the rows are read.

## Model

| member | source | states |
|---|---|---|
| Alphabet.IndexOf | js/cifrados.js:49 | a letter's position is in 0..25 and names that letter; any other character gives -1 |
| Alphabet.IndexOfFindsLetter | js/cifrados.js:41-49 | the arithmetic position agrees with searching the `alfabeto` table: -1 exactly when the character is not in it, otherwise the table holds the character there |
| Alphabet.JsRem | js/cifrados.js:22 | JavaScript's `%`: the remainder lies strictly between -m and m, takes the dividend's sign, and differs from the dividend by a multiple of m |
| Alphabet.Modulo | js/cifrados.js:21-23 | `((n % m) + m) % m` with the truncating `%` is in [0, m) and equals the mathematical residue of n, negative n included |
| Alphabet.ModuloPeriodic | js/cifrados.js:21-23 | adding any whole multiple of m to n leaves `modulo(n, m)` unchanged |
| Alphabet.Shift | js/cifrados.js:54-55 | the shifted character is a letter whose position is `modulo(position + d, 26)` |
| Alphabet.ShiftReadsTable | js/cifrados.js:54-55 | the shift is the table lookup `alfabeto[modulo(indexOf(c) + d, 26)]` |
| Alphabet.ShiftPeriodic | js/cifrados.js:54 | shifts that differ by whole turns of the alphabet give the same letter |
| Alphabet.ShiftInverse | js/cifrados.js:37-39 | shifting by d and then by -d returns the original letter |
| Alphabet.Reflect | js/cifrados.js:255-258 | the mirrored character is a letter at position 25 - p |
| Alphabet.ReflectReadsTable | js/cifrados.js:247-258 | the mirror is the table lookup `reverso[indexOf(c)]` |
| Alphabet.ReflectInvolution | js/cifrados.js:241-242 | mirroring twice gives the letter back |
| Normalizer.Clean | js/cifrados.js:9-13 | same length; every lower-case letter becomes the upper-case letter at the same alphabet position; every other character stays in place; no lower-case letter remains |
| Normalizer.CleanFixesExactlyClean | js/cifrados.js:9-13 | normalising leaves a text unchanged exactly when it has no lower-case letter |
| Normalizer.CleanIdempotent | js/cifrados.js:9-13 | normalising twice equals normalising once |
| Normalizer.LettersOnly | js/cifrados.js:81 | the filter keeps only alphabet letters, as many of each letter as the input has, and its length is the input's letter count |
| Normalizer.LettersOnlyFixesExactlyLetters | js/cifrados.js:81 | the filter leaves a text unchanged exactly when it is letters only |
| Normalizer.LettersOnlyAppend | js/cifrados.js:125 | filtering a concatenation concatenates the filtered pieces (no reordering) |
| Normalizer.CleanLetters | js/cifrados.js:81 | a cleaned key is letters only and has as many characters as the normalised key has letters |
| Normalizer.LettersOnlyCleanOfLetters | js/cifrados.js:184 | cleaning and filtering a letters-only text gives it back |
| Caesar.ShiftText | js/cifrados.js:47-60 | as long as its input; each letter becomes the letter at `modulo(position + d, 26)`; every other character is copied in place |
| Caesar.Caesar | js/cifrados.js:35-63 | output as long as the normalised message; a letter moves by `±shift` modulo 26; any other character is copied in place; output is normalised |
| Caesar.ShiftTextInverse | js/cifrados.js:47-60 | the per-character loop with shift d, then -d, gives the text back |
| Caesar.ShiftTextKeepsClean | js/cifrados.js:47-60 | the loop never produces a lower-case letter |
| Caesar.CaesarRoundTrip | js/cifrados.js:35-63 | decrypting an encryption with the same shift, in either order, yields the normalised message |
| Caesar.CaesarPeriodic | js/cifrados.js:35-63 | any integer shift is valid: shifts differing by multiples of 26 encrypt identically |
| Caesar.CaesarExamples | js/cifrados.js:35-63 | `HELLO`/3 gives `KHOOR` and back; `HI 123!`/1 gives `IJ 123!` |
| Vigenere.KeyShift | js/cifrados.js:93-100 | the shift a key letter contributes never exceeds one turn of the alphabet (-25..25); for a key of letters it is forward when encrypting and backward when decrypting |
| Vigenere.Encode | js/cifrados.js:91-108 | a letter stays a letter and a non-letter is copied |
| Vigenere.KeyIndexStep | js/cifrados.js:107 | the key index advances by one exactly at a letter |
| Vigenere.VigenereText | js/cifrados.js:87-110 | as long as its input; the output has a letter exactly where the input has one; non-letters are copied in place |
| Vigenere.VigenereLoop | js/cifrados.js:85-110 | the loop with its running `indiceClave` produces, at every position, the letter shifted by the key letter at (letters before it) modulo key length |
| Vigenere.Vigenere | js/cifrados.js:75-113 | `KeyError` exactly when the cleaned key has no letters; otherwise output as long as the normalised message, non-letters copied in place, each letter shifted by key letter number (letters before it) mod key length, negated when decrypting |
| Vigenere.KeyIndexKept | js/cifrados.js:85-110 | an output has its letters where its input has them, so both passes use the same key index at every position |
| Vigenere.VigenereTextInverse | js/cifrados.js:85-110 | decrypting with the same key undoes encrypting |
| Vigenere.VigenereTextIsClean | js/cifrados.js:85-110 | a Vigenère output of normalised text is normalised |
| Vigenere.VigenereRoundTrip | js/cifrados.js:75-113 | for a key with letters, decrypting the encryption yields the normalised message |
| Vigenere.VigenereExample | js/cifrados.js:75-113 | `A B` under key `BC` gives `B D`: the space uses no key letter |
| Vigenere.VigenereEmptyKey | js/cifrados.js:81-83 | `HELLO` with an empty key is `KeyError` |
| Atbash.MirrorText | js/cifrados.js:253-262 | as long as its input; the letter at position p becomes the letter at 25 - p; every other character is copied in place |
| Atbash.Atbash | js/cifrados.js:246-265 | output as long as the normalised message; the letter at p becomes the letter at 25 - p; other characters copied; output normalised |
| Atbash.MirrorTextInvolution | js/cifrados.js:253-262 | the per-character loop applied twice gives the text back |
| Atbash.AtbashInvolution | js/cifrados.js:241-265 | Atbash applied twice yields the normalised message (its own inverse) |
| Atbash.AtbashExamples | js/cifrados.js:246-265 | `HELLO` gives `SVOOL`; `az 1!` gives `ZA 1!` |
| Columns.Insert | js/cifrados.js:164 | inserting a column adds exactly that column and keeps every entry a column of the key |
| Columns.InsertSorted | js/cifrados.js:162-164 | inserting a column to the right of all placed columns keeps reading order |
| Columns.SortPrefix | js/cifrados.js:154-164 | sorting the first n columns of the key lists each of the columns 0..n-1 exactly once |
| Columns.ColumnOrder | js/cifrados.js:153-164 | the order lists every column index 0..k-1, each once |
| Columns.ColumnOrderSorted | js/cifrados.js:162-164 | the order is by key letter, equal letters left to right |
| Columns.SortedUnique | js/cifrados.js:162-164 | two arrangements of the same columns both in reading order are equal |
| Columns.ColumnOrderIsStableSort | js/cifrados.js:193-198 | any arrangement of all columns in reading order is `ColumnOrder`, so encryption and decryption derive the identical order |
| Columns.Rank | js/cifrados.js:205-206 | the rank of a column is the position at which the order lists it |
| Columns.ColumnOrderTies | js/cifrados.js:162-164 | equal letters keep their left-to-right order: key `BAB` reads columns 1, 0, 2 and key `AAA` reads 0, 1, 2 |
| Columns.ColumnOrderKey | js/cifrados.js:153-164 | key `KEY` reads columns 1, 0, 2 |
| Rearrange.FlattenRespectsMultiset | js/cifrados.js:214-219 | joining cells that are a rearrangement of each other gives texts with the same characters |
| Rearrange.Reindex | js/cifrados.js:166-173 | a sequence read through an injective position map of the same length is a rearrangement |
| Rearrange.FlattenIndexCells | js/cifrados.js:204-219 | a text split into one-character cells, with empty cells after it, joins back to itself |
| Transposition.Rows | js/cifrados.js:134 | `Math.ceil(n / k)`: the fewest rows whose cells hold n characters |
| Transposition.RowsOfFullGrid | js/cifrados.js:134 | a text filling whole rows needs exactly that many rows |
| Transposition.Padded | js/cifrados.js:139-150 | the grid in row-major order: the message letters, then `X` up to `rows * k` |
| Transposition.EncryptText | js/cifrados.js:166-173 | the ciphertext has one character for every cell of the `ceil(n/k)`-row grid: `ceil(n/k) * k` characters |
| Transposition.EncryptReadsColumns | js/cifrados.js:166-173 | the ciphertext lists column `order[i]` top to bottom as its i-th block of `rows` characters |
| Transposition.EncryptIsPermutation | js/cifrados.js:124-176 | the ciphertext is a rearrangement of the padded letters |
| Transposition.EncryptKeepsLetters | js/cifrados.js:124-176 | a letters-only message encrypts to letters only |
| Transposition.RowSourceAt | js/cifrados.js:204-210 | the ciphertext position refilled into cell (r, j) is rank(j) * rows + r |
| Transposition.DecryptCells | js/cifrados.js:201-212 | the refilled grid has `ceil(n/k) * k` cells, each holding at most one character (`""` where the ciphertext ran out) |
| Transposition.DecryptIsPermutation | js/cifrados.js:183-223 | decryption rearranges the ciphertext letters, short ciphertexts included |
| Transposition.DecryptFullGrid | js/cifrados.js:199-219 | for a full grid, the plaintext's cell (r, j) is the ciphertext character at rank(j) * rows + r |
| Transposition.DecryptEncrypt | js/cifrados.js:124-223 | decrypting a ciphertext gives back the padded grid text |
| Transposition.PaddedFullRows | js/cifrados.js:143-148 | a message filling whole rows gets no `X` |
| Transposition.Encrypt | js/cifrados.js:124-176 | `KeyError` exactly when the key has no letters; otherwise the length is `ceil(n/k) * k` and the characters are the message letters plus the padding `X`s |
| Transposition.EncryptNoLetters | js/cifrados.js:131-141 | a message without letters encrypts to the empty text |
| Transposition.Decrypt | js/cifrados.js:183-223 | `KeyError` exactly when the key has no letters; otherwise the characters are those of the cleaned ciphertext |
| Transposition.Transpose | js/cifrados.js:228-234 | the direction flag selects encryption or decryption, with their error cases and character counts |
| Transposition.TranspositionRoundTrip | js/cifrados.js:124-234 | decrypting the encryption gives the message letters padded with `X` to a multiple of the key length, and exactly the message letters when none are needed |
| Transposition.EncryptExample | js/cifrados.js:124-176 | `HELLO` under key `BA` gives `ELXHLO` |
| Transposition.DecryptExample | js/cifrados.js:183-223 | `ELXHLO` under key `BA` decrypts to `HELLOX` |
| Transposition.DecryptShortExample | js/cifrados.js:199-219 | a three-letter ciphertext under a two-letter key fills column order until it runs out: `ABC` under `BA` gives `CAB` |
| Transposition.EncryptEmptyKey | js/cifrados.js:128 | encryption with an empty key is `KeyError` |
| Transposition.DecryptDigitsKey | js/cifrados.js:185-187 | decryption with the key `123`, which has no letters, is `KeyError` |
| GridLoops.FillRow | js/cifrados.js:142-149 | one row of the fill loop: k cells holding the next message letters, then `X`, with the counter `k` advanced by the letters used |
| GridLoops.FillRows | js/cifrados.js:137-150 | the fill loops build `rows` rows of k cells, cell (r, j) holding message letter r * k + j or `X` |
| GridLoops.ReadColumns | js/cifrados.js:166-173 | reading the filled grid column by column in order produces the encryption |
| GridLoops.ReadColumn | js/cifrados.js:170-172 | reading one column top to bottom yields one character per row, that row's cell in the column |
| GridLoops.EncryptByGrid | js/cifrados.js:124-176 | `cifrarTransposicion` step by step computes `Encrypt` |
| GridLoops.RefillColumn | js/cifrados.js:207-211 | one column's fill loop stores the next ciphertext characters while they last and advances the counter by the cells it filled |
| GridLoops.RefillColumns | js/cifrados.js:200-212 | after all columns, each cell holds its refilled ciphertext character or stays empty |
| GridLoops.ReadRow | js/cifrados.js:217-218 | reading a row joins its cells |
| GridLoops.ReadRows | js/cifrados.js:214-220 | reading the refilled grid row by row produces the decryption |
| GridLoops.DecryptByGrid | js/cifrados.js:183-223 | `descifrarTransposicion` step by step computes `Decrypt` |

## Left out

- The user interface in `js/main.js` (DOM access, tab switching, transitions, input alerts, clipboard) is not part of this model.
- Normalizer.Clean: models `limpiarTexto` on ASCII only. Unicode canonical decomposition, removal of combining marks and full `toUpperCase` are library calls; some of them change a string's length.
- The `localeCompare` comparator is modelled as ordinal comparison of single letters `A`-`Z`, the only characters a cleaned key holds. Ordinal order matches the root and English collations. With no locale argument `localeCompare` uses the host's default collation, and some locales differ: Estonian sorts `Z` between `S` and `T`, and Lithuanian sorts `Y` before `J`. Under those locales the key `ZT` reads its columns in the order 0, 1, where `ColumnOrder` gives 1, 0. The model follows ordinal order by design. The engine's sort is taken to be stable, with ties kept in original index order.
- `Math.ceil` on floating-point numbers is modelled as integer ceiling division. Lengths of realistic texts are far below where a double loses precision.
- Caesar.Caesar: the shift is an unbounded integer, while the source's `desplazamiento` is a JavaScript number, that is, an IEEE double. The sum `indiceActual + desplazamiento` (cifrados.js:54) is exact only while |shift| + 25 <= 2^53. Above that, neighbouring letters can collapse: with shift 2^53, both `A` and `B` encrypt to `G`. With a non-integer or infinite shift (`parseInt` of a 400-digit key gives `Infinity`), `modulo` returns a fraction or `NaN`, `alfabeto[...]` is `undefined`, and every letter becomes the text `undefined`. The model, `CaesarRoundTrip` and `CaesarPeriodic` describe the source only for integer shifts with |shift| + 25 <= 2^53.
- Caesar.CaesarRoundTrip: holds for the source only for integer shifts with |shift| + 25 <= 2^53, for the reason given above.
- Caesar.CaesarPeriodic: holds for the source only while both shifts satisfy |shift| + 25 <= 2^53, for the reason given above.
- The optional `cifrar = true` default (cifrados.js:35, 75, 228) is not modelled: every entry point takes the flag explicitly, and a call without it is the call with `encrypt == true`.
- The error messages' exact wording is replaced by the `KeyError` variant.
- The long Vigenère vector (`ATTACKATDAWN` under `LEMON`) and a twelve-letter transposition example are not stated as lemmas. Unfolding them on literals is costly; shorter examples of the same behaviour are proved instead (`VigenereExample`, `ColumnOrderKey`, `EncryptExample`).
- A message whose last letter is `X` cannot be told apart from padding after a round trip. `TranspositionRoundTrip` states the result with the padding, as the source produces it.
