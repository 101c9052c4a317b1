# Vigenère cipher and key-length estimation, modelled in Dafny

This project models `main.py` of a small Vigenère-cipher tool. It covers these parts:

- **Letter normalisation.** `remap_letter` lower-cases one character. Accented vowels and `ç` become their base letter.
- **The cipher.** `cipher` and `decipher` build a key stream: the lower-cased key, repeated and cut to the message length. Letters are shifted forward or back by the key-stream letter at the same absolute position. Every other character is copied.
- **Key-length estimation.** `find_key_length` first counts coincidences for each offset of the ciphertext. `noise_peak_finding` then smooths that signal with a clamped moving average and scans for peaks above the smoothed floor. The estimate is the rounded mean distance between consecutive peaks.

Modules, one per part of the program:

| file | module | models |
|---|---|---|
| `options.dfy` | `Options` | Python's `None` / value |
| `arith.dfy` | `Arithmetic` | `sum`, `math.ceil(a / b)`, `round(a / b)` on integers, and division facts |
| `letters.dfy` | `Letters` | `remap_letter` and `str.lower` |
| `cipher.dfy` | `Vigenere` | `cipher`, `decipher`, the key stream |
| `smoothing.dfy` | `Smoothing` | the moving-average floor of `noise_peak_finding` and its loops |
| `peaks.dfy` | `Peaks` | the peak scan of `noise_peak_finding`, and `noise_peak_finding` itself |
| `keylength.dfy` | `KeyLength` | the coincidence loops and the estimate of `find_key_length` |

Each loop of the program is a method. Each method is proved equal to a specification function: `Ciphered`, `Deciphered`, `Coincidences`, `Smoothed`, `PeakIndices` or `KeyLengthEstimate`. The properties are lemmas about those functions.

Where the code and the usual description of the algorithm disagree, the model follows the code:

- **The coincidence count.** The entry for offset `i` counts the positions `j < n - i` where `message[j] == message[i]`. It is not the Kasiski pair count `message[j] == message[j + i]`. `KeyLength.CoincidencesAreNotPairCounts` shows the difference on `"abab"`.
- **The dead guard.** The inner loop's `continue` guard tests that a character is both outside and inside `a..z`, so it never holds. The model keeps the branch and proves it dead with `assert false`.
- **Rounding.** The estimate uses Python's `round`, which rounds half to even.

## Model

| member | source | states |
|---|---|---|
| `Letters.Lower` | main.py:201-204 | the lower-case form is in `a..z` exactly for `a..z`, `A..Z` and the Kelvin sign; `A..Z` move up by 32; characters without a modelled lower-case form are kept |
| `Letters.RemapLetter` | main.py:171-204 | `a..z` are unchanged, `A..Z` map to their lower-case letter, each table key maps to its base letter, and the result is in `a..z` exactly when the lowered input is in `a..z` or is a table key |
| `Letters.RemapTable` | main.py:172-198 | every table key, and its capital, maps to the base letter the table lists; the Angstrom sign maps to `a` and the Kelvin sign to `k` |
| `Letters.RemapKey` | main.py:172-204 | a table key and its capital both remap to the key's base letter |
| `Letters.RemapSigns` | main.py:201-202 | the Angstrom sign remaps to `a` through the key `å`, and the Kelvin sign to `k` |
| `Letters.RemapLetterIsLetter` | main.py:200-204 | the characters that become a letter `a..z` are exactly the ASCII letters, the table keys, their capitals and the two letter-like signs |
| `Vigenere.LowerString` | main.py:71 | `key.lower()` keeps the key's length and lowers each character by `Letters.Lower`; `KeyStream` states the resulting stream |
| `Vigenere.Repeat` | main.py:71 | `s * t`; `RepeatIndex` states its length and every position |
| `Vigenere.RepeatIndex` | main.py:71 | `s * t` has length `\|s\| * t`, and position `i` holds `s[i mod \|s\|]` |
| `Vigenere.KeyStream` | main.py:71-72 | the key stream has the message's length, and position `i` holds the lowered key character `i mod \|key\|`, at every position, letter or not |
| `Vigenere.CipherAt` | main.py:79-89 | a character that does not remap to `a..z` is copied; otherwise the result is in `a..z`, at offset `(plain + key) mod 26` |
| `Vigenere.DecipherAt` | main.py:101-109 | a character outside `a..z` (upper case included) is copied; with a key letter `a..z` the single `+26` correction gives a letter `a..z` at offset `(cipher - key) mod 26`; `chr` can fail only for a key-stream character above U+00DC |
| `Vigenere.Ciphered` | main.py:70-91 | the ciphertext has the length of the message |
| `Vigenere.Deciphered` | main.py:93-111 | a plaintext, when there is one, has the length of the ciphertext |
| `Vigenere.Cipher` | main.py:70-91 | the loop returns `Ciphered`: same length; a character that does not remap to `a..z` is copied; any other character becomes the letter at offset `(remapped + lowered key[i mod \|key\|]) mod 26` |
| `Vigenere.Decipher` | main.py:93-111 | the loop returns `Deciphered`; characters outside `a..z` are copied; with a letter key it never fails, and each letter becomes the one at offset `(cipher - key[i mod \|key\|]) mod 26` |
| `Vigenere.CharRoundTrip` | main.py:79-109 | with a key letter `a..z`, deciphering a ciphered character gives its remapped letter, or the character itself when that is not a letter |
| `Vigenere.RoundTrip` | main.py:70-111 | with a letter key, `decipher(k, cipher(k, m))` succeeds, and position `i` holds `remap_letter(m[i])` when that is in `a..z`, else `m[i]` |
| `Vigenere.RoundTripIdentity` | main.py:70-111 | with a letter key, the round trip is the identity on messages made of `a..z` and characters that do not remap to a letter |
| `Vigenere.KeyStreamPeriodic` | main.py:71-89 | equal plaintext characters one key length apart give equal ciphertext characters |
| `Vigenere.LemonExample` | main.py:70-111 | key `"lemon"` turns `"attackatdawn"` into `"lxfopvefrnhr"`, and back |
| `Vigenere.SpacesKeptExample` | main.py:81-84 | for any key, the spaces at positions 3, 9 and 15 of `"the quick brown fox"` stay spaces |
| `Arithmetic.Sum` | main.py:147 | `sum` of a list of integers; `DistancesTelescope` gives the sum of the distances, `SumBounds` bounds any sum by its least and largest entries |
| `Arithmetic.CeilDiv` | main.py:214 | `ceil(a / b)` is the least `q` with `a <= b * q` |
| `Arithmetic.RoundHalfEven` | main.py:147 | `round(a / b)` lies within half a unit of `a / b`, and is even on a tie |
| `KeyLength.CountInIsSetSize` | main.py:123-130 | the running counter equals the number of matching positions, and is at most the number scanned |
| `KeyLength.CountIn` | main.py:123-130 | the counter after `m` steps of the inner loop; `CountInIsSetSize` equates it with the number of matching positions, at most `m` |
| `KeyLength.Coincidences` | main.py:121-131 | the signal has `n - 1` entries, none for `n <= 1` |
| `KeyLength.CoincidencesCount` | main.py:124-130 | the entry for offset `i` is the number of `j < n - i` with `message[j] == message[i]`, so it lies in `[0, n - i]` |
| `KeyLength.CountCoincidences` | main.py:121-131 | the nested loops return `Coincidences`, with every entry in `[0, n - i]`; the `continue` guard never fires |
| `KeyLength.CoincidencesAreNotPairCounts` | main.py:129 | on `"abab"` at offset 2 the entry is 1, while two pairs at distance 2 are equal |
| `KeyLength.Distances` | main.py:137 | there is one distance fewer than peaks |
| `KeyLength.DistancesTelescope` | main.py:137-147 | the distances sum to the last peak minus the first |
| `KeyLength.DistancesPositive` | main.py:137 | strictly increasing peaks are at least 1 apart |
| `KeyLength.KeyLengthEstimate` | main.py:136-147 | the estimate from the peak list; `EstimateProperties` states that it is None exactly below 2 peaks and otherwise the round-half-even mean gap, at least 1 |
| `KeyLength.EstimateProperties` | main.py:136-147 | the estimate is None exactly when there are fewer than 2 peaks; otherwise it is `round((last - first) / (count - 1))`, half to even, and at least 1 |
| `KeyLength.FindKeyLength` | main.py:120-147 | the method returns the estimate of the peaks of the smoothed coincidence signal, and any estimate is at least 1 |
| `Smoothing.Window` | main.py:219-229 | every window satisfies `0 <= begin <= i < end <= len`; it has at most `window_size` entries, and exactly that many in the interior |
| `Smoothing.WindowAverage` | main.py:231 | `ceil(sum(window) / len(window))` of the entry's window; `SmoothedWithinWindow` states that it is the ceiling mean of a non-empty window holding the entry, and `WindowAverageBounds` that it lies between that window's minimum and maximum |
| `Smoothing.WindowAverageBounds` | main.py:219-231 | the average of an entry's window lies between the least and the largest value in that window |
| `Smoothing.Smoothed` | main.py:208-232 | the smoothed signal has the length of the input |
| `Smoothing.CeilMeanBounds` | main.py:231 | the ceiling of a mean lies between the least and the largest value averaged |
| `Smoothing.SmoothedFlat` | main.py:213-216 | a signal shorter than the window gives equal entries, each `ceil(sum / len)`, between the signal's minimum and maximum |
| `Smoothing.SmoothedWithinWindow` | main.py:217-232 | with the window fitting, entry `i` is the ceiling of the mean of a non-empty window holding `i`, and lies between that window's minimum and maximum |
| `Peaks.Step` | main.py:238-245 | one iteration of the scan; `PeakIndicesProperties` and `PeaksCoverEveryRun` state what the iterations together produce |
| `Peaks.ScanTo` | main.py:237-245 | the closed peaks and the open run after a prefix of the scan; `ScanInvHolds` and `CoverInvHolds` state their invariants at every prefix |
| `Peaks.PeakIndices` | main.py:234-249 | the scan followed by the final flush; `PeakIndicesProperties` and `PeaksCoverEveryRun` characterise it: strictly increasing in-range peaks, each the first maximum of its run, every above-floor entry in some peak's run |
| `Peaks.PeakIndicesProperties` | main.py:234-249 | peak indices are strictly increasing and in `[0, len)`; each is above its floor and is the first maximum of its run (strict `>`); consecutive peaks lie in different runs |
| `Peaks.PeaksCoverEveryRun` | main.py:237-247 | every entry above its floor lies in the run of some peak, so each run yields exactly one peak |
| `Peaks.NoPeaksWithoutExcess` | main.py:237-249 | if no entry exceeds its smoothed value, there are no peaks |
| `Smoothing.Smooth` | main.py:208-232 | the smoothing loops return `Smoothed` |
| `Peaks.ExtractPeaks` | main.py:234-249 | the scan loop, with its `peak_index` / `peak_value` state, returns `PeakIndices` |
| `Peaks.NoisePeakFinding` | main.py:207-249 | returns the peaks of the signal over its smoothed floor, strictly increasing and within the signal |

## Left out

- `main` (main.py:150-169) is left out: argument parsing, reading standard input, printing and `exit(1)` are I/O.
- `letter_frequency_per_language` and `scalar_product` are left out. They are floating-point tables and a dot product that nothing calls.
- The `frequency_counts` dictionary in `find_key_length` is left out. It is built but never read, so it does not change the result.
- Letters.Lower: lowers ASCII capitals, the Latin-1 capitals (À to Þ without ×), Ĩ, Ũ, Ẽ, the Kelvin sign and the Angstrom sign. Every other character keeps its own code point, although Python lowers many more (Ā, Ÿ, ẞ, Greek and Cyrillic capitals). In a message this changes nothing: such a character lowers neither to `a..z` nor to a table key, so `remap_letter` yields no letter and `cipher` copies it in both.
- Vigenere.KeyStream: a key character whose Python lower-case form is not modelled by `Letters.Lower` keeps its own code point in the key stream. The shift uses the code point of the key-stream character, so `Ciphered` then gives a different letter than `cipher`. `Deciphered` gives a different letter too, or `None` where `decipher` returns a character (key `"ẞ"` on `"z"`). Keys that satisfy `IsLetterKey`, whose characters all lower to `a..z`, are not affected, and every round-trip lemma assumes such a key.
- Vigenere.KeyStream: a key character whose lower-case form is two characters (İ) is lowered to one character.
- Arithmetic.CeilDiv, Arithmetic.RoundHalfEven: `ceil(sum / len)` and `round(sum / len)` are computed exactly on integers. Python computes the quotient as a float. The two agree while sums stay below 2^53.
- Vigenere.Cipher, Vigenere.Decipher: an empty key is a precondition. The source divides by `len(key)`, which raises.
- Vigenere.Decipher: the `ValueError` that `chr` raises for a negative code point is the result `None`.
- Smoothing.Smoothed, Peaks.NoisePeakFinding, KeyLength.FindKeyLength: the inputs on which the source divides by zero are excluded by a precondition. Those are an empty signal with a positive window, and a non-empty signal with a window below 1.
- Peaks.ExtractPeaks: `noise_peak_finding` is one function. The model splits it into `Smooth` and `ExtractPeaks`, and `NoisePeakFinding` calls both in order. `ExtractPeaks` requires signal and floor of equal length, which the source guarantees by building the floor itself.
- Peaks.ExtractPeaks: the two variables `peak_index` and `peak_value` are one `Run` value. The source always sets both to `None` together, or both to a value together.
