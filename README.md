# MarkovLM and Chat126 in Dafny

A Dafny model of a character-level Markov language model of order k and of the program that generates text with it.

`MarkovLM` reads its text circularly: the text followed by its own first k characters. At every position of the text it records the k-gram that starts there and the character that follows it. It keeps two symbol tables:
- `kgrams` maps each k-gram to the number of positions where it occurs;
- `chars` maps each k-gram to a 128-slot array counting the ASCII characters that follow it.

On top of these tables the class offers:
- `order`;
- `freq(kgram)` and `freq(kgram, c)`;
- `toString`, which lists the k-grams in ascending order, each with its non-zero followers and their counts;
- `predictNext`, which draws a character with probability proportional to how often it followed the k-gram.

`Chat126` builds a model from a file and writes the file's first k characters. It then takes T - k steps. Each step predicts a character from the last k characters written, writes it, and slides the window on by one.

The project is split into these files:
- `kgrams.dfy` (module `Kgrams`) states on values what the tables must hold:
  - `Scan` is the constructor's loop as a fold over the text's positions; `ScanThrough` is the fold once one more position has been handled.
  - `Build` is the whole fold.
  - `Positions` and `Follows` are independent reference definitions: the sets of positions where a k-gram occurs, and where it is followed by a given character.
  - The lemmas connect the fold to the reference sets.
- `discrete.dfy` (module `Discrete`) is the weighted draw `StdRandom.discrete` in exact arithmetic. Walking the cumulative probabilities `freq[c] / total` against a uniform u is the same as walking the integer prefix sums of the counts against floor(u · total).
- `markov_lm.dfy` (module `Markov`) is the class `MarkovLM`:
  - It has its two tables as fields and a ghost `text`.
  - Its invariant `Valid()` says the tables equal `Build(text, k)`.
  - The constructor's loop, `freq`, `freq(kgram, c)`, `predictNext` and `toString` are members of the class.
- `listing.dfy` (module `Listing`) is the text `toString` produces, as functions.
- `lex_order.dfy` (module `LexOrder`) is `String.compareTo`'s order, plus an in-place sort standing in for `Arrays.sort`.
- `sums.dfy` (module `Sums`) holds sums of rows and of maps.
- `chat126.dfy` (module `Chat`) is the generation loop:
  - `Walk` is a reference function that appends one sampled character per draw.
  - `Generate` is the loop itself, with the language model as a `MarkovLM` object, proved equal to `Walk`.

## Model

| member | source | states |
|---|---|---|
| Markov.MarkovLM.constructor | MarkovLM.java:10-41 | after the loop over every position of the circular text, `kgrams` and the contents of the `chars` arrays are exactly `Build(text, k)`, and every k-gram has its own array (no two k-grams share one) |
| Markov.MarkovLM.NothingCounted | MarkovLM.java:12-14 | the two empty symbol tables are what the loop has computed after no positions |
| Markov.MarkovLM.Count | MarkovLM.java:20-40 | one iteration at position i turns tables holding `Scan(text, k, i)` into tables holding `Scan(text, k, i + 1)`; every k-gram already present keeps its array object, and any array not there before is freshly allocated |
| Markov.MarkovLM.Enter | MarkovLM.java:24-30 | the tables after the check are `Seen(old tables, kgram)`: a k-gram seen for the first time gets count 1 and a new zeroed array, one seen before has its count raised by one; every k-gram already present keeps its array object |
| Markov.MarkovLM.Admit | MarkovLM.java:25-28 | first sight: `kgrams` gains the k-gram with count 1 and `chars` gains a fresh 128-slot array of zeros; every other k-gram keeps its count and its array object |
| Markov.MarkovLM.Bump | MarkovLM.java:33-39 | slot c of the k-gram's array goes up by one and nothing else in either table changes |
| Markov.NewRow | MarkovLM.java:27 | `new int[ASCII]` is a fresh array of 128 zeros |
| Markov.MarkovLM.Order | MarkovLM.java:44-46 | the order is the k the model was built with |
| Markov.Utf16Length | MarkovLM.java:85 | `String.length()` counts UTF-16 code units: never fewer than the characters, and exactly as many when every character is below U+10000 |
| Markov.StoredLength | MarkovLM.java:109-114 | a stored k-gram has k characters, all ASCII, so `String.length()` of it is k too |
| Markov.MarkovLM.Freq | MarkovLM.java:84-91 | a k-gram whose `String.length()` (UTF-16 code units) is not k throws; otherwise the result is the number of positions of the circular text where the k-gram occurs (0 when it never occurs) |
| Markov.MarkovLM.FreqNext | MarkovLM.java:94-103 | c is a Java `char` (0 to 0xFFFF); a k-gram whose UTF-16 length is not k throws; for an ASCII c the result is the number of positions where the k-gram is followed by c; for c of 128 or more the answer is 0 when the k-gram is absent and an index exception when it is present; the answer never exceeds freq(kgram) |
| Markov.MarkovLM.PredictNext | MarkovLM.java:107-125 | throws exactly when the k-gram's UTF-16 length is not k or it does not occur, with the matching exception; otherwise returns `Sample` for the draw, a character that followed the k-gram somewhere in the text |
| Markov.MarkovLM.ToString | MarkovLM.java:49-81 | the result lists the model's k-grams in strictly ascending `compareTo` order, each exactly once, each followed by the line its row of counts gives (`Lines`) |
| Markov.MarkovLM.ListingDeterministic | MarkovLM.java:51-60 | two listings of the same model have the same k-gram order and the same text, whatever order the symbol table yields its keys in |
| Markov.MarkovLM.SortedKgrams | MarkovLM.java:51-60 | the k-grams, gathered and sorted: strictly ascending and holding exactly the keys of `kgrams` |
| Markov.MarkovLM.Gather | MarkovLM.java:51-58 | a fresh array holding each key of `kgrams` exactly once |
| Markov.RenderRow | MarkovLM.java:72-77 | the followers part of a line: for each slot with a non-zero count, in increasing order, the character, a space, its count in decimal and a space |
| Markov.RenderLines | MarkovLM.java:64-79 | for each k-gram in the given order, the k-gram, ": ", its followers and a newline |
| Kgrams.Circular | MarkovLM.java:16-17 | the circular text has length \|text\| + k and position j holds the text's character at j, or at j - \|text\| past the end |
| Kgrams.KgramAt | MarkovLM.java:22 | the k-gram at a position has length k |
| Kgrams.NextAt | MarkovLM.java:36 | the character after the k-gram at position i is the text's character at i + k, wrapping around, and is ASCII |
| Kgrams.Seen | MarkovLM.java:24-30 | the k-gram's count goes up by one (from 0 when absent), and a first-seen k-gram gets a zero row |
| Kgrams.Tally | MarkovLM.java:33-39 | exactly slot c of the k-gram's row goes up by one |
| Kgrams.Record | MarkovLM.java:20-40 | one loop iteration on values keeps the tables well shaped (same keys, 128-slot non-negative rows, positive counts), with the count and row updates written out |
| Kgrams.Scan | MarkovLM.java:19-40 | the tables after any number of iterations are well shaped |
| Kgrams.ScanThrough | MarkovLM.java:20-40 | the tables once position i has been handled too are well shaped |
| Kgrams.Build | MarkovLM.java:10-41 | the tables of the whole text are well shaped, hold one count per position of the text, and are empty exactly when the text is |
| Kgrams.ScanStep | MarkovLM.java:19-40 | one more iteration records position n |
| Kgrams.ScanPositions | MarkovLM.java:19-40 | a k-gram is stored exactly when it occurs, and its count is the number of positions where it occurs |
| Kgrams.ScanFollows | MarkovLM.java:19-40 | every stored k-gram has length k, slot c of its row is the number of positions where it is followed by c, and a k-gram that is not stored is never followed by anything |
| Kgrams.ScanTotal | MarkovLM.java:19-40 | the counts of all k-grams add up to the number of positions handled, so to \|text\| at the end |
| Kgrams.ScanRowSums | MarkovLM.java:19-40 | each k-gram's row of next-character counts adds up to its count, which makes the probabilities predictNext computes sum to 1 |
| Kgrams.RecordTotal | MarkovLM.java:24-30 | one iteration adds exactly one to the sum of all counts |
| Kgrams.RecordRowSum | MarkovLM.java:24-39 | one iteration keeps "a k-gram's row sums to its count" |
| Kgrams.Slide | Chat126.java:23-27 | extending the k-gram at position i by its following character and dropping the first character gives the k-gram at the next position, cyclically |
| Kgrams.SuccessorOccurs | Chat126.java:22-27 | if g was followed by c somewhere, the window after appending c and dropping the first character occurs in the text too |
| Kgrams.SeedOccurs | Chat126.java:14-15 | the first k characters of a non-empty text occur as a k-gram |
| Kgrams.EmptyTextStoresNothing | MarkovLM.java:20 | over an empty text no k-gram occurs |
| Kgrams.OccurringKgramChars | MarkovLM.java:22 | every character of an occurring k-gram is a character of the text |
| Kgrams.Sample | MarkovLM.java:114-124 | the drawn character has followed the k-gram at least once |
| Kgrams.SampleKeepsWindow | Chat126.java:22-27 | after a sampled character, the window slid on by one is again a stored k-gram |
| Kgrams.SampleProportional | MarkovLM.java:105-124 | the counts of a k-gram's row add up to its count, and of those equally likely integer thresholds exactly as many pick c as there are positions where the k-gram is followed by c |
| Kgrams.BananaExample | MarkovLM.java:130-139 | for "banana" and k = 2: freq("an", 'a') = 2, freq("na", 'b') = 1, freq("na", 'a') = 0, freq("na") = 2 |
| Kgrams.BananaOccurrences | MarkovLM.java:130-139 | "na" occurs at positions 2 and 4 of "banana"; "an" is followed by 'a' at 1 and 3 |
| Kgrams.BananaFollowers | MarkovLM.java:130-139 | "na" is followed by 'b' only at position 4, by wrap-around, and never by 'a' |
| Kgrams.BananaLayout | MarkovLM.java:130-131 | the k-grams and following characters of "banana" read circularly as "bananaba" |
| Kgrams.FishExample | MarkovLM.java:154-160 | for "one fish two fish red fish blue fish" and k = 4, "tuna" is not stored, so freq("tuna") = 0 |
| Discrete.Threshold | MarkovLM.java:124 | the integer threshold for draw u lies in [0, total) |
| Discrete.ThresholdIsFloor | MarkovLM.java:124 | the threshold is the floor of u · total |
| Discrete.ThresholdAgrees | MarkovLM.java:119-124 | a cumulative probability cum / total exceeds u exactly when cum exceeds the threshold |
| Discrete.Pick | MarkovLM.java:124 | the selected slot has a positive count, and the threshold lies in its cumulative interval |
| Discrete.PickExactly | MarkovLM.java:124 | a threshold selects slot c if and only if it falls in c's cumulative interval |
| Discrete.PickProportional | MarkovLM.java:119-124 | of the Sum(v) thresholds, exactly v[c] select slot c |
| LexOrder.Sort | MarkovLM.java:60 | the array ends strictly ascending and is a permutation of its old contents |
| LexOrder.Insert | MarkovLM.java:60 | one insertion step extends the ascending prefix by one, as a permutation |
| LexOrder.SwapDown | MarkovLM.java:60 | swapping the sinking element with a larger predecessor keeps the insertion step's invariant, one place lower |
| LexOrder.InsertedInPlace | MarkovLM.java:60 | where the insertion step stops, the prefix up to i is ascending |
| LexOrder.Agree | MarkovLM.java:60 | the longest common prefix: the two strings agree up to it and differ just after it, unless one ends there |
| LexOrder.LessIsCompareTo | MarkovLM.java:60 | the order `Sort` uses is `compareTo`'s: a comes first exactly when the first differing characters say so, or when a is a proper prefix of b |
| LexOrder.LessIrreflexive | MarkovLM.java:60 | no string comes before itself |
| LexOrder.LessTransitive | MarkovLM.java:60 | the order is transitive |
| LexOrder.LessTotal | MarkovLM.java:60 | of two different strings one comes first |
| LexOrder.SortedUnique | MarkovLM.java:55-60 | two ascending sequences with the same elements are equal |
| Listing.Decimal | MarkovLM.java:75 | a count's decimal numeral is a non-empty string of digits, without a leading zero unless the count is 0 |
| Listing.DecimalRoundTrip | MarkovLM.java:75 | reading the numeral back gives the count |
| Listing.Nonzero | MarkovLM.java:72-73 | the listed slots are below the bound |
| Listing.NonzeroMembers | MarkovLM.java:72-73 | a slot is listed if and only if its count is not zero |
| Listing.NonzeroAscending | MarkovLM.java:72 | the listed slots are strictly increasing |
| Listing.NonzeroEmpty | MarkovLM.java:72-73 | nothing is listed exactly when every count is zero |
| Listing.Follower | MarkovLM.java:74-75 | the part for c starts with c and a space, ends with a space, and in between holds digits that read back as c's count |
| Listing.FollowersShape | MarkovLM.java:72-77 | the followers part is empty exactly when no slot is listed; otherwise it starts with the first listed character and ends with a space, with at least four characters per slot |
| Listing.RowStep | MarkovLM.java:72-77 | looking at one more slot appends its character and count exactly when its count is not zero |
| Listing.Line | MarkovLM.java:65-78 | a line starts with the k-gram and ": " and ends with a newline; it is exactly the k-gram, ": " and a newline when every count is zero |
| Listing.LinesShape | MarkovLM.java:62-80 | the listing is empty exactly when there are no k-grams; otherwise it starts with the first k-gram and ": ", and ends with a newline |
| Listing.LinesStep | MarkovLM.java:64-79 | listing one more k-gram appends exactly its line |
| Chat.Wrapped | Chat126.java:20 | Java `int` arithmetic: the result is an int, equals x when x is one, and is x + 2^32 when x is below the least int by at most 2^32 |
| Chat.WrappedCongruent | Chat126.java:20 | the wrapped value equals x modulo 2^32 |
| Chat.Steps | Chat126.java:7-20 | the loop runs T - k times when T > k and not at all when T <= k; when T - k overflows below -2^31 it wraps, and the loop runs T - k + 2^32 times |
| Chat.StepsWrap | Chat126.java:20 | with T = -2^31 and k = 1 the loop runs 2^31 - 1 times |
| Chat.Walk | Chat126.java:13-28 | a walk that succeeds has k + (number of draws) characters and starts with the seed; the only failure is predictNext's unknown-k-gram exception |
| Chat.WalkDefined | Chat126.java:20-28 | from a seed that occurs in the text the walk never fails, and its last window occurs too |
| Chat.WalkStuck | Chat126.java:22 | from a seed that never occurs, the first prediction throws |
| Chat.WalkStuckAfter | Chat126.java:20-28 | once the walk has thrown, further draws do not bring it back |
| Chat.WalkFollows | Chat126.java:20-28 | every character written after the seed followed the k characters before it somewhere in the circular text |
| Chat.WalkStep | Chat126.java:20-27 | one more draw after a window that occurs appends the sample for it |
| Chat.WalkStepStuck | Chat126.java:20-22 | one more draw after a window that does not occur throws predictNext's unknown-k-gram exception |
| Chat.FeasibleAppend | Chat126.java:22-23 | appending a character that followed the last k characters keeps every written character a possible follower |
| Chat.WalkStuckNext | Chat126.java:20-22 | a window of the loop that does not occur makes that step throw |
| Chat.WalkStuckWithin | Chat126.java:20-28 | a walk that throws within its first n draws throws for all n |
| Chat.WalkStuckAt | Chat126.java:20-22 | a window of the loop that does not occur stops the whole run with the unknown-k-gram exception |
| Chat.WalkAdvance | Chat126.java:22-27 | a window that occurs: appending the prediction extends the walk by one step, keeps the text ASCII, and the window slides on by one |
| Chat.AsciiAppend | Chat126.java:23 | appending an ASCII character keeps a text ASCII |
| Chat.AsciiSuffix | Chat126.java:22 | the window of an ASCII text has a UTF-16 length equal to its number of characters |
| Chat.SlideWindow | Chat126.java:23-27 | appending and then deleting the first character moves the window on by one position |
| Chat.Generated | Chat126.java:13-28 | what the program writes: the walk from the file's first k characters over `Steps(T, k)` draws; on success it has k + `Steps(T, k)` characters and starts with that seed, and the only failure is the unknown-k-gram exception |
| Chat.GeneratedText | Chat126.java:10-28 | generation fails exactly when the file is empty and the loop runs at least once, with the unknown-k-gram exception; otherwise the output has k + `Steps(T, k)` characters, starts with the file's first k, and every later character followed the k before it in the file |
| Chat.Generate | Chat126.java:10-28 | the loop over `MarkovLM.predictNext` writes exactly `Generated`: the seed followed by one sampled character per step, or the exception that stops it |

## Edge cases

What the code does at the edges of its input:
- **Empty text and k = 0.** The constructor accepts k = 0, and an empty text with k = 0. Such a model stores nothing (`EmptyTextStoresNothing`). Generation from it then throws at the first prediction unless the loop does not run (`GeneratedText`).
- **T <= k.** The loop does not run, and the program writes only the k-character seed (`Steps`, `GeneratedText`).
- **T - k below the least int.** `T - k` is computed in Java `int` arithmetic and wraps around. With T = -2^31 and k = 1 the loop runs 2^31 - 1 times (`Steps`, `StepsWrap`).
- **Non-ASCII characters.** Nothing checks for them. A character of code 128 or more in the text makes `temp[character]` at MarkovLM.java:38 throw `ArrayIndexOutOfBoundsException` inside the loop. The model's constructor requires an ASCII text (see below).
- **`freq(kgram, c)` with c ≥ 128.** It returns 0 for an absent k-gram and throws for a present one. `FreqNext` models both.
- **Length of a k-gram.** `String.length()` counts UTF-16 code units, so a character beyond U+FFFF counts twice (`Utf16Length`). A stored k-gram is ASCII, and its length is k (`StoredLength`).

## Left out

- **Input and output.** `StdIn.readAll`, `StdOut` and the parsing of `args` are left out. `Generate` takes the file, k and T as parameters and returns the text written, without the final newline of `StdOut.println`.
- **Randomness.** `StdRandom.uniform` becomes a parameter: one draw u in [0, 1) per prediction.
- **Floating point.** The probabilities `freq[c] / total` and their cumulative sums are taken as exact real numbers. `StdRandom.discrete`'s re-draw when rounding leaves the sum short of u never happens in exact arithmetic. Its check that the probabilities sum to 1 is proved, as `ScanRowSums`, instead of executed.
- **`ST`.** The symbol-table class is not part of this model: its tables are Dafny maps. The order in which `kgrams.keys()` yields the keys is left open: `Gather` picks them in any order, and `ListingDeterministic` shows the result does not depend on it.
- **`Arrays.sort`.** The library sort is not part of this model. `LexOrder.Sort`, an insertion sort, stands in for it; only its result matters (ascending and a permutation).
- Markov.MarkovLM.constructor: requires k ≤ \|text\| and a text of ASCII characters; the exceptions otherwise are not modelled. With k > \|text\|, `text.substring(0, k)` at MarkovLM.java:17 throws `StringIndexOutOfBoundsException` before the loop starts. A character of code 128 or more makes `temp[character]` at MarkovLM.java:38 throw `ArrayIndexOutOfBoundsException` inside the loop. A negative k is excluded by its type.
- Chat.Generate: requires the same of the file, T and k within the range of a Java `int`, and one draw for each of the `Steps(T, k)` steps.
- **Java `int` overflow of the counts.** The counts in `kgrams` and `chars` are unbounded integers. No count exceeds the length of the text, and a Java `String` holds at most 2^31 - 1 characters, so none overflows. The overflow of `T - k` is modelled (`Wrapped`, `Steps`).
- **Lone surrogates.** A Dafny `char` is a Unicode scalar value, so a Java `String` holding an unpaired UTF-16 surrogate cannot be written as a Dafny string. A surrogate's code is 128 or more, so a text holding one makes the Java constructor throw at MarkovLM.java:38, and a k-gram holding one is never stored. The model covers neither case.
- **The statistical checks of the test harness.** The 100 calls to `predictNext` that estimate a frequency are replaced by `SampleProportional` and `PickProportional`, which state the exact proportions.
- **Partial output before an exception.** `Generate` returns the exception alone. When it happens, the only text written before it is the seed, which is empty.
