# Spellcheck in Dafny

This is a model of the core of `Spellcheck.java`, a dictionary spell checker. It proves properties about that model.

The core has four parts:

- A fixed-size hash table of `M = 28669` slots with separate chaining. It has the `HashTable` operations `getHashVal`, `compressHash`, `addWord`, `readWords` and `lookup`, the probe and lookup counters, and `dictLength`.
- The `checkWord` rule cascade. After an exact lookup misses, the surface form of the word picks at most one rule family, and its rewrites are looked up in turn until one is found:
  - in lower case, when it starts with a capital (one more lookup);
  - without a possessive `'s`, an `es` or an `s` (one more lookup);
  - without `ed`/`er`, and then without the final `d`/`r` (up to two more lookups);
  - without `ing`, and then with an `e` in place of the `ing` (up to two more lookups);
  - without `ly` (one more lookup).

  A word no family matches gets no further lookup: `xyzzy`, for example, or a word whose second-to-last letter is `e` and whose last letter is not `s`, `d` or `r`. A word that no lookup finds is counted as misspelled.
- The character scanner inside `checkText`. It splits free text into the words handed to `checkWord`. The function `Tokenizer.Words` defines that segmentation independently of the loops: each pass goes to the next letter, takes the longest stretch of letters and apostrophes from there, and resumes after the character that ends it.
- Loading the dictionary. `readWords` is `addWord` folded over the dictionary words.

The modules follow the program's structure:

| module | file | models |
|---|---|---|
| `Chars` | `chars.dfy` | ASCII letter tests, `toLowerCase`, and the letters of a string |
| `Hashing` | `hashing.dfy` | `getHashVal`: a 64-bit wrapping fold, read as a signed long, then Java's truncating `%` |
| `Table` | `table.dfy` | the table, `addWord`, `readWords`, `lookup` and the counters |
| `Morphology` | `morphology.dfy` | `checkWord` and the misspelled tally |
| `Tokenizer` | `tokenizer.dfy` | the two scanning loops of `checkText` |
| `Spellcheck` | `spellcheck.dfy` | `checkText`, dictionary loading, and worked examples |

Modelling choices:

- **Table values.** The table is an immutable value, and each operation returns the new table. The `Word` linked chains are sequences of keys in insertion order. A chain's head is element 0, and each `next` is the following element.
- **The hash.** The accumulator is a `bv64`, so multiplication and shifts wrap as Java's `long` does. `ToSigned` reads the accumulator as a two's-complement value. `JavaRem` is Java's remainder: it truncates toward zero and keeps the dividend's sign. So `HashVal` lies strictly between `-86969` and `86969`, and it is negative for many words: the sign follows the signed accumulator.
- **Compression.** `compressHash` is floating-point arithmetic on the golden ratio. It is modelled as a parameter of the table, the field `compress`, which is applied to `HashVal(word)`.
  - All the model assumes is that `compress` maps every integer into `[0, M)`.
  - For `|hash| < 86969`, `frac` is a double strictly below 1 by far more than the rounding error of `M * frac`. So the source's index stays below `M`, including for negative hash values.
- **Counters.** `totalProbes`, `totalLookups`, `dictLength`, the misspelled tally and the word count are unbounded naturals.
- **Output.** Printing a misspelled word is modelled by its effect, which is one more on the misspelled tally.
- **Characters.** Letters are the ASCII letters. `toLowerCase` maps only `A`–`Z`.
- **Definitions used by the contracts.** These are predicates, so they have no contracts of their own:
  - `Chars.IsUpper` and `Chars.IsLetter` stand for `Character.isUpperCase` and `Character.isLetter` (`src/Spellcheck.java:94`, `103`, `137`), restricted to ASCII;
  - `Table.Contains` says a word is a key of the chain in its own slot, which is the chain `lookup` searches (`src/Spellcheck.java:315-337`);
  - `Table.Valid` is the invariant `addWord` keeps (`src/Spellcheck.java:274-288`): every key sits in the slot its word compresses to, and `dictLength` counts every key.

Details of the code the model keeps as written:

- `getHashVal` can return a negative value, and `compressHash` uses it as it is, with no normalisation to a non-negative hash first. The model does the same. Its only assumption is the range of `compress`.
- The comment at `src/Spellcheck.java:92` says the first loop eats punctuation "until next letter or apostrophe". The loop at line 94 stops only at a letter, so it skips apostrophes too. As a result, a leading apostrophe is dropped: `'tis` is checked as `tis` (`Tokenizer.LeadingApostropheScenario`).
- When the text ends while the scanner is still skipping and the last character is an apostrophe, the word loop collects that apostrophe. A lone `'` is then checked as a word. `Tokenizer.Scan` includes this case, and `Tokenizer.NextWord` and `Tokenizer.Tokenize` also state it through the predicate `StartsRight` (`Tokenizer.TrailingApostropheScenario`).

## Model

| member | source | states |
|---|---|---|
| Hashing.ToSigned | src/Spellcheck.java:246-252 | reading the 64-bit accumulator as a Java long gives a value in [-2^63, 2^63) that is congruent to the accumulator modulo 2^64 |
| Hashing.JavaDiv | src/Spellcheck.java:252 | Java's truncating long division for a positive divisor: the remainder it leaves is in [0, divisor) for a non-negative dividend and in (-divisor, 0] for a negative one |
| Hashing.JavaRem | src/Spellcheck.java:252 | Java's long `%` for a positive divisor: the result is strictly between minus the divisor and the divisor, never has the opposite sign of the dividend, and the truncating quotient times the divisor plus it is the dividend |
| Hashing.HashVal | src/Spellcheck.java:241-253 | the hash of a word lies in (-86969, 86969), never has the opposite sign of the signed accumulator (so it can be negative), and is the accumulator minus a truncated multiple of 86969 |
| Hashing.GetHashVal | src/Spellcheck.java:241-253 | the character loop computes the left fold of the step over the word, so its result is HashVal(word) and lies in (-86969, 86969) |
| Hashing.Step | src/Spellcheck.java:249 | one step of the loop, `((hash * A) ^ (c * B)) << 5` on 64 bits, always leaves the low five bits zero |
| Hashing.Accumulate | src/Spellcheck.java:246-250 | the accumulator after the loop over a non-empty word has its low five bits zero |
| Hashing.HashOfEmptyWord | src/Spellcheck.java:245-252 | the empty word hashes to the seed 37 |
| Hashing.AccumulateA | src/Spellcheck.java:248-250 | after the word "a" the accumulator is 233676416 |
| Hashing.StepA | src/Spellcheck.java:249 | one step from the seed over 'a' gives ((37*54059) ^ (97*76963)) << 5 = 233676416 |
| Hashing.HashOfA | src/Spellcheck.java:241-253 | the word "a" hashes to 77682 |
| Table.Slot | src/Spellcheck.java:262-266 | the slot of a word is an index of the M-slot array |
| Table.Empty | src/Spellcheck.java:224-229 | a new table is valid and has M empty slots, holds no word, uses the given compression function, and has all counters at zero |
| Table.AddWord | src/Spellcheck.java:274-288 | the word is appended at the end of its own slot's chain; every other slot and both probe and lookup counters are untouched; dictLength grows by one |
| Table.AddWordValid | src/Spellcheck.java:274-288 | adding a word keeps every key in the slot it hashes to and dictLength equal to the number of stored keys |
| Table.AddWordContains | src/Spellcheck.java:274-288 | after adding w the table holds x exactly when it held x before or x is w |
| Table.ReadWords | src/Spellcheck.java:296-300 | loading words in order appends, to each slot, the words that hash there in reading order; dictLength grows by the number of words; the table then holds exactly its old keys and the words read |
| Table.ReadWordsValid | src/Spellcheck.java:296-300 | loading any sequence of words keeps the table invariant |
| Table.WalkChain | src/Spellcheck.java:327-337 | the chain walk after the head finds w exactly when w is further down the chain; on a hit the probes counted reach the first occurrence; on a miss they count every remaining node |
| Table.Lookup | src/Spellcheck.java:310-340 | lookup counts one lookup and changes nothing else but the probe counter; it answers true exactly when the word is in its slot's chain; an empty slot costs one probe, a hit costs the position of the first occurrence, a miss costs the chain length |
| Table.LookupAfterAddWord | src/Spellcheck.java:274-340 | a word just added is found by lookup |
| Table.LookupRepeatable | src/Spellcheck.java:310-340 | looking the same word up twice gives the same answer and the same number of probes both times |
| Morphology.CheckWord | src/Spellcheck.java:131-191 | checkWord leaves the keys untouched, makes between one and three lookups and adds zero or one to the misspelled tally |
| Morphology.Fallback | src/Spellcheck.java:137-185 | the else-if cascade after a failed exact lookup leaves the keys untouched and makes at most two lookups |
| Morphology.FollowUps | src/Spellcheck.java:137-185 | each rule family tries at most two rewrites |
| Morphology.TryInOrder | src/Spellcheck.java:137-185 | trying rewrites in turn finds one exactly when some rewrite is present; a hit after n lookups is on the n-th rewrite with none before it present; a miss looks every rewrite up |
| Morphology.CheckWordFollowsRules | src/Spellcheck.java:131-191 | checkWord is the exact lookup and then the rule table tried in order, and a total miss adds one misspelled word |
| Morphology.FallbackFollowsRules | src/Spellcheck.java:137-185 | the else-if cascade makes the same lookups in the same order as trying the rule table's rewrites in turn |
| Morphology.PluralFollowsRules | src/Spellcheck.java:141-157 | for a lower-case word ending in 's', the cascade tries the word without "'s", "es" or "s" as the rule table says |
| Morphology.ETailFollowsRules | src/Spellcheck.java:158-169 | for a lower-case word with 'e' second to last, the cascade agrees with the rule table, including trying nothing when the last letter is not 'd' or 'r' |
| Morphology.EdErFollowsRules | src/Spellcheck.java:159-168 | for "-ed"/"-er" the cascade tries the word without two letters, then without one letter |
| Morphology.SuffixFollowsRules | src/Spellcheck.java:170-185 | for the "ing" and "ly" rules, and for words no rule matches, the cascade agrees with the rule table |
| Morphology.CheckWordEffect | src/Spellcheck.java:131-191 | a word in the table costs one lookup and no misspelling; at most one lookup per rewrite follows the exact one; the tally grows by one exactly when neither the word nor any rewrite is present |
| Morphology.CapitalisedWordTriesOnlyLowerCase | src/Spellcheck.java:137-140 | a capitalised word is accepted exactly when it or its lower-case form is present, with one or two lookups |
| Morphology.PluralTriesWithoutS | src/Spellcheck.java:152-157 | a lower-case word in plain 's' is accepted exactly when it or its lower-cased form without the 's' is present |
| Morphology.ETailWithoutDOrRTriesNothingElse | src/Spellcheck.java:158-169 | a lower-case word with 'e' second to last and a last letter other than 's', 'd' or 'r' gets exactly one lookup |
| Morphology.EdErTriesTwoThenOne | src/Spellcheck.java:158-168 | an unknown "-ed"/"-er" word looks up the stem without two letters, then without one, stopping at the first hit |
| Morphology.IngTriesStemThenStemE | src/Spellcheck.java:170-179 | an unknown "-ing" word looks up the stem, then the stem plus "e", stopping at the first hit |
| Tokenizer.SkipToLetter | src/Spellcheck.java:92-99 | the skip loop stops at the first letter, or at the last character of the text, having passed no letter |
| Tokenizer.CollectWord | src/Spellcheck.java:101-109 | the word loop collects the run of letters and apostrophes at the current character and also consumes the character that ends the run |
| Tokenizer.NextLetter | src/Spellcheck.java:92-99 | the next letter at or after a position is a letter, or the end of the text |
| Tokenizer.RunEnd | src/Spellcheck.java:101-109 | the stretch of letters and apostrophes from a position ends at a character that is neither, or at the end of the text |
| Tokenizer.NextWord | src/Spellcheck.java:91-116 | one pass of the outer loop yields exactly the word and resume point of `Scan`: the longest stretch of letters and apostrophes at the next letter, resuming past the character that ends it; it consumes exactly that word's letters; a non-empty word starts with a letter, unless it is a lone apostrophe ending the text |
| Tokenizer.Tokenize | src/Spellcheck.java:88-116 | the words passed to checkWord are exactly `Words(text)`, in order; they are non-empty strings of letters and apostrophes; together they hold exactly the letters of the text, in order; each starts with a letter, except possibly a final lone apostrophe |
| Tokenizer.TwoWordsScenario | src/Spellcheck.java:91-109 | "cat dog" splits into "cat" and "dog" |
| Tokenizer.ContractionScenario | src/Spellcheck.java:101-109 | an apostrophe inside a word is kept: "don't" is one word |
| Tokenizer.LeadingApostropheScenario | src/Spellcheck.java:92-99 | the skip loop passes over a leading apostrophe: "'tis" yields "tis" |
| Tokenizer.TrailingApostropheScenario | src/Spellcheck.java:92-109 | an apostrophe that ends the text after a space is collected as a word of its own: "a '" yields "a" and "'" |
| Spellcheck.CheckAll | src/Spellcheck.java:111-115 | checking words in order leaves the keys untouched, costs one to three lookups per word, and adds exactly the number of rejected words to the tally |
| Spellcheck.CheckText | src/Spellcheck.java:74-121 | checkText checks exactly `Words(text)`, in order: its count is the number of those words and its session is the one `CheckAll` gives for them; it leaves the keys untouched, costs one to three lookups per word counted, adds at most one misspelling per word, and counts a word whenever the text has a letter |
| Spellcheck.RejectedAtMost | src/Spellcheck.java:111-115 | no more words are rejected than are checked |
| Spellcheck.LoadDictionary | src/Spellcheck.java:296-300 | a fresh table loaded with a dictionary is valid, has dictLength equal to the number of words, and holds exactly those words |
| Spellcheck.LoadedTableHolds | src/Spellcheck.java:296-300 | a freshly loaded table holds exactly its dictionary |
| Spellcheck.CatsScenario | src/Spellcheck.java:152-157 | with dictionary {cat, dog}, "cats" is accepted after two lookups |
| Spellcheck.BakedScenario | src/Spellcheck.java:158-168 | with dictionary {bake}, "baked" is accepted after three lookups, having tried "bak" first |
| Spellcheck.CapitalisedScenario | src/Spellcheck.java:137-140 | with dictionary {dog}, "Dog" is accepted after two lookups |
| Spellcheck.CapitalisedPluralScenario | src/Spellcheck.java:137-140 | with dictionary {cat}, "Cats" is reported misspelled, because a capitalised word never reaches the plural rule |
| Spellcheck.UnknownWordScenario | src/Spellcheck.java:131-191 | "xyzzy" matches no rule, so a dictionary without it costs one lookup and reports it |
| Chars.ToLower | src/Spellcheck.java:133 | lower-casing keeps the length of the word |
| Chars.LowerChar | src/Spellcheck.java:133 | lower-casing maps 'A'..'Z' to 'a'..'z', leaves every other character alone, and keeps letters letters |
| Chars.ToLowerNoUpper | src/Spellcheck.java:133 | a word with no capital is its own lower-case form |
| Chars.ToLowerCapitalised | src/Spellcheck.java:133 | lower-casing a word whose only capital is its first letter changes that letter alone |

## Left out

- `compressHash` is not modelled. Its golden-ratio arithmetic is floating point, so the table takes it as a function parameter, constrained only to map into `[0, M)`.
- The `Word` heap nodes and their `next` links are not modelled. Each chain is a sequence, and aliasing plays no part.
- The counters are unbounded, and the model does not include their wrap-around. `totalProbes`, `totalLookups` and the word count of `checkText` are Java `long`s, which wrap past 2^63 - 1. `dictLength` and the static `misspelled` tally (`src/Spellcheck.java:17`) are `int`s, which wrap past 2^31 - 1.
- Character handling is ASCII only. `Character.isLetter`, `isUpperCase` and `toLowerCase` are limited to ASCII. Java `char`s are UTF-16 units, and text beyond ASCII is not modelled.
- File and console I/O are left out: `main`, `usage`, opening the files, the `Scanner` over the dictionary, printing misspelled words and the final report with its averages. The dictionary arrives as a sequence of words and the text as a string.
- The `Scanner` whitespace splitting in `readWords` is not modelled. `readWords` takes the words already split.
- Chars.ToLower: only its length is stated in its contract. The position-by-position mapping is in the lemmas `Chars.ToLowerAt`, `Chars.ToLowerNoUpper` and `Chars.ToLowerCapitalised`.
- Morphology.FollowUps: its contract states only the bound on the number of rewrites. What the rewrites are is given by `Morphology.FallbackFollowsRules`, which matches them against the source's cascade.
- Morphology.Fallback: its contract gives only the key and lookup bounds. Which rewrites it tries, and in what order, is stated by `Morphology.FallbackFollowsRules`.
