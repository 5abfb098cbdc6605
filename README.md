# Markov text generator, modelled in Dafny

This project models the `Markov` class of a first-order Markov text generator. The
class fills a table: each word maps to the list of words seen right after it. The
table is filled one line at a time. Each line is trimmed and split on whitespace,
and every word goes to the list of the word before it. The first word of a
sentence goes to the list of the sentinel key `"__$"` instead. A word ends a
sentence when its last character is one of `.`, `!`, `?`, `$`. The class then
produces a sentence by a random walk: it starts from the sentinel's list and stops
at the first sentence-ending word.

Modules:

- `Wrappers` (wrappers.dfy): `Option` and `Result` for the values Java signals by
  an exception.
- `SeqFacts` (wrappers.dfy): generic sequence and map identities used by the
  proofs.
- `JavaString` (java_string.dfy): the `String` operations the class relies on.
  - `substring(begin)` and `contains`.
  - `trim()` followed by `split("\\s+")`.
  - The space-separated concatenation built by `sentence += " " + word`.
- `MarkovSpec` (markov_spec.dfy): the table as a value.
  - `Observe` is one `addWord`, `IngestAll` is a run of them, and
    `EndsWithPunctuation` is the classifier.
  - The table invariant and the closed form of every list (`Followers`).
  - The total number of entries, and what a generated sentence is (`IsWalk`).
- `Markov` (markov.dfy): the class.
  - Fields `words: map<string, seq<string>>` and `prevWord`, updated in place.
  - A ghost field `observed` holds every word fed so far. `Valid()` ties the fields
    to `IngestAll(Initial, observed)`.
  - `AddWord`, `AddLine`, `RandomWord` and `GetSentence` are methods proved
    against `MarkovSpec`.
- `MarkovScenarios` (scenarios.dfy): worked examples.
  - The line `"The cat sat. The dog ran!"` fed to a new generator.
  - The blank line and the empty line.
  - A generator fed the single line `"Hi."`, which can only ever produce `"Hi."`.

Two edge cases follow the code as written:

- `endsWithPunctuation("")` is true. `"".substring(-1)` throws, the handler leaves
  `endOfString` as `""`, and every string contains `""`. So the empty string counts
  as sentence-ending (`IsSentenceEnd`).
- A non-empty line made only of whitespace trims to `""`. `"".split("\\s+")` gives
  `[""]`, so `addLine` feeds the empty word once (`TrimSplit`, `BlankLine`).

## Model

| member | source | states |
|---|---|---|
| JavaString.Substring | src/Markov.java:131 | `substring(begin)` succeeds exactly when 0 <= begin <= length; the result is the suffix, so the string is its prefix followed by the result |
| JavaString.ContainsEmpty | src/Markov.java:137 | every string contains the empty string |
| JavaString.ContainsChar | src/Markov.java:137 | a one-character string is contained exactly when that character occurs |
| JavaString.Trim | src/Markov.java:67 | `trim()` is empty iff every character is at most U+0020; otherwise its first and last characters are kept ones; it is the middle of the string, with only trimmable characters cut from either side |
| JavaString.Contains | src/Markov.java:137 | `hay.contains(needle)`: needle occurs at some index of hay (a definition, no contract) |
| JavaString.Runs | src/Markov.java:67 | every run is non-empty and free of `\s`; a string that starts with a non-space character has at least one run; where the cuts fall is stated by RunsSqueeze |
| JavaString.RunsSqueeze | src/Markov.java:67 | for every string, its runs joined by single spaces are the string with each maximal `\s` run made one space and the end runs dropped (`Squeeze`, defined character by character); so the cuts are exactly the maximal `\s` runs |
| JavaString.SqueezeRuns | src/Markov.java:67 | a string and its squeezed form have the same runs |
| JavaString.RunsFlatten | src/Markov.java:67 | the runs, concatenated, are the string with its `\s` characters removed |
| JavaString.TrimSplit | src/Markov.java:67 | `line.trim().split("\\s+")` is never empty, and is `[""]` exactly for an all-trimmable line; otherwise its tokens are non-empty and free of `\s`, they concatenate to the trimmed line without its spaces, and joined by single spaces they are the trimmed line squeezed |
| JavaString.TrimSplitUnique | src/Markov.java:67 | for a line that is not blank, the split is the only list of non-empty `\s`-free tokens that, joined by single spaces, gives the trimmed line squeezed |
| JavaString.RunsJoin | src/Markov.java:67 | splitting words joined by single spaces gives the words back, when the words are non-empty and free of `\s` |
| JavaString.TrimSplitJoin | src/Markov.java:67 | trim and split of words joined by spaces gives the words back, when no word holds a trimmable character |
| JavaString.Join | src/Markov.java:105-108 | the accumulated `sentence`: the first word, then " " and each later word (a definition, no contract) |
| JavaString.JoinSnoc | src/Markov.java:105-108 | `sentence += " " + currentWord` extends the joined words by one word |
| MarkovSpec.EndsWithPunctuation | src/Markov.java:128-138 | Java's steps (substring of the last character, `""` where that throws, then `contains`) are true exactly for the empty text or a text whose last character is one of `.!?$` |
| MarkovSpec.SentinelAndEmptyEnd | src/Markov.java:20-21 | the sentinel `"__$"` and the empty string are both sentence-ending |
| MarkovSpec.InitialInv | src/Markov.java:30-34 | the initial table (only the sentinel key, with an empty list) satisfies the table invariant |
| MarkovSpec.Observe | src/Markov.java:77-97 | addWord keeps the sentinel key and makes the word the previous word |
| MarkovSpec.ObserveWords | src/Markov.java:83-95 | addWord appends the word to the list of its routing key (the sentinel after a sentence-ending word, else the previous word), creating it if absent |
| MarkovSpec.ObserveBucket | src/Markov.java:83-96 | after addWord, every list except the routing key's is unchanged, that one gains the word at its end, and the only key that can appear is the routing key |
| MarkovSpec.ObserveInv | src/Markov.java:83-96 | addWord preserves the table invariant: the sentinel is a key, every other key has a non-empty list and does not end a sentence, and every entry can be continued from |
| MarkovSpec.Slot | src/Markov.java:83-94 | the key a word is recorded under: the sentinel after a sentence-ending previous word, else the previous word (a definition, no contract) |
| MarkovSpec.IngestAll | src/Markov.java:68-70 | feeding a sequence of words keeps the sentinel key |
| MarkovSpec.LineWords | src/Markov.java:66-67 | the words addLine feeds: none exactly for a zero-length line, and the single empty word exactly for a non-empty line of trimmable characters |
| MarkovSpec.IngestAllAppend | src/Markov.java:68-70 | feeding a + b is feeding a, then b |
| MarkovSpec.IngestAllSnoc | src/Markov.java:68-70 | feeding ws + [w] is feeding ws, then one addWord(w) |
| MarkovSpec.IngestAllInv | src/Markov.java:77-97 | any sequence of addWord calls preserves the table invariant |
| MarkovSpec.IngestAllPrevWord | src/Markov.java:96 | after feeding words the previous word is the last of them, or unchanged if there were none |
| MarkovSpec.InvClosed | src/Markov.java:83-96 | once the last word fed ends a sentence, every entry of every list either ends a sentence or is a key with a non-empty list |
| MarkovSpec.Followers | src/Markov.java:83-95 | the words recorded under a key number at most the words fed |
| MarkovSpec.FollowersMember | src/Markov.java:83-95 | a word is recorded under key k exactly when it occurs at a position whose preceding word (the sentinel for the first) routes to k |
| MarkovSpec.IngestAllBucket | src/Markov.java:83-95 | feeding words appends to each key's list exactly that key's followers among them, in order |
| MarkovSpec.IngestAllKeys | src/Markov.java:91-93 | a key is present after feeding exactly when it was present before or gained a follower |
| MarkovSpec.IngestAllGrows | src/Markov.java:77-97 | no key is ever removed and every old list is a prefix of its new list |
| MarkovSpec.TotalLengthAppend | src/Markov.java:84 | appending one word to one list raises the total number of entries by one |
| MarkovSpec.ObserveTotal | src/Markov.java:77-97 | one addWord adds exactly one entry to the table |
| MarkovSpec.IngestAllTotal | src/Markov.java:68-70 | feeding n words adds exactly n entries |
| MarkovSpec.Ingested | src/Markov.java:30-97 | a new table fed ws satisfies the invariant, has the last word of ws as previous word, and holds exactly \|ws\| entries |
| MarkovSpec.IngestedBuckets | src/Markov.java:30-97 | in a new table fed ws, the list under each key is exactly the followers of that key in ws |
| MarkovSpec.IngestedClosed | src/Markov.java:30-97 | a corpus that is empty or whose last word ends a sentence gives a closed table |
| MarkovSpec.LinkedSnoc | src/Markov.java:106-108 | a walk extended by an entry of the current word's list is still a walk through the table |
| MarkovSpec.NoneEndsSnoc | src/Markov.java:106 | a walk extended past a non-ending word still has no sentence-ending word before its last |
| MarkovSpec.ClosedContinues | src/Markov.java:106-107 | in a closed table, the word a walk stands on, if it does not end the sentence, is a key with a non-empty list |
| MarkovSpec.OneWordWalks | src/Markov.java:104-110 | when the sentinel's list holds only sentence-ending words, every generated sentence is one word from that list |
| Markov.Stuck | src/Markov.java:118-120 | a fault names the word the walk stands on, which has no list (`words.get` is null) or an empty one (`nextInt(0)`) (a definition, no contract) |
| Markov.NeverStuck | src/Markov.java:117-121 | in a closed table with a non-empty sentinel list, a walk is never stuck on a missing or empty list |
| Markov.Markov.ValidFacts | src/Markov.java:23-24 | a valid generator satisfies the invariant, its previous word is the last word fed, it has one entry per word fed, and each list is in closed form |
| Markov.Markov.Settled | src/Markov.java:103-121 | a generator fed at least one word, the last of them sentence-ending, has a closed table with a non-empty sentinel list |
| Markov.Markov.constructor | src/Markov.java:30-34 | the only key is the sentinel, its list is empty, and the previous word is the sentinel |
| Markov.Markov.AddWord | src/Markov.java:77-97 | after a sentence-ending previous word the word is appended to the sentinel's list, otherwise to the previous word's list (created if absent); every other key is unchanged and the word becomes the previous word |
| Markov.Markov.AddLine | src/Markov.java:65-72 | a zero-length line changes nothing; otherwise the tokens of trim and split are fed to addWord once each, left to right |
| Markov.Markov.RandomWord | src/Markov.java:117-122 | a null list (NullPointer) and an empty list (IllegalArgument) fault, naming the word; otherwise the result is an entry of the word's list |
| Markov.Markov.GetSentence | src/Markov.java:103-111 | on success: the path is a walk from the sentinel through the table, ending at the first sentence-ending word, and the sentence is its words joined by single spaces; on a fault: the path so far, and the word it is stuck on has no list or an empty one |
| MarkovScenarios.TwoSentences | src/Markov.java:77-97 | the words of "The cat sat. The dog ran!" give sentinel → [The, The], The → [cat, dog], cat → [sat.], dog → [ran!] |
| MarkovScenarios.SampleLineWords | src/Markov.java:67 | the line "The cat sat. The dog ran!" splits into its six words |
| MarkovScenarios.SampleKeys | src/Markov.java:83-95 | in that table "sat." and "ran!" are not keys |
| MarkovScenarios.SampleLine | src/Markov.java:30-97 | a new generator fed that line holds exactly that table |
| MarkovScenarios.BlankLine | src/Markov.java:66-67 | a line of whitespace feeds the single empty word, which ends a sentence |
| MarkovScenarios.TabbedLine | src/Markov.java:67 | in "a \t b" the run of a space, a tab and a space is one separator: the tokens are a and b |
| MarkovScenarios.EmptyLine | src/Markov.java:66 | a zero-length line feeds nothing |
| MarkovScenarios.HiTable | src/Markov.java:65-97 | the line "Hi." puts "Hi." in the sentinel's list and nothing else |
| MarkovScenarios.HiWalks | src/Markov.java:104-110 | in that table the only walk is the one word "Hi." |
| MarkovScenarios.OneSentenceCorpus | src/Markov.java:30-122 | a generator fed "Hi." produces "Hi." whatever the random choices and the step bound |

## Left out

- `addFromFile` (src/Markov.java:46-59) is not modelled: it is file and `Scanner` I/O with console error output. Its effect is a sequence of `AddLine` calls.
- `toString` (src/Markov.java:143-145) is not modelled: it prints a `HashMap` in an unspecified order.
- `getWords` (src/Markov.java:39-41) is not modelled as a member: the `words` field is public to the proofs.
- The `System.out.println` in the classifier's handler (src/Markov.java:135) is left out; it is logging only.
- `java.util.Random` is not modelled. `RandomWord` chooses the index with `:|`, so every proved property holds for every choice the random source could make.
- GetSentence: Java's loop has no bound and may run forever on a table with a cycle. The model takes a step bound `maxSteps` and fails with `StepLimitExceeded` after that many steps. A sentence within the bound is exactly what Java returns for the same choices.
- GetSentence: the exceptions Java throws (a null dereference on a missing list, an `IllegalArgumentException` from `nextInt(0)`) are returned as `Failure` values rather than thrown.
- AddWord, AddLine: Java's `HashMap` and `ArrayList` are mutable objects. `getWords` (src/Markov.java:39-41) hands out the live table, so a caller in the package could change the map or its lists behind the class's back. The model holds the table as a value field (`map` to `seq`), so that aliasing is not modelled.
- The model's characters are Dafny `char`s. Java strings are UTF-16, so a surrogate pair at the end of a word is not modelled.
- `String.trim()` is modelled as stripping characters up to U+0020, and `\s` as space and U+0009 to U+000D. These are Java's classes for these two calls. `split` is modelled only as it is used here, after `trim()`, so its behaviour on leading separators is not needed.

