# Letter Boxed solver, modelled in Dafny

`unbox` solves Letter Boxed puzzles. A puzzle has four sides of three letters
each. A word can be traced on the box when each letter is on some side and no
two consecutive letters are on the same side. An answer is a chain of such
words in which each word starts with the last letter of the word before it,
and together the words use every letter of the box.

The program reads a dictionary file and keeps the lines that `validate`
accepts and that have at least three letters. On boards whose sides share no
letter, `validate` accepts exactly the words that can be traced. It files them into 26 buckets by first letter.
Then it searches from every kept word. Its comments promise an answer of at
most `max_words` words ("Maximum word count of answer.", line 14; "word
strings of length at most max_words", line 68). As written, the search
explores chains of at most max(1, `max_words` - 1) words. It prints two words:
the start word of the first chain that covers the box and the last word of
that chain.

The model follows `unbox/src/main.rs` module by module:

- `Puzzle` models the check on a command-line side (`side_validator`) and the
  four sides as letter sets. It also models `validate`: an imperative method
  with the source's two nested scans and its sentinel side 4, proved equal to
  a recursive specification `ValidWord`. On a board whose sides share no
  letter, `ValidWord` is shown to be exactly the rule of the game. The
  source's unit test becomes four lemmas about the same board.
- `Dictionary` models the index build in `main` as a method that fills a
  `map<char, seq<string>>`. It is proved against `Bucket`, a function that
  filters the dictionary lines in file order.
- `Fold` models `shorter_word_string` and the `fold(None, shorter_word_string)`
  over candidates. It proves that, among answers of equal length, the fold
  keeps the first one.
- `Search` models `word_strings_recurse` and the top-level fold exactly as
  written. The iteration order of `HashMap::keys` is not specified, so it is a
  parameter: any sequence that lists every key once.
- `SearchFixed` is the search that the comments at lines 14 and 68 describe.
  Each level keeps its own word, and the whole `max_words` budget is used. It
  is proved sound and minimal. With `max_words` it answers exactly when the
  search as written answers with `max_words + 1`
  (`SearchFixed.SolveChainAgrees`).
- `Findings` holds two legal inputs on which the two searches differ. The
  sides pass `side_validator` and every dictionary word is kept. The index is
  whatever `BuildIndex` returns, and the key order is arbitrary.

The code does less than its comments and argument help say, and the model
follows the code:

- `side_validator` checks each side on its own. Line 18 asks for "four
  arguments of 3 unique letters each", so two sides may share a letter.
  `validate` always takes the lowest side that holds a letter. When two sides
  share a letter, that choice can change the verdict:
  - `Puzzle.GreedyChoiceMatters` shows a word that can be traced by another
    choice of sides but is rejected.
  - `Puzzle.OverlapAllowsDoubledLetter` shows an accepted word with a doubled
    letter.
  On every board an accepted word can still be traced
  (`Puzzle.ValidWordHasRoute`), and on sides that share no letter the choice
  does not matter (`Puzzle.ValidWordIffTraceable`).
- `max_words` is documented as the "Maximum word count of answer" (line 14),
  and line 68 promises word strings of length at most `max_words`. As
  written, every answer has two words: the start word and the word that
  completed the cover. `shorter_word_string` never sees two lengths, so the
  folds keep the first success in bucket and key order
  (`Search.SolveKeepsFirstSuccess`). Among candidates of different lengths the
  fold returns the earliest shortest one (`Fold.FoldShorterEarliest`).
- `HashMap::keys` has no fixed order, so the model takes the order as a
  parameter. It proves that the order does not decide whether an answer
  exists (`Search.KeyOrderDoesNotDecideExistence`). Which answer comes back
  is not fixed by the model.

## Model

| member | source | states |
|---|---|---|
| Puzzle.SideCheck | unbox/src/main.rs:25-31 | a side passes exactly when it has three characters that are pairwise distinct; a failure carries the source's message |
| Puzzle.ThreeLetters | unbox/src/main.rs:26-27 | a three-character side collects to a set of three letters exactly when its characters are pairwise distinct |
| Puzzle.MakePuzzle | unbox/src/main.rs:38-44 | side i of the puzzle is the set of letters of the i-th argument |
| Puzzle.CheckedSidesHaveThreeLetters | unbox/src/main.rs:38-44 | four sides accepted by the side check give a puzzle whose every side holds three letters |
| Puzzle.AllLetters | unbox/src/main.rs:69-71 | the union of the sides: a letter is in it exactly when some side holds it |
| Puzzle.FirstSideFrom | unbox/src/main.rs:107-112 | the scan from a given side returns the lowest side at or after it, other than the skipped one, that holds the letter, or 4 when there is none |
| Puzzle.FirstSide | unbox/src/main.rs:120-130 | the side picked for a letter is the lowest side other than the last one that holds it; 4 exactly when no other side holds it |
| Puzzle.Validate | unbox/src/main.rs:101-137 | the imperative scan with `break`, `continue` and the early `return false` answers exactly `ValidWord` |
| Puzzle.ValidWordOnPuzzle | unbox/src/main.rs:101-137 | every letter of an accepted word is on the puzzle |
| Puzzle.GreedyOnPuzzle | unbox/src/main.rs:118-135 | every letter that the greedy scan of the rest of a word accepts is on the puzzle |
| Puzzle.SideOfDisjoint | unbox/src/main.rs:107-130 | on sides sharing no letter, a letter has a side exactly when it is on the puzzle, and skipping a side only removes that one side |
| Puzzle.ValidWordIffTraceable | unbox/src/main.rs:101-137 | on sides sharing no letter, `validate` accepts exactly the words whose letters are all on the box with no two neighbours on one side |
| Puzzle.GreedyTraceable | unbox/src/main.rs:118-135 | the induction behind the equivalence: the greedy scan from the side of the previous letter accepts the rest exactly when the whole word is traceable |
| Puzzle.NoDoubledLetter | unbox/src/main.rs:120-124 | on sides sharing no letter, an accepted word never has the same letter twice in a row |
| Puzzle.OverlapAllowsDoubledLetter | unbox/src/main.rs:120-130 | when a letter is on two sides (which the side check allows), "aa" is accepted |
| Puzzle.GreedyRouteIsRoute | unbox/src/main.rs:117-135 | when the scan accepts the rest of a word, the sides it picks put each letter on a side holding it, no two neighbours on one side, and the first pick differs from the previous letter's side |
| Puzzle.ValidWordHasRoute | unbox/src/main.rs:117-135 | on every board, sides sharing letters included, a word `validate` accepts can be traced: each letter on a side and on a different side than the letter before |
| Puzzle.GreedyChoiceMatters | unbox/src/main.rs:107-130 | with overlapping sides, a word that can be traced by another choice of sides is rejected, because the scan always takes the lowest side |
| Puzzle.FixtureSides | unbox/src/main.rs:197-202 | the test puzzle is the four sides uoa, qtl, ein and ysm |
| Puzzle.FixtureAcceptsMelony | unbox/src/main.rs:203 | "melony" is accepted on the test puzzle |
| Puzzle.FixtureAcceptsYeast | unbox/src/main.rs:204 | "yeast" is accepted on the test puzzle |
| Puzzle.FixtureAcceptsTequila | unbox/src/main.rs:205 | "tequila" is accepted on the test puzzle |
| Puzzle.FixtureRejectsQuinoa | unbox/src/main.rs:206 | "quinoa" is rejected on the test puzzle |
| Dictionary.BuildIndex | unbox/src/main.rs:52-66 | the map has exactly the keys 'a'..'z', and each bucket is the filtered lines of the dictionary that start with its letter, in file order |
| Dictionary.BucketMembers | unbox/src/main.rs:59-66 | a word is in the bucket of c exactly when it is a dictionary line that is accepted, has at least three letters and starts with c |
| Dictionary.BucketAppend | unbox/src/main.rs:59-66 | the buckets of a dictionary read in two parts are the buckets of the parts, concatenated: the scan appends in order |
| Dictionary.BuiltIndexIsLinked | unbox/src/main.rs:61-63 | every word in the built index is non-empty, starts with its key, is accepted, and ends with a letter that is a key, so the lookups at lines 63 and 168 succeed |
| Fold.Shorter | unbox/src/main.rs:183-188 | the result is always present: the new word string when there was none, otherwise the shorter of the two, the old one on a tie |
| Fold.FoldShorter | unbox/src/main.rs:170-180 | the fold returns the accumulator or one of the candidates, no longer than any present candidate or the accumulator, and nothing exactly when nothing is present |
| Fold.EqualLengthsKeepFirst | unbox/src/main.rs:183-188 | when all present candidates have one length, the fold returns the first present one (reference definition `FirstSome`) |
| Fold.FoldShorterKeepsShortest | unbox/src/main.rs:183-188 | a held word string that no candidate is strictly shorter than survives the whole fold |
| Fold.FoldShorterEarliest | unbox/src/main.rs:183-188 | when every candidate before position i is strictly longer, none after it is shorter and the accumulator is absent or longer, the fold returns the candidate at i: the earliest shortest one |
| Fold.FirstSomeIsEarliest | unbox/src/main.rs:183-188 | the reference definition returns the candidate at the lowest index that is present, and nothing when none is |
| Search.NextMissing | unbox/src/main.rs:145-152 | the loop that removes the last letter and then every other letter leaves the missing letters minus the letters of the word |
| Search.Extend | unbox/src/main.rs:139-181 | `word_strings_recurse`: an answer, when there is one, is a single word |
| Search.Continuations | unbox/src/main.rs:170-179 | the recursive calls for every word of the bucket, one answer per word, each of one word |
| Search.StartCandidates | unbox/src/main.rs:82-88 | each start word that succeeds with budget `max_words - 1` gives the pair of the start word and the single word returned |
| Search.KeyCandidates | unbox/src/main.rs:75-90 | one best pair per key; each pair starts with a word of that key's bucket and is the result of the search from that word |
| Search.Solve | unbox/src/main.rs:73-91 | an answer has two words: a start word from some bucket and the word the search from it returned with budget `max_words - 1` |
| Search.CoveringWordSucceeds | unbox/src/main.rs:154-158 | a word that covers every missing letter is returned alone, whatever the budget |
| Search.ExtendKeepsFirstSuccess | unbox/src/main.rs:170-180 | the recursive case returns the first word of the bucket whose search succeeds |
| Search.ExtendWitness | unbox/src/main.rs:139-181 | an answer stands for a real chain from the word that covers the missing letters in at most max(1, budget) words and ends with the returned word |
| Search.ExtendStep | unbox/src/main.rs:166-180 | an answer that needs more than the word itself is the answer of one word of the bucket of its last letter, with one word less of budget |
| Search.ExtendComplete | unbox/src/main.rs:139-181 | conversely, any chain from the word covering the missing letters in at most max(1, budget) words makes the search succeed |
| Search.SolveKeepsFirstSuccess | unbox/src/main.rs:75-91 | since every candidate has two words, both folds keep the first success in key and bucket order |
| Search.SingleWordAnswerRepeats | unbox/src/main.rs:83-87 | when the start word alone covers the box, the answer prints that word twice |
| Search.SolveSomeIff | unbox/src/main.rs:73-91 | there is an answer exactly when some word of some bucket succeeds with budget `max_words - 1` |
| Search.KeyOrderDoesNotDecideExistence | unbox/src/main.rs:75-77 | whether an answer exists does not depend on the order of `HashMap::keys` |
| Search.SolveWitness | unbox/src/main.rs:73-91 | an answer stands for a chain from its first word that covers the box in at most max(1, `max_words` - 1) words and ends with its second word |
| Search.SolveComplete | unbox/src/main.rs:73-91 | a chain from a bucket word that covers the box in at most max(1, `max_words` - 1) words guarantees an answer |
| SearchFixed.ExtendChain | unbox/src/main.rs:154-180 | the search with the current word kept: an answer is a chain from the word covering the missing letters in at most max(1, budget) words |
| SearchFixed.ChainContinuations | unbox/src/main.rs:170-180 | one corrected answer per bucket word, each a covering chain from that word within the budget; the top level uses it for the start words with the whole `max_words` budget |
| SearchFixed.KeyChains | unbox/src/main.rs:75-90 | one best chain per key, starting in that key's bucket |
| SearchFixed.SolveChain | unbox/src/main.rs:73-91 | an answer is a chain starting in some bucket that covers the box in at most max(1, `max_words`) words |
| SearchFixed.ExtendChainShortest | unbox/src/main.rs:139-181 | when any covering chain from the word fits the budget, the corrected search succeeds with a chain no longer than it |
| SearchFixed.SolveChainShortest | unbox/src/main.rs:73-91 | when any covering chain of at most `max_words` words starts in a bucket, the corrected answer exists and is no longer than it |
| SearchFixed.ExtendChainAgrees | unbox/src/main.rs:139-181 | with the same budget, the corrected search from a word succeeds exactly when the search as written does |
| SearchFixed.SolveChainAgrees | unbox/src/main.rs:73-91 | the corrected search with `max_words` answers exactly when the search as written answers with `max_words + 1`: the top level as written loses one word of budget |
| Findings.OnlyStart | unbox/src/main.rs:73-91 | when exactly one start word can succeed with budget `max_words - 1`, the answer is that word and the word it found |
| Findings.NoStart | unbox/src/main.rs:73-91 | when no start word can succeed with budget `max_words - 1`, there is no answer |
| Findings.DroppedWordExample | unbox/src/main.rs:170-180 | sides abc, def, ghi, jkl pass the side check, and the words adgj, jbehk, kcfil are all kept. With that index and `max_words` 4, the search as written answers ["adgj", "kcfil"], which is not a chain, while the corrected search answers with a chain |
| Findings.DroppedWordRun | unbox/src/main.rs:52-91 | `main` on that input, index built by `BuildIndex`, keys in any order: the answer is ["adgj", "kcfil"], and the corrected search finds one |
| Findings.BudgetExample | unbox/src/main.rs:83 | on the same sides, with the words adgjbehk and kcfil, the two-word chain adgjbehk, kcfil covers the box. With `max_words` 2 the search as written finds nothing, with `max_words` 3 it finds an answer, and the corrected search finds a chain of at most two words with `max_words` 2 |
| Findings.BudgetRun | unbox/src/main.rs:52-91 | `main` on that input, index built by `BuildIndex`, keys in any order: there is no answer, and the corrected search finds one of at most two words |

## Left out

- Command-line parsing (clap) is not modelled. The four sides and `max_words` are parameters, and `Puzzle.MakePuzzle` requires exactly four sides, which clap enforces (line 21).
- Reading the dictionary file is not modelled, and neither is the split into lines. The lines are a parameter of `Dictionary.BuildIndex`.
- Printing the answer (lines 93-96) is not modelled. `Search.Solve` returns the value that is printed.
- `Set64` and `HashMap` are modelled as a Dafny `set` and `map`. Their internal layout, capacity and hashing are not modelled. The order of `HashMap::keys` is the parameter `keys`.
- Search.Solve: does not model the `i8` type of `max_words`. `max_words - 1` and `remaining_words - 1` wrap or panic only near -128, and the model uses unbounded integers.
- Puzzle.SideCheck: counts characters where the source's `side.len()` counts bytes. The two agree on ASCII sides; a side with a multi-byte letter is not modelled.
- Dictionary.BuildIndex: counts characters where the source's `word.len() >= 3` counts bytes. The two agree on ASCII words.
- Puzzle.Validate: requires a non-empty word, because the source panics on one (`unwrap` at line 104).
- Dictionary.BuildIndex: requires every line to be non-empty, because an empty line panics inside `validate`. It also requires the puzzle letters to be 'a'..'z', because a kept word starting with another letter panics at line 63.
- Search.Extend: requires every word to end with a letter that is a key, because the lookup at line 168 unwraps. `Dictionary.BuiltIndexIsLinked` shows that the built index meets this.
- The `Puzzle` type is any four letter sets. Three letters per side is proved from the side check (`Puzzle.CheckedSidesHaveThreeLetters`) rather than built into the type.

## Findings

| source | as written | input that shows it | evidently intended | confidence | as-written member | corrected member |
|---|---|---|---|---|---|---|
| unbox/src/main.rs:170-180 | the recursive case returns the child's answer without putting the current word in front, so every answer of `word_strings_recurse` is one word and `main` prints only the start word and the last word | sides abc, def, ghi, jkl; dictionary adgj, jbehk, kcfil; `max_words` 4; any key order: the answer is ["adgj", "kcfil"], and "kcfil" does not start with "j", the last letter of "adgj" | each level puts its own word in front of the best continuation, so the answer is the whole chain | high (proved on the model, not executed) | Findings.DroppedWordExample | SearchFixed.ExtendChain |
| unbox/src/main.rs:83 | the first call gets `max_words - 1`, and line 162 stops when `remaining_words - 1 <= 0`, so chains of `max_words` words are never explored | sides abc, def, ghi, jkl; dictionary adgjbehk, kcfil; `max_words` 2; any key order: the chain adgjbehk, kcfil covers the box in two words, but there is no answer | chains of up to `max_words` words are found | high (proved on the model, not executed) | Findings.BudgetExample | SearchFixed.SolveChain |
