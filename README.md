# Rust Book exercises, modelled in Dafny

This project models the single-threaded exercises of a collection of
Rust Book solutions and proves what each one promises:

- the **employee directory**: a map from department to a list of names, with
  add, remove and sorted queries, plus the parser for commands such as
  "Add Sally to Engineering";
- the **Pig Latin translator**: vowel-first words get "-hay", consonant
  clusters (with "qu" taken together) move to the end, capitalisation is
  kept, and punctuation splits a word into separately translated runs;
- the **minigrep library**: `Config::build` with its exact error messages
  and flag rule, and the case-sensitive and case-insensitive line searches;
- the **statistics** exercise: `median` (sorts the caller's vector in
  place, then takes the middle) and `mode` (every value tied at the highest
  count, ascending);
- the **shirt giveaway** (`Factory::most_stocked`, `Factory::giveaway`);
- the two **operator overloads** of the advanced-trait exercise;
- the **workspace crates** `add_one` and `add_two`;
- the **Fibonacci** term loop with its `u32` arithmetic;
- the **Twelve Days of Christmas** verse generator;
- **`split_as_mut`** from the unsafe-Rust exercise.

Layout: one module per source file, plus three shared modules.

- `common.dfy` has `Option`, `Result`, the `i32`/`u32` newtypes and
  `Position` (Rust's `Iterator::position`).
- `text.dfy` has the character classes and case maps, `split_whitespace`,
  `join(" ")`, `to_lowercase` and Rust's string order.
- `sorting.dfy` holds the in-place sort that stands in for `Vec::sort`.

Where the source mutates state or loops, the model does too:
`EmployeeManager` is a class over a `map<string, seq<string>>` field.
`Median` sorts an `array` in place. `Mode` (through `CountFrequencies`,
`MaxFrequency` and `CollectWithCount`), `MostStocked`, `NthTerm`, `Sing`,
`CountCluster`, `TranslateRuns` and `ToPigLatin` are methods with the
source's loops. Each of these methods is proved against a
specification function or states its result outright. Pure code, such as
`Config::build`, `search`, `split_as_mut` and the `Add` impls, becomes
functions.

Characters follow Rust's `char` methods exactly on Latin-1
(U+0000..U+00FF):

- `is_alphabetic`, `is_uppercase`, `to_lowercase` and `to_uppercase` are
  exact there. `'ß'` upper-cases to `'S'`, the first character of "SS",
  which is what `to_uppercase().next()` yields.
- `is_whitespace` is the full Unicode White_Space set.

Behaviour worth knowing:

- `Config::build` sets `ignore_case` whenever a fourth argument parses as
  a `bool`, so `"false"` turns case-insensitive search on as well; the model
  keeps this (`Minigrep.BuildExamples`).
- `word_to_pig_latin` skips non-letters while counting the cluster but then
  cuts the word at that many characters. "c'mon" therefore becomes
  "mon-c'ay" (`PigLatinExamples.ApostropheInCluster`).
- Because a vowel-first word takes "-hay", "hat" and "at" both translate to
  "at-hay"; the translation is not injective (`PigLatin.VowelWordAndHWordCollide`).

## Model

| member | source | states |
|---|---|---|
| Common.Position | employee_manager/src/main.rs:76 | `iter().position(p)`: the index found satisfies `p` and no earlier one does; `None` means no element does |
| Common.PositionIs | employee_manager/src/main.rs:76 | the first index satisfying `p` is the one `position` returns |
| AddOneCrate.AddOne | workspace/add_one/src/lib.rs:50-56 | `add_one(x)` is `x + 1`, for every `x` below `i32::MAX` |
| AddOneCrate.AddOneExamples | workspace/add_one/src/lib.rs:38-65 | the documented and tested cases 5 → 6, -1 → 0, 0 → 1, 2 → 3 |
| AddOneCrate.AddOneWrapping | workspace/add_one/src/lib.rs:50-56 | in a release build the addition wraps: the result is `x + 1` modulo 2^32, which is `add_one(x)` below `i32::MAX` and `i32::MIN` at it |
| AddTwoCrate.AddTwo | workspace/add_two/src/lib.rs:61-67 | `add_two(x)` = `add_one(add_one(x))` is `x + 2`, for `x` up to `i32::MAX - 2` |
| AddTwoCrate.AddTwoExamples | workspace/add_two/src/lib.rs:43-76 | the documented and tested cases 5 → 7, -2 → 0, 0 → 2, 2 → 4 |
| AdvancedTrait.AddPoints | advanced_trait/src/main.rs:9-17 | `Point + Point` adds componentwise, provided both sums fit in `i32` |
| AdvancedTrait.AddMeters | advanced_trait/src/main.rs:26-32 | `Millmeters(a) + Meters(b)` is `Millmeters(a + 1000 * b)` |
| AdvancedTrait.MainAssertions | advanced_trait/src/main.rs:35-43 | (1, 1) + (2, 2) = (3, 3) and 1 mm + 1 m = 1001 mm |
| AdvancedTrait.AddPointsCommutes | advanced_trait/src/main.rs:12-17 | point addition is commutative |
| AdvancedTrait.OriginIsIdentity | advanced_trait/src/main.rs:12-17 | (0, 0) is the identity of point addition |
| AdvancedTrait.AddMetersInSteps | advanced_trait/src/main.rs:29-31 | adding two lengths in metres one after the other adds their sum |
| Fibonacci.NthTerm | fibonacci/src/main.rs:4-24 | for `n` up to 47 the reported term is F(n), with 0 for `n` = 0 and 1 for `n` = 1, 2; from 48 on `a + b` overflows `u32` |
| Fibonacci.NextTerm | fibonacci/src/main.rs:18-21 | one pass of the loop turns F(i-1), F(i) into F(i), F(i+1), and `a + b` fits in `u32` exactly while i + 1 <= 47 |
| Fibonacci.FibAtOverflow | fibonacci/src/main.rs:17-19 | F(47) fits in `u32` and F(48) does not |
| Fibonacci.FibFits | fibonacci/src/main.rs:17-19 | every term up to F(47) fits in `u32` |
| Fibonacci.FibOverflows | fibonacci/src/main.rs:17-19 | every term from F(48) on exceeds `u32::MAX` |
| Shirts.CountsPartition | shirts/src/main.rs:17-25 | the red and blue counts add up to the store's size |
| Shirts.MostStocked | shirts/src/main.rs:16-32 | Red exactly when the store holds strictly more red shirts than blue; ties, the empty store included, give Blue |
| Shirts.Giveaway | shirts/src/main.rs:12-14 | a preference is honoured; without one the most stocked colour is given |
| Shirts.MainGiveaways | shirts/src/main.rs:35-49 | with [Red, Red, Blue], preferences Blue, Red and none give Blue, Red, Red |
| TwelveDays.Sing | fibonacci/the_twelve_days_of_christmas/src/main.rs:22-36 | the nested loops emit exactly the lines of `Song(12)` |
| TwelveDays.VerseShape | fibonacci/the_twelve_days_of_christmas/src/main.rs:22-35 | verse i has i + 4 lines: the blank line that the leading newline prints, "On the <days[i]> day of Christmas,", "My true love sent to me", then gifts i down to 0; only `gifts[0]` lacks the comma, and it has "And " exactly when i > 0 |
| TwelveDays.GiftsFromLength | fibonacci/the_twelve_days_of_christmas/src/main.rs:26 | verse i lists i + 1 gifts |
| TwelveDays.GiftsFromAt | fibonacci/the_twelve_days_of_christmas/src/main.rs:26-34 | the k-th gift line of verse i is the line for gift i - k |
| TwelveDays.FirstVerse | fibonacci/the_twelve_days_of_christmas/src/main.rs:3-35 | the first verse's only gift is "A partridge in a pear tree", without "And " |
| TwelveDays.VerseLength | fibonacci/the_twelve_days_of_christmas/src/main.rs:22-35 | verse i has i + 4 lines |
| TwelveDays.SongLines | fibonacci/the_twelve_days_of_christmas/src/main.rs:22 | the song of n verses has the summed length of its verses |
| TwelveDays.VerseInSong | fibonacci/the_twelve_days_of_christmas/src/main.rs:22-36 | verse i sits in the song at its start offset, intact |
| TwelveDays.SongLength | fibonacci/the_twelve_days_of_christmas/src/main.rs:22-36 | the 12 verses make 114 lines |
| SplitAsMut.SplitAt | Unsafe/src/main.rs:25-37 | panics exactly when `mid > len`; otherwise the left view is `values[..mid]`, the right `values[mid..]`, both over the caller's storage, not overlapping, together the whole slice |
| SplitAsMut.Store | Unsafe/src/main.rs:33-34 | a write through a view changes that one element of the shared storage |
| SplitAsMut.StoreLeft | Unsafe/src/main.rs:32-35 | a write through the left view leaves what the right view sees unchanged |
| SplitAsMut.MainSplit | Unsafe/src/main.rs:17-20 | [1, 2, 3, 4] split at 2 gives [1, 2] and [3, 4] |
| Text.ToLower | pig_latin/src/main.rs:4 | `to_lowercase` moves each upper-case letter to its lower-case partner and keeps every other character |
| Text.LowerStr | minigrep/src/lib.rs:292 | `str::to_lowercase` lower-cases every character and keeps the length |
| Text.RunLength | employee_manager/src/main.rs:100 | the leading run of non-whitespace characters ends at the first whitespace |
| Text.Words | employee_manager/src/main.rs:100 | `split_whitespace` yields non-empty words without whitespace |
| Text.WordsOfJoin | pig_latin/src/main.rs:107-149 | splitting words joined with single spaces gives the words back |
| Text.LowerKeepsWhitespace | employee_manager/src/main.rs:106 | lower-casing neither creates nor removes whitespace |
| Text.LexLeTotal | employee_manager/src/main.rs:39 | Rust's string order compares any two strings |
| Text.LexLeTransitive | employee_manager/src/main.rs:39 | the string order is transitive |
| Text.LexLeAntisymmetric | employee_manager/src/main.rs:39 | strings ordered both ways are equal |
| Sorting.SortInPlace | statistics_app/src/main.rs:12 | `sort` leaves the array ordered by a total preorder and a permutation of what it held |
| Statistics.Median | statistics_app/src/main.rs:6-24 | leaves the caller's vector sorted and a permutation of its input, and returns 0 for an empty vector, the middle element for odd length, the mean of the two middle elements for even length |
| Statistics.MiddleSplitsSorted | statistics_app/src/main.rs:15-22 | the median is at least every element of the lower half and at most every element of the upper half |
| Statistics.SortedPermutationUnique | statistics_app/src/main.rs:12 | two sorted permutations of one list are equal, so the sort's result is determined |
| Statistics.MedianOfPermutation | statistics_app/src/main.rs:6-24 | the median depends only on the multiset of values |
| Statistics.MedianExamples | statistics_app/src/main.rs:109-124 | [1, 3, 5] gives 3.0, [1, 2, 3, 4] gives 2.5, [] gives 0.0 |
| Statistics.MedianOfList | statistics_app/src/main.rs:6-24 | on an already ascending list, `median` returns its middle value, whatever the in-place sort does |
| Statistics.Mode | statistics_app/src/main.rs:28-53 | exactly the values occurring as often as the most frequent one, strictly ascending, non-empty for non-empty input (so empty for empty input) |
| Statistics.DistinctSortedIsStrictlyIncreasing | statistics_app/src/main.rs:44-52 | sorting distinct values gives a strictly ascending list |
| Statistics.StrictlyIncreasingUnique | statistics_app/src/main.rs:44-52 | a strictly ascending list is determined by its members |
| Statistics.CountFrequencies | statistics_app/src/main.rs:34-38 | the counting loop gives a key exactly for each value present, mapped to how often it occurs |
| Statistics.MaxFrequency | statistics_app/src/main.rs:41 | the result bounds every count and is attained by some value; an empty map gives the `unwrap_or(&0)` default |
| Statistics.CollectWithCount | statistics_app/src/main.rs:44-48 | the filtered keys are exactly the values with the given count, each once |
| Statistics.ModeSingleExample | statistics_app/src/main.rs:127-130 | [1, 2, 3, 3, 4] has mode [3] |
| Statistics.ModeMultipleExample | statistics_app/src/main.rs:133-142 | [1, 1, 2, 2, 3] has modes [1, 2]; [] has none |
| Statistics.CalculateStatistics | statistics_app/src/main.rs:56-60 | the median of the sorted list and the modes of the original list, since the in-place sort only permutes it |
| Minigrep.Build | minigrep/src/lib.rs:132-158 | "Didn't get a query string" exactly when only the program name is given; "Didn't get a file path string" exactly when the path is missing; otherwise the query and path in order, with `ignore_case` true iff the fourth argument is "true" or "false", or the `IGNORE_CASE` flag without one |
| Minigrep.BuildIgnoresExtraArguments | minigrep/src/lib.rs:147-157 | arguments after the fourth are never read |
| Minigrep.BuildExamples | minigrep/src/lib.rs:112-127 | the documented call, and the flag values "true", "false" and "yes" |
| Minigrep.LineLength | minigrep/src/lib.rs:249 | a line of `lines()` ends at the first newline |
| Minigrep.Lines | minigrep/src/lib.rs:249 | no line yielded by `lines()` contains a newline |
| Minigrep.KeepIsSubsequence | minigrep/src/lib.rs:250-251 | `filter(...).collect()` keeps lines in their original order |
| Minigrep.KeepCounts | minigrep/src/lib.rs:250-251 | a kept line occurs as often as in the input, a dropped one not at all |
| Minigrep.KeepMembers | minigrep/src/lib.rs:250-251 | a line is in the result iff it is in the input and passes the filter |
| Minigrep.KeepAll | minigrep/src/lib.rs:250-251 | a filter that passes every line keeps them all |
| Minigrep.KeepMonotone | minigrep/src/lib.rs:292 | a stricter filter keeps a subsequence of what a looser one keeps |
| Minigrep.SearchSpec | minigrep/src/lib.rs:247-252 | `search` returns, in order and with their multiplicities, exactly the lines containing the query |
| Minigrep.SearchCaseInsensitiveSpec | minigrep/src/lib.rs:289-294 | `search_case_insensitive` returns, in order and with their multiplicities, exactly the original lines whose lower-case form contains the lower-cased query |
| Minigrep.ContainsEmpty | minigrep/src/lib.rs:250 | every line contains the empty string |
| Minigrep.EmptyQueryMatchesAll | minigrep/src/lib.rs:247-294 | an empty query returns every line, in both searches |
| Minigrep.ContainsLower | minigrep/src/lib.rs:292 | a case-sensitive match is still a match after lower-casing both sides |
| Minigrep.SearchWithinCaseInsensitive | minigrep/src/lib.rs:247-294 | the case-sensitive result is a subsequence of the case-insensitive one |
| Employees.AddToSpec | employee_manager/src/main.rs:23-33 | adding creates the department if absent and leaves the name in it; an already listed name changes nothing; otherwise the name is appended to that one list and every other department is untouched |
| Employees.AddToKeepsWellFormed | employee_manager/src/main.rs:24-31 | adding keeps every department non-empty and free of duplicates |
| Employees.RemoveFromListed | employee_manager/src/main.rs:75-85 | removing a listed name takes out exactly one occurrence, and drops the department exactly when it was the last one |
| Employees.RemoveFromUnlisted | employee_manager/src/main.rs:74-88 | removing a name the department does not list changes nothing |
| Employees.RemoveFromOthers | employee_manager/src/main.rs:74-89 | removing never touches another department and never adds one |
| Employees.RemoveFromKeepsWellFormed | employee_manager/src/main.rs:76-83 | removing keeps every department non-empty and free of duplicates |
| Employees.AddThenRemove | employee_manager/src/main.rs:23-89 | adding a new name and removing it again restores the directory |
| Employees.RemoveExample | employee_manager/src/main.rs:368-378 | after adding Alice and Bob, removing Alice leaves only Bob; removing the absent Charlie changes nothing |
| Employees.LexLeIsTotalPreorder | employee_manager/src/main.rs:39 | the string order is a total preorder, as `sort` needs |
| Employees.SortedCopy | employee_manager/src/main.rs:38-39 | the cloned and sorted list is ordered and a permutation of the original |
| Employees.PermutationKeepsDistinct | employee_manager/src/main.rs:68-69 | sorting distinct department names keeps them distinct with the same members |
| Employees.EmployeeManager.constructor | employee_manager/src/main.rs:15-19 | a new directory is empty |
| Employees.EmployeeManager.AddEmployee | employee_manager/src/main.rs:23-33 | the directory becomes `AddTo` of the old one, and stays well formed |
| Employees.EmployeeManager.RemoveEmployee | employee_manager/src/main.rs:74-89 | returns true iff the name was in that department; the directory becomes `RemoveFrom` of the old one, and stays well formed |
| Employees.EmployeeManager.GetDepartmentEmployees | employee_manager/src/main.rs:36-44 | `None` iff the department is unknown; otherwise a sorted permutation of its list |
| Employees.EmployeeManager.DepartmentNames | employee_manager/src/main.rs:68 | the keys collected into a list, each once |
| Employees.EmployeeManager.GetDepartments | employee_manager/src/main.rs:67-71 | exactly the departments, each once, sorted |
| Employees.EmployeeManager.GetAllEmployees | employee_manager/src/main.rs:47-64 | exactly the departments as keys, each mapped to a sorted permutation of its list |
| Employees.ParseCommand | employee_manager/src/main.rs:98-143 | blank input is no command, and every command starts with one of the keywords add, list, show, remove, help, quit, exit in some case |
| Employees.WordsOfBlank | employee_manager/src/main.rs:99-104 | input made only of whitespace has no words |
| Employees.BlankIsNoCommand | employee_manager/src/main.rs:99-104 | blank input gives `None` |
| Employees.AroundFinds | employee_manager/src/main.rs:109-112 | name and department are the words between the command and the first "to"/"from", and the words after it |
| Employees.ParseAdd | employee_manager/src/main.rs:106-114 | "Add <name> to <department>", keywords in any case, multi-word parts, parses to exactly that name and department |
| Employees.ParseRemove | employee_manager/src/main.rs:127-135 | "Remove <name> from <department>" parses to exactly that name and department |
| Employees.ParseList | employee_manager/src/main.rs:117-126 | "List"/"Show" followed by "all" in any case gives `ListAll`; otherwise the rest, rejoined, is the department |
| Employees.AddNeedsWordsAroundTo | employee_manager/src/main.rs:107-116 | an "add" command parses iff its first "to" has a word on each side, even when a later "to" would do |
| Employees.RemoveNeedsWordsAroundFrom | employee_manager/src/main.rs:127-136 | a "remove" command parses iff its first "from" has a word on each side, even when a later "from" would do |
| Employees.OtherCommandWords | employee_manager/src/main.rs:117-142 | "help" gives Help and "quit" or "exit" gives Quit whatever follows, a bare "list" or "show" is rejected, and any other first word is no command |
| PigLatin.VowelsAreLetters | pig_latin/src/main.rs:3-18 | every vowel is a letter |
| PigLatin.VowelExamples | pig_latin/src/main.rs:214-223 | a, E, i, O, u, É and ü are vowels; b, Z, y and Y are not |
| PigLatin.FirstVowel | pig_latin/src/main.rs:63-75 | the position of the first vowel, or the length when there is none |
| PigLatin.ClusterLength | pig_latin/src/main.rs:60-82 | the cluster fits in the word and has at least one character when the word starts with a consonant, so the branch at line 79 is unreachable |
| PigLatin.LetterCluster | pig_latin/src/main.rs:60-77 | when everything before the first vowel is a letter (so "don't" qualifies), the cluster runs to the first vowel, plus the "u" of a "qu" there |
| PigLatin.AllConsonants | pig_latin/src/main.rs:63-65 | a run of consonants is counted whole |
| PigLatin.FirstLetter | pig_latin/src/main.rs:36-46 | the first letter of the word, if any |
| PigLatin.PigWordOfConsonantStart | pig_latin/src/main.rs:59-97 | a word starting with a consonant is rotated whole |
| PigLatin.WordToPigLatin | pig_latin/src/main.rs:27-100 | computes `PigWord`: "" stays "", a word without letters stays as it is, a vowel-first word gets "-hay", otherwise the cluster moves behind '-' lower-cased with "ay", and the capital moves to the new first character |
| PigLatin.CountCluster | pig_latin/src/main.rs:60-77 | the counting loop computes the cluster length |
| PigLatin.MoveCluster | pig_latin/src/main.rs:79-97 | cutting the counted cluster off, lower-casing it behind the rest with "ay" and re-capitalising gives `Rotate`; the `consonant_count == 0` branch is never taken |
| PigLatin.PigWordNonEmpty | pig_latin/src/main.rs:27-100 | a non-empty word never translates to "" |
| PigLatin.PigWordSimpleCases | pig_latin/src/main.rs:28-57 | "" gives "", a word without letters is kept, a word whose first letter is a vowel gets "-hay" |
| PigLatin.CharIgnoresCase | pig_latin/src/main.rs:3-13 | vowel and consonant tests ignore case |
| PigLatin.ClusterIgnoresCase | pig_latin/src/main.rs:60-77 | the cluster length ignores case |
| PigLatin.CapitalisationCommutes | pig_latin/src/main.rs:88-97 | translating a capitalised lower-case ASCII word gives the capitalised translation |
| PigLatin.RotateCapitalised | pig_latin/src/main.rs:88-97 | rotating the capitalised word with the capital flag gives the capitalised rotation of the lower-case word |
| PigLatin.RestorePigWord | pig_latin/src/main.rs:54-97 | a lower-case ASCII word that starts with a consonant can be recovered from its translation: move back what follows the '-', minus "ay" |
| PigLatin.RestoreSplit | pig_latin/src/main.rs:88-97 | the inverse of the formats at lines 94 and 96: splitting at the first '-' and moving what precedes the final "ay" back to the front recovers the word, whenever the remainder holds no '-' |
| PigLatin.VowelWordAndHWordCollide | pig_latin/src/main.rs:54-97 | "h" + a vowel-first word translates like the word itself, so the translation is not injective |
| PigLatin.RunOf | pig_latin/src/main.rs:116-119 | the leading run of letters and apostrophes |
| PigLatin.SegmentedAppend | pig_latin/src/main.rs:116-140 | at a run boundary a word translates piece by piece |
| PigLatin.PigTokenCopiesSeparator | pig_latin/src/main.rs:120-134 | a '-' or other punctuation is copied in place between the translations around it |
| PigLatin.PigTokenOfRun | pig_latin/src/main.rs:116-140 | a word that is one run goes through `word_to_pig_latin` whole |
| PigLatin.PigTokenEmpty | pig_latin/src/main.rs:142-146 | only "" translates to "", so the fallback to the word never fires |
| PigLatin.TranslateToken | pig_latin/src/main.rs:111-147 | the per-word loop computes the word's run-by-run translation |
| PigLatin.TranslateRuns | pig_latin/src/main.rs:113-140 | the character loop with its pending word builds the run-by-run translation of the whole word |
| PigLatin.Flush | pig_latin/src/main.rs:122-125 | a pending word is translated if non-empty, and adds nothing otherwise |
| PigLatin.FlushThenCopy | pig_latin/src/main.rs:120-134 | at a separator, flushing the pending run and copying the separator extends the translation to the prefix through the separator |
| PigLatin.FlushLast | pig_latin/src/main.rs:137-140 | flushing the last pending run completes the translation of the whole word |
| PigLatin.RunsStep | pig_latin/src/main.rs:120-134 | the translation up to a separator is the translation up to the run's start, the translated run, and the separator |
| PigLatin.FinalRun | pig_latin/src/main.rs:137-140 | a word is translated as its prefix up to the last run, followed by that run's translation |
| PigLatin.ToPigLatin | pig_latin/src/main.rs:104-150 | computes `PigLatinText`: the words of the text, each translated, joined with single spaces |
| PigLatin.BlankText | pig_latin/src/main.rs:107-149 | blank text translates to "" |
| PigLatin.PigWordNoWhitespace | pig_latin/src/main.rs:27-100 | translating a word introduces no whitespace |
| PigLatin.RotateNoWhitespace | pig_latin/src/main.rs:84-97 | moving the cluster and adding "-" and "ay" introduces no whitespace |
| PigLatin.PigLatinWords | pig_latin/src/main.rs:107-149 | the result's words are exactly the translations of the text's words, one for one |
| PigLatin.PigLatinOfOneWord | pig_latin/src/main.rs:107-149 | one word translates as that word |
| PigLatin.PigLatinOfTwoWords | pig_latin/src/main.rs:107-149 | two words translate one by one, joined with a space |
| PigLatin.PigLatinOfJoin | pig_latin/src/main.rs:107-149 | any words joined by single spaces translate one by one and are joined by single spaces again |
| PigLatinExamples.First | pig_latin/src/main.rs:234 | "first" gives "irst-fay" |
| PigLatinExamples.CapitalFirst | pig_latin/src/main.rs:237 | "First" gives "Irst-fay" |
| PigLatinExamples.Hello | pig_latin/src/main.rs:235 | "hello" gives "ello-hay" |
| PigLatinExamples.School | pig_latin/src/main.rs:236 | "school" gives "ool-schay" |
| PigLatinExamples.The | pig_latin/src/main.rs:256-259 | "The" gives "E-thay" |
| PigLatinExamples.TheLower | pig_latin/src/main.rs:256-259 | "the" gives "e-thay", the lower-case form of the sentence test's first word |
| PigLatinExamples.Quick | pig_latin/src/main.rs:256-259 | "quick" gives "ick-quay" |
| PigLatinExamples.Brown | pig_latin/src/main.rs:256-259 | "brown" gives "own-bray" |
| PigLatinExamples.Fox | pig_latin/src/main.rs:256-259 | "fox" gives "ox-fay" |
| PigLatinExamples.PigLatinOfFourWords | pig_latin/src/main.rs:107-149 | four words joined by single spaces translate one by one |
| PigLatinExamples.QuickBrownFox | pig_latin/src/main.rs:256-259 | "The quick brown fox" gives "E-thay ick-quay own-bray ox-fay" |
| PigLatinExamples.Dont | pig_latin/src/main.rs:242 | "don't" gives "on't-day" |
| PigLatinExamples.ApostropheInCluster | pig_latin/src/main.rs:63-86 | "c'mon" gives "mon-c'ay": the apostrophe is skipped by the count but cut with the cluster |
| PigLatinExamples.WellKnown | pig_latin/src/main.rs:246-248 | "well-known" gives "ell-way-own-knay" |
| PigLatinExamples.Well | pig_latin/src/main.rs:246-248 | "well" gives "ell-way" |
| PigLatinExamples.HelloWorld | pig_latin/src/main.rs:251-255 | "hello world" gives "ello-hay orld-way" |
| PigLatinExamples.World | pig_latin/src/main.rs:251-255 | "world" gives "orld-way" |
| PigLatinExamples.Digits | pig_latin/src/main.rs:272 | "123" stays "123" |
| PigLatinExamples.Apple | pig_latin/src/main.rs:227 | "apple" gives "apple-hay" |
| PigLatinExamples.Eat | pig_latin/src/main.rs:228 | "eat" gives "eat-hay" |
| PigLatinExamples.CapitalApple | pig_latin/src/main.rs:229 | "Apple" keeps its capital: "Apple-hay" |
| PigLatinExamples.Cafe | pig_latin/src/main.rs:265 | "café" gives "afé-cay" |
| PigLatinExamples.Emigre | pig_latin/src/main.rs:266 | "émigré" gives "émigré-hay" |

## Left out

- The thread pool and web server, and the thread, channel and mutex demos: the point of those is concurrency, which a sequential model does not capture.
- The temperature converter and the ownership-only demos (drop, reference counting, error handling, the workspace's `adder` binary): no logic beyond I/O, floating point or ownership.
- All printing and interactive loops: the employee manager's REPL, `show_help` and display helpers; the Pig Latin REPL; `minigrep::run` and minigrep's `main`; the console output of the Fibonacci, Twelve Days, shirts and unsafe-Rust programs. Twelve Days' output is modelled as a sequence of lines, and Fibonacci's as a `Report`.
- Standard input in the Fibonacci program: the term number is a parameter, and a parse failure is not modelled.
- The `IGNORE_CASE` environment variable: `Minigrep.Build` takes whether it is set as a boolean parameter.
- Unicode beyond Latin-1: outside U+0000..U+00FF every character counts as a non-letter with identity case maps. Rust's tables also cover other scripts (for example 'İ' lower-cases to "i̇"), and `to_lowercase` can expand a character into several.
- Statistics.Median: returns a `real`, not an `f64`. For `i32` inputs the sum of the two middle values and its half are exact in `f64` too.
- Sorting.SortInPlace: is an insertion sort in place of Rust's stable sort. Both yield the one sorted permutation (`Statistics.SortedPermutationUnique`), so results agree; running time is not modelled.
- HashMap iteration order: the directory is a Dafny `map`, and `DepartmentNames` collects the keys in whatever order the loop picks them; every result the source exposes is sorted or is a map.
- Employees.ParseCommand: its own contract states only the keyword and blank-input rules. The rest of the grammar is stated by separate lemmas: `ParseAdd`, `ParseRemove` and `ParseList` for inputs built from words, `AddNeedsWordsAroundTo` and `RemoveNeedsWordsAroundFrom` for when "add" and "remove" are accepted, and `OtherCommandWords` for help, quit, exit, a bare list or show, and unknown words. The parse examples from the tests with literal strings are not restated as lemmas.
- Minigrep.SearchSpec: the doc and unit-test examples with literal contents are not restated as lemmas; the general specification covers them.
- Fibonacci.NthTerm: an overflowing `a + b` is reported as `Overflow` (the panic of a debug build) rather than modelled as a release build's wrap-around.
- AdvancedTrait.AddPoints: its precondition excludes coordinates whose sum leaves the `i32` range. A debug build panics there and a release build wraps, and neither outcome is modelled.
- AdvancedTrait.AddMeters: its precondition excludes a `b * 1000` or a sum outside the `i32` range. The debug-build panic and the release-build wrap-around there are not modelled.
- AddTwoCrate.AddTwo: its precondition excludes `x > i32::MAX - 2`, where one of the two inner `add_one` calls overflows. The panic or wrap-around there is not modelled. `AddOneWrapping` models the wrap for a single `add_one` only.
- The raw-pointer reads and `noop` call in the unsafe-Rust `main`: no logic beyond the dereference. Slices are modelled as index ranges over the caller's array, so pointer arithmetic and lifetimes are not modelled.
