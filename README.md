# atlifly command-line helpers: a verified model

This project models the core of three of atlifly's command-line tools in Dafny and proves properties of the model.

- **random-order** has two parts.
  - `shuffle` works on a directory of exam PDFs. It first renames every PDF whose name holds an unsafe character: a space becomes `-`, and `'`, `(` and `)` become `_`. It then keeps, from each PDF name, the text after one leading numeric `NN-` prefix up to the last `.pdf` ("group 2"). It shuffles the files and renames them `01-<group 2>`, `02-<group 2>`, … in the shuffled order.
  - `extract_names` lists a directory and prints each numbered file's short name (the text before its first `_`), ordered by number.
- **exam-score** prints a table with one row for every possible number of missed questions, from 0 to the total. Each row holds the number missed, the number correct and the percentage.
- **latex-build** turns a target such as `foo`, `foo.tex` or `a/foo.pdf` into three things: the base path, the PDF file name and the TeX file to compile. It also computes the directory to run in.

## Layout

- `decimal.dfy` (module `Decimal`) models three Python conversions:
  - `str(n)` for naturals;
  - `int(s)` for digit strings;
  - the `{:02d}` format.
- `seqs.dfy` (module `Seqs`) holds distinct sequences, directory listings and permutations.
- `random_order_patterns.dfy` (module `RandomOrderPatterns`) holds the two regular expressions of `random_order.py`, written out as functions, and the character clean-up `Sanitize` of a name.
- `random_order.dfy` (module `RandomOrder`) models the directory.
  - A directory is the class `Directory`, whose `entries` map each name to its content.
  - `os.rename` is the method `Rename`.
  - The sanitising rename of one name is `SanitizeStep`.
  - The two passes of `shuffle` are the methods `SanitizePass` and `PrefixPass`. `SanitizePass` is proved equal to `SanitizeAll`, a fold of `SanitizeStep` over the listing. `PrefixPass` is proved equal to `PrefixAll`, a fold of the numbering rename over the shuffled list. The proved properties are stated about those folds.
- `random_order_extract.dfy` (module `RandomOrderExtract`) models `extract_names`. It also proves that it inverts `shuffle` under two conditions: the selected names have distinct group 2, and every group 2 has a short name. Then, after `shuffle`, `extract_names` prints the short names in exactly the shuffled order. Without the first condition files are lost (`PrefixCollision`); without the second, `extract_names` raises (`PlainNameCrashes`, `EmptyShortNameCrashes`).
- `exam_score.dfy` (module `ExamScore`) models `_build_rows`, the width computation and `write_row` of `_print_table`, and the positivity check of `main`. Each loop is a method proved equal to a function.
- `latex_build.dfy` (module `LatexBuild`) models the `pathlib.PurePosixPath` operations that `_normalize_target` and `main` use. It then models `_normalize_target` itself and the working directory and TeX path of `main`.

Randomness, printing and the file system are inputs and outputs of the model:
- `random.shuffle` is a permutation `perm` passed in; entry `i` of the shuffled list is entry `perm[i]` of the collected one.
- `os.listdir` is a listing passed in that names every entry once, in any order.
- Printed lines are returned as a sequence of strings.

### Renames onto existing names, and unnumbered files

- **Rename onto an existing name.** The code does not check for this: `os.rename` on POSIX silently replaces the target. The model follows the code and does not treat this as an error.
  - `Directory.Rename` does the same.
  - `SanitizeCollision` and `PrefixCollision` prove that files are lost when this happens.
  - `GroupsPreventClashes` and `PrefixPassFacts` prove that no file is lost when the selected names have distinct group 2.
- **Unnumbered files in `extract_names`.** The docstring only says that `extract_names` "works" on renamed files. In the code, a matching name without a numeric prefix reaches `int(None)`, which raises `TypeError`.
  - The model turns this into the outcome `NoNumber(name)`.
  - The lemmas `PlainNameCrashes`, `EmptyShortNameCrashes` and `UnderscoreAfterDigitsCrashes` exhibit it.

## Model

All source paths are under `src/atlifly/cli/`.

| member | source | states |
|---|---|---|
| Decimal.DigitChar | src/atlifly/cli/exam_score.py:28-29 | the character for a digit value is a digit and reads back as that value |
| Decimal.NatToString | src/atlifly/cli/exam_score.py:28-29 | `str(n)` for a natural is a non-empty string of digits |
| Decimal.ParseDigits | src/atlifly/cli/random_order.py:66 | `int(s)` of a digit string; `NatToStringParses` and `LeadingZero` state that it inverts `str` and ignores leading zeros |
| Decimal.NatToStringParses | src/atlifly/cli/random_order.py:66 | `int(str(n)) == n`, and `str(n)` starts with `0` exactly when n is 0 |
| Decimal.LeadingZero | src/atlifly/cli/random_order.py:66 | `int` ignores a leading zero, so `int("07") == int("7")` |
| Decimal.NatToStringMonotone | src/atlifly/cli/exam_score.py:28-29 | a larger count never has a shorter numeral, so the total's numeral is the widest |
| Decimal.Pad2 | src/atlifly/cli/random_order.py:46 | `{:02d}` gives at least two characters, all digits |
| Decimal.Pad2Facts | src/atlifly/cli/random_order.py:46 | `{:02d}` of n reads back as n; its length is the larger of 2 and n's digit count; it equals `str(n)` from 10 upwards (so 100 gives `100`) |
| Seqs.Permuted | src/atlifly/cli/random_order.py:44 | the shuffled list has the same length; entry i is entry `perm[i]` of the input; the multiset of entries and their distinctness are kept |
| Seqs.PickPermutationMultiset | src/atlifly/cli/random_order.py:44 | picking entries by a permutation keeps the multiset of entries |
| Seqs.DistinctCounts | src/atlifly/cli/random_order.py:63 | in a listing without repeats every name occurs once |
| Seqs.SameMembersSameMultiset | src/atlifly/cli/random_order.py:63 | two listings of the same directory are permutations of each other |
| RandomOrderPatterns.Selected | src/atlifly/cli/random_order.py:25-26 | the shuffle regex matches; `ShufflePattern` proves this is exactly holding a `.pdf` in any letter case |
| RandomOrderPatterns.DigitRun | src/atlifly/cli/random_order.py:25 | `[0-9]+` at the start is greedy: the run is all digits and the next character is not one |
| RandomOrderPatterns.PrefixLength | src/atlifly/cli/random_order.py:25 | the optional `([0-9]+-)` takes part exactly when the digit run is followed by `-`; it is then digits and a final `-` |
| RandomOrderPatterns.LastPdfEnd | src/atlifly/cli/random_order.py:25 | the greedy `.*` of group 2 ends at the last `.pdf` (any letter case) before a position; none is found exactly when there is no `.pdf` |
| RandomOrderPatterns.NothingAfterLastPdf | src/atlifly/cli/random_order.py:25 | no `.pdf` starts after the last one ends |
| RandomOrderPatterns.HasPdfInSuffix | src/atlifly/cli/random_order.py:25 | a `.pdf` in a tail of the name is a `.pdf` in the name |
| RandomOrderPatterns.EndsWithPdf | src/atlifly/cli/random_order.py:25 | in a name ending with `.pdf` the last `.pdf` is the final one |
| RandomOrderPatterns.DigitRunOfNumeral | src/atlifly/cli/random_order.py:25 | `[0-9]+` consumes all the digits of a numeral and stops at the next non-digit |
| RandomOrderPatterns.PdfAfterPrefix | src/atlifly/cli/random_order.py:25 | a `.pdf` in the name lies after the optional `NN-` prefix, so group 2 can always match |
| RandomOrderPatterns.ShufflePattern | src/atlifly/cli/random_order.py:25 | the shuffle regex matches exactly the names holding `.pdf` in any letter case; group 2 then ends with `.pdf` |
| RandomOrderPatterns.ShufflePatternShape | src/atlifly/cli/random_order.py:25 | group 2 starts right after the longest `digits-` prefix and ends at the last `.pdf`; no `.pdf` follows it |
| RandomOrderPatterns.TrailingTextDropped | src/atlifly/cli/random_order.py:25 | text after the last `.pdf` is not part of group 2: `x.pdf.bak` gives `x.pdf` |
| RandomOrderPatterns.OnePrefixDropped | src/atlifly/cli/random_order.py:25 | only one prefix is dropped: `01-02-a.PDF` gives `02-a.PDF` |
| RandomOrderPatterns.Group2 | src/atlifly/cli/random_order.py:41 | `match.group(2)` of a selected name; `ShufflePatternShape` and `Group2Pdf` state where it starts and that it ends with `.pdf` |
| RandomOrderPatterns.Group2Pdf | src/atlifly/cli/random_order.py:41 | the group 2 collected for a selected name is at least four characters and ends with `.pdf` |
| RandomOrderPatterns.NewName | src/atlifly/cli/random_order.py:46 | `{:02d}-{group 2}`; `NewNamePrefix`, `NewNameParts`, `NewNameInjective` and `NewNameNumber` state its shape, that it keeps group 2, that it is injective and that its number reads back |
| RandomOrderPatterns.NewNamePrefix | src/atlifly/cli/random_order.py:46 | the new name is the two-digit number, `-`, then group 2 |
| RandomOrderPatterns.NewNameParts | src/atlifly/cli/random_order.py:46 | a new name is itself selected by the shuffle regex, and its group 2 is the group 2 it was built from, so a second run renumbers the same files |
| RandomOrderPatterns.NewNameInjective | src/atlifly/cli/random_order.py:46 | two new names are equal exactly when their numbers and their group 2 are |
| RandomOrderPatterns.NewNameNumber | src/atlifly/cli/random_order.py:46 | the prefix of a new name is at least two digits and reads back as its number |
| RandomOrder.NotRenamedOnto | src/atlifly/cli/random_order.py:46 | a selected name is never the new name made from a different group 2 |
| RandomOrderPatterns.Replace | src/atlifly/cli/random_order.py:28-31 | `str.replace` of one character by another; `SanitizeIsCharMap` states its effect per character |
| RandomOrderPatterns.Sanitize | src/atlifly/cli/random_order.py:28-31 | the four replacements in order; `SanitizeIsCharMap`, `SanitizeCleans`, `SanitizeKeepsPdf` and `SanitizeFacts` state what it does |
| RandomOrderPatterns.SanitizeIsCharMap | src/atlifly/cli/random_order.py:28-31 | sanitising keeps the length and maps each character on its own: a space becomes `-`; `'`, `(` and `)` become `_`; the rest stay |
| RandomOrderPatterns.SanitizeCleans | src/atlifly/cli/random_order.py:28-32 | the sanitised name has no unsafe character, and equals the name exactly when the name had none |
| RandomOrderPatterns.SanitizeKeepsPdf | src/atlifly/cli/random_order.py:28-31 | sanitising keeps every `.pdf` occurrence in place |
| RandomOrderPatterns.SanitizeFacts | src/atlifly/cli/random_order.py:24-32 | sanitising is idempotent and keeps a name selected exactly when it was |
| RandomOrderPatterns.FirstUnderscore | src/atlifly/cli/random_order.py:64 | the position found holds the first `_` of the name |
| RandomOrderPatterns.ShortNamePattern | src/atlifly/cli/random_order.py:64 | `([^_]+)_.*\.pdf` at a position: when it matches, group 4 is non-empty, has no `_`, is followed by `_` and by a later `.pdf`; when it does not, the text after the first `_` holds no `.pdf` |
| RandomOrderPatterns.ExtractPattern | src/atlifly/cli/random_order.py:64 | the extract regex, with backtracking from the prefix alternative to the unprefixed one; a match's short name is non-empty and has no `_` |
| RandomOrderPatterns.ShortNamePatternForm | src/atlifly/cli/random_order.py:64 | `([^_]+)_.*\.pdf` matches exactly when the first `_` comes after at least one character and is followed by a `.pdf`, and the short name then ends at that `_` |
| RandomOrderPatterns.ExtractPatternForm | src/atlifly/cli/random_order.py:64 | the extract regex matches exactly the names whose first `_` comes after at least one character and is followed by a `.pdf`; the optional prefix adds no match |
| RandomOrderPatterns.ExtractNumbered | src/atlifly/cli/random_order.py:64 | the numbered reading is taken exactly when the prefix group matches and the rest of the name has the short-name form; group 2 is then the digits before the `-` |
| RandomOrderPatterns.SplitAfterPrefix | src/atlifly/cli/random_order.py:64 | a short-name split after the `NN-` prefix is a short-name split of the whole name |
| RandomOrderPatterns.ExtractPatternShape | src/atlifly/cli/random_order.py:64 | a match starts at the name's start: `digits-` when numbered, then the short name and `_`, with a `.pdf` after |
| RandomOrderPatterns.ExtractWithPrefix | src/atlifly/cli/random_order.py:64 | the prefixed alternative consumes the digits and `-` and then the short name and `_` |
| RandomOrderPatterns.ExtractImpliesSelected | src/atlifly/cli/random_order.py:64 | every name the extract regex matches is one the shuffle regex selects |
| RandomOrderPatterns.ExtractNewName | src/atlifly/cli/random_order.py:64 | on a name made by the numbering loop, extract finds its number and the short name of its group 2 |
| RandomOrderPatterns.ShortNameAt | src/atlifly/cli/random_order.py:64 | with the first `_` at a position after the start and a `.pdf` after it, the short name is the text before that `_` |
| RandomOrderPatterns.ShortNameOfGroup | src/atlifly/cli/random_order.py:64 | the short-name match on a group 2 that has a short name gives exactly that short name |
| RandomOrder.Renamed | src/atlifly/cli/random_order.py:34 | `os.rename` on POSIX: the source is gone, the target holds the source's content, and every other entry is unchanged |
| RandomOrder.SanitizeStep | src/atlifly/cli/random_order.py:27-34 | one iteration of the first loop: a selected name that sanitising changes is renamed to its sanitised form; `SanitizeRenameKeeps` and `SanitizePassResult` state its effect |
| RandomOrder.SanitizeAll | src/atlifly/cli/random_order.py:24-34 | the first loop folded over the listing: a name of the directory not yet visited is still present |
| RandomOrder.SanitizeAllStep | src/atlifly/cli/random_order.py:24-34 | a listed name is still present when the loop reaches it, and the loop advances by one rename step |
| RandomOrder.Collected | src/atlifly/cli/random_order.py:37-41 | the second loop pairs each selected name of the listing with its group 2; every entry is a selected name with its own group 2 |
| RandomOrder.CollectedFacts | src/atlifly/cli/random_order.py:37-41 | every collected name is listed, every listed selected name is collected, and none is collected twice when the listing has no repeats |
| RandomOrder.Collect | src/atlifly/cli/random_order.py:37-41 | the loop builds exactly `Collected` |
| RandomOrder.Shuffled | src/atlifly/cli/random_order.py:44 | the shuffled list is the collected list reordered by the permutation: well formed, with distinct sources |
| RandomOrder.SourceSetMembers | src/atlifly/cli/random_order.py:45-49 | the names the numbering loop moves are exactly the list's sources |
| RandomOrder.TargetSetMembers | src/atlifly/cli/random_order.py:46 | the names the numbering loop creates are exactly `{:02d}-` of i+1 followed by entry i's group 2 |
| RandomOrder.TargetSetHas | src/atlifly/cli/random_order.py:46 | every entry's new name is among the created names |
| RandomOrder.TargetSetOnly | src/atlifly/cli/random_order.py:46 | every created name is some entry's new name, and a witness index is returned |
| RandomOrder.PrefixAll | src/atlifly/cli/random_order.py:45-49 | the numbering loop folded over the shuffled list: names it never moves survive |
| RandomOrder.NotATarget | src/atlifly/cli/random_order.py:46 | a name unequal to every entry's new name is not created |
| RandomOrder.GroupsPreventClashes | src/atlifly/cli/random_order.py:44-49 | with distinct group 2 the new names are distinct and no entry is renamed onto a name still waiting to be moved |
| RandomOrder.GroupsPreventChains | src/atlifly/cli/random_order.py:44-49 | with distinct group 2 no entry's new name is another entry's current name |
| RandomOrder.GroupsGiveDistinctTargets | src/atlifly/cli/random_order.py:46 | distinct positions always give distinct new names |
| RandomOrder.InitHypotheses | src/atlifly/cli/random_order.py:45-49 | the no-clash conditions carry over to the list without its last entry |
| RandomOrder.RenameStep | src/atlifly/cli/random_order.py:49 | one rename of a fresh source to a fresh target adds one name to the moved and one to the created side, and keeps every content |
| RandomOrder.PrefixAllFacts | src/atlifly/cli/random_order.py:45-49 | without clashes, the loop's result holds the untouched names plus the new names; each new name has its source's content; every other entry is unchanged |
| RandomOrder.SourceSetSize | src/atlifly/cli/random_order.py:45-49 | a list with distinct sources moves as many names as it has entries |
| RandomOrder.ShuffledSources | src/atlifly/cli/random_order.py:37-44 | the shuffled list moves exactly the directory's selected names |
| RandomOrder.ShuffledSourcesSelected | src/atlifly/cli/random_order.py:37-44 | only selected names are moved |
| RandomOrder.SelectedAreShuffled | src/atlifly/cli/random_order.py:37-44 | every selected name is moved |
| RandomOrder.SelectedIsShuffled | src/atlifly/cli/random_order.py:37-44 | a selected name of the listing is moved wherever the shuffle puts it |
| RandomOrder.ShuffledGroupsDistinct | src/atlifly/cli/random_order.py:37-44 | distinct group 2 among the directory's selected names carries over to the shuffled list |
| RandomOrder.ShuffledNoStray | src/atlifly/cli/random_order.py:37-49 | no name the numbering loop leaves alone is one of its new names |
| RandomOrder.UnselectedIsNoTarget | src/atlifly/cli/random_order.py:46 | every new name is selected, so an unselected name is never created |
| RandomOrder.PrefixPassFacts | src/atlifly/cli/random_order.py:37-51 | with distinct group 2 the second pass is a bijection. The count printed is the number of selected names. Afterwards the directory holds the unselected names plus the new names; entry i of the shuffled list appears as `{:02d}-` of i+1 followed by its group 2, with its own content; unselected files are untouched |
| RandomOrder.PrefixCollision | src/atlifly/cli/random_order.py:44-49 | without distinct group 2 files are lost: `a.pdf` and `01-a.pdf` shuffled in that order leave only `02-a.pdf`, with `a.pdf`'s content |
| RandomOrder.PrefixTwo | src/atlifly/cli/random_order.py:45-49 | over two files the numbering loop is two renames in list order |
| RandomOrder.Directory.constructor | src/atlifly/cli/random_order.py:17 | a directory starts with the given entries |
| RandomOrder.Directory.Rename | src/atlifly/cli/random_order.py:34 | renaming changes the entries exactly as `Renamed` says |
| RandomOrder.Directory.SanitizePass | src/atlifly/cli/random_order.py:24-34 | the first loop, run in place, leaves the entries `SanitizeAll` gives |
| RandomOrder.Directory.PrefixPass | src/atlifly/cli/random_order.py:37-49 | the second and third loops, run in place, leave the entries `PrefixAll` gives for the shuffled list, and return the number of collected files |
| RandomOrder.Directory.NumberAll | src/atlifly/cli/random_order.py:45-49 | the numbering loop, run in place, equals `PrefixAll` |
| RandomOrder.Directory.Shuffle | src/atlifly/cli/random_order.py:17-51 | `shuffle` is the first pass followed by the second; it returns the count it reports |
| RandomOrder.RenameKeepsUnselected | src/atlifly/cli/random_order.py:24-34 | a sanitising rename leaves unselected names alone |
| RandomOrder.RenameKeepsSelectedFrom | src/atlifly/cli/random_order.py:24-34 | after a sanitising rename every selected name still comes from a source with the same content |
| RandomOrder.RenameKeepsVisited | src/atlifly/cli/random_order.py:24-34 | names sanitised earlier stay present |
| RandomOrder.RenameKeepsPending | src/atlifly/cli/random_order.py:24-34 | names not yet visited stay present, and one that is not yet clean keeps its content |
| RandomOrder.SanitizeRenameKeeps | src/atlifly/cli/random_order.py:24-34 | one step of the first loop keeps the loop's invariant |
| RandomOrder.SanitizeAllFacts | src/atlifly/cli/random_order.py:24-34 | the first loop's invariant holds after every prefix of the listing |
| RandomOrder.SanitizePassResult | src/atlifly/cli/random_order.py:24-34 | after the first pass: no selected name has an unsafe character; unselected names are untouched; every listed selected name's sanitised form is present; a listed name stays exactly when it was clean; each selected result has the content of a listed name that sanitises to it |
| RandomOrder.SanitizeAllOfClean | src/atlifly/cli/random_order.py:28-34 | a directory with no unsafe selected name is left unchanged |
| RandomOrder.SanitizePassIdempotent | src/atlifly/cli/random_order.py:24-34 | running the first pass twice gives the same directory as once |
| RandomOrder.SanitizeCollision | src/atlifly/cli/random_order.py:28-34 | two names that sanitise to the same name collapse into one file that holds the second one's content |
| RandomOrder.TwoRenamesOntoOne | src/atlifly/cli/random_order.py:34 | two renames onto one target leave one file, with the later content |
| RandomOrder.SanitizeCollisionExample | src/atlifly/cli/random_order.py:28-31 | `a'b.pdf` and `a(b.pdf` both sanitise to `a_b.pdf` |
| RandomOrderExtract.Matched | src/atlifly/cli/random_order.py:64-65 | the extract regex matches the name; `ExtractPatternForm` characterises it |
| RandomOrderExtract.Numbered | src/atlifly/cli/random_order.py:63-66 | no matched name lacks a number, so the loop never reaches `int(None)`; `FirstMissing` states the converse |
| RandomOrderExtract.EntryOf | src/atlifly/cli/random_order.py:64-66 | a numbered match gives a non-empty short name without `_` |
| RandomOrderExtract.FirstMissing | src/atlifly/cli/random_order.py:63-66 | there is no unnumbered match exactly when every matching listed name has a number; otherwise the one found is a listed, unnumbered match |
| RandomOrderExtract.FirstMissingPrefix | src/atlifly/cli/random_order.py:63-66 | the loop stops at the first unnumbered match; later names do not change it |
| RandomOrderExtract.FirstMissingAt | src/atlifly/cli/random_order.py:63-66 | the first unnumbered match is the one at which the loop crashes |
| RandomOrderExtract.Entries | src/atlifly/cli/random_order.py:63-66 | the list the first loop appends to; `EntriesSnoc`, `EntriesMembers`, `EntriesHas` and `EntriesOnly` state its content and order |
| RandomOrderExtract.EntriesSnoc | src/atlifly/cli/random_order.py:63-66 | the collected list grows by the entry of each numbered match, in listing order |
| RandomOrderExtract.Insert | src/atlifly/cli/random_order.py:68 | insertion adds the one entry: the multiset grows by it |
| RandomOrderExtract.InsertSorted | src/atlifly/cli/random_order.py:68 | insertion keeps a list sorted by number |
| RandomOrderExtract.SortByNumber | src/atlifly/cli/random_order.py:68 | `sorted(files, key=number)` is sorted by number and a permutation of its input |
| RandomOrderExtract.InsertWithNumber | src/atlifly/cli/random_order.py:68 | insertion puts a new entry after every earlier entry with the same number |
| RandomOrderExtract.SortByNumberStable | src/atlifly/cli/random_order.py:68 | the sort is stable: entries with equal numbers keep their listing order |
| RandomOrderExtract.SortedUnique | src/atlifly/cli/random_order.py:68 | with distinct numbers, the sorted permutation of a list is unique |
| RandomOrderExtract.SameLast | src/atlifly/cli/random_order.py:68 | two sorted permutations of one list with distinct numbers end with the same entry |
| RandomOrderExtract.MultisetInit | src/atlifly/cli/random_order.py:68 | dropping the last entry removes it from the multiset |
| RandomOrderExtract.SortedInit | src/atlifly/cli/random_order.py:68 | sortedness survives dropping the last entry |
| RandomOrderExtract.Shorts | src/atlifly/cli/random_order.py:69-70 | line i printed is entry i's short name |
| RandomOrderExtract.ExtractOutput | src/atlifly/cli/random_order.py:54-70 | the crash on the first unnumbered match, or the short names sorted by number; `ExtractAfterNumbering` and `ShuffleThenExtract` state its result after numbering, and the `…Crashes` lemmas its crash |
| RandomOrderExtract.ExtractNames | src/atlifly/cli/random_order.py:54-70 | `extract_names` is either the crash on the first unnumbered match, or the short names sorted by number |
| RandomOrderExtract.CollectEntries | src/atlifly/cli/random_order.py:62-66 | the collecting loop finds the first unnumbered match, or else collects every numbered match's entry in listing order |
| RandomOrderExtract.PrintLines | src/atlifly/cli/random_order.py:69-70 | the printing loop prints the short names in list order |
| RandomOrderExtract.EntryOfNewName | src/atlifly/cli/random_order.py:64-66 | a name made by the numbering loop is a numbered match whose entry is its number and group 2's short name |
| RandomOrderExtract.EntriesMembers | src/atlifly/cli/random_order.py:63-66 | the collected entries are exactly the entries of the listed matches |
| RandomOrderExtract.EntriesHas | src/atlifly/cli/random_order.py:63-66 | every listed match contributes its entry |
| RandomOrderExtract.EntriesOnly | src/atlifly/cli/random_order.py:63-66 | every collected entry comes from a listed match |
| RandomOrderExtract.EntriesDistinctNumbers | src/atlifly/cli/random_order.py:63-66 | matches with distinct numbers give entries with distinct numbers |
| RandomOrderExtract.Expected | src/atlifly/cli/random_order.py:46 | the entries the numbering loop leaves are strictly sorted by number |
| RandomOrderExtract.ExpectedAt | src/atlifly/cli/random_order.py:64-66 | the name made for entry k extracts to entry k of the expected list |
| RandomOrderExtract.TargetEntry | src/atlifly/cli/random_order.py:64-66 | a created name is a numbered match whose number is its position plus one |
| RandomOrderExtract.ListingNumbered | src/atlifly/cli/random_order.py:64 | after numbering, the extract regex matches exactly the created names, and all of them are numbered |
| RandomOrderExtract.ListingNumbersDistinct | src/atlifly/cli/random_order.py:64-66 | after numbering, distinct matches carry distinct numbers |
| RandomOrderExtract.TargetNumbersDistinct | src/atlifly/cli/random_order.py:64-66 | two distinct created names carry distinct numbers |
| RandomOrderExtract.EntriesWithinExpected | src/atlifly/cli/random_order.py:63-66 | every entry collected after numbering is an expected one |
| RandomOrderExtract.ExpectedWithinEntries | src/atlifly/cli/random_order.py:63-66 | every expected entry is collected after numbering |
| RandomOrderExtract.ShortsOfExpected | src/atlifly/cli/random_order.py:69-70 | printing the expected list gives the short names of the entries in order |
| RandomOrderExtract.DistinctByNumber | src/atlifly/cli/random_order.py:68 | entries with distinct numbers are distinct |
| RandomOrderExtract.SortsTo | src/atlifly/cli/random_order.py:68 | distinct entries holding the members of a strictly sorted list sort to that list |
| RandomOrderExtract.ExtractAfterNumbering | src/atlifly/cli/random_order.py:62-70 | after the numbering loop, `extract_names` prints the short name of each entry's group 2, in numbering order, whatever the listing order |
| RandomOrderExtract.ShuffleThenExtract | src/atlifly/cli/random_order.py:37-70 | round trip: when the selected names have distinct group 2 and each group 2 has a short name, `extract_names` after the second pass prints the short names in the shuffled order |
| RandomOrderExtract.ShuffledShortNames | src/atlifly/cli/random_order.py:37-44 | every shuffled entry's group 2 has a short name |
| RandomOrderExtract.ShuffledAfterNumbering | src/atlifly/cli/random_order.py:37-49 | after the second pass the directory holds the new names and only unselected others |
| RandomOrderExtract.EmptyShortNameFallsBack | src/atlifly/cli/random_order.py:64 | with `NN-` directly followed by `_`, the prefixed alternative fails and the regex backtracks to read `NN-` as an unnumbered short name |
| RandomOrderExtract.NumeralDashPrefix | src/atlifly/cli/random_order.py:64 | the prefix of `NN-_…` is the numeral and `-` |
| RandomOrderExtract.UnderscoreFirst | src/atlifly/cli/random_order.py:64 | `[^_]+` cannot match at a `_` |
| RandomOrderExtract.NumeralDashShortName | src/atlifly/cli/random_order.py:64 | the unprefixed alternative reads `NN-` as the short name |
| RandomOrderExtract.EmptyShortNameUnnumbered | src/atlifly/cli/random_order.py:64 | `01-_x.pdf` matches without a number, with short name `01-` |
| RandomOrderExtract.EmptyShortNameCrashes | src/atlifly/cli/random_order.py:64-66 | a directory holding `01-_x.pdf` makes `extract_names` raise on `int(None)` |
| RandomOrderExtract.UnderscoreAfterDigitsUnnumbered | src/atlifly/cli/random_order.py:64 | `01_x.pdf` matches without a number, with short name `01` |
| RandomOrderExtract.UnderscoreAfterDigitsCrashes | src/atlifly/cli/random_order.py:64-66 | a directory holding `01_x.pdf` makes `extract_names` raise |
| RandomOrderExtract.PlainNameUnnumbered | src/atlifly/cli/random_order.py:64 | `Alice_exam.pdf` matches without a number, with short name `Alice` |
| RandomOrderExtract.PlainNameCrashes | src/atlifly/cli/random_order.py:60-66 | an unnumbered exam makes `extract_names` raise rather than print |
| ExamScore.Rows | src/atlifly/cli/exam_score.py:14-20 | total+1 rows; row i has i missed, total−i correct, missed+correct = total, and the percentage of total−i |
| ExamScore.BuildRows | src/atlifly/cli/exam_score.py:14-20 | the loop builds exactly `Rows` |
| ExamScore.MaxLength | src/atlifly/cli/exam_score.py:26-30 | the running `max` over the cell lengths; `MaxLengthIsMax`, `MaxLengthAtLeast` and `MaxLengthAtMost` state that it is the maximum |
| ExamScore.Column | src/atlifly/cli/exam_score.py:27-30 | the cells of one column; `ColumnSnoc` states how a row extends it |
| ExamScore.Width | src/atlifly/cli/exam_score.py:26-30 | a column's width, starting from its header's length; `CountWidth` and `TableWidths` give it in closed form |
| ExamScore.Widths | src/atlifly/cli/exam_score.py:26-30 | the three widths; `ColumnWidths` computes them by the source's loop and `TableWidths` states their values |
| ExamScore.MaxLengthIsMax | src/atlifly/cli/exam_score.py:26-30 | the width is at least the header's length and every cell's, and equals one of them |
| ExamScore.MaxLengthAtLeast | src/atlifly/cli/exam_score.py:26-30 | no cell is longer than the width |
| ExamScore.MaxLengthAtMost | src/atlifly/cli/exam_score.py:26-30 | the width is the least bound on the header and cells |
| ExamScore.ColumnWidths | src/atlifly/cli/exam_score.py:26-30 | the width loop computes exactly `Widths` |
| ExamScore.WidthsStep | src/atlifly/cli/exam_score.py:27-30 | one more row raises each width to that row's cell length if longer |
| ExamScore.ColumnSnoc | src/atlifly/cli/exam_score.py:27-30 | one more row adds its cell to each column |
| ExamScore.MaxLengthSnoc | src/atlifly/cli/exam_score.py:29-30 | one more cell raises the maximum to its length if longer |
| ExamScore.Repeat | src/atlifly/cli/exam_score.py:37 | `"-" * w` is w dashes |
| ExamScore.RJust | src/atlifly/cli/exam_score.py:33 | `str.rjust`; `RJustFacts` states its length, padding and kept text |
| ExamScore.RJustFacts | src/atlifly/cli/exam_score.py:33 | `rjust` pads on the left with spaces up to the width, keeping the text as a suffix; a longer text is unchanged |
| ExamScore.Lines | src/atlifly/cli/exam_score.py:36-39 | header, separator, then one line per row |
| ExamScore.Table | src/atlifly/cli/exam_score.py:23-39 | the table has total+3 lines |
| ExamScore.PrintTable | src/atlifly/cli/exam_score.py:23-39 | the printing loop emits exactly `Table` |
| ExamScore.LinesAt | src/atlifly/cli/exam_score.py:36-39 | line 0 is the header, line 1 the dashes, line j the row j−2 |
| Seqs.Join | src/atlifly/cli/exam_score.py:33 | `sep.join(parts)`; `JoinThree` states it for three cells, and the path lemmas for `/` |
| ExamScore.WriteRow | src/atlifly/cli/exam_score.py:32-34 | `write_row`; `WriteRowLayout` and `WriteRowLength` state its layout and length |
| ExamScore.Dashes | src/atlifly/cli/exam_score.py:37 | the separator cells `"-" * width`; `TableShape` states the separator line |
| ExamScore.WriteRowLayout | src/atlifly/cli/exam_score.py:32-34 | a line is the three right-justified cells joined by two spaces |
| ExamScore.WriteRowLength | src/atlifly/cli/exam_score.py:32-34 | a line of cells that fit is the sum of the widths plus 4 long |
| ExamScore.JoinThree | src/atlifly/cli/exam_score.py:33 | joining three cells puts the separator between each pair |
| ExamScore.CountWidth | src/atlifly/cli/exam_score.py:26-29 | the `Missed` and `Correct` columns are as wide as the longer of the header and the total's numeral |
| ExamScore.CountCellFits | src/atlifly/cli/exam_score.py:28-29 | no count cell is longer than the total's numeral |
| ExamScore.TableWidths | src/atlifly/cli/exam_score.py:26-30 | the widths are max(6, digits of total), max(7, digits of total), and at least 7 and every percentage's length |
| ExamScore.CellsFit | src/atlifly/cli/exam_score.py:26-30 | every header and every cell fits its column |
| ExamScore.LinesShape | src/atlifly/cli/exam_score.py:32-39 | each line of the table is the row's cells, right-justified, two spaces apart |
| ExamScore.LinesAligned | src/atlifly/cli/exam_score.py:32-39 | when the cells fit, every line has the same length |
| ExamScore.TableShape | src/atlifly/cli/exam_score.py:23-39 | the table's header, dashes and rows, with row j−2 showing j−2 missed, total−(j−2) correct and its percentage |
| ExamScore.TableAligned | src/atlifly/cli/exam_score.py:23-39 | every line of the table is the widths plus 4 long, so the columns line up |
| ExamScore.ExamMain | src/atlifly/cli/exam_score.py:53-57 | a total of 0 or less gives the error message and exit status 1 with no table; otherwise the table and status 0 |
| LatexBuild.Split | src/atlifly/cli/latex_build.py:14 | splitting at `/` gives at least one piece and no piece holds `/` |
| LatexBuild.JoinSplit | src/atlifly/cli/latex_build.py:14 | joining the pieces with `/` gives back the string |
| LatexBuild.SplitComponent | src/atlifly/cli/latex_build.py:14 | a string without `/` is one piece |
| LatexBuild.SplitAppend | src/atlifly/cli/latex_build.py:35 | splitting `a/b` gives a's pieces then b's |
| LatexBuild.SplitJoin | src/atlifly/cli/latex_build.py:14 | splitting the `/`-join of pieces without `/` gives the pieces back |
| LatexBuild.Clean | src/atlifly/cli/latex_build.py:14 | dropping empty and `.` pieces leaves only path components |
| LatexBuild.CleanAppend | src/atlifly/cli/latex_build.py:14 | cleaning distributes over concatenation |
| LatexBuild.CleanKeeps | src/atlifly/cli/latex_build.py:14 | components are kept by cleaning |
| LatexBuild.SplitRoot | src/atlifly/cli/latex_build.py:14 | the anchor and the rest give back the string; the anchor is empty exactly without a leading slash, and `//` exactly for two leading slashes not followed by a third |
| LatexBuild.Parse | src/atlifly/cli/latex_build.py:14 | `Path(target)` is a valid path |
| LatexBuild.Str | src/atlifly/cli/latex_build.py:34 | `str(path)` is never empty: the empty relative path prints as `.` |
| LatexBuild.JoinHead | src/atlifly/cli/latex_build.py:34 | a join of components starts with the first component |
| LatexBuild.StrSplitsAtRoot | src/atlifly/cli/latex_build.py:34 | the printed form of a valid path splits back into its anchor and the join of its parts |
| LatexBuild.ParseStr | src/atlifly/cli/latex_build.py:34 | `Path(str(p)) == p` for every valid path |
| LatexBuild.ParseComponent | src/atlifly/cli/latex_build.py:14 | a lone component parses to the relative path of that component |
| LatexBuild.PosixJoin | src/atlifly/cli/latex_build.py:35 | `os.path`-style joining of two strings with `/`; the result is at least as long as both parts |
| LatexBuild.ParseJoin | src/atlifly/cli/latex_build.py:35 | `p / name` for a component name is p with name appended |
| LatexBuild.JoinOntoDot | src/atlifly/cli/latex_build.py:35 | `.` joined with a component is that component |
| LatexBuild.JoinOntoRoot | src/atlifly/cli/latex_build.py:35 | a bare anchor joined with a component is that anchor and component |
| LatexBuild.JoinOntoParts | src/atlifly/cli/latex_build.py:35 | a path with parts joined with a component appends it |
| LatexBuild.SplitAppendComponent | src/atlifly/cli/latex_build.py:35 | the pieces of `s/c` are s's pieces and c |
| LatexBuild.JoinLast | src/atlifly/cli/latex_build.py:35 | a join with one more component ends with `/` and that component |
| LatexBuild.Name | src/atlifly/cli/latex_build.py:16 | `.name` is the last component, and empty exactly when there is none; for a valid path with parts it is a component |
| LatexBuild.Parent | src/atlifly/cli/latex_build.py:34 | `.parent` drops the last component and keeps the anchor, and is valid |
| LatexBuild.LastDot | src/atlifly/cli/latex_build.py:15 | the position of the last `.` in a name, with no `.` after it, or −1 when there is none |
| LatexBuild.Suffix | src/atlifly/cli/latex_build.py:15 | `.suffix` is empty, or a `.` followed by at least one character with no further `.`, and a proper tail of the name |
| LatexBuild.Stem | src/atlifly/cli/latex_build.py:16-19 | the stem and the suffix put together give the name back; a non-empty name has a non-empty stem |
| LatexBuild.SuffixOfAppended | src/atlifly/cli/latex_build.py:15 | a name with `.ext` (no further dot) appended has that suffix and the name as stem |
| LatexBuild.WithName | src/atlifly/cli/latex_build.py:16-19 | `with_name` fails on a path without a name or for a new name that is empty, `.` or holds `/`; otherwise it replaces the last component |
| LatexBuild.WithSuffix | src/atlifly/cli/latex_build.py:16-19 | `with_suffix` fails exactly when the path has no name or the new name would be `.`; otherwise the new name is the stem plus the suffix, in the same directory |
| LatexBuild.Base | src/atlifly/cli/latex_build.py:15-18 | the target with a `.tex`/`.pdf` suffix (any case) removed, or the target itself; `NormalizedShape` states its name and directory |
| LatexBuild.NormalizePath | src/atlifly/cli/latex_build.py:13-20 | `_normalize_target` on a parsed path; `NormalizeFails`, `NormalizedShape` and `StripsOneSuffix` state when it fails and what it returns |
| LatexBuild.NormalizeTarget | src/atlifly/cli/latex_build.py:13-20 | `_normalize_target(target)`; `PlanShape` and the `…Forms` lemmas state its results |
| LatexBuild.NormalizeFails | src/atlifly/cli/latex_build.py:13-20 | normalisation fails exactly on a target without a final component, or one like `..tex` whose stripped name would be `.` |
| LatexBuild.NormalizedShape | src/atlifly/cli/latex_build.py:13-20 | on success: the base is in the target's directory; its name is the target's name without a `.tex`/`.pdf` suffix (or the unchanged target otherwise); the PDF name is a bare component ending in `.pdf` |
| LatexBuild.StripsOneSuffix | src/atlifly/cli/latex_build.py:15-19 | a name with `.tex`/`.pdf` in any letter case appended normalises to that name, and the name's stem with `.pdf` |
| LatexBuild.PdfNameOf | src/atlifly/cli/latex_build.py:19 | the PDF name replaces the base's own suffix with `.pdf` |
| LatexBuild.KeepsOtherName | src/atlifly/cli/latex_build.py:15-20 | a target without a `.tex`/`.pdf` suffix is itself the base |
| LatexBuild.BareWithSuffix | src/atlifly/cli/latex_build.py:13-20 | a bare name with `.tex`/`.pdf` gives that name as base |
| LatexBuild.BareOther | src/atlifly/cli/latex_build.py:13-20 | a bare name without one is its own base |
| LatexBuild.FooWith | src/atlifly/cli/latex_build.py:13-20 | `foo` with `.tex`/`.pdf` in any letter case gives `foo` and `foo.pdf` |
| LatexBuild.PlainForm | src/atlifly/cli/latex_build.py:13-20 | `foo` gives base `foo` and `foo.pdf` |
| LatexBuild.SuffixedForms | src/atlifly/cli/latex_build.py:13-20 | `foo.tex` and `foo.pdf` give the same as `foo` |
| LatexBuild.CaseInsensitiveForms | src/atlifly/cli/latex_build.py:15 | `foo.TEX` and `foo.Pdf` give the same as `foo` |
| LatexBuild.UpperTex | src/atlifly/cli/latex_build.py:15 | `foo.TEX` gives base `foo` and `foo.pdf` |
| LatexBuild.UpperPdf | src/atlifly/cli/latex_build.py:15 | `foo.Pdf` gives base `foo` and `foo.pdf` |
| LatexBuild.DoubleSuffix | src/atlifly/cli/latex_build.py:15-19 | only one suffix is removed: `foo.tex.pdf` gives base `foo.tex` and PDF `foo.pdf` |
| LatexBuild.InnerSuffixKept | src/atlifly/cli/latex_build.py:15-19 | a target like `a/foo.v2.tex` keeps its directory and inner suffix in the base (`a/foo.v2`), while the PDF name is `foo.pdf` |
| LatexBuild.WorkDir | src/atlifly/cli/latex_build.py:34 | `base.parent` unless it prints as `""` or `.`; `WorkDirIsParent` states it |
| LatexBuild.TexPath | src/atlifly/cli/latex_build.py:35 | `(cwd or Path(".")) / f"{base.name}.tex"`; `TexPathIsSibling` states it |
| LatexBuild.ParseDot | src/atlifly/cli/latex_build.py:35 | `Path(".")` is the empty relative path |
| LatexBuild.PrintsDot | src/atlifly/cli/latex_build.py:34 | only the empty relative path prints as `.` |
| LatexBuild.WorkDirIsParent | src/atlifly/cli/latex_build.py:34 | the working directory is the base's parent, and is absent exactly when that parent is the empty relative path |
| LatexBuild.TexPathIsSibling | src/atlifly/cli/latex_build.py:35 | the TeX path is the base's sibling named after the base with `.tex` appended |
| LatexBuild.Plan | src/atlifly/cli/latex_build.py:33-35 | base, PDF name, working directory and TeX path for a target; `PlanShape` states them in terms of the target |
| LatexBuild.PlanShape | src/atlifly/cli/latex_build.py:33-35 | for a target: the TeX file is in its directory and named after it with a `.tex`/`.pdf` suffix replaced by `.tex`, so a `.tex` target is itself the TeX file; the build runs in the target's directory, or none for a bare name |

## Left out

- File system I/O is not modelled. A directory is a map from names to contents, and `os.listdir` is a listing passed in.
- `os.path.join` is not modelled; names stand for paths inside the one directory.
- The argument parsing of all three `main` functions is not modelled. exam-score's `main` is modelled from its integer argument onwards.
- `random.shuffle` is not modelled. Its permutation is an input, and every permutation is covered.
- Output is not modelled as printing. Printed lines are returned; the `Shuffled and renamed {len(files)} PDF files in {directory}` message is represented by the count `PrefixPass` returns.
- Names containing a newline are not modelled. The regular expressions are modelled with `.` matching any character, and Python's `.` does not match a newline.
- `os.rename` follows POSIX semantics. On Windows, renaming onto an existing name raises instead.
- `RandomOrder.Directory.Shuffle`: the second `os.listdir` is a second listing passed in, taken of the directory after the first pass. No connection is assumed between its order and the first listing's.
- `_format_percent` (exam_score.py lines 10-11) is not modelled. Float division and formatting are out of scope, so the percentage cell is an opaque function of the number correct. The widths are proved for every such function.
- latex-build's check that the TeX file exists (latex_build.py lines 36-39) is not modelled. It is file system I/O.
- latex-build's resource copying and the `subprocess` call (latex_build.py lines 41-47) are not modelled. They are external programs.
- Paths are modelled as CPython 3.13 `PurePosixPath` only. Windows paths and drives are not modelled. Neither are the differences of other Python versions. For example, 3.12's `with_suffix` does not check the name it produces, so there `..tex` normalises to the base `.` where 3.13 raises; the second case of `LatexBuild.NormalizeFails` holds from 3.13 on.
- `LatexBuild.WithSuffix` accepts only suffix arguments that are empty or start with `.` and contain no `/`. The other arguments `with_suffix` rejects are not modelled, because `_normalize_target` only passes `""` and `".pdf"`.
- `ExamScore.BuildRows` and `ExamScore.PrintTable` require a positive total. `_build_rows` divides by the total, and `main` only calls it after rejecting totals of 0 or less. `ExamMain` models that check.
