# Word-frequency aggregation, modelled in Dafny

This project models how the word-count programs build and combine their
per-word counts:

- **The list store** (`word_count_l.c`). It is a list of `(word, count)`
  records kept in insertion order.
  - `find_word` returns the first record for a word.
  - `add_word_with_count` raises that record's count, or appends a new
    record when the word is absent.
  - `add_word` does the same with a count of one.
  - `fprint_words` prints one `"%8d\t%s\n"` line per record.
  - `wordcount_sort` orders the list by a caller-supplied comparator.
- **The lock-guarded store** (`word_count_p.c`). It is the same list under
  one mutex. `add_word` takes the mutex, searches, raises or appends, and
  releases the mutex on both paths.
- **The merge and the coordinator** (`fwords.c`).
  - `merge_counts` reads a worker's printed lines back with
    `fscanf("%8d\t%ms\n")`. It folds each record into the global list with
    `add_word_with_count` until the first call that does not return 2, then
    classifies that return value.
  - `main` counts standard input itself when there are no file arguments.
    Otherwise it gives each file to a worker process. The worker counts the
    file into a list of its own, sorts it and prints it to a pipe. The
    coordinator merges that pipe before it moves on to the next file. At the
    end the global list is sorted and printed.

The modules follow the program:

- `ListStore` (list_store.dfy) is the list and its operations.
- `Sort` (sort.dfy) is `wordcount_sort`.
- `Format` (format.dfy) is `fprint_words` and the `%8d` field.
- `Text` (text.dfy) holds the decimal digits and white space.
- `Scan` (scan.dfy) is one `fscanf` call, with the C library's rules:
  - white space before `%8d` does not count toward the width;
  - the sign does count toward the width;
  - `\t` and `\n` in the format skip any white space;
  - the call returns -1, 0, 1 or 2.
- `Merge` (merge.dfy) is `merge_counts`, its decoder and the round trip.
- `LockedStore` (locked_store.dfy) is the mutex-guarded store. It models
  threads calling `add_word` as a machine whose steps are acquire, search,
  update and release, driven by an arbitrary schedule.
- `LockedOutput` (locked_output.dfy) holds the lock-free read operations of
  the guarded store.
- `Coordinator` (coordinator.dfy) is `main`.

Lists are `seq<WordCount>` with unbounded `int` counts. A C pointer to a
record is modelled as the record's index.

Behaviour of the code that the model keeps as written:

- **Malformed lines.** The merge loop stops at the first `fscanf` call
  that does not return 2. Nothing after a malformed line is merged
  (`Merge.StopsAtFirstFailure`).
- **A count line without its word** is not rejected by that call. `%ms`
  skips the newline and the next line's padding, and reads the next line's
  count as the word (`Merge.DecodeMissingWord`).
- **A file that does not open.** The worker calls `exit(1)` before it
  prints anything, so the coordinator reads an empty pipe that ends
  cleanly. No message comes from the merge, and the file contributes
  nothing (`Coordinator.UnopenableIsSilent`).
- **`fprint_words` in word_count_l.c:96** prints `wc->count` and `wc->word`,
  but no `wc` is declared in that function. It is modelled as printing the
  current record, as word_count_p.c:97 does.

## Model

| member | source | states |
|---|---|---|
| ListStore.Init | wordcount/word_count_l.c:29-31 | `init_words` leaves a list of length zero that holds no word |
| ListStore.Len | wordcount/word_count_l.c:33-35 | `len_words` is never below the number of distinct words, and equals it exactly when no word has two records |
| ListStore.FindFrom | wordcount/word_count_l.c:44-49 | the scan from position `i` returns the first position at or after `i` whose word is `w`; it returns nothing exactly when no such position exists |
| ListStore.Find | wordcount/word_count_l.c:37-55 | `find_word` returns the first record whose word equals `w`, and no earlier record has that word; it returns NULL exactly when no record has the word |
| ListStore.AddWithCount | wordcount/word_count_l.c:57-83 | a present word has its first record's count raised by `c`, with the length and every other record unchanged; an absent word gets `{w, c}` appended at the end; every word's total changes by `c` for `w` and by nothing for other words; no duplicates are created; the word set gains `w` |
| ListStore.Add | wordcount/word_count_l.c:85-87 | `add_word` is insert-or-increment with a count of one: the word's total grows by one and no other total changes |
| ListStore.AddAllConserves | wordcount/word_count_l.c:57-83 | after any sequence of `add_word_with_count` calls, each word's total is its old total plus the counts supplied for it; no duplicates appear; positive counts stay positive |
| ListStore.AddAllWords | wordcount/word_count_l.c:57-83 | after a sequence of calls the words present are the old ones plus those supplied |
| ListStore.AddAllFromInit | wordcount/word_count_l.c:57-83 | starting from `init_words`, calls leave one record per word, holding the sum of the counts supplied for it |
| ListStore.AddWordsTotals | wordcount/word_count_l.c:85-87 | `add_word` calls raise each word's total by the number of times it was added |
| ListStore.AddWordsUnique | wordcount/word_count_l.c:85-87 | `add_word` calls never create a second record for a word |
| ListStore.AddWordsWords | wordcount/word_count_l.c:85-87 | the words present after `add_word` calls are the old ones plus the words added |
| ListStore.AddWordsBounds | wordcount/word_count_l.c:85-87 | with counts between 1 and `hi`, `n` more calls leave counts between 1 and `hi + n` |
| ListStore.AddWordsFromInit | wordcount/word_count_l.c:29-87 | counting words into a fresh list gives every word the number of its occurrences; the length is the number of distinct words; every count lies between 1 and the number of words |
| ListStore.UniqueIffDistinct | wordcount/word_count_l.c:33-35 | `len_words` is at least the number of distinct words, and equals it exactly when no word has two records |
| ListStore.RecordCountIsCountOf | wordcount/word_count_l.c:37-55 | in a list without duplicates, `find_word` on a record's word returns that very record, so its count is the one read |
| ListStore.CountOfIsTotal | wordcount/word_count_l.c:37-55 | in a list without duplicates, the count `find_word` finds is the word's total |
| ListStore.PresentIffPositiveTotal | wordcount/word_count_l.c:37-55 | in a duplicate-free list of positive counts, a word is found exactly when its total is positive |
| ListStore.TotalPermutation | wordcount/word_count_l.c:110-113 | rearranging records changes no word's total |
| Sort.SortBy | wordcount/word_count_l.c:110-113 | `wordcount_sort` returns a rearrangement of the records: same multiset, same length |
| Sort.InsertSorted | wordcount/word_count_l.c:110-113 | inserting a record into a list ordered by a strict weak order keeps it ordered |
| Sort.SortBySorted | wordcount/word_count_l.c:100-113 | for a strict weak order, no record of the result is less than a record before it |
| Sort.SortBySortedIsIdentity | wordcount/word_count_l.c:110-113 | a list that is already ordered is left as it is |
| Sort.SortByIdempotent | wordcount/word_count_l.c:110-113 | sorting twice gives what sorting once gives |
| Sort.SortByKeepsContents | wordcount/word_count_l.c:110-113 | sorting keeps every word's total and the set of words; a list without duplicates stays without duplicates |
| Format.PrintWords | wordcount/word_count_l.c:89-98 | `fprint_words` writes at least one newline per record, whatever the words hold, and writes nothing exactly when the list is empty |
| Format.PrintWordsAppend | wordcount/word_count_l.c:94-97 | printing a list prints its records in list order: two lists one after the other print as the concatenation of their printouts |
| Format.OneLinePerRecord | wordcount/word_count_l.c:89-98 | with words free of white space, the output has exactly one newline per record |
| Text.DecimalRoundTrip | wordcount/word_count_l.c:96 | the digits `%d` prints for a non-negative count denote that count |
| Scan.ScanInt | wordcount/fwords.c:59 | `%8d` meets end of input exactly when only white space is left; a value it reads lies in the range 8 characters can hold, and input is consumed |
| Scan.ConvertInt | wordcount/fwords.c:59 | after the white space, `%8d` sees end of input exactly when nothing is left; a value it reads lies between -9999999 and 99999999 |
| Scan.ScanWord | wordcount/fwords.c:59 | `%ms` meets end of input exactly when only white space is left; otherwise it reads a non-empty word without white space |
| Scan.ScanRecord | wordcount/fwords.c:59 | one `fscanf` call returns EOF exactly when only white space is left; it returns at most 1 when it stops early; when it returns 2, the word has no white space, the count fits the field, and the white space after the record is consumed |
| Scan.SkipSpaceOverSpaces | wordcount/fwords.c:59 | leading white space does not change what the call reads |
| Scan.ScanRecordAfterSpace | wordcount/fwords.c:59 | a call reads the same with or without leading white space |
| Merge.MergeCounts | wordcount/fwords.c:55-67 | a clean end means the stream hit end-of-file; a read error means it did not; an ill-formed report carries a match count of at most 1; a list without duplicates stays without duplicates |
| Merge.MergeIsFold | wordcount/fwords.c:59-61 | merging applies `add_word_with_count` to the decoded records in stream order, and ends with the decoded status |
| Merge.MergeAdds | wordcount/fwords.c:59-61 | each word's total grows by the sum of the counts the stream carries for it, never being overwritten |
| Merge.MergeEmpty | wordcount/fwords.c:59-63 | an empty stream leaves the list unchanged and reports how the stream ended |
| Merge.StopsAtEnd | wordcount/fwords.c:59-66 | printed records followed by nothing but white space are all merged; the call that ends the loop returns EOF, which is silent when the stream hit end-of-file and reported as unreadable when it ended in a read error |
| Merge.StopsAtFirstFailure | wordcount/fwords.c:59-61 | after printed records followed by a line the call cannot complete, only the records before that line are merged, and records printed after it never are |
| Merge.StopsBefore | wordcount/fwords.c:59-65 | printed records before an incomplete call are merged, and the call's match count is reported |
| Merge.DecodeEncodable | wordcount/fwords.c:59 | every record read back has a word without white space and a count that fits the field |
| Merge.ConvertNumeral | wordcount/fwords.c:59 | `%8d` reads back exactly the value that `%d` printed, and stops at the character after it |
| Merge.FieldSkipsPadding | wordcount/fwords.c:59 | the white space that `%8d` skips is the padding of the printed field |
| Merge.LineRoundTrip | wordcount/word_count_l.c:96 | one printed line is read back by one `fscanf` call as the record it was printed from, and the white space after it is consumed |
| Merge.DecodeLine | wordcount/fwords.c:59-60 | a printed line in front of a stream puts its record in front of what the stream yields |
| Merge.DecodePrinted | wordcount/fwords.c:59-60 | printed records followed by anything read back as those records, then as whatever the remainder yields |
| Merge.DecodeRoundTrip | wordcount/fwords.c:59-60 | reading a printed list gives back exactly its records in order; the read ends cleanly, or as a read error when the stream ends in one |
| Merge.MergeIntoEmptyRebuilds | wordcount/fwords.c:55-61 | merging a printed list without duplicates into an empty list rebuilds that very list, with a clean end |
| Merge.AddAllUniqueAppends | wordcount/word_count_l.c:66-82 | records whose words are all new and distinct are appended in order |
| Merge.MergeOrderInsensitive | wordcount/fwords.c:59-61 | the per-word totals after a merge do not depend on the order of the lines in the stream |
| Merge.MissingWordTakesNextCount | wordcount/fwords.c:59 | on a count line without a word, the call reads the next line's count as the word, and leaves the next line's word unread |
| Merge.DecodeMissingWord | wordcount/fwords.c:59-60 | that call yields the record (next line's count as a word, this line's count), and reading goes on at the next line's word |
| Merge.MissingWordExample | wordcount/fwords.c:59-65 | on concrete lines, the second line's count becomes the first record's word, and reading stops at the second line's word with zero fields matched |
| Merge.WordStopsCount | wordcount/fwords.c:59-65 | a call that finds, where the count should be, any character that is neither white space, a sign nor a digit matches no field, and the merge reports zero fields matched |
| Merge.TruncatedRecord | wordcount/fwords.c:59-65 | a count line that ends the stream right after its tab matches one field, and no record is read |
| LockedStore.Init | wordcount/word_count_p.c:33-38 | `init_words` leaves an empty list and an unlocked mutex |
| LockedStore.Len | wordcount/word_count_p.c:40-42 | `len_words` of the guarded store is never below the number of distinct words, and equals it exactly when no word has two records |
| LockedStore.FindWord | wordcount/word_count_p.c:44-54 | `find_word` returns the first record for the word, with no earlier record having it; it returns NULL exactly when the word is absent |
| LockedStore.AddWord | wordcount/word_count_p.c:56-88 | one `add_word` with the mutex free gives the list `add_word` of word_count_l.c gives, leaves the mutex free, and keeps the list without duplicates |
| LockedStore.StepKeepsInv | wordcount/word_count_p.c:56-88 | every step of every thread keeps the invariant: only the mutex holder is between lock and unlock; a pending update still matches its search; the list is the sequential list fed the committed words; every word is committed or pending exactly once |
| LockedStore.StepUpdating | wordcount/word_count_p.c:63-85 | the update step turns the list into what `add_word` of word_count_l.c makes of it, while the thread still holds the mutex; it commits the thread's word and keeps the invariant |
| LockedStore.RunKeepsInv | wordcount/word_count_p.c:56-88 | the invariant holds after any schedule of steps |
| LockedStore.StartInv | wordcount/word_count_p.c:33-38 | the invariant holds before any thread moves |
| LockedStore.FinishedMachine | wordcount/word_count_p.c:56-88 | once every thread has finished, the mutex is free, every word was committed, the list has no duplicates, and each count is the number of times its word was committed |
| LockedStore.FinishedRun | wordcount/word_count_p.c:56-88 | whatever the interleaving, when all threads finish the list equals the sequential list fed the words in update order, the mutex is free, and each word's count is the number of times the threads added it |
| LockedStore.InterleavingsAgree | wordcount/word_count_p.c:56-88 | two interleavings that both finish give every word the same count |
| LockedStore.TwoThreadsSameWord | wordcount/word_count_p.c:62-70 | two threads adding the same word leave a single record with count two, whatever the interleaving |
| LockedOutput.FprintWords | wordcount/word_count_p.c:90-100 | `fprint_words` of the guarded store writes at least one newline per record, and nothing exactly when the list is empty |
| LockedOutput.FprintWordsLines | wordcount/word_count_p.c:90-100 | the guarded store prints one line per record |
| LockedOutput.SortWords | wordcount/word_count_p.c:112-115 | sorting rearranges the records and leaves the mutex as it was |
| LockedOutput.SortWordsSorted | wordcount/word_count_p.c:103-115 | for a strict weak order, the sorted list is ordered |
| Coordinator.LocalCountsSpec | wordcount/fwords.c:107-118 | a worker's list has one record per distinct word of its file, holding the number of times the word occurs there |
| Coordinator.WorkerOutput | wordcount/fwords.c:110-134 | what the coordinator reads back from a worker's pipe is exactly the worker's sorted list, ending cleanly, when no word of the file occurs more often than a count field can hold; a worker whose file does not open writes nothing, and its pipe ends cleanly |
| Coordinator.LocalEncodable | wordcount/fwords.c:116-119 | a worker's printed list can be read back: its words hold no white space, and each count, being the number of times its word occurs, fits the field |
| Coordinator.Collect | wordcount/fwords.c:81-137 | the loop makes one report per file argument and never creates a second record for a word |
| Coordinator.CollectFoldsDecoded | wordcount/fwords.c:81-137 | merging pipes that each read back as a list folds those lists in file order, and every merge ends cleanly |
| Coordinator.FoldStoresIsFoldWorkers | wordcount/fwords.c:81-137 | folding the workers' lists is folding each worker's counts in file order |
| Coordinator.CollectIsFold | wordcount/fwords.c:81-137 | the global list is the additive fold of every worker's list, one file after another, and every merge ends cleanly |
| Coordinator.FoldWorkersCounts | wordcount/fwords.c:107-137 | the fold adds to each word the number of times it occurs in all the files together, and keeps the list without duplicates |
| Coordinator.FoldWorkersWords | wordcount/fwords.c:107-137 | the fold adds exactly the words of the files |
| Coordinator.UnopenableIsSilent | wordcount/fwords.c:110-114 | a file that does not open changes nothing and is reported as a clean end |
| Coordinator.Main | wordcount/fwords.c:72-144 | the output is the final list printed by `fprint_words`; there is one report per file argument; the final list has no duplicates |
| Coordinator.MainCounts | wordcount/fwords.c:72-144 | the final list gives each word the number of times it occurs in the input, every merge ends cleanly, and the list is ordered when the comparator is a strict weak order |
| Coordinator.DriversAgree | wordcount/fwords.c:77-138 | counting the files in worker processes gives every word the count that counting all their words in one process gives |
| Coordinator.MainWords | wordcount/fwords.c:140-142 | the final list holds exactly the words counted |
| Coordinator.OneLinePerWord | wordcount/fwords.c:140-142 | the run prints one line per distinct word counted |

## Left out

- Output text. `perror` and `fprintf(stderr, …)` messages become the
  `Status` value of each merge. Standard output is the string `Main`
  returns. No file descriptor is modelled.
- ListStore.AddWithCount: does not model overflow of the C `int` in
  `count += count`. Counts are unbounded integers, because the record format
  and the merge are the subject here, not machine arithmetic.
- Allocation failure. `malloc` returning NULL in `add_word_with_count`
  (word_count_l.c:72-76) is left out; word_count_p.c does not check it.
  `%ms` failing to allocate is left out too.
- Pointer identity. Words are stored by value. The `strdup` copy in
  word_count_p.c:77 and the aliasing of the `%ms` buffer in
  word_count_l.c:78 cannot be observed in this model.
- Sort.SortBy: the model uses a stable insertion sort in place of
  `list_sort`. Its contract is what `wordcount_sort` promises (a
  rearrangement, ordered for a strict weak order), not the algorithm.
- `count_words` and `less_count` are not part of this model. Each input is
  given as the words the splitter yields. The comparator is any function on
  two records.
- Process creation and pipes. `pipe`, `fork`, `fdopen`, `fclose` and their
  failure paths (`exit(1)`) are left out. So is the fact that the parent
  never waits for its children. Each worker is reduced to the stream it
  leaves in its pipe, and that stream always ends at end-of-file.
- Read errors are modelled only at the end of a stream. A stream carries
  its characters and says whether it ends in a read error or at
  end-of-file.
- Merge.DecodeRoundTrip: requires words without white space and counts
  between -9999999 and 99999999. `%8d` prints a wider count in full, but
  reading it back takes only the first eight characters as the count, and
  `%ms` then takes the rest of the digits as the word.
- LockedStore.FindWord: reads the list without the lock, as the C code
  does. The model gives it the list as it stands and does not model a
  concurrent reader. `fprint_words` and `wordcount_sort` of the guarded
  store are likewise modelled on a snapshot of the list.
- LockedStore.FinishedRun: says nothing about schedules that never let
  every thread finish. Fairness and termination of the threads are not
  modelled.
- NUL characters. Characters stand for the bytes of the input, and the
  model takes a word to be the whole run of non-white-space characters.
  `%ms` also stores a NUL byte inside a word, and `strcmp` and `printf`
  then see only the part before it. Input holding NUL bytes is outside
  this model.
- Coordinator.WorkerOutput: the round trip is stated for files in which no
  word occurs more than 99999999 times. A larger count prints wider than
  the `%8d` field and does not read back (see Merge.DecodeRoundTrip).
- pwords.c and the shell directory are not part of this model.
