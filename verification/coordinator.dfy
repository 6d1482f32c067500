/** The coordinator of fwords.c (`main`). With no file arguments it counts
    standard input itself. Otherwise, one file after another, a worker
    counts the file into a list of its own, sorts it and prints it to a pipe.
    The coordinator merges that pipe into the global list before it moves
    to the next file. At the end the global list is sorted and printed.

    Splitting a file into words (`count_words`) is not part of this model:
    each input is given as the words the splitter yields. Pipes, `fork`,
    `fdopen` and `exit` are reduced to the stream a worker leaves in its pipe. */
module Coordinator {
  import opened Text
  import opened ListStore
  import opened Format
  import opened Sort
  import opened Merge

  /** A file argument: one that opens, with the words it holds, or one `fopen` refuses. */
  datatype Input = Readable(tokens: seq<string>) | Unopenable

  /** The words of an input; a file that does not open has none. */
  function Tokens(input: Input): seq<string> {
    match input
    case Readable(tokens) => tokens
    case Unopenable => []
  }

  /** The words of all inputs, input after input. */
  function AllTokens(inputs: seq<Input>): seq<string> {
    if |inputs| == 0 then [] else Tokens(inputs[0]) + AllTokens(inputs[1..])
  }

  /** The list a worker builds: `init_words`, `count_words`, then
      `wordcount_sort`; a worker whose `fopen` fails builds nothing. */
  function LocalCounts(input: Input, less: Less): Store {
    match input
    case Unopenable => []
    case Readable(tokens) => SortBy(AddWords(ListStore.Init(), tokens), less)
  }

  /** A worker's list has one record per distinct word of its file, holding
      the number of times the word occurs there. */
  lemma LocalCountsSpec(input: Input, less: Less)
    ensures forall w :: Total(LocalCounts(input, less), w) == multiset(Tokens(input))[w]
    ensures Unique(LocalCounts(input, less))
    ensures Words(LocalCounts(input, less)) == set w | w in Tokens(input)
  {
    if input.Readable? {
      var counted := AddWords(ListStore.Init(), input.tokens);
      AddWordsTotals(ListStore.Init(), input.tokens);
      AddWordsFromInit(input.tokens);
      AddWordsWords(ListStore.Init(), input.tokens);
      SortByKeepsContents(counted, less);
    }
  }

  /** What the coordinator reads from a worker's pipe: the worker's list
      printed by `fprint_words`, or nothing when the worker exited before
      printing. The pipe then reports end-of-file. Read back with `fscanf`,
      it yields the worker's list, provided no count outgrows its field. */
  function WorkerOutput(input: Input, less: Less): (r: Stream)
    ensures WellFormed(input) ==> Decode(r) == Decoded(LocalCounts(input, less), Clean)
    ensures input.Unopenable? ==> r.data == "" && !r.endsInError
  {
    var r := Stream(PrintWords(LocalCounts(input, less)), false);
    if WellFormed(input) then
      LocalEncodable(input, less);
      DecodeRoundTrip(LocalCounts(input, less), false);
      r
    else r
  }

  /** What the coordinator reads from the pipe of each file argument, in order. */
  function Pipes(inputs: seq<Input>, less: Less): (r: seq<Stream>)
    ensures |r| == |inputs|
    decreases |inputs|
  {
    if |inputs| == 0 then [] else [WorkerOutput(inputs[0], less)] + Pipes(inputs[1..], less)
  }

  /** The pipe of the `i`-th file argument is that file's worker output. */
  lemma {:induction false} PipesAt(inputs: seq<Input>, less: Less, i: nat)
    requires i < |inputs|
    ensures Pipes(inputs, less)[i] == WorkerOutput(inputs[i], less)
    decreases i
  {
    if i > 0 {
      PipesAt(inputs[1..], less, i - 1);
    }
  }

  /** The global list and the report of each `merge_counts` call, in file order. */
  datatype Collected = Collected(store: Store, reports: seq<Status>)

  /** The loop over the file arguments: merge each worker's pipe into the
      global list in turn. */
  function Collect(st: Store, pipes: seq<Stream>): (r: Collected)
    ensures |r.reports| == |pipes|
    ensures Unique(st) ==> Unique(r.store)
    decreases |pipes|
  {
    if |pipes| == 0 then Collected(st, [])
    else
      var m := MergeCounts(st, pipes[0]);
      var rest := Collect(m.store, pipes[1..]);
      Collected(rest.store, [m.status] + rest.reports)
  }

  /** What a run produces: the final list, its printed form on standard
      output, and the report of each merge. */
  datatype Outcome = Outcome(final: Store, output: string, reports: seq<Status>)

  /** `main`: count standard input when there are no file arguments, else
      collect every worker; then sort the global list and print it. */
  function Main(stdin: seq<string>, inputs: seq<Input>, less: Less): (r: Outcome)
    ensures r.output == PrintWords(r.final)
    ensures |r.reports| == |inputs|
    ensures Unique(r.final)
  {
    var c := if |inputs| == 0 then Collected(AddWords(ListStore.Init(), stdin), [])
             else Collect(ListStore.Init(), Pipes(inputs, less));
    AddWordsUnique(ListStore.Init(), stdin);
    SortByKeepsContents(c.store, less);
    var final := SortBy(c.store, less);
    Outcome(final, PrintWords(final), c.reports)
  }

  // ---------------------------------------------------------------------
  // The fold over workers
  // ---------------------------------------------------------------------

  /** Words the splitter can yield (no white space, not empty), none of them
      occurring in one file more often than a count field can hold. */
  predicate WellFormed(input: Input) {
    forall i :: 0 <= i < |Tokens(input)| ==>
      ValidWord(Tokens(input)[i]) && multiset(Tokens(input))[Tokens(input)[i]] <= MaxCount
  }

  predicate AllWellFormed(inputs: seq<Input>) {
    forall i :: 0 <= i < |inputs| ==> WellFormed(inputs[i])
  }

  /** The additive fold of the workers' lists into `st`, worker after worker. */
  function FoldWorkers(st: Store, inputs: seq<Input>, less: Less): Store
    decreases |inputs|
  {
    if |inputs| == 0 then st
    else FoldWorkers(AddAll(st, LocalCounts(inputs[0], less)), inputs[1..], less)
  }

  /** A worker's list can be printed and read back: its words hold no white
      space and each count is the number of times its word occurs. */
  lemma LocalEncodable(input: Input, less: Less)
    requires WellFormed(input)
    ensures AllEncodable(LocalCounts(input, less))
  {
    if input.Readable? {
      var tokens := input.tokens;
      var counted := AddWords(ListStore.Init(), tokens);
      forall i | 0 <= i < |counted| ensures Encodable(counted[i]) {
        CountedEncodable(tokens, i);
      }
      var sorted := SortBy(counted, less);
      forall i | 0 <= i < |sorted| ensures Encodable(sorted[i]) {
        assert sorted[i] in multiset(counted);
      }
    }
  }

  /** A record a worker counted holds a word of its file and that word's
      number of occurrences. */
  lemma CountedEncodable(tokens: seq<string>, i: nat)
    requires WellFormed(Readable(tokens))
    requires i < |AddWords(ListStore.Init(), tokens)|
    ensures Encodable(AddWords(ListStore.Init(), tokens)[i])
  {
    var counted := AddWords(ListStore.Init(), tokens);
    var w := counted[i].word;
    AddWordsFromInit(tokens);
    AddWordsWords(ListStore.Init(), tokens);
    assert w in Words(counted);
    var j :| 0 <= j < |tokens| && tokens[j] == w;
    assert ValidWord(w) && multiset(tokens)[w] <= MaxCount by {
      assert Tokens(Readable(tokens))[j] == w;
    }
    RecordCountIsCountOf(counted, i);
    assert counted[i].count == multiset(tokens)[w];
    assert 1 <= counted[i].count;
  }

  /** The workers' lists, in file order. */
  function Locals(inputs: seq<Input>, less: Less): (r: seq<Store>)
    ensures |r| == |inputs|
  {
    seq(|inputs|, i requires 0 <= i < |inputs| => LocalCounts(inputs[i], less))
  }

  /** The additive fold of lists into `st`, one after another. */
  function FoldStores(st: Store, locals: seq<Store>): Store
    decreases |locals|
  {
    if |locals| == 0 then st else FoldStores(AddAll(st, locals[0]), locals[1..])
  }

  /** Merging streams that each read back as a list and end cleanly folds
      those lists, and every merge ends cleanly. */
  lemma {:induction false} CollectFoldsDecoded(st: Store, pipes: seq<Stream>, locals: seq<Store>)
    requires |pipes| == |locals|
    requires forall i :: 0 <= i < |pipes| ==> Decode(pipes[i]) == Decoded(locals[i], Clean)
    ensures Collect(st, pipes).store == FoldStores(st, locals)
    ensures AllClean(Collect(st, pipes).reports)
    decreases |pipes|
  {
    if |pipes| > 0 {
      MergeIsFold(st, pipes[0]);
      var next := AddAll(st, locals[0]);
      assert MergeCounts(st, pipes[0]) == Merged(next, Clean);
      forall i | 0 <= i < |pipes[1..]| ensures Decode(pipes[1..][i]) == Decoded(locals[1..][i], Clean) {
        assert pipes[1..][i] == pipes[i + 1] && locals[1..][i] == locals[i + 1];
      }
      CollectFoldsDecoded(next, pipes[1..], locals[1..]);
      AllCleanCons(Collect(next, pipes[1..]).reports);
    }
  }

  lemma {:induction false} FoldStoresIsFoldWorkers(st: Store, inputs: seq<Input>, less: Less)
    ensures FoldStores(st, Locals(inputs, less)) == FoldWorkers(st, inputs, less)
    decreases |inputs|
  {
    if |inputs| > 0 {
      assert Locals(inputs, less)[1..] == Locals(inputs[1..], less);
      FoldStoresIsFoldWorkers(AddAll(st, LocalCounts(inputs[0], less)), inputs[1..], less);
    }
  }

  /** The global list is the fold of every worker's list, taken one worker
      after another, and every merge ends cleanly. */
  lemma CollectIsFold(st: Store, inputs: seq<Input>, less: Less)
    requires AllWellFormed(inputs)
    ensures Collect(st, Pipes(inputs, less)).store == FoldWorkers(st, inputs, less)
    ensures AllClean(Collect(st, Pipes(inputs, less)).reports)
  {
    var pipes := Pipes(inputs, less);
    var locals := Locals(inputs, less);
    forall i | 0 <= i < |pipes| ensures Decode(pipes[i]) == Decoded(locals[i], Clean) {
      PipesAt(inputs, less, i);
      assert WellFormed(inputs[i]);
    }
    CollectFoldsDecoded(st, pipes, locals);
    FoldStoresIsFoldWorkers(st, inputs, less);
  }

  /** Every merge ended at a clean end-of-file: nothing went to standard error. */
  predicate AllClean(reports: seq<Status>) {
    forall i :: 0 <= i < |reports| ==> reports[i] == Clean
  }

  lemma AllCleanCons(reports: seq<Status>)
    requires AllClean(reports)
    ensures AllClean([Clean] + reports)
  {
    forall i | 0 < i <= |reports| ensures ([Clean] + reports)[i] == Clean {
      assert ([Clean] + reports)[i] == reports[i - 1];
    }
  }

  /** Folding the workers adds, for every word, the number of times it
      occurs in all the inputs together. */
  lemma {:induction false} FoldWorkersCounts(st: Store, inputs: seq<Input>, less: Less)
    ensures forall w :: Total(FoldWorkers(st, inputs, less), w) == Total(st, w) + multiset(AllTokens(inputs))[w]
    ensures Unique(st) ==> Unique(FoldWorkers(st, inputs, less))
    decreases |inputs|
  {
    if |inputs| > 0 {
      var local := LocalCounts(inputs[0], less);
      var next := AddAll(st, local);
      LocalCountsSpec(inputs[0], less);
      AddAllConserves(st, local);
      FoldWorkersCounts(next, inputs[1..], less);
      assert AllTokens(inputs) == Tokens(inputs[0]) + AllTokens(inputs[1..]);
    }
  }

  /** A file that does not open is dropped without a report: its worker
      exits before printing, so the coordinator reads a clean, empty pipe. */
  lemma UnopenableIsSilent(st: Store, rest: seq<Input>, less: Less)
    ensures var r := Collect(st, Pipes([Unopenable] + rest, less));
            r.store == Collect(st, Pipes(rest, less)).store && r.reports[0] == Clean
  {
    var pipes := Pipes([Unopenable] + rest, less);
    PipesOfUnopenable(rest, less);
    CollectEmptyFirst(st, pipes);
  }

  lemma PipesOfUnopenable(rest: seq<Input>, less: Less)
    ensures Pipes([Unopenable] + rest, less)[0] == Stream("", false)
    ensures Pipes([Unopenable] + rest, less)[1..] == Pipes(rest, less)
  {
    var w := WorkerOutput(Unopenable, less);
    assert w.data == "" && !w.endsInError;
    PipesTail(Unopenable, rest, less);
  }

  /** The pipes of the files after the first are the pipes of the rest. */
  lemma PipesTail(x: Input, rest: seq<Input>, less: Less)
    ensures Pipes([x] + rest, less)[0] == WorkerOutput(x, less)
    ensures Pipes([x] + rest, less)[1..] == Pipes(rest, less)
  {
    assert ([x] + rest)[1..] == rest;
  }

  /** An empty, clean pipe changes nothing and is reported clean. */
  lemma CollectEmptyFirst(st: Store, pipes: seq<Stream>)
    requires |pipes| > 0 && pipes[0] == Stream("", false)
    ensures Collect(st, pipes).store == Collect(st, pipes[1..]).store
    ensures Collect(st, pipes).reports[0] == Clean
  {
    MergeEmpty(st, false);
  }

  // ---------------------------------------------------------------------
  // The whole run
  // ---------------------------------------------------------------------

  /** The words a run counts: standard input's when there are no file
      arguments, otherwise those of all the files. */
  function RunTokens(stdin: seq<string>, inputs: seq<Input>): seq<string> {
    if |inputs| == 0 then stdin else AllTokens(inputs)
  }

  /** A run's final list has one record per word counted, holding the number
      of times the word occurs, in `less` order; every merge ends cleanly. */
  lemma MainCounts(stdin: seq<string>, inputs: seq<Input>, less: Less)
    requires AllWellFormed(inputs)
    ensures var r := Main(stdin, inputs, less);
            && (forall w :: CountOf(r.final, w) == multiset(RunTokens(stdin, inputs))[w])
            && AllClean(r.reports)
            && (StrictWeakOrder(less) ==> Sorted(r.final, less))
  {
    var r := Main(stdin, inputs, less);
    var st := if |inputs| == 0 then AddWords(ListStore.Init(), stdin)
              else Collect(ListStore.Init(), Pipes(inputs, less)).store;
    if |inputs| == 0 {
      AddWordsTotals(ListStore.Init(), stdin);
    } else {
      CollectIsFold(ListStore.Init(), inputs, less);
      FoldWorkersCounts(ListStore.Init(), inputs, less);
    }
    SortByKeepsContents(st, less);
    forall w ensures CountOf(r.final, w) == multiset(RunTokens(stdin, inputs))[w] {
      CountOfIsTotal(r.final, w);
    }
    if StrictWeakOrder(less) {
      SortBySorted(st, less);
    }
  }

  /** Counting the files in worker processes gives every word the count that
      counting all their words in one process gives. */
  lemma DriversAgree(inputs: seq<Input>, less: Less)
    requires AllWellFormed(inputs) && |inputs| > 0
    ensures forall w :: CountOf(Main([], inputs, less).final, w) ==
                        CountOf(Main(AllTokens(inputs), [], less).final, w)
  {
    MainCounts([], inputs, less);
    MainCounts(AllTokens(inputs), [], less);
  }

  /** Folding the workers adds exactly the words of the inputs. */
  lemma {:induction false} FoldWorkersWords(st: Store, inputs: seq<Input>, less: Less)
    ensures Words(FoldWorkers(st, inputs, less)) == Words(st) + set w | w in AllTokens(inputs)
    decreases |inputs|
  {
    if |inputs| > 0 {
      var local := LocalCounts(inputs[0], less);
      LocalCountsSpec(inputs[0], less);
      AddAllWords(st, local);
      FoldWorkersWords(AddAll(st, local), inputs[1..], less);
      var a := Tokens(inputs[0]);
      var b := AllTokens(inputs[1..]);
      assert AllTokens(inputs) == a + b;
      WordsOfConcat(a, b);
    }
  }

  lemma WordsOfConcat(a: seq<string>, b: seq<string>)
    ensures (set w | w in a + b) == (set w | w in a) + (set w | w in b)
  {
  }

  /** The final list holds exactly the words counted. */
  lemma MainWords(stdin: seq<string>, inputs: seq<Input>, less: Less)
    requires AllWellFormed(inputs)
    ensures Words(Main(stdin, inputs, less).final) == set w | w in RunTokens(stdin, inputs)
  {
    var st := if |inputs| == 0 then AddWords(ListStore.Init(), stdin)
              else Collect(ListStore.Init(), Pipes(inputs, less)).store;
    if |inputs| == 0 {
      AddWordsWords(ListStore.Init(), stdin);
    } else {
      CollectIsFold(ListStore.Init(), inputs, less);
      FoldWorkersWords(ListStore.Init(), inputs, less);
    }
    SortByKeepsContents(st, less);
  }

  /** The run prints one line per distinct word counted. */
  lemma OneLinePerWord(stdin: seq<string>, inputs: seq<Input>, less: Less)
    requires AllWellFormed(inputs)
    requires forall i :: 0 <= i < |stdin| ==> ValidWord(stdin[i])
    ensures NewlineCount(Main(stdin, inputs, less).output) == |set w | w in RunTokens(stdin, inputs)|
  {
    var r := Main(stdin, inputs, less);
    MainWords(stdin, inputs, less);
    forall i | 0 <= i < |r.final| ensures ValidWord(r.final[i].word) {
      assert r.final[i].word in Words(r.final);
      TokenValid(stdin, inputs, r.final[i].word);
    }
    UniqueIffDistinct(r.final);
    OneLinePerRecord(r.final);
  }

  /** Every word a run counts is one the splitter can yield. */
  lemma TokenValid(stdin: seq<string>, inputs: seq<Input>, w: string)
    requires AllWellFormed(inputs)
    requires forall i :: 0 <= i < |stdin| ==> ValidWord(stdin[i])
    requires w in RunTokens(stdin, inputs)
    ensures ValidWord(w)
  {
    if |inputs| > 0 {
      AllTokensValid(inputs, w);
    }
  }

  lemma {:induction false} AllTokensValid(inputs: seq<Input>, w: string)
    requires AllWellFormed(inputs)
    requires w in AllTokens(inputs)
    ensures ValidWord(w)
  {
    if |inputs| > 0 {
      if w in Tokens(inputs[0]) {
        var j :| 0 <= j < |Tokens(inputs[0])| && Tokens(inputs[0])[j] == w;
        assert WellFormed(inputs[0]);
      } else {
        assert AllWellFormed(inputs[1..]) by {
          forall i | 0 <= i < |inputs[1..]| ensures WellFormed(inputs[1..][i]) {
            assert inputs[1..][i] == inputs[i + 1];
          }
        }
        AllTokensValid(inputs[1..], w);
      }
    }
  }
}
