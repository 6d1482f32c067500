/** The unsynchronised word-count list of word_count_l.c: a list of
    (word, count) records in insertion order, searched by exact string
    equality and updated by insert-or-increment. */
module ListStore {

  datatype Option<T> = None | Some(value: T)

  /** One list element (`word_count_t`): a word and its count. */
  datatype WordCount = WordCount(word: string, count: int)

  /** The list, in insertion order. */
  type Store = seq<WordCount>

  /** What `add_word_with_count` leaves behind: the new list and the position
      of the record it returned. */
  datatype Added = Added(store: Store, at: nat)

  // ---------------------------------------------------------------------
  // Reference definitions the operations are specified against
  // ---------------------------------------------------------------------

  predicate HasWord(s: Store, w: string) {
    exists i :: 0 <= i < |s| && s[i].word == w
  }

  /** The words present in the list. */
  function Words(s: Store): set<string> {
    set i | 0 <= i < |s| :: s[i].word
  }

  /** At most one record per distinct word. */
  predicate Unique(s: Store) {
    forall i, j :: 0 <= i < j < |s| ==> s[i].word != s[j].word
  }

  /** Every record's count is at least one. */
  predicate Positive(s: Store) {
    forall i :: 0 <= i < |s| ==> s[i].count >= 1
  }

  /** The sum of the counts of all records for `w`; also used for a sequence
      of (word, count) arguments, where it is the sum of the counts supplied
      for `w`. */
  function Total(s: seq<WordCount>, w: string): int {
    if |s| == 0 then 0
    else (if s[0].word == w then s[0].count else 0) + Total(s[1..], w)
  }

  // ---------------------------------------------------------------------
  // Operations of word_count_l.c
  // ---------------------------------------------------------------------

  /** `init_words`: an empty list. */
  function Init(): (s: Store)
    ensures Len(s) == 0
    ensures forall w :: !HasWord(s, w)
  {
    []
  }

  /** `len_words`: the number of records. It is never below the number of
      distinct words, and equals it exactly when no word has two records. */
  function Len(s: Store): (n: nat)
    ensures n >= |Words(s)|
    ensures Unique(s) <==> n == |Words(s)|
  {
    UniqueIffDistinct(s);
    |s|
  }

  /** The scan of `find_word` from position `i` on. */
  function FindFrom(s: Store, w: string, i: nat): (r: Option<nat>)
    requires i <= |s|
    ensures r.Some? ==> i <= r.value < |s| && s[r.value].word == w
    ensures r.Some? ==> forall j :: i <= j < r.value ==> s[j].word != w
    ensures r.None? <==> forall j :: i <= j < |s| ==> s[j].word != w
    decreases |s| - i
  {
    if i == |s| then None
    else if s[i].word == w then Some(i)
    else FindFrom(s, w, i + 1)
  }

  /** `find_word`: the position of the first record whose word equals `w`,
      or None (the C NULL) when there is none. */
  function Find(s: Store, w: string): (r: Option<nat>)
    ensures r.Some? ==> r.value < |s| && s[r.value].word == w
    ensures r.Some? ==> forall j :: 0 <= j < r.value ==> s[j].word != w
    ensures r.None? <==> !HasWord(s, w)
  {
    FindFrom(s, w, 0)
  }

  /** The count a caller reads through the record `find_word` returns, 0 when absent. */
  function CountOf(s: Store, w: string): int {
    match Find(s, w)
    case Some(i) => s[i].count
    case None => 0
  }

  /** `add_word_with_count`: raise the first record for `w` by `c`, or append
      a new record `{w, c}` when `w` is absent. */
  function AddWithCount(s: Store, w: string, c: int): (r: Added)
    ensures r.at < |r.store| && r.store[r.at].word == w
    ensures forall j :: 0 <= j < r.at ==> r.store[j].word != w
    ensures HasWord(s, w) ==>
              && |r.store| == |s|
              && r.store[r.at].count == s[r.at].count + c
              && forall j :: 0 <= j < |s| && j != r.at ==> r.store[j] == s[j]
    ensures !HasWord(s, w) ==>
              && r.at == |s|
              && r.store[..|s|] == s
              && r.store[|s|] == WordCount(w, c)
              && |r.store| == |s| + 1
    ensures forall v :: Total(r.store, v) == Total(s, v) + (if v == w then c else 0)
    ensures Unique(s) ==> Unique(r.store)
    ensures Words(r.store) == Words(s) + {w}
  {
    match Find(s, w)
    case Some(i) =>
      var t := s[i := s[i].(count := s[i].count + c)];
      TotalUpdate(s, i, t[i]);
      assert Words(t) == Words(s) by {
        assert forall j :: 0 <= j < |s| ==> t[j].word == s[j].word;
      }
      Added(t, i)
    case None =>
      var t := s + [WordCount(w, c)];
      assert [WordCount(w, c)][1..] == [];
      forall v ensures Total(t, v) == Total(s, v) + (if v == w then c else 0) {
        TotalAppend(s, [WordCount(w, c)], v);
      }
      assert Words(t) == Words(s) + {w} by {
        assert t[|s|].word == w;
        assert forall j :: 0 <= j < |s| ==> t[j] == s[j];
      }
      Added(t, |s|)
  }

  /** `add_word`: the same as `add_word_with_count` with a count of one. */
  function Add(s: Store, w: string): (r: Added)
    ensures r.at < |r.store| && r.store[r.at].word == w
    ensures HasWord(s, w) ==>
              && |r.store| == |s|
              && r.store[r.at].count == s[r.at].count + 1
              && forall j :: 0 <= j < |s| && j != r.at ==> r.store[j] == s[j]
    ensures !HasWord(s, w) ==> r.store == s + [WordCount(w, 1)]
    ensures forall v :: Total(r.store, v) == Total(s, v) + (if v == w then 1 else 0)
  {
    var r := AddWithCount(s, w, 1);
    assert !HasWord(s, w) ==> r.store == r.store[..|s|] + [r.store[|s|]];
    r
  }

  /** A sequence of `add_word_with_count` calls, one per (word, count) argument, in order. */
  function AddAll(s: Store, calls: seq<WordCount>): Store
    decreases |calls|
  {
    if |calls| == 0 then s
    else AddAll(AddWithCount(s, calls[0].word, calls[0].count).store, calls[1..])
  }

  /** A sequence of `add_word` calls, one per word, in order. */
  function AddWords(s: Store, ws: seq<string>): Store
    decreases |ws|
  {
    if |ws| == 0 then s else AddWords(Add(s, ws[0]).store, ws[1..])
  }

  // ---------------------------------------------------------------------
  // Lemmas about Total
  // ---------------------------------------------------------------------

  lemma {:induction false} TotalAppend(a: seq<WordCount>, b: seq<WordCount>, w: string)
    ensures Total(a + b, w) == Total(a, w) + Total(b, w)
  {
    if |a| > 0 {
      assert (a + b)[1..] == a[1..] + b;
      TotalAppend(a[1..], b, w);
    } else {
      assert a + b == b;
    }
  }

  lemma {:induction false} TotalUpdate(s: Store, i: nat, x: WordCount)
    requires i < |s|
    ensures forall w :: Total(s[i := x], w) ==
                        Total(s, w) - (if s[i].word == w then s[i].count else 0)
                                    + (if x.word == w then x.count else 0)
  {
    if i > 0 {
      assert s[i := x][1..] == s[1..][i - 1 := x];
      TotalUpdate(s[1..], i - 1, x);
    }
  }

  /** Taking the record at `k` out removes exactly its contribution. */
  lemma TotalRemove(b: seq<WordCount>, k: nat)
    requires k < |b|
    ensures forall w :: Total(b, w) ==
                        (if b[k].word == w then b[k].count else 0) + Total(b[..k] + b[k + 1..], w)
  {
    forall w ensures Total(b, w) ==
                     (if b[k].word == w then b[k].count else 0) + Total(b[..k] + b[k + 1..], w) {
      assert b == (b[..k] + [b[k]]) + b[k + 1..];
      TotalAppend(b[..k] + [b[k]], b[k + 1..], w);
      TotalAppend(b[..k], [b[k]], w);
      TotalAppend(b[..k], b[k + 1..], w);
      assert [b[k]][1..] == [];
    }
  }

  lemma MultisetRemove<T>(b: seq<T>, k: nat)
    requires k < |b|
    ensures multiset(b[..k] + b[k + 1..]) == multiset(b) - multiset{b[k]}
  {
    assert b == b[..k] + [b[k]] + b[k + 1..];
  }

  /** Totals depend only on the multiset of records, not on their order. */
  lemma {:induction false} TotalPermutation(a: seq<WordCount>, b: seq<WordCount>)
    requires multiset(a) == multiset(b)
    ensures forall w :: Total(a, w) == Total(b, w)
    decreases |a|
  {
    if |a| > 0 {
      var x := a[0];
      assert x in multiset(a);
      var k :| 0 <= k < |b| && b[k] == x;
      var rest := b[..k] + b[k + 1..];
      MultisetRemove(b, k);
      assert a == [x] + a[1..];
      assert multiset(a[1..]) == multiset(a) - multiset{x};
      TotalPermutation(a[1..], rest);
      TotalRemove(b, k);
    } else {
      assert b == [];
    }
  }

  /** Without the word, its total is zero. */
  lemma {:induction false} TotalAbsent(s: Store, w: string)
    requires !HasWord(s, w)
    ensures Total(s, w) == 0
  {
    if |s| > 0 {
      assert !HasWord(s[1..], w) by {
        assert forall j :: 0 <= j < |s[1..]| ==> s[1..][j] == s[j + 1];
      }
      TotalAbsent(s[1..], w);
    }
  }

  /** In a list without duplicates the total of a present word is its record's count. */
  lemma {:induction false} TotalUnique(s: Store, i: nat)
    requires Unique(s) && i < |s|
    ensures Total(s, s[i].word) == s[i].count
  {
    var w := s[i].word;
    if i == 0 {
      assert !HasWord(s[1..], w) by {
        assert forall j :: 0 <= j < |s[1..]| ==> s[1..][j] == s[j + 1];
      }
      TotalAbsent(s[1..], w);
    } else {
      assert s[1..][i - 1] == s[i];
      TotalUnique(s[1..], i - 1);
    }
  }

  /** The count `find_word` exposes is the word's total, when the list has no duplicates. */
  lemma CountOfIsTotal(s: Store, w: string)
    requires Unique(s)
    ensures CountOf(s, w) == Total(s, w)
  {
    match Find(s, w)
    case Some(i) => TotalUnique(s, i);
    case None => TotalAbsent(s, w);
  }

  /** Without duplicates, `find_word` on a record's word finds that record. */
  lemma RecordCountIsCountOf(s: Store, i: nat)
    requires Unique(s) && i < |s|
    ensures Find(s, s[i].word) == Some(i)
    ensures CountOf(s, s[i].word) == s[i].count
  {
    assert HasWord(s, s[i].word);
  }

  /** With positive counts and no duplicates, a word is present exactly when its total is positive. */
  lemma PresentIffPositiveTotal(s: Store, w: string)
    requires Unique(s) && Positive(s)
    ensures HasWord(s, w) <==> Total(s, w) > 0
  {
    if HasWord(s, w) {
      var i :| 0 <= i < |s| && s[i].word == w;
      TotalUnique(s, i);
    } else {
      TotalAbsent(s, w);
    }
  }

  /** A list has no duplicate words exactly when it has as many distinct
      words as records; so `len_words` counts distinct words on such a list. */
  lemma {:induction false} UniqueIffDistinct(s: Store)
    ensures |Words(s)| <= |s|
    ensures Unique(s) <==> |s| == |Words(s)|
  {
    if |s| > 0 {
      var p := s[..|s| - 1];
      var x := s[|s| - 1];
      UniqueIffDistinct(p);
      WordsSnoc(s);
      UniqueSnoc(s);
      if x.word in Words(p) {
        assert Words(s) == Words(p);
      } else {
        assert Words(p) * {x.word} == {};
        assert |Words(s)| == |Words(p)| + 1;
      }
    }
  }

  /** The words of a list are those of all but its last record, plus the last one's. */
  lemma WordsSnoc(s: Store)
    requires |s| > 0
    ensures Words(s) == Words(s[..|s| - 1]) + {s[|s| - 1].word}
  {
    var p := s[..|s| - 1];
    assert forall j :: 0 <= j < |p| ==> p[j] == s[j];
  }

  /** A list is free of duplicates exactly when all but its last record are,
      and the last record's word is new. */
  lemma UniqueSnoc(s: Store)
    requires |s| > 0
    ensures Unique(s) <==> Unique(s[..|s| - 1]) && s[|s| - 1].word !in Words(s[..|s| - 1])
  {
    var p := s[..|s| - 1];
    var x := s[|s| - 1];
    assert forall j :: 0 <= j < |p| ==> p[j] == s[j];
    if Unique(s) {
      forall j | 0 <= j < |p| ensures p[j].word != x.word {
        assert s[j].word != s[|s| - 1].word;
      }
    }
    if Unique(p) && x.word !in Words(p) {
      forall i, j | 0 <= i < j < |s| ensures s[i].word != s[j].word {
        if j == |s| - 1 {
          assert s[i].word in Words(p);
        }
      }
    }
  }

  // ---------------------------------------------------------------------
  // Properties of call sequences
  // ---------------------------------------------------------------------

  /** Starting anywhere, a sequence of `add_word_with_count` calls adds each
      call's count to its word's total and keeps words unique. */
  lemma {:induction false} AddAllConserves(s: Store, calls: seq<WordCount>)
    ensures forall w :: Total(AddAll(s, calls), w) == Total(s, w) + Total(calls, w)
    ensures Unique(s) ==> Unique(AddAll(s, calls))
    ensures Positive(s) && Positive(calls) ==> Positive(AddAll(s, calls))
    decreases |calls|
  {
    if |calls| > 0 {
      var r := AddWithCount(s, calls[0].word, calls[0].count);
      assert Positive(s) && Positive(calls) ==> Positive(r.store) by {
        if Positive(s) && Positive(calls) {
          assert calls[0].count >= 1;
        }
      }
      AddAllConserves(r.store, calls[1..]);
    }
  }

  /** The words present after a sequence of `add_word_with_count` calls are
      those present before and those of the calls. */
  lemma {:induction false} AddAllWords(s: Store, calls: seq<WordCount>)
    ensures Words(AddAll(s, calls)) == Words(s) + Words(calls)
    decreases |calls|
  {
    if |calls| > 0 {
      var r := AddWithCount(s, calls[0].word, calls[0].count);
      assert Words(calls) == {calls[0].word} + Words(calls[1..]) by {
        assert forall i :: 0 < i < |calls| ==> calls[i] == calls[1..][i - 1];
        assert forall i :: 0 <= i < |calls[1..]| ==> calls[1..][i] == calls[i + 1];
      }
      AddAllWords(r.store, calls[1..]);
    }
  }

  /** From `init_words`, after any sequence of `add_word_with_count` calls the
      list holds at most one record per word, and that record's count is the
      sum of the counts supplied for the word. */
  lemma AddAllFromInit(calls: seq<WordCount>)
    ensures Unique(AddAll(Init(), calls))
    ensures forall w :: CountOf(AddAll(Init(), calls), w) == Total(calls, w)
  {
    AddAllConserves(Init(), calls);
    forall w ensures CountOf(AddAll(Init(), calls), w) == Total(calls, w) {
      CountOfIsTotal(AddAll(Init(), calls), w);
    }
  }

  /** Every record's count lies in `lo..hi`. */
  predicate CountsWithin(s: Store, lo: int, hi: int) {
    forall i :: 0 <= i < |s| ==> lo <= s[i].count <= hi
  }

  /** A sequence of `add_word` calls adds one to a word's total per occurrence. */
  lemma {:induction false} AddWordsTotals(s: Store, ws: seq<string>)
    ensures forall w :: Total(AddWords(s, ws), w) == Total(s, w) + multiset(ws)[w]
    decreases |ws|
  {
    if |ws| > 0 {
      assert ws == [ws[0]] + ws[1..];
      assert multiset(ws) == multiset{ws[0]} + multiset(ws[1..]);
      AddWordsTotals(Add(s, ws[0]).store, ws[1..]);
    }
  }

  /** A sequence of `add_word` calls never creates a second record for a word. */
  lemma {:induction false} AddWordsUnique(s: Store, ws: seq<string>)
    requires Unique(s)
    ensures Unique(AddWords(s, ws))
    decreases |ws|
  {
    if |ws| > 0 {
      var _ := AddWithCount(s, ws[0], 1);
      AddWordsUnique(Add(s, ws[0]).store, ws[1..]);
    }
  }

  /** A sequence of `add_word` calls adds exactly the words it is given. */
  lemma {:induction false} AddWordsWords(s: Store, ws: seq<string>)
    ensures Words(AddWords(s, ws)) == Words(s) + set w | w in ws
    decreases |ws|
  {
    if |ws| > 0 {
      var _ := AddWithCount(s, ws[0], 1);
      assert (set w | w in ws) == {ws[0]} + set w | w in ws[1..];
      AddWordsWords(Add(s, ws[0]).store, ws[1..]);
    }
  }

  /** Each `add_word` call raises at most one count by one or adds a count of one. */
  lemma {:induction false} AddWordsBounds(s: Store, ws: seq<string>, hi: int)
    requires 0 <= hi && CountsWithin(s, 1, hi)
    ensures CountsWithin(AddWords(s, ws), 1, hi + |ws|)
    decreases |ws|
  {
    if |ws| > 0 {
      var r := Add(s, ws[0]);
      forall i | 0 <= i < |r.store| ensures 1 <= r.store[i].count <= hi + 1 {
        if !HasWord(s, ws[0]) {
          if i == |s| {
            assert r.store[i] == WordCount(ws[0], 1);
          } else {
            assert r.store[i] == s[i];
          }
        } else if i != r.at {
          assert r.store[i] == s[i];
        }
      }
      AddWordsBounds(r.store, ws[1..], hi + 1);
    }
  }

  /** From `init_words`, after `add_word` has been called for each word of
      `ws`: each word's count is its number of occurrences, no word has two
      records, and `len_words` is the number of distinct words added. */
  lemma AddWordsFromInit(ws: seq<string>)
    ensures Unique(AddWords(Init(), ws))
    ensures forall w :: CountOf(AddWords(Init(), ws), w) == multiset(ws)[w]
    ensures Len(AddWords(Init(), ws)) == |set w | w in ws|
    ensures CountsWithin(AddWords(Init(), ws), 1, |ws|)
  {
    var s := AddWords(Init(), ws);
    AddWordsTotals(Init(), ws);
    AddWordsUnique(Init(), ws);
    AddWordsWords(Init(), ws);
    AddWordsBounds(Init(), ws, 0);
    forall w ensures CountOf(s, w) == multiset(ws)[w] {
      CountOfIsTotal(s, w);
    }
    UniqueIffDistinct(s);
  }
}
