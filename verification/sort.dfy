/** `wordcount_sort`: the list ordered by a caller-supplied `less` on records.
    `less_list` only unwraps the two list elements and applies `less`, so the
    comparator here is applied to records directly. The sorting algorithm
    behind it is not part of this model; `SortBy` is a stable insertion sort
    that meets the same contract. */
module Sort {
  import opened ListStore

  type Less = (WordCount, WordCount) -> bool

  /** `less` is a strict weak order: asymmetric, and "not less than" is transitive. */
  ghost predicate StrictWeakOrder(less: Less) {
    && (forall a, b :: less(a, b) ==> !less(b, a))
    && (forall a, b, c :: !less(a, b) && !less(b, c) ==> !less(a, c))
  }

  /** No record is less than a record before it. */
  ghost predicate Sorted(s: seq<WordCount>, less: Less) {
    forall i, j :: 0 <= i < j < |s| ==> !less(s[j], s[i])
  }

  /** Place `x` in front of the first record that is not less than it. */
  function Insert(x: WordCount, s: seq<WordCount>, less: Less): (r: seq<WordCount>)
    ensures multiset(r) == multiset(s) + multiset{x}
    ensures |r| == |s| + 1
  {
    if |s| == 0 || !less(s[0], x) then [x] + s
    else
      assert s == [s[0]] + s[1..];
      [s[0]] + Insert(x, s[1..], less)
  }

  /** `wordcount_sort`, stated by its result: a rearrangement of the records. */
  function SortBy(s: seq<WordCount>, less: Less): (r: seq<WordCount>)
    ensures multiset(r) == multiset(s)
    ensures |r| == |s|
  {
    if |s| == 0 then []
    else
      assert s == [s[0]] + s[1..];
      Insert(s[0], SortBy(s[1..], less), less)
  }

  lemma {:induction false} InsertSorted(x: WordCount, s: seq<WordCount>, less: Less)
    requires StrictWeakOrder(less) && Sorted(s, less)
    ensures Sorted(Insert(x, s, less), less)
  {
    if |s| == 0 || !less(s[0], x) {
      forall j | 0 <= j < |s| ensures !less(s[j], x) {
        if j > 0 {
          assert !less(s[j], s[0]);
        }
      }
      SortedCons(x, s, less);
    } else {
      var t := Insert(x, s[1..], less);
      SortedTail(s, less);
      InsertSorted(x, s[1..], less);
      forall j | 0 <= j < |t| ensures !less(t[j], s[0]) {
        InsertFrom(x, s[1..], less, j);
        if t[j] != x {
          var k :| 0 <= k < |s[1..]| && s[1..][k] == t[j];
          assert s[k + 1] == t[j];
        }
      }
      SortedCons(s[0], t, less);
    }
  }

  /** Every record of `Insert(x, s, less)` is `x` or a record of `s`. */
  lemma InsertFrom(x: WordCount, s: seq<WordCount>, less: Less, j: nat)
    requires j < |Insert(x, s, less)|
    ensures Insert(x, s, less)[j] == x || Insert(x, s, less)[j] in s
  {
    var r := Insert(x, s, less);
    assert r[j] in multiset(r);
  }

  lemma SortedTail(s: seq<WordCount>, less: Less)
    requires Sorted(s, less) && |s| > 0
    ensures Sorted(s[1..], less)
  {
    forall i, j | 0 <= i < j < |s[1..]| ensures !less(s[1..][j], s[1..][i]) {
      assert s[1..][i] == s[i + 1] && s[1..][j] == s[j + 1];
    }
  }

  /** An ordered list stays ordered with a record in front that nothing in it is less than. */
  lemma SortedCons(y: WordCount, t: seq<WordCount>, less: Less)
    requires Sorted(t, less)
    requires forall j :: 0 <= j < |t| ==> !less(t[j], y)
    ensures Sorted([y] + t, less)
  {
    var r := [y] + t;
    forall i, j | 0 <= i < j < |r| ensures !less(r[j], r[i]) {
      assert r[j] == t[j - 1];
      if i > 0 {
        assert r[i] == t[i - 1];
      }
    }
  }

  /** The result of `wordcount_sort` is ordered by `less`. */
  lemma {:induction false} SortBySorted(s: seq<WordCount>, less: Less)
    requires StrictWeakOrder(less)
    ensures Sorted(SortBy(s, less), less)
  {
    if |s| > 0 {
      SortBySorted(s[1..], less);
      InsertSorted(s[0], SortBy(s[1..], less), less);
    }
  }

  /** Sorting a list that is already ordered leaves it as it is. */
  lemma {:induction false} SortBySortedIsIdentity(s: seq<WordCount>, less: Less)
    requires Sorted(s, less)
    ensures SortBy(s, less) == s
  {
    if |s| > 0 {
      SortedTail(s, less);
      SortBySortedIsIdentity(s[1..], less);
      if |s| > 1 {
        assert !less(s[1], s[0]);
      }
      assert s == [s[0]] + s[1..];
    }
  }

  /** Re-sorting is a no-op. */
  lemma SortByIdempotent(s: seq<WordCount>, less: Less)
    requires StrictWeakOrder(less)
    ensures SortBy(SortBy(s, less), less) == SortBy(s, less)
  {
    SortBySorted(s, less);
    SortBySortedIsIdentity(SortBy(s, less), less);
  }

  /** Sorting keeps every record, so the per-word totals, the words present and
      the absence of duplicates are those of the input. */
  lemma SortByKeepsContents(s: Store, less: Less)
    ensures forall w :: Total(SortBy(s, less), w) == Total(s, w)
    ensures Words(SortBy(s, less)) == Words(s)
    ensures Unique(s) ==> Unique(SortBy(s, less))
  {
    var r := SortBy(s, less);
    TotalPermutation(r, s);
    forall i | 0 <= i < |r| ensures r[i] in s {
      assert r[i] in multiset(r);
    }
    forall i | 0 <= i < |s| ensures s[i] in r {
      assert s[i] in multiset(s);
    }
    UniqueIffDistinct(s);
    UniqueIffDistinct(r);
  }
}
