/** The read-only operations of word_count_p.c that act on the list alone:
    `fprint_words` and `wordcount_sort` take no lock and do what their
    word_count_l.c counterparts do to the list inside the shared structure. */
module LockedOutput {
  import opened Text
  import opened ListStore
  import opened Format
  import opened Sort
  import opened LockedStore

  /** `fprint_words`: the lines of the list, first record first. */
  function FprintWords(sh: Shared): (r: string)
    ensures NewlineCount(r) >= LockedStore.Len(sh)
    ensures r == "" <==> LockedStore.Len(sh) == 0
  {
    PrintWords(sh.lst)
  }

  /** The printed list has one line per record. */
  lemma FprintWordsLines(sh: Shared)
    requires forall i :: 0 <= i < |sh.lst| ==> ValidWord(sh.lst[i].word)
    ensures NewlineCount(FprintWords(sh)) == LockedStore.Len(sh)
  {
    OneLinePerRecord(sh.lst);
  }

  /** `wordcount_sort`: the list rearranged by `less`; the mutex is left alone. */
  function SortWords(sh: Shared, less: Less): (r: Shared)
    ensures r.lock == sh.lock
    ensures multiset(r.lst) == multiset(sh.lst)
  {
    sh.(lst := SortBy(sh.lst, less))
  }

  /** With a strict weak order, the sorted list is ordered. */
  lemma SortWordsSorted(sh: Shared, less: Less)
    requires StrictWeakOrder(less)
    ensures Sorted(SortWords(sh, less).lst, less)
  {
    SortBySorted(sh.lst, less);
  }
}
