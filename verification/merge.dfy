/** `merge_counts` (fwords.c): the coordinator reads a worker's
    `"%8d\t%s\n"` lines with `fscanf` and folds each record into its own list
    with `add_word_with_count`, until the first call that does not return 2. */
module Merge {
  import opened Text
  import opened ListStore
  import opened Format
  import opened Scan

  /** A readable stream: the characters it delivers, then either end-of-file
      or a read error. */
  datatype Stream = Stream(data: string, endsInError: bool)

  /** What `merge_counts` reports once the loop stops: nothing (clean end of
      file), "could not read counts", or "read ill-formed count (matched n)". */
  datatype Status = Clean | ReadError | IllFormed(matched: nat)

  datatype Merged = Merged(store: Store, status: Status)

  /** The records a stream carries, up to the first call that does not return 2. */
  datatype Decoded = Decoded(records: seq<WordCount>, status: Status)

  /** The report when `fscanf` returned EOF: `feof` tells end-of-file from a read error. */
  function EndStatus(input: Stream): Status {
    if input.endsInError then ReadError else Clean
  }

  /** `merge_counts`: call `fscanf` until it does not return 2, folding every
      record into `st`; then classify the value that stopped the loop. */
  function MergeCounts(st: Store, input: Stream): (r: Merged)
    ensures r.status.IllFormed? ==> r.status.matched <= 1
    ensures r.status == Clean ==> !input.endsInError
    ensures r.status == ReadError ==> input.endsInError
    ensures Unique(st) ==> Unique(r.store)
    decreases |input.data|
  {
    match ScanRecord(input.data)
    case Rec(count, word, rest) =>
      MergeCounts(AddWithCount(st, word, count).store, input.(data := rest))
    case Eof => Merged(st, EndStatus(input))
    case Partial(n) => Merged(st, IllFormed(n))
  }

  /** The records a stream carries and how its reading ends, without folding. */
  function Decode(input: Stream): (d: Decoded)
    decreases |input.data|
  {
    match ScanRecord(input.data)
    case Rec(count, word, rest) =>
      var d := Decode(input.(data := rest));
      var x := WordCount(word, count);
      Decoded([x] + d.records, d.status)
    case Eof => Decoded([], EndStatus(input))
    case Partial(n) => Decoded([], IllFormed(n))
  }

  lemma {:induction false} DecodeEncodable(input: Stream)
    ensures AllEncodable(Decode(input).records)
    decreases |input.data|
  {
    match ScanRecord(input.data)
    case Rec(count, word, rest) =>
      DecodeEncodable(input.(data := rest));
      EncodableCons(WordCount(word, count), Decode(input.(data := rest)).records);
    case Eof =>
    case Partial(n) =>
  }

  lemma EncodableCons(x: WordCount, recs: seq<WordCount>)
    requires Encodable(x) && AllEncodable(recs)
    ensures AllEncodable([x] + recs)
  {
    forall i | 0 <= i < |[x] + recs| ensures Encodable(([x] + recs)[i]) {
      if i > 0 {
        assert ([x] + recs)[i] == recs[i - 1];
      }
    }
  }

  // ---------------------------------------------------------------------
  // The fold
  // ---------------------------------------------------------------------

  /** Merging is `add_word_with_count` applied to the decoded records in stream order. */
  lemma {:induction false} MergeIsFold(st: Store, input: Stream)
    ensures MergeCounts(st, input) == Merged(AddAll(st, Decode(input).records), Decode(input).status)
    decreases |input.data|
  {
    match ScanRecord(input.data)
    case Rec(count, word, rest) =>
      MergeIsFold(AddWithCount(st, word, count).store, input.(data := rest));
      var d := Decode(input.(data := rest));
      assert ([WordCount(word, count)] + d.records)[1..] == d.records;
    case Eof =>
    case Partial(n) =>
  }

  /** A record's count is added to the word's total, never written over it:
      every word's total grows by the sum of the counts the stream carries for it. */
  lemma MergeAdds(st: Store, input: Stream)
    ensures forall w :: Total(MergeCounts(st, input).store, w) == Total(st, w) + Total(Decode(input).records, w)
  {
    MergeIsFold(st, input);
    AddAllConserves(st, Decode(input).records);
  }

  // ---------------------------------------------------------------------
  // The wire format read back
  // ---------------------------------------------------------------------

  lemma {:induction false} DigitRunExact(d: string, u: string, limit: nat)
    requires AllDigits(d) && |d| <= limit
    requires |u| > 0 && !IsDigit(u[0])
    ensures DigitRun(d + u, limit) == |d|
  {
    if |d| > 0 {
      assert (d + u)[1..] == d[1..] + u;
      DigitRunExact(d[1..], u, limit - 1);
    } else {
      assert d + u == u;
    }
  }

  lemma {:induction false} WordRunExact(w: string, u: string)
    requires forall i :: 0 <= i < |w| ==> !IsSpace(w[i])
    requires |u| > 0 && IsSpace(u[0])
    ensures WordRun(w + u) == |w|
  {
    if |w| > 0 {
      assert (w + u)[1..] == w[1..] + u;
      WordRunExact(w[1..], u);
    } else {
      assert w + u == u;
    }
  }

  /** A count in range is printed in at most eight characters. */
  lemma NumeralFits(c: int)
    requires MinCount <= c <= MaxCount
    ensures |Numeral(c)| <= Width
    ensures c >= 0 ==> |Decimal(c)| <= Width
    ensures c < 0 ==> |Decimal(-c)| <= Width - 1
  {
    Pow10Eight();
    if c >= 0 {
      DecimalLength(c, 8);
    } else {
      DecimalLength(-c, 7);
    }
  }

  /** `%8d` reads back the numeral `%d` printed, stopping at the first non-digit after it. */
  lemma ConvertNumeral(c: int, tail: string)
    requires MinCount <= c <= MaxCount
    requires |tail| > 0 && !IsDigit(tail[0])
    ensures ConvertInt(Numeral(c) + tail) == IntOk(c, tail)
  {
    NumeralFits(c);
    if c >= 0 {
      ConvertDigits(Decimal(c), tail);
      DecimalRoundTrip(c);
    } else {
      ConvertNegative(Decimal(-c), tail);
      DecimalRoundTrip(-c);
    }
  }

  lemma ConvertDigits(d: string, tail: string)
    requires AllDigits(d) && 1 <= |d| <= Width
    requires |tail| > 0 && !IsDigit(tail[0])
    ensures ConvertInt(d + tail) == IntOk(DigitsValue(d), tail)
  {
    var t := d + tail;
    assert t[0] == d[0];
    assert t[0..] == t;
    DigitRunExact(d, tail, 8);
    assert t[0..|d|] == d;
    assert t[|d|..] == tail;
  }

  lemma ConvertNegative(d: string, tail: string)
    requires AllDigits(d) && 1 <= |d| <= Width - 1
    requires |tail| > 0 && !IsDigit(tail[0])
    ensures ConvertInt("-" + d + tail) == IntOk(0 - DigitsValue(d), tail)
  {
    var u := d + tail;
    var t := "-" + u;
    Assoc("-", d, tail);
    assert t[1..] == u;
    DigitRunExact(d, tail, 7);
    assert u[..|d|] == d;
    assert u[|d|..] == tail;
    ConvertIntSigned(t, d);
  }

  /** `%8d` on a minus sign followed by the digits `d`. */
  lemma ConvertIntSigned(t: string, d: string)
    requires |t| > |d| > 0 && t[0] == '-' && AllDigits(d)
    requires t[1..][..|d|] == d && DigitRun(t[1..], 7) == |d|
    ensures ConvertInt(t) == IntOk(0 - DigitsValue(d), t[1..][|d|..])
  {
    ConvertIntMinus(t);
  }

  /** `%8d` on a minus sign: the digits after it, at most seven, negated. */
  lemma ConvertIntMinus(t: string)
    requires |t| > 0 && t[0] == '-' && DigitRun(t[1..], 7) > 0
    ensures var n := DigitRun(t[1..], 7);
            ConvertInt(t) == IntOk(0 - DigitsValue(t[1..][..n]), t[1..][n..])
  {
    var n := DigitRun(t[1..], 7);
    assert t[1..][..n] == t[1..1 + n] && t[1..][n..] == t[1 + n..];
  }

  /** The white space before `%8d` is the padding of the printed field. */
  lemma FieldSkipsPadding(c: int, tail: string)
    ensures SkipSpace(Field(c) + tail) == Numeral(c) + tail
  {
    var d := Numeral(c);
    var pad := Padding(d);
    Assoc(pad, d, tail);
    SkipSpaceOverSpaces(pad, d + tail);
    NumeralNotSpace(c, tail);
  }

  lemma NumeralNotSpace(c: int, tail: string)
    ensures SkipSpace(Numeral(c) + tail) == Numeral(c) + tail
  {
    var d := Numeral(c);
    assert (d + tail)[0] == d[0];
  }

  /** After the count, the tab and `%ms` give back the printed word. */
  lemma WordAfterTab(w: string, rest: string)
    requires ValidWord(w)
    ensures ScanWord(SkipSpace("\t" + (w + ("\n" + rest)))) == WordOk(w, "\n" + rest)
  {
    var afterTab := w + ("\n" + rest);
    SkipSpaceOverSpaces("\t", afterTab);
    assert SkipSpace(afterTab) == afterTab;
    WordRunExact(w, "\n" + rest);
    assert afterTab[..|w|] == w;
    assert afterTab[|w|..] == "\n" + rest;
  }

  /** One printed line is read back by one `fscanf` call as the record it was
      printed from; the white space after it is consumed with it. */
  lemma LineRoundTrip(r: WordCount, rest: string)
    requires Encodable(r)
    ensures ScanRecord(Line(r) + rest) == Rec(r.count, r.word, SkipSpace(rest))
  {
    LinePadding(r, rest);
    LineConverts(r.count, r.word, rest);
  }

  /** Skipping the white space before `%8d` leaves the numeral and what follows it. */
  lemma LinePadding(r: WordCount, rest: string)
    requires Encodable(r)
    ensures SkipSpace(Line(r) + rest) == Numeral(r.count) + ("\t" + (r.word + ("\n" + rest)))
  {
    LineSplit(r, rest);
    FieldSkipsPadding(r.count, "\t" + (r.word + ("\n" + rest)));
  }

  /** The conversions after the padding read the count and the word back. */
  lemma LineConverts(c: int, w: string, rest: string)
    requires MinCount <= c <= MaxCount && ValidWord(w)
    ensures ConvertRecord(Numeral(c) + ("\t" + (w + ("\n" + rest)))) == Rec(c, w, SkipSpace(rest))
  {
    var u := "\n" + rest;
    var tail := "\t" + (w + u);
    NumeralBeforeTab(c, w + u);
    WordAfterTab(w, rest);
    NewlineSkipped(rest);
    ConvertRecordOk(Numeral(c) + tail, c, tail, w, u);
  }

  lemma NumeralBeforeTab(c: int, after: string)
    requires MinCount <= c <= MaxCount
    ensures ConvertInt(Numeral(c) + ("\t" + after)) == IntOk(c, "\t" + after)
  {
    var tail := "\t" + after;
    assert tail[0] == '\t';
    ConvertNumeral(c, tail);
  }

  lemma NewlineSkipped(rest: string)
    ensures SkipSpace("\n" + rest) == SkipSpace(rest)
  {
    SkipSpaceOverSpaces("\n", rest);
  }

  lemma LineSplit(r: WordCount, rest: string)
    ensures Line(r) + rest == Field(r.count) + ("\t" + (r.word + ("\n" + rest)))
  {
    var f := Field(r.count);
    Assoc(f + "\t" + r.word, "\n", rest);
    Assoc(f + "\t", r.word, "\n" + rest);
    Assoc(f, "\t", r.word + ("\n" + rest));
  }

  /** `fscanf` returns 2 when both conversions succeed. */
  lemma ConvertRecordOk(t: string, c: int, tail: string, w: string, u: string)
    requires ConvertInt(t) == IntOk(c, tail)
    requires ScanWord(SkipSpace(tail)) == WordOk(w, u)
    ensures ConvertRecord(t) == Rec(c, w, SkipSpace(u))
  {
  }

  /** A printed line in front of a stream adds its record in front of what the stream yields. */
  lemma DecodeLine(r: WordCount, rest: string, endsInError: bool)
    requires Encodable(r)
    ensures Decode(Stream(Line(r) + rest, endsInError)) ==
            Decoded([r] + Decode(Stream(rest, endsInError)).records, Decode(Stream(rest, endsInError)).status)
  {
    LineRoundTrip(r, rest);
    DecodeAfterSpace(rest, endsInError);
  }

  lemma PrintWordsThen(recs: seq<WordCount>, tail: string)
    requires |recs| > 0
    ensures PrintWords(recs) + tail == Line(recs[0]) + (PrintWords(recs[1..]) + tail)
  {
    assert PrintWords(recs) == Line(recs[0]) + PrintWords(recs[1..]);
    Assoc(Line(recs[0]), PrintWords(recs[1..]), tail);
  }

  /** Reading printed records followed by anything yields those records, then
      whatever the remainder yields. */
  lemma {:induction false} DecodePrinted(recs: seq<WordCount>, tail: string, endsInError: bool)
    requires AllEncodable(recs)
    ensures Decode(Stream(PrintWords(recs) + tail, endsInError)) ==
            Decoded(recs + Decode(Stream(tail, endsInError)).records, Decode(Stream(tail, endsInError)).status)
  {
    if |recs| == 0 {
      DecodeNothingPrinted(recs, tail, endsInError);
    } else {
      EncodableTail(recs);
      DecodePrinted(recs[1..], tail, endsInError);
      DecodePrintedStep(recs, tail, endsInError);
    }
  }

  lemma DecodeNothingPrinted(recs: seq<WordCount>, tail: string, endsInError: bool)
    requires |recs| == 0
    ensures Decode(Stream(PrintWords(recs) + tail, endsInError)) ==
            Decoded(recs + Decode(Stream(tail, endsInError)).records, Decode(Stream(tail, endsInError)).status)
  {
    assert PrintWords(recs) + tail == tail;
    assert recs + Decode(Stream(tail, endsInError)).records == Decode(Stream(tail, endsInError)).records;
  }

  /** The inductive step of `DecodePrinted`: one more line in front. */
  lemma DecodePrintedStep(recs: seq<WordCount>, tail: string, endsInError: bool)
    requires |recs| > 0 && Encodable(recs[0])
    requires Decode(Stream(PrintWords(recs[1..]) + tail, endsInError)) ==
             Decoded(recs[1..] + Decode(Stream(tail, endsInError)).records, Decode(Stream(tail, endsInError)).status)
    ensures Decode(Stream(PrintWords(recs) + tail, endsInError)) ==
            Decoded(recs + Decode(Stream(tail, endsInError)).records, Decode(Stream(tail, endsInError)).status)
  {
    var later := Decode(Stream(tail, endsInError));
    DecodeFirstLine(recs, tail, endsInError, Decoded(recs[1..] + later.records, later.status));
    ConsAppend(recs, later.records);
  }

  /** The first printed line contributes the first record. */
  lemma DecodeFirstLine(recs: seq<WordCount>, tail: string, endsInError: bool, mid: Decoded)
    requires |recs| > 0 && Encodable(recs[0])
    requires Decode(Stream(PrintWords(recs[1..]) + tail, endsInError)) == mid
    ensures Decode(Stream(PrintWords(recs) + tail, endsInError)) == Decoded([recs[0]] + mid.records, mid.status)
  {
    PrintWordsThen(recs, tail);
    DecodeLine(recs[0], PrintWords(recs[1..]) + tail, endsInError);
  }

  lemma EncodableTail(recs: seq<WordCount>)
    requires AllEncodable(recs) && |recs| > 0
    ensures Encodable(recs[0]) && AllEncodable(recs[1..])
  {
    forall i | 0 <= i < |recs[1..]| ensures Encodable(recs[1..][i]) {
      assert recs[1..][i] == recs[i + 1];
    }
  }

  lemma Assoc<T>(a: seq<T>, b: seq<T>, c: seq<T>)
    ensures a + b + c == a + (b + c)
  {
  }

  lemma ConsAppend<T>(x: seq<T>, y: seq<T>)
    requires |x| > 0
    ensures [x[0]] + (x[1..] + y) == x + y
  {
    assert x == [x[0]] + x[1..];
  }

  lemma DecodeAfterSpace(s: string, endsInError: bool)
    ensures Decode(Stream(SkipSpace(s), endsInError)) == Decode(Stream(s, endsInError))
  {
    ScanRecordAfterSpace(s);
  }

  /** Round trip: reading a printed list gives back exactly its records, in
      order, and the read ends cleanly unless the stream ends in a read error. */
  lemma DecodeRoundTrip(recs: seq<WordCount>, endsInError: bool)
    requires AllEncodable(recs)
    ensures Decode(Stream(PrintWords(recs), endsInError)) ==
            Decoded(recs, if endsInError then ReadError else Clean)
  {
    assert PrintWords(recs) + "" == PrintWords(recs);
    assert recs + [] == recs;
    DecodeEmpty(endsInError);
    DecodePrinted(recs, "", endsInError);
  }

  /** An empty stream yields no record and ends as the stream ends. */
  lemma DecodeEmpty(endsInError: bool)
    ensures Decode(Stream("", endsInError)) == Decoded([], if endsInError then ReadError else Clean)
  {
    assert ScanRecord("") == Eof;
  }

  /** An empty stream leaves the list as it is and reports how the stream ended. */
  lemma MergeEmpty(st: Store, endsInError: bool)
    ensures MergeCounts(st, Stream("", endsInError)) == Merged(st, if endsInError then ReadError else Clean)
  {
    assert ScanRecord("") == Eof;
  }

  /** Merging a printed list without duplicates into an empty list rebuilds
      that very list. */
  lemma MergeIntoEmptyRebuilds(s: Store)
    requires AllEncodable(s) && Unique(s)
    ensures MergeCounts(Init(), Stream(PrintWords(s), false)) == Merged(s, Clean)
  {
    DecodeRoundTrip(s, false);
    MergeIsFold(Init(), Stream(PrintWords(s), false));
    AddAllUniqueAppends([], s);
  }

  /** Adding records whose words are all new and distinct appends them in order. */
  lemma {:induction false} AddAllUniqueAppends(st: Store, recs: seq<WordCount>)
    requires Unique(st + recs)
    ensures AddAll(st, recs) == st + recs
    decreases |recs|
  {
    if |recs| > 0 {
      var x := recs[0];
      assert !HasWord(st, x.word) by {
        forall j | 0 <= j < |st| ensures st[j].word != x.word {
          assert (st + recs)[j] == st[j] && (st + recs)[|st|] == x;
        }
      }
      var r := AddWithCount(st, x.word, x.count);
      assert r.store == st + [x] by {
        assert r.store == r.store[..|st|] + [r.store[|st|]];
      }
      assert st + recs == (st + [x]) + recs[1..];
      AddAllUniqueAppends(st + [x], recs[1..]);
    }
  }

  // ---------------------------------------------------------------------
  // Where reading stops
  // ---------------------------------------------------------------------

  /** Reading stops at the first call that does not return 2: records printed
      after an unreadable line are never merged. */
  lemma StopsAtFirstFailure(st: Store, good: seq<WordCount>, bad: string, later: seq<WordCount>, endsInError: bool)
    requires AllEncodable(good)
    requires ScanRecord(bad + PrintWords(later)).Partial?
    ensures Decode(Stream(PrintWords(good) + bad + PrintWords(later), endsInError)).records == good
    ensures MergeCounts(st, Stream(PrintWords(good) + bad + PrintWords(later), endsInError)) ==
            Merged(AddAll(st, good), IllFormed(ScanRecord(bad + PrintWords(later)).matched))
  {
    Assoc(PrintWords(good), bad, PrintWords(later));
    StopsBefore(st, good, bad + PrintWords(later), endsInError);
  }

  /** Printed records followed by a line `fscanf` cannot complete. */
  lemma StopsBefore(st: Store, good: seq<WordCount>, tail: string, endsInError: bool)
    requires AllEncodable(good)
    requires ScanRecord(tail).Partial?
    ensures Decode(Stream(PrintWords(good) + tail, endsInError)).records == good
    ensures MergeCounts(st, Stream(PrintWords(good) + tail, endsInError)) ==
            Merged(AddAll(st, good), IllFormed(ScanRecord(tail).matched))
  {
    var input := Stream(PrintWords(good) + tail, endsInError);
    var status := IllFormed(ScanRecord(tail).matched);
    assert Decode(Stream(tail, endsInError)) == Decoded([], status);
    DecodePrintedThenNothing(good, tail, endsInError, status);
    MergeIsFold(st, input);
  }

  /** Printed records followed by a remainder that yields no record. */
  lemma DecodePrintedThenNothing(good: seq<WordCount>, tail: string, endsInError: bool, status: Status)
    requires AllEncodable(good)
    requires Decode(Stream(tail, endsInError)) == Decoded([], status)
    ensures Decode(Stream(PrintWords(good) + tail, endsInError)) == Decoded(good, status)
  {
    DecodePrinted(good, tail, endsInError);
    assert good + [] == good;
  }

  /** Printed records followed by nothing but white space: `fscanf` then
      returns EOF, and `feof` decides the report. A stream that reaches
      end-of-file is silent; one that ends in a read error is reported as
      unreadable. Every printed record is merged either way. */
  lemma StopsAtEnd(st: Store, good: seq<WordCount>, tail: string, endsInError: bool)
    requires AllEncodable(good)
    requires forall i :: 0 <= i < |tail| ==> IsSpace(tail[i])
    ensures Decode(Stream(PrintWords(good) + tail, endsInError)).records == good
    ensures MergeCounts(st, Stream(PrintWords(good) + tail, endsInError)) ==
            Merged(AddAll(st, good), if endsInError then ReadError else Clean)
  {
    var input := Stream(PrintWords(good) + tail, endsInError);
    var status := if endsInError then ReadError else Clean;
    assert ScanRecord(tail).Eof?;
    assert Decode(Stream(tail, endsInError)) == Decoded([], status);
    DecodePrintedThenNothing(good, tail, endsInError, status);
    MergeIsFold(st, input);
  }

  /** A numeral contains no white space. */
  lemma NumeralIsWord(c: int)
    ensures ValidWord(Numeral(c))
  {
    var d := Numeral(c);
    forall i | 0 <= i < |d| ensures !IsSpace(d[i]) {
      if c < 0 && i > 0 {
        assert d[i] == Decimal(-c)[i - 1];
      }
    }
  }

  /** A count line without its word is not rejected on its own: `%ms` skips
      the newline and the next line's padding and takes that line's count as
      the word; the next call then starts at that line's word. */
  lemma MissingWordTakesNextCount(c: int, r: WordCount, rest: string)
    requires MinCount <= c <= MaxCount && Encodable(r)
    ensures ScanRecord(Field(c) + "\n" + Line(r) + rest) ==
            Rec(c, Numeral(r.count), r.word + ("\n" + rest))
  {
    var tail2 := "\t" + (r.word + ("\n" + rest));
    var tail1 := "\n" + (Field(r.count) + tail2);
    MissingWordSplit(c, r, rest);
    FieldSkipsPadding(c, tail1);
    ConvertNumeral(c, tail1);
    CountReadAsWord(r, tail2);
    ConvertRecordOk(Numeral(c) + tail1, c, tail1, Numeral(r.count), tail2);
    SkipTabToWord(r.word, "\n" + rest);
  }

  lemma MissingWordSplit(c: int, r: WordCount, rest: string)
    ensures Field(c) + "\n" + Line(r) + rest ==
            Field(c) + ("\n" + (Field(r.count) + ("\t" + (r.word + ("\n" + rest)))))
  {
    Assoc(Field(c) + "\n", Line(r), rest);
    Assoc(Field(c), "\n", Line(r) + rest);
    LineSplit(r, rest);
  }

  /** `%ms` after a newline reads the next line's count as a word. */
  lemma CountReadAsWord(r: WordCount, tail: string)
    requires Encodable(r) && |tail| > 0 && tail[0] == '\t'
    ensures ScanWord(SkipSpace("\n" + (Field(r.count) + tail))) == WordOk(Numeral(r.count), tail)
  {
    SkipSpaceOverSpaces("\n", Field(r.count) + tail);
    FieldSkipsPadding(r.count, tail);
    NumeralIsWord(r.count);
    ScanWordExact(Numeral(r.count), tail);
  }

  /** `%ms` reads a word up to the white space that follows it. */
  lemma ScanWordExact(w: string, tail: string)
    requires ValidWord(w) && |tail| > 0 && IsSpace(tail[0])
    ensures ScanWord(w + tail) == WordOk(w, tail)
  {
    assert SkipSpace(w + tail) == w + tail;
    WordRunExact(w, tail);
    assert (w + tail)[..|w|] == w;
    assert (w + tail)[|w|..] == tail;
  }

  /** White space in front of a word is skipped up to the word. */
  lemma SkipTabToWord(w: string, u: string)
    requires ValidWord(w)
    ensures SkipSpace("\t" + (w + u)) == w + u
  {
    SkipSpaceOverSpaces("\t", w + u);
    assert (w + u)[0] == w[0];
  }

  /** Reading then goes on at the next line's word. */
  lemma DecodeMissingWord(c: int, r: WordCount, rest: string, endsInError: bool)
    requires MinCount <= c <= MaxCount && Encodable(r)
    ensures var later := Decode(Stream(r.word + ("\n" + rest), endsInError));
            Decode(Stream(Field(c) + "\n" + Line(r) + rest, endsInError)) ==
            Decoded([WordCount(Numeral(r.count), c)] + later.records, later.status)
  {
    MissingWordTakesNextCount(c, r, rest);
  }

  /** The same on concrete lines: the second line's count becomes the first
      record's word, and reading stops on the second line's word. */
  lemma MissingWordExample()
    ensures Decode(Stream(Field(3) + "\n" + Line(WordCount("foo", 4)) + "", false)) ==
            Decoded([WordCount(Numeral(4), 3)], IllFormed(0))
  {
    var r := WordCount("foo", 4);
    assert Encodable(r);
    DecodeMissingWord(3, r, "", false);
    var next := r.word + ("\n" + "");
    assert next[0] == 'f';
    WordStopsCount(next);
  }

  /** A call that finds, where the count should be, a character that is
      neither white space, a sign nor a digit matches nothing. */
  lemma WordStopsCount(s: string)
    requires |s| > 0 && NotNumeric(s[0])
    ensures Decode(Stream(s, false)) == Decoded([], IllFormed(0))
  {
    LetterIsNoCount(s);
    assert SkipSpace(s) == s;
  }

  /** A character `%8d` can neither skip nor start a number with. */
  predicate NotNumeric(c: char) {
    !IsSpace(c) && !IsDigit(c) && c != '+' && c != '-'
  }

  lemma LetterIsNoCount(s: string)
    requires |s| > 0 && NotNumeric(s[0])
    ensures ConvertInt(s) == IntMismatch
  {
    assert s[0..] == s;
    assert DigitRun(s, 8) == 0;
  }

  /** A count line that ends the stream right after its tab matches one field. */
  lemma TruncatedRecord(c: int, endsInError: bool)
    requires MinCount <= c <= MaxCount
    ensures Decode(Stream(Field(c) + "\t", endsInError)) == Decoded([], IllFormed(1))
  {
    FieldSkipsPadding(c, "\t");
    NumeralBeforeTab(c, "");
    assert "\t" + "" == "\t";
    TabAlone();
    ConvertRecordNoWord(Numeral(c) + "\t", c, "\t");
  }

  lemma TabAlone()
    ensures ScanWord(SkipSpace("\t")).WordEof?
  {
    var tab := "\t";
    assert |tab| == 1 && IsSpace(tab[0]) && tab[1..] == [];
    assert SkipSpace(tab) == SkipSpace([]) == [];
  }

  /** `fscanf` returns 1 when `%ms` finds only white space before the end. */
  lemma ConvertRecordNoWord(t: string, c: int, rest: string)
    requires ConvertInt(t) == IntOk(c, rest)
    requires ScanWord(SkipSpace(rest)).WordEof?
    ensures ConvertRecord(t) == Partial(1)
  {
  }

  // ---------------------------------------------------------------------
  // Order does not matter
  // ---------------------------------------------------------------------

  /** The per-word totals after a merge do not depend on the order of the
      lines in the stream. */
  lemma MergeOrderInsensitive(st: Store, a: seq<WordCount>, b: seq<WordCount>, endsInError: bool)
    requires AllEncodable(a) && multiset(a) == multiset(b)
    ensures forall w :: Total(MergeCounts(st, Stream(PrintWords(a), endsInError)).store, w) ==
                        Total(MergeCounts(st, Stream(PrintWords(b), endsInError)).store, w)
  {
    assert AllEncodable(b) by {
      forall i | 0 <= i < |b| ensures Encodable(b[i]) {
        assert b[i] in multiset(a);
      }
    }
    DecodeRoundTrip(a, endsInError);
    DecodeRoundTrip(b, endsInError);
    MergeAdds(st, Stream(PrintWords(a), endsInError));
    MergeAdds(st, Stream(PrintWords(b), endsInError));
    TotalPermutation(a, b);
  }
}
