/** One call of `fscanf(stream, "%8d\t%ms\n", &count, &word)` as the C library
    performs it, on the characters still unread. A conversion that succeeds
    hands back the unread rest of the input; what a failed call leaves unread
    is not modelled, because the reader stops at the first failure. */
module Scan {
  import opened Text
  import opened Format

  /** The longest prefix of white space is consumed. A white-space directive
      in the format (`\t`, `\n`) does this, and so does `%d` or `%s` before it
      converts anything. */
  function SkipSpace(s: string): (r: string)
    ensures |r| <= |s| && r == s[|s| - |r|..]
    ensures |r| == 0 || !IsSpace(r[0])
    ensures forall i :: 0 <= i < |s| - |r| ==> IsSpace(s[i])
  {
    if |s| > 0 && IsSpace(s[0]) then SkipSpace(s[1..]) else s
  }

  /** The number of leading decimal digits of `s`, reading at most `limit` characters. */
  function DigitRun(s: string, limit: nat): (n: nat)
    ensures n <= limit && n <= |s|
    ensures AllDigits(s[..n])
    ensures n == limit || n == |s| || !IsDigit(s[n])
  {
    if limit == 0 || |s| == 0 || !IsDigit(s[0]) then 0
    else
      var m := DigitRun(s[1..], limit - 1);
      assert s[..m + 1] == [s[0]] + s[1..][..m];
      1 + m
  }

  /** The number of leading non-white-space characters of `s`. */
  function WordRun(s: string): (n: nat)
    ensures n <= |s|
    ensures forall i :: 0 <= i < n ==> !IsSpace(s[i])
    ensures n == |s| || IsSpace(s[n])
  {
    if |s| == 0 || IsSpace(s[0]) then 0 else 1 + WordRun(s[1..])
  }

  /** Outcome of `%8d`: the input ran out first, no digits were found, or a value was read. */
  datatype IntScan = IntEof | IntMismatch | IntOk(value: int, rest: string)

  /** `%8d`: skip white space, then convert. */
  function ScanInt(s: string): (r: IntScan)
    ensures r.IntEof? <==> forall i :: 0 <= i < |s| ==> IsSpace(s[i])
    ensures r.IntOk? ==> |r.rest| < |s| && MinCount <= r.value <= MaxCount
  {
    ConvertInt(SkipSpace(s))
  }

  /** The conversion of `%8d` once white space is skipped: an optional sign and
      decimal digits, at most 8 characters in all (the skipped white space
      does not count). */
  function ConvertInt(t: string): (r: IntScan)
    ensures r.IntEof? <==> |t| == 0
    ensures r.IntOk? ==> |r.rest| < |t| && MinCount <= r.value <= MaxCount
  {
    if |t| == 0 then IntEof
    else
      var start := if t[0] == '-' || t[0] == '+' then 1 else 0;
      var n := DigitRun(t[start..], 8 - start);
      if n == 0 then IntMismatch
      else
        var digits := t[start..start + n];
        assert digits == t[start..][..n];
        var magnitude: int := DigitsValue(digits);
        DigitsValueBound(digits, 8 - start);
        Pow10Eight();
        IntOk(if t[0] == '-' then -magnitude else magnitude, t[start + n..])
  }

  /** Outcome of `%ms`: the input ran out first, or a word was read. */
  datatype WordScan = WordEof | WordOk(word: string, rest: string)

  /** `%ms`: skip white space, then take every character up to the next white
      space or the end of the input. */
  function ScanWord(s: string): (r: WordScan)
    ensures r.WordEof? <==> forall i :: 0 <= i < |s| ==> IsSpace(s[i])
    ensures r.WordOk? ==> |r.word| > 0 && |r.rest| < |s|
    ensures r.WordOk? ==> forall i :: 0 <= i < |r.word| ==> !IsSpace(r.word[i])
  {
    var t := SkipSpace(s);
    if |t| == 0 then WordEof
    else
      var n := WordRun(t);
      WordOk(t[..n], t[n..])
  }

  /** Outcome of one `fscanf` call: it returned EOF, it returned the number of
      conversions made before failing (0 or 1), or it returned 2 with a record. */
  datatype Scanned = Eof | Partial(matched: nat) | Rec(count: int, word: string, rest: string)

  /** The value `fscanf` returns (EOF is -1 in the C library). */
  function ReturnValue(r: Scanned): int {
    match r
    case Eof => -1
    case Partial(n) => n
    case Rec(_, _, _) => 2
  }

  /** One `fscanf(stream, "%8d\t%ms\n", ...)` call: `%8d` skips white space
      first, so the call reads the same after any leading white space. */
  function ScanRecord(s: string): (r: Scanned)
    ensures r.Eof? <==> forall i :: 0 <= i < |s| ==> IsSpace(s[i])
    ensures r.Partial? ==> r.matched <= 1
    ensures r.Rec? ==> |r.rest| < |s| && ValidWord(r.word)
    ensures r.Rec? ==> MinCount <= r.count <= MaxCount
    ensures r.Rec? ==> |r.rest| == 0 || !IsSpace(r.rest[0])
  {
    ConvertRecord(SkipSpace(s))
  }

  /** The rest of the call once the white space before `%8d` is skipped. */
  function ConvertRecord(t: string): (r: Scanned)
    ensures r.Eof? <==> |t| == 0
    ensures r.Partial? ==> r.matched <= 1
    ensures r.Rec? ==> |r.rest| < |t| && ValidWord(r.word)
    ensures r.Rec? ==> MinCount <= r.count <= MaxCount
    ensures r.Rec? ==> |r.rest| == 0 || !IsSpace(r.rest[0])
  {
    var n := ConvertInt(t);
    if n.IntEof? then Eof
    else if n.IntMismatch? then Partial(0)
    else
      var w := ScanWord(SkipSpace(n.rest));
      if w.WordEof? then Partial(1)
      else
        var rest := SkipSpace(w.rest);
        assert |rest| <= |w.rest|;
        Rec(n.value, w.word, rest)
  }

  lemma {:induction false} DigitsValueBound(d: string, k: nat)
    requires AllDigits(d) && |d| <= k
    ensures DigitsValue(d) < Pow10(k)
  {
    if |d| > 0 {
      DigitsValueBound(d[..|d| - 1], k - 1);
    }
  }

  /** Skipping white space twice skips no more than once. */
  lemma SkipSpaceIdempotent(s: string)
    ensures SkipSpace(SkipSpace(s)) == SkipSpace(s)
  {
  }

  /** Leading white space does not change what is read. */
  lemma {:induction false} SkipSpaceOverSpaces(p: string, t: string)
    requires forall i :: 0 <= i < |p| ==> IsSpace(p[i])
    ensures SkipSpace(p + t) == SkipSpace(t)
  {
    if |p| > 0 {
      assert (p + t)[1..] == p[1..] + t;
      SkipSpaceOverSpaces(p[1..], t);
    } else {
      assert p + t == t;
    }
  }

  /** A call after white space reads what it reads without it. */
  lemma ScanRecordAfterSpace(s: string)
    ensures ScanRecord(SkipSpace(s)) == ScanRecord(s)
  {
    SkipSpaceIdempotent(s);
  }
}
