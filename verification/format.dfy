/** `fprint_words`: one line `"%8d\t%s\n"` per record, in list order. This is
    also the wire format a worker writes to its pipe. */
module Format {
  import opened Text
  import opened ListStore

  /** The field width of `%8d`. */
  const Width: nat := 8

  /** The smallest and largest counts whose `%8d` field is at most `Width`
      characters wide. */
  const MinCount: int := -9999999
  const MaxCount: int := 99999999

  /** What `printf("%d")` prints: a minus sign for negative values, then the digits. */
  function Numeral(n: int): string {
    if n < 0 then "-" + Decimal(-n) else Decimal(n)
  }

  function Spaces(k: nat): (r: string)
    ensures |r| == k && forall i :: 0 <= i < k ==> r[i] == ' '
  {
    if k == 0 then "" else " " + Spaces(k - 1)
  }

  /** The spaces that right-align the numeral `d` in a field of `Width` characters. */
  function Padding(d: string): string {
    if |d| < Width then Spaces(Width - |d|) else ""
  }

  /** `%8d`: the numeral right-aligned in a field of at least `Width` characters. */
  function Field(n: int): string {
    Padding(Numeral(n)) + Numeral(n)
  }

  /** One output line for a record. */
  function Line(r: WordCount): string {
    Field(r.count) + "\t" + r.word + "\n"
  }

  /** `fprint_words`: the lines of all records, first record first. There is
      at least one newline per record; a word holding a newline adds more. */
  function PrintWords(s: seq<WordCount>): (r: string)
    ensures NewlineCount(r) >= |s|
    ensures r == "" <==> |s| == 0
  {
    if |s| == 0 then ""
    else
      var rest := PrintWords(s[1..]);
      LineHasNewline(s[0]);
      NewlineCountAppend(Line(s[0]), rest);
      Line(s[0]) + rest
  }

  /** Every line ends in a newline, whatever its word holds. */
  lemma LineHasNewline(r: WordCount)
    ensures NewlineCount(Line(r)) >= 1
  {
    NewlineCountAppend(Field(r.count) + "\t" + r.word, "\n");
    assert "\n"[1..] == "";
  }

  /** Printing two lists one after the other prints their concatenation. */
  lemma {:induction false} PrintWordsAppend(a: seq<WordCount>, b: seq<WordCount>)
    ensures PrintWords(a + b) == PrintWords(a) + PrintWords(b)
  {
    if |a| == 0 {
      assert a + b == b;
    } else {
      assert (a + b)[0] == a[0] && (a + b)[1..] == a[1..] + b;
      PrintWordsAppend(a[1..], b);
      var x, p, q := Line(a[0]), PrintWords(a[1..]), PrintWords(b);
      calc {
        PrintWords(a + b);
        x + PrintWords(a[1..] + b);
        x + (p + q);
        { assert x + (p + q) == (x + p) + q; }
        PrintWords(a) + q;
      }
    }
  }

  function NewlineCount(s: string): nat {
    if |s| == 0 then 0 else (if s[0] == '\n' then 1 else 0) + NewlineCount(s[1..])
  }

  lemma {:induction false} NewlineCountAppend(a: string, b: string)
    ensures NewlineCount(a + b) == NewlineCount(a) + NewlineCount(b)
  {
    if |a| == 0 {
      assert a + b == b;
    } else {
      assert (a + b)[1..] == a[1..] + b;
      NewlineCountAppend(a[1..], b);
    }
  }

  lemma {:induction false} NewlineCountNone(s: string)
    requires forall i :: 0 <= i < |s| ==> s[i] != '\n'
    ensures NewlineCount(s) == 0
  {
    if |s| > 0 {
      NewlineCountNone(s[1..]);
    }
  }

  /** A record whose line reads back as itself. */
  predicate Encodable(r: WordCount) {
    ValidWord(r.word) && MinCount <= r.count <= MaxCount
  }

  predicate AllEncodable(s: seq<WordCount>) {
    forall i :: 0 <= i < |s| ==> Encodable(s[i])
  }

  /** With words free of white space, the output has exactly one line per record. */
  lemma {:induction false} OneLinePerRecord(s: seq<WordCount>)
    requires forall i :: 0 <= i < |s| ==> ValidWord(s[i].word)
    ensures NewlineCount(PrintWords(s)) == |s|
  {
    if |s| > 0 {
      var r := s[0];
      NewlineCountNone(Field(r.count) + "\t" + r.word);
      NewlineCountAppend(Field(r.count) + "\t" + r.word, "\n");
      assert "\n"[1..] == "";
      NewlineCountAppend(Line(r), PrintWords(s[1..]));
      OneLinePerRecord(s[1..]);
    }
  }
}
