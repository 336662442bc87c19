/** The end of `main` in 1-regexes/histogram_main.cpp: the histogram is
    copied into a vector, sorted with `sort_order`, and printed one
    `[word] count` line per entry. */
module Report {
  import opened Tokens
  import opened Aggregator
  import opened Ranking

  /** The (word, count) entries of a histogram, one per key. */
  ghost function EntrySet(h: Histogram): set<Entry> {
    set w | w in h :: Entry(w, h[w])
  }

  /** A ranked report of `h`: its entries, each once, in `sort_order`. */
  ghost predicate IsRanking(r: seq<Entry>, h: Histogram) {
    Sorted(r) && multiset(r) == multiset(EntrySet(h))
  }

  /** The histogram fixes its ranked report: whatever order the hash table
      yields its entries in, the sorted vector is the same. */
  lemma RankingUnique(r: seq<Entry>, r': seq<Entry>, h: Histogram)
    requires IsRanking(r, h) && IsRanking(r', h)
    ensures r == r'
  {
    SortedUnique(r, r');
  }

  /** A ranking lists each entry once and in strict order: a higher count
      first, on equal counts the lesser word first. */
  lemma RankingStrict(r: seq<Entry>, h: Histogram, i: int, j: int)
    requires IsRanking(r, h)
    requires 0 <= i < j < |r|
    ensures r[i].word != r[j].word
    ensures r[i].count > r[j].count || (r[i].count == r[j].count && Less(r[i].word, r[j].word))
  {
    var x := r[i];
    assert r == r[..i] + [r[i]] + r[i + 1..j] + [r[j]] + r[j + 1..];
    assert multiset(r)[x] >= multiset([r[i]])[x] + multiset([r[j]])[x];
    assert multiset(EntrySet(h))[x] <= 1;
    assert r[i] != r[j];
    assert r[i] in multiset(r) && r[j] in multiset(r);
    assert r[i] in EntrySet(h) && r[j] in EntrySet(h);
    assert r[i] == Entry(r[i].word, h[r[i].word]) && r[j] == Entry(r[j].word, h[r[j].word]);
    RankedOrder(r, i, j);
  }

  /** `std::vector sorted(histogram.begin(), histogram.end())`: one entry
      per key, in the table's unspecified iteration order. */
  method BuildEntries(h: Histogram) returns (a: array<Entry>)
    ensures fresh(a)
    ensures multiset(a[..]) == multiset(EntrySet(h))
  {
    var keys := h.Keys;
    var entries: seq<Entry> := [];
    ghost var seen: set<Entry> := {};
    while keys != {}
      invariant keys <= h.Keys
      invariant seen == set w | w in h.Keys - keys :: Entry(w, h[w])
      invariant multiset(entries) == multiset(seen)
      decreases keys
    {
      var w :| w in keys;
      var e := Entry(w, h[w]);
      assert e !in seen;
      entries := entries + [e];
      seen := seen + {e};
      keys := keys - {w};
    }
    a := new Entry[|entries|](k requires 0 <= k < |entries| => entries[k]);
    assert a[..] == entries;
  }

  /** The digit of `d`. */
  function Digit(d: nat): (c: char)
    requires d < 10
    ensures '0' <= c <= '9'
  {
    "0123456789"[d]
  }

  /** The value of a digit character. */
  function DigitValue(c: char): nat
    requires '0' <= c <= '9'
  {
    (c - '0') as nat
  }

  /** `s` holds only decimal digits. */
  predicate IsDigits(s: string) {
    forall k :: 0 <= k < |s| ==> '0' <= s[k] <= '9'
  }

  /** `operator<<` on an `unsigned`: decimal digits without a sign or
      leading zeros. */
  function Decimal(n: nat): (s: string)
    ensures |s| > 0 && IsDigits(s)
    ensures |s| > 1 ==> s[0] != '0'
  {
    if n < 10 then [Digit(n)] else Decimal(n / 10) + [Digit(n % 10)]
  }

  /** The number a string of decimal digits denotes. */
  function DecimalValue(s: string): nat
    requires IsDigits(s)
  {
    if s == [] then 0 else 10 * DecimalValue(s[..|s| - 1]) + DigitValue(s[|s| - 1])
  }

  /** The printed count reads back as the count. */
  lemma {:induction false} DecimalRoundTrip(n: nat)
    ensures DecimalValue(Decimal(n)) == n
  {
    var s := Decimal(n);
    if n >= 10 {
      DecimalRoundTrip(n / 10);
      assert s[..|s| - 1] == Decimal(n / 10);
    }
  }

  /** One output line: `'[' << word << "] " << count`. The word stands
      between the brackets unchanged, and the count's digits follow the
      space. */
  function Row(e: Entry): (line: string)
    ensures |line| == |e.word| + 3 + |Decimal(e.count)|
    ensures line[0] == '[' && line[1..|e.word| + 1] == e.word
    ensures line[|e.word| + 1] == ']' && line[|e.word| + 2] == ' '
    ensures line[|e.word| + 3..] == Decimal(e.count)
  {
    "[" + e.word + "] " + Decimal(e.count)
  }

  /** `s` split around its last `c`: the part before it and the part after. */
  function SplitLast(s: string, c: char): Option<(string, string)> {
    if s == [] then None
    else if s[|s| - 1] == c then Some((s[..|s| - 1], []))
    else match SplitLast(s[..|s| - 1], c)
      case None => None
      case Some((before, after)) => Some((before, after + [s[|s| - 1]]))
  }

  /** Splitting at the last `c` finds the `c` that `after` does not hold. */
  lemma {:induction false} SplitLastAt(before: string, c: char, after: string)
    requires c !in after
    ensures SplitLast(before + [c] + after, c) == Some((before, after))
  {
    var s := before + [c] + after;
    if after != [] {
      var init := after[..|after| - 1];
      assert s[..|s| - 1] == before + [c] + init;
      assert after == init + [after[|after| - 1]];
      SplitLastAt(before, c, init);
    } else {
      assert s[..|s| - 1] == before;
    }
  }

  /** Reads an output line back: the count follows the last space, the word
      is what the brackets before it enclose. */
  function ParseRow(line: string): Option<Entry> {
    match SplitLast(line, ' ')
    case None => None
    case Some((head, digits)) => ParseParts(head, digits)
  }

  /** `[word]` and the digits of a count below 2^32 make an entry. */
  function ParseParts(head: string, digits: string): Option<Entry> {
    if |head| >= 2 && head[0] == '[' && head[|head| - 1] == ']'
       && digits != [] && IsDigits(digits) && DecimalValue(digits) < Modulus
    then Some(Entry(head[1..|head| - 1], DecimalValue(digits)))
    else None
  }

  /** The two parts of a printed line make its entry again. */
  lemma ParsePartsOfRow(e: Entry)
    ensures ParseParts("[" + e.word + "]", Decimal(e.count)) == Some(e)
  {
    var head := "[" + e.word + "]";
    DecimalRoundTrip(e.count);
    assert head[1..|head| - 1] == e.word;
  }

  /** Every output line reads back as the entry it was printed from, whatever
      characters the word holds: the line format loses nothing. */
  lemma RowRoundTrip(e: Entry)
    ensures ParseRow(Row(e)) == Some(e)
  {
    var head := "[" + e.word + "]";
    var digits := Decimal(e.count);
    assert Row(e) == head + [' '] + digits;
    assert ' ' !in digits;
    SplitLastAt(head, ' ', digits);
    ParsePartsOfRow(e);
  }

  /** The `for(const auto &element : sorted)` loop: one line per entry, in
      the order of the report. */
  method Emit(report: seq<Entry>) returns (lines: seq<string>)
    ensures |lines| == |report|
    ensures forall k :: 0 <= k < |report| ==> lines[k] == Row(report[k])
  {
    lines := [];
    for k := 0 to |report|
      invariant |lines| == k
      invariant forall m :: 0 <= m < k ==> lines[m] == Row(report[m])
    {
      lines := lines + [Row(report[k])];
    }
  }

  /** The whole of `main` after the scanner: the sum of the NUMBER values,
      the ranked report of the word counts and its lines. */
  method Run(tokens: seq<Token>) returns (sum: real, report: seq<Entry>, lines: seq<string>)
    requires End in tokens
    ensures sum == Total(Drained(tokens))
    ensures IsRanking(report, Tally(Drained(tokens)))
    ensures |lines| == |report|
    ensures forall k :: 0 <= k < |report| ==> lines[k] == Row(report[k])
  {
    var histogram, total, _, _ := Consume(tokens);
    sum := total;
    var sorted := BuildEntries(histogram);
    Sort(sorted);
    report := sorted[..];
    lines := Emit(report);
  }

  /** Two `a`, one `b` and the numbers 1.5 and 2.25, then `End`. */
  const ExampleStream: seq<Token> := [Word(Some(WordRef(1, "a"))), Word(Some(WordRef(2, "b"))),
    Number(1.5), Word(Some(WordRef(3, "a"))), Number(2.25), End]

  /** The loop's table and sum over that stream. */
  lemma ExampleAggregates()
    ensures Tally(Drained(ExampleStream)) == map["a" := 2, "b" := 1]
    ensures Total(Drained(ExampleStream)) == 3.75
  {
    var a1, b, n1, a2, n2 := Word(Some(WordRef(1, "a"))), Word(Some(WordRef(2, "b"))),
      Number(1.5), Word(Some(WordRef(3, "a"))), Number(2.25);
    assert FirstEnd(ExampleStream) == 5;
    assert Drained(ExampleStream) == [a1, b, n1, a2, n2];
    ExampleTally(a1, b, n1, a2, n2);
    ExampleTotal(a1, b, n1, a2, n2);
  }

  /** The table over `a b 1.5 a 2.25`, token by token. */
  lemma ExampleTally(a1: Token, b: Token, n1: Token, a2: Token, n2: Token)
    requires a1 == Word(Some(WordRef(1, "a"))) && b == Word(Some(WordRef(2, "b")))
    requires n1 == Number(1.5) && a2 == Word(Some(WordRef(3, "a"))) && n2 == Number(2.25)
    ensures Tally([a1, b, n1, a2, n2]) == map["a" := 2, "b" := 1]
  {
    ExampleTallyStart(a1, b, n1);
    assert Tally([a1, b, n1, a2]) == map["a" := 2, "b" := 1] by {
      assert [a1, b, n1, a2] == [a1, b, n1] + [a2];
      Snoc([a1, b, n1], a2);
    }
    assert [a1, b, n1, a2, n2] == [a1, b, n1, a2] + [n2];
    Snoc([a1, b, n1, a2], n2);
  }

  /** The table over `a b 1.5`. */
  lemma ExampleTallyStart(a1: Token, b: Token, n1: Token)
    requires a1 == Word(Some(WordRef(1, "a"))) && b == Word(Some(WordRef(2, "b"))) && n1 == Number(1.5)
    ensures Tally([a1, b, n1]) == map["a" := 1, "b" := 1]
  {
    assert Tally([a1]) == map["a" := 1] by {
      assert [a1] == [] + [a1];
      Snoc([], a1);
    }
    assert Tally([a1, b]) == map["a" := 1, "b" := 1] by {
      assert [a1, b] == [a1] + [b];
      Snoc([a1], b);
    }
    assert [a1, b, n1] == [a1, b] + [n1];
    Snoc([a1, b], n1);
  }

  /** The sum over `a b 1.5 a 2.25`, token by token. */
  lemma ExampleTotal(a1: Token, b: Token, n1: Token, a2: Token, n2: Token)
    requires a1 == Word(Some(WordRef(1, "a"))) && b == Word(Some(WordRef(2, "b")))
    requires n1 == Number(1.5) && a2 == Word(Some(WordRef(3, "a"))) && n2 == Number(2.25)
    ensures Total([a1, b, n1, a2, n2]) == 3.75
  {
    assert Total([a1, b]) == 0.0;
    assert Total([a1, b, n1]) == 1.5 by {
      assert [a1, b, n1] == [a1, b] + [n1];
      Snoc([a1, b], n1);
    }
    assert Total([a1, b, n1, a2]) == 1.5 by {
      assert [a1, b, n1, a2] == [a1, b, n1] + [a2];
      Snoc([a1, b, n1], a2);
    }
    assert [a1, b, n1, a2, n2] == [a1, b, n1, a2] + [n2];
    Snoc([a1, b, n1, a2], n2);
  }

  /** A histogram of two words has one ranking: the entry that goes first,
      then the other. */
  lemma TwoEntryRanking(r: seq<Entry>, x: Entry, y: Entry)
    requires x.word != y.word && Before(x, y)
    requires IsRanking(r, map[x.word := x.count, y.word := y.count])
    ensures r == [x, y]
  {
    var h := map[x.word := x.count, y.word := y.count];
    assert x == Entry(x.word, h[x.word]) && y == Entry(y.word, h[y.word]);
    assert x in EntrySet(h) && y in EntrySet(h);
    assert EntrySet(h) == {x, y};
    BeforeAsymmetric(x, y);
    assert IsRanking([x, y], h);
    RankingUnique(r, [x, y], h);
  }

  /** Over that stream the sum is 3.75 and the only possible report prints
      `[a] 2` then `[b] 1`. */
  lemma ExampleCountsAndSum(r: seq<Entry>)
    requires IsRanking(r, Tally(Drained(ExampleStream)))
    ensures Total(Drained(ExampleStream)) == 3.75
    ensures |r| == 2 && Row(r[0]) == "[a] 2" && Row(r[1]) == "[b] 1"
  {
    ExampleAggregates();
    TwoEntryRanking(r, Entry("a", 2), Entry("b", 1));
    ExampleRows();
  }

  /** The two lines of that report. */
  lemma ExampleRows()
    ensures Row(Entry("a", 2)) == "[a] 2" && Row(Entry("b", 1)) == "[b] 1"
  {
    assert Decimal(2) == "2" && Decimal(1) == "1";
  }

  /** `z` then `a`, then `End`. */
  const TieStream: seq<Token> := [Word(Some(WordRef(1, "z"))), Word(Some(WordRef(2, "a"))), End]

  /** The loop's table over that stream. */
  lemma TieAggregates()
    ensures Tally(Drained(TieStream)) == map["a" := 1, "z" := 1]
  {
    var z, a := Word(Some(WordRef(1, "z"))), Word(Some(WordRef(2, "a")));
    assert FirstEnd(TieStream) == 2;
    assert Drained(TieStream) == [z] + [a];
    assert [z] == [] + [z];
    Snoc([], z);
    Snoc([z], a);
  }

  /** Over that stream both counts are 1, so the lesser word comes first. */
  lemma ExampleTie(r: seq<Entry>)
    requires IsRanking(r, Tally(Drained(TieStream)))
    ensures r == [Entry("a", 1), Entry("z", 1)]
  {
    TieAggregates();
    assert Less("a", "z");
    TwoEntryRanking(r, Entry("a", 1), Entry("z", 1));
  }

  /** A stream that is only `End`: sum 0 and no line after it. */
  lemma ExampleEmpty(r: seq<Entry>)
    requires IsRanking(r, Tally(Drained([End])))
    ensures Total(Drained([End])) == 0.0
    ensures r == []
  {
    assert FirstEnd([End]) == 0;
    assert Tally(Drained([End])) == map[];
    assert EntrySet(map[]) == {};
    RankingUnique(r, [], map[]);
  }
}
