/** The `sort_order` comparator of 1-regexes/histogram_main.cpp and the
    in-place sort of the vector of (word, count) entries. */
module Ranking {
  import opened Aggregator

  /** A `std::pair<std::string, unsigned>` of the `sorted` vector. */
  datatype Entry = Entry(word: string, count: u32)

  /** `s` and `t` agree on their first `k` characters, and then `s` ends
      while `t` goes on, or `s` has the lesser character. */
  ghost predicate LessAt(s: string, t: string, k: int) {
    0 <= k <= |s| && k < |t| && s[..k] == t[..k] && (k == |s| || s[k] < t[k])
  }

  /** Strings that start with the same character compare as their rests. */
  lemma LessAtShift(s: string, t: string)
    requires s != [] && t != [] && s[0] == t[0]
    ensures (exists k :: LessAt(s, t, k)) <==> (exists k :: LessAt(s[1..], t[1..], k))
  {
    if k :| LessAt(s, t, k) {
      assert k != 0;
      assert s[1..][..k - 1] == s[..k][1..] && t[1..][..k - 1] == t[..k][1..];
      assert LessAt(s[1..], t[1..], k - 1);
    }
    if k :| LessAt(s[1..], t[1..], k) {
      assert s[..k + 1] == [s[0]] + s[1..][..k] && t[..k + 1] == [t[0]] + t[1..][..k];
      assert LessAt(s, t, k + 1);
    }
  }

  /** Strings whose first characters differ compare by those characters. */
  lemma LessAtFirst(s: string, t: string)
    requires s != [] && t != [] && s[0] != t[0]
    ensures (exists k :: LessAt(s, t, k)) <==> s[0] < t[0]
  {
    if k :| LessAt(s, t, k) {
      assert k == 0;
    }
    if s[0] < t[0] {
      assert LessAt(s, t, 0);
    }
  }

  /** `std::string`'s `operator<`: lexicographic by character, a proper
      prefix first. Equivalently, at some `k` the two agree before it and
      `s` is the lesser there (`LessAt`). */
  predicate Less(s: string, t: string)
    ensures Less(s, t) <==> exists k :: LessAt(s, t, k)
  {
    if s == [] then
      assert t != [] ==> LessAt(s, t, 0);
      t != []
    else if t == [] then false
    else if s[0] != t[0] then LessAtFirst(s, t); s[0] < t[0]
    else LessAtShift(s, t); Less(s[1..], t[1..])
  }

  /** No string is less than itself. */
  lemma {:induction false} LessIrreflexive(s: string)
    ensures !Less(s, s)
  {
    if s != [] {
      LessIrreflexive(s[1..]);
    }
  }

  /** `operator<` on strings is transitive. */
  lemma {:induction false} LessTransitive(s: string, t: string, u: string)
    requires Less(s, t) && Less(t, u)
    ensures Less(s, u)
  {
    if s != [] && t != [] && u != [] && s[0] == t[0] == u[0] {
      LessTransitive(s[1..], t[1..], u[1..]);
    }
  }

  /** Of two different strings exactly one is less than the other. */
  lemma {:induction false} LessTotal(s: string, t: string)
    requires s != t
    ensures Less(s, t) != Less(t, s)
  {
    if s != [] && t != [] && s[0] == t[0] {
      assert s == [s[0]] + s[1..] && t == [t[0]] + t[1..];
      LessTotal(s[1..], t[1..]);
    }
  }

  /** The `sort_order` lambda: the higher count first, on equal counts the
      word that is less. */
  predicate Before(a: Entry, b: Entry)
    ensures Before(a, b) <==> a.count > b.count || (a.count == b.count && Less(a.word, b.word))
  {
    if a.count > b.count then true
    else if a.count < b.count then false
    else Less(a.word, b.word)
  }

  /** `sort_order` is irreflexive. */
  lemma BeforeIrreflexive(a: Entry)
    ensures !Before(a, a)
  {
    LessIrreflexive(a.word);
  }

  /** `sort_order` is transitive. */
  lemma BeforeTransitive(a: Entry, b: Entry, c: Entry)
    requires Before(a, b) && Before(b, c)
    ensures Before(a, c)
  {
    if a.count == b.count == c.count {
      LessTransitive(a.word, b.word, c.word);
    }
  }

  /** `sort_order` is asymmetric. */
  lemma BeforeAsymmetric(a: Entry, b: Entry)
    requires Before(a, b)
    ensures !Before(b, a)
  {
    if Before(b, a) {
      BeforeTransitive(a, b, a);
      BeforeIrreflexive(a);
    }
  }

  /** Of two different entries exactly one goes first: `sort_order` is a
      strict total order, so in particular on entries with distinct words. */
  lemma BeforeTotal(a: Entry, b: Entry)
    requires a != b
    ensures Before(a, b) != Before(b, a)
  {
    if a.count == b.count {
      LessTotal(a.word, b.word);
    }
  }

  /** What `std::sort` with `sort_order` guarantees: no entry goes before one
      to its left. */
  ghost predicate Sorted(s: seq<Entry>) {
    forall i, j :: 0 <= i < j < |s| ==> !Before(s[j], s[i])
  }

  /** A sorted sequence of different entries is strictly ranked: higher
      counts first, equal counts by ascending word. */
  lemma RankedOrder(s: seq<Entry>, i: int, j: int)
    requires Sorted(s)
    requires 0 <= i < j < |s| && s[i] != s[j]
    ensures s[i].count > s[j].count || (s[i].count == s[j].count && Less(s[i].word, s[j].word))
  {
    BeforeTotal(s[i], s[j]);
  }

  /** Two sorted arrangements of the same entries are the same sequence: the
      sorted order does not depend on the order the entries came in, and
      sorting a sorted vector leaves it as it is. */
  lemma {:induction false} SortedUnique(s: seq<Entry>, t: seq<Entry>)
    requires Sorted(s) && Sorted(t)
    requires multiset(s) == multiset(t)
    ensures s == t
  {
    if s != [] {
      assert |t| == |multiset(t)| == |multiset(s)| == |s|;
      assert s[0] in multiset(t);
      assert t[0] in multiset(s);
      var j :| 0 <= j < |t| && t[j] == s[0];
      var k :| 0 <= k < |s| && s[k] == t[0];
      if s[0] != t[0] {
        BeforeTotal(s[0], t[0]);
      }
      assert s[0] == t[0];
      assert s == [s[0]] + s[1..];
      assert t == [t[0]] + t[1..];
      assert multiset(s[1..]) == multiset(s) - multiset{s[0]};
      assert multiset(t[1..]) == multiset(t) - multiset{t[0]};
      SortedUnique(s[1..], t[1..]);
    }
  }

  /** Every entry at or after `i` may stand after every entry before `i`. */
  ghost predicate Partitioned(s: seq<Entry>, i: int) {
    forall k, m :: 0 <= k < i <= m < |s| ==> !Before(s[m], s[k])
  }

  /** Swapping two places keeps the same entries. */
  lemma SwapKeepsEntries(s: seq<Entry>, i: int, j: int)
    requires 0 <= i < j < |s|
    ensures multiset(s[i := s[j]][j := s[i]]) == multiset(s)
  {
    var t := s[i := s[j]][j := s[i]];
    assert t == s[..i] + [s[j]] + s[i + 1..j] + [s[i]] + s[j + 1..];
    assert s == s[..i] + [s[i]] + s[i + 1..j] + [s[j]] + s[j + 1..];
  }

  /** One step of the selection sort: swapping a least entry of `s[i..]` into
      place `i` extends the sorted prefix by one entry... */
  lemma SelectExtendsSorted(s: seq<Entry>, i: int, least: int)
    requires 0 <= i <= least < |s|
    requires Sorted(s[..i]) && Partitioned(s, i)
    ensures Sorted(s[i := s[least]][least := s[i]][..i + 1])
  {
    var done := s[i := s[least]][least := s[i]][..i + 1];
    forall k, m | 0 <= k < m < |done|
      ensures !Before(done[m], done[k])
    {
      if m < i {
        assert done[m] == s[..i][m] && done[k] == s[..i][k];
      } else {
        assert done[m] == s[least] && done[k] == s[k];
      }
    }
  }

  /** ... and leaves everything after it free to stand after all of it. */
  lemma SelectExtendsPartition(s: seq<Entry>, i: int, least: int)
    requires 0 <= i <= least < |s|
    requires Partitioned(s, i)
    requires forall m :: i <= m < |s| ==> !Before(s[m], s[least])
    ensures Partitioned(s[i := s[least]][least := s[i]], i + 1)
  {
    var t := s[i := s[least]][least := s[i]];
    forall k, m | 0 <= k < i + 1 <= m < |t|
      ensures !Before(t[m], t[k])
    {
      var m' := if m == least then i else m;
      assert t[m] == s[m'] && i <= m';
    }
  }

  /** The place of an entry of `a[i..]` that no other entry there goes
      before. */
  method LeastFrom(a: array<Entry>, i: int) returns (least: int)
    requires 0 <= i < a.Length
    ensures i <= least < a.Length
    ensures forall m :: i <= m < a.Length ==> !Before(a[m], a[least])
  {
    least := i;
    BeforeIrreflexive(a[i]);
    for j := i + 1 to a.Length
      invariant i <= least < j
      invariant forall m :: i <= m < j ==> !Before(a[m], a[least])
    {
      if Before(a[j], a[least]) {
        forall m | i <= m < j
          ensures !Before(a[m], a[j])
        {
          if Before(a[m], a[j]) {
            BeforeTransitive(a[m], a[j], a[least]);
          }
        }
        BeforeIrreflexive(a[j]);
        least := j;
      }
    }
  }

  /** `std::sort(sorted.begin(), sorted.end(), sort_order)`: afterwards the
      array is sorted and holds the same entries. The algorithm is a
      selection sort. */
  method Sort(a: array<Entry>)
    modifies a
    ensures Sorted(a[..])
    ensures multiset(a[..]) == old(multiset(a[..]))
  {
    for i := 0 to a.Length
      invariant Sorted(a[..i]) && Partitioned(a[..], i)
      invariant multiset(a[..]) == old(multiset(a[..]))
    {
      var least := LeastFrom(a, i);
      ghost var before := a[..];
      assert before[..i] == a[..i];
      SelectExtendsSorted(before, i, least);
      SelectExtendsPartition(before, i, least);
      if i < least {
        SwapKeepsEntries(before, i, least);
      }
      a[i], a[least] := a[least], a[i];
      assert a[..] == before[i := before[least]][least := before[i]];
    }
    assert a[..a.Length] == a[..];
  }
}
