/** The token-consumption loop of `main` in 1-regexes/histogram_main.cpp:
    the word -> count table, the running sum and the release of every WORD
    payload. */
module Aggregator {
  import opened Tokens

  /** The range of the C++ `unsigned` that holds a count. */
  const Modulus: int := 0x1_0000_0000

  type u32 = x: int | 0 <= x < 0x1_0000_0000

  /** `std::unordered_map<std::string, unsigned>`, without its hashing and
      iteration order. */
  type Histogram = map<string, u32>

  /** `c += 1` on an `unsigned`: one more, except that 2^32 - 1 wraps to 0. */
  function Increment(c: u32): (r: u32)
    ensures c < Modulus - 1 ==> r == c + 1
    ensures c == Modulus - 1 ==> r == 0
  {
    (c + 1) % Modulus
  }

  /** `histogram[w] += 1`: `operator[]` first inserts a zero count for a
      missing key, then that entry, and no other, is incremented. */
  function Count(h: Histogram, w: string): (h': Histogram)
    ensures h'.Keys == h.Keys + {w}
    ensures w in h ==> h'[w] == Increment(h[w])
    ensures w !in h ==> h'[w] == 1
    ensures forall u :: u in h && u != w ==> h'[u] == h[u]
  {
    h[w := Increment(if w in h then h[w] else 0)]
  }

  /** What one token other than `End` does to the table: a WORD with a
      non-null payload counts its text, a WORD with a null payload and a
      NUMBER leave it as it was. */
  function Record(h: Histogram, t: Token): (h': Histogram)
    ensures t.Word? && t.payload.Some? ==> h' == Count(h, t.payload.value.text)
    ensures !(t.Word? && t.payload.Some?) ==> h' == h
  {
    match t
    case Word(Some(p)) => Count(h, p.text)
    case _ => h
  }

  /** The table after the loop has acted on `ts`, token by token. Each
      token adds at most one key; `TallyCountsWords` says which keys and
      counts it holds. */
  function Tally(ts: seq<Token>): (h: Histogram)
    ensures |h| <= |ts|
  {
    if ts == [] then map[]
    else
      var before := Tally(ts[..|ts| - 1]);
      var t := ts[|ts| - 1];
      assert t.Word? && t.payload.Some? ==> |Record(before, t).Keys| <= |before.Keys| + 1 by {
        if t.Word? && t.payload.Some? {
          var w := t.payload.value.text;
          assert Record(before, t).Keys == before.Keys + {w};
          assert |before.Keys + {w}| <= |before.Keys| + |{w}|;
        }
      }
      Record(before, t)
  }

  /** The payloads of the WORD tokens of `ts` whose pointer is not null, in
      stream order: the ones the loop releases. Each comes from a WORD token
      of `ts` that carries it. */
  function Payloads(ts: seq<Token>): (r: seq<WordRef>)
    ensures |r| <= |ts|
    ensures forall p :: p in r ==> Word(Some(p)) in ts
  {
    if ts == [] then []
    else
      var init := ts[..|ts| - 1];
      var rest := Payloads(init);
      assert forall t :: t in init ==> t in ts;
      match ts[|ts| - 1]
      case Word(Some(p)) => rest + [p]
      case _ => rest
  }

  /** The texts of those payloads, exactly as the scanner produced them. */
  function Words(ts: seq<Token>): seq<string> {
    if ts == [] then []
    else
      var rest := Words(ts[..|ts| - 1]);
      match ts[|ts| - 1]
      case Word(Some(p)) => rest + [p.text]
      case _ => rest
  }

  /** The sum of the NUMBER values of `ts`, added left to right; without
      NUMBER tokens it stays 0. */
  function Total(ts: seq<Token>): (r: real)
    ensures (forall k :: 0 <= k < |ts| ==> !ts[k].Number?) ==> r == 0.0
  {
    if ts == [] then 0.0
    else
      var rest := Total(ts[..|ts| - 1]);
      match ts[|ts| - 1]
      case Number(v) => rest + v
      case _ => rest
  }

  /** Acting on one more token, for the table, the sum and the releases. */
  lemma Snoc(ts: seq<Token>, t: Token)
    ensures Tally(ts + [t]) == Record(Tally(ts), t)
    ensures Total(ts + [t]) == Total(ts) + (if t.Number? then t.value else 0.0)
    ensures Payloads(ts + [t]) == Payloads(ts) + (if t.Word? && t.payload.Some? then [t.payload.value] else [])
  {
    assert (ts + [t])[..|ts|] == ts;
  }

  /** The table agrees with the list of counted texts on `w`. */
  ghost predicate CountsAgree(h: Histogram, words: seq<string>, w: string) {
    (w in h <==> w in words) && (w in h ==> h[w] == multiset(words)[w] % Modulus)
  }

  /** Counting one more text keeps the table in agreement with the list. */
  lemma CountKeepsAgreement(h: Histogram, words: seq<string>, u: string, w: string)
    requires CountsAgree(h, words, w)
    ensures CountsAgree(Count(h, u), words + [u], w)
  {
    assert multiset(words + [u]) == multiset(words) + multiset{u};
    if u == w {
      if w in h {
        IncrementMod(multiset(words)[w]);
      } else {
        assert multiset(words)[w] == 0;
      }
    }
  }

  /** The table holds exactly the words that occur as non-null WORD payloads,
      and each count is the number of occurrences of that exact text, reduced
      modulo 2^32 as the `unsigned` counter does. */
  lemma {:induction false} TallyCountsWords(ts: seq<Token>, w: string)
    ensures w in Tally(ts) <==> w in Words(ts)
    ensures w in Tally(ts) ==> Tally(ts)[w] == multiset(Words(ts))[w] % Modulus
  {
    if ts != [] {
      var init := ts[..|ts| - 1];
      var t := ts[|ts| - 1];
      TallyCountsWords(init, w);
      if t.Word? && t.payload.Some? {
        var u := t.payload.value.text;
        assert Words(ts) == Words(init) + [u];
        assert Tally(ts) == Count(Tally(init), u);
        CountKeepsAgreement(Tally(init), Words(init), u, w);
      } else {
        assert Words(ts) == Words(init);
        assert Tally(ts) == Tally(init);
      }
    }
  }

  /** The counted texts are the texts of the released payloads, in order. */
  lemma {:induction false} WordsArePayloadTexts(ts: seq<Token>)
    ensures |Words(ts)| == |Payloads(ts)|
    ensures forall i :: 0 <= i < |Words(ts)| ==> Words(ts)[i] == Payloads(ts)[i].text
  {
    if ts != [] {
      WordsArePayloadTexts(ts[..|ts| - 1]);
    }
  }

  /** Counting modulo 2^32 step by step is counting, then reducing. */
  lemma IncrementMod(n: nat)
    ensures Increment(n % Modulus) == (n + 1) % Modulus
  {
  }

  /** Below 2^32 occurrences the count is the exact number of occurrences. */
  lemma TallyExact(ts: seq<Token>, w: string)
    requires multiset(Words(ts))[w] < Modulus
    ensures w in Tally(ts) ==> Tally(ts)[w] == multiset(Words(ts))[w]
    ensures multiset(Words(ts))[w] == 0 <==> w !in Tally(ts)
  {
    TallyCountsWords(ts, w);
  }

  /** Every non-null payload is released once per WORD token that carried
      it, and nothing else is released: in particular no null pointer. */
  lemma {:induction false} PayloadsReleasedOnce(ts: seq<Token>, p: WordRef)
    ensures multiset(Payloads(ts))[p] == multiset(ts)[Word(Some(p))]
  {
    if ts != [] {
      var init := ts[..|ts| - 1];
      var t := ts[|ts| - 1];
      PayloadsReleasedOnce(init, p);
      assert ts == init + [t];
      assert multiset(ts) == multiset(init) + multiset{t};
      if t.Word? && t.payload.Some? {
        assert Payloads(ts) == Payloads(init) + [t.payload.value];
        assert multiset(Payloads(ts)) == multiset(Payloads(init)) + multiset{t.payload.value};
      } else {
        assert Payloads(ts) == Payloads(init);
      }
    }
  }

  /** The exact sum over a stream is the sum over its parts. This is a
      property of the `real` abstraction of the sum: the program's `double`
      additions round, and their result depends on the order. */
  lemma {:induction false} TotalAppend(s: seq<Token>, t: seq<Token>)
    ensures Total(s + t) == Total(s) + Total(t)
  {
    if t != [] {
      var init := t[..|t| - 1];
      assert (s + t)[..|s + t| - 1] == s + init;
      TotalAppend(s, init);
    } else {
      assert s + t == s;
    }
  }

  /** The `while(tokens_consumed == false)` loop of `main`. It pulls tokens
      until the first `End` and pulls nothing after it; `pulled` counts the
      pulls. The ghost `released` logs every `delete` of a payload. */
  method Consume(tokens: seq<Token>)
    returns (histogram: Histogram, sum: real, pulled: nat, ghost released: seq<WordRef>)
    requires End in tokens
    ensures pulled == FirstEnd(tokens) + 1
    ensures histogram == Tally(Drained(tokens))
    ensures sum == Total(Drained(tokens))
    ensures released == Payloads(Drained(tokens))
  {
    histogram := map[];
    sum := 0.0;
    pulled := 0;
    released := [];
    var consumed := false;
    while !consumed
      invariant pulled <= FirstEnd(tokens) + 1
      invariant consumed <==> pulled == FirstEnd(tokens) + 1
      invariant !consumed ==> histogram == Tally(tokens[..pulled])
      invariant !consumed ==> sum == Total(tokens[..pulled])
      invariant !consumed ==> released == Payloads(tokens[..pulled])
      invariant consumed ==> histogram == Tally(Drained(tokens))
      invariant consumed ==> sum == Total(Drained(tokens))
      invariant consumed ==> released == Payloads(Drained(tokens))
      decreases FirstEnd(tokens) + 1 - pulled
    {
      var token := tokens[pulled];
      assert tokens[..pulled + 1][..pulled] == tokens[..pulled];
      assert token == End <==> pulled == FirstEnd(tokens) by {
        if pulled < FirstEnd(tokens) {
          assert token == tokens[..FirstEnd(tokens)][pulled];
        }
      }
      pulled := pulled + 1;
      match token
      case End =>
        consumed := true;
      case Number(v) =>
        sum := sum + v;
      case Word(payload) =>
        if payload.Some? {
          histogram := Count(histogram, payload.value.text);
          released := released + [payload.value];
        }
    }
  }
}
