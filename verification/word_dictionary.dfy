/**
 * The word-frequency dictionary that both the browser compressor
 * (src/lib/compression.ts) and the edge function's text path
 * (supabase/functions/compress-file/index.ts) build: the whitespace tokens
 * of the text are counted in a `Map`, the entries are sorted by count, the
 * fifty most frequent words get the codes `[0]`, `[1]`, ... in rank order,
 * and each word is replaced by its code with `split(word).join(code)`.
 */
module WordDictionary {
  import opened JsText
  import opened JsCollections

  /** The number of entries a dictionary keeps at most. */
  const DictionaryLimit: nat := 50

  /** Number of occurrences of `w` in `words`. */
  function Count(words: seq<string>, w: string): nat {
    if words == [] then 0
    else Count(words[..|words| - 1], w) + (if words[|words| - 1] == w then 1 else 0)
  }

  /** The frequency table as `Array.from(wordFrequency.entries())` lists it. */
  function FrequencyEntries(words: seq<string>): seq<(string, int)> {
    var d := Distinct(words);
    seq(|d|, i requires 0 <= i < |d| => (d[i], Count(words, d[i]) as int))
  }

  /**
   * Fills the frequency table word by word, as
   * `wordFrequency.set(word, (wordFrequency.get(word) || 0) + 1)` does.
   */
  method CountWords(words: seq<string>) returns (freq: JsMap<string, int>)
    ensures freq.Valid()
    ensures freq.keys == Distinct(words)
    ensures forall w :: w in freq.vals ==> freq.vals[w] == Count(words, w)
    ensures freq.Entries() == FrequencyEntries(words)
  {
    freq := EmptyMap();
    var i := 0;
    while i < |words|
      invariant 0 <= i <= |words|
      invariant freq.Valid()
      invariant freq.keys == Distinct(words[..i])
      invariant forall w :: w in freq.vals ==> freq.vals[w] == Count(words[..i], w)
    {
      var word := words[i];
      var current := freq.Get(word);
      var n := if current.Some? then current.value else 0;
      DistinctSpec(words[..i]);
      if word !in freq.vals {
        CountAbsent(words[..i], word);
      }
      freq := freq.Set(word, n + 1);
      assert words[..i + 1][..i] == words[..i];
      i := i + 1;
    }
    assert words[..|words|] == words;
    DistinctSpec(words);
  }

  /** The `i`-th code: the template literal `[${i}]`. */
  function Code(i: nat): (c: string)
    ensures |c| >= 3 && c[0] == '[' && c[|c| - 1] == ']'
    ensures forall k :: 0 < k < |c| - 1 ==> '0' <= c[k] <= '9'
  {
    "[" + Decimal(i) + "]"
  }

  /** The dictionary's entries: the frequency table sorted by count, first fifty kept. */
  function TopEntries(words: seq<string>): seq<(string, int)> {
    Take(SortDesc(FrequencyEntries(words)), DictionaryLimit)
  }

  /** Ranked entries paired with the codes of their ranks. */
  function Coded(top: seq<(string, int)>): seq<(string, string)> {
    seq(|top|, i requires 0 <= i < |top| => (top[i].0, Code(i)))
  }

  /** The dictionary as (word, code) pairs in rank order. */
  function RankedDictionary(words: seq<string>): seq<(string, string)> {
    Coded(TopEntries(words))
  }

  /** The text after each dictionary entry in turn has replaced its word by its code. */
  function Substitute(text: string, dict: seq<(string, string)>): string {
    if dict == [] then text
    else ReplaceAll(Substitute(text, dict[..|dict| - 1]), dict[|dict| - 1].0, dict[|dict| - 1].1)
  }

  /**
   * The substitution loop: each (word, code) entry in turn,
   * `text = text.split(word).join(code)`.
   */
  method ApplyDictionary(content: string, codes: seq<(string, string)>) returns (currentText: string)
    ensures currentText == Substitute(content, codes)
  {
    currentText := content;
    var k := 0;
    while k < |codes|
      invariant 0 <= k <= |codes|
      invariant currentText == Substitute(content, codes[..k])
    {
      currentText := Join(Split(currentText, codes[k].0), codes[k].1);
      assert codes[..k + 1][..k] == codes[..k];
      k := k + 1;
    }
    assert codes[..k] == codes;
  }

  function SumCounts(keys: seq<string>, words: seq<string>): nat {
    if keys == [] then 0 else SumCounts(keys[..|keys| - 1], words) + Count(words, keys[|keys| - 1])
  }

  // ---------------------------------------------------------------------
  // Counting
  // ---------------------------------------------------------------------

  lemma {:induction false} CountAbsent(words: seq<string>, w: string)
    requires w !in words
    ensures Count(words, w) == 0
  {
    if words != [] {
      CountAbsent(words[..|words| - 1], w);
    }
  }

  lemma CountAppend(words: seq<string>, x: string, w: string)
    ensures Count(words + [x], w) == Count(words, w) + (if x == w then 1 else 0)
  {
    assert (words + [x])[..|words|] == words;
  }

  lemma {:induction false} CountUnique(keys: seq<string>, x: string)
    requires Unique(keys)
    ensures Count(keys, x) == if x in keys then 1 else 0
  {
    if keys != [] {
      var init := keys[..|keys| - 1];
      CountUnique(init, x);
      assert keys == init + [keys[|keys| - 1]];
    }
  }

  lemma {:induction false} SumCountsAppendWord(keys: seq<string>, words: seq<string>, x: string)
    ensures SumCounts(keys, words + [x]) == SumCounts(keys, words) + Count(keys, x)
  {
    if keys != [] {
      SumCountsAppendWord(keys[..|keys| - 1], words, x);
      CountAppend(words, x, keys[|keys| - 1]);
    }
  }

  /** Every token is counted once: the counts add up to the number of tokens. */
  lemma {:induction false} CountsSumToTokens(words: seq<string>)
    ensures SumCounts(Distinct(words), words) == |words|
  {
    if words != [] {
      var init, x := words[..|words| - 1], words[|words| - 1];
      assert words == init + [x];
      CountsSumToTokens(init);
      DistinctSpec(init);
      var d := Distinct(init);
      SumCountsAppendWord(d, init, x);
      CountUnique(d, x);
      if x !in d {
        CountAbsent(init, x);
        CountAppend(init, x, x);
      }
    }
  }

  // ---------------------------------------------------------------------
  // Ranking
  // ---------------------------------------------------------------------

  lemma FrequencyEntriesSpec(words: seq<string>)
    ensures Firsts(FrequencyEntries(words)) == Distinct(words)
    ensures Unique(Firsts(FrequencyEntries(words)))
    ensures forall e :: e in FrequencyEntries(words) ==> e.0 in words && e.1 == Count(words, e.0)
    ensures forall w :: w in words ==> (w, Count(words, w) as int) in FrequencyEntries(words)
  {
    DistinctSpec(words);
    var fe, d := FrequencyEntries(words), Distinct(words);
    forall w | w in words ensures (w, Count(words, w) as int) in fe {
      var i :| 0 <= i < |d| && d[i] == w;
      assert fe[i] == (w, Count(words, w) as int);
    }
  }

  lemma {:induction false} InsertUniqueFirsts(x: (string, int), s: seq<(string, int)>)
    requires Unique(Firsts(s))
    requires forall y :: y in s ==> y.0 != x.0
    ensures Unique(Firsts(Insert(x, s)))
  {
    if s != [] && s[0].1 >= x.1 {
      InsertUniqueFirsts(x, s[1..]);
      InsertPerm(x, s[1..]);
      var r := Insert(x, s[1..]);
      forall i | 0 <= i < |r| ensures r[i].0 != s[0].0 {
        assert r[i] in multiset(r);
      }
      assert Insert(x, s) == [s[0]] + r;
    }
  }

  lemma {:induction false} SortDescUniqueFirsts(s: seq<(string, int)>)
    requires Unique(Firsts(s))
    ensures Unique(Firsts(SortDesc(s)))
  {
    if s != [] {
      var init := s[..|s| - 1];
      assert Firsts(init) == Firsts(s)[..|s| - 1];
      SortDescUniqueFirsts(init);
      SortDescPerm(init);
      forall y | y in SortDesc(init) ensures y.0 != s[|s| - 1].0 {
        assert y in multiset(init);
      }
      InsertUniqueFirsts(s[|s| - 1], SortDesc(init));
    }
  }

  lemma {:induction false} WithKeyTake(s: seq<(string, int)>, n: nat, k: int)
    ensures WithKey(Take(s, n), k) <= WithKey(s, k)
  {
    if s != [] && n > 0 {
      var rest := Take(s[1..], n - 1);
      WithKeyTake(s[1..], n - 1, k);
      assert Take(s, n) == [s[0]] + rest;
      assert ([s[0]] + rest)[1..] == rest;
      assert WithKey(Take(s, n), k) == (if s[0].1 == k then [s[0]] else []) + WithKey(rest, k);
      assert WithKey(s, k) == (if s[0].1 == k then [s[0]] else []) + WithKey(s[1..], k);
    } else if s != [] {
      assert Take(s, n) == [];
    }
  }

  lemma TopEntriesMembers(words: seq<string>)
    ensures |TopEntries(words)| == Min(DictionaryLimit, |Distinct(words)|)
    ensures TopEntries(words) == SortDesc(FrequencyEntries(words))[..|TopEntries(words)|]
    ensures NonIncreasing(TopEntries(words))
    ensures Unique(Firsts(TopEntries(words)))
    ensures forall i :: 0 <= i < |TopEntries(words)| ==>
              TopEntries(words)[i].0 in words && TopEntries(words)[i].1 == Count(words, TopEntries(words)[i].0)
  {
    var fe := FrequencyEntries(words);
    var sorted := SortDesc(fe);
    var top := TopEntries(words);
    FrequencyEntriesSpec(words);
    SortDescSorted(fe);
    SortDescPerm(fe);
    SortDescUniqueFirsts(fe);
    assert top == sorted[..Min(DictionaryLimit, |sorted|)];
    forall i | 0 <= i < |top| ensures top[i].0 in words && top[i].1 == Count(words, top[i].0) {
      assert top[i] in multiset(fe);
    }
    assert Firsts(top) == Firsts(sorted)[..|top|];
  }

  lemma TopEntriesLeftOut(words: seq<string>)
    ensures forall w :: w in words ==>
              (w in Firsts(TopEntries(words)) ||
               forall i :: 0 <= i < |TopEntries(words)| ==> Count(words, w) <= TopEntries(words)[i].1)
  {
    var fe := FrequencyEntries(words);
    var sorted := SortDesc(fe);
    var top := TopEntries(words);
    TopEntriesMembers(words);
    FrequencyEntriesSpec(words);
    SortDescSorted(fe);
    SortDescPerm(fe);
    forall w | w in words
      ensures w in Firsts(top) || forall i :: 0 <= i < |top| ==> Count(words, w) <= top[i].1
    {
      var e := (w, Count(words, w) as int);
      assert e in multiset(sorted);
      var j :| 0 <= j < |sorted| && sorted[j] == e;
      if j < |top| {
        assert Firsts(top)[j] == w;
      } else {
        assert forall i :: 0 <= i < |top| ==> top[i] == sorted[i];
      }
    }
  }

  lemma TopEntriesStable(words: seq<string>)
    ensures forall k :: WithKey(TopEntries(words), k) <= WithKey(FrequencyEntries(words), k)
  {
    var fe := FrequencyEntries(words);
    forall k ensures WithKey(TopEntries(words), k) <= WithKey(fe, k) {
      WithKeyTake(SortDesc(fe), DictionaryLimit, k);
      SortDescStable(fe, k);
    }
  }

  /**
   * The dictionary keeps the min(50, #distinct) most frequent words, each with
   * its count, most frequent first; every word left out occurs at most as
   * often as every word kept; and among words with equal counts it keeps the
   * earliest to appear, in order of first appearance.
   */
  lemma TopEntriesSpec(words: seq<string>)
    ensures |TopEntries(words)| == Min(DictionaryLimit, |Distinct(words)|)
    ensures NonIncreasing(TopEntries(words))
    ensures Unique(Firsts(TopEntries(words)))
    ensures forall i :: 0 <= i < |TopEntries(words)| ==>
              TopEntries(words)[i].0 in words && TopEntries(words)[i].1 == Count(words, TopEntries(words)[i].0)
    ensures forall w :: w in words ==>
              (w in Firsts(TopEntries(words)) ||
               forall i :: 0 <= i < |TopEntries(words)| ==> Count(words, w) <= TopEntries(words)[i].1)
    ensures forall k :: WithKey(TopEntries(words), k) <= WithKey(FrequencyEntries(words), k)
  {
    TopEntriesMembers(words);
    TopEntriesLeftOut(words);
    TopEntriesStable(words);
  }

  /** The most frequent token is ranked first and gets the code `[0]`. */
  lemma MostFrequentFirst(words: seq<string>)
    requires words != []
    ensures |RankedDictionary(words)| >= 1 && RankedDictionary(words)[0].1 == "[0]"
    ensures forall w :: w in words ==> Count(words, w) <= Count(words, RankedDictionary(words)[0].0)
  {
    TopEntriesSpec(words);
    DistinctSpec(words);
    assert words[0] in Distinct(words);
    var top := TopEntries(words);
    forall w | w in words ensures Count(words, w) <= top[0].1 {
      if w in Firsts(top) {
        var i :| 0 <= i < |top| && Firsts(top)[i] == w;
      }
    }
  }

  /** Different ranks get different codes. */
  lemma CodeInjective(i: nat, j: nat)
    ensures Code(i) == Code(j) ==> i == j
  {
    if Code(i) == Code(j) {
      assert Code(i)[1..|Code(i)| - 1] == Decimal(i);
      assert Code(j)[1..|Code(j)| - 1] == Decimal(j);
      DecimalInjective(i, j);
    }
  }

  /**
   * The dictionary pairs min(50, #distinct) distinct words with the codes
   * `[0]`, `[1]`, ... in rank order, and its codes are pairwise distinct.
   */
  lemma RankedDictionarySpec(words: seq<string>)
    ensures |RankedDictionary(words)| == Min(DictionaryLimit, |Distinct(words)|)
    ensures forall i :: 0 <= i < |RankedDictionary(words)| ==>
              RankedDictionary(words)[i].1 == Code(i) && RankedDictionary(words)[i].0 in words
    ensures forall i, j :: 0 <= i < j < |RankedDictionary(words)| ==>
              RankedDictionary(words)[i].0 != RankedDictionary(words)[j].0
              && RankedDictionary(words)[i].1 != RankedDictionary(words)[j].1
  {
    TopEntriesSpec(words);
    var d := RankedDictionary(words);
    forall i, j | 0 <= i < j < |d| ensures d[i].0 != d[j].0 && d[i].1 != d[j].1 {
      CodeInjective(i, j);
      assert Firsts(TopEntries(words))[i] == d[i].0;
      assert Firsts(TopEntries(words))[j] == d[j].0;
    }
  }

  /**
   * Text without whitespace is one token; the dictionary is that token with
   * code `[0]`, and substitution leaves exactly `[0]`.
   */
  lemma PlainTextBecomesFirstCode(content: string)
    requires content != [] && NoWhitespace(content)
    ensures RankedDictionary(Tokens(content)) == [(content, "[0]")]
    ensures Substitute(content, RankedDictionary(Tokens(content))) == "[0]"
  {
    TokensOfPlainText(content);
    var words := [content];
    assert Distinct(words) == [content] by {
      assert words[..0] == [];
    }
    assert Count(words, content) == 1 by {
      assert words[..0] == [];
    }
    assert FrequencyEntries(words) == [(content, 1)];
    assert SortDesc([(content, 1)]) == [(content, 1)] by {
      assert [(content, 1)][..0] == [];
    }
    assert Code(0) == "[0]";
    var dict := RankedDictionary(words);
    assert dict == [(content, "[0]")];
    assert dict[..0] == [];
    ReplaceAllWhole(content, "[0]");
  }
}
