/**
 * `compressTextData` of supabase/functions/compress-file/index.ts: the
 * decoded text gets the same word dictionary as the browser compressor, held
 * in a plain object, is substituted in the order `Object.entries` lists that
 * object, and is serialised as `{v, d, c}` with `d` mapping each code to its
 * word. When a target size is given and exceeded, the content is cut once to
 * a prefix.
 */
module TextCompression {
  import opened JsText
  import opened JsCollections
  import opened WordDictionary

  /** The key whose assignment sets the prototype and ignores a string value. */
  const ProtoKey: string := "__proto__"

  /** 2^32 - 1: the array indices are the integers below it. */
  const IndexLimit: nat := 4294967295

  predicate AllDigits(s: string) {
    forall i :: 0 <= i < |s| ==> '0' <= s[i] <= '9'
  }

  /** The number a string of decimal digits spells. */
  function DigitsValue(s: string): nat
    requires AllDigits(s)
  {
    if s == [] then 0 else 10 * DigitsValue(s[..|s| - 1]) + (s[|s| - 1] as int - '0' as int)
  }

  /** The array index a property key denotes: its canonical decimal form, below 2^32 - 1. */
  function ArrayIndex(key: string): (r: Option<nat>)
    ensures r.Some? ==> key == Decimal(r.value) && r.value < IndexLimit
  {
    if key != [] && AllDigits(key) && Decimal(DigitsValue(key)) == key && DigitsValue(key) < IndexLimit
    then Some(DigitsValue(key))
    else None
  }

  /** `obj[key] = value` for a string value on a plain object. */
  function Assign(obj: JsMap<string, string>, key: string, value: string): JsMap<string, string> {
    if key == ProtoKey then obj else obj.Set(key, value)
  }

  /** The entries without the one `__proto__` assignment ignores. */
  function WithoutProto(es: seq<(string, string)>): seq<(string, string)> {
    if es == [] then []
    else WithoutProto(es[..|es| - 1]) + (if es[|es| - 1].0 == ProtoKey then [] else [es[|es| - 1]])
  }

  /** The entries whose key is an array index, each keyed by minus that index. */
  function IndexEntries(es: seq<(string, string)>): seq<((string, string), int)> {
    if es == [] then []
    else
      var e := es[|es| - 1];
      var idx := ArrayIndex(e.0);
      IndexEntries(es[..|es| - 1]) + (if idx.Some? then [(e, -(idx.value as int))] else [])
  }

  /** The entries whose key is not an array index. */
  function PlainEntries(es: seq<(string, string)>): seq<(string, string)> {
    if es == [] then []
    else PlainEntries(es[..|es| - 1]) + (if ArrayIndex(es[|es| - 1].0).Some? then [] else [es[|es| - 1]])
  }

  /**
   * `Object.entries(obj)` for own string keys in insertion order `es`: the
   * array-index keys in ascending numeric order, then the others in order.
   */
  function OwnEntries(es: seq<(string, string)>): (r: seq<(string, string)>)
    ensures |r| == |IndexEntries(es)| + |PlainEntries(es)|
    ensures r[|IndexEntries(es)|..] == PlainEntries(es)
  {
    SortDescSorted(IndexEntries(es));
    Firsts(SortDesc(IndexEntries(es))) + PlainEntries(es)
  }

  /** `d`: `Object.fromEntries(sortedWords.map(([w], i) => [`[${i}]`, w]))`, as entries. */
  function Stored(sortedWords: seq<(string, int)>): (d: seq<(string, string)>)
    ensures |d| == |sortedWords|
    ensures forall i :: 0 <= i < |d| ==> d[i] == (Coded(sortedWords)[i].1, Coded(sortedWords)[i].0)
    ensures forall i, j :: 0 <= i < j < |d| ==> d[i].0 != d[j].0
  {
    forall i, j | 0 <= i < j < |sortedWords| ensures Code(i) != Code(j) {
      CodeInjective(i, j);
    }
    seq(|sortedWords|, i requires 0 <= i < |sortedWords| => (Code(i), sortedWords[i].0))
  }

  /** The text with the object dictionary applied. */
  function Substituted(text: string): string {
    Substitute(text, OwnEntries(WithoutProto(RankedDictionary(Tokens(text)))))
  }

  /**
   * `Math.floor(contentLength * (target / resultLength) * 0.9)` as the end
   * `substring` uses: clamped to 0 .. contentLength.
   */
  function TruncatedLength(contentLength: nat, target: real, resultLength: nat): (n: nat)
    ensures n <= contentLength
  {
    if resultLength == 0 then 0
    else
      var end := ((9 * contentLength) as real * target / (10 * resultLength) as real).Floor;
      if end < 0 then 0 else if end > contentLength then contentLength else end
  }

  /** `targetSizeBytes && result.length > targetSizeBytes`. */
  predicate Truncates(targetSizeBytes: Option<real>, resultLength: nat) {
    targetSizeBytes.Some? && targetSizeBytes.value != 0.0 && resultLength as real > targetSizeBytes.value
  }

  /** The `c` field of the final output. */
  function Content(text: string, targetSizeBytes: Option<real>,
                   encode: string -> seq<byte>, stringify: (seq<(string, string)>, string) -> string): string
  {
    var c := Substituted(text);
    var full := encode(stringify(Stored(TopEntries(Tokens(text))), c));
    if Truncates(targetSizeBytes, |full|) then c[..TruncatedLength(|c|, targetSizeBytes.value, |full|)] else c
  }

  /** The bytes `compressTextData` resolves to. */
  function TextCompressed(data: seq<byte>, targetSizeBytes: Option<real>, decode: seq<byte> -> string,
                          encode: string -> seq<byte>, stringify: (seq<(string, string)>, string) -> string): seq<byte>
  {
    var text := decode(data);
    encode(stringify(Stored(TopEntries(Tokens(text))), Content(text, targetSizeBytes, encode, stringify)))
  }

  /**
   * `compressTextData(data, quality, targetSizeBytes)`, with `TextDecoder`,
   * `TextEncoder` and `JSON.stringify({v: '1.0', d, c})` given as `decode`,
   * `encode` and `stringify`. The quality is not used.
   */
  method CompressTextData(data: seq<byte>, quality: int, targetSizeBytes: Option<real>,
                          decode: seq<byte> -> string, encode: string -> seq<byte>,
                          stringify: (seq<(string, string)>, string) -> string)
    returns (result: seq<byte>)
    ensures result == TextCompressed(data, targetSizeBytes, decode, encode, stringify)
  {
    var text := decode(data);

    var words := Tokens(text);
    var wordFreq := CountWords(words);
    var sortedWords := Take(SortDesc(wordFreq.Entries()), DictionaryLimit);
    TopEntriesMembers(words);

    var dictionary := FillDictionary(sortedWords);
    var compressed := ApplyDictionary(text, OwnEntries(dictionary.Entries()));

    var d := Stored(sortedWords);
    result := encode(stringify(d, compressed));
    if targetSizeBytes.Some? && targetSizeBytes.value != 0.0 && |result| as real > targetSizeBytes.value {
      var truncatedContent := compressed[..TruncatedLength(|compressed|, targetSizeBytes.value, |result|)];
      result := encode(stringify(d, truncatedContent));
    }
  }

  /** `sortedWords.forEach(([word], index) => { dictionary[word] = `[${index}]`; })` */
  method FillDictionary(sortedWords: seq<(string, int)>) returns (dictionary: JsMap<string, string>)
    requires Unique(Firsts(sortedWords))
    ensures dictionary.Valid()
    ensures dictionary.Entries() == WithoutProto(Coded(sortedWords))
  {
    ghost var coded := Coded(sortedWords);
    dictionary := EmptyMap();
    var index := 0;
    while index < |sortedWords|
      invariant 0 <= index <= |sortedWords|
      invariant dictionary.Valid()
      invariant dictionary.Entries() == WithoutProto(coded[..index])
      invariant forall k :: k in dictionary.vals ==> k in Firsts(sortedWords)[..index]
    {
      var word := sortedWords[index].0;
      assert word !in dictionary.vals by {
        forall j | 0 <= j < index ensures Firsts(sortedWords)[j] != word {
          assert Firsts(sortedWords)[j] != Firsts(sortedWords)[index];
        }
      }
      if word != ProtoKey {
        EntriesSetNew(dictionary, word, Code(index));
      }
      dictionary := Assign(dictionary, word, Code(index));
      assert coded[..index + 1][..index] == coded[..index];
      assert Firsts(sortedWords)[..index + 1] == Firsts(sortedWords)[..index] + [word];
      index := index + 1;
    }
    assert coded[..index] == coded;
  }

  // ---------------------------------------------------------------------
  // Lemmas
  // ---------------------------------------------------------------------

  /** Truncation happens only when a target is given and exceeded, and keeps a prefix. */
  lemma ContentIsPrefix(text: string, targetSizeBytes: Option<real>,
                        encode: string -> seq<byte>, stringify: (seq<(string, string)>, string) -> string)
    ensures Content(text, targetSizeBytes, encode, stringify) <= Substituted(text)
    ensures !Truncates(targetSizeBytes, |encode(stringify(Stored(TopEntries(Tokens(text))), Substituted(text)))|) ==>
              Content(text, targetSizeBytes, encode, stringify) == Substituted(text)
  {
  }

  /** When the output is over a positive target, the kept prefix is at most 90% of the content. */
  lemma TruncationShortens(contentLength: nat, target: real, resultLength: nat)
    requires 0.0 < target < resultLength as real
    ensures 10 * TruncatedLength(contentLength, target, resultLength) <= 9 * contentLength
  {
    var x := (9 * contentLength) as real * target / (10 * resultLength) as real;
    assert x <= (9 * contentLength) as real / 10.0 by {
      RatioBelowOne(target, resultLength as real, (9 * contentLength) as real);
    }
  }

  lemma RatioBelowOne(t: real, r: real, c: real)
    requires 0.0 < t < r && c >= 0.0
    ensures c * t / (10.0 * r) <= c / 10.0
  {
    assert c * t <= c * r;
  }

  /**
   * The stored dictionary maps the codes `[0]`, `[1]`, ... to the at most 50
   * most frequent words in rank order; codes and words are pairwise distinct.
   */
  lemma StoredDictionarySpec(text: string)
    ensures |Stored(TopEntries(Tokens(text)))| == Min(DictionaryLimit, |Distinct(Tokens(text))|)
    ensures forall i :: 0 <= i < |Stored(TopEntries(Tokens(text)))| ==>
              Stored(TopEntries(Tokens(text)))[i] == (Code(i), RankedDictionary(Tokens(text))[i].0)
    ensures forall i, j :: 0 <= i < j < |Stored(TopEntries(Tokens(text)))| ==>
              Stored(TopEntries(Tokens(text)))[i].0 != Stored(TopEntries(Tokens(text)))[j].0 &&
              Stored(TopEntries(Tokens(text)))[i].1 != Stored(TopEntries(Tokens(text)))[j].1
  {
    RankedDictionarySpec(Tokens(text));
  }

  lemma {:induction false} WithoutProtoSpec(es: seq<(string, string)>)
    ensures forall e :: e in WithoutProto(es) <==> e in es && e.0 != ProtoKey
  {
    if es != [] {
      WithoutProtoSpec(es[..|es| - 1]);
      assert es == es[..|es| - 1] + [es[|es| - 1]];
    }
  }

  lemma {:induction false} IndexPlainSplit(es: seq<(string, string)>)
    ensures multiset(Firsts(IndexEntries(es))) + multiset(PlainEntries(es)) == multiset(es)
  {
    if es != [] {
      var init, e := es[..|es| - 1], es[|es| - 1];
      IndexPlainSplit(init);
      assert es == init + [e];
      if ArrayIndex(e.0).Some? {
        assert Firsts(IndexEntries(es)) == Firsts(IndexEntries(init)) + [e];
      } else {
        assert Firsts(IndexEntries(es)) == Firsts(IndexEntries(init));
      }
    }
  }

  lemma {:induction false} IndexEntriesKeyed(es: seq<(string, string)>)
    ensures forall x :: x in IndexEntries(es) ==> ArrayIndex(x.0.0).Some? && x.1 == -(ArrayIndex(x.0.0).value as int)
  {
    if es != [] {
      IndexEntriesKeyed(es[..|es| - 1]);
    }
  }

  lemma {:induction false} NoIndexKeys(es: seq<(string, string)>)
    requires forall e :: e in es ==> ArrayIndex(e.0).None?
    ensures IndexEntries(es) == [] && PlainEntries(es) == es
  {
    if es != [] {
      var init, e := es[..|es| - 1], es[|es| - 1];
      forall x | x in init ensures ArrayIndex(x.0).None? {
        assert x in es;
      }
      NoIndexKeys(init);
      assert ArrayIndex(e.0).None? by {
        assert e in es;
      }
      assert IndexEntries(es) == IndexEntries(init) + [];
      assert PlainEntries(es) == PlainEntries(init) + [e];
      assert init + [e] == es;
    }
  }

  /** `Object.entries` lists every own entry exactly once. */
  lemma OwnEntriesPerm(es: seq<(string, string)>)
    ensures multiset(OwnEntries(es)) == multiset(es)
  {
    IndexPlainSplit(es);
    FirstsSortDesc(IndexEntries(es));
  }

  /** The array-index keys come first, in ascending numeric order. */
  lemma OwnEntriesAscending(es: seq<(string, string)>)
    ensures forall i, j :: 0 <= i < j < |IndexEntries(es)| ==>
              ArrayIndex(OwnEntries(es)[i].0).Some? && ArrayIndex(OwnEntries(es)[j].0).Some? &&
              ArrayIndex(OwnEntries(es)[i].0).value <= ArrayIndex(OwnEntries(es)[j].0).value
  {
    var ix := IndexEntries(es);
    var sorted := SortDesc(ix);
    IndexEntriesKeyed(es);
    SortDescSorted(ix);
    SortDescPerm(ix);
    var own := OwnEntries(es);
    forall i | 0 <= i < |sorted|
      ensures own[i] == sorted[i].0 && ArrayIndex(own[i].0).Some? && sorted[i].1 == -(ArrayIndex(own[i].0).value as int)
    {
      assert sorted[i] in multiset(ix);
    }
  }

  /** With no array-index key, `Object.entries` keeps insertion order. */
  lemma OwnEntriesPlain(es: seq<(string, string)>)
    requires forall e :: e in es ==> ArrayIndex(e.0).None?
    ensures OwnEntries(es) == es
  {
    NoIndexKeys(es);
    assert SortDesc<(string, string)>([]) == [];
  }

  /** A key is an array index exactly when it is the decimal form of a number below 2^32 - 1. */
  lemma ArrayIndexOfDecimal(n: nat)
    requires n < IndexLimit
    ensures ArrayIndex(Decimal(n)) == Some(n)
  {
    DigitsOfDecimal(n);
  }

  lemma {:induction false} DigitsOfDecimal(n: nat)
    ensures AllDigits(Decimal(n)) && DigitsValue(Decimal(n)) == n
  {
    if n >= 10 {
      DigitsOfDecimal(n / 10);
      var s := Decimal(n);
      assert s[..|s| - 1] == Decimal(n / 10);
    }
  }

  /** Words that are neither array indices nor `__proto__` are substituted in rank order. */
  lemma PlainWordsInRankOrder(text: string)
    requires forall w :: w in Tokens(text) ==> ArrayIndex(w).None? && w != ProtoKey
    ensures Substituted(text) == Substitute(text, RankedDictionary(Tokens(text)))
  {
    var words := Tokens(text);
    var ranked := RankedDictionary(words);
    RankedDictionarySpec(words);
    WithoutProtoSpec(ranked);
    assert WithoutProto(ranked) == ranked by {
      WithoutProtoKeep(ranked);
    }
    OwnEntriesPlain(ranked);
  }

  lemma {:induction false} WithoutProtoKeep(es: seq<(string, string)>)
    requires forall e :: e in es ==> e.0 != ProtoKey
    ensures WithoutProto(es) == es
  {
    if es != [] {
      var init := es[..|es| - 1];
      assert forall e :: e in init ==> e in es;
      WithoutProtoKeep(init);
      assert es[|es| - 1] in es;
      calc {
        WithoutProto(es);
        WithoutProto(init) + [es[|es| - 1]];
        init + [es[|es| - 1]];
        es;
      }
    }
  }
}
