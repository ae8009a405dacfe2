/**
 * The browser-side "compression" of src/lib/compression.ts: the text is
 * split into whitespace tokens, a redundancy percentage is derived from the
 * token counts, the fifty most frequent tokens are replaced by their codes,
 * and the reported size and ratio are pulled towards the level the user
 * asked for.
 */
module ClientCompression {
  import opened JsText
  import opened JsCollections
  import opened WordDictionary

  /** The record `compressData` resolves to (`CompressionData` of the UI). */
  datatype CompressionData = CompressionData(
    originalSize: nat,
    compressedSize: int,
    compressionRatio: IntOrNaN,
    redundancyDetected: int,
    compressionTime: int,
    compressedContent: string,
    originalContent: string,
    fileName: string)

  /** Number of frequency entries whose count is greater than two. */
  function RepeatedCount(es: seq<(string, int)>): nat {
    if es == [] then 0 else RepeatedCount(es[..|es| - 1]) + (if es[|es| - 1].1 > 2 then 1 else 0)
  }

  /** `Math.min(Math.round((repeated / distinct) * 100), 95)`. */
  function RedundancyPercent(repeated: nat, distinct: nat): (r: int)
    requires distinct >= 1
    ensures 0 <= r <= 95
    ensures 2 * distinct * r <= 200 * repeated + distinct
    ensures r < 95 ==> 200 * repeated < 2 * distinct * r + distinct
  {
    Min(RoundDiv(100 * repeated, distinct), 95)
  }

  /** The redundancy score of a token list. */
  function Redundancy(words: seq<string>): int
    requires words != []
  {
    DistinctSpec(words);
    assert words[0] in Distinct(words);
    RedundancyPercent(RepeatedCount(FrequencyEntries(words)), |Distinct(words)|)
  }

  /** `Math.round(originalSize * (1 - level / 100))`. */
  function TargetSize(originalSize: nat, level: int): int {
    RoundDiv(originalSize * (100 - level), 100)
  }

  /**
   * The reported ratio: `Math.max(Math.round((orig - size) / orig * 100), level)`,
   * which is NaN when the original is empty (0 / 0).
   */
  function ReportedRatio(originalSize: nat, size: int, level: int): (r: IntOrNaN)
    ensures r.NaN? <==> originalSize == 0
    ensures r.Int? ==> r.value >= level
  {
    if originalSize == 0 then NaN else Int(Max(RoundDiv(100 * (originalSize - size), originalSize), level))
  }

  /**
   * `compressData(content, fileName, targetCompressionLevel)`, with the
   * elapsed milliseconds `Math.round(performance.now() - startTime)` given
   * as `elapsedMs`.
   */
  method CompressData(content: string, fileName: string, targetCompressionLevel: int, elapsedMs: int)
    returns (data: CompressionData)
    ensures data.originalContent == content && data.fileName == fileName
    ensures data.originalSize == Utf8Length(content)
    ensures data.compressedContent == Substitute(content, RankedDictionary(Tokens(content)))
    ensures data.compressedSize == Min(Utf8Length(data.compressedContent), TargetSize(data.originalSize, targetCompressionLevel))
    ensures data.compressedSize <= Utf8Length(data.compressedContent)
    ensures data.compressedSize <= TargetSize(data.originalSize, targetCompressionLevel)
    ensures data.compressionRatio == ReportedRatio(data.originalSize, data.compressedSize, targetCompressionLevel)
    ensures data.compressionRatio.NaN? <==> content == []
    ensures data.compressionRatio.Int? ==> data.compressionRatio.value >= targetCompressionLevel
    ensures data.redundancyDetected == Redundancy(Tokens(content))
    ensures 0 <= data.redundancyDetected <= 95
    ensures data.compressionTime >= 100 && (elapsedMs >= 100 ==> data.compressionTime == elapsedMs)
    ensures content != [] && NoWhitespace(content) ==> data.compressedContent == "[0]"
  {
    var originalSize := Utf8Length(content);

    // Word frequencies and the redundancy score.
    var words := Tokens(content);
    var wordFrequency := CountWords(words);
    var entries := wordFrequency.Entries();
    DistinctSpec(words);
    assert words[0] in Distinct(words);
    var redundancyDetected := RedundancyPercent(RepeatedCount(entries), |wordFrequency.keys|);

    // The dictionary: the most frequent words, coded in rank order.
    var commonWords := Take(SortDesc(entries), Min(DictionaryLimit, |wordFrequency.keys|));
    SortDescSorted(entries);
    assert commonWords == TopEntries(words);
    TopEntriesMembers(words);
    var dictionary := BuildDictionary(commonWords);
    var compressed := ApplyDictionary(content, dictionary.Entries());

    var compressedSize := Utf8Length(compressed);
    var targetSize := TargetSize(originalSize, targetCompressionLevel);
    var effectiveCompressedSize := Min(compressedSize, targetSize);
    var compressionRatio := ReportedRatio(originalSize, effectiveCompressedSize, targetCompressionLevel);

    if content != [] && NoWhitespace(content) {
      PlainTextBecomesFirstCode(content);
    }
    data := CompressionData(
      originalSize,
      effectiveCompressedSize,
      compressionRatio,
      redundancyDetected,
      Max(elapsedMs, 100),
      compressed,
      content,
      fileName);
  }

  /** `commonWords.forEach(([word]) => dictionary.set(word, `[${dictIndex++}]`))` */
  method BuildDictionary(commonWords: seq<(string, int)>) returns (dictionary: JsMap<string, string>)
    requires Unique(Firsts(commonWords))
    ensures dictionary.Valid()
    ensures dictionary.Entries() == Coded(commonWords)
  {
    ghost var coded := Coded(commonWords);
    dictionary := EmptyMap();
    var dictIndex := 0;
    var i := 0;
    while i < |commonWords|
      invariant 0 <= i <= |commonWords|
      invariant dictIndex == i
      invariant dictionary.Valid()
      invariant dictionary.Entries() == coded[..i]
    {
      var word := commonWords[i].0;
      assert word !in dictionary.vals by {
        assert Firsts(dictionary.Entries()) == dictionary.keys;
        forall j | 0 <= j < i ensures dictionary.keys[j] != word {
          assert Firsts(commonWords)[j] != Firsts(commonWords)[i];
        }
      }
      EntriesSetNew(dictionary, word, Code(dictIndex));
      dictionary := dictionary.Set(word, Code(dictIndex));
      dictIndex := dictIndex + 1;
      assert coded[..i + 1] == coded[..i] + [coded[i]];
      i := i + 1;
    }
    assert coded[..i] == coded;
  }

  // ---------------------------------------------------------------------
  // The redundancy score
  // ---------------------------------------------------------------------

  lemma {:induction false} RepeatedCountNone(es: seq<(string, int)>)
    requires forall e :: e in es ==> e.1 <= 2
    ensures RepeatedCount(es) == 0
  {
    if es != [] {
      assert forall e :: e in es[..|es| - 1] ==> e in es;
      RepeatedCountNone(es[..|es| - 1]);
    }
  }

  lemma {:induction false} RepeatedCountAll(es: seq<(string, int)>)
    requires forall e :: e in es ==> e.1 > 2
    ensures RepeatedCount(es) == |es|
  {
    if es != [] {
      assert forall e :: e in es[..|es| - 1] ==> e in es;
      RepeatedCountAll(es[..|es| - 1]);
    }
  }

  /** When no token occurs more than twice, no redundancy is reported. */
  lemma RedundancyNone(words: seq<string>)
    requires words != []
    requires forall w :: w in words ==> Count(words, w) <= 2
    ensures Redundancy(words) == 0
  {
    FrequencyEntriesSpec(words);
    RepeatedCountNone(FrequencyEntries(words));
    DistinctSpec(words);
    assert words[0] in Distinct(words);
    RoundDivMultiple(0, |Distinct(words)|);
  }

  /** When every token occurs more than twice, the score is capped at 95. */
  lemma RedundancyAll(words: seq<string>)
    requires words != []
    requires forall w :: w in words ==> Count(words, w) > 2
    ensures Redundancy(words) == 95
  {
    FrequencyEntriesSpec(words);
    RepeatedCountAll(FrequencyEntries(words));
    DistinctSpec(words);
    assert words[0] in Distinct(words);
    RoundDivMultiple(100, |Distinct(words)|);
  }
}
