/**
 * `decompressData` of src/lib/decompression.ts: the JSON record
 * `{version, dictionary, compressed}` is checked, its (word, code) pairs are
 * inverted to a code -> word map, and the codes, longest first, are replaced
 * by their words. Every failure surfaces as one fixed error.
 */
module Decompression {
  import opened JsText
  import opened JsCollections

  /** A value `JSON.parse` can produce. */
  datatype Json =
    | JNull
    | JBool(b: bool)
    | JNumber(n: real)
    | JString(s: string)
    | JArray(items: seq<Json>)
    | JObject(fields: seq<(string, Json)>)

  /** The message of the error `decompressData` throws. */
  const DecompressError: string :=
    "Failed to decompress file. The file may be corrupted or in an invalid format."

  datatype Outcome = Success(text: string) | Failure(message: string)

  /** The value of a field of an object; the last duplicate wins, as in `JSON.parse`. */
  function Field(fields: seq<(string, Json)>, name: string): Option<Json> {
    if fields == [] then None
    else if fields[|fields| - 1].0 == name then Some(fields[|fields| - 1].1)
    else Field(fields[..|fields| - 1], name)
  }

  /** `value.name` on a non-null value; `None` is `undefined`. */
  function Member(value: Json, name: string): Option<Json> {
    if value.JObject? then Field(value.fields, name) else None
  }

  /** `value[i]` on an entry object, as `new Map(...)` reads keys and values. */
  function Item(value: Json, i: nat): Option<Json> {
    match value
    case JArray(items) => if i < |items| then Some(items[i]) else None
    case JObject(fields) => Field(fields, Decimal(i))
    case _ => None
  }

  /** JavaScript truthiness, `undefined` included. */
  predicate Truthy(v: Option<Json>) {
    match v
    case None => false
    case Some(JNull) => false
    case Some(JBool(b)) => b
    case Some(JNumber(n)) => n != 0.0
    case Some(JString(s)) => s != []
    case Some(_) => true
  }

  /** One dictionary entry `[word, code]`, when both are strings. */
  function Pair(entry: Json): Option<(string, string)> {
    match (Item(entry, 0), Item(entry, 1))
    case (Some(JString(word)), Some(JString(code))) => Some((word, code))
    case _ => None
  }

  /** The entries `new Map(items)` reads, when every one is a string pair. */
  function EntryPairs(items: seq<Json>): (r: Option<seq<(string, string)>>)
    ensures r.Some? ==> |r.value| == |items|
  {
    if items == [] then Some([])
    else
      var init := EntryPairs(items[..|items| - 1]);
      var last := Pair(items[|items| - 1]);
      if init.Some? && last.Some? then Some(init.value + [last.value]) else None
  }

  /** `new Map(dictionary)`'s entries; only an array of entries is iterable here. */
  function Pairs(dictionary: Json): Option<seq<(string, string)>> {
    if dictionary.JArray? then EntryPairs(dictionary.items) else None
  }

  datatype Record = Record(pairs: seq<(string, string)>, compressed: string)

  /**
   * The checks before any replacing: the parse succeeded, the three fields
   * are truthy, and the dictionary and text have the shapes the code uses.
   */
  function ReadRecord(parsed: Option<Json>): (r: Option<Record>)
    ensures r.Some? ==> parsed.Some?
    ensures r.Some? ==> Truthy(Member(parsed.value, "version"))
    ensures r.Some? ==> Truthy(Member(parsed.value, "dictionary"))
    ensures r.Some? ==> Member(parsed.value, "compressed") == Some(JString(r.value.compressed))
    ensures r.Some? ==> r.value.compressed != []
  {
    if parsed.None? || parsed.value.JNull? then None
    else
      var version := Member(parsed.value, "version");
      var dictionary := Member(parsed.value, "dictionary");
      var compressed := Member(parsed.value, "compressed");
      if !Truthy(version) || !Truthy(dictionary) || !Truthy(compressed) then None
      else
        match (Pairs(dictionary.value), compressed.value)
        case (Some(ps), JString(s)) => Some(Record(ps, s))
        case _ => None
  }

  /** Each (word, code) pair turned into (code, word). */
  function Swap(es: seq<(string, string)>): (r: seq<(string, string)>)
    ensures |r| == |es|
    ensures forall p :: p in r <==> (p.1, p.0) in es
  {
    var r := seq(|es|, i requires 0 <= i < |es| => (es[i].1, es[i].0));
    assert forall i :: 0 <= i < |es| ==> r[i] == (es[i].1, es[i].0);
    r
  }

  /** `reverseDictionary`, built from `new Map(pairs)` in its iteration order. */
  function ReverseDictionary(pairs: seq<(string, string)>): JsMap<string, string> {
    FromEntries(Swap(FromEntries(pairs).Entries()))
  }

  /** Each code keyed by its length. */
  function ByLength(codes: seq<string>): (r: seq<(string, int)>)
    ensures Firsts(r) == codes
    ensures forall p :: p in r ==> p.1 == |p.0|
  {
    seq(|codes|, i requires 0 <= i < |codes| => (codes[i], |codes[i]|))
  }

  /** `codes.sort((a, b) => b.length - a.length)`. */
  function CodeOrder(codes: seq<string>): seq<string> {
    Firsts(SortDesc(ByLength(codes)))
  }

  /** The codes of length `n`, in order. */
  function OfLength(codes: seq<string>, n: int): seq<string> {
    if codes == [] then []
    else (if |codes[0]| == n then [codes[0]] else []) + OfLength(codes[1..], n)
  }

  /**
   * The text after each code in turn, when its word is not empty, has been
   * replaced by that word.
   */
  function Restore(text: string, codes: seq<string>, reverse: JsMap<string, string>): string {
    if codes == [] then text
    else
      var t := Restore(text, codes[..|codes| - 1], reverse);
      var original := reverse.Get(codes[|codes| - 1]);
      if original.Some? && original.value != [] then ReplaceAll(t, codes[|codes| - 1], original.value) else t
  }

  /** What `decompressData` returns or throws for a parse result. */
  function Decompressed(parsed: Option<Json>): Outcome {
    match ReadRecord(parsed)
    case None => Failure(DecompressError)
    case Some(record) =>
      var reverse := ReverseDictionary(record.pairs);
      Success(Restore(record.compressed, CodeOrder(reverse.keys), reverse))
  }

  /**
   * `decompressData(compressedContent)`, with `JSON.parse` given as `parse`
   * (`None` for a syntax error).
   */
  method DecompressData(compressedContent: string, parse: string -> Option<Json>) returns (r: Outcome)
    ensures r == Decompressed(parse(compressedContent))
    ensures r.Failure? <==> ReadRecord(parse(compressedContent)).None?
    ensures r.Failure? ==> r.message == DecompressError
  {
    var parsed := parse(compressedContent);
    var record := ReadRecord(parsed);
    if record.None? {
      return Failure(DecompressError);
    }

    var dictionary := FromEntries(record.value.pairs);
    var reverseDictionary := Reverse(dictionary.Entries());
    var sortedCodes := CodeOrder(reverseDictionary.keys);
    var decompressed := ReplaceCodes(record.value.compressed, sortedCodes, reverseDictionary);
    r := Success(decompressed);
  }

  /** `dictionary.forEach((code, word) => reverseDictionary.set(code, word))` */
  method Reverse(entries: seq<(string, string)>) returns (reverseDictionary: JsMap<string, string>)
    ensures reverseDictionary == FromEntries(Swap(entries))
  {
    reverseDictionary := EmptyMap();
    var i := 0;
    while i < |entries|
      invariant 0 <= i <= |entries|
      invariant reverseDictionary == FromEntries(Swap(entries[..i]))
    {
      var word, code := entries[i].0, entries[i].1;
      reverseDictionary := reverseDictionary.Set(code, word);
      assert Swap(entries[..i + 1])[..i] == Swap(entries[..i]);
      i := i + 1;
    }
    assert entries[..i] == entries;
  }

  /**
   * `sortedCodes.forEach(code => { ... decompressed = decompressed.split(code).join(original) })`,
   * skipping codes whose word is empty.
   */
  method ReplaceCodes(compressed: string, sortedCodes: seq<string>, reverseDictionary: JsMap<string, string>)
    returns (decompressed: string)
    ensures decompressed == Restore(compressed, sortedCodes, reverseDictionary)
  {
    decompressed := compressed;
    var k := 0;
    while k < |sortedCodes|
      invariant 0 <= k <= |sortedCodes|
      invariant decompressed == Restore(compressed, sortedCodes[..k], reverseDictionary)
    {
      var code := sortedCodes[k];
      var original := reverseDictionary.Get(code);
      if original.Some? && original.value != [] {
        decompressed := Join(Split(decompressed, code), original.value);
      }
      assert sortedCodes[..k + 1][..k] == sortedCodes[..k];
      k := k + 1;
    }
    assert sortedCodes[..k] == sortedCodes;
  }

  // ---------------------------------------------------------------------
  // Lemmas
  // ---------------------------------------------------------------------

  /** A record whose `compressed` field is the empty string is rejected. */
  lemma EmptyCompressedRejected(parsed: Option<Json>)
    requires parsed.Some? && Member(parsed.value, "compressed") == Some(JString(""))
    ensures Decompressed(parsed) == Failure(DecompressError)
  {
  }

  /** Entry `i` is the last of `es` with its code. */
  predicate LastWithCode(es: seq<(string, string)>, i: int) {
    0 <= i < |es| && forall j :: i < j < |es| ==> es[j].1 != es[i].1
  }

  /**
   * In the code -> word map, a code given by several dictionary entries maps
   * to the word of the last of them; the codes keep their first-seen order.
   */
  lemma ReverseLaterWins(pairs: seq<(string, string)>)
    ensures forall i :: LastWithCode(FromEntries(pairs).Entries(), i) ==>
              ReverseDictionary(pairs).Get(FromEntries(pairs).Entries()[i].1) == Some(FromEntries(pairs).Entries()[i].0)
    ensures ReverseDictionary(pairs).keys == Distinct(Firsts(Swap(FromEntries(pairs).Entries())))
  {
    var es := FromEntries(pairs).Entries();
    var sw := Swap(es);
    FromEntriesSpec(sw);
    forall i | LastWithCode(es, i)
      ensures ReverseDictionary(pairs).Get(es[i].1) == Some(es[i].0)
    {
      assert sw[i] == (es[i].1, es[i].0);
      assert forall j :: i < j < |sw| ==> sw[j].0 != sw[i].0;
    }
  }

  lemma {:induction false} OfLengthFirsts(s: seq<(string, int)>, n: int)
    requires forall i :: 0 <= i < |s| ==> s[i].1 == |s[i].0|
    ensures OfLength(Firsts(s), n) == Firsts(WithKey(s, n))
  {
    if s != [] {
      OfLengthFirsts(s[1..], n);
      assert Firsts(s)[1..] == Firsts(s[1..]);
    }
  }

  /**
   * The codes are tried longest first; codes of equal length keep their
   * order in the map; and every code is tried exactly once.
   */
  lemma CodeOrderSpec(codes: seq<string>)
    ensures forall i, j :: 0 <= i < j < |CodeOrder(codes)| ==> |CodeOrder(codes)[i]| >= |CodeOrder(codes)[j]|
    ensures multiset(CodeOrder(codes)) == multiset(codes)
    ensures forall n :: OfLength(CodeOrder(codes), n) == OfLength(codes, n)
  {
    var bl := ByLength(codes);
    var sorted := SortDesc(bl);
    SortDescSpec(bl);
    assert forall i :: 0 <= i < |sorted| ==> sorted[i].1 == |sorted[i].0| by {
      forall i | 0 <= i < |sorted| ensures sorted[i].1 == |sorted[i].0| {
        assert sorted[i] in multiset(bl);
      }
    }
    assert Firsts(bl) == codes;
    FirstsSortDesc(bl);
    forall n ensures OfLength(CodeOrder(codes), n) == OfLength(codes, n) {
      OfLengthFirsts(sorted, n);
      OfLengthFirsts(bl, n);
    }
  }

  /** With an empty dictionary the `compressed` text comes back unchanged. */
  lemma EmptyDictionaryIdentity(parsed: Option<Json>)
    requires ReadRecord(parsed).Some? && ReadRecord(parsed).value.pairs == []
    ensures Decompressed(parsed) == Success(ReadRecord(parsed).value.compressed)
  {
    var reverse := ReverseDictionary([]);
    assert FromEntries<string, string>([]).Entries() == [];
    assert Swap([]) == [];
    assert reverse.keys == [];
    assert ByLength([]) == [];
  }

  /** Codes whose word is empty change nothing. */
  lemma {:induction false} RestoreEmptyWords(text: string, codes: seq<string>, reverse: JsMap<string, string>)
    requires forall c :: c in codes && reverse.Get(c).Some? ==> reverse.Get(c).value == []
    ensures Restore(text, codes, reverse) == text
  {
    if codes != [] {
      assert forall c :: c in codes[..|codes| - 1] ==> c in codes;
      RestoreEmptyWords(text, codes[..|codes| - 1], reverse);
    }
  }
}
