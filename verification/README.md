# Data Compress Hub: a Dafny model of its compression core

Data Compress Hub is a browser tool that calls itself a "tree-based" compressor.
What it runs is a handful of deterministic string and byte transforms. This
project models those transforms and proves what they do.

- **Client text compression** (`compressData`):
  - splits the text on runs of whitespace and counts each token;
  - computes a redundancy score;
  - keeps the 50 most frequent tokens as a dictionary with the codes `[0]`, `[1]`, …;
  - replaces each token, in rank order, by its code with `split`/`join`;
  - reports sizes and a ratio clamped to the level the user asked for.
- **Decompression** (`decompressData`):
  - checks the parsed record;
  - turns the (word, code) pairs into a code → word map;
  - replaces the codes, longest first, by their words;
  - reports every failure as one error message.
- **The server function** `compress-file`, which picks a transform by file type:
  - a run-length encoder for documents;
  - an even-stride subsampler for images;
  - a dictionary encoder with one truncation pass for text and other files;
  - video and audio pass through unchanged.

  It then reports a ratio clamped at zero.
- **File classification** (`getFileExtension`, `getFileType`): the extension
  after the last dot, then the first category, in a fixed order, whose extension
  list or MIME prefix matches.
- **Compression settings** (`CompressionOptions`): the four named levels, the
  quality ↔ slider-position mappings, the defaults, and the partial settings
  update.

## How the model is built

| module | file | models |
|---|---|---|
| `JsText` | `js_text.dfy` | The JavaScript string built-ins the code relies on. `split(/\s+/)` is `Tokens`. `split(w)`/`join(c)` is `Split`/`Join`, with `ReplaceAll` as their composition. `Math.round(a / b)` is `RoundDiv`, computed on exact rationals. `new Blob([s]).size` is `Utf8Length`. |
| `JsCollections` | `js_collections.dfy` | A `Map` that remembers insertion order (`JsMap`), `new Map(entries)`, the stable `sort` with a numeric comparator (`SortDesc`), and `slice`. |
| `WordDictionary` | `word_dictionary.dfy` | The token counting, top-50 ranking, `[i]` codes and substitution loop, which the client and the server share. |
| `ClientCompression` | `client_compression.dfy` | `compressData` |
| `Decompression` | `decompression.dfy` | `decompressData` |
| `GenericCompression` | `generic_compression.dfy` | `compressGenericData` |
| `ImageCompression` | `image_compression.dfy` | `compressImageData` |
| `TextCompression` | `text_compression.dfy` | `compressTextData`, including the `Object.entries` order of a plain object. |
| `CompressFile` | `compress_file.dfy` | The request handler's dispatch and ratio. |
| `FileUtils` | `file_utils.dfy` | `getFileExtension`, `getFileType` |
| `CompressionOptions` | `compression_options.dfy` | The levels, the slider mappings, `updateSettings`, `getDefaultSettings`. |

The code builds its maps and strings step by step, and the model keeps those steps:

- `CountWords`, `BuildDictionary`, `ApplyDictionary`, `Reverse`, `ReplaceCodes` and `FillDictionary` are loops.
- `CompressGenericData` and `CountRun` are the encoder's two nested loops.
- `CompressImageData` fills an `array`.

Each loop is proved against a function that specifies it. What the source
promises is then proved about those functions.

Three facts about the code, stated in the model:

- The run-length encoder does not escape a literal `0xFF` byte. Decoding is
  therefore exact only for inputs without that byte (`NoMarkerRoundTrip`). Two
  different inputs can give the same output (`GenericNotInjective`).
- `compressTextData` truncates its output at most once. Nothing refits the
  output to `targetSizeBytes` afterwards, and the model follows the code.
- `compressData` returns the substituted text with no dictionary. The edge
  function writes `{v, d, c}`, with `d` mapping code → word. `decompressData`
  requires `{version, dictionary, compressed}`. None of these shapes match, so
  the model states no round trip between compression and decompression.

## Model

| member | source | states |
|---|---|---|
| JsText.RoundDiv | src/lib/compression.ts:31 | `Math.round` of a quotient is the integer nearest to it, halves rounded up |
| JsText.RoundDivMultiple | src/lib/compression.ts:72-74 | a quotient that is already whole is returned unchanged |
| JsText.Tokens | src/lib/compression.ts:21 | `split(/\s+/)` always yields at least one token |
| JsText.TokensJoin | src/lib/compression.ts:21 | joining the tokens with one space gives the text with each whitespace run collapsed to one space (an independent reference) |
| JsText.TokensNoWhitespace | src/lib/compression.ts:21 | no token contains whitespace |
| JsText.TokensOfPlainText | src/lib/compression.ts:21 | text without whitespace is the single token it spells |
| JsText.TokensEmptyEnds | src/lib/compression.ts:21 | the first token is empty exactly when the text is empty or starts with whitespace; a later empty token occurs exactly when the text ends with whitespace |
| JsText.EmptyTokenIff | src/lib/compression.ts:21 | an empty token occurs exactly when the text is empty or starts or ends with whitespace |
| JsText.Split | src/lib/compression.ts:52 | splitting on a non-empty separator yields at least one piece |
| JsText.JoinSplit | src/lib/compression.ts:52 | joining the pieces with the separator restores the text |
| JsText.SplitLeftmost | src/lib/compression.ts:52 | occurrences are found left to right without overlap: no piece followed by a separator holds an occurrence that starts before that separator, and the last piece holds none |
| JsText.SplitAbsent | src/lib/compression.ts:52 | the only way to get more than the text itself is for the separator to occur in it |
| JsText.ReplaceAllSelf | src/lib/compression.ts:52 | replacing a string by itself leaves the text unchanged |
| JsText.ReplaceAllAbsent | src/lib/compression.ts:52 | text that does not contain the word is left unchanged |
| JsText.ReplaceAllWhole | src/lib/compression.ts:52 | text that is exactly the word becomes exactly the code |
| JsText.Utf8Length | src/lib/compression.ts:12 | the byte size lies between the number of characters and four times it |
| JsText.Decimal | src/lib/compression.ts:46 | `${n}` is a non-empty string of decimal digits |
| JsText.DecimalInjective | src/lib/compression.ts:46 | different numbers render as different strings |
| JsCollections.JsMap.Set | src/lib/compression.ts:24 | `set` maps the key to the value and changes no other key; a new key goes last and an existing key keeps its place |
| JsCollections.JsMap.Entries | src/lib/compression.ts:27 | the entries list the keys in insertion order, each with its value |
| JsCollections.FromEntries | src/lib/decompression.ts:12 | `new Map(entries)` is a well-formed map |
| JsCollections.FromEntriesSpec | src/lib/decompression.ts:12 | `new Map(entries)` keeps each key at its first appearance, with the value of its last entry |
| JsCollections.EntriesSetNew | src/lib/compression.ts:46 | setting an absent key appends exactly one entry |
| JsCollections.DistinctSpec | src/lib/compression.ts:22-25 | the keys of a counting map are the tokens, each once |
| JsCollections.SortDescSpec | src/lib/compression.ts:42 | the sort is a permutation, its keys do not increase, and it is stable: items with equal keys keep their order |
| JsCollections.FirstsSortDesc | src/lib/decompression.ts:24-26 | sorting only reorders the items |
| WordDictionary.CountWords | src/lib/compression.ts:22-25 | the frequency map holds each distinct token once, in first-appearance order, with its number of occurrences |
| WordDictionary.CountsSumToTokens | src/lib/compression.ts:21-25 | the counts add up to the number of tokens |
| WordDictionary.FrequencyEntriesSpec | src/lib/compression.ts:27 | every frequency entry is a token with its count, and every token has its entry |
| WordDictionary.Code | src/lib/compression.ts:46 | a code is `[`, then one or more decimal digits, then `]` |
| WordDictionary.CodeInjective | src/lib/compression.ts:46 | different ranks get different codes |
| WordDictionary.ApplyDictionary | src/lib/compression.ts:50-53 | the substitution loop replaces each entry's word by its code, entry by entry in order |
| WordDictionary.TopEntriesMembers | src/lib/compression.ts:41-43 | the dictionary keeps min(50, #distinct) entries, a prefix of the sorted table, with non-increasing counts, distinct words and true counts |
| WordDictionary.TopEntriesLeftOut | src/lib/compression.ts:41-43 | a token left out occurs at most as often as every token kept |
| WordDictionary.TopEntriesStable | src/lib/compression.ts:41-43 | among tokens with equal counts, the kept ones are the earliest to appear, in that order |
| WordDictionary.TopEntriesSpec | src/lib/compression.ts:41-43 | all of the three above together |
| WordDictionary.MostFrequentFirst | src/lib/compression.ts:41-47 | a most frequent token gets the code `[0]` |
| WordDictionary.RankedDictionarySpec | src/lib/compression.ts:41-47 | min(50, #distinct) entries, the i-th coded `[i]`, with pairwise distinct words and pairwise distinct codes |
| WordDictionary.PlainTextBecomesFirstCode | src/lib/compression.ts:21-56 | non-empty text without whitespace gets the dictionary `{text: [0]}` and becomes exactly `[0]` |
| ClientCompression.RedundancyPercent | src/lib/compression.ts:30-33 | the score is the rounded percentage of repeated tokens, capped at 95, so it lies in 0..95 |
| ClientCompression.RepeatedCountNone | src/lib/compression.ts:27-29 | no entry with a count above two gives no repeated tokens |
| ClientCompression.RepeatedCountAll | src/lib/compression.ts:27-29 | every entry with a count above two makes every entry repeated |
| ClientCompression.RedundancyNone | src/lib/compression.ts:27-33 | when no token occurs more than twice the score is 0 |
| ClientCompression.RedundancyAll | src/lib/compression.ts:27-33 | when every token occurs more than twice the score is 95 |
| ClientCompression.ReportedRatio | src/lib/compression.ts:72-79 | the ratio is NaN exactly for an empty original and otherwise at least the requested level |
| ClientCompression.BuildDictionary | src/lib/compression.ts:36-47 | the dictionary map pairs the i-th kept token with `[i]`, in rank order |
| ClientCompression.CompressData | src/lib/compression.ts:4-86 | the original content and name are returned unchanged, and the original size is the byte length. The compressed content is the ranked substitution, and the reported size is the minimum of its byte length and the rounded target, so it is at most both. The ratio is at least the level (NaN only for empty content). The redundancy is in 0..95. The time is at least 100 ms and equals the elapsed time from 100 ms on. Whitespace-free content becomes `[0]` |
| Decompression.EntryPairs | src/lib/decompression.ts:12 | an accepted dictionary has one pair per entry |
| Decompression.ReadRecord | src/lib/decompression.ts:5-9 | a record is accepted only when the parse succeeded, `version` and `dictionary` are truthy, and `compressed` is a non-empty string |
| Decompression.Reverse | src/lib/decompression.ts:15-18 | the loop builds the code → word map of the swapped entries |
| Decompression.Swap | src/lib/decompression.ts:15-18 | the pairs given to the reverse map are exactly the dictionary's pairs turned around |
| Decompression.ByLength | src/lib/decompression.ts:24-26 | the codes keep their order, each paired with its own length |
| Decompression.ReverseLaterWins | src/lib/decompression.ts:12-18 | a code given by several entries maps to the word of the last of them; codes keep their first-seen order |
| Decompression.CodeOrderSpec | src/lib/decompression.ts:23-26 | codes are tried with non-increasing length, each exactly once, and codes of equal length keep their order |
| Decompression.ReplaceCodes | src/lib/decompression.ts:28-33 | the loop replaces each code with its word in the sorted order, skipping codes whose word is empty |
| Decompression.RestoreEmptyWords | src/lib/decompression.ts:28-33 | codes whose word is empty change nothing |
| Decompression.DecompressData | src/lib/decompression.ts:2-40 | the result is the restored text, and it fails exactly when the record is rejected, always with the one "Failed to decompress file…" message |
| Decompression.EmptyCompressedRejected | src/lib/decompression.ts:7-9 | an empty `compressed` string is rejected with that message |
| Decompression.EmptyDictionaryIdentity | src/lib/decompression.ts:21-35 | with an empty dictionary, the `compressed` text comes back unchanged |
| GenericCompression.CountFrom | supabase/functions/compress-file/index.ts:169-171 | the inner loop stops within the data and at 255 at most |
| GenericCompression.RunLength | supabase/functions/compress-file/index.ts:166-171 | a run is 1 to 255 bytes and stays inside the data |
| GenericCompression.CountRun | supabase/functions/compress-file/index.ts:166-171 | the counting loop computes the capped run length |
| GenericCompression.CountFromSpec | supabase/functions/compress-file/index.ts:169-171 | the counted bytes are all equal, and unless the cap is hit the next byte differs or the data ends |
| GenericCompression.RunLengthSpec | supabase/functions/compress-file/index.ts:166-171 | the run is the longest run of equal bytes, up to 255 |
| GenericCompression.Step | supabase/functions/compress-file/index.ts:173-180 | one step emits a group of 4 to 255 copies, or one literal byte, of the current byte |
| GenericCompression.StepRun | supabase/functions/compress-file/index.ts:173-176 | a group stands for exactly that many copies of its byte |
| GenericCompression.EncodeRuns | supabase/functions/compress-file/index.ts:173-176 | every emitted group holds 4 to 255 bytes, so longer runs are split |
| GenericCompression.ExpandEncode | supabase/functions/compress-file/index.ts:164-181 | expanding the emitted tokens restores the input exactly |
| GenericCompression.SerializeShorter | supabase/functions/compress-file/index.ts:173-181 | the encoding is never longer than the input |
| GenericCompression.DecodeSerialize | supabase/functions/compress-file/index.ts:175-179 | tokens without a literal 0xFF byte are read back from their bytes |
| GenericCompression.NoMarkerRoundTrip | supabase/functions/compress-file/index.ts:164-188 | input without a 0xFF byte is restored from its output |
| GenericCompression.GenericNotInjective | supabase/functions/compress-file/index.ts:175-178 | `FF 05 41` and five bytes `41` give the same output |
| GenericCompression.CompressGenericData | supabase/functions/compress-file/index.ts:155-189 | the output is the encoding, or the input when the encoding is not below 95% of it; it is never longer than the input; the quality does not matter |
| ImageCompression.OutputMime | supabase/functions/compress-file/index.ts:144-146 | `webp`, `jpeg` and `png` select their image MIME types; any other format keeps the original one |
| ImageCompression.Subsample | supabase/functions/compress-file/index.ts:135-140 | the output has exactly the target size |
| ImageCompression.SampleIndexBounds | supabase/functions/compress-file/index.ts:136-139 | every sampled index is inside the input |
| ImageCompression.SampleIndexMonotone | supabase/functions/compress-file/index.ts:136-139 | the sampled indices never go backwards |
| ImageCompression.SubsampleSpec | supabase/functions/compress-file/index.ts:131-140 | output byte i is input byte floor(i·len/targetSize), and those indices are in bounds and non-decreasing |
| ImageCompression.SubsampleFirst | supabase/functions/compress-file/index.ts:138-139 | the first byte is kept |
| ImageCompression.CompressImageData | supabase/functions/compress-file/index.ts:115-152 | from quality 100 on, or when the target is not smaller, the input and its MIME type are returned. Otherwise the output has exactly the target size, is smaller than the input, and has the MIME type of the format |
| ImageCompression.RangeErrorOnlyBelowZero | supabase/functions/compress-file/index.ts:131-135 | the array allocation can fail only for a negative quality |
| TextCompression.ArrayIndex | supabase/functions/compress-file/index.ts:220 | a key counts as an array index only when it is the canonical decimal form of a number below 2^32 − 1 |
| TextCompression.ArrayIndexOfDecimal | supabase/functions/compress-file/index.ts:220 | every such decimal form is an array index |
| TextCompression.OwnEntries | supabase/functions/compress-file/index.ts:220 | `Object.entries` lists one entry per index key, then exactly the plain keys in insertion order |
| TextCompression.IndexPlainSplit | supabase/functions/compress-file/index.ts:220 | the index keys and the other keys together are all the entries |
| TextCompression.IndexEntriesKeyed | supabase/functions/compress-file/index.ts:220 | each array-index entry carries minus its index as its sort key |
| TextCompression.OwnEntriesPerm | supabase/functions/compress-file/index.ts:220 | `Object.entries` lists every own entry exactly once |
| TextCompression.OwnEntriesAscending | supabase/functions/compress-file/index.ts:220 | the array-index keys come first in ascending numeric order |
| TextCompression.OwnEntriesPlain | supabase/functions/compress-file/index.ts:220 | with no array-index key, the insertion order is kept |
| TextCompression.WithoutProtoSpec | supabase/functions/compress-file/index.ts:215 | assigning `__proto__` a string adds no entry, and every other entry is kept |
| TextCompression.FillDictionary | supabase/functions/compress-file/index.ts:213-216 | the object holds the i-th ranked word with `[i]`, in rank order, except `__proto__` |
| TextCompression.PlainWordsInRankOrder | supabase/functions/compress-file/index.ts:218-222 | when no word is an array index or `__proto__`, substitution is the client's ranked substitution |
| TextCompression.Stored | supabase/functions/compress-file/index.ts:227 | `d` is the ranked dictionary with each (word, code) pair turned around, and no code occurs twice |
| TextCompression.StoredDictionarySpec | supabase/functions/compress-file/index.ts:209-211 | `d` maps min(50, #distinct) codes `[0]`, `[1]`, … to the ranked words, with codes and words pairwise distinct |
| TextCompression.TruncatedLength | supabase/functions/compress-file/index.ts:238 | the truncated length never exceeds the content |
| TextCompression.TruncationShortens | supabase/functions/compress-file/index.ts:235-238 | a positive target that is exceeded keeps at most 90% of the content |
| TextCompression.ContentIsPrefix | supabase/functions/compress-file/index.ts:234-245 | the stored content is a prefix of the substituted text, and the whole of it unless a target is given and exceeded |
| TextCompression.CompressTextData | supabase/functions/compress-file/index.ts:192-248 | the method computes the serialised dictionary output, truncated once when over the target |
| CompressFile.ReportedRatio | supabase/functions/compress-file/index.ts:75-76 | the ratio is NaN only when both sizes are 0; otherwise it is never negative, and it is positive only when the output is smaller |
| CompressFile.PlaceholderRatio | supabase/functions/compress-file/index.ts:91 | pass-through types report 0 for a non-empty file |
| CompressFile.RatioAtMostHundred | supabase/functions/compress-file/index.ts:91 | the ratio is at most 100 |
| CompressFile.FormatOrOriginal | supabase/functions/compress-file/index.ts:48 | a missing or empty format becomes `original` |
| CompressFile.HandleCompress | supabase/functions/compress-file/index.ts:44-96 | video and audio return the input unchanged with their placeholder methods. Image reports `image-quality`, document `generic` and anything else `text-dictionary`. Only an image can fail, and images and documents never grow. The response's sizes and clamped ratio come from the chosen output |
| FileUtils.ToLower | src/lib/fileUtils.ts:22 | lower-casing keeps the length and every dot |
| FileUtils.SplitDotCount | src/lib/fileUtils.ts:22-23 | a name splits into several parts exactly when it holds a dot |
| FileUtils.SplitDotLast | src/lib/fileUtils.ts:22-23 | the last part is the dot-free text after the last dot |
| FileUtils.LowerKeepsDots | src/lib/fileUtils.ts:22 | lower-casing neither adds nor removes a dot |
| FileUtils.ExtensionSpec | src/lib/fileUtils.ts:21-24 | the extension is the lower-cased text after the last dot; it is empty without a dot or after a trailing dot, and it never contains a dot |
| FileUtils.LeadingDotName | src/lib/fileUtils.ts:22-23 | `.bashrc` has the extension `bashrc` |
| FileUtils.GetFileType | src/lib/fileUtils.ts:26-104 | the MIME type and extension are passed through; preview is supported exactly for image and video; compression is client-side exactly for text and other |
| FileUtils.FirstMatchWins | src/lib/fileUtils.ts:30-103 | the type is the first category in the order image, video, audio, document, text, archive that matches, else other |
| FileUtils.ExtensionOnlyCategories | src/lib/fileUtils.ts:63 | documents and archives are recognised by extension only |
| CompressionOptions.GetCompressionLevel | src/components/CompressionOptions.tsx:31-36 | the level is Light from 80, Medium from 60, Heavy from 35, otherwise Maximum (each both ways) |
| CompressionOptions.QualityToSlider | src/components/CompressionOptions.tsx:38-43 | the slider position is 0..3 |
| CompressionOptions.SliderToQuality | src/components/CompressionOptions.tsx:45-47 | positions 0, 1, 2, 3 give the qualities 90, 70, 50, 20 |
| CompressionOptions.LevelAtSliderPosition | src/components/CompressionOptions.tsx:31-43 | the level shown equals the level at the slider position shown |
| CompressionOptions.SliderMonotone | src/components/CompressionOptions.tsx:38-43 | a higher quality never gives a later position |
| CompressionOptions.SliderRoundTrip | src/components/CompressionOptions.tsx:38-47 | each position's quality maps back to that position and its level |
| CompressionOptions.SnapKeepsLevel | src/components/CompressionOptions.tsx:31-47 | snapping a quality to its position keeps its level, and snapping is idempotent |
| CompressionOptions.SliderChangeSelectsLevel | src/components/CompressionOptions.tsx:90-94 | moving the slider changes only the quality, to the level at the new position |
| CompressionOptions.UpdateSettings | src/components/CompressionOptions.tsx:54-56 | each field present in the partial replaces the old value, and every absent field is kept |
| CompressionOptions.UpdateNothing | src/components/CompressionOptions.tsx:54-56 | an empty partial changes nothing |
| CompressionOptions.UpdateIdempotent | src/components/CompressionOptions.tsx:54-56 | applying the same partial twice changes nothing more |
| CompressionOptions.UpdateCompose | src/components/CompressionOptions.tsx:54-56 | two updates in a row equal one merged update in which the later fields win |
| CompressionOptions.GetDefaultSettings | src/components/CompressionOptions.tsx:198-206 | the defaults are quality mode, 70, empty target, KB, webp, medium preset, original resolution |
| CompressionOptions.DefaultLevel | src/components/CompressionOptions.tsx:198-206 | the default quality is the Medium level at slider position 1 |

## Left out

- The character frequency map (src/lib/compression.ts:15-18) and the first `compressionRatio` (src/lib/compression.ts:59-61) are computed and never used, so they are not modelled.
- The model uses no floating point. Sizes, ratios, `Math.round` and `Math.floor` use exact rationals:
  - the image target size is `RoundDiv(len·(300+7q), 1000)`;
  - the image stride is `floor(i·len/targetSize)`;
  - the 95% test is `100·|r| ≥ 95·|data|`.

  IEEE doubles can round differently at the boundaries.
- `ClientCompression.CompressData` and `CompressionOptions` take the quality and level as integers. The UI only produces integers, but a fractional `number` is not covered.
- `ImageCompression.TargetSize`, `ImageCompression.ImageCompressed`, `ImageCompression.CompressImageData` and `CompressFile.HandleCompress` take `quality` as an integer. The handler accepts any JSON number, and a fractional quality such as 80.5 changes the image target size `Math.round(len * (0.3 + quality / 100 * 0.7))`. The UI only sends integers.
- `ClientCompression.CompressData`: the default `targetCompressionLevel = 50` is not modelled. The level is always a parameter, and the only caller passes it.
- `TextCompression.Assign`: `obj["__proto__"] = value` is modelled as the `Object.prototype.__proto__` setter of Annex B of ECMA-262, which adds no own property for a string value. `WithoutProto`, `FillDictionary` and the text path follow that. Deno, which runs the edge function, removes that setter by default. There the word `__proto__` becomes an ordinary own key, listed among the plain keys and substituted like any other word. The model does not cover that host.
- `TextCompression.OwnEntries`: its own contract gives the length and the plain keys' order only. The ascending numeric order of the index keys is stated by `OwnEntriesAscending`, and the permutation by `OwnEntriesPerm`.
- Strings are sequences of Unicode code points. JavaScript counts UTF-16 code units, and the model differs from it for characters outside the Basic Multilingual Plane:
  - in `length`, `substring` and the truncation length;
  - in `split("")`.
- `FileUtils.ToLower`: only the ASCII letters A–Z are lower-cased. `toLowerCase` also maps other scripts, so extensions outside ASCII are not modelled.
- `performance.now()` is not modelled: the client takes the elapsed milliseconds as a parameter. The handler's `timestamp` and its console logs are also left out.
- The request handler's HTTP, CORS and JSON body handling is not modelled. These are taken as given:
  - `atob`/`btoa`, as RFC 4648 section 4 base64;
  - `TextEncoder`/`TextDecoder`, as RFC 3629 UTF-8;
  - `JSON.parse`/`JSON.stringify`.

  The handler receives the decoded bytes. The JSON and UTF-8 functions are parameters (`parse`, `decode`, `encode`, `stringify`).
- `CompressFile.HandleCompress`: an exception thrown while reading the request or decoding base64 is not modelled. The only error response modelled is the `RangeError` of an image with a negative quality, and the error message text is left out.
- `Decompression.ReadRecord`: the dictionary must be an array of `[word, code]` entries, each of two strings, and `compressed` must be a string. Any other truthy shape is treated as a failure:
  - a dictionary that is another iterable, or holds non-string values;
  - a non-string `compressed` value.

  Some of these inputs succeed in JavaScript, and the model reports failure on them. Two examples:
  - `{"version":1,"dictionary":[["w"]],"compressed":"abc"}`: the only code is `undefined`, and `"abc".split(undefined)` is `["abc"]`, so JavaScript returns `"abc"`;
  - `{"version":1,"dictionary":[],"compressed":5}`: no code is replaced, so JavaScript returns the number 5.

  Other shapes throw in JavaScript, and fail in the model too.
- `TextCompression.CompressTextData`: `targetSizeBytes` is an optional exact number, and 0 counts as not given, as it is falsy. A `NaN` target, which is also falsy, cannot be written and behaves like `None`. The `v` and `d` keys and their serialisation are inside `stringify`.
- The `targetSizeBytes` the uploader passes as a fourth argument is dropped by `compressData`, which takes three parameters. The model has no such parameter either.
- A `Partial<CompressionSettings>` property explicitly set to `undefined` would overwrite the field with `undefined`. This is not modelled: the partial's properties are either present with a value or absent.
- The React rendering of the settings panel, apart from the slider's bounds and change handler, is not modelled.
