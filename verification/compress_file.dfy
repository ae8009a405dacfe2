/**
 * The request handler of supabase/functions/compress-file/index.ts, from the
 * decoded bytes to the response record: the file type chooses the transform,
 * and the reported ratio is clamped at zero.
 */
module CompressFile {
  import opened JsText
  import opened JsCollections
  import GenericCompression
  import ImageCompression
  import TextCompression

  /** The success record the handler serialises (`timestamp` aside). */
  datatype Response =
    | Success(fileName: string, originalSize: nat, compressedSize: nat, compressionRatio: IntOrNaN,
              compressedData: seq<byte>, mimeType: string, compressionMethod: string)
    | ErrorResponse

  /**
   * `Math.max(Math.round(((orig - comp) / orig) * 100), 0)`: NaN for 0 / 0,
   * and 0 for an empty input that grew (minus infinity).
   */
  function ReportedRatio(originalSize: nat, compressedSize: nat): (r: IntOrNaN)
    ensures r.NaN? <==> originalSize == 0 && compressedSize == 0
    ensures r.Int? ==> r.value >= 0
    ensures r.Int? && r.value > 0 ==> compressedSize < originalSize
  {
    if originalSize == 0 then (if compressedSize == 0 then NaN else Int(0))
    else Int(Max(RoundDiv(100 * (originalSize - compressedSize), originalSize), 0))
  }

  /** The transform, output MIME type and method name the file type selects. */
  function Dispatch(bytes: seq<byte>, fileType: string, mimeType: string, quality: int,
                    targetSizeBytes: Option<real>, imageFormat: string,
                    decode: seq<byte> -> string, encode: string -> seq<byte>,
                    stringify: (seq<(string, string)>, string) -> string): Option<(seq<byte>, string, string)>
  {
    if fileType == "image" then
      match ImageCompression.ImageCompressed(bytes, quality, imageFormat, mimeType)
      case RangeError => None
      case Compressed(result) => Some((result.data, result.mimeType, "image-quality"))
    else if fileType == "video" then Some((bytes, mimeType, "video-placeholder"))
    else if fileType == "audio" then Some((bytes, mimeType, "audio-placeholder"))
    else if fileType == "document" then Some((GenericCompression.GenericCompressed(bytes), mimeType, "generic"))
    else Some((TextCompression.TextCompressed(bytes, targetSizeBytes, decode, encode, stringify), mimeType, "text-dictionary"))
  }

  /** The `compressionMethod` each file type reports. */
  function MethodName(fileType: string): string {
    if fileType == "image" then "image-quality"
    else if fileType == "video" then "video-placeholder"
    else if fileType == "audio" then "audio-placeholder"
    else if fileType == "document" then "generic"
    else "text-dictionary"
  }

  /** `imageFormat || 'original'`, with `undefined` as `None`. */
  function FormatOrOriginal(imageFormat: Option<string>): (f: string)
    ensures f != []
    ensures imageFormat.None? || imageFormat.value == [] ==> f == "original"
    ensures imageFormat.Some? && imageFormat.value != [] ==> f == imageFormat.value
  {
    if imageFormat.Some? && imageFormat.value != [] then imageFormat.value else "original"
  }

  /**
   * The handler for an already decoded body: `bytes` is `atob(fileData)` as
   * bytes; `decode`, `encode` and `stringify` stand for `TextDecoder`,
   * `TextEncoder` and `JSON.stringify` of the text output.
   */
  method HandleCompress(bytes: seq<byte>, fileName: string, fileType: string, mimeType: string,
                        quality: int, targetSizeBytes: Option<real>, imageFormat: Option<string>,
                        decode: seq<byte> -> string, encode: string -> seq<byte>,
                        stringify: (seq<(string, string)>, string) -> string)
    returns (r: Response)
    ensures var d := Dispatch(bytes, fileType, mimeType, quality, targetSizeBytes, FormatOrOriginal(imageFormat),
                              decode, encode, stringify);
            (d.None? <==> r.ErrorResponse?) &&
            (r.Success? ==> r.compressedData == d.value.0 && r.mimeType == d.value.1 && r.compressionMethod == d.value.2)
    ensures r.Success? ==> r.fileName == fileName && r.originalSize == |bytes| && r.compressedSize == |r.compressedData|
    ensures r.Success? ==> r.compressionRatio == ReportedRatio(r.originalSize, r.compressedSize)
    ensures fileType == "video" ==> r == Success(fileName, |bytes|, |bytes|, ReportedRatio(|bytes|, |bytes|),
                                                  bytes, mimeType, "video-placeholder")
    ensures fileType == "audio" ==> r == Success(fileName, |bytes|, |bytes|, ReportedRatio(|bytes|, |bytes|),
                                                  bytes, mimeType, "audio-placeholder")
    ensures r.ErrorResponse? ==> fileType == "image"
    ensures r.Success? ==> r.compressionMethod == MethodName(fileType)
    ensures (fileType == "image" || fileType == "document") && r.Success? ==> r.compressedSize <= r.originalSize
  {
    var originalSize := |bytes|;
    var compressedData: seq<byte>;
    var outputMimeType := mimeType;
    var compressionMethod := "generic";

    if fileType == "image" {
      var result := ImageCompression.CompressImageData(bytes, quality, FormatOrOriginal(imageFormat), mimeType);
      if result.RangeError? {
        return ErrorResponse;
      }
      compressedData := result.result.data;
      outputMimeType := result.result.mimeType;
      compressionMethod := "image-quality";
    } else if fileType == "video" {
      compressedData := bytes;
      compressionMethod := "video-placeholder";
    } else if fileType == "audio" {
      compressedData := bytes;
      compressionMethod := "audio-placeholder";
    } else if fileType == "document" {
      compressedData := GenericCompression.CompressGenericData(bytes, quality);
      compressionMethod := "generic";
    } else {
      compressedData := TextCompression.CompressTextData(bytes, quality, targetSizeBytes, decode, encode, stringify);
      compressionMethod := "text-dictionary";
    }

    var compressedSize := |compressedData|;
    r := Success(fileName, originalSize, compressedSize, ReportedRatio(originalSize, compressedSize),
                 compressedData, outputMimeType, compressionMethod);
  }

  // ---------------------------------------------------------------------
  // Lemmas
  // ---------------------------------------------------------------------

  /** Pass-through types report a zero ratio for a non-empty file. */
  lemma PlaceholderRatio(n: nat)
    requires n > 0
    ensures ReportedRatio(n, n) == Int(0)
  {
    RoundDivMultiple(0, n);
  }

  /** The reported ratio never exceeds 100. */
  lemma RatioAtMostHundred(originalSize: nat, compressedSize: nat)
    ensures ReportedRatio(originalSize, compressedSize).Int? ==> ReportedRatio(originalSize, compressedSize).value <= 100
  {
    if originalSize > 0 {
      var n := originalSize;
      var q := RoundDiv(100 * (n - compressedSize), n);
      var t := q - 100;
      assert 2 * n * q == 2 * n * 100 + 2 * n * t;
      MulSign(2 * n, t);
    }
  }
}
