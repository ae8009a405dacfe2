/**
 * `compressImageData` of supabase/functions/compress-file/index.ts: below
 * quality 100 the bytes are subsampled with an even stride to
 * `round(len * (0.3 + 0.7 * quality / 100))` bytes, and the MIME type follows
 * the requested output format.
 */
module ImageCompression {
  import opened JsText

  datatype ImageResult = ImageResult(data: seq<byte>, mimeType: string)

  /** The result, or the `RangeError` that `new Uint8Array` throws for a negative length. */
  datatype ImageOutcome = Compressed(result: ImageResult) | RangeError

  /** `Math.round(len * (0.3 + (quality / 100) * 0.7))` on exact rationals. */
  function TargetSize(len: nat, quality: int): int {
    RoundDiv(len * (300 + 7 * quality), 1000)
  }

  /** `Math.floor(i * (len / targetSize))` on exact rationals. */
  function SampleIndex(i: nat, len: nat, targetSize: nat): nat
    requires targetSize > 0
  {
    (i * len) / targetSize
  }

  /** The MIME type chosen for the output format. */
  function OutputMime(format: string, originalMimeType: string): (m: string)
    ensures format == "webp" ==> m == "image/webp"
    ensures format == "jpeg" ==> m == "image/jpeg"
    ensures format == "png" ==> m == "image/png"
    ensures format != "webp" && format != "jpeg" && format != "png" ==> m == originalMimeType
  {
    if format == "webp" then "image/webp"
    else if format == "jpeg" then "image/jpeg"
    else if format == "png" then "image/png"
    else originalMimeType
  }

  /** The bytes kept: byte `i` of the output is input byte `SampleIndex(i)`. */
  function Subsample(data: seq<byte>, targetSize: nat): (r: seq<byte>)
    requires targetSize < |data|
    ensures |r| == targetSize
  {
    seq(targetSize, i requires 0 <= i < targetSize => Sample(data, i, targetSize))
  }

  function Sample(data: seq<byte>, i: nat, targetSize: nat): byte
    requires i < targetSize < |data|
  {
    SampleIndexBounds(i, |data|, targetSize);
    data[SampleIndex(i, |data|, targetSize)]
  }

  /** What `compressImageData` resolves to or throws. */
  function ImageCompressed(data: seq<byte>, quality: int, format: string, originalMimeType: string): ImageOutcome {
    if quality < 100 && TargetSize(|data|, quality) < |data| then
      var targetSize := TargetSize(|data|, quality);
      if targetSize < 0 then RangeError
      else Compressed(ImageResult(Subsample(data, targetSize), OutputMime(format, originalMimeType)))
    else Compressed(ImageResult(data, originalMimeType))
  }

  /**
   * `compressImageData(data, quality, format, originalMimeType)`; the test
   * `quality / 100 < 1` is `quality < 100`.
   */
  method CompressImageData(data: seq<byte>, quality: int, format: string, originalMimeType: string)
    returns (r: ImageOutcome)
    ensures r == ImageCompressed(data, quality, format, originalMimeType)
    ensures quality >= 100 || TargetSize(|data|, quality) >= |data| ==>
              r == Compressed(ImageResult(data, originalMimeType))
    ensures r.Compressed? && r.result.data != data ==>
              quality < 100 && |r.result.data| == TargetSize(|data|, quality) < |data| &&
              r.result.mimeType == OutputMime(format, originalMimeType)
  {
    if quality < 100 {
      var targetSize := TargetSize(|data|, quality);
      if targetSize < |data| {
        if targetSize < 0 {
          return RangeError;
        }
        var compressed := new byte[targetSize];
        for i := 0 to targetSize
          invariant forall k :: 0 <= k < i ==> compressed[k] == Sample(data, k, targetSize)
        {
          SampleIndexBounds(i, |data|, targetSize);
          compressed[i] := data[(i * |data|) / targetSize];
        }
        assert compressed[..] == Subsample(data, targetSize);
        return Compressed(ImageResult(compressed[..], OutputMime(format, originalMimeType)));
      }
    }
    return Compressed(ImageResult(data, originalMimeType));
  }

  // ---------------------------------------------------------------------
  // Lemmas
  // ---------------------------------------------------------------------

  /** Every sampled position lies inside the input. */
  lemma SampleIndexBounds(i: nat, len: nat, targetSize: nat)
    requires i < targetSize
    ensures SampleIndex(i, len, targetSize) < len || len == 0
  {
    if len > 0 {
      assert i * len < targetSize * len by {
        MulStrict(i, targetSize, len);
      }
      DivBelow(i * len, targetSize, len);
    }
  }

  lemma MulStrict(a: nat, b: nat, c: nat)
    requires a < b && c > 0
    ensures a * c < b * c
  {
  }

  lemma DivBelow(x: nat, d: nat, q: nat)
    requires d > 0 && x < d * q
    ensures x / d < q
  {
  }

  /** The sampled positions never go backwards. */
  lemma SampleIndexMonotone(i: nat, j: nat, len: nat, targetSize: nat)
    requires i <= j && targetSize > 0
    ensures SampleIndex(i, len, targetSize) <= SampleIndex(j, len, targetSize)
  {
    assert i * len <= j * len by {
      MulMono(i, j, len);
    }
    DivMono(i * len, j * len, targetSize);
  }

  lemma MulMono(a: nat, b: nat, c: nat)
    requires a <= b
    ensures a * c <= b * c
  {
  }

  lemma DivMono(x: nat, y: nat, d: nat)
    requires x <= y && d > 0
    ensures x / d <= y / d
  {
    var qx, qy := x / d, y / d;
    assert d * qx <= x;
    assert y < d * (qy + 1);
    MulLess(qx, qy + 1, d);
  }

  lemma MulLess(a: int, b: int, d: nat)
    requires d > 0 && d * a < d * b
    ensures a < b
  {
  }

  /**
   * Output byte `i` is input byte `floor(i * len / targetSize)`, a position
   * inside the input that grows with `i`.
   */
  lemma SubsampleSpec(data: seq<byte>, targetSize: nat)
    requires targetSize < |data|
    ensures forall i :: 0 <= i < targetSize ==>
              SampleIndex(i, |data|, targetSize) < |data| &&
              Subsample(data, targetSize)[i] == data[SampleIndex(i, |data|, targetSize)]
    ensures forall i, j :: 0 <= i <= j < targetSize ==>
              SampleIndex(i, |data|, targetSize) <= SampleIndex(j, |data|, targetSize)
  {
    forall i | 0 <= i < targetSize
      ensures SampleIndex(i, |data|, targetSize) < |data|
    {
      SampleIndexBounds(i, |data|, targetSize);
    }
    forall i, j | 0 <= i <= j < targetSize
      ensures SampleIndex(i, |data|, targetSize) <= SampleIndex(j, |data|, targetSize)
    {
      SampleIndexMonotone(i, j, |data|, targetSize);
    }
  }

  /** Subsampling keeps the first byte. */
  lemma SubsampleFirst(data: seq<byte>, targetSize: nat)
    requires 0 < targetSize < |data|
    ensures Subsample(data, targetSize)[0] == data[0]
  {
  }

  /**
   * A `RangeError` needs a negative quality: for any quality from 0 on the
   * target size is not negative.
   */
  lemma RangeErrorOnlyBelowZero(data: seq<byte>, quality: int, format: string, originalMimeType: string)
    ensures ImageCompressed(data, quality, format, originalMimeType) == RangeError ==> quality < 0
  {
    if quality >= 0 {
      assert 2 * 1000 * TargetSize(|data|, quality) + 1000 > 0;
    }
  }
}
