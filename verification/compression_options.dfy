/**
 * The compression settings panel of src/components/CompressionOptions.tsx:
 * the settings record, its defaults, the partial update the panel applies,
 * and the four-step quality slider with the named compression levels it
 * stands for.
 */
module CompressionOptions {
  import opened JsCollections

  datatype Mode = QualityMode | SizeMode
  datatype SizeUnit = KB | MB
  datatype ImageFormat = OriginalFormat | Webp | Jpeg | Png
  datatype VideoPreset = Low | Medium | High | Ultra
  datatype VideoResolution = OriginalResolution | R1080p | R720p | R480p | R360p

  datatype CompressionSettings = CompressionSettings(
    mode: Mode,
    quality: int,
    targetSizeValue: string,
    targetSizeUnit: SizeUnit,
    imageFormat: ImageFormat,
    videoPreset: VideoPreset,
    videoResolution: VideoResolution)

  /** A `Partial<CompressionSettings>`: `None` for a property the object does not have. */
  datatype PartialSettings = PartialSettings(
    mode: Option<Mode>,
    quality: Option<int>,
    targetSizeValue: Option<string>,
    targetSizeUnit: Option<SizeUnit>,
    imageFormat: Option<ImageFormat>,
    videoPreset: Option<VideoPreset>,
    videoResolution: Option<VideoResolution>)

  /** A compression level; `name` holds its `label`. */
  datatype Level = Level(name: string, quality: int, description: string)

  /** Positions 0 to 3 of the slider, lightest first. */
  const CompressionLevels: seq<Level> := [
    Level("Light", 90, "~20% reduction"),
    Level("Medium", 70, "~40% reduction"),
    Level("Heavy", 50, "~50% reduction"),
    Level("Maximum", 20, "~70% reduction")
  ]

  /** The slider's `min`, `max` and `step` allow the positions 0, 1, 2 and 3. */
  const SliderMax := 3

  function GetCompressionLevel(quality: int): (level: Level)
    ensures level in CompressionLevels
    ensures level.name == "Light" <==> quality >= 80
    ensures level.name == "Medium" <==> 60 <= quality < 80
    ensures level.name == "Heavy" <==> 35 <= quality < 60
    ensures level.name == "Maximum" <==> quality < 35
  {
    if quality >= 80 then CompressionLevels[0]
    else if quality >= 60 then CompressionLevels[1]
    else if quality >= 35 then CompressionLevels[2]
    else CompressionLevels[3]
  }

  function QualityToSlider(quality: int): (position: nat)
    ensures position <= SliderMax
  {
    if quality >= 80 then 0
    else if quality >= 60 then 1
    else if quality >= 35 then 2
    else 3
  }

  function SliderToQuality(position: nat): (quality: int)
    requires position <= SliderMax
    ensures position == 0 ==> quality == 90
    ensures position == 1 ==> quality == 70
    ensures position == 2 ==> quality == 50
    ensures position == 3 ==> quality == 20
  {
    CompressionLevels[position].quality
  }

  /** `{ ...settings, ...partial }` */
  function UpdateSettings(settings: CompressionSettings, partial: PartialSettings): (r: CompressionSettings)
    ensures r.mode == if partial.mode.Some? then partial.mode.value else settings.mode
    ensures r.quality == if partial.quality.Some? then partial.quality.value else settings.quality
    ensures r.targetSizeValue ==
              if partial.targetSizeValue.Some? then partial.targetSizeValue.value else settings.targetSizeValue
    ensures r.targetSizeUnit ==
              if partial.targetSizeUnit.Some? then partial.targetSizeUnit.value else settings.targetSizeUnit
    ensures r.imageFormat == if partial.imageFormat.Some? then partial.imageFormat.value else settings.imageFormat
    ensures r.videoPreset == if partial.videoPreset.Some? then partial.videoPreset.value else settings.videoPreset
    ensures r.videoResolution ==
              if partial.videoResolution.Some? then partial.videoResolution.value else settings.videoResolution
  {
    CompressionSettings(
      Override(settings.mode, partial.mode),
      Override(settings.quality, partial.quality),
      Override(settings.targetSizeValue, partial.targetSizeValue),
      Override(settings.targetSizeUnit, partial.targetSizeUnit),
      Override(settings.imageFormat, partial.imageFormat),
      Override(settings.videoPreset, partial.videoPreset),
      Override(settings.videoResolution, partial.videoResolution))
  }

  function Override<T>(current: T, given: Option<T>): T {
    if given.Some? then given.value else current
  }

  const NoChange: PartialSettings := PartialSettings(None, None, None, None, None, None, None)

  /** The partial object `{ quality: q }`. */
  function QualityOnly(q: int): PartialSettings {
    NoChange.(quality := Some(q))
  }

  /** Moving the slider to `position`: `updateSettings({ quality: sliderToQuality(position) })`. */
  function OnSliderChange(settings: CompressionSettings, position: nat): CompressionSettings
    requires position <= SliderMax
  {
    UpdateSettings(settings, QualityOnly(SliderToQuality(position)))
  }

  /** Two partial updates applied in turn, as one: the later one's properties win. */
  function Merge(first: PartialSettings, second: PartialSettings): PartialSettings {
    PartialSettings(
      if second.mode.Some? then second.mode else first.mode,
      if second.quality.Some? then second.quality else first.quality,
      if second.targetSizeValue.Some? then second.targetSizeValue else first.targetSizeValue,
      if second.targetSizeUnit.Some? then second.targetSizeUnit else first.targetSizeUnit,
      if second.imageFormat.Some? then second.imageFormat else first.imageFormat,
      if second.videoPreset.Some? then second.videoPreset else first.videoPreset,
      if second.videoResolution.Some? then second.videoResolution else first.videoResolution)
  }

  function GetDefaultSettings(): (s: CompressionSettings)
    ensures s.mode == QualityMode && s.quality == 70 && s.targetSizeValue == ""
    ensures s.targetSizeUnit == KB && s.imageFormat == Webp
    ensures s.videoPreset == Medium && s.videoResolution == OriginalResolution
  {
    CompressionSettings(QualityMode, 70, "", KB, Webp, Medium, OriginalResolution)
  }

  // ---------------------------------------------------------------------
  // Lemmas
  // ---------------------------------------------------------------------

  /** The level shown for a quality is the one at the slider position shown for it. */
  lemma LevelAtSliderPosition(quality: int)
    ensures GetCompressionLevel(quality) == CompressionLevels[QualityToSlider(quality)]
  {
  }

  /** A higher quality never puts the slider further toward heavier compression. */
  lemma SliderMonotone(q1: int, q2: int)
    requires q1 <= q2
    ensures QualityToSlider(q2) <= QualityToSlider(q1)
  {
  }

  /** Each slider position's quality maps back to that position. */
  lemma SliderRoundTrip(position: nat)
    requires position <= SliderMax
    ensures QualityToSlider(SliderToQuality(position)) == position
    ensures GetCompressionLevel(SliderToQuality(position)) == CompressionLevels[position]
  {
  }

  /**
   * Snapping a quality to its slider position and back keeps its level, and
   * doing it twice is the same as doing it once.
   */
  lemma SnapKeepsLevel(quality: int)
    ensures GetCompressionLevel(SliderToQuality(QualityToSlider(quality))) == GetCompressionLevel(quality)
    ensures SliderToQuality(QualityToSlider(SliderToQuality(QualityToSlider(quality)))) ==
            SliderToQuality(QualityToSlider(quality))
  {
  }

  /** Moving the slider sets only the quality, to the level at that position. */
  lemma SliderChangeSelectsLevel(settings: CompressionSettings, position: nat)
    requires position <= SliderMax
    ensures var s := OnSliderChange(settings, position);
            QualityToSlider(s.quality) == position &&
            GetCompressionLevel(s.quality) == CompressionLevels[position] &&
            s == settings.(quality := s.quality)
  {
    SliderRoundTrip(position);
  }

  lemma UpdateNothing(settings: CompressionSettings)
    ensures UpdateSettings(settings, NoChange) == settings
  {
  }

  /** Applying the same partial update twice changes nothing more. */
  lemma UpdateIdempotent(settings: CompressionSettings, partial: PartialSettings)
    ensures UpdateSettings(UpdateSettings(settings, partial), partial) == UpdateSettings(settings, partial)
  {
  }

  /** Two updates in turn are one update with the later properties winning. */
  lemma UpdateCompose(settings: CompressionSettings, first: PartialSettings, second: PartialSettings)
    ensures UpdateSettings(UpdateSettings(settings, first), second) == UpdateSettings(settings, Merge(first, second))
  {
  }

  /** The defaults show the "Medium" level at slider position 1. */
  lemma DefaultLevel()
    ensures GetCompressionLevel(GetDefaultSettings().quality).name == "Medium"
    ensures QualityToSlider(GetDefaultSettings().quality) == 1
  {
  }
}
